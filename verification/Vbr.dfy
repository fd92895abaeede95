/** Variable-width integers: chunks of `w` bits, low bits first, whose top bit says that another
    chunk follows. */
module Vbr {
  import opened Bits
  import opened Bitstream
  import opened Common

  datatype Decoded = Decoded(value: nat, chunks: nat)

  /** The integer spelled at `pos`, without any bound on its size. */
  ghost function Decode(bits: BitSeq, pos: nat, w: nat): Option<Decoded>
    requires w >= 1
    decreases |bits| - pos
  {
    if pos + w > |bits| then None
    else
      var piece := ToNat(bits[pos..pos + w]);
      if !TestBit(piece, w - 1) then Some(Decoded(piece, 1))
      else
        match Decode(bits, pos + w, w)
        case None => None
        case Some(d) => Some(Decoded(Mask(piece, w - 1) + ShiftLeft(d.value, w - 1), d.chunks + 1))
  }

  /** The bits taken by `k` chunks of `n` bits. */
  ghost function Times(k: nat, n: nat): nat {
    if k == 0 then 0 else Times(k - 1, n) + n
  }

  lemma TimesNext(k: nat, n: nat)
    ensures Times(k + 1, n) == Times(k, n) + n && Times(0, n) == 0
  {
  }

  lemma OneTimes(n: nat)
    ensures Times(1, n) == n
  {
  }

  lemma {:induction false} TimesMonotone(j: nat, k: nat, n: nat)
    requires j <= k
    ensures Times(j, n) <= Times(k, n)
    decreases k
  {
    if j < k {
      TimesMonotone(j, k - 1, n);
    }
  }

  /** The readers stop after the chunk whose lowest bit is bit 63 or below. */
  ghost predicate Bounded(d: Decoded, w: nat) {
    d.chunks >= 1 && w >= 1 && Times(d.chunks - 1, w - 1) < 64
  }

  /** The low 32 bits stand for the value: it fits, or it is a sign-extended 32-bit value. */
  predicate Fits32(v: nat) {
    v <= UINT32_MAX || (TestBit(v, 31) && ShiftRight(v, 32) == UINT32_MAX)
  }

  /** After `k` chunks the accumulator holds the value so far, and the rest is what the
      remaining chunks spell. */
  ghost predicate Progress(bits: BitSeq, start: nat, w: nat, k: nat, shift: nat, result: nat)
    requires w >= 1
  {
    var whole, rest := Decode(bits, start, w), Decode(bits, start + Times(k, w), w);
    && shift == Times(k, w - 1)
    && (whole.Some? <==> rest.Some?)
    && (whole.Some? ==> rest.value.chunks >= 1 && whole.value.chunks == k + rest.value.chunks)
    && (shift < 64 ==> result < Pow2(shift))
    && (shift < 64 && whole.Some? ==> whole.value.value == result + ShiftLeft(rest.value.value, shift))
  }

  lemma {:induction false} DecodeHasChunks(bits: BitSeq, pos: nat, w: nat)
    requires w >= 1
    ensures Decode(bits, pos, w).Some? ==>
      Decode(bits, pos, w).value.chunks >= 1 && pos + Times(Decode(bits, pos, w).value.chunks, w) <= |bits|
    decreases |bits| - pos
  {
    if pos + w <= |bits| {
      DecodeHasChunks(bits, pos + w, w);
    }
  }

  /** The bits of `k` chunks from `pos` on, without the top one of each. */
  ghost function Payload(bits: BitSeq, pos: nat, w: nat, k: nat): BitSeq
    requires w >= 1 && pos + Times(k, w) <= |bits|
  {
    if k == 0 then []
    else
      TimesNext(k - 1, w);
      Payload(bits, pos, w, k - 1) + bits[pos + Times(k - 1, w)..pos + Times(k - 1, w) + (w - 1)]
  }

  /** Every chunk but the last of the `k` from `pos` on says that another follows. */
  ghost predicate Chunks(bits: BitSeq, pos: nat, w: nat, k: nat)
    requires w >= 1
  {
    && 0 < k && pos + Times(k, w) <= |bits|
    && forall j: nat :: j < k && pos + Times(j, w) + w <= |bits| ==> bits[pos + Times(j, w) + (w - 1)] == (j < k - 1)
  }

  lemma {:induction false} TimesFirst(k: nat, n: nat)
    requires 0 < k
    ensures Times(k, n) == n + Times(k - 1, n)
  {
    if k > 1 {
      TimesFirst(k - 1, n);
    }
  }

  lemma PayloadNext(bits: BitSeq, pos: nat, w: nat, k: nat)
    requires w >= 1 && pos + Times(k, w) + w <= |bits|
    ensures Times(k + 1, w) == Times(k, w) + w
    ensures Payload(bits, pos, w, k + 1) ==
      Payload(bits, pos, w, k) + bits[pos + Times(k, w)..pos + Times(k, w) + (w - 1)]
    ensures Times(0, w) == 0 && Payload(bits, pos, w, 0) == []
  {
    TimesNext(k, w);
  }

  lemma NoPayload(bits: BitSeq, pos: nat, w: nat)
    requires w >= 1 && pos <= |bits|
    ensures Times(0, w) == 0 && Payload(bits, pos, w, 0) == []
  {
  }

  lemma {:induction false} PayloadFirst(bits: BitSeq, pos: nat, w: nat, k: nat)
    requires w >= 1 && 0 < k && pos + Times(k, w) <= |bits|
    ensures pos + w + Times(k - 1, w) <= |bits|
    ensures Payload(bits, pos, w, k) == bits[pos..pos + (w - 1)] + Payload(bits, pos + w, w, k - 1)
  {
    hide Payload, Times;
    TimesFirst(k, w);
    if k > 1 {
      TimesFirst(k - 1, w);
      TimesNext(k - 2, w);
      PayloadFirst(bits, pos, w, k - 1);
      PayloadNext(bits, pos, w, k - 1);
      PayloadNext(bits, pos + w, w, k - 2);
    } else {
      OneTimes(w);
      TimesNext(0, w);
      PayloadNext(bits, pos, w, 0);
      NoPayload(bits, pos + w, w);
    }
  }

  lemma PieceBits(bits: BitSeq, pos: nat, w: nat)
    requires w >= 1 && pos + w <= |bits|
    ensures var piece := ToNat(bits[pos..pos + w]);
      TestBit(piece, w - 1) == bits[pos + w - 1] && Mask(piece, w - 1) == ToNat(bits[pos..pos + (w - 1)])
  {
    var b := bits[pos..pos + w];
    MaskAndShift(b, w - 1);
    assert b[..w - 1] == bits[pos..pos + (w - 1)];
    assert b[w - 1..] == [bits[pos + w - 1]] && b[w - 1..][1..] == [];
    assert ToNat([]) == 0;
    assert ToNat(b[w - 1..]) == if bits[pos + w - 1] then 1 else 0;
  }

  /** What is spelled at `pos` is the number of the payload of as many chunks as follow each other there. */
  lemma {:induction false} DecodeIs(bits: BitSeq, pos: nat, w: nat)
    requires w >= 1
    ensures Decode(bits, pos, w).Some? ==>
      var d := Decode(bits, pos, w).value;
      Chunks(bits, pos, w, d.chunks) && d.value == ToNat(Payload(bits, pos, w, d.chunks))
    ensures Decode(bits, pos, w).None? ==> forall k: nat :: !Chunks(bits, pos, w, k)
    decreases |bits| - pos
  {
    hide ToNat, Chunks, Payload, TestBit, Mask, ShiftLeft;
    forall k: nat
      ensures Chunks(bits, pos, w, k) ==> pos + w <= |bits|
      ensures pos + w <= |bits| ==>
        (Chunks(bits, pos, w, k) <==>
           if bits[pos + w - 1] then 1 < k && Chunks(bits, pos + w, w, k - 1) else k == 1)
    {
      ChunksFirst(bits, pos, w, k);
    }
    if pos + w <= |bits| {
      PieceBits(bits, pos, w);
      DecodeIs(bits, pos + w, w);
      var rest := Decode(bits, pos + w, w);
      if !bits[pos + w - 1] {
        OneChunkPayload(bits, pos, w);
      } else if rest.Some? {
        var k := rest.value.chunks;
        ChunksFit(bits, pos, w, k + 1);
        ChunksFit(bits, pos + w, w, k);
        PayloadFirst(bits, pos, w, k + 1);
        ToNatConcat(bits[pos..pos + (w - 1)], Payload(bits, pos + w, w, k));
      }
    }
  }

  lemma ChunksFit(bits: BitSeq, pos: nat, w: nat, k: nat)
    requires w >= 1 && Chunks(bits, pos, w, k)
    ensures 0 < k && pos + Times(k, w) <= |bits|
  {
  }

  lemma OneChunkPayload(bits: BitSeq, pos: nat, w: nat)
    requires w >= 1 && pos + w <= |bits| && !bits[pos + w - 1]
    ensures Times(1, w) == w && Payload(bits, pos, w, 1) == bits[pos..pos + (w - 1)]
    ensures ToNat(bits[pos..pos + w]) == ToNat(Payload(bits, pos, w, 1))
  {
    OneTimes(w);
    PieceBits(bits, pos, w);
    ToNatBound(bits[pos..pos + w]);
    TopBit(ToNat(bits[pos..pos + w]), w);
  }

  lemma ChunksFirst(bits: BitSeq, pos: nat, w: nat, k: nat)
    requires w >= 1
    ensures Chunks(bits, pos, w, k) ==> pos + w <= |bits|
    ensures pos + w <= |bits| ==>
      (Chunks(bits, pos, w, k) <==>
         if bits[pos + w - 1] then 1 < k && Chunks(bits, pos + w, w, k - 1) else k == 1)
  {
    OneTimes(w);
    if 0 < k {
      TimesFirst(k, w);
    }
    if pos + w <= |bits| && Chunks(bits, pos, w, k) {
      assert pos + Times(0, w) + w <= |bits|;
      assert bits[pos + Times(0, w) + (w - 1)] == (0 < k - 1);
      forall j: nat | j < k - 1 && pos + w + Times(j, w) + w <= |bits|
        ensures bits[pos + w + Times(j, w) + (w - 1)] == (j < k - 2)
      {
        TimesFirst(j + 1, w);
        assert pos + Times(j + 1, w) + w <= |bits|;
      }
    }
    if pos + w <= |bits| && bits[pos + w - 1] && 1 < k && Chunks(bits, pos + w, w, k - 1) {
      forall j: nat | j < k && pos + Times(j, w) + w <= |bits|
        ensures bits[pos + Times(j, w) + (w - 1)] == (j < k - 1)
      {
        if 0 < j {
          TimesFirst(j, w);
          assert pos + w + Times(j - 1, w) + w <= |bits|;
        }
      }
    }
  }

  /** Chunks of one bit carry nothing: they spell zero, in as many bits as there are up to the first zero bit. */
  lemma {:induction false} OneBitChunks(bits: BitSeq, pos: nat)
    ensures match Decode(bits, pos, 1)
      case None => forall i :: pos <= i < |bits| ==> bits[i]
      case Some(d) =>
        && d.value == 0 && d.chunks >= 1 && pos + d.chunks <= |bits| && !bits[pos + d.chunks - 1]
        && (forall i :: pos <= i < pos + d.chunks - 1 ==> bits[i])
    decreases |bits| - pos
  {
    if pos < |bits| {
      var one := bits[pos..pos + 1];
      var piece := ToNat(one);
      assert one[0] == bits[pos] && one[1..] == [] && ToNat([]) == 0;
      assert ToNat(one) == (if one[0] then 1 else 0) + 2 * ToNat(one[1..]);
      assert piece == if bits[pos] then 1 else 0;
      assert TestBit(piece, 0) == bits[pos] && Mask(piece, 0) == 0 && ShiftLeft(0, 0) == 0;
      OneBitChunks(bits, pos + 1);
    }
  }

  lemma {:induction false} TimesIs(k: nat, n: nat)
    ensures Times(k, n) == k * n
  {
    if 0 < k {
      TimesIs(k - 1, n);
      assert k * n == (k - 1) * n + n;
    }
  }

  /** In numbers: the last chunk starts below bit 64. */
  lemma BoundedIs(d: Decoded, w: nat)
    requires w >= 1
    ensures Bounded(d, w) <==> d.chunks >= 1 && (d.chunks - 1) * (w - 1) < 64
  {
    if d.chunks >= 1 {
      TimesIs(d.chunks - 1, w - 1);
    }
  }

  /** In numbers: 32 bits stand for what is below 2^32, and for the 2^31 greatest 64-bit numbers. */
  lemma Fits32Is(v: nat)
    requires v < 0x1_0000_0000_0000_0000
    ensures Fits32(v) <==> v < 0x1_0000_0000 || 0xffff_ffff_8000_0000 <= v
  {
    WordShifts(v);
  }

  /** What a reader of 64-bit values promises. */
  ghost predicate Reads64(bits: BitSeq, start: nat, w: nat, r: Option<nat>)
    requires w >= 1
  {
    var d := Decode(bits, start, w);
    && (r.Some? <==> d.Some? && Bounded(d.value, w))
    && (r.Some? ==> r.value == Mask(d.value.value, 64))
  }

  /** What a reader of 32-bit values promises: it fails on values that 32 bits cannot stand for. */
  ghost predicate Reads32(bits: BitSeq, start: nat, w: nat, r: Option<nat>)
    requires w >= 1
  {
    var d := Decode(bits, start, w);
    && (r.Some? <==> d.Some? && Bounded(d.value, w) && Fits32(Mask(d.value.value, 64)))
    && (r.Some? ==> r.value == Mask(Mask(d.value.value, 64), 32))
  }

  lemma ProgressStart(bits: BitSeq, start: nat, w: nat)
    requires w >= 1
    ensures Progress(bits, start, w, 0, 0, 0)
  {
    DecodeHasChunks(bits, start, w);
    TimesNext(0, w);
    TimesNext(0, w - 1);
  }

  /** Adding the chunk `x` at `shift`. */
  lemma Accumulate(result: nat, x: nat, rest: nat, shift: nat, w: nat)
    requires w >= 1 && result < Pow2(shift) && x < Pow2(w - 1)
    ensures OrAbove(result, x, shift) < Pow2(shift + (w - 1))
    ensures result + ShiftLeft(x + ShiftLeft(rest, w - 1), shift)
      == OrAbove(result, x, shift) + ShiftLeft(rest, shift + (w - 1))
  {
    ShiftBound(result, x, shift, w - 1);
    ShiftSum(x, ShiftLeft(rest, w - 1), shift);
    ShiftTwice(rest, w - 1, shift);
  }

  /** The last chunk completes the value. */
  lemma ProgressLast(bits: BitSeq, start: nat, w: nat, k: nat, shift: nat, result: nat, piece: nat)
    requires 1 <= w <= 32 && Progress(bits, start, w, k, shift, result) && shift < 64
    requires start + Times(k, w) + w <= |bits| && piece == ToNat(bits[start + Times(k, w)..start + Times(k, w) + w])
    requires !TestBit(piece, w - 1)
    ensures result < Pow2(shift)
    ensures var whole := Decode(bits, start, w);
      whole.Some? && Bounded(whole.value, w) && whole.value.chunks == k + 1
      && OrAbove(result, Mask(piece, w - 1), shift) == whole.value.value
    ensures Reads64(bits, start, w, Some(Mask(OrAbove(result, Mask(piece, w - 1), shift), 64)))
  {
    hide ToNat, Pow2, Mask, ShiftLeft, ShiftRight, TestBit, Times;
    var at := start + Times(k, w);
    ToNatBound(bits[at..at + w]);
    TopBit(piece, w);
    MaskSmall(piece, w - 1);
    assert Decode(bits, at, w) == Some(Decoded(piece, 1));

  }

  lemma DecodeStep(bits: BitSeq, at: nat, w: nat, piece: nat)
    requires w >= 1 && at + w <= |bits| && piece == ToNat(bits[at..at + w]) && TestBit(piece, w - 1)
    ensures Decode(bits, at, w).Some? <==> Decode(bits, at + w, w).Some?
    ensures Decode(bits, at, w).Some? ==>
      && Decode(bits, at, w).value.value == Mask(piece, w - 1) + ShiftLeft(Decode(bits, at + w, w).value.value, w - 1)
      && Decode(bits, at, w).value.chunks == Decode(bits, at + w, w).value.chunks + 1
      && Decode(bits, at + w, w).value.chunks >= 1
  {
    DecodeHasChunks(bits, at + w, w);
  }

  /** One more chunk keeps the accumulator in step. */
  lemma ProgressMore(bits: BitSeq, start: nat, w: nat, k: nat, shift: nat, result: nat, piece: nat)
    requires 1 <= w <= 32 && Progress(bits, start, w, k, shift, result) && shift < 64
    requires start + Times(k, w) + w <= |bits| && piece == ToNat(bits[start + Times(k, w)..start + Times(k, w) + w])
    requires TestBit(piece, w - 1)
    ensures result < Pow2(shift) && Times(k + 1, w) == Times(k, w) + w
    ensures Progress(bits, start, w, k + 1, shift + (w - 1), Mask(OrAbove(result, Mask(piece, w - 1), shift), 64))
  {
    var at := start + Times(k, w);
    ToNatBound(bits[at..at + w]);
    TopBit(piece, w);
    MaskSmall(piece, w - 1);
    TimesNext(k, w);
    DecodeStep(bits, at, w, piece);
    hide Mask, Progress, TestBit, ToNat, Pow2, Decode, OrAbove;
    ProgressFits(bits, start, w, k, shift, result);
    ProgressNext(bits, start, w, k, shift, result, Mask(piece, w - 1));
  }

  lemma ProgressNext(bits: BitSeq, start: nat, w: nat, k: nat, shift: nat, result: nat, x: nat)
    requires 1 <= w <= 32 && Progress(bits, start, w, k, shift, result) && shift < 64 && x < Pow2(w - 1)
    requires var here, rest := Decode(bits, start + Times(k, w), w), Decode(bits, start + Times(k, w) + w, w);
      && (here.Some? <==> rest.Some?)
      && (here.Some? ==> here.value.chunks == rest.value.chunks + 1 && rest.value.chunks >= 1)
      && (here.Some? ==> here.value.value == x + ShiftLeft(rest.value.value, w - 1))
    ensures result < Pow2(shift)
    ensures Progress(bits, start, w, k + 1, shift + (w - 1), Mask(OrAbove(result, x, shift), 64))
  {
    hide Pow2, ShiftLeft, Times, OrAbove, Decode, Mask;
    TimesNext(k, w);
    TimesNext(k, w - 1);
    assert start + Times(k + 1, w) == start + Times(k, w) + w;
    var rest := Decode(bits, start + Times(k, w) + w, w);
    AddChunk(result, x, if rest.Some? then rest.value.value else 0, shift, w);
  }

  lemma AddChunk(result: nat, x: nat, rest: nat, shift: nat, w: nat)
    requires w >= 1 && result < Pow2(shift) && x < Pow2(w - 1)
    ensures shift + (w - 1) < 64 ==>
      var sum := Mask(OrAbove(result, x, shift), 64);
      && sum < Pow2(shift + (w - 1))
      && result + ShiftLeft(x + ShiftLeft(rest, w - 1), shift) == sum + ShiftLeft(rest, shift + (w - 1))
  {
    hide Pow2, ShiftLeft, OrAbove;
    var sum := OrAbove(result, x, shift);
    Accumulate(result, x, rest, shift, w);
    if shift + (w - 1) < 64 {
      PowMonotone(shift + (w - 1), 64);
      MaskSmall(sum, 64);
    }
  }

  lemma FirstChunk(piece: nat, w: nat)
    requires 1 <= w <= 32 && piece < Pow2(w)
    ensures Pow2(0) == 1 && Mask(OrAbove(0, Mask(piece, w - 1), 0), 64) == Mask(piece, w - 1)
    ensures !TestBit(piece, w - 1) ==> Mask(piece, w - 1) == piece && Mask(piece, 64) == piece
  {
    TopBit(piece, w);
    MaskSmall(piece, w - 1);
    PowMonotone(w, 64);
    PowMonotone(w - 1, 64);
    MaskSmall(piece, w - 1);
    MaskSmall(piece, 64);
    MaskSmall(Mask(piece, w - 1), 64);
  }

  lemma ProgressBroken(bits: BitSeq, start: nat, w: nat, k: nat, shift: nat, result: nat)
    requires w >= 1 && Progress(bits, start, w, k, shift, result)
    requires shift >= 64 || start + Times(k, w) + w > |bits|
    ensures Reads64(bits, start, w, None)
  {
    hide Decode, Times, Pow2, ShiftLeft, Mask;
    if shift < 64 {
      CutShort(bits, start + Times(k, w), w);
    }
    var whole := Decode(bits, start, w);
    if whole.Some? {
      TimesMonotone(k, whole.value.chunks - 1, w - 1);
    }
  }

  lemma CutShort(bits: BitSeq, pos: nat, w: nat)
    requires w >= 1 && pos + w > |bits|
    ensures Decode(bits, pos, w).None?
  {
  }

  /** Reads the chunks after a first chunk that announces them. */
  method ReadMoreChunks(bs: BitStream, w: nat, first: nat, ghost start: nat) returns (r: Option<nat>)
    requires bs.Valid() && 1 <= w <= 32 && bs.bitOffset == start + w
    requires Progress(bs.AllBits(), start, w, 1, w - 1, first)
    modifies bs
    ensures Reads64(bs.AllBits(), start, w, r)
    ensures r.Some? ==> bs.Valid() && bs.bitOffset == start + Times(Decode(bs.AllBits(), start, w).value.chunks, w)
  {
    hide *;
    ghost var bits := bs.AllBits();
    ghost var k := 1;
    var result: nat := first;
    var shift: nat := w - 1;
    OneTimes(w);
    while shift < 64
      invariant bs.Valid() && bs.bitOffset == start + Times(k, w)
      invariant Progress(bits, start, w, k, shift, result)
      decreases |bits| - bs.bitOffset
    {
      var piece := bs.Read(w);
      OneChunk(bits, start, w, k, shift, result, piece);
      if piece.None? {
        return None;
      }
      result := Mask(OrAbove(result, Mask(piece.value, w - 1), shift), 64);
      if !TestBit(piece.value, w - 1) {
        return Some(result);
      }
      shift := shift + (w - 1);
      k := k + 1;
    }
    ProgressBroken(bits, start, w, k, shift, result);
    return None;
  }

  /** What one chunk decides. */
  lemma OneChunk(bits: BitSeq, start: nat, w: nat, k: nat, shift: nat, result: nat, piece: Option<nat>)
    requires 1 <= w <= 32 && Progress(bits, start, w, k, shift, result) && shift < 64
    requires ReadsBits(bits, start + Times(k, w), w, piece)
    ensures result < Pow2(shift) && Times(k + 1, w) == Times(k, w) + w
    ensures piece.None? ==> Reads64(bits, start, w, None)
    ensures piece.Some? ==>
      var next := Mask(OrAbove(result, Mask(piece.value, w - 1), shift), 64);
      if TestBit(piece.value, w - 1) then Progress(bits, start, w, k + 1, shift + (w - 1), next)
      else
        var d := Decode(bits, start, w);
        Reads64(bits, start, w, Some(next)) && d.Some? && d.value.chunks == k + 1
  {
    hide Decode, Progress, TestBit, Mask, OrAbove, ToNat, Bounded, Times, Pow2, Reads64;
    ProgressFits(bits, start, w, k, shift, result);
    TimesNext(k, w);
    if piece.None? {
      ProgressBroken(bits, start, w, k, shift, result);
    } else if TestBit(piece.value, w - 1) {
      ProgressMore(bits, start, w, k, shift, result, piece.value);
    } else {
      ProgressLast(bits, start, w, k, shift, result, piece.value);
    }
  }

  lemma ProgressFits(bits: BitSeq, start: nat, w: nat, k: nat, shift: nat, result: nat)
    requires w >= 1 && Progress(bits, start, w, k, shift, result) && shift < 64
    ensures result < Pow2(shift)
  {
  }

  /** What the first chunk alone decides. */
  lemma AfterFirst(bits: BitSeq, start: nat, w: nat, piece: Option<nat>)
    requires 1 <= w <= 32 && ReadsBits(bits, start, w, piece)
    ensures piece.None? ==> Decode(bits, start, w).None?
    ensures piece.Some? && TestBit(piece.value, w - 1) ==> Progress(bits, start, w, 1, w - 1, Mask(piece.value, w - 1))
    ensures piece.Some? && !TestBit(piece.value, w - 1) ==>
      && Decode(bits, start, w) == Some(Decoded(piece.value, 1)) && Bounded(Decoded(piece.value, 1), w)
      && piece.value <= UINT32_MAX && Times(1, w) == w
  {
    if piece.Some? {
      ToNatBound(bits[start..start + w]);
      ReadFits(bits[start..start + w]);
      hide ToNat, Mask, Pow2, TestBit, Progress, Times, OrAbove;
      FirstChunk(piece.value, w);
      ProgressStart(bits, start, w);
      TimesNext(0, w);
      TimesNext(0, w - 1);
      if TestBit(piece.value, w - 1) {
        ProgressMore(bits, start, w, 0, 0, 0, piece.value);
      }
    }
  }

  lemma SmallIsItself(v: nat)
    requires v <= UINT32_MAX
    ensures Mask(v, 64) == v && Mask(v, 32) == v
  {
    Pow2Word();
    MaskSmall(v, 64);
    MaskSmall(v, 32);
  }

  /** pn_bitstream_read_vbr_uint64 */
  method ReadVbrUint64(bs: BitStream, w: nat) returns (r: Option<nat>)
    requires bs.Valid() && 1 <= w <= 32
    modifies bs
    ensures Reads64(bs.AllBits(), old(bs.bitOffset), w, r)
    ensures r.Some? ==> bs.Valid()
    ensures r.Some? ==>
      bs.bitOffset == old(bs.bitOffset) + Times(Decode(bs.AllBits(), old(bs.bitOffset), w).value.chunks, w)
  {
    ghost var bits, start := bs.AllBits(), bs.bitOffset;
    hide Decode, Progress, TestBit, Mask, ToNat, DataBits, Bounded, Times, BitStream.Valid, ReadsBits;
    var piece := bs.Read(w);
    AfterFirst(bits, start, w, piece);
    if piece.None? {
      return None;
    }
    if !TestBit(piece.value, w - 1) {
      SmallIsItself(piece.value);
      return piece;
    }
    r := ReadMoreChunks(bs, w, Mask(piece.value, w - 1), start);
  }

  /** pn_bitstream_read_vbr: the width 6 goes to its own reader. */
  method ReadVbr(bs: BitStream, w: nat) returns (r: Option<nat>)
    requires bs.Valid() && 1 <= w <= 32
    modifies bs
    ensures Reads32(bs.AllBits(), old(bs.bitOffset), w, r)
    ensures r.Some? ==> bs.Valid()
    ensures r.Some? ==>
      bs.bitOffset == old(bs.bitOffset) + Times(Decode(bs.AllBits(), old(bs.bitOffset), w).value.chunks, w)
  {
    if w == 6 {
      r := ReadVbr6(bs);
      return;
    }
    ghost var bits, start := bs.AllBits(), bs.bitOffset;
    hide Decode, Progress, TestBit, Mask, ToNat, DataBits, Bounded, Times, ShiftRight, BitStream.Valid, ReadsBits;
    var piece := bs.Read(w);
    AfterFirst(bits, start, w, piece);
    if piece.None? {
      return None;
    }
    if !TestBit(piece.value, w - 1) {
      SmallIsItself(piece.value);
      return piece;
    }
    var wide := ReadMoreChunks(bs, w, Mask(piece.value, w - 1), start);
    r := Narrow(wide);
  }

  /** The low five bits of a six-bit piece, `piece & 31`, and its top bit, `piece & 32`. */
  lemma SixBits(piece: nat)
    requires piece < 64
    ensures piece % 32 == Mask(piece, 5) && (piece / 32 == 1 <==> TestBit(piece, 5))
  {
    var a, b, c, d := piece / 2, piece / 4, piece / 8, piece / 16;
    assert a / 2 == b && b / 2 == c && c / 2 == d && d / 2 == piece / 32;
    assert Mask(d, 1) == d % 2 && ShiftRight(d, 1) == piece / 32;
    assert Mask(c, 2) == c % 2 + 2 * Mask(d, 1) && ShiftRight(c, 2) == ShiftRight(d, 1);
    assert Mask(b, 3) == b % 2 + 2 * Mask(c, 2) && ShiftRight(b, 3) == ShiftRight(c, 2);
    assert Mask(a, 4) == a % 2 + 2 * Mask(b, 3) && ShiftRight(a, 4) == ShiftRight(b, 3);
  }

  lemma SixBitsRead(bits: BitSeq, at: nat, piece: Option<nat>)
    requires ReadsBits(bits, at, 6, piece) && piece.Some?
    ensures piece.value < 64
  {
    ToNatBound(bits[at..at + 6]);
    assert Pow2(3) == 8;
    assert Pow2(6) == 64;
  }

  /** The loop of the reader for six-bit chunks, with its own constants. */
  method ReadMoreChunks6(bs: BitStream, first: nat, ghost start: nat) returns (r: Option<nat>)
    requires bs.Valid() && bs.bitOffset == start + 6
    requires Progress(bs.AllBits(), start, 6, 1, 5, first)
    modifies bs
    ensures Reads64(bs.AllBits(), start, 6, r)
    ensures r.Some? ==> bs.Valid() && bs.bitOffset == start + Times(Decode(bs.AllBits(), start, 6).value.chunks, 6)
  {
    hide *;
    ghost var bits := bs.AllBits();
    ghost var k := 1;
    var result: nat := first;
    var shift: nat := 5;
    OneTimes(6);
    while shift < 64
      invariant bs.Valid() && bs.bitOffset == start + Times(k, 6)
      invariant Progress(bits, start, 6, k, shift, result)
      decreases 64 - shift
    {
      ghost var at := bs.bitOffset;
      var piece := bs.Read(6);
      OneChunk(bits, start, 6, k, shift, result, piece);
      if piece.None? {
        return None;
      }
      SixBitsRead(bits, at, piece);
      SixBits(piece.value);
      result := Mask(OrAbove(result, piece.value % 32, shift), 64);
      if piece.value / 32 == 0 {
        return Some(result);
      }
      shift := shift + 5;
      k := k + 1;
    }
    ProgressBroken(bits, start, 6, k, shift, result);
    return None;
  }

  /** pn_bitstream_read_vbr6 */
  method ReadVbr6(bs: BitStream) returns (r: Option<nat>)
    requires bs.Valid()
    modifies bs
    ensures Reads32(bs.AllBits(), old(bs.bitOffset), 6, r)
    ensures r.Some? ==> bs.Valid()
    ensures r.Some? ==>
      bs.bitOffset == old(bs.bitOffset) + Times(Decode(bs.AllBits(), old(bs.bitOffset), 6).value.chunks, 6)
  {
    ghost var bits, start := bs.AllBits(), bs.bitOffset;
    hide Decode, Progress, TestBit, Mask, ToNat, DataBits, Bounded, Times, ShiftRight, BitStream.Valid, ReadsBits;
    var piece := bs.Read(6);
    AfterFirst(bits, start, 6, piece);
    if piece.None? {
      return None;
    }
    SixBitsRead(bits, start, piece);
    SixBits(piece.value);
    if piece.value / 32 == 0 {
      SmallIsItself(piece.value);
      return piece;
    }
    var wide := ReadMoreChunks6(bs, piece.value % 32, start);
    r := Narrow(wide);
  }

  /** The check and truncation at the end of the 32-bit readers. */
  function Narrow(wide: Option<nat>): Option<nat> {
    if wide.Some? && Fits32(wide.value) then Some(Mask(wide.value, 32)) else None
  }

  // ----- encoding -----

  /** The chunks a writer produces: `w - 1` bits each, low bits first, no more than needed. */
  ghost function Encode(v: nat, w: nat): BitSeq
    requires w >= 2
    decreases v
  {
    if v < Pow2(w - 1) then FromNat(v, w)
    else
      ShiftPositive(v, w - 1);
      FromNat(Mask(v, w - 1) + Pow2(w - 1), w) + Encode(ShiftRight(v, w - 1), w)
  }

  ghost function ChunkCount(v: nat, w: nat): nat
    requires w >= 2
    decreases v
  {
    if v < Pow2(w - 1) then 1
    else
      ShiftPositive(v, w - 1);
      1 + ChunkCount(ShiftRight(v, w - 1), w)
  }

  lemma {:induction false} EncodeLength(v: nat, w: nat)
    requires w >= 2
    ensures |Encode(v, w)| == Times(ChunkCount(v, w), w) && ChunkCount(v, w) >= 1
    decreases v
  {
    if v >= Pow2(w - 1) {
      ShiftPositive(v, w - 1);
      EncodeLength(ShiftRight(v, w - 1), w);
    } else {
      TimesNext(0, w);
    }
  }

  /** `part` stands in `bits` at `pos`. */
  ghost predicate At(bits: BitSeq, pos: nat, part: BitSeq) {
    pos + |part| <= |bits| && bits[pos..pos + |part|] == part
  }

  lemma AtConcat(bits: BitSeq, pos: nat, a: BitSeq, b: BitSeq)
    requires At(bits, pos, a + b)
    ensures At(bits, pos, a) && At(bits, pos + |a|, b)
  {
    assert bits[pos..pos + |a + b|][..|a|] == a;
    assert bits[pos..pos + |a + b|][|a|..] == b;
  }

  /** The first chunk of a value that needs more than one. */
  lemma EncodeFirst(v: nat, w: nat) returns (first: BitSeq, u: nat)
    requires w >= 2 && v >= Pow2(w - 1)
    ensures u == ShiftRight(v, w - 1) < v
    ensures Encode(v, w) == first + Encode(u, w) && |first| == w && ChunkCount(v, w) == 1 + ChunkCount(u, w)
    ensures TestBit(ToNat(first), w - 1) && v == Mask(ToNat(first), w - 1) + ShiftLeft(u, w - 1)
  {
    ShiftPositive(v, w - 1);
    u := ShiftRight(v, w - 1);
    var m := Mask(v, w - 1);
    first := FromNat(m + Pow2(w - 1), w);
    MaskSmall(v, w - 1);
    SetTopBit(m, w - 1);
    ToFrom(m + Pow2(w - 1), w);
    SplitAt(v, w - 1);
  }

  /** Decoding the chunks of `v` gives `v` back, whatever follows them. */
  lemma {:induction false} DecodeEncode(bits: BitSeq, pos: nat, v: nat, w: nat)
    requires w >= 2 && At(bits, pos, Encode(v, w))
    ensures Decode(bits, pos, w) == Some(Decoded(v, ChunkCount(v, w)))
    decreases v
  {
    if v < Pow2(w - 1) {
      PowMonotone(w - 1, w);
      ToFrom(v, w);
      NotTop(v, w);
    } else {
      var first, u := EncodeFirst(v, w);
      hide Encode, Mask, ShiftLeft, ShiftRight, TestBit, ToNat, ChunkCount, Pow2;
      AtConcat(bits, pos, first, Encode(u, w));
      DecodeEncode(bits, pos + w, u, w);
    }
  }

  lemma NotTop(v: nat, w: nat)
    requires w >= 1 && v < Pow2(w - 1)
    ensures v < Pow2(w) && !TestBit(v, w - 1)
  {
    PowMonotone(w - 1, w);
    MaskSmall(v, w - 1);
  }

  lemma {:induction false} ChunksNeeded(v: nat, w: nat)
    requires w >= 2 && v >= 1
    ensures ChunkCount(v, w) >= 1 && v >= Pow2(Times(ChunkCount(v, w) - 1, w - 1))
    decreases v
  {
    if v >= Pow2(w - 1) {
      var u := ShiftRight(v, w - 1);
      ShiftPositive(v, w - 1);
      ChunksNeeded(u, w);
      TimesNext(ChunkCount(u, w) - 1, w - 1);
      ShiftLower(v, w - 1, Times(ChunkCount(u, w) - 1, w - 1));
    }
  }

  lemma EncodeBounded(v: nat, w: nat)
    requires w >= 2 && v < Pow2(64)
    ensures Bounded(Decoded(v, ChunkCount(v, w)), w)
  {
    if v >= 1 {
      ChunksNeeded(v, w);
      if Times(ChunkCount(v, w) - 1, w - 1) >= 64 {
        PowMonotone(64, Times(ChunkCount(v, w) - 1, w - 1));
      }
    }
  }

  /** Reading back an encoded value of 64 bits. */
  lemma RoundTrip64(bits: BitSeq, pos: nat, v: nat, w: nat, r: Option<nat>)
    requires 2 <= w <= 32 && v < Pow2(64)
    requires At(bits, pos, Encode(v, w)) && Reads64(bits, pos, w, r)
    ensures r == Some(v)
    ensures Decode(bits, pos, w).Some? && Times(Decode(bits, pos, w).value.chunks, w) == |Encode(v, w)|
  {
    DecodeEncode(bits, pos, v, w);
    EncodeBounded(v, w);
    EncodeLength(v, w);
    MaskSmall(v, 64);
  }

  /** Reading back an encoded value through the 32-bit reader: values of 32 bits come back
      unchanged, sign-extended values come back as their low 32 bits, and all others are refused. */
  lemma RoundTrip32(bits: BitSeq, pos: nat, v: nat, w: nat, r: Option<nat>)
    requires 2 <= w <= 32 && v < Pow2(64)
    requires At(bits, pos, Encode(v, w)) && Reads32(bits, pos, w, r)
    ensures r == if Fits32(v) then Some(Mask(v, 32)) else None
    ensures v <= UINT32_MAX ==> r == Some(v)
    ensures Decode(bits, pos, w).Some? && Times(Decode(bits, pos, w).value.chunks, w) == |Encode(v, w)|
  {
    DecodeEncode(bits, pos, v, w);
    EncodeBounded(v, w);
    EncodeLength(v, w);
    MaskSmall(v, 64);
    if v <= UINT32_MAX {
      SmallIsItself(v);
    }
  }
}
