/** The word-buffered bit reader. */
module Bitstream {
  import opened Bits
  import opened Common

  type Byte = b: nat | b < 0x100

  /** A multiple of 32, computed in 32 bits. */
  function AlignUp32(x: nat): nat {
    AlignUp(x, 32) % 0x1_0000_0000
  }

  /** It is the next one unless the computation wraps, which it does behind the last word only. */
  lemma AlignUp32Exact(x: nat)
    requires x <= UINT32_MAX
    ensures AlignUp32(x) % 32 == 0
    ensures x <= AlignUp32(x) < x + 32 <==> x <= UINT32_MAX - 31
    ensures x > UINT32_MAX - 31 ==> AlignUp32(x) == 0
  {
  }

  /** The bits of a byte string, low bit of the first byte first. */
  ghost function DataBits(data: seq<Byte>): BitSeq {
    if data == [] then [] else FromNat(data[0], 8) + DataBits(data[1..])
  }

  /** Bit `k` of byte `i` is bit `8 * i + k` of the stream. */
  lemma {:induction false} DataBitAt(data: seq<Byte>, i: nat, k: nat)
    requires i < |data| && k < 8
    ensures 8 * i + k < |DataBits(data)| && DataBits(data)[8 * i + k] == TestBit(data[i], k)
    decreases i
  {
    DataLength(data);
    if i == 0 {
      BitOf(data[0], 8, k);
    } else {
      DataBitAt(data[1..], i - 1, k);
    }
  }

  lemma {:induction false} DataLength(data: seq<Byte>)
    ensures |DataBits(data)| == 8 * |data|
    decreases |data|
  {
    if data != [] {
      DataLength(data[1..]);
    }
  }

  lemma {:induction false} DataConcat(a: seq<Byte>, b: seq<Byte>)
    ensures DataBits(a + b) == DataBits(a) + DataBits(b)
    decreases |a|
  {
    if a == [] {
      assert a + b == b;
    } else {
      assert (a + b)[1..] == a[1..] + b;
      DataConcat(a[1..], b);
    }
  }

  lemma DataSlice(data: seq<Byte>, i: nat, j: nat)
    requires i <= j <= |data|
    ensures |DataBits(data)| == 8 * |data|
    ensures DataBits(data)[8 * i..8 * j] == DataBits(data[i..j])
  {
    var a, b, c := data[..i], data[i..j], data[j..];
    assert data == a + b + c;
    hide DataBits;
    DataConcat(a + b, c);
    DataConcat(a, b);
    DataLength(data);
    DataLength(a);
    DataLength(b);
  }

  /** Four bytes loaded as a little-endian word. */
  function Word(b: seq<Byte>): nat
    requires |b| == 4
  {
    var b0: nat, b1: nat, b2: nat, b3: nat := b[0], b[1], b[2], b[3];
    b0 + 0x100 * b1 + 0x1_0000 * b2 + 0x100_0000 * b3
  }

  lemma WordBits(b: seq<Byte>)
    requires |b| == 4
    ensures Word(b) == ToNat(DataBits(b)) && |DataBits(b)| == 32
  {
    DataLength(b);
    OneByte(b);
    OneByte(b[1..]);
    OneByte(b[1..][1..]);
    OneByte(b[1..][1..][1..]);
    assert b[1..][1..][1..][1..] == [];
  }

  lemma OneByte(b: seq<Byte>)
    requires b != []
    ensures ToNat(DataBits(b)) == b[0] + 0x100 * ToNat(DataBits(b[1..]))
  {
    ToNatConcat(FromNat(b[0], 8), DataBits(b[1..]));
    ShiftByte(ToNat(DataBits(b[1..])));
    Pow2Word();
    ToFrom(b[0], 8);
  }

  /** A word buffer of `k` bits holds the bits that follow `offset`. Its bits above `k` are clear
      unless the buffer reaches the end of the data. */
  ghost predicate Buffered(bits: BitSeq, offset: nat, k: nat, word: nat) {
    && k <= 32 && offset + k <= |bits|
    && ((offset + k) % 32 == 0 || offset + k == |bits|)
    && Mask(word, k) == ToNat(bits[offset..offset + k])
    && (offset + k < |bits| ==> word < Pow2(k))
    && word <= UINT32_MAX
  }

  /** What reading `n` bits at `at` gives: their number, or failure exactly when fewer remain. */
  ghost predicate ReadsBits(bits: BitSeq, at: nat, n: nat, r: Option<nat>) {
    && (r.Some? <==> at + n <= |bits|)
    && (r.Some? ==> r.value == ToNat(bits[at..at + n]) <= UINT32_MAX)
  }

  /** The stream `pn_bitstream_*` reads: `data` is the stream itself and `beyond` is whatever
      follows it in memory, which a word load near the end may touch. */
  class BitStream {
    const data: seq<Byte>
    const beyond: seq<Byte>
    var curword: nat
    var curwordBits: nat
    var bitOffset: nat

    ghost function AllBits(): BitSeq {
      DataBits(data)
    }

    ghost predicate Valid()
      reads this
    {
      |beyond| >= 4 && |AllBits()| == 8 * |data| <= UINT32_MAX && Buffered(AllBits(), bitOffset, curwordBits, curword)
    }

    constructor (data: seq<Byte>, beyond: seq<Byte>)
      requires |beyond| >= 4 && 8 * |data| <= UINT32_MAX
      ensures Valid() && this.data == data && this.beyond == beyond && bitOffset == 0
    {
      this.data := data;
      this.beyond := beyond;
      curword := 0;
      curwordBits := 0;
      bitOffset := 0;
      new;
      DataLength(data);
    }

    /** Takes `n` buffered bits. When all 32 are taken the buffer is cleared. */
    method ReadFracBits(n: nat) returns (r: nat)
      requires Valid() && n <= curwordBits
      modifies `curword, `curwordBits, `bitOffset
      ensures Valid() && bitOffset == old(bitOffset) + n && curwordBits == old(curwordBits) - n
      ensures r == ToNat(AllBits()[old(bitOffset)..bitOffset])
    {
      TakeBits(AllBits(), bitOffset, curwordBits, curword, n);
      hide Buffered, DataBits, ToNat, Mask, ShiftRight;
      if n == 32 {
        r := curword;
        curword := 0;
      } else {
        r := Mask(curword, n);
        curword := ShiftRight(curword, n);
      }
      curwordBits := curwordBits - n;
      bitOffset := bitOffset + n;
    }

    /** Loads the word at the current offset. Fails when the offset is past the end. */
    method FillCurword() returns (ok: bool)
      requires |beyond| >= 4 && |AllBits()| == 8 * |data| <= UINT32_MAX && bitOffset % 8 == 0 && curword <= UINT32_MAX
      requires bitOffset % 32 == 0 || bitOffset == 8 * |data|
      modifies `curword, `curwordBits
      ensures ok <==> bitOffset <= 8 * |data|
      ensures ok ==> Valid()
      ensures ok ==> curwordBits == if bitOffset + 32 <= 8 * |data| then 32 else 8 * |data| - bitOffset
    {
      Pow2Word();
      hide DataBits, ToNat, Pow2, Word, Mask;
      var byteOffset := bitOffset / 8;
      var memory := data + beyond;
      if byteOffset + 4 < |data| {
        curwordBits := 32;
        curword := Word(memory[byteOffset..byteOffset + 4]);
        LoadedWord(data, beyond, byteOffset, 4);
      } else {
        if byteOffset > |data| {
          return false;
        }
        curwordBits := (|data| - byteOffset) * 8;
        if curwordBits == 0 {
          EmptyMask(curword);
          assert AllBits()[bitOffset..bitOffset] == [];
        }
        if curwordBits != 0 {
          curword := Word(memory[byteOffset..byteOffset + 4]);
        }
        LoadedWord(data, beyond, byteOffset, |data| - byteOffset);
      }
      ok := true;
    }

    /** Reads `n` bits. Fails exactly when fewer remain. */
    method Read(n: nat) returns (r: Option<nat>)
      requires Valid() && n <= 32
      modifies `curword, `curwordBits, `bitOffset
      ensures ReadsBits(AllBits(), old(bitOffset), n, r)
      ensures r.Some? ==> Valid() && bitOffset == old(bitOffset) + n
    {
      if n <= curwordBits {
        var value := ReadFracBits(n);
        ReadFits(AllBits()[old(bitOffset)..bitOffset]);
        r := Some(value);
      } else {
        r := ReadAcross(n);
      }
    }

    /** Reads more bits than are buffered: all of the buffer, then the low bits of the next word. */
    method ReadAcross(n: nat) returns (r: Option<nat>)
      requires Valid() && curwordBits < n <= 32
      modifies `curword, `curwordBits, `bitOffset
      ensures ReadsBits(AllBits(), old(bitOffset), n, r)
      ensures r.Some? ==> Valid() && bitOffset == old(bitOffset) + n
    {
      hide *;
      BufferEnds();
      ghost var start, mid := bitOffset, bitOffset + curwordBits;
      var lo := curword;
      var bitsRead := curwordBits;
      var bitsLeft := n - curwordBits;
      bitOffset := bitOffset + bitsRead;
      var ok := FillCurword();
      if !ok || bitsLeft > curwordBits {
        ReadsNothing(AllBits(), start, n);
        return None;
      }
      var hi := ReadFracBits(bitsLeft);
      JoinReads(AllBits(), start, mid, bitOffset);
      r := Some(OrAbove(lo, hi, bitsRead));
      ReadsWhole(AllBits(), start, n, r.value);
    }

    /** The buffer ends at a word or at the end of the data, and in the first case holds just its bits. */
    lemma BufferEnds()
      requires Valid()
      ensures |beyond| >= 4 && |AllBits()| == 8 * |data| <= UINT32_MAX && curword <= UINT32_MAX
      ensures bitOffset + curwordBits <= 8 * |data| && (bitOffset + curwordBits) % 8 == 0
      ensures (bitOffset + curwordBits) % 32 == 0 || bitOffset + curwordBits == 8 * |data|
      ensures bitOffset + curwordBits < 8 * |data| ==> curword == ToNat(AllBits()[bitOffset..bitOffset + curwordBits])
    {
      hide DataBits, ToNat, Mask, Pow2, Buffered;
      WholeBuffer(AllBits(), bitOffset, curwordBits, curword);
      EndsAtWord(AllBits(), bitOffset, curwordBits, curword);
      EndsAtByte(bitOffset + curwordBits, |data|);
    }

    lemma ValidFacts()
      requires Valid()
      ensures |beyond| >= 4 && |AllBits()| == 8 * |data| <= UINT32_MAX && curword <= UINT32_MAX
    {
    }

    /** Moves to bit `offset`. Fails exactly when that is past the end. */
    method SeekBit(offset: nat) returns (ok: bool)
      requires Valid()
      modifies `curword, `curwordBits, `bitOffset
      ensures ok <==> offset <= 8 * |data|
      ensures ok ==> Valid() && bitOffset == offset
    {
      hide DataBits, ToNat, Mask, Pow2, Valid;
      ValidFacts();
      bitOffset := AlignDown(offset, 32);
      ok := FillCurword();
      if ok && offset % 32 != 0 {
        if offset % 32 > curwordBits {
          return false;
        }
        var _ := ReadFracBits(offset % 32);
      }
    }

    /** Moves to the next multiple of 32 bits, or to the start if that needs more than 32 bits; fails
        exactly if that is past the end. */
    method Align32() returns (ok: bool)
      requires Valid()
      modifies `curword, `curwordBits, `bitOffset
      ensures ok <==> AlignUp32(old(bitOffset)) <= 8 * |data|
      ensures ok ==> Valid() && bitOffset == AlignUp32(old(bitOffset))
    {
      ok := SeekBit(AlignUp32(bitOffset));
    }

    /** Tells, from whole bytes, whether no bit is left. */
    method AtEnd() returns (end: bool)
      requires Valid()
      ensures end <==> bitOffset == |AllBits()|
    {
      end := bitOffset / 8 == |data|;
    }
  }

  /** A buffer that does not reach the end of the data is exactly the bits it holds. */
  lemma WholeBuffer(bits: BitSeq, offset: nat, k: nat, word: nat)
    requires Buffered(bits, offset, k, word)
    ensures k <= 32 && offset + k <= |bits|
    ensures offset + k < |bits| ==> word == ToNat(bits[offset..offset + k])
  {
    if offset + k < |bits| {
      MaskSmall(word, k);
    }
  }

  lemma EndsAtWord(bits: BitSeq, offset: nat, k: nat, word: nat)
    requires Buffered(bits, offset, k, word)
    ensures word <= UINT32_MAX && ((offset + k) % 32 == 0 || offset + k == |bits|)
  {
    hide ToNat, Mask, Pow2;
  }

  lemma EndsAtByte(x: nat, n: nat)
    requires x % 32 == 0 || x == 8 * n
    ensures x % 8 == 0
  {
  }

  lemma ReadsNothing(bits: BitSeq, at: nat, n: nat)
    requires at + n > |bits|
    ensures ReadsBits(bits, at, n, None)
  {
  }

  lemma ReadsWhole(bits: BitSeq, at: nat, n: nat, v: nat)
    requires at + n <= |bits| && v == ToNat(bits[at..at + n]) <= UINT32_MAX
    ensures ReadsBits(bits, at, n, Some(v))
  {
    hide ToNat;
  }

  lemma JoinReads(bits: BitSeq, a: nat, b: nat, c: nat)
    requires a <= b <= c <= |bits| && c - a <= 32
    ensures ToNat(bits[a..b]) < Pow2(b - a)
    ensures OrAbove(ToNat(bits[a..b]), ToNat(bits[b..c]), b - a) == ToNat(bits[a..c]) <= UINT32_MAX
  {
    assert bits[a..b] + bits[b..c] == bits[a..c];
    OrAboveConcat(bits[a..b], bits[b..c]);
    ReadFits(bits[a..c]);
  }

  lemma ReadFits(b: BitSeq)
    requires |b| <= 32
    ensures ToNat(b) <= UINT32_MAX
  {
    ToNatBound(b);
    PowMonotone(|b|, 32);
    Pow2Word();
  }

  lemma TakeBits(bits: BitSeq, offset: nat, k: nat, word: nat, n: nat)
    requires Buffered(bits, offset, k, word) && n <= k
    ensures k <= 32 && offset + n <= |bits|
    ensures Buffered(bits, offset + n, k - n, if n == 32 then 0 else ShiftRight(word, n))
    ensures (if n == 32 then word else Mask(word, n)) == ToNat(bits[offset..offset + n])
  {
    hide ToNat, ShiftRight, Mask, Pow2;
    var b := bits[offset..offset + k];
    FracBits(word, b, k, n);
    if word < Pow2(k) {
      FracClear(word, b, k, n);
    }
    assert b[..n] == bits[offset..offset + n];
    assert b[n..] == bits[offset + n..offset + k];
    if n == 32 {
      EmptyMask(0);
      assert bits[offset + n..offset + k] == [];
      Pow2Word();
    }
  }

  /** Taking bits from the buffer. */
  lemma FracBits(word: nat, b: BitSeq, k: nat, n: nat)
    requires |b| == k && n <= k <= 32 && Mask(word, k) == ToNat(b) && word <= UINT32_MAX
    ensures Mask(word, n) == ToNat(b[..n])
    ensures Mask(ShiftRight(word, n), k - n) == ToNat(b[n..])
    ensures n == 32 ==> word == ToNat(b[..n])
    ensures ShiftRight(word, n) <= word
  {
    Pow2Word();
    var w := FromNat(word, 32);
    ToFrom(word, 32);
    ShiftSmaller(word, n);
    MaskAndShift(w, k);
    hide ToNat, FromNat, Mask, ShiftRight, Pow2;
    ToNatInjective(w[..k], b);
    FracWord(w, b, n);
  }

  lemma FracWord(w: BitSeq, b: BitSeq, n: nat)
    requires n <= |b| <= |w| == 32 && w[..|b|] == b
    ensures Mask(ToNat(w), n) == ToNat(b[..n])
    ensures Mask(ShiftRight(ToNat(w), n), |b| - n) == ToNat(b[n..])
    ensures n == 32 ==> w == b[..n]
  {
    hide ToNat, Mask, ShiftRight;
    MaskAndShift(w, n);
    assert w[..n] == b[..n];
    MaskAndShift(w[n..], |b| - n);
    assert w[n..][..|b| - n] == b[n..];
  }

  lemma FracClear(word: nat, b: BitSeq, k: nat, n: nat)
    requires |b| == k && n <= k && Mask(word, k) == ToNat(b) && word < Pow2(k)
    ensures ShiftRight(word, n) < Pow2(k - n)
  {
    MaskSmall(word, k);
    MaskAndShift(b, n);
    ToNatBound(b[n..]);
  }

  lemma WordFits(b: seq<Byte>)
    requires |b| == 4
    ensures Word(b) <= UINT32_MAX
  {
  }

  lemma EmptyMask(v: nat)
    ensures Mask(v, 0) == 0 && ToNat([]) == 0
  {
  }

  /** The low bytes of a word loaded from memory are data, whatever follows the data. */
  lemma LoadedWord(data: seq<Byte>, beyond: seq<Byte>, byteOffset: nat, k: nat)
    requires |beyond| >= 4 && byteOffset + k <= |data| && k <= 4
    requires k == 4 || byteOffset + k == |data|
    ensures |DataBits(data)| == 8 * |data|
    ensures Word((data + beyond)[byteOffset..byteOffset + 4]) <= UINT32_MAX
    ensures Mask(Word((data + beyond)[byteOffset..byteOffset + 4]), 8 * k) ==
      ToNat(DataBits(data)[8 * byteOffset..8 * byteOffset + 8 * k])
  {
    hide DataBits, ToNat, Word, Pow2, Mask;
    var four := (data + beyond)[byteOffset..byteOffset + 4];
    WordBits(four);
    WordFits(four);
    MaskAndShift(DataBits(four), 8 * k);
    DataSlice(four, 0, k);
    DataSlice(data, byteOffset, byteOffset + k);
    assert four[0..k] == data[byteOffset..byteOffset + k];
    assert DataBits(four)[..8 * k] == DataBits(four)[0..8 * k];
  }
}
