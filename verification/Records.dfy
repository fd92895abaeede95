/** Abbreviated records: reading an abbreviation definition and reading records written with it. */
module Records {
  import opened Bits
  import opened Bitstream
  import opened Common
  import opened Vbr

  datatype Op =
    | Literal(value: nat)
    | Fixed(bits: nat)
    | Variable(bits: nat)
    | Array
    | Char6
    | Blob

  const UNABBREV_RECORD: nat := 3

  // ----- six-bit characters -----

  /** The character that a six-bit code stands for: letters, digits, full stop and underscore. */
  function DecodeChar6(i: nat): nat
    requires i < 64
  {
    if i < 26 then i + 97        // a..z
    else if i < 52 then i + 39   // A..Z
    else if i < 62 then i - 4    // 0..9
    else if i == 62 then 46 else 95
  }

  const CHAR6: string := "abcdefghijklmnopqrstuvwxyz" + "ABCDEFGHIJKLMNOPQRSTUVWXYZ" + "0123456789._"

  /** It is the character at that place of the string. */
  lemma Char6Is(i: nat)
    requires i < 64
    ensures |CHAR6| == 64 && DecodeChar6(i) == CHAR6[i] as nat
  {
    if i < 26 {
    } else if i < 52 {
    } else {
    }
  }

  predicate IsChar6(c: nat) {
    97 <= c < 123 || 65 <= c < 91 || 48 <= c < 58 || c == 46 || c == 95
  }

  function EncodeChar6(c: nat): (i: nat)
    requires IsChar6(c)
    ensures i < 64 && DecodeChar6(i) == c
    ensures forall j: nat :: j < 64 && DecodeChar6(j) == c ==> j == i
  {
    if 97 <= c < 123 then c - 97
    else if 65 <= c < 91 then c - 39
    else if 48 <= c < 58 then c + 4
    else if c == 46 then 62 else 63
  }

  // ----- what writers produce -----

  /** Operand encodings that stand for one value. */
  ghost predicate Scalar(op: Op) {
    match op
    case Literal(v) => v <= UINT32_MAX
    case Fixed(n) => n <= 32
    case Variable(n) => 2 <= n <= 32
    case Char6 => true
    case _ => false
  }

  /** Scalars, optionally ending in an array with its element encoding. */
  ghost predicate WellFormed(ops: seq<Op>) {
    |ops| <= UINT32_MAX &&
    forall i :: 0 <= i < |ops| ==> Scalar(ops[i]) || (ops[i] == Array && i + 2 == |ops|)
  }

  /** `op` can carry `v`. */
  ghost predicate Fits(op: Op, v: nat) {
    match op
    case Literal(x) => v == x
    case Fixed(n) => v < Pow2(n)
    case Variable(_) => v < Pow2(64)
    case Char6 => IsChar6(v)
    case _ => false
  }

  ghost function EncodeScalar(op: Op, v: nat): BitSeq
    requires Scalar(op) && Fits(op, v)
  {
    match op
    case Literal(_) => []
    case Fixed(n) => FromNat(v, n)
    case Variable(n) => Encode(v, n)
    case Char6 => FromNat(EncodeChar6(v), 6)
  }

  ghost predicate AllFit(op: Op, vals: seq<nat>) {
    forall i :: 0 <= i < |vals| ==> Fits(op, vals[i])
  }

  ghost function EncodeElements(op: Op, vals: seq<nat>): BitSeq
    requires Scalar(op) && AllFit(op, vals)
  {
    if vals == [] then [] else EncodeScalar(op, vals[0]) + EncodeElements(op, vals[1..])
  }

  /** `vals` is a record that the operands from number `i` on can carry. */
  ghost predicate Carries(ops: seq<Op>, i: nat, vals: seq<nat>)
    requires WellFormed(ops) && i <= |ops|
    decreases |ops| - i
  {
    if i == |ops| then vals == []
    else if ops[i] == Array then 0 < |vals| <= UINT32_MAX && AllFit(ops[i + 1], vals)
    else vals != [] && Fits(ops[i], vals[0]) && Carries(ops, i + 1, vals[1..])
  }

  ghost function EncodeRecord(ops: seq<Op>, i: nat, vals: seq<nat>): BitSeq
    requires WellFormed(ops) && i <= |ops| && Carries(ops, i, vals)
    decreases |ops| - i
  {
    if i == |ops| then []
    else if ops[i] == Array then Encode(|vals|, 6) + EncodeElements(ops[i + 1], vals)
    else EncodeScalar(ops[i], vals[0]) + EncodeRecord(ops, i + 1, vals[1..])
  }

  /** An unabbreviated record: its code, the number of its values, and the values. */
  ghost function EncodeUnabbrev(code: nat, vals: seq<nat>): BitSeq
    requires AllFit(Variable(6), vals)
  {
    Encode(code, 6) + (Encode(|vals|, 6) + EncodeElements(Variable(6), vals))
  }

  // ----- the bits of small things -----

  /** A number that fits one chunk is that chunk. */
  lemma OneChunkBits(v: nat, w: nat)
    requires w >= 2 && v < Pow2(w - 1)
    ensures Encode(v, w) == FromNat(v, w)
  {
  }

  /** How each kind of operand spells a value: not at all, in its own number of bits, in chunks of that
      many bits, or as the place in the string of characters. */
  lemma ScalarBits(op: Op, v: nat)
    requires Scalar(op) && Fits(op, v)
    ensures op.Literal? ==> EncodeScalar(op, v) == [] && v == op.value
    ensures op.Fixed? ==> |EncodeScalar(op, v)| == op.bits && ToNat(EncodeScalar(op, v)) == v
    ensures op.Variable? ==> EncodeScalar(op, v) == Encode(v, op.bits)
    ensures op == Char6 ==>
      exists i: nat :: i < |CHAR6| && CHAR6[i] as nat == v && EncodeScalar(op, v) == FromNat(i, 6)
  {
    match op
    case Fixed(n) => ToFrom(v, n);
    case Char6 => Char6Is(EncodeChar6(v));
    case _ =>
  }

  /** The number of elements of an array takes six-bit chunks, and so do the code, the number of values
      and the values of an unabbreviated record. */
  lemma RecordBits(op: Op, code: nat, vals: seq<nat>)
    requires Scalar(op) && AllFit(op, vals) && AllFit(Variable(6), vals) && 0 < |vals| < 32 && code < 32
    ensures WellFormed([Array, op]) && Carries([Array, op], 0, vals)
    ensures EncodeRecord([Array, op], 0, vals) == FromNat(|vals|, 6) + EncodeElements(op, vals)
    ensures EncodeUnabbrev(code, vals) == FromNat(code, 6) + FromNat(|vals|, 6) + EncodeElements(Variable(6), vals)
  {
    hide Encode, EncodeElements, FromNat;
    assert Pow2(5) == 32 by {
      assert Pow2(3) == 8;
    }
    OneChunkBits(|vals|, 6);
    OneChunkBits(code, 6);
  }

  /** Elements follow one another. */
  lemma {:induction false} ElementsBits(op: Op, a: seq<nat>, b: seq<nat>)
    requires Scalar(op) && AllFit(op, a) && AllFit(op, b)
    ensures AllFit(op, a + b) && EncodeElements(op, a + b) == EncodeElements(op, a) + EncodeElements(op, b)
    decreases |a|
  {
    hide EncodeScalar, Scalar, AllFit;
    FitParts(op, a, b);
    if a == [] {
      assert a + b == b;
    } else {
      ElementsBits(op, a[1..], b);
      assert (a + b)[1..] == a[1..] + b && (a + b)[0] == a[0];
    }
  }

  lemma FitParts(op: Op, a: seq<nat>, b: seq<nat>)
    requires AllFit(op, a) && AllFit(op, b)
    ensures AllFit(op, a + b) && (a != [] ==> Fits(op, a[0]) && AllFit(op, a[1..]))
  {
    hide Fits;
  }

  lemma OneElement(op: Op, v: nat)
    requires Scalar(op) && Fits(op, v)
    ensures AllFit(op, [v]) && EncodeElements(op, [v]) == EncodeScalar(op, v) && EncodeElements(op, []) == []
  {
    hide EncodeScalar, Scalar, Fits;
    assert [v][1..] == [];
  }

  // ----- what remains to be read -----

  /** The bits from `pos` to `end` are `vals` written with `op`. */
  ghost predicate Elements(bits: BitSeq, pos: nat, end: nat, op: Op, vals: seq<nat>)
    decreases |vals|
  {
    if vals == [] then pos == end
    else
      && Scalar(op) && Fits(op, vals[0])
      && At(bits, pos, EncodeScalar(op, vals[0]))
      && Elements(bits, pos + |EncodeScalar(op, vals[0])|, end, op, vals[1..])
  }

  /** The bits from `pos` to `end` are `vals` written with the operands from number `i` on. */
  ghost predicate Pending(bits: BitSeq, pos: nat, end: nat, ops: seq<Op>, i: nat, vals: seq<nat>)
    requires WellFormed(ops) && i <= |ops|
    decreases |ops| - i
  {
    if i == |ops| then vals == [] && pos == end
    else if ops[i] == Array then
      && 0 < |vals| <= UINT32_MAX && At(bits, pos, Encode(|vals|, 6))
      && Elements(bits, pos + |Encode(|vals|, 6)|, end, ops[i + 1], vals)
    else
      && vals != [] && Fits(ops[i], vals[0])
      && At(bits, pos, EncodeScalar(ops[i], vals[0]))
      && Pending(bits, pos + |EncodeScalar(ops[i], vals[0])|, end, ops, i + 1, vals[1..])
  }

  lemma {:induction false} EncodedElements(bits: BitSeq, pos: nat, op: Op, vals: seq<nat>)
    requires Scalar(op) && AllFit(op, vals) && At(bits, pos, EncodeElements(op, vals))
    ensures Elements(bits, pos, pos + |EncodeElements(op, vals)|, op, vals)
    decreases |vals|
  {
    hide EncodeScalar, At;
    if vals != [] {
      AtConcat(bits, pos, EncodeScalar(op, vals[0]), EncodeElements(op, vals[1..]));
      EncodedElements(bits, pos + |EncodeScalar(op, vals[0])|, op, vals[1..]);
    }
  }

  /** A record that stands in the stream is pending there. */
  lemma {:induction false} EncodedPending(bits: BitSeq, pos: nat, ops: seq<Op>, i: nat, vals: seq<nat>)
    requires WellFormed(ops) && i <= |ops| && Carries(ops, i, vals) && At(bits, pos, EncodeRecord(ops, i, vals))
    ensures Pending(bits, pos, pos + |EncodeRecord(ops, i, vals)|, ops, i, vals)
    decreases |ops| - i
  {
    hide Encode, EncodeScalar, EncodeElements, Elements, At;
    if i < |ops| {
      if ops[i] == Array {
        assert Scalar(ops[i + 1]);
        AtConcat(bits, pos, Encode(|vals|, 6), EncodeElements(ops[i + 1], vals));
        EncodedElements(bits, pos + |Encode(|vals|, 6)|, ops[i + 1], vals);
      } else {
        AtConcat(bits, pos, EncodeScalar(ops[i], vals[0]), EncodeRecord(ops, i + 1, vals[1..]));
        EncodedPending(bits, pos + |EncodeScalar(ops[i], vals[0])|, ops, i + 1, vals[1..]);
      }
    }
  }

  // ----- reading -----

  datatype ReadResult = Value(v: nat) | EndOfRecord | Abort

  /** Whether the 32-bit or, when `wide`, the 64-bit readers take `v`. */
  predicate Accepted(wide: bool, v: nat) {
    wide || Fits32(v)
  }

  /** What those readers make of a value they take. */
  function Seen(wide: bool, v: nat): nat {
    if wide then v else Mask(v, 32)
  }

  /** What is read when `v` is next: the 32-bit readers give up on values 32 bits cannot stand for. */
  function ResultOf(wide: bool, v: nat): ReadResult {
    if Accepted(wide, v) then Value(Seen(wide, v)) else Abort
  }

  /** The readers of both widths take every value of 32 bits as it is. */
  lemma SmallIsAccepted(wide: bool, v: nat)
    requires v <= UINT32_MAX
    ensures Accepted(wide, v) && Seen(wide, v) == v
  {
    SmallIsItself(v);
  }

  /** How writers spell a signed integer: its size, with the sign in the lowest bit. */
  function SignRotated(x: int): nat {
    if x < 0 then 2 * -x + 1 else 2 * x
  }

  lemma {:induction false} ShiftLeftGrows(v: nat, n: nat)
    ensures v <= ShiftLeft(v, n)
  {
    if n > 0 {
      ShiftLeftGrows(v, n - 1);
    }
  }

  /** Every 32-bit integer can stand in a record, but the spelling of the least one has 33 bits: the
      32-bit reader, and so the count of the values left, gives up on it and on no other. */
  lemma LeastIntIsNotTaken(x: int)
    requires -0x8000_0000 <= x < 0x8000_0000
    ensures Carries([Variable(6)], 0, [SignRotated(x)])
    ensures Accepted(true, SignRotated(x))
    ensures Accepted(false, SignRotated(x)) <==> x != -0x8000_0000
  {
    Pow2Word();
    assert [SignRotated(x)][1..] == [];
    if x == -0x8000_0000 {
      var v := SignRotated(x);
      hide ShiftRight, Mask, Pow2;
      SplitAt(v, 32);
      ShiftLeftGrows(UINT32_MAX, 31);
    }
  }

  /** Reads one fixed-width field that stands in the stream. */
  lemma FixedAt(bits: BitSeq, pos: nat, n: nat, v: nat, r: Option<nat>)
    requires v < Pow2(n) && At(bits, pos, FromNat(v, n)) && ReadsBits(bits, pos, n, r)
    ensures r == Some(v)
  {
    ToFrom(v, n);
  }

  /** Reads one value with a scalar encoding, through the 32-bit or the 64-bit readers. When the
      value `v` stands in the stream, it is read exactly if those readers take it, and exactly its bits
      are consumed. */
  method ReadScalar(bs: BitStream, op: Op, wide: bool, ghost v: nat) returns (r: Option<nat>)
    requires bs.Valid() && Scalar(op)
    requires Fits(op, v) && At(bs.AllBits(), bs.bitOffset, EncodeScalar(op, v))
    modifies bs
    ensures r == if Accepted(wide, v) then Some(Seen(wide, v)) else None
    ensures r.Some? ==> bs.Valid() && bs.bitOffset == old(bs.bitOffset) + |EncodeScalar(op, v)|
  {
    hide DataBits, Buffered, Pow2, ToNat, Encode, FromNat, Decode, Times, Reads32, Reads64, At, ReadsBits, Mask, Fits32;
    ghost var bits, pos := bs.AllBits(), bs.bitOffset;
    match op
    case Literal(value) =>
      SmallIsAccepted(wide, v);
      r := Some(value);
    case Fixed(n) =>
      r := bs.Read(n);
      FixedAt(bits, pos, n, v, r);
      FixedIsSmall(v, n);
      SmallIsAccepted(wide, v);
    case Variable(n) =>
      if wide {
        r := ReadVbrUint64(bs, n);
        RoundTrip64(bits, pos, v, n, r);
      } else {
        r := ReadVbr(bs, n);
        RoundTrip32(bits, pos, v, n, r);
      }
    case Char6 =>
      var i := bs.Read(6);
      SmallIsAccepted(wide, v);
      Char6Code(v);
      FixedAt(bits, pos, 6, EncodeChar6(v), i);
      r := Some(DecodeChar6(i.value));
  }

  lemma FitsNarrow(v: nat)
    requires v <= UINT32_MAX
    ensures v < Pow2(64)
  {
    Pow2Word();
  }

  lemma FixedIsSmall(v: nat, n: nat)
    requires v < Pow2(n) && n <= 32
    ensures v <= UINT32_MAX
  {
    PowMonotone(n, 32);
    Pow2Word();
  }

  /** A character's code fits its six bits. */
  lemma Char6Code(c: nat)
    requires IsChar6(c)
    ensures EncodeChar6(c) < Pow2(6)
  {
    assert Pow2(3) == 8;
    assert Pow2(5) == 32;
  }

  /** Reads a six-bit-chunk integer that stands in the stream. */
  method ReadVbr6At(bs: BitStream, ghost v: nat) returns (r: nat)
    requires bs.Valid() && v <= UINT32_MAX && At(bs.AllBits(), bs.bitOffset, Encode(v, 6))
    modifies bs
    ensures r == v && bs.Valid() && bs.bitOffset == old(bs.bitOffset) + |Encode(v, 6)|
  {
    hide Encode, At, DataBits, BitStream.Valid, Decode, Times, Reads32, Pow2;
    ghost var bits, pos := bs.AllBits(), bs.bitOffset;
    FitsNarrow(v);
    var c := ReadVbr(bs, 6);
    RoundTrip32(bits, pos, v, 6, c);
    r := c.value;
  }

  /** A record reader, with the cursor fields of the source. */
  class RecordReader {
    const bs: BitStream
    const abbrevs: seq<seq<Op>>
    const entry: nat
    var opIndex: nat
    var valueIndex: nat
    var numValues: nat

    constructor (bs: BitStream, abbrevs: seq<seq<Op>>, entry: nat)
      ensures this.bs == bs && this.abbrevs == abbrevs && this.entry == entry
      ensures opIndex == 0 && valueIndex == 0 && numValues == UINT32_MAX
    {
      this.bs := bs;
      this.abbrevs := abbrevs;
      this.entry := entry;
      opIndex := 0;
      valueIndex := 0;
      numValues := UINT32_MAX;
    }

    /** The reader has `vals` left to read, and they end at bit `end` of the stream. */
    ghost predicate Left(vals: seq<nat>, end: nat)
      reads this, bs
    {
      bs.Valid() && LeftAt(entry, abbrevs, bs.AllBits(), bs.bitOffset, opIndex, valueIndex, numValues, vals, end)
    }

    /** Reads the next value of an abbreviated record. */
    method ReadAbbrev(wide: bool, ghost vals: seq<nat>, ghost end: nat) returns (r: ReadResult)
      requires entry != UNABBREV_RECORD && Left(vals, end)
      modifies this, bs
      ensures vals == [] ==> r == EndOfRecord && Left([], end) && bs.bitOffset == old(bs.bitOffset)
      ensures vals != [] ==> r == ResultOf(wide, vals[0]) && (r.Value? ==> Left(vals[1..], end))
    {
      hide Fits32, Mask, BitStream.Valid, Pow2, Encode, Elements, Pending, At, EncodeScalar, DataBits, AbbrevLeft, Fits;
      var ops := abbrevs[entry - 4];
      NextOperand(bs.AllBits(), bs.bitOffset, end, ops, opIndex, valueIndex, numValues, vals);
      if opIndex >= |ops| {
        return EndOfRecord;
      }
      if ops[opIndex] == Array {
        r := ReadElement(ops, wide, vals, end);
      } else {
        ghost var pos := bs.bitOffset;
        var v := ReadScalar(bs, ops[opIndex], wide, vals[0]);
        if v.None? {
          return Abort;
        }
        AfterScalar(bs.AllBits(), pos, end, ops, opIndex, valueIndex, numValues, vals);
        r := Value(v.value);
        opIndex := opIndex + 1;
        valueIndex := 0;
      }
    }

    /** Reads the next array element; before the first one, the number of elements. */
    method ReadElement(ops: seq<Op>, wide: bool, ghost vals: seq<nat>, ghost end: nat) returns (r: ReadResult)
      requires bs.Valid() && WellFormed(ops) && opIndex < |ops| && ops[opIndex] == Array && vals != []
      requires AbbrevLeft(bs.AllBits(), bs.bitOffset, end, ops, opIndex, valueIndex, numValues, vals)
      modifies this, bs
      ensures r == ResultOf(wide, vals[0])
      ensures r.Value? ==>
        bs.Valid() && AbbrevLeft(bs.AllBits(), bs.bitOffset, end, ops, opIndex, valueIndex, numValues, vals[1..])
    {
      hide Fits32, Mask, BitStream.Valid, Pow2, Encode, Elements, Pending,
        At, EncodeScalar, DataBits, AbbrevLeft, Fits, Decode, Times;
      ArrayOperand(bs.AllBits(), bs.bitOffset, end, ops, opIndex, valueIndex, numValues, vals);
      if valueIndex == 0 {
        numValues := ReadVbr6At(bs, |vals|);
        if !wide && numValues == 0 {
          return Abort;
        }
      }
      ghost var at := bs.bitOffset;
      NextElement(bs.AllBits(), at, end, ops[opIndex + 1], vals);
      var v := ReadScalar(bs, ops[opIndex + 1], wide, vals[0]);
      if v.None? {
        return Abort;
      }
      r := Value(v.value);
      AfterElement(bs.AllBits(), bs.bitOffset, end, ops, opIndex, valueIndex, numValues, vals[1..]);
      valueIndex := valueIndex + 1;
      if valueIndex == numValues {
        opIndex := opIndex + 2;
      }
    }

    /** A record with code `code` and then `vals` stands at the current position, up to bit `end`. */
    ghost predicate AtRecord(code: nat, vals: seq<nat>, end: nat)
      reads this, bs
    {
      && bs.Valid() && opIndex == 0 && valueIndex == 0 && code < Pow2(64)
      && if entry == UNABBREV_RECORD then
           var pos := bs.bitOffset + |Encode(code, 6)|;
           && |vals| <= UINT32_MAX
           && At(bs.AllBits(), bs.bitOffset, Encode(code, 6)) && At(bs.AllBits(), pos, Encode(|vals|, 6))
           && Elements(bs.AllBits(), pos + |Encode(|vals|, 6)|, end, Variable(6), vals)
         else Left([code] + vals, end)
    }

    /** An unabbreviated record that stands in the stream. */
    lemma UnabbrevAtRecord(code: nat, vals: seq<nat>)
      requires bs.Valid() && entry == UNABBREV_RECORD && opIndex == 0 && valueIndex == 0
      requires code < Pow2(64) && |vals| <= UINT32_MAX && AllFit(Variable(6), vals)
      requires At(bs.AllBits(), bs.bitOffset, EncodeUnabbrev(code, vals))
      ensures AtRecord(code, vals, bs.bitOffset + |EncodeUnabbrev(code, vals)|)
    {
      hide Encode, EncodeElements, Elements, At, DataBits, BitStream.Valid, Pow2;
      var bits, pos := bs.AllBits(), bs.bitOffset;
      var rest := Encode(|vals|, 6) + EncodeElements(Variable(6), vals);
      AtConcat(bits, pos, Encode(code, 6), rest);
      AtConcat(bits, pos + |Encode(code, 6)|, Encode(|vals|, 6), EncodeElements(Variable(6), vals));
      EncodedElements(bits, pos + |Encode(code, 6)| + |Encode(|vals|, 6)|, Variable(6), vals);
    }

    /** pn_record_read_code */
    method ReadCode(ghost code: nat, ghost vals: seq<nat>, ghost end: nat) returns (r: ReadResult)
      requires AtRecord(code, vals, end)
      modifies this, bs
      ensures r == ResultOf(false, code) && (r.Value? ==> Left(vals, end))
    {
      hide Encode, Elements, Pending, At, DataBits, BitStream.Valid, AbbrevLeft, Fits32, Mask, Pow2;
      if entry == UNABBREV_RECORD {
        ghost var pos := bs.bitOffset + |Encode(code, 6)|;
        var c := ReadScalar(bs, Variable(6), false, code);
        if c.None? {
          return Abort;
        }
        var n := ReadVbr6At(bs, |vals|);
        numValues := n;
        r := Value(c.value);
      } else {
        assert ([code] + vals)[1..] == vals;
        r := ReadAbbrev(false, [code] + vals, end);
      }
    }

    /** pn_record_try_read_uint32 and, when `wide`, pn_record_try_read_uint64: the next value, or the
        end of the record exactly when nothing is left. The 32-bit reader gives up exactly on a value that
        32 bits cannot stand for. */
    method TryRead(wide: bool, ghost vals: seq<nat>, ghost end: nat) returns (r: ReadResult)
      requires Left(vals, end)
      modifies this, bs
      ensures vals == [] ==> r == EndOfRecord && Left([], end) && bs.bitOffset == old(bs.bitOffset)
      ensures vals != [] ==> r == ResultOf(wide, vals[0]) && (r.Value? ==> Left(vals[1..], end))
    {
      hide Fits32, Mask;
      if entry == UNABBREV_RECORD {
        hide Pow2, Encode, Elements, Pending, At, DataBits, BitStream.Valid, AbbrevLeft, Fits, EncodeScalar;
        if valueIndex >= numValues {
          return EndOfRecord;
        }
        NextElement(bs.AllBits(), bs.bitOffset, end, Variable(6), vals);
        var v := ReadScalar(bs, Variable(6), wide, vals[0]);
        if v.None? {
          return Abort;
        }
        valueIndex := valueIndex + 1;
        r := Value(v.value);
      } else {
        r := ReadAbbrev(wide, vals, end);
      }
    }

    /** Reads values until the end of the record, or until one is not taken: what is read is what was
        written, as the readers see it, and a whole record takes exactly its bits. */
    method ReadAll(wide: bool, ghost vals: seq<nat>, ghost end: nat) returns (ok: bool, read: seq<nat>)
      requires Left(vals, end)
      modifies this, bs
      ensures ok <==> forall i :: 0 <= i < |vals| ==> Accepted(wide, vals[i])
      ensures |read| <= |vals| && forall i :: 0 <= i < |read| ==>
        Accepted(wide, vals[i]) && read[i] == Seen(wide, vals[i])
      ensures if ok then |read| == |vals| && Left([], end) && bs.bitOffset == end
        else |read| < |vals| && !Accepted(wide, vals[|read|])
    {
      hide BitStream.Valid, Left, LeftAt, DataBits, Accepted, Seen;
      read := [];
      var r := TryRead(wide, vals, end);
      while r.Value?
        invariant |read| <= |vals|
        invariant forall i :: 0 <= i < |read| ==> Accepted(wide, vals[i]) && read[i] == Seen(wide, vals[i])
        invariant if |read| < |vals|
          then r == ResultOf(wide, vals[|read|]) && (r.Value? ==> Left(vals[|read| + 1..], end))
          else r == EndOfRecord && Left([], end)
        decreases |vals| - |read|
      {
        read := read + [r.v];
        RestOf(vals, |read|);
        r := TryRead(wide, vals[|read|..], end);
      }
      ok := r == EndOfRecord;
      if ok {
        LeftInData([], end);
        NothingLeft(entry, abbrevs, bs.AllBits(), bs.bitOffset, opIndex, valueIndex, numValues, end);
      }
    }

    lemma RestOf(vals: seq<nat>, k: nat)
      requires k <= |vals|
      ensures k < |vals| ==> vals[k..] != [] && vals[k..][0] == vals[k] && vals[k..][1..] == vals[k + 1..]
      ensures k == |vals| ==> vals[k..] == []
    {
    }

    /** pn_record_num_values_left: counts by reading to the end, then restores the reader and seeks back.
        It gives a number exactly if the 32-bit reader takes every value left, and then the right one. */
    method NumValuesLeft(ghost vals: seq<nat>, ghost end: nat) returns (count: Option<nat>)
      requires Left(vals, end)
      modifies this, bs
      ensures count.Some? <==> forall i :: 0 <= i < |vals| ==> Fits32(vals[i])
      ensures count.Some? ==>
        count.value == |vals| && Left(vals, end) && bs.bitOffset == old(bs.bitOffset)
        && opIndex == old(opIndex) && valueIndex == old(valueIndex) && numValues == old(numValues)
    {
      hide Left, LeftAt, BitStream.Valid, Fits32, Seen;
      LeftInData(vals, end);
      var bitOffset := bs.bitOffset;
      var copy := (opIndex, valueIndex, numValues);
      var n := 0;
      var r := TryRead(false, vals, end);
      while r.Value?
        invariant n <= |vals| && forall i :: 0 <= i < n ==> Fits32(vals[i])
        invariant if n < |vals| then r == ResultOf(false, vals[n]) && (r.Value? ==> Left(vals[n + 1..], end))
          else r == EndOfRecord && Left([], end)
        decreases |vals| - n
      {
        n := n + 1;
        RestOf(vals, n);
        r := TryRead(false, vals[n..], end);
      }
      if r == Abort {
        return None;
      }
      LeftInData([], end);
      opIndex, valueIndex, numValues := copy.0, copy.1, copy.2;
      var _ := bs.SeekBit(bitOffset);
      LeftAgain(vals, end);
      count := Some(n);
    }

    lemma LeftInData(vals: seq<nat>, end: nat)
      requires Left(vals, end)
      ensures bs.Valid() && bs.bitOffset <= 8 * |bs.data|
      ensures LeftAt(entry, abbrevs, bs.AllBits(), bs.bitOffset, opIndex, valueIndex, numValues, vals, end)
    {
      hide LeftAt, DataBits;
    }

    lemma LeftAgain(vals: seq<nat>, end: nat)
      requires bs.Valid()
      requires LeftAt(entry, abbrevs, bs.AllBits(), bs.bitOffset, opIndex, valueIndex, numValues, vals, end)
      ensures Left(vals, end)
    {
      hide LeftAt, BitStream.Valid;
    }
  }

  /** From bit `pos`, with the cursor at operand `i` and value `j` of `n`, the values left are `vals`. */
  ghost predicate LeftAt(entry: nat, abbrevs: seq<seq<Op>>, bits: BitSeq, pos: nat, i: nat, j: nat, n: nat,
    vals: seq<nat>, end: nat)
  {
    if entry == UNABBREV_RECORD then n == j + |vals| && Elements(bits, pos, end, Variable(6), vals)
    else
      && entry >= 4 && entry - 4 < |abbrevs| && WellFormed(abbrevs[entry - 4])
      && AbbrevLeft(bits, pos, end, abbrevs[entry - 4], i, j, n, vals)
  }

  /** What is left of an abbreviated record at operand `i`, `j` elements into an array of `n`. */
  ghost predicate AbbrevLeft(bits: BitSeq, pos: nat, end: nat, ops: seq<Op>, i: nat, j: nat, n: nat, vals: seq<nat>)
    requires WellFormed(ops)
  {
    if i < |ops| && ops[i] == Array && j > 0 then
      vals != [] && n == j + |vals| && Elements(bits, pos, end, ops[i + 1], vals)
    else i <= |ops| && Pending(bits, pos, end, ops, i, vals)
  }

  lemma NothingLeft(entry: nat, abbrevs: seq<seq<Op>>, bits: BitSeq, pos: nat, i: nat, j: nat, n: nat, end: nat)
    requires LeftAt(entry, abbrevs, bits, pos, i, j, n, [], end)
    ensures pos == end
  {
  }

  lemma NextOperand(bits: BitSeq, pos: nat, end: nat, ops: seq<Op>, i: nat, j: nat, n: nat, vals: seq<nat>)
    requires WellFormed(ops) && AbbrevLeft(bits, pos, end, ops, i, j, n, vals)
    ensures vals == [] <==> i >= |ops|
    ensures i < |ops| && ops[i] != Array ==>
      Scalar(ops[i]) && Fits(ops[i], vals[0]) && At(bits, pos, EncodeScalar(ops[i], vals[0]))
  {
  }

  lemma AfterScalar(bits: BitSeq, pos: nat, end: nat, ops: seq<Op>, i: nat, j: nat, n: nat, vals: seq<nat>)
    requires WellFormed(ops) && AbbrevLeft(bits, pos, end, ops, i, j, n, vals) && i < |ops| && ops[i] != Array
    requires vals != [] && Fits(ops[i], vals[0])
    ensures AbbrevLeft(bits, pos + |EncodeScalar(ops[i], vals[0])|, end, ops, i + 1, 0, n, vals[1..])
  {
  }

  lemma ArrayOperand(bits: BitSeq, pos: nat, end: nat, ops: seq<Op>, i: nat, j: nat, n: nat, vals: seq<nat>)
    requires WellFormed(ops) && AbbrevLeft(bits, pos, end, ops, i, j, n, vals) && i < |ops| && ops[i] == Array
    ensures i + 2 == |ops| && Scalar(ops[i + 1])
    ensures j == 0 ==> 0 < |vals| <= UINT32_MAX && At(bits, pos, Encode(|vals|, 6))
    ensures j == 0 ==> Elements(bits, pos + |Encode(|vals|, 6)|, end, ops[i + 1], vals)
    ensures j > 0 ==> n == j + |vals| && Elements(bits, pos, end, ops[i + 1], vals)
  {
  }

  lemma NextElement(bits: BitSeq, pos: nat, end: nat, op: Op, vals: seq<nat>)
    requires Elements(bits, pos, end, op, vals) && vals != []
    ensures Scalar(op) && Fits(op, vals[0]) && At(bits, pos, EncodeScalar(op, vals[0]))
    ensures Elements(bits, pos + |EncodeScalar(op, vals[0])|, end, op, vals[1..])
  {
  }

  lemma AfterElement(bits: BitSeq, pos: nat, end: nat, ops: seq<Op>, i: nat, j: nat, n: nat, rest: seq<nat>)
    requires WellFormed(ops) && i + 2 == |ops| && ops[i] == Array && n == j + 1 + |rest|
    requires Elements(bits, pos, end, ops[i + 1], rest)
    ensures if rest == [] then AbbrevLeft(bits, pos, end, ops, i + 2, j + 1, n, rest)
      else AbbrevLeft(bits, pos, end, ops, i, j + 1, n, rest)
  {
  }

  // ----- abbreviation definitions -----

  function EncodingNumber(op: Op): nat {
    match op
    case Literal(_) => 0
    case Fixed(_) => 1
    case Variable(_) => 2
    case Array => 3
    case Char6 => 4
    case Blob => 5
  }

  ghost function EncodeWidth(op: Op): BitSeq {
    match op
    case Fixed(n) => Encode(n, 5)
    case Variable(n) => Encode(n, 5)
    case _ => []
  }

  /** One operand of a definition: a literal marker and value, or an encoding number and width. */
  ghost function EncodeOp(op: Op): BitSeq {
    if op.Literal? then FromNat(1, 1) + Encode(op.value, 8)
    else FromNat(0, 1) + (FromNat(EncodingNumber(op), 3) + EncodeWidth(op))
  }

  lemma ThreeBits(v: nat)
    requires v < 8
    ensures FromNat(v, 3) == [v % 2 == 1, v / 2 % 2 == 1, v / 4 == 1]
  {
  }

  lemma OneBit()
    ensures FromNat(0, 1) == [false] && FromNat(1, 1) == [true]
  {
  }

  /** The bits of each kind of operand. */
  lemma OpBits(op: Op)
    ensures EncodeOp(op) ==
      match op
      case Literal(v) => [true] + Encode(v, 8)
      case Fixed(n) => [false, true, false, false] + Encode(n, 5)
      case Variable(n) => [false, false, true, false] + Encode(n, 5)
      case Array => [false, true, true, false]
      case Char6 => [false, false, false, true]
      case Blob => [false, true, false, true]
  {
    hide Encode, FromNat;
    ThreeBits(EncodingNumber(op));
    OneBit();
  }

  ghost function EncodeOps(ops: seq<Op>): BitSeq {
    if ops == [] then [] else EncodeOp(ops[0]) + EncodeOps(ops[1..])
  }

  ghost function EncodeDefinition(ops: seq<Op>): BitSeq {
    Encode(|ops|, 5) + EncodeOps(ops)
  }

  /** The number of operands takes five-bit chunks, and the operands follow one another. */
  lemma DefinitionBits(op: Op, ops: seq<Op>)
    ensures |ops| < 16 ==> EncodeDefinition(ops) == FromNat(|ops|, 5) + EncodeOps(ops)
    ensures EncodeOps([]) == [] && EncodeOps([op] + ops) == EncodeOp(op) + EncodeOps(ops)
  {
    hide EncodeOp;
    assert ([op] + ops)[1..] == ops;
    assert Pow2(4) == 16 by {
      assert Pow2(2) == 4;
    }
    if |ops| < 16 {
      OneChunkBits(|ops|, 5);
    }
  }

  /** Operands that a definition can spell. */
  ghost predicate Definable(op: Op) {
    match op
    case Literal(v) => v <= UINT32_MAX
    case Fixed(n) => n <= UINT32_MAX
    case Variable(n) => n <= UINT32_MAX
    case _ => true
  }

  /** Fields are at most 32 bits wide. */
  ghost predicate NotTooWide(op: Op) {
    match op
    case Fixed(n) => n <= 32
    case Variable(n) => n <= 32
    case _ => true
  }

  /** Reads a 32-bit integer of width `w` that stands in the stream. */
  method ReadVbrAt(bs: BitStream, w: nat, ghost v: nat) returns (r: nat)
    requires 2 <= w <= 32 && bs.Valid() && v <= UINT32_MAX && At(bs.AllBits(), bs.bitOffset, Encode(v, w))
    modifies bs
    ensures r == v && bs.Valid() && bs.bitOffset == old(bs.bitOffset) + |Encode(v, w)|
  {
    hide Encode, At, DataBits, BitStream.Valid, Decode, Times, Reads32, Pow2;
    ghost var bits, pos := bs.AllBits(), bs.bitOffset;
    FitsNarrow(v);
    var c := ReadVbr(bs, w);
    RoundTrip32(bits, pos, v, w, c);
    r := c.value;
  }

  method ReadFixedAt(bs: BitStream, n: nat, ghost v: nat) returns (r: nat)
    requires n <= 32 && bs.Valid() && v < Pow2(n) && At(bs.AllBits(), bs.bitOffset, FromNat(v, n))
    modifies bs
    ensures r == v && bs.Valid() && bs.bitOffset == old(bs.bitOffset) + n
  {
    hide At, DataBits, BitStream.Valid, Pow2, FromNat, ReadsBits;
    ghost var bits, pos := bs.AllBits(), bs.bitOffset;
    var c := bs.Read(n);
    FixedAt(bits, pos, n, v, c);
    r := c.value;
  }

  lemma SmallCodes(op: Op)
    ensures 1 < Pow2(1) && 0 < Pow2(1) && EncodingNumber(op) < Pow2(3)
  {
    assert Pow2(1) == 2;
    assert Pow2(3) == 8;
  }

  /** Reads one operand of a definition; fails exactly if it is too wide. */
  method ReadOp(bs: BitStream, ghost op: Op) returns (r: Option<Op>)
    requires bs.Valid() && Definable(op) && At(bs.AllBits(), bs.bitOffset, EncodeOp(op))
    modifies bs
    ensures r == if NotTooWide(op) then Some(op) else None
    ensures r.Some? ==> bs.Valid() && bs.bitOffset == old(bs.bitOffset) + |EncodeOp(op)|
  {
    SmallCodes(op);
    hide At, DataBits, BitStream.Valid, Pow2, FromNat, Encode;
    ghost var bits, pos := bs.AllBits(), bs.bitOffset;
    if op.Literal? {
      AtConcat(bits, pos, FromNat(1, 1), Encode(op.value, 8));
    } else {
      AtConcat(bits, pos, FromNat(0, 1), FromNat(EncodingNumber(op), 3) + EncodeWidth(op));
      AtConcat(bits, pos + 1, FromNat(EncodingNumber(op), 3), EncodeWidth(op));
    }
    var isLiteral := ReadFixedAt(bs, 1, if op.Literal? then 1 else 0);
    if isLiteral == 1 {
      var value := ReadVbrAt(bs, 8, op.value);
      return Some(Literal(value));
    }
    var encoding := ReadFixedAt(bs, 3, EncodingNumber(op));
    if encoding == 1 || encoding == 2 {
      var width := ReadVbrAt(bs, 5, op.bits);
      if width > 32 {
        return None;
      }
      r := Some(if encoding == 1 then Fixed(width) else Variable(width));
    } else if encoding == 3 {
      r := Some(Array);
    } else if encoding == 4 {
      r := Some(Char6);
    } else if encoding == 5 {
      r := Some(Blob);
    } else {
      r := None;
    }
  }

  /** pn_abbrev_read: an array operand is read together with its element encoding. */
  method ReadDefinition(bs: BitStream, ghost ops: seq<Op>) returns (r: Option<seq<Op>>)
    requires bs.Valid() && WellFormed(ops) && At(bs.AllBits(), bs.bitOffset, EncodeDefinition(ops))
    modifies bs
    ensures r == Some(ops) && bs.Valid() && bs.bitOffset == old(bs.bitOffset) + |EncodeDefinition(ops)|
  {
    hide At, DataBits, BitStream.Valid, Encode, EncodeOp;
    ghost var bits, end := bs.AllBits(), bs.bitOffset + |EncodeDefinition(ops)|;
    AtConcat(bits, bs.bitOffset, Encode(|ops|, 5), EncodeOps(ops));
    var numOps := ReadVbrAt(bs, 5, |ops|);
    var read: seq<Op> := [];
    assert ops[0..] == ops;
    while |read| < numOps
      invariant |read| <= |ops| && read == ops[..|read|] && bs.Valid()
      invariant At(bits, bs.bitOffset, EncodeOps(ops[|read|..])) && bs.bitOffset + |EncodeOps(ops[|read|..])| == end
      decreases numOps - |read|
    {
      ghost var i := |read|;
      NextOp(bits, bs.bitOffset, ops, i);
      var op := ReadOp(bs, ops[i]);
      if op.None? {
        return None;
      }
      read := read + [op.value];
      if op.value == Array {
        NextOp(bits, bs.bitOffset, ops, i + 1);
        var element := ReadOp(bs, ops[i + 1]);
        if element.None? || element.value == Array || element.value == Blob {
          return None;
        }
        read := read + [element.value];
      }
    }
    assert ops[..|ops|] == ops;
    r := Some(read);
  }

  lemma NextOp(bits: BitSeq, pos: nat, ops: seq<Op>, i: nat)
    requires WellFormed(ops) && i < |ops| && At(bits, pos, EncodeOps(ops[i..]))
    ensures Definable(ops[i]) && NotTooWide(ops[i]) && At(bits, pos, EncodeOp(ops[i]))
    ensures At(bits, pos + |EncodeOp(ops[i])|, EncodeOps(ops[i + 1..]))
    ensures |EncodeOps(ops[i..])| == |EncodeOp(ops[i])| + |EncodeOps(ops[i + 1..])|
  {
    hide At, EncodeOp;
    assert ops[i..][1..] == ops[i + 1..];
    AtConcat(bits, pos, EncodeOp(ops[i]), EncodeOps(ops[i + 1..]));
  }

  /** The whole round trip: a definition and then a record written with it are read back as exactly
      the operands, the code, as the 32-bit reader sees it, and the values, and the stream is left exactly
      at the end. */
  method ReadDefinitionAndRecord(bs: BitStream, ghost ops: seq<Op>, ghost code: nat, ghost vals: seq<nat>)
    returns (definition: Option<seq<Op>>, c: ReadResult, read: seq<nat>)
    requires bs.Valid() && WellFormed(ops) && Carries(ops, 0, [code] + vals)
    requires At(bs.AllBits(), bs.bitOffset, EncodeDefinition(ops) + EncodeRecord(ops, 0, [code] + vals))
    modifies bs
    ensures definition == Some(ops) && c == ResultOf(false, code)
    ensures c.Value? ==>
      read == vals
      && bs.bitOffset == old(bs.bitOffset) + |EncodeDefinition(ops)| + |EncodeRecord(ops, 0, [code] + vals)|
  {
    hide At, DataBits, BitStream.Valid, EncodeDefinition, EncodeRecord, LeftAt, Carries, WellFormed;
    ghost var bits, pos, record := bs.AllBits(), bs.bitOffset, EncodeRecord(ops, 0, [code] + vals);
    ghost var end := pos + |EncodeDefinition(ops)| + |record|;
    AtConcat(bits, pos, EncodeDefinition(ops), record);
    RecordLeft(bits, pos + |EncodeDefinition(ops)|, ops, [code] + vals);
    CodeFits(ops, code, vals);
    definition := ReadDefinition(bs, ops);
    c, read := ReadRecord(bs, definition.value, code, vals, end);
  }

  method ReadRecord(bs: BitStream, ops: seq<Op>, ghost code: nat, ghost vals: seq<nat>, ghost end: nat)
    returns (c: ReadResult, read: seq<nat>)
    requires bs.Valid() && code < Pow2(64)
    requires LeftAt(4, [ops], bs.AllBits(), bs.bitOffset, 0, 0, UINT32_MAX, [code] + vals, end)
    modifies bs
    ensures c == ResultOf(false, code) && (c.Value? ==> read == vals && bs.bitOffset == end)
  {
    hide DataBits, BitStream.Valid, LeftAt, Fits32, Mask, Pow2;
    var reader := new RecordReader(bs, [ops], 4);
    c := reader.ReadCode(code, vals, end);
    read := [];
    if c.Value? {
      var ok;
      ok, read := reader.ReadAll(true, vals, end);
    }
  }

  /** The first value of a record that operands can carry has 64 bits at most. */
  lemma CodeFits(ops: seq<Op>, code: nat, vals: seq<nat>)
    requires WellFormed(ops) && Carries(ops, 0, [code] + vals)
    ensures code < Pow2(64)
  {
    hide Pow2;
    var op := if ops[0] == Array then ops[1] else ops[0];
    assert ([code] + vals)[0] == code && Fits(op, code);
    match op
    case Fixed(n) => PowMonotone(n, 64);
    case Variable(_) =>
    case _ => FitsNarrow(code);
  }

  lemma RecordLeft(bits: BitSeq, pos: nat, ops: seq<Op>, vals: seq<nat>)
    requires WellFormed(ops) && Carries(ops, 0, vals) && At(bits, pos, EncodeRecord(ops, 0, vals))
    ensures LeftAt(4, [ops], bits, pos, 0, 0, UINT32_MAX, vals, pos + |EncodeRecord(ops, 0, vals)|)
  {
    EncodedPending(bits, pos, ops, 0, vals);
  }
}
