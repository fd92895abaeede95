/** The growing table of abbreviations: the headers and all their operands share one allocation, so that
    making room for a header moves every operand. */
module AbbrevTable {
  import opened ChunkAllocator
  import opened Common

  const ABBREV_SIZE: nat := 16
  const OP_SIZE: nat := 8
  const DEFAULT_ALIGN: nat := 8

  /** The number of operands of an abbreviation, and where they are. */
  datatype Header = Header(numOps: nat, ops: nat)

  /** The operands of the abbreviations before the `i`th. */
  ghost function OpsBefore(headers: seq<Header>, i: nat): nat
    requires i <= |headers|
  {
    if i == 0 then 0 else OpsBefore(headers, i - 1) + headers[i - 1].numOps
  }

  lemma {:induction false} OpsBeforeSame(h: seq<Header>, k: seq<Header>, i: nat)
    requires i <= |h| && i <= |k| && forall j :: 0 <= j < i ==> h[j].numOps == k[j].numOps
    ensures OpsBefore(h, i) == OpsBefore(k, i)
  {
    if i > 0 {
      OpsBeforeSame(h, k, i - 1);
    }
  }

  lemma {:induction false} OpsBeforeMonotone(h: seq<Header>, i: nat, j: nat)
    requires i <= j <= |h|
    ensures OpsBefore(h, i) <= OpsBefore(h, j)
  {
    if i < j {
      OpsBeforeMonotone(h, i, j - 1);
    }
  }

  /** The operands of all abbreviations lie one after the other behind the `slots` headers at `base`. */
  ghost predicate Packed(headers: seq<Header>, base: nat, slots: nat) {
    forall i :: 0 <= i < |headers| ==> headers[i].ops == base + ABBREV_SIZE * slots + OP_SIZE * OpsBefore(headers, i)
  }

  /** The bytes the table takes. */
  ghost function TableSize(headers: seq<Header>): nat {
    ABBREV_SIZE * |headers| + OP_SIZE * OpsBefore(headers, |headers|)
  }

  /** Each abbreviation takes a header of 16 bytes and 8 bytes for each of its operands. */
  lemma TableBytes(h: seq<Header>, last: Header)
    ensures TableSize([]) == 0 && TableSize(h + [last]) == TableSize(h) + 16 + 8 * last.numOps
  {
    OpsBeforeSame(h, h + [last], |h|);
  }

  /** A part of equal byte ranges is equal. */
  lemma BytesWithin(m: Memory, k: Memory, from: nat, to: nat, n: nat, at: nat, len: nat)
    requires Bytes(m, from, n) == Bytes(k, to, n) && at + len <= n
    ensures Bytes(m, from + at, len) == Bytes(k, to + at, len)
  {
    BytesSlice(m, from, n, at, len);
    BytesSlice(k, to, n, at, len);
  }

  lemma BytesSlice(m: Memory, from: nat, n: nat, at: nat, len: nat)
    requires at + len <= n
    ensures Bytes(m, from + at, len) == Bytes(m, from, n)[at..at + len]
  {
  }

  /** Growing the last allocation adds to its size; making one gives it its size. */
  lemma GrownSize(s: State, add: nat, align: nat, minChunkSize: nat, region: nat)
    requires Inv(s) && 0 < add && 0 < align
    ensures var t := Alloc(s, add, align, minChunkSize, region);
      t.live[|t.live| - 1].size == add && t.live[|t.live| - 1].addr == t.lastAlloc
    ensures s.live != [] && s.chunks != [] ==>
      (var t := GrowLast(s, add, align, minChunkSize, region);
       t.live != [] && t.live[|t.live| - 1].size == s.live[|s.live| - 1].size + add
       && t.live[|t.live| - 1].addr == t.lastAlloc)
  {
    hide Inv, AlignUp, ChunkSize;
  }

  lemma LastIsNotNull(s: State)
    requires Inv(s) && s.live != []
    ensures s.lastAlloc != NULL && s.chunks != []
  {
    hide Aligned;
  }

  /** Where each abbreviation's operands come from: they follow the header that was put before them. */
  lemma OperandsKept(h: seq<Header>, i: nat, was: nat, m0: Memory, q: nat, m1: Memory, m2: Memory)
    requires i < |h| && Packed(h, was, |h|)
    requires Bytes(m1, q, TableSize(h)) == Bytes(m0, was, TableSize(h))
    requires var ops := q + ABBREV_SIZE * |h|; var n := OP_SIZE * OpsBefore(h, |h|);
      Bytes(m2, ops + ABBREV_SIZE, n) == Bytes(m1, ops, n)
    ensures Bytes(m2, q + ABBREV_SIZE * (|h| + 1) + OP_SIZE * OpsBefore(h, i), OP_SIZE * h[i].numOps)
      == Bytes(m0, h[i].ops, OP_SIZE * h[i].numOps)
  {
    hide Bytes, OpsBefore;
    OpsBeforeNext(h, i);
    OpsBeforeMonotone(h, i + 1, |h|);
    RangeMoved(was, q, ABBREV_SIZE * |h|, OP_SIZE * OpsBefore(h, |h|),
      OP_SIZE * OpsBefore(h, i), OP_SIZE * h[i].numOps, m0, m1, m2);
  }

  lemma OpsBeforeNone(h: seq<Header>)
    ensures OpsBefore(h, 0) == 0
  {
  }

  lemma OpsBeforeNext(h: seq<Header>, i: nat)
    requires i < |h|
    ensures OpsBefore(h, i + 1) == OpsBefore(h, i) + h[i].numOps
  {
  }

  lemma RangeMoved(was: nat, q: nat, heads: nat, opsSize: nat, at: nat, len: nat, m0: Memory, m1: Memory, m2: Memory)
    requires at + len <= opsSize && Bytes(m1, q, heads + opsSize) == Bytes(m0, was, heads + opsSize)
    requires Bytes(m2, q + heads + ABBREV_SIZE, opsSize) == Bytes(m1, q + heads, opsSize)
    ensures Bytes(m2, q + heads + ABBREV_SIZE + at, len) == Bytes(m0, was + heads + at, len)
  {
    hide Bytes;
    BytesWithin(m2, m1, q + heads + ABBREV_SIZE, q + heads, opsSize, at, len);
    BytesWithin(m1, m0, q, was, heads + opsSize, heads + at, len);
    assert q + (heads + at) == q + heads + at && was + (heads + at) == was + heads + at;
  }

  lemma NoBytes(m: Memory, from: nat)
    ensures Bytes(m, from, 0) == []
  {
  }

  lemma PackedBy(h: seq<Header>, k: seq<Header>, base: nat)
    requires |k| == |h| + 1 && forall i :: 0 <= i <= |h| ==> OpsBefore(k, i) == OpsBefore(h, i)
    requires forall i :: 0 <= i <= |h| ==> k[i].ops == base + ABBREV_SIZE * |k| + OP_SIZE * OpsBefore(h, i)
    ensures Packed(k, base, |k|)
  {
  }

  class Table {
    const allocator: Allocator
    var base: nat
    var headers: seq<Header>

    /** The table is the allocator's last allocation, or there is none yet. */
    ghost predicate Valid()
      reads this, allocator
    {
      && Inv(allocator.Abs())
      && Packed(headers, base, |headers|)
      && (base == NULL <==> headers == [])
      && (base != NULL ==> LastHolds(base, TableSize(headers)))
    }

    /** The allocator's last allocation is the one at `p` of `size` bytes. */
    ghost predicate LastHolds(p: nat, size: nat)
      reads allocator
    {
      allocator.live != [] && p == allocator.lastAlloc && size == allocator.live[|allocator.live| - 1].size
    }

    /** The operands of abbreviation `i`, as bytes. */
    ghost function Operands(i: nat): seq<int>
      reads this, allocator
      requires i < |headers|
    {
      Bytes(allocator.mem, headers[i].ops, OP_SIZE * headers[i].numOps)
    }

    constructor (allocator: Allocator)
      requires Inv(allocator.Abs())
      ensures Valid() && this.allocator == allocator && headers == []
    {
      this.allocator := allocator;
      base := NULL;
      headers := [];
    }

    /** What the system's allocator returns fits the request for a table with one more abbreviation. */
    ghost predicate Supplied(numOps: nat, region: nat)
      reads this, allocator
    {
      var add := ABBREV_SIZE + OP_SIZE * numOps;
      var s := allocator.Abs();
      if base == NULL then
        !Fits(s, add, DEFAULT_ALIGN) ==>
          add < MAX_ALLOC_SIZE && Fresh(s, region, ChunkSize(add, DEFAULT_ALIGN, allocator.minChunkSize))
      else
        !Grows(s, add) ==>
          TableSize(headers) + add < MAX_ALLOC_SIZE
          && Fresh(s, region, ChunkSize(TableSize(headers) + add, DEFAULT_ALIGN, allocator.minChunkSize))
    }

    /** pn_abbrevs_allocate: a new abbreviation with room for `numOps` operands. The table may move, and
        all operands do; every abbreviation keeps its own. */
    method Allocate(numOps: nat, region: nat)
      requires Valid() && Supplied(numOps, region)
      modifies this, allocator
      ensures Valid() && |headers| == |old(headers)| + 1
      ensures forall i :: 0 <= i < |old(headers)| ==>
        headers[i].numOps == old(headers[i].numOps) && Operands(i) == old(Operands(i))
      ensures var last := headers[|old(headers)|];
        last.numOps == numOps && base + ABBREV_SIZE * |headers| <= last.ops
        && last.ops + OP_SIZE * numOps == base + TableSize(headers)
    {
      hide Inv, Bytes, Packed, Supplied, OpsBefore;
      ghost var h, m0, was := headers, allocator.mem, base;
      var lastSize := Size();
      var q := Extend(ABBREV_SIZE + OP_SIZE * numOps, numOps, region);
      ghost var m1 := allocator.mem;
      var prevOps := q + ABBREV_SIZE * |headers|;
      allocator.CopyBytes(prevOps + ABBREV_SIZE, prevOps, lastSize - ABBREV_SIZE * |headers|);
      base := q;
      var ops := FixPointers(prevOps + ABBREV_SIZE);
      headers := headers + [Header(numOps, ops)];
      OpsBeforeAppend(h, headers);
      forall i | 0 <= i < |h|
        ensures Operands(i) == Bytes(m0, h[i].ops, OP_SIZE * h[i].numOps)
      {
        OperandsKept(h, i, was, m0, q, m1, allocator.mem);
      }
      PackedBy(h, headers, q);
    }

    lemma NoTable()
      ensures headers == [] ==> TableSize(headers) == 0
    {
    }

    /** The bytes the table takes now. */
    method Size() returns (size: nat)
      requires Valid()
      ensures size == TableSize(headers)
    {
      hide Inv, Packed, OpsBefore;
      NoTable();
      size := 0;
      if base != NULL {
        size := allocator.LastAllocSize();
      }
    }

    /** Push every operand pointer on to where the operands, from `at` on, now are. */
    method FixPointers(at: nat) returns (ops: nat)
      modifies `headers
      ensures |headers| == |old(headers)| && ops == at + OP_SIZE * OpsBefore(old(headers), |headers|)
      ensures forall i :: 0 <= i < |headers| ==>
        headers[i] == Header(old(headers)[i].numOps, at + OP_SIZE * OpsBefore(old(headers), i))
    {
      hide OpsBefore;
      OpsBeforeNone(headers);
      ops := at;
      for i := 0 to |headers|
        invariant |headers| == |old(headers)| && ops == at + OP_SIZE * OpsBefore(old(headers), i)
        invariant forall j :: 0 <= j < i ==>
          headers[j] == Header(old(headers)[j].numOps, at + OP_SIZE * OpsBefore(old(headers), j))
        invariant forall j :: i <= j < |headers| ==> headers[j] == old(headers)[j]
      {
        OpsBeforeNext(old(headers), i);
        headers := headers[i := headers[i].(ops := ops)];
        ops := ops + headers[i].numOps * OP_SIZE;
      }
    }

    /** Ask the allocator for `add` more bytes at the end of the table. */
    method Extend(add: nat, ghost numOps: nat, region: nat) returns (q: nat)
      requires Valid() && Supplied(numOps, region) && add == ABBREV_SIZE + OP_SIZE * numOps
      modifies allocator
      ensures Inv(allocator.Abs()) && q != NULL && LastHolds(q, TableSize(headers) + add)
      ensures Bytes(allocator.mem, q, TableSize(headers)) == Bytes(old(allocator.mem), base, TableSize(headers))
    {
      hide Inv, Bytes, Packed, Alloc, GrowLast, Fits, Fresh, ChunkSize;
      GrownSize(allocator.Abs(), add, DEFAULT_ALIGN, allocator.minChunkSize, region);
      var ok, ret;
      ok, q, ret := allocator.ReallocAdd(base, add, DEFAULT_ALIGN, region);
      LastIsNotNull(allocator.Abs());
      NoBytes(allocator.mem, q);
      NoBytes(old(allocator.mem), base);
    }
  }

  lemma OpsBeforeAppend(h: seq<Header>, k: seq<Header>)
    requires |k| == |h| + 1 && forall i :: 0 <= i < |h| ==> k[i].numOps == h[i].numOps
    ensures forall i :: 0 <= i <= |h| ==> OpsBefore(k, i) == OpsBefore(h, i)
    ensures OpsBefore(k, |k|) == OpsBefore(h, |h|) + k[|h|].numOps
  {
    forall i | 0 <= i <= |h|
      ensures OpsBefore(k, i) == OpsBefore(h, i)
    {
      OpsBeforeSame(k, h, i);
    }
  }
}
