/** The oblivious table lookup, over one flat memory that both pointers point into. */
module Lookup {
  import opened Words
  import opened ConstantTime

  type Byte = b: Word | |b| == 8 witness Mask(8, false)

  const ZERO: Byte := Mask(8, false)

  datatype Access = Load(addr: nat) | Store(addr: nat)

  /** Byte-addressed memory that records every access made to it. */
  class Memory {
    const cells: array<Byte>
    ghost var log: seq<Access>

    constructor (cells: array<Byte>)
      ensures this.cells == cells && log == []
    {
      this.cells := cells;
      log := [];
    }

    method Read(p: nat) returns (b: Byte)
      requires p < cells.Length
      modifies this`log
      ensures b == cells[..][p]
      ensures log == old(log) + [Load(p)]
    {
      b := cells[p];
      log := log + [Load(p)];
    }

    method Write(p: nat, b: Byte)
      requires p < cells.Length
      modifies this`log, cells
      ensures cells[..] == old(cells[..])[p := b]
      ensures log == old(log) + [Store(p)]
    {
      cells[p] := b;
      log := log + [Store(p)];
    }

    method Clear(p: nat, n: nat)
      requires p + n <= cells.Length
      modifies this`log, cells
      ensures cells[..] == Cleared(old(cells[..]), p, n)
      ensures log == old(log) + Stores(p, n)
    {
      var k := 0;
      while k < n
        invariant k <= n
        invariant cells[..] == Cleared(old(cells[..]), p, k)
        invariant log == old(log) + Stores(p, k)
      {
        Write(p + k, ZERO);
        k := k + 1;
      }
    }
  }

  // ---- what the lookup does to memory ----

  /** The memory with the n bytes at p set to zero. */
  ghost function Cleared(m: seq<Byte>, p: nat, n: nat): (r: seq<Byte>)
    requires p + n <= |m|
    ensures |r| == |m|
  {
    if n == 0 then m else Cleared(m, p, n - 1)[p + n - 1 := ZERO]
  }

  /** The memory after copying n bytes from src to dst, one by one, upwards. */
  ghost function Copied(m: seq<Byte>, dst: nat, src: nat, n: nat): (r: seq<Byte>)
    requires dst + n <= |m| && src + n <= |m|
    ensures |r| == |m|
  {
    if n == 0 then m
    else
      var r := Copied(m, dst, src, n - 1);
      r[dst + n - 1 := r[src + n - 1]]
  }

  /** The memory after a lookup: clear the output, then copy row idx if the table has it. */
  ghost function LookedUp(m: seq<Byte>, out: nat, table: nat, rowsize: nat, numrows: nat, idx: nat): (r: seq<Byte>)
    requires out + rowsize <= |m| && table + numrows * rowsize <= |m|
    ensures |r| == |m|
  {
    var c := Cleared(m, out, rowsize);
    if idx < numrows then
      RowFits(rowsize, numrows, idx);
      Copied(c, out, table + idx * rowsize, rowsize)
    else c
  }

  lemma RowFits(rowsize: nat, numrows: nat, i: nat)
    requires i < numrows
    ensures 0 <= i * rowsize && (i + 1) * rowsize == i * rowsize + rowsize <= numrows * rowsize
  {
    assert numrows * rowsize == (i + 1) * rowsize + (numrows - i - 1) * rowsize;
  }

  // ---- what the lookup accesses ----

  ghost function Stores(p: nat, n: nat): (t: seq<Access>)
    ensures |t| == n && forall k | 0 <= k < n :: t[k] == Store(p + k)
  {
    seq(n, k requires k >= 0 => Store(p + k))
  }

  /** One step of the inner loop reads a table byte and updates an output byte. */
  ghost function Touch(out: nat, src: nat): seq<Access> {
    [Load(src), Load(out), Store(out)]
  }

  ghost function RowAccesses(out: nat, src: nat, n: nat): (t: seq<Access>)
    ensures |t| == 3 * n
  {
    if n == 0 then [] else RowAccesses(out, src, n - 1) + Touch(out + n - 1, src + n - 1)
  }

  /** The accesses of a whole lookup: a function of public values only. */
  ghost function Accesses(out: nat, table: nat, rowsize: nat, numrows: nat): (t: seq<Access>)
  {
    if numrows == 0 then Stores(out, rowsize)
    else Accesses(out, table, rowsize, numrows - 1) + RowAccesses(out, table + (numrows - 1) * rowsize, rowsize)
  }

  lemma Append(log: seq<Access>, t: seq<Access>, u: seq<Access>)
    ensures log + t + u == log + (t + u)
  {
  }

  // ---- the loop ----

  method ConstantTimeLookup(mem: Memory, out: nat, table: nat, rowsize: nat, numrows: nat, idx: Word, wu: nat)
    requires |idx| >= 8 && wu >= 8
    requires numrows < Pow2(|idx|)
    requires out + rowsize <= mem.cells.Length && table + numrows * rowsize <= mem.cells.Length
    modifies mem, mem.cells
    ensures mem.cells[..] == LookedUp(old(mem.cells[..]), out, table, rowsize, numrows, Val(idx))
    ensures mem.log == old(mem.log) + Accesses(out, table, rowsize, numrows)
  {
    ghost var before, log0, target := mem.cells[..], mem.log, Val(idx);
    mem.Clear(out, rowsize);
    var i, cursor, tablec := 0, idx, table;
    while i < numrows
      invariant i <= numrows
      invariant CountedDown(cursor, idx, i)
      invariant 0 <= i * rowsize <= numrows * rowsize && tablec == table + i * rowsize
      invariant mem.cells[..] == LookedUp(before, out, table, rowsize, i, target)
      invariant mem.log == log0 + Accesses(out, table, rowsize, i)
    {
      RowFits(rowsize, numrows, i);
      var mask := RowMask(cursor, idx, i);
      tablec := LookupNextRow(mem, out, table, rowsize, i, tablec, mask, wu, before, target, log0);
      cursor := Decrement(cursor, idx, i);
      i := i + 1;
    }
  }

  /** One iteration of the outer loop: from a table of i rows to one of i + 1. */
  method LookupNextRow(mem: Memory, out: nat, ghost table: nat, rowsize: nat, ghost i: nat, src: nat,
                       mask: Byte, wu: nat, ghost before: seq<Byte>, ghost target: nat, ghost log0: seq<Access>)
    returns (tablec: nat)
    requires wu >= 8 && mask == Mask(8, i == target)
    requires 0 <= i * rowsize && src == table + i * rowsize && (i + 1) * rowsize == i * rowsize + rowsize
    requires |before| == mem.cells.Length && out + rowsize <= |before| && src + rowsize <= |before|
    requires mem.cells[..] == LookedUp(before, out, table, rowsize, i, target)
    requires mem.log == log0 + Accesses(out, table, rowsize, i)
    modifies mem, mem.cells
    ensures tablec == src + rowsize
    ensures mem.cells[..] == LookedUp(before, out, table, rowsize, i + 1, target)
    ensures mem.log == log0 + Accesses(out, table, rowsize, i + 1)
  {
    LookedUpStep(before, out, table, rowsize, i, target);
    Append(log0, Accesses(out, table, rowsize, i), RowAccesses(out, src, rowsize));
    tablec := LookupRow(mem, out, src, rowsize, mask, wu);
  }

  /** The mask of row i: the wrapped index is zero in iteration idx and in no other. */
  method RowMask(cursor: Word, ghost idx: Word, ghost i: nat) returns (mask: Byte)
    requires |idx| >= 8 && i < Pow2(|idx|) && CountedDown(cursor, idx, i)
    ensures mask == Mask(8, i == Val(idx))
  {
    mask := IsZero8(cursor);
  }

  method Decrement(cursor: Word, ghost idx: Word, ghost i: nat) returns (next: Word)
    requires |idx| >= 8 && i < Pow2(|idx|) && CountedDown(cursor, idx, i)
    ensures CountedDown(next, idx, i + 1)
  {
    next := Sub(cursor, One(|cursor|));
  }

  /** The inner loop: OR one masked row into the output, returning the advanced table pointer. */
  method LookupRow(mem: Memory, out: nat, src: nat, rowsize: nat, mask: Byte, wu: nat) returns (tablec: nat)
    requires wu >= 8 && (mask == Mask(8, true) || mask == Mask(8, false))
    requires out + rowsize <= mem.cells.Length && src + rowsize <= mem.cells.Length
    requires mask == Mask(8, true) ==> IsClear(mem.cells[..], out, rowsize)
    modifies mem, mem.cells
    ensures tablec == src + rowsize
    ensures mem.cells[..] == RowDone(old(mem.cells[..]), out, src, rowsize, mask)
    ensures mem.log == old(mem.log) + RowAccesses(out, src, rowsize)
  {
    ghost var start := mem.cells[..];
    var j := 0;
    tablec := src;
    while j < rowsize
      invariant j <= rowsize
      invariant tablec == src + j
      invariant mem.cells[..] == RowDone(start, out, src, j, mask)
      invariant mem.log == old(mem.log) + RowAccesses(out, src, j)
    {
      OutputStillClear(start, out, src, rowsize, j, mask);
      RowDoneStep(start, out, src, j, mask);
      Append(old(mem.log), RowAccesses(out, src, j), Touch(out + j, src + j));
      LookupByte(mem, out + j, tablec, mask, wu);
      tablec := tablec + 1;
      j := j + 1;
    }
  }

  /** One step of the inner loop: OR a masked table byte into an output byte. */
  method LookupByte(mem: Memory, out: nat, src: nat, mask: Byte, wu: nat)
    requires wu >= 8 && (mask == Mask(8, true) || mask == Mask(8, false))
    requires out < mem.cells.Length && src < mem.cells.Length
    requires mask == Mask(8, true) ==> mem.cells[..][out] == ZERO
    modifies mem, mem.cells
    ensures mem.cells[..] == if mask == Mask(8, true) then old(mem.cells[..])[out := old(mem.cells[..])[src]]
                             else old(mem.cells[..])
    ensures mem.log == old(mem.log) + Touch(out, src)
  {
    var b := mem.Read(src);
    var o := mem.Read(out);
    var r := MaskedOr(o, mask, b, wu);
    mem.Write(out, r);
    assert mask == Mask(8, false) ==> mem.cells[..] == old(mem.cells[..]);
  }

  method MaskedOr(o: Byte, mask: Byte, b: Byte, wu: nat) returns (r: Byte)
    requires wu >= 8 && (mask == Mask(8, true) || mask == Mask(8, false))
    ensures mask == Mask(8, true) && o == ZERO ==> r == b
    ensures mask == Mask(8, false) ==> r == o
  {
    var s: Byte := Select8(mask, b, ZERO, wu);
    r := Or(o, s);
    OrOfZero(s);
    OrOfZero(o);
  }

  lemma OrOfZero(b: Byte)
    ensures Or(ZERO, b) == b && Or(b, ZERO) == b
  {
  }

  /** The index after i decrements, modulo 2^w. */
  ghost predicate CountedDown(cursor: Word, idx: Word, i: nat) {
    && |cursor| == |idx|
    && Val(cursor) == if i <= Val(idx) then Val(idx) - i else Val(idx) - i + Pow2(|idx|)
  }

  ghost predicate IsClear(m: seq<Byte>, p: nat, n: nat) {
    p + n <= |m| && forall k | p <= k < p + n :: m[k] == ZERO
  }

  /** The memory after j columns of a row: copied under a full mask, untouched under an empty one. */
  ghost function RowDone(m: seq<Byte>, out: nat, src: nat, j: nat, mask: Byte): (r: seq<Byte>)
    requires out + j <= |m| && src + j <= |m|
    ensures |r| == |m|
  {
    if mask == Mask(8, true) then Copied(m, out, src, j) else m
  }

  lemma OutputStillClear(m: seq<Byte>, out: nat, src: nat, rowsize: nat, j: nat, mask: Byte)
    requires out + rowsize <= |m| && src + rowsize <= |m| && j < rowsize
    requires mask == Mask(8, true) ==> IsClear(m, out, rowsize)
    ensures mask == Mask(8, true) ==> RowDone(m, out, src, j, mask)[out + j] == ZERO
  {
    if mask == Mask(8, true) {
      CopiedFrame(m, out, src, j);
    }
  }

  lemma RowDoneStep(m: seq<Byte>, out: nat, src: nat, j: nat, mask: Byte)
    requires out + j < |m| && src + j < |m|
    ensures var r := RowDone(m, out, src, j, mask);
            RowDone(m, out, src, j + 1, mask) == if mask == Mask(8, true) then r[out + j := r[src + j]] else r
  {
  }

  lemma LookedUpStep(m: seq<Byte>, out: nat, table: nat, rowsize: nat, i: nat, target: nat)
    requires out + rowsize <= |m| && 0 <= i * rowsize && (i + 1) * rowsize == i * rowsize + rowsize
    requires table + (i + 1) * rowsize <= |m|
    ensures i == target ==> IsClear(LookedUp(m, out, table, rowsize, i, target), out, rowsize)
    ensures LookedUp(m, out, table, rowsize, i + 1, target)
            == RowDone(LookedUp(m, out, table, rowsize, i, target), out, table + i * rowsize, rowsize,
                       Mask(8, i == target))
  {
    ClearedAt(m, out, rowsize);
    assert Mask(8, false)[0] != Mask(8, true)[0];
  }

  lemma {:induction false} ClearedAt(m: seq<Byte>, p: nat, n: nat)
    requires p + n <= |m|
    ensures forall k | 0 <= k < |m| :: Cleared(m, p, n)[k] == if p <= k < p + n then ZERO else m[k]
  {
    if n == 0 {
    } else {
      ClearedAt(m, p, n - 1);
    }
  }

  lemma {:induction false} CopiedFrame(m: seq<Byte>, dst: nat, src: nat, n: nat)
    requires dst + n <= |m| && src + n <= |m|
    ensures forall k | 0 <= k < |m| && !(dst <= k < dst + n) :: Copied(m, dst, src, n)[k] == m[k]
  {
    if n == 0 {
    } else {
      CopiedFrame(m, dst, src, n - 1);
    }
  }

  // ---- what the lookup promises ----

  ghost predicate Disjoint(p: nat, q: nat, n: nat) {
    p + n <= q || q + n <= p
  }

  lemma {:induction false} CopiedDisjoint(m: seq<Byte>, dst: nat, src: nat, n: nat, size: nat)
    requires n <= size && dst + size <= |m| && src + size <= |m| && Disjoint(dst, src, size)
    ensures Copied(m, dst, src, n)[dst..dst + n] == m[src..src + n]
  {
    if n == 0 {
    } else {
      CopiedDisjoint(m, dst, src, n - 1, size);
      CopiedFrame(m, dst, src, n - 1);
      var r := Copied(m, dst, src, n - 1);
      assert r[dst..dst + n - 1] == m[src..src + n - 1];
      assert m[src..src + n] == m[src..src + n - 1] + [m[src + n - 1]];
      assert Copied(m, dst, src, n)[dst..dst + n] == r[dst..dst + n - 1] + [r[src + n - 1]];
    }
  }

  /** The output the header promises: row idx of the table, or zeros past its end. */
  ghost function Promised(m: seq<Byte>, table: nat, rowsize: nat, numrows: nat, idx: nat): seq<Byte>
    requires table + numrows * rowsize <= |m|
  {
    if idx < numrows then
      RowFits(rowsize, numrows, idx);
      m[table + idx * rowsize..table + idx * rowsize + rowsize]
    else seq(rowsize, _ => ZERO)
  }

  ghost predicate LookupWorks(size: nat, out: nat, table: nat, rowsize: nat, numrows: nat, idx: nat)
    requires out + rowsize <= size && table + numrows * rowsize <= size
  {
    forall m: seq<Byte> | |m| == size ::
      LookedUp(m, out, table, rowsize, numrows, idx)[out..out + rowsize] == Promised(m, table, rowsize, numrows, idx)
  }

  /** Nothing outside the output changes, and the output is as promised whenever it does
    * not overlap the chosen row. */
  lemma LookupCorrect(m: seq<Byte>, out: nat, table: nat, rowsize: nat, numrows: nat, idx: nat)
    requires out + rowsize <= |m| && table + numrows * rowsize <= |m|
    ensures forall k | 0 <= k < |m| && !(out <= k < out + rowsize) ::
              LookedUp(m, out, table, rowsize, numrows, idx)[k] == m[k]
    ensures idx >= numrows || Disjoint(out, table + idx * rowsize, rowsize) ==>
              LookedUp(m, out, table, rowsize, numrows, idx)[out..out + rowsize]
              == Promised(m, table, rowsize, numrows, idx)
  {
    if idx < numrows {
      RowFits(rowsize, numrows, idx);
      ClearedThenCopied(m, out, table + idx * rowsize, rowsize);
    } else {
      ClearedAt(m, out, rowsize);
    }
  }

  /** What an overlapping output receives instead, byte by byte: the part of the row that lies
    * behind the output's start and within it reads as zero, or, when the output comes after the
    * row, as what was just written. */
  lemma LookupOverlapping(m: seq<Byte>, out: nat, table: nat, rowsize: nat, numrows: nat, idx: nat, k: nat)
    requires out + rowsize <= |m| && table + numrows * rowsize <= |m| && idx < numrows && k < rowsize
    ensures 0 <= idx * rowsize && table + idx * rowsize + k < |m|
    ensures var r := LookedUp(m, out, table, rowsize, numrows, idx);
            var src := table + idx * rowsize;
            r[out + k] == if src + k < out || out + rowsize <= src + k then m[src + k]
                          else if src < out then r[src + k]
                          else ZERO
  {
    RowFits(rowsize, numrows, idx);
    ClearedAt(m, out, rowsize);
    CopiedAt(Cleared(m, out, rowsize), out, table + idx * rowsize, rowsize, k);
  }

  /** A byte copied is the source byte of that moment: already copied over, or not yet. */
  lemma {:induction false} CopiedAt(m: seq<Byte>, dst: nat, src: nat, n: nat, k: nat)
    requires dst + n <= |m| && src + n <= |m| && k < n
    ensures Copied(m, dst, src, n)[dst + k]
            == if src < dst && dst <= src + k then Copied(m, dst, src, n)[src + k] else m[src + k]
  {
    if k == n - 1 {
      CopiedFrame(m, dst, src, n - 1);
    } else {
      CopiedAt(m, dst, src, n - 1, k);
    }
  }

  lemma ClearedThenCopied(m: seq<Byte>, out: nat, src: nat, n: nat)
    requires out + n <= |m| && src + n <= |m|
    ensures forall k | 0 <= k < |m| && !(out <= k < out + n) :: Copied(Cleared(m, out, n), out, src, n)[k] == m[k]
    ensures Disjoint(out, src, n) ==> Copied(Cleared(m, out, n), out, src, n)[out..out + n] == m[src..src + n]
  {
    var c := Cleared(m, out, n);
    ClearedAt(m, out, n);
    CopiedFrame(c, out, src, n);
    if Disjoint(out, src, n) {
      CopiedDisjoint(c, out, src, n, n);
      assert c[src..src + n] == m[src..src + n];
    }
  }

  /** The lookup works for all memory contents exactly when the row is out of range or the
    * output does not overlap it; overlapping any other row does no harm. */
  lemma LookupWorksIff(size: nat, out: nat, table: nat, rowsize: nat, numrows: nat, idx: nat)
    requires out + rowsize <= size && table + numrows * rowsize <= size
    ensures LookupWorks(size, out, table, rowsize, numrows, idx)
            <==> idx >= numrows || Disjoint(out, table + idx * rowsize, rowsize)
  {
    if idx >= numrows || Disjoint(out, table + idx * rowsize, rowsize) {
      forall m: seq<Byte> | |m| == size
        ensures LookedUp(m, out, table, rowsize, numrows, idx)[out..out + rowsize]
                == Promised(m, table, rowsize, numrows, idx)
      {
        LookupCorrect(m, out, table, rowsize, numrows, idx);
      }
    } else {
      var m := OverlapFails(size, out, table, rowsize, numrows, idx);
    }
  }

  /** A single nonzero byte that lies both in the output and in the chosen row is lost. */
  lemma OverlapFails(size: nat, out: nat, table: nat, rowsize: nat, numrows: nat, idx: nat) returns (m: seq<Byte>)
    requires out + rowsize <= size && table + numrows * rowsize <= size
    requires idx < numrows && !Disjoint(out, table + idx * rowsize, rowsize)
    ensures |m| == size
    ensures LookedUp(m, out, table, rowsize, numrows, idx)[out..out + rowsize]
            != Promised(m, table, rowsize, numrows, idx)
  {
    RowFits(rowsize, numrows, idx);
    var src := table + idx * rowsize;
    var p := if out < src then src else out;
    var zeros: seq<Byte> := seq(size, _ => ZERO);
    m := zeros[p := Mask(8, true)];
    ClearedAt(m, out, rowsize);
    assert Cleared(m, out, rowsize) == zeros;
    CopyOfZeros(zeros, out, src, rowsize);
    var got := LookedUp(m, out, table, rowsize, numrows, idx)[out..out + rowsize];
    var want := Promised(m, table, rowsize, numrows, idx);
    assert want[p - src] == Mask(8, true) && got[p - src] == ZERO;
    assert Mask(8, true)[0] != ZERO[0];
  }

  lemma {:induction false} CopyOfZeros(m: seq<Byte>, dst: nat, src: nat, n: nat)
    requires dst + n <= |m| && src + n <= |m|
    requires forall k | 0 <= k < |m| :: m[k] == ZERO
    ensures Copied(m, dst, src, n) == m
  {
    if n == 0 {
    } else {
      CopyOfZeros(m, dst, src, n - 1);
    }
  }

  // ---- obliviousness ----

  /** Runs on any two memories, with any two indices, make the same accesses. */
  method LookupOblivious(a: Memory, b: Memory, out: nat, table: nat, rowsize: nat, numrows: nat,
                         x: Word, y: Word, wu: nat)
    requires a != b && a.cells != b.cells
    requires |x| == |y| >= 8 && wu >= 8 && numrows < Pow2(|x|)
    requires out + rowsize <= a.cells.Length && table + numrows * rowsize <= a.cells.Length
    requires out + rowsize <= b.cells.Length && table + numrows * rowsize <= b.cells.Length
    requires a.log == b.log
    modifies a, b, a.cells, b.cells
    ensures a.log == b.log
  {
    ConstantTimeLookup(a, out, table, rowsize, numrows, x, wu);
    ConstantTimeLookup(b, out, table, rowsize, numrows, y, wu);
  }

  /** After the clearing, every byte of every row is loaded, in table order, whatever the index. */
  lemma ScansWholeTable(out: nat, table: nat, rowsize: nat, numrows: nat, i: nat, j: nat)
    requires i < numrows && j < rowsize
    ensures 0 <= i * rowsize
    ensures var at := rowsize + 3 * (i * rowsize) + 3 * j;
            && at + 3 <= |Accesses(out, table, rowsize, numrows)|
            && Accesses(out, table, rowsize, numrows)[at..at + 3]
               == [Load(table + i * rowsize + j), Load(out + j), Store(out + j)]
  {
    RowFits(rowsize, numrows, i);
    AccessCount(out, table, rowsize, i);
    AccessesGrow(out, table, rowsize, i + 1, numrows);
    RowIsScanned(Accesses(out, table, rowsize, i), Accesses(out, table, rowsize, numrows),
                 out, table + i * rowsize, rowsize, j);
  }

  /** Before that the output is cleared, and there are no further accesses. */
  lemma ClearsThenScans(out: nat, table: nat, rowsize: nat, numrows: nat)
    ensures 0 <= numrows * rowsize
    ensures |Accesses(out, table, rowsize, numrows)| == rowsize + 3 * (numrows * rowsize)
    ensures forall k | 0 <= k < rowsize :: Accesses(out, table, rowsize, numrows)[k] == Store(out + k)
  {
    AccessCount(out, table, rowsize, numrows);
    AccessesGrow(out, table, rowsize, 0, numrows);
  }

  lemma RowIsScanned(t: seq<Access>, all: seq<Access>, out: nat, src: nat, rowsize: nat, j: nat)
    requires j < rowsize && t + RowAccesses(out, src, rowsize) <= all
    ensures |t| + 3 * j + 3 <= |all| && all[|t| + 3 * j..|t| + 3 * j + 3] == Touch(out + j, src + j)
  {
    var row := RowAccesses(out, src, rowsize);
    RowAccessAt(out, src, rowsize, j);
    SliceBack(t, row, 3 * j, 3 * j + 3);
    var rest := all[|t + row|..];
    assert all == t + row + rest;
    SliceFront(t + row, rest, |t| + 3 * j, |t| + 3 * j + 3);
  }

  lemma {:induction false} AccessesGrow(out: nat, table: nat, rowsize: nat, m: nat, n: nat)
    requires m <= n
    ensures Accesses(out, table, rowsize, m) <= Accesses(out, table, rowsize, n)
  {
    if m == n {
    } else {
      AccessesGrow(out, table, rowsize, m, n - 1);
    }
  }

  lemma SliceFront(t: seq<Access>, u: seq<Access>, a: nat, b: nat)
    requires a <= b <= |t|
    ensures (t + u)[a..b] == t[a..b]
  {
  }

  lemma SliceBack(t: seq<Access>, u: seq<Access>, a: nat, b: nat)
    requires a <= b <= |u|
    ensures (t + u)[|t| + a..|t| + b] == u[a..b]
  {
  }

  lemma {:induction false} AccessCount(out: nat, table: nat, rowsize: nat, numrows: nat)
    ensures |Accesses(out, table, rowsize, numrows)| == rowsize + 3 * (numrows * rowsize)
  {
    if numrows == 0 {
    } else {
      AccessCount(out, table, rowsize, numrows - 1);
      assert numrows * rowsize == (numrows - 1) * rowsize + rowsize;
    }
  }

  lemma {:induction false} RowAccessAt(out: nat, src: nat, n: nat, j: nat)
    requires j < n
    ensures RowAccesses(out, src, n)[3 * j..3 * j + 3] == Touch(out + j, src + j)
  {
    var t := RowAccesses(out, src, n - 1);
    var last := Touch(out + n - 1, src + n - 1);
    if j < n - 1 {
      RowAccessAt(out, src, n - 1, j);
      SliceFront(t, last, 3 * j, 3 * j + 3);
    } else {
      SliceBack(t, last, 0, 3);
    }
  }
}
