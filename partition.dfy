/** Row partitioning of the plate among the solver threads (the loop in `main` of
    heat2dPara.c). Each thread gets a contiguous block of global rows, a position tag,
    the bounds `copyStart`/`copyEnd`, a local height and a local row table whose
    entries either alias a row of the shared grid or name a private ghost row. */
module Partition {

  /** Position tag of a thread's block (TOP, MID, BOT, WHOLE in the source). */
  datatype Position = Top | Mid | Bot | Whole

  /** One entry of a thread's local row table (`threadU[i]` in the source): an alias
      of global row `globalRow` of the shared grid, or a privately allocated ghost row. */
  datatype LocalRow = Owned(globalRow: nat) | Ghost

  /** What the partition loop records for one thread: its rank, position,
      `copyStart`, `copyEnd`, the local height `localM` (`param->M`) and the
      local row table (`param->u`). */
  datatype Descriptor = Descriptor(
    rank: nat,
    position: Position,
    copyStart: nat,
    copyEnd: nat,
    localM: nat,
    rows: seq<LocalRow>)

  /** BOT and MID keep a ghost row above their block, at local index 0. */
  predicate GhostAbove(p: Position) { p == Bot || p == Mid }

  /** TOP and MID keep a ghost row below their block, at the last local index. */
  predicate GhostBelow(p: Position) { p == Top || p == Mid }

  function Min(a: int, b: int): int { if a <= b then a else b }

  /** How many interior indices `1 .. n-2` a dimension of size n has. */
  function Inner(n: int): nat
  {
    if n >= 2 then n - 2 else 0
  }

  /** Rows per thread: the ceiling of M / T. The source computes it as
      `ceil((double) M / (double) T)`, which is exact for every `int` M and T. */
  function Step(M: nat, T: nat): (s: nat)
    requires 1 <= T
    ensures M <= s * T
    ensures (s - 1) * T < M
  {
    var q := (M + T - 1) / T;
    assert (M + T - 1) == q * T + (M + T - 1) % T;
    q
  }

  /** The step never exceeds M, and is strictly smaller than M once there are two
      threads and at least two rows; the step is positive exactly when M is. */
  lemma StepBounds(M: nat, T: nat)
    requires 1 <= T
    ensures Step(M, T) <= M
    ensures 1 <= Step(M, T) <==> 1 <= M
    ensures T == 1 ==> Step(M, T) == M
    ensures 2 <= M && 2 <= T ==> Step(M, T) < M
  {
    var s := Step(M, T);
    assert 0 * T == 0;
    if 1 <= s {
      assert (s - 1) * T >= s - 1 by { MulMonotone(1, T, s - 1); }
      if 2 <= T {
        assert (s - 1) * T >= (s - 1) * 2 by { MulMonotone(2, T, s - 1); }
      }
    }
  }

  /** Multiplying by a natural number preserves `<=`. */
  lemma {:induction false} MulMonotone(a: int, b: int, c: nat)
    requires a <= b
    ensures c * a <= c * b && a * c <= b * c
  {
    if c > 0 {
      MulMonotone(a, b, c - 1);
      assert c * a == (c - 1) * a + a;
      assert c * b == (c - 1) * b + b;
    }
  }

  /** `g / s == k` exactly when g lies in the k-th block `[k*s, k*s + s)`. */
  lemma DivBlock(g: int, s: int, k: int)
    requires 0 < s && 0 <= g && 0 <= k
    ensures g / s == k <==> k * s <= g < k * s + s
  {
    var q := g / s;
    assert g == q * s + g % s;
    assert (q + 1) * s == q * s + s && (k + 1) * s == k * s + s;
    if q < k {
      MulMonotone(q + 1, k, s);
    } else if k < q {
      MulMonotone(k + 1, q, s);
    }
  }

  /** The table entries aliasing global rows `lo .. hi-1`, in order. */
  function OwnedRows(lo: nat, hi: nat): (r: seq<LocalRow>)
    requires lo <= hi
    ensures |r| == hi - lo
    ensures forall a :: 0 <= a < |r| ==> r[a] == Owned(lo + a)
  {
    seq(hi - lo, a requires 0 <= a => Owned(lo + a))
  }

  /** The descriptor of thread `k` out of `T` for a grid of `M` rows, in closed form:
      WHOLE when T == 1 (the row table is the grid itself and the local height stays 0);
      otherwise TOP when the block starts at row 0 (end not clamped, ghost last), which
      is thread 0, and every thread when M == 0 (the step is then 0); BOT, with `end`
      clamped to M and a ghost first, as soon as the advanced end reaches M (every later
      thread gets the empty block `[M, M)`); MID, with ghosts at both ends, in between. */
  function Describe(M: nat, T: nat, k: nat): Descriptor
    requires 1 <= T && k < T
  {
    var s := Step(M, T);
    var start: nat := Min(k * s, M);
    if T == 1 then
      Descriptor(k, Whole, 0, s, 0, OwnedRows(0, M))
    else if k == 0 || M == 0 then
      Descriptor(k, Top, 0, s, s + 1, OwnedRows(0, s) + [Ghost])
    else if start + s >= M then
      Descriptor(k, Bot, start, M, M - start + 1, [Ghost] + OwnedRows(start, M))
    else
      Descriptor(k, Mid, start, start + s, s + 2, [Ghost] + OwnedRows(start, start + s) + [Ghost])
  }

  /** Fills `table[from ..]` with aliases of global rows `start .. end-1`, in order,
      leaving the other entries alone, as the row-mapping loops of the partition do. */
  method MapRows(table: array<LocalRow>, from: nat, start: nat, end: nat)
    requires start <= end && from + (end - start) <= table.Length
    modifies table
    ensures forall a :: from <= a < from + (end - start) ==> table[a] == Owned(start + a - from)
    ensures forall a :: 0 <= a < table.Length && !(from <= a < from + (end - start)) ==> table[a] == old(table[a])
  {
    var i, j := from, start;
    while j < end
      invariant start <= j <= end && i == from + (j - start)
      invariant forall a :: from <= a < i ==> table[a] == Owned(start + a - from)
      invariant forall a :: 0 <= a < table.Length && !(from <= a < i) ==> table[a] == old(table[a])
    {
      table[i] := Owned(j);
      i, j := i + 1, j + 1;
    }
  }

  /** One pass of the partition loop for thread `thread`: advances `start`/`end`
      from the previous thread's `end`, tags the thread, builds its local row table and
      returns its descriptor together with the new `end`. */
  method PlaceThread(M: nat, T: nat, step: nat, thread: nat, prevEnd: nat) returns (d: Descriptor, end: nat)
    requires 1 <= T && thread < T && step == Step(M, T)
    requires prevEnd == Min(thread * step, M)
    ensures d == Describe(M, T, thread)
    ensures end == Min((thread + 1) * step, M)
  {
    var threadM: nat := 0;
    var position := Whole;
    var table: seq<LocalRow> := [];
    var start: nat := prevEnd;
    end := prevEnd + step;
    StartFacts(M, T, thread);
    if T == 1 {
      // threadU = u: the table is the grid's own row array
      position := Whole;
      table := OwnedRows(0, M);
    }
    if start == 0 && T > 1 {
      position := Top;
      threadM := threadM + 1;
      threadM := threadM + (end - start);
      var rows := new LocalRow[threadM];
      MapRows(rows, 0, start, end);
      rows[end - start] := Ghost;
      table := rows[..];
      assert table == OwnedRows(0, step) + [Ghost];
      assert end == Min((thread + 1) * step, M);
    }
    if start != 0 && end >= M {
      end := M;
      assert end == Min((thread + 1) * step, M);
      position := Bot;
      threadM := threadM + 1;
      threadM := threadM + (end - start);
      var rows := new LocalRow[threadM];
      rows[0] := Ghost;
      MapRows(rows, 1, start, end);
      table := rows[..];
      assert table == [Ghost] + OwnedRows(start, M);
    } else if start != 0 {
      assert start == thread * step && end == (thread + 1) * step < M;
      position := Mid;
      threadM := threadM + 2;
      threadM := threadM + (end - start);
      var rows := new LocalRow[threadM];
      rows[0] := Ghost;
      MapRows(rows, 1, start, end);
      rows[end - start + 1] := Ghost;
      table := rows[..];
      assert table == [Ghost] + OwnedRows(start, end) + [Ghost];
    }
    d := Descriptor(thread, position, start, end, threadM, table);
  }

  /** What the partition loop's tests on `start` and `end` reveal about thread `k`. */
  lemma StartFacts(M: nat, T: nat, k: nat)
    requires 1 <= T && k < T
    ensures Min(k * Step(M, T), M) == 0 <==> k == 0 || M == 0
    ensures Step(M, T) <= M
    ensures T == 1 ==> k == 0 && Step(M, T) == M
    ensures (k + 1) * Step(M, T) == k * Step(M, T) + Step(M, T)
  {
    StepBounds(M, T);
    if k >= 1 {
      MulMonotone(1, k, Step(M, T));
    }
  }

  /** The partition loop of `main`: walks `start`/`end` across the threads, tags each
      one, builds its local row table and records its parameters in `params`. */
  method PartitionRows(M: nat, T: nat) returns (params: array<Descriptor>)
    requires 1 <= T
    ensures params.Length == T
    ensures forall k :: 0 <= k < T ==> params[k] == Describe(M, T, k)
  {
    params := new Descriptor[T];
    var step := Step(M, T);
    var end: nat := 0;
    var thread: nat := 0;
    while thread < T
      invariant thread <= T
      invariant end == Min(thread * step, M)
      invariant forall k :: 0 <= k < thread ==> params[k] == Describe(M, T, k)
    {
      var d;
      d, end := PlaceThread(M, T, step, thread, end);
      params[thread] := d;
      thread := thread + 1;
    }
  }

  /** Every thread's block is `[min(k*step, M), min((k+1)*step, M))`: thread k starts
      at k*step and ends one step later, both clamped to M (only BOT clamps `end`,
      but TOP's unclamped end never exceeds M). */
  lemma CopyRange(M: nat, T: nat, k: nat)
    requires 1 <= T && k < T
    ensures Describe(M, T, k).copyStart == Min(k * Step(M, T), M)
    ensures Describe(M, T, k).copyEnd == Min((k + 1) * Step(M, T), M)
  {
    var s := Step(M, T);
    var d := Describe(M, T, k);
    var start := Min(k * s, M);
    assert (k + 1) * s == k * s + s;
    if T == 1 {
      assert k == 0 && s == M by { StepBounds(M, T); }
      assert d.copyStart == 0 && d.copyEnd == M;
    } else if k == 0 || M == 0 {
      assert s <= M by { StepBounds(M, T); }
      assert k * s == 0 && start == 0;
      assert d.copyStart == 0 && d.copyEnd == s;
    } else if start + s >= M {
      assert d.copyStart == start && d.copyEnd == M;
    } else {
      assert d.copyStart == start && d.copyEnd == start + s;
      assert start == k * s;
    }
  }

  /** The blocks tile the rows: thread 0 starts at row 0, the last thread ends at
      row M, each block ends where the next one starts, and no block is reversed. */
  lemma RangesTile(M: nat, T: nat)
    requires 1 <= T
    ensures Describe(M, T, 0).copyStart == 0
    ensures Describe(M, T, T - 1).copyEnd == M
    ensures forall k :: 0 <= k < T - 1 ==> Describe(M, T, k).copyEnd == Describe(M, T, k + 1).copyStart
    ensures forall k :: 0 <= k < T ==> Describe(M, T, k).copyStart <= Describe(M, T, k).copyEnd
  {
    var s := Step(M, T);
    CopyRange(M, T, 0);
    CopyRange(M, T, T - 1);
    assert T * s == (T - 1 + 1) * s;
    forall k | 0 <= k < T - 1
      ensures Describe(M, T, k).copyEnd == Describe(M, T, k + 1).copyStart
    {
      CopyRange(M, T, k);
      CopyRange(M, T, k + 1);
    }
    forall k | 0 <= k < T
      ensures Describe(M, T, k).copyStart <= Describe(M, T, k).copyEnd
    {
      CopyRange(M, T, k);
      assert (k + 1) * s == k * s + s;
    }
  }

  /** Every row of the grid lies in the block of exactly one thread, namely thread
      `g / step`: the blocks are pairwise disjoint and their union is `[0, M)`. */
  lemma RowOwner(M: nat, T: nat, g: int)
    requires 1 <= T && 0 <= g < M
    ensures g / Step(M, T) < T
    ensures forall k :: 0 <= k < T ==>
      (Describe(M, T, k).copyStart <= g < Describe(M, T, k).copyEnd <==> k == g / Step(M, T))
  {
    var s := Step(M, T);
    StepBounds(M, T);
    var q := g / s;
    DivBlock(g, s, q);
    if q >= T {
      MulMonotone(T, q, s);
    }
    forall k | 0 <= k < T
      ensures Describe(M, T, k).copyStart <= g < Describe(M, T, k).copyEnd <==> k == q
    {
      CopyRange(M, T, k);
      DivBlock(g, s, k);
      assert (k + 1) * s == k * s + s;
    }
  }

  /** The position tags: WHOLE (with local height 0) exactly when there is one thread;
      otherwise TOP exactly for thread 0, BOT exactly for the threads after 0 whose
      advanced end `(k+1)*step` reaches M (its end clamped to M, and an empty block
      `[M, M)` for a thread that starts at or past M), MID for the rest; the last
      thread is always BOT. */
  lemma PositionTags(M: nat, T: nat, k: nat)
    requires 1 <= M && 1 <= T && k < T
    ensures (Describe(M, T, k).position == Whole) <==> T == 1
    ensures T == 1 ==> Describe(M, T, k).localM == 0
    ensures T > 1 ==> (Describe(M, T, k).position == Top <==> k == 0)
    ensures T > 1 ==> (Describe(M, T, k).position == Bot <==> 1 <= k && M <= (k + 1) * Step(M, T))
    ensures T > 1 ==> (Describe(M, T, k).position == Mid <==> 1 <= k && (k + 1) * Step(M, T) < M)
    ensures Describe(M, T, k).position == Bot ==> Describe(M, T, k).copyEnd == M
    ensures T > 1 && 1 <= k && M <= k * Step(M, T) ==>
      Describe(M, T, k).position == Bot && Describe(M, T, k).copyStart == M == Describe(M, T, k).copyEnd
    ensures T > 1 ==> Describe(M, T, T - 1).position == Bot
  {
    var s := Step(M, T);
    StepBounds(M, T);
    assert (k + 1) * s == k * s + s;
    assert T * s == (T - 1) * s + s;
  }

  /** With an empty grid (M == 0) the step is 0 and every block starts at row 0: a
      single thread is WHOLE, and with two threads or more every thread is TOP, with the
      empty block `[0, 0)` and a table holding only the ghost row below. */
  lemma EmptyGridTags(T: nat, k: nat)
    requires 1 <= T && k < T
    ensures Describe(0, T, k).copyStart == 0 == Describe(0, T, k).copyEnd
    ensures T == 1 ==> Describe(0, T, k).position == Whole && Describe(0, T, k).localM == 0
    ensures T > 1 ==> Describe(0, T, k).position == Top
    ensures T > 1 ==> Describe(0, T, k).rows == [Ghost] && Describe(0, T, k).localM == 1
  {
    StepBounds(0, T);
  }

  /** Once a thread is BOT, every later thread is BOT as well. */
  lemma BotIsSuffix(M: nat, T: nat, k: nat, k': nat)
    requires 1 <= M && 2 <= T && k <= k' < T
    requires Describe(M, T, k).position == Bot
    ensures Describe(M, T, k').position == Bot
  {
    var s := Step(M, T);
    PositionTags(M, T, k);
    PositionTags(M, T, k');
    MulMonotone(k + 1, k' + 1, s);
  }

  /** The global row aliased by local row 0 (or that it would alias): `copyStart`, one
      less when a ghost row sits above the block. */
  function Base(d: Descriptor): int
  {
    d.copyStart - (if GhostAbove(d.position) then 1 else 0)
  }

  /** The layout of a local row table over a grid of M rows: at least `localM` entries;
      an owned entry at local index a aliases global row `Base + a`, inside the thread's
      own block `[copyStart, copyEnd)` and inside the grid; a ghost entry sits only at
      index 0 (above the block) or at index `localM - 1` (below it), and is there exactly
      when the position calls for it. */
  ghost predicate WellLaidOut(d: Descriptor, M: nat)
  {
    d.localM <= |d.rows| &&
    (forall a :: 0 <= a < |d.rows| && d.rows[a].Owned? ==>
       d.rows[a].globalRow == Base(d) + a &&
       d.copyStart <= d.rows[a].globalRow < d.copyEnd &&
       d.rows[a].globalRow < M) &&
    (forall a :: 0 <= a < |d.rows| && d.rows[a].Ghost? ==>
       (a == 0 && GhostAbove(d.position)) || (0 < a == d.localM - 1 && GhostBelow(d.position))) &&
    (GhostAbove(d.position) ==> 1 <= d.localM && d.rows[0].Ghost?) &&
    (GhostBelow(d.position) ==> 2 <= d.localM && d.rows[d.localM - 1].Ghost?)
  }

  /** A table of the shape the partition loop builds for a block `[lo, hi)`: an optional
      ghost row above, the aliases of rows `lo .. hi-1`, an optional ghost row below. */
  lemma FramedLayout(d: Descriptor, M: nat)
    requires d.position != Whole && d.copyStart <= d.copyEnd <= M
    requires d.rows == (if GhostAbove(d.position) then [Ghost] else [])
                       + OwnedRows(d.copyStart, d.copyEnd)
                       + (if GhostBelow(d.position) then [Ghost] else [])
    requires d.localM == |d.rows| && 1 <= d.localM && (GhostBelow(d.position) ==> 2 <= d.localM)
    ensures WellLaidOut(d, M)
    ensures |d.rows| == d.localM == d.copyEnd - d.copyStart
      + (if GhostAbove(d.position) then 1 else 0) + (if GhostBelow(d.position) then 1 else 0)
  {
    var up := if GhostAbove(d.position) then 1 else 0;
    forall a | 0 <= a < |d.rows|
      ensures d.rows[a].Owned? ==> d.rows[a].globalRow == Base(d) + a && d.copyStart <= d.rows[a].globalRow < d.copyEnd
      ensures d.rows[a].Ghost? ==> (a == 0 && GhostAbove(d.position)) || (0 < a == d.localM - 1 && GhostBelow(d.position))
    {
      if up <= a < up + (d.copyEnd - d.copyStart) {
        assert d.rows[a] == OwnedRows(d.copyStart, d.copyEnd)[a - up];
      }
    }
  }

  /** Every thread's table is well laid out; apart from WHOLE, it has exactly `localM`
      entries: the block's `copyEnd - copyStart` rows plus one per ghost row (TOP and BOT
      one, MID two). */
  lemma TableLayout(M: nat, T: nat, k: nat)
    requires 1 <= T && k < T && (T > 1 ==> 1 <= M)
    ensures WellLaidOut(Describe(M, T, k), M)
    ensures Describe(M, T, k).position != Whole ==>
      |Describe(M, T, k).rows| == Describe(M, T, k).localM ==
        Describe(M, T, k).copyEnd - Describe(M, T, k).copyStart
        + (if GhostAbove(Describe(M, T, k).position) then 1 else 0)
        + (if GhostBelow(Describe(M, T, k).position) then 1 else 0)
  {
    var s := Step(M, T);
    if T == 1 {
      assert Describe(M, T, k).copyStart == 0 && Describe(M, T, k).rows == OwnedRows(0, M) by {
        StepBounds(M, T);
      }
    } else if k == 0 {
      TopLayout(M, T);
    } else if Min(k * s, M) + s >= M {
      BotLayout(M, T, k);
    } else {
      MidLayout(M, T, k);
    }
  }

  /** TableLayout for thread 0 of two or more: a TOP table. */
  lemma TopLayout(M: nat, T: nat)
    requires 1 <= M && 2 <= T
    ensures WellLaidOut(Describe(M, T, 0), M)
    ensures Describe(M, T, 0).position == Top
    ensures |Describe(M, T, 0).rows| == Describe(M, T, 0).localM ==
      Describe(M, T, 0).copyEnd - Describe(M, T, 0).copyStart + 1
  {
    var d := Describe(M, T, 0);
    var s := Step(M, T);
    assert d.copyStart == 0 && d.copyEnd == s <= M && d.localM == s + 1 &&
           d.rows == [] + OwnedRows(0, s) + [Ghost] by {
      StepBounds(M, T);
    }
    FramedLayout(d, M);
  }

  /** TableLayout for a later thread whose advanced end reaches M: a BOT table. */
  lemma BotLayout(M: nat, T: nat, k: nat)
    requires 1 <= M && 2 <= T && 1 <= k < T && Min(k * Step(M, T), M) + Step(M, T) >= M
    ensures WellLaidOut(Describe(M, T, k), M)
    ensures Describe(M, T, k).position == Bot
    ensures |Describe(M, T, k).rows| == Describe(M, T, k).localM ==
      Describe(M, T, k).copyEnd - Describe(M, T, k).copyStart + 1
  {
    var d := Describe(M, T, k);
    assert d.position == Bot && d.copyStart <= d.copyEnd == M && d.localM == M - d.copyStart + 1 &&
           d.rows == [Ghost] + OwnedRows(d.copyStart, M) + [] by {
      CopyRange(M, T, k);
    }
    FramedLayout(d, M);
  }

  /** TableLayout for a later thread whose advanced end stays below M: a MID table. */
  lemma MidLayout(M: nat, T: nat, k: nat)
    requires 1 <= M && 2 <= T && 1 <= k < T && Min(k * Step(M, T), M) + Step(M, T) < M
    ensures WellLaidOut(Describe(M, T, k), M)
    ensures Describe(M, T, k).position == Mid
    ensures |Describe(M, T, k).rows| == Describe(M, T, k).localM ==
      Describe(M, T, k).copyEnd - Describe(M, T, k).copyStart + 2
  {
    var d := Describe(M, T, k);
    var s := Step(M, T);
    assert d.position == Mid && d.copyStart + s == d.copyEnd < M && d.localM == s + 2 by {
      CopyRange(M, T, k);
    }
    FramedLayout(d, M);
  }

  /** The rows the copy phase reads: the row just below the block (`copyEnd`) for TOP
      and MID, the row just above it (`copyStart - 1`) for BOT and MID. They are the
      boundary rows of the neighbouring blocks, and they lie inside the grid once it has
      two rows; with a single row TOP's `u[copyEnd]` is past the grid. */
  lemma GhostSources(M: nat, T: nat, k: nat)
    requires 1 <= M && 2 <= T && k < T
    ensures k == 0 ==> (Describe(M, T, k).copyEnd < M <==> 2 <= M)
    ensures GhostBelow(Describe(M, T, k).position) && 2 <= M ==>
      Describe(M, T, k).copyEnd < M && k + 1 < T &&
      Describe(M, T, k).copyEnd == Describe(M, T, k + 1).copyStart
    ensures GhostAbove(Describe(M, T, k).position) ==>
      1 <= Describe(M, T, k).copyStart <= M && 1 <= k &&
      Describe(M, T, k).copyStart == Describe(M, T, k - 1).copyEnd
  {
    var s := Step(M, T);
    StepBounds(M, T);
    PositionTags(M, T, k);
    CopyRange(M, T, k);
    RangesTile(M, T);
    if 1 <= k {
      MulMonotone(1, k, s);
    }
  }

  /** When the grid has two rows or more whenever there are two threads or more, a
      thread's local table is a window of consecutive grid rows `Base .. Base+localM-1`
      inside the grid: it covers the thread's block, and the ghost row below stands for
      row `copyEnd`, the last row of the window. */
  lemma TableIsWindow(M: nat, T: nat, k: nat)
    requires 1 <= T && k < T && (T > 1 ==> 2 <= M)
    ensures 0 <= Base(Describe(M, T, k)) <= Describe(M, T, k).copyStart
    ensures Base(Describe(M, T, k)) + Describe(M, T, k).localM <= M
    ensures T > 1 ==> Describe(M, T, k).copyEnd <= Base(Describe(M, T, k)) + Describe(M, T, k).localM
    ensures GhostBelow(Describe(M, T, k).position) ==>
      Base(Describe(M, T, k)) + Describe(M, T, k).localM - 1 == Describe(M, T, k).copyEnd
  {
    if T > 1 {
      TableLayout(M, T, k);
      PositionTags(M, T, k);
      GhostSources(M, T, k);
    }
  }

  /** With two threads or more, a grid row g of thread k's block sits in k's table at
      local index `g - Base`, as an owned (never a ghost) entry. */
  lemma OwnerRow(M: nat, T: nat, k: nat, g: int)
    requires 2 <= M && 2 <= T && k < T
    requires Describe(M, T, k).copyStart <= g < Describe(M, T, k).copyEnd
    ensures 0 <= g - Base(Describe(M, T, k)) < Describe(M, T, k).localM
    ensures Describe(M, T, k).rows[g - Base(Describe(M, T, k))] == Owned(g)
  {
    var d := Describe(M, T, k);
    TableIsWindow(M, T, k);
    TableLayout(M, T, k);
    var a := g - Base(d);
    if d.rows[a].Ghost? {
      assert false;
    }
  }

  /** With T >= 2, an interior grid row g of thread k's block sits strictly inside
      k's window (never at its first or last local index); when g is the block's first
      row, a ghost row sits above the block. */
  lemma InteriorInWindow(M: nat, T: nat, k: nat, g: int)
    requires 2 <= M && 2 <= T && k < T && 1 <= g < M - 1
    requires Describe(M, T, k).copyStart <= g < Describe(M, T, k).copyEnd
    ensures 1 <= g - Base(Describe(M, T, k)) < Describe(M, T, k).localM - 1
    ensures g == Describe(M, T, k).copyStart ==> GhostAbove(Describe(M, T, k).position)
  {
    TableIsWindow(M, T, k);
    TableLayout(M, T, k);
    PositionTags(M, T, k);
  }

  /** No thread writes a cell of another thread's block: with T >= 2 a written cell's
      row lies in the writer's own block. */
  lemma NoCrossWrites(M: nat, N: nat, T: nat, k: nat, k': nat, g: int, c: int)
    requires 1 <= M && 1 <= T && k < T && k' < T && k != k' && (T > 1 ==> 2 <= M)
    requires Describe(M, T, k').copyStart <= g < Describe(M, T, k').copyEnd
    ensures !Writes(Describe(M, T, k), N, g, c)
  {
    TableLayout(M, T, k');
    if Writes(Describe(M, T, k), N, g, c) {
      WrittenCells(M, N, T, k, g, c);
      RowOwner(M, T, g);
      assert false;
    }
  }

  /** Whether the stencil loop of a thread, which runs over local rows `1 .. localM-2`
      and columns `1 .. N-2` of its table, writes global cell (g, c) of the grid. */
  ghost predicate Writes(d: Descriptor, N: nat, g: int, c: int)
  {
    1 <= c < N - 1 &&
    exists a :: 1 <= a < d.localM - 1 && a < |d.rows| && d.rows[a].Owned? && d.rows[a].globalRow == g
  }

  /** Every local row the stencil writes (`1 .. localM-2`) is an alias of a grid row,
      never a ghost, and every row it reads (`0 .. localM-1`) is in the table. */
  lemma StencilRowsOwned(M: nat, T: nat, k: nat, i: int)
    requires 1 <= M && 1 <= T && k < T
    requires 1 <= i < Describe(M, T, k).localM - 1
    ensures 0 <= i - 1 && i + 1 < Describe(M, T, k).localM <= |Describe(M, T, k).rows|
    ensures Describe(M, T, k).rows[i].Owned? && Describe(M, T, k).rows[i].globalRow < M
  {
    TableLayout(M, T, k);
  }

  /** With two threads or more and two rows or more, thread k writes exactly the
      interior cells (rows `1 .. M-2`, columns `1 .. N-2`) whose row lies in block
      `g / step`, that is, in its own block. */
  lemma WrittenCells(M: nat, N: nat, T: nat, k: nat, g: int, c: int)
    requires 2 <= M && 2 <= T && k < T
    ensures Writes(Describe(M, T, k), N, g, c) <==>
      1 <= g <= M - 2 && 1 <= c <= N - 2 && g / Step(M, T) == k
  {
    if Writes(Describe(M, T, k), N, g, c) {
      WrittenIsInterior(M, N, T, k, g, c);
    }
    if 1 <= g <= M - 2 && 1 <= c <= N - 2 && g / Step(M, T) == k {
      InteriorIsWritten(M, N, T, k, g, c);
    }
  }

  /** WrittenCells, left to right: a written cell is an interior cell of the block. */
  lemma WrittenIsInterior(M: nat, N: nat, T: nat, k: nat, g: int, c: int)
    requires 2 <= M && 2 <= T && k < T
    requires Writes(Describe(M, T, k), N, g, c)
    ensures 1 <= g <= M - 2 && 1 <= c <= N - 2 && g / Step(M, T) == k
  {
    var d := Describe(M, T, k);
    var s := Step(M, T);
    var a :| 1 <= a < d.localM - 1 && a < |d.rows| && d.rows[a].Owned? && d.rows[a].globalRow == g;
    assert 1 <= g <= M - 2 && d.copyStart <= g < d.copyEnd by {
      TableLayout(M, T, k);
      TableIsWindow(M, T, k);
    }
    assert d.copyStart == Min(k * s, M) && d.copyEnd == Min((k + 1) * s, M) by {
      CopyRange(M, T, k);
    }
    assert 1 <= s by {
      StepBounds(M, T);
    }
    RowInBlock(M, s, k, g, d.copyStart, d.copyEnd);
  }

  /** A row of the range `[Min(k*s, M), Min((k+1)*s, M))` lies in block k of height s. */
  lemma RowInBlock(M: nat, s: nat, k: nat, g: int, lo: int, hi: int)
    requires 1 <= s && lo == Min(k * s, M) && hi == Min((k + 1) * s, M)
    requires lo <= g < hi
    ensures g / s == k
  {
    assert (k + 1) * s == k * s + s;
    DivBlock(g, s, k);
  }

  /** WrittenCells, right to left: thread k writes every interior cell of its block. */
  lemma InteriorIsWritten(M: nat, N: nat, T: nat, k: nat, g: int, c: int)
    requires 2 <= M && 2 <= T && k < T
    requires 1 <= g <= M - 2 && 1 <= c <= N - 2 && g / Step(M, T) == k
    ensures Writes(Describe(M, T, k), N, g, c)
  {
    var d := Describe(M, T, k);
    var s := Step(M, T);
    assert 1 <= s by { StepBounds(M, T); }
    assert k * s <= g < k * s + s by {
      DivBlock(g, s, k);
    }
    assert d.copyStart <= g < d.copyEnd by {
      CopyRange(M, T, k);
      assert (k + 1) * s == k * s + s;
    }
    InteriorInWindow(M, T, k, g);
    OwnerRow(M, T, k, g);
    var a := g - Base(d);
    assert 1 <= a < d.localM - 1 && a < |d.rows| && d.rows[a].Owned? && d.rows[a].globalRow == g by {
      TableLayout(M, T, k);
    }
  }

  /** Across all threads (T >= 2, M >= 2) the cells written are exactly the plate
      interior, each by exactly one thread (thread `g / step`); no border cell is
      written by any thread. */
  lemma InteriorWrittenOnce(M: nat, N: nat, T: nat, g: int, c: int)
    requires 2 <= M && 2 <= T
    ensures (exists k :: 0 <= k < T && Writes(Describe(M, T, k), N, g, c)) <==>
      1 <= g <= M - 2 && 1 <= c <= N - 2
    ensures forall k, k' :: 0 <= k < k' < T && Writes(Describe(M, T, k), N, g, c) ==>
      !Writes(Describe(M, T, k'), N, g, c)
  {
    var q := g / Step(M, T);
    forall k | 0 <= k < T
      ensures Writes(Describe(M, T, k), N, g, c) <==> 1 <= g <= M - 2 && 1 <= c <= N - 2 && q == k
    {
      WrittenCells(M, N, T, k, g, c);
    }
    if 1 <= g <= M - 2 && 1 <= c <= N - 2 {
      assert q < T by {
        RowOwner(M, T, g);
      }
      assert Writes(Describe(M, T, q), N, g, c);
    }
  }

  /** With a single thread the WHOLE block has local height 0, so the stencil loop
      writes no cell at all. */
  lemma WholeWritesNothing(M: nat, N: nat, g: int, c: int)
    ensures !Writes(Describe(M, 1, 0), N, g, c)
  {
  }
}
