// nachos.vm.VMProcess: demand paging. The static state all processes share
// (the inverted page table, the clock cursor, the swap-slot allocator) is
// kept in one manager object together with the page tables of the processes,
// the free-frame pool, physical memory and the swap file.

module VMProcess {
  import opened Machine
  import UserProcess

  /** IPTdata: one row of the inverted page table, naming the page a frame holds. */
  datatype IPTData = IPTData(ppn: int, index: int, process: Pid, pinned: bool)

  /** findIdexOfPPN: the lowest row holding frame `ppn`, or -1. */
  function FindIndexOfPPN(ipt: seq<IPTData>, ppn: int): (i: int)
    ensures -1 <= i < |ipt|
    ensures i == -1 <==> forall j :: 0 <= j < |ipt| ==> ipt[j].ppn != ppn
    ensures i >= 0 ==> ipt[i].ppn == ppn && forall j :: 0 <= j < i ==> ipt[j].ppn != ppn
  {
    if ipt == [] then -1
    else if ipt[0].ppn == ppn then 0
    else
      var k := FindIndexOfPPN(ipt[1..], ppn);
      if k == -1 then -1 else k + 1
  }

  /** allPinned: every row of the table is pinned (true of the empty table). */
  function AllPinned(ipt: seq<IPTData>): (b: bool)
    ensures b <==> forall j :: 0 <= j < |ipt| ==> ipt[j].pinned
  {
    if ipt == [] then true
    else ipt[0].pinned && AllPinned(ipt[1..])
  }

  /** The lowest-index answer is the only one: any index meeting its description is it. */
  lemma FindIndexIs(ipt: seq<IPTData>, ppn: int, i: int)
    requires -1 <= i < |ipt|
    requires i == -1 ==> forall j :: 0 <= j < |ipt| ==> ipt[j].ppn != ppn
    requires i >= 0 ==> ipt[i].ppn == ppn && forall j :: 0 <= j < i ==> ipt[j].ppn != ppn
    ensures FindIndexOfPPN(ipt, ppn) == i
  {
  }

  /** Page tables of the processes, by process. */
  type Tables = map<Pid, seq<TranslationEntry>>

  /** Every row names an existing entry of an existing page table. */
  ghost predicate Refs(ipt: seq<IPTData>, pts: Tables)
  {
    forall j :: 0 <= j < |ipt| ==> ipt[j].process in pts && 0 <= ipt[j].index < |pts[ipt[j].process]|
  }

  /** The two tables have the same processes, with page tables of the same sizes. */
  ghost predicate SameShape(a: Tables, b: Tables)
  {
    a.Keys == b.Keys && forall p :: p in a ==> |b[p]| == |a[p]|
  }

  /** b is a with some used bits cleared and nothing else changed. */
  ghost predicate OnlyUsedCleared(a: Tables, b: Tables)
  {
    SameShape(a, b) &&
    forall p, i :: p in a && 0 <= i < |a[p]| ==>
      b[p][i] == a[p][i].(used := b[p][i].used) && (b[p][i].used ==> a[p][i].used)
  }

  lemma OnlyUsedClearedTrans(a: Tables, b: Tables, c: Tables)
    requires OnlyUsedCleared(a, b) && OnlyUsedCleared(b, c)
    ensures OnlyUsedCleared(a, c)
  {
    forall p, i | p in a && 0 <= i < |a[p]|
      ensures c[p][i] == a[p][i].(used := c[p][i].used) && (c[p][i].used ==> a[p][i].used)
    {
      assert p in b && 0 <= i < |b[p]|;
    }
  }

  lemma RefsSameShape(ipt: seq<IPTData>, a: Tables, b: Tables)
    requires Refs(ipt, a) && SameShape(a, b)
    ensures Refs(ipt, b)
  {
    forall j | 0 <= j < |ipt|
      ensures ipt[j].process in b && 0 <= ipt[j].index < |b[ipt[j].process]|
    {
    }
  }

  /** Row j names an existing entry of an existing page table. */
  predicate RowRefers(ipt: seq<IPTData>, pts: Tables, j: int)
    requires 0 <= j < |ipt|
  {
    ipt[j].process in pts && 0 <= ipt[j].index < |pts[ipt[j].process]|
  }

  /** The page in the frame of row j has its used bit set. */
  predicate PageUsed(ipt: seq<IPTData>, pts: Tables, j: int)
    requires 0 <= j < |ipt|
  {
    RowRefers(ipt, pts, j) && pts[ipt[j].process][ipt[j].index].used
  }

  /** Clearing used bits never sets the used bit of a row's page. */
  lemma UnusedStaysUnused(ipt: seq<IPTData>, a: Tables, b: Tables, j: int)
    requires OnlyUsedCleared(a, b) && 0 <= j < |ipt| && RowRefers(ipt, a, j) && !PageUsed(ipt, a, j)
    ensures RowRefers(ipt, b, j) && !PageUsed(ipt, b, j)
  {
    var p, i := ipt[j].process, ipt[j].index;
    assert b[p][i] == a[p][i].(used := b[p][i].used);
  }

  /** The clock clears the used bit of entry i of process p's table. */
  function ClearUsed(pts: Tables, p: Pid, i: int): Tables
  {
    if p in pts && 0 <= i < |pts[p]| then pts[p := pts[p][i := pts[p][i].(used := false)]] else pts
  }

  lemma ClearUsedClears(pts: Tables, p: Pid, i: int)
    requires p in pts && 0 <= i < |pts[p]|
    ensures OnlyUsedCleared(pts, ClearUsed(pts, p, i)) && !ClearUsed(pts, p, i)[p][i].used
  {
  }

  /** Where the clock stands: the victim row if one was taken, the page tables, the cursor. */
  datatype ClockState = ClockState(victim: Option<int>, tables: Tables, cursor: int)

  /**
   * One inspection of the clock at row `cursor`: an unpinned row whose page
   * was not used is the victim and the clock stops on it; otherwise the row
   * is passed over, its page's used bit cleared when the row is unpinned
   * (a pinned row is left as it is), and the cursor moves on, wrapping at
   * the end of the table. A cursor off the table, or a row naming no entry,
   * leaves everything as it is; the invariant of the manager excludes both.
   */
  function Inspect(ipt: seq<IPTData>, pts: Tables, cursor: int): ClockState
  {
    if !(0 <= cursor < |ipt|) || !RowRefers(ipt, pts, cursor) then ClockState(None, pts, cursor)
    else
      var e := ipt[cursor];
      if !PageUsed(ipt, pts, cursor) && !e.pinned then ClockState(Some(cursor), pts, cursor)
      else
        var pts' := if e.pinned then pts else ClearUsed(pts, e.process, e.index);
        ClockState(None, pts', (cursor + 1) % |ipt|)
  }

  /**
   * `steps` inspections of the clock from row `cursor`, the clock stopping
   * at the first victim.
   */
  function ClockRun(ipt: seq<IPTData>, pts: Tables, cursor: int, steps: nat): ClockState
    decreases steps
  {
    if steps == 0 then ClockState(None, pts, cursor)
    else
      var r := ClockRun(ipt, pts, cursor, steps - 1);
      if r.victim.Some? then r else Inspect(ipt, r.tables, r.cursor)
  }

  /**
   * An inspection takes row `cursor` exactly when it is unpinned and its
   * page unused, changing nothing; otherwise it moves the cursor one row on,
   * wrapping, and clears the used bit of the row's page exactly when the row
   * is unpinned.
   */
  lemma InspectSteps(ipt: seq<IPTData>, pts: Tables, cursor: int)
    requires Refs(ipt, pts) && 0 <= cursor < |ipt|
    ensures var r := Inspect(ipt, pts, cursor);
      var e := ipt[cursor];
      (r.victim.Some? <==> !e.pinned && !PageUsed(ipt, pts, cursor)) &&
      (r.victim.Some? ==> r == ClockState(Some(cursor), pts, cursor)) &&
      (r.victim.None? ==>
        r.cursor == (if cursor + 1 < |ipt| then cursor + 1 else 0) &&
        r.tables == if e.pinned then pts else ClearUsed(pts, e.process, e.index))
  {
    assert RowRefers(ipt, pts, cursor);
  }

  /**
   * From a row of a table whose rows all name entries, the clock keeps its
   * cursor on the table and its rows naming entries, and stops only on an
   * unpinned row whose page is unused.
   */
  lemma {:induction false} ClockRunKeeps(ipt: seq<IPTData>, pts: Tables, c: int, k: nat)
    requires Refs(ipt, pts) && 0 <= c < |ipt|
    ensures var r := ClockRun(ipt, pts, c, k);
      0 <= r.cursor < |ipt| && Refs(ipt, r.tables) &&
      (r.victim.Some? ==> r.victim.value == r.cursor && !ipt[r.cursor].pinned && !PageUsed(ipt, r.tables, r.cursor))
    decreases k
  {
    if k > 0 {
      ClockRunKeeps(ipt, pts, c, k - 1);
      var r := ClockRun(ipt, pts, c, k - 1);
      if r.victim.None? {
        InspectSteps(ipt, r.tables, r.cursor);
        var e := ipt[r.cursor];
        var s := Inspect(ipt, r.tables, r.cursor);
        if s.victim.None? && !e.pinned {
          ClearUsedClears(r.tables, e.process, e.index);
          RefsSameShape(ipt, r.tables, s.tables);
        }
      }
    }
  }

  /** The clock changes nothing but used bits, and only clears them. */
  lemma {:induction false} ClockRunClears(ipt: seq<IPTData>, pts: Tables, c: int, k: nat)
    requires Refs(ipt, pts) && 0 <= c < |ipt|
    ensures OnlyUsedCleared(pts, ClockRun(ipt, pts, c, k).tables)
    decreases k
  {
    if k > 0 {
      ClockRunClears(ipt, pts, c, k - 1);
      ClockRunKeeps(ipt, pts, c, k - 1);
      var r := ClockRun(ipt, pts, c, k - 1);
      if r.victim.None? {
        InspectSteps(ipt, r.tables, r.cursor);
        var e := ipt[r.cursor];
        if !e.pinned {
          ClearUsedClears(r.tables, e.process, e.index);
          OnlyUsedClearedTrans(pts, r.tables, ClearUsed(r.tables, e.process, e.index));
        }
      }
    }
  }

  /** After k steps that took no victim, step k + 1 is an inspection at the cursor. */
  lemma ClockAdvance(ipt: seq<IPTData>, pts: Tables, c: int, k: nat, t: Tables, cursor: int, st: ClockState)
    requires ClockRun(ipt, pts, c, k) == ClockState(None, t, cursor) && Inspect(ipt, t, cursor) == st
    ensures ClockRun(ipt, pts, c, k + 1) == st
  {
  }

  /** The clock touches only entries that rows name. */
  lemma {:induction false} ClockRunLeavesOthers(ipt: seq<IPTData>, pts: Tables, c: int, k: nat, p: Pid, i: int)
    requires Refs(ipt, pts) && 0 <= c < |ipt| && p in pts && 0 <= i < |pts[p]|
    requires forall j :: 0 <= j < |ipt| ==> ipt[j].process != p || ipt[j].index != i
    ensures var r := ClockRun(ipt, pts, c, k);
      p in r.tables && 0 <= i < |r.tables[p]| && r.tables[p][i] == pts[p][i]
    decreases k
  {
    ClockRunKeeps(ipt, pts, c, k);
    if k > 0 {
      ClockRunLeavesOthers(ipt, pts, c, k - 1, p, i);
      ClockRunKeeps(ipt, pts, c, k - 1);
      var r := ClockRun(ipt, pts, c, k - 1);
      if r.victim.None? {
        InspectSteps(ipt, r.tables, r.cursor);
      }
    }
  }

  /** How many steps the clock takes from row c to reach row q. */
  function Dist(c: int, q: int, n: int): int
  {
    if q >= c then q - c else q - c + n
  }

  /** Once a victim is taken, further steps change nothing. */
  lemma {:induction false} VictimStays(ipt: seq<IPTData>, pts: Tables, c: int, k: nat, m: nat)
    requires k <= m && ClockRun(ipt, pts, c, k).victim.Some?
    ensures ClockRun(ipt, pts, c, m) == ClockRun(ipt, pts, c, k)
    decreases m
  {
    if m > k {
      VictimStays(ipt, pts, c, k, m - 1);
    }
  }

  /**
   * k <= |ipt| inspections that take no victim leave the cursor k rows
   * further on (modulo the table's size), and every unpinned row among those
   * passed has its page's used bit clear.
   */
  lemma {:induction false} PassClears(ipt: seq<IPTData>, pts: Tables, c: int, k: nat)
    requires Refs(ipt, pts) && 0 <= c < |ipt| && k <= |ipt|
    ensures var r := ClockRun(ipt, pts, c, k);
      r.victim.None? ==>
        r.cursor == (if c + k < |ipt| then c + k else c + k - |ipt|) &&
        forall q :: 0 <= q < |ipt| && Dist(c, q, |ipt|) < k && !ipt[q].pinned ==> !PageUsed(ipt, r.tables, q)
    decreases k
  {
    var n := |ipt|;
    if k > 0 {
      PassClears(ipt, pts, c, k - 1);
      ClockRunKeeps(ipt, pts, c, k - 1);
      var r := ClockRun(ipt, pts, c, k - 1);
      if r.victim.None? {
        InspectSteps(ipt, r.tables, r.cursor);
        var s := Inspect(ipt, r.tables, r.cursor);
        assert ClockRun(ipt, pts, c, k) == s;
        if s.victim.None? {
          var e := ipt[r.cursor];
          if !e.pinned {
            ClearUsedClears(r.tables, e.process, e.index);
          }
          assert OnlyUsedCleared(r.tables, s.tables);
          forall q | 0 <= q < n && Dist(c, q, n) < k && !ipt[q].pinned
            ensures !PageUsed(ipt, s.tables, q)
          {
            if q != r.cursor {
              assert Dist(c, q, n) < k - 1;
              assert RowRefers(ipt, r.tables, q);
              UnusedStaysUnused(ipt, r.tables, s.tables, q);
            }
          }
        }
      }
    }
  }

  /**
   * When, after m steps that took no victim, no unpinned row's page has its
   * used bit set, k <= |ipt| further steps that take no victim change
   * nothing and pass only pinned rows.
   */
  lemma {:induction false} NothingToClear(ipt: seq<IPTData>, pts: Tables, c: int, m: nat, k: nat)
    requires Refs(ipt, pts) && 0 <= c < |ipt| && k <= |ipt|
    requires var r := ClockRun(ipt, pts, c, m);
      r.victim.None? && forall q :: 0 <= q < |ipt| && !ipt[q].pinned ==> !PageUsed(ipt, r.tables, q)
    ensures var r := ClockRun(ipt, pts, c, m);
      var r' := ClockRun(ipt, pts, c, m + k);
      r'.victim.None? ==>
        r'.tables == r.tables &&
        r'.cursor == (if r.cursor + k < |ipt| then r.cursor + k else r.cursor + k - |ipt|) &&
        forall q :: 0 <= q < |ipt| && Dist(r.cursor, q, |ipt|) < k ==> ipt[q].pinned
    decreases k
  {
    var n := |ipt|;
    ClockRunKeeps(ipt, pts, c, m);
    if k > 0 {
      NothingToClear(ipt, pts, c, m, k - 1);
      ClockRunKeeps(ipt, pts, c, m + (k - 1));
      var r := ClockRun(ipt, pts, c, m);
      var r1 := ClockRun(ipt, pts, c, m + (k - 1));
      assert m + k == (m + (k - 1)) + 1;
      if r1.victim.None? {
        InspectSteps(ipt, r1.tables, r1.cursor);
        var s := Inspect(ipt, r1.tables, r1.cursor);
        assert ClockRun(ipt, pts, c, m + k) == s;
        if s.victim.None? {
          assert ipt[r1.cursor].pinned;
          forall q | 0 <= q < n && Dist(r.cursor, q, n) < k
            ensures ipt[q].pinned
          {
            if q != r1.cursor {
              assert Dist(r.cursor, q, n) < k - 1;
            }
          }
        }
      }
    }
  }

  /**
   * The clock takes a victim within two full passes whenever some row is
   * unpinned: the first pass clears the used bit of every unpinned row it
   * does not take, so the second takes the first unpinned row it meets.
   */
  lemma VictimWithinTwoPasses(ipt: seq<IPTData>, pts: Tables, c: int)
    requires Refs(ipt, pts) && 0 <= c < |ipt| && !AllPinned(ipt)
    ensures ClockRun(ipt, pts, c, 2 * |ipt|).victim.Some?
  {
    var n := |ipt|;
    var r := ClockRun(ipt, pts, c, n);
    if r.victim.None? {
      PassClears(ipt, pts, c, n);
      ClockRunKeeps(ipt, pts, c, n);
      NothingToClear(ipt, pts, c, n, n);
      var q :| 0 <= q < n && !ipt[q].pinned;
      assert Dist(r.cursor, q, n) < n;
      assert n + n == 2 * n;
    } else {
      VictimStays(ipt, pts, c, n, 2 * n);
    }
  }

  /** With every row pinned a whole pass takes no victim and changes nothing. */
  lemma AllPinnedPass(ipt: seq<IPTData>, pts: Tables, c: int)
    requires Refs(ipt, pts) && 0 <= c < |ipt| && AllPinned(ipt)
    ensures ClockRun(ipt, pts, c, |ipt|) == ClockState(None, pts, c)
  {
    var n := |ipt|;
    assert ClockRun(ipt, pts, c, n).victim.None? by {
      ClockRunKeeps(ipt, pts, c, n);
    }
    assert ClockRun(ipt, pts, c, 0) == ClockState(None, pts, c);
    NothingToClear(ipt, pts, c, 0, n);
    assert 0 + n == n;
  }

  /**
   * What the scan of evictionClock arrives at from cursor c when the pool is
   * empty: with every row pinned (or no row at all) a pass changes nothing
   * and the thread goes to sleep; otherwise the clock runs for two passes,
   * within which it takes a victim.
   */
  function Scan(ipt: seq<IPTData>, pts: Tables, c: int): ClockState
  {
    if AllPinned(ipt) then ClockState(None, pts, c)
    else ClockRun(ipt, pts, c, 2 * |ipt|)
  }

  /**
   * The scan takes a victim exactly when some row is unpinned; the victim is
   * an unpinned row whose page is unused, the cursor stays on it, and the
   * only change to the page tables is cleared used bits. Without a victim
   * nothing changes.
   */
  lemma ScanResult(ipt: seq<IPTData>, pts: Tables, c: int)
    requires Refs(ipt, pts) && (|ipt| > 0 ==> 0 <= c < |ipt|)
    ensures var r := Scan(ipt, pts, c);
      (r.victim.Some? <==> !AllPinned(ipt)) &&
      (r.victim.None? ==> r == ClockState(None, pts, c)) &&
      (r.victim.Some? ==>
        r.victim.value == r.cursor && 0 <= r.cursor < |ipt| && !ipt[r.cursor].pinned &&
        !PageUsed(ipt, r.tables, r.cursor) && OnlyUsedCleared(pts, r.tables) && Refs(ipt, r.tables))
  {
    if !AllPinned(ipt) {
      VictimWithinTwoPasses(ipt, pts, c);
      ClockRunKeeps(ipt, pts, c, 2 * |ipt|);
      ClockRunClears(ipt, pts, c, 2 * |ipt|);
    }
  }

  /** Frame f lies inside a memory of memSize bytes. */
  predicate InMemory(f: int, memSize: int)
  {
    0 <= f && (f + 1) * PageSize <= memSize
  }

  /** The entry row j names. */
  function RowEntry(ipt: seq<IPTData>, pts: Tables, j: int): TranslationEntry
    requires 0 <= j < |ipt| && RowRefers(ipt, pts, j)
  {
    pts[ipt[j].process][ipt[j].index]
  }

  /** Entry i of process p's table replaced by e; nothing else changes. */
  function SetEntry(pts: Tables, p: Pid, i: int, e: TranslationEntry): Tables
  {
    if p in pts && 0 <= i < |pts[p]| then pts[p := pts[p][i := e]] else pts
  }

  /** Every row names a valid entry that maps the row's frame. */
  ghost predicate Backed(ipt: seq<IPTData>, pts: Tables)
  {
    forall j :: 0 <= j < |ipt| ==>
      RowRefers(ipt, pts, j) && RowEntry(ipt, pts, j).valid && RowEntry(ipt, pts, j).ppn == ipt[j].ppn
  }

  /** Looking the frame up in the table finds a row naming entry i of process p. */
  ghost predicate RowFor(ipt: seq<IPTData>, ppn: int, p: Pid, i: int)
  {
    var j := FindIndexOfPPN(ipt, ppn);
    j >= 0 && ipt[j].process == p && ipt[j].index == i
  }

  /** Every valid entry has its frame recorded in a row naming it. */
  ghost predicate Recorded(ipt: seq<IPTData>, pts: Tables)
  {
    forall p, i {:trigger RowFor(ipt, pts[p][i].ppn, p, i)} ::
      p in pts && 0 <= i < |pts[p]| && pts[p][i].valid ==> RowFor(ipt, pts[p][i].ppn, p, i)
  }

  /** No frame is held by two rows. */
  ghost predicate DistinctRows(ipt: seq<IPTData>)
  {
    forall j, k :: 0 <= j < k < |ipt| ==> ipt[j].ppn != ipt[k].ppn
  }

  /** The free list holds no frame twice and no frame a row holds. */
  ghost predicate PoolApart(ipt: seq<IPTData>, free: seq<int>)
  {
    (forall j :: 0 <= j < |ipt| ==> ipt[j].ppn !in free) &&
    forall a, b :: 0 <= a < b < |free| ==> free[a] != free[b]
  }

  ghost predicate FramesInMemory(ipt: seq<IPTData>, free: seq<int>, memSize: int)
  {
    (forall j :: 0 <= j < |ipt| ==> InMemory(ipt[j].ppn, memSize)) &&
    forall f :: f in free ==> InMemory(f, memSize)
  }

  /**
   * The bookkeeping of demand paging agrees with itself: the inverted table
   * and the page tables describe the same mapping from frames to pages, in
   * both directions, and every frame is either free or held by one row.
   */
  ghost predicate Consistent(ipt: seq<IPTData>, pts: Tables, free: seq<int>, memSize: int)
  {
    Refs(ipt, pts) && Backed(ipt, pts) && Recorded(ipt, pts) && DistinctRows(ipt) &&
    PoolApart(ipt, free) && FramesInMemory(ipt, free, memSize)
  }

  /** The lookup depends only on the frames of the rows. */
  lemma FindSameFrames(a: seq<IPTData>, b: seq<IPTData>, ppn: int)
    requires |a| == |b| && forall j :: 0 <= j < |a| ==> a[j].ppn == b[j].ppn
    ensures FindIndexOfPPN(a, ppn) == FindIndexOfPPN(b, ppn)
  {
    FindIndexIs(b, ppn, FindIndexOfPPN(a, ppn));
  }

  /** With distinct frames, the row holding a frame is found by looking the frame up. */
  lemma FindRow(ipt: seq<IPTData>, j: int)
    requires DistinctRows(ipt) && 0 <= j < |ipt|
    ensures FindIndexOfPPN(ipt, ipt[j].ppn) == j
  {
    FindIndexIs(ipt, ipt[j].ppn, j);
  }

  /** Appending a row with a new frame finds the old frames where they were and the new one last. */
  lemma FindAppend(ipt: seq<IPTData>, row: IPTData, ppn: int)
    requires forall j :: 0 <= j < |ipt| ==> ipt[j].ppn != row.ppn
    ensures FindIndexOfPPN(ipt + [row], ppn) ==
      if ppn == row.ppn then |ipt| else FindIndexOfPPN(ipt, ppn)
  {
    var a := ipt + [row];
    var i := FindIndexOfPPN(ipt, ppn);
    if ppn == row.ppn {
      FindIndexIs(a, ppn, |ipt|);
    } else {
      FindIndexIs(a, ppn, i);
    }
  }

  /** Clearing used bits keeps the bookkeeping consistent. */
  lemma ClearingKeepsConsistent(ipt: seq<IPTData>, a: Tables, b: Tables, free: seq<int>, memSize: int)
    requires Consistent(ipt, a, free, memSize) && OnlyUsedCleared(a, b)
    ensures Consistent(ipt, b, free, memSize)
  {
    RefsSameShape(ipt, a, b);
    forall j | 0 <= j < |ipt|
      ensures RowRefers(ipt, b, j) && RowEntry(ipt, b, j).valid && RowEntry(ipt, b, j).ppn == ipt[j].ppn
    {
      var p, i := ipt[j].process, ipt[j].index;
      assert b[p][i] == a[p][i].(used := b[p][i].used);
    }
    forall p, i | p in b && 0 <= i < |b[p]| && b[p][i].valid
      ensures RowFor(ipt, b[p][i].ppn, p, i)
    {
      assert b[p][i] == a[p][i].(used := b[p][i].used);
    }
  }

  /** The two tables have the same rows up to their pinned flags. */
  ghost predicate SameRows(a: seq<IPTData>, b: seq<IPTData>)
  {
    |a| == |b| &&
    forall j :: 0 <= j < |a| ==> a[j].ppn == b[j].ppn && a[j].process == b[j].process && a[j].index == b[j].index
  }

  lemma SameRowsRecorded(a: seq<IPTData>, b: seq<IPTData>, pts: Tables)
    requires SameRows(a, b) && Recorded(a, pts)
    ensures Recorded(b, pts)
  {
    forall p, i | p in pts && 0 <= i < |pts[p]| && pts[p][i].valid
      ensures RowFor(b, pts[p][i].ppn, p, i)
    {
      assert RowFor(a, pts[p][i].ppn, p, i);
      FindSameFrames(a, b, pts[p][i].ppn);
    }
  }

  lemma SameRowsBacked(a: seq<IPTData>, b: seq<IPTData>, pts: Tables)
    requires SameRows(a, b) && Backed(a, pts)
    ensures Refs(b, pts) && Backed(b, pts)
  {
    assert forall k :: 0 <= k < |a| ==> RowRefers(a, pts, k) == RowRefers(b, pts, k);
  }

  /** Consistency does not depend on the pinned flags. */
  lemma SameRowsConsistent(a: seq<IPTData>, b: seq<IPTData>, pts: Tables, free: seq<int>, memSize: int)
    requires SameRows(a, b) && Consistent(a, pts, free, memSize)
    ensures Consistent(b, pts, free, memSize)
  {
    SameRowsRecorded(a, b, pts);
    SameRowsBacked(a, b, pts);
  }

  /**
   * What loading a page into the frame of a victim row requires: the row
   * names a page that is being evicted (its entry goes to `ev`, invalid) and
   * the page being loaded, entry vpn of process pid, was not resident; its
   * new entry `ne` maps the victim's frame.
   */
  ghost predicate CanReplace(ipt: seq<IPTData>, pts: Tables, v: int, ev: TranslationEntry,
                             pid: Pid, vpn: int, ne: TranslationEntry)
  {
    0 <= v < |ipt| && pid in pts && 0 <= vpn < |pts[pid]| && !pts[pid][vpn].valid &&
    !ev.valid && ne.valid && ne.ppn == ipt[v].ppn
  }

  /** The page tables once the victim's entry is set to ev and the loaded page's to ne. */
  function Replaced(ipt: seq<IPTData>, pts: Tables, v: int, ev: TranslationEntry,
                    pid: Pid, vpn: int, ne: TranslationEntry): Tables
    requires 0 <= v < |ipt|
  {
    SetEntry(SetEntry(pts, ipt[v].process, ipt[v].index, ev), pid, vpn, ne)
  }

  /** The victim row, handed over to the loaded page. */
  function Handover(ipt: seq<IPTData>, v: int, pid: Pid, vpn: int): seq<IPTData>
    requires 0 <= v < |ipt|
  {
    ipt[v := IPTData(ipt[v].ppn, vpn, pid, false)]
  }

  /** Two rows of a consistent table never name the same entry. */
  lemma RowsNameDistinctEntries(ipt: seq<IPTData>, pts: Tables, j: int, k: int)
    requires Backed(ipt, pts) && DistinctRows(ipt) && 0 <= j < |ipt| && 0 <= k < |ipt| && j != k
    ensures ipt[j].process != ipt[k].process || ipt[j].index != ipt[k].index
  {
    if j > k {
      RowsNameDistinctEntries(ipt, pts, k, j);
    }
  }

  lemma ReplaceBacked(ipt: seq<IPTData>, pts: Tables, v: int, ev: TranslationEntry,
                      pid: Pid, vpn: int, ne: TranslationEntry)
    requires Refs(ipt, pts) && Backed(ipt, pts) && DistinctRows(ipt) && CanReplace(ipt, pts, v, ev, pid, vpn, ne)
    ensures var ipt', pts' := Handover(ipt, v, pid, vpn), Replaced(ipt, pts, v, ev, pid, vpn, ne);
      Refs(ipt', pts') && Backed(ipt', pts')
  {
    var ipt' := Handover(ipt, v, pid, vpn);
    var pts': Tables := Replaced(ipt, pts, v, ev, pid, vpn, ne);
    forall j | 0 <= j < |ipt'|
      ensures RowRefers(ipt', pts', j) && RowEntry(ipt', pts', j).valid && RowEntry(ipt', pts', j).ppn == ipt'[j].ppn
    {
      if j != v {
        RowsNameDistinctEntries(ipt, pts, j, v);
        assert RowRefers(ipt, pts, j);
      }
    }
  }

  lemma ReplaceRecorded(ipt: seq<IPTData>, pts: Tables, v: int, ev: TranslationEntry,
                        pid: Pid, vpn: int, ne: TranslationEntry)
    requires Refs(ipt, pts) && Backed(ipt, pts) && Recorded(ipt, pts) && DistinctRows(ipt)
    requires CanReplace(ipt, pts, v, ev, pid, vpn, ne)
    ensures Recorded(Handover(ipt, v, pid, vpn), Replaced(ipt, pts, v, ev, pid, vpn, ne))
  {
    var ipt' := Handover(ipt, v, pid, vpn);
    var pts': Tables := Replaced(ipt, pts, v, ev, pid, vpn, ne);
    var p, i := ipt[v].process, ipt[v].index;
    assert RowRefers(ipt, pts, v);
    forall q: Pid, k: int | q in pts' && 0 <= k < |pts'[q]| && pts'[q][k].valid
      ensures RowFor(ipt', pts'[q][k].ppn, q, k)
    {
      FindSameFrames(ipt, ipt', pts'[q][k].ppn);
      if q == pid && k == vpn {
        FindRow(ipt, v);
      } else {
        assert pts'[q][k] == pts[q][k];
        assert RowFor(ipt, pts[q][k].ppn, q, k);
      }
    }
  }

  /** Handing a victim's frame to the page being loaded keeps the bookkeeping consistent. */
  lemma ReplaceKeepsConsistent(ipt: seq<IPTData>, pts: Tables, free: seq<int>, memSize: int, v: int,
                               ev: TranslationEntry, pid: Pid, vpn: int, ne: TranslationEntry)
    requires Consistent(ipt, pts, free, memSize) && CanReplace(ipt, pts, v, ev, pid, vpn, ne)
    ensures Consistent(Handover(ipt, v, pid, vpn), Replaced(ipt, pts, v, ev, pid, vpn, ne), free, memSize)
  {
    ReplaceBacked(ipt, pts, v, ev, pid, vpn, ne);
    ReplaceRecorded(ipt, pts, v, ev, pid, vpn, ne);
    var ipt' := Handover(ipt, v, pid, vpn);
    assert forall j :: 0 <= j < |ipt| ==> ipt'[j].ppn == ipt[j].ppn;
  }

  /**
   * What loading a page into a frame from the free list requires: the page,
   * entry vpn of process pid, was not resident, and its new entry maps the
   * frame at the head of the list.
   */
  ghost predicate CanAppend(pts: Tables, free: seq<int>, pid: Pid, vpn: int, ne: TranslationEntry)
  {
    free != [] && pid in pts && 0 <= vpn < |pts[pid]| && !pts[pid][vpn].valid && ne.valid && ne.ppn == free[0]
  }

  lemma AppendBacked(ipt: seq<IPTData>, pts: Tables, free: seq<int>, pid: Pid, vpn: int, ne: TranslationEntry)
    requires Backed(ipt, pts) && CanAppend(pts, free, pid, vpn, ne)
    ensures var ipt' := ipt + [IPTData(free[0], vpn, pid, false)];
      Refs(ipt', SetEntry(pts, pid, vpn, ne)) && Backed(ipt', SetEntry(pts, pid, vpn, ne))
  {
    var ipt' := ipt + [IPTData(free[0], vpn, pid, false)];
    var pts' := SetEntry(pts, pid, vpn, ne);
    forall j | 0 <= j < |ipt'|
      ensures RowRefers(ipt', pts', j) && RowEntry(ipt', pts', j).valid && RowEntry(ipt', pts', j).ppn == ipt'[j].ppn
    {
      if j < |ipt| {
        assert RowRefers(ipt, pts, j) && ipt'[j] == ipt[j];
      }
    }
  }

  lemma AppendRecorded(ipt: seq<IPTData>, pts: Tables, free: seq<int>, pid: Pid, vpn: int, ne: TranslationEntry)
    requires Recorded(ipt, pts) && PoolApart(ipt, free) && CanAppend(pts, free, pid, vpn, ne)
    ensures Recorded(ipt + [IPTData(free[0], vpn, pid, false)], SetEntry(pts, pid, vpn, ne))
  {
    var row := IPTData(free[0], vpn, pid, false);
    var pts': Tables := SetEntry(pts, pid, vpn, ne);
    forall q: Pid, k: int | q in pts' && 0 <= k < |pts'[q]| && pts'[q][k].valid
      ensures RowFor(ipt + [row], pts'[q][k].ppn, q, k)
    {
      FindAppend(ipt, row, pts'[q][k].ppn);
      if q != pid || k != vpn {
        assert pts'[q][k] == pts[q][k];
        assert RowFor(ipt, pts[q][k].ppn, q, k);
      }
    }
  }

  /** Handing the head of the free list to the page being loaded keeps the bookkeeping consistent. */
  lemma AppendKeepsConsistent(ipt: seq<IPTData>, pts: Tables, free: seq<int>, memSize: int,
                              pid: Pid, vpn: int, ne: TranslationEntry)
    requires Consistent(ipt, pts, free, memSize) && CanAppend(pts, free, pid, vpn, ne)
    ensures Consistent(ipt + [IPTData(free[0], vpn, pid, false)], SetEntry(pts, pid, vpn, ne), free[1..], memSize)
  {
    AppendBacked(ipt, pts, free, pid, vpn, ne);
    AppendRecorded(ipt, pts, free, pid, vpn, ne);
    var ipt' := ipt + [IPTData(free[0], vpn, pid, false)];
    forall j, k | 0 <= j < k < |ipt'|
      ensures ipt'[j].ppn != ipt'[k].ppn
    {
      if k == |ipt| {
        assert ipt[j].ppn !in free;
      }
    }
    forall j | 0 <= j < |ipt'|
      ensures ipt'[j].ppn !in free[1..]
    {
      if j == |ipt| {
        forall c | 0 <= c < |free| - 1 ensures free[1..][c] != free[0] {
          assert free[1..][c] == free[c + 1];
        }
      }
    }
  }

  /** A new process's page table of invalid entries keeps the bookkeeping consistent. */
  lemma NewTableKeepsConsistent(ipt: seq<IPTData>, pts: Tables, free: seq<int>, memSize: int, pid: Pid, n: nat)
    requires Consistent(ipt, pts, free, memSize) && pid !in pts
    ensures Consistent(ipt, pts[pid := seq(n, _ => InvalidEntry)], free, memSize)
  {
    var pts' := pts[pid := seq(n, _ => InvalidEntry)];
    assert forall j :: 0 <= j < |ipt| ==> RowRefers(ipt, pts, j) && RowEntry(ipt, pts', j) == RowEntry(ipt, pts, j);
  }

  /** A page of the swap file: the bytes last written to the slot, zeros past the end of the file. */
  function SwapPage(swap: map<int, seq<byte>>, slot: int): seq<byte>
  {
    if slot in swap then swap[slot] else ZeroPage()
  }

  /** Every stored page has pageSize bytes. */
  ghost predicate SwapPages(swap: map<int, seq<byte>>)
  {
    forall slot :: slot in swap ==> |swap[slot]| == PageSize
  }

  /**
   * The swap-slot allocator: the recycled slots are distinct and all below
   * the end of the file, numOfSwap.
   */
  ghost predicate SwapAllocator(freeSwapList: seq<int>, numOfSwap: int)
  {
    0 <= numOfSwap &&
    (forall a :: 0 <= a < |freeSwapList| ==> 0 <= freeSwapList[a] < numOfSwap) &&
    forall a, b :: 0 <= a < b < |freeSwapList| ==> freeSwapList[a] != freeSwapList[b]
  }

  /** The allocator after one allocation: a recycled slot is taken off the list, else the file grows. */
  datatype SwapAlloc = SwapAlloc(slot: int, freeSwapList: seq<int>, numOfSwap: int)

  /** The slot a dirty victim is written to: the head of the recycled slots, else the end of the file. */
  function AllocateSlot(freeSwapList: seq<int>, numOfSwap: int): SwapAlloc
  {
    if |freeSwapList| != 0 then SwapAlloc(freeSwapList[0], freeSwapList[1..], numOfSwap)
    else SwapAlloc(numOfSwap, freeSwapList, numOfSwap + 1)
  }

  /**
   * The allocator never hands out a slot it can hand out again: the slot is
   * neither among the recycled ones left nor at or past the new end of the
   * file, and the allocator stays well formed.
   */
  lemma AllocateSlotFresh(freeSwapList: seq<int>, numOfSwap: int)
    requires SwapAllocator(freeSwapList, numOfSwap)
    ensures var a := AllocateSlot(freeSwapList, numOfSwap);
      0 <= a.slot < a.numOfSwap && a.slot !in a.freeSwapList && SwapAllocator(a.freeSwapList, a.numOfSwap)
  {
  }

  /** The swap file with its slot allocator. */
  datatype SwapState = SwapState(swap: map<int, seq<byte>>, freeSwapList: seq<int>, numOfSwap: int)

  /**
   * Writing out a victim whose entry is e and whose frame holds `bytes`: a
   * dirty page goes to a newly allocated slot, a clean one is dropped.
   */
  function SwapOut(s: SwapState, e: TranslationEntry, bytes: seq<byte>): SwapState
  {
    if e.dirty then
      var a := AllocateSlot(s.freeSwapList, s.numOfSwap);
      SwapState(s.swap[a.slot := bytes], a.freeSwapList, a.numOfSwap)
    else s
  }

  /** A slot in use: below the end of the file and not waiting to be recycled. */
  ghost predicate SlotInUse(s: SwapState, slot: int)
  {
    0 <= slot < s.numOfSwap && slot !in s.freeSwapList
  }

  /**
   * Writing out a victim keeps the swap file well formed, the slot it takes
   * becomes in use, and every page of every slot in use before is left as
   * it was: an evicted page is never overwritten by a later eviction.
   */
  lemma SwapOutKeeps(s: SwapState, e: TranslationEntry, bytes: seq<byte>, other: int)
    requires SwapPages(s.swap) && SwapAllocator(s.freeSwapList, s.numOfSwap) && |bytes| == PageSize
    ensures var s' := SwapOut(s, e, bytes);
      SwapPages(s'.swap) && SwapAllocator(s'.freeSwapList, s'.numOfSwap) &&
      (e.dirty ==> SlotInUse(s', AllocateSlot(s.freeSwapList, s.numOfSwap).slot)) &&
      (SlotInUse(s, other) ==> SlotInUse(s', other) && SwapPage(s'.swap, other) == SwapPage(s.swap, other))
  {
    AllocateSlotFresh(s.freeSwapList, s.numOfSwap);
    if e.dirty && SlotInUse(s, other) && |s.freeSwapList| != 0 {
      assert other != s.freeSwapList[0];
    }
  }

  /** A victim's entry once evicted: invalid, and holding its swap slot when it was dirty. */
  function Evicted(e: TranslationEntry, slot: int): TranslationEntry
  {
    e.(valid := false, vpn := if e.dirty then slot else e.vpn)
  }

  /** Where the bytes of a page being loaded come from. */
  datatype Source = FromSwap(slot: int) | FromSection(s: int, i: int) | ZeroFill

  /** A section's pages include virtual page vpn. */
  predicate Covers(section: Section, vpn: int)
  {
    section.firstVPN <= vpn < section.firstVPN + section.length
  }

  /** The first section, in order, whose pages include vpn; -1 when none does. */
  function SectionOf(sections: seq<Section>, vpn: int): (s: int)
    ensures -1 <= s < |sections|
    ensures s == -1 <==> forall k :: 0 <= k < |sections| ==> !Covers(sections[k], vpn)
    ensures s >= 0 ==> Covers(sections[s], vpn) && forall k :: 0 <= k < s ==> !Covers(sections[k], vpn)
  {
    if sections == [] then -1
    else if Covers(sections[0], vpn) then 0
    else
      var k := SectionOf(sections[1..], vpn);
      if k == -1 then -1 else k + 1
  }

  /**
   * The three ways loadPage fills a page: a dirty page is read back from
   * the slot its entry holds, a page of a section from the executable, and
   * any other page is zero-filled.
   */
  function PageSource(e: TranslationEntry, sections: seq<Section>, vpn: int): Source
  {
    if e.dirty then FromSwap(e.vpn)
    else
      var s := SectionOf(sections, vpn);
      if s >= 0 then FromSection(s, vpn - sections[s].firstVPN) else ZeroFill
  }

  /** The bytes a page is filled with. */
  function SourceBytes(src: Source, swap: map<int, seq<byte>>, sections: seq<Section>): seq<byte>
    requires src.FromSection? ==> 0 <= src.s < |sections| && 0 <= src.i < |sections[src.s].pages|
  {
    match src
    case FromSwap(slot) => SwapPage(swap, slot)
    case FromSection(s, i) => sections[s].pages[i]
    case ZeroFill => ZeroPage()
  }

  /**
   * The entry of a page just loaded into frame ppn: valid and used, mapping
   * the frame; a page read back from swap keeps its other fields, a section
   * page takes the section's read-only flag and is clean, and a zero-filled
   * page is writable and clean.
   */
  function LoadedEntry(e: TranslationEntry, ppn: int, src: Source, sections: seq<Section>): TranslationEntry
    requires src.FromSection? ==> 0 <= src.s < |sections|
  {
    match src
    case FromSwap(_) => e.(valid := true, used := true, ppn := ppn)
    case FromSection(s, _) => e.(readOnly := sections[s].readOnly, valid := true, used := true, dirty := false, ppn := ppn)
    case ZeroFill => e.(readOnly := false, used := true, valid := true, dirty := false, ppn := ppn)
  }

  /**
   * A loaded page's entry is valid and used and maps the frame; it is dirty
   * only when it was read back from swap, and then keeps the rest of its
   * old entry, its swap slot included; a section page has the section's
   * read-only flag and a zero-filled one is writable.
   */
  lemma LoadedEntryMaps(e: TranslationEntry, ppn: int, sections: seq<Section>, vpn: int)
    requires var src := PageSource(e, sections, vpn); src.FromSection? ==> 0 <= src.s < |sections|
    ensures var src := PageSource(e, sections, vpn); var e' := LoadedEntry(e, ppn, src, sections);
      e'.valid && e'.used && e'.ppn == ppn && (e'.dirty <==> e.dirty) &&
      (e.dirty ==> e' == e.(valid := true, used := true, ppn := ppn)) &&
      (src.FromSection? ==> e'.readOnly == sections[src.s].readOnly && Covers(sections[src.s], vpn)) &&
      (src.ZeroFill? <==> !e.dirty && forall k :: 0 <= k < |sections| ==> !Covers(sections[k], vpn)) &&
      (src.ZeroFill? ==> !e'.readOnly)
  {
  }

  /** The page sources a well-formed executable gives are pages of it. */
  lemma SectionSourceInRange(e: TranslationEntry, sections: seq<Section>, vpn: int)
    requires UserProcess.AllWellFormed(sections)
    ensures var src := PageSource(e, sections, vpn);
      src.FromSection? ==> 0 <= src.s < |sections| && 0 <= src.i < |sections[src.s].pages|
  {
  }

  /**
   * A dirty page written out and faulted back in gets its bytes back: the
   * evicted entry names the slot the frame went to, and loading reads that
   * slot, whatever the executable's sections are.
   */
  lemma SwapRoundTrip(s: SwapState, e: TranslationEntry, bytes: seq<byte>, sections: seq<Section>, vpn: int)
    requires e.dirty
    ensures var slot := AllocateSlot(s.freeSwapList, s.numOfSwap).slot;
      PageSource(Evicted(e, slot), sections, vpn) == FromSwap(slot) &&
      SourceBytes(FromSwap(slot), SwapOut(s, e, bytes).swap, sections) == bytes
  {
  }

  /** What evictionClock tells loadPage: take a free frame (-1), this victim frame, or the thread sleeps. */
  datatype EvictResult = NoEviction | Victim(ppn: int) | EvictBlocked

  /** What loadPage achieved: the page is resident, or the thread sleeps with every frame pinned. */
  datatype LoadResult = PageLoaded | LoadBlocked

  /**
   * The paging state shared by all processes, as one value: the inverted
   * table, the page tables, the free frames, the swap file with its
   * allocator, and the clock cursor.
   */
  datatype Paging = Paging(ipt: seq<IPTData>, tables: Tables, free: seq<int>, swaps: SwapState, cursor: int)

  /**
   * The invariant of paging, for `total` frames given to paging in a memory
   * of memSize bytes: the bookkeeping is consistent, the swap file is well
   * formed, every frame is free or held by one row, and the cursor is on
   * the table whenever the pool is empty.
   */
  ghost predicate PagingValid(s: Paging, memSize: int, total: nat)
  {
    Consistent(s.ipt, s.tables, s.free, memSize) &&
    SwapPages(s.swaps.swap) && SwapAllocator(s.swaps.freeSwapList, s.swaps.numOfSwap) &&
    |s.free| + |s.ipt| == total && 0 <= s.cursor && (s.cursor < total || s.cursor == 0)
  }

  /** What evictionClock returns, with the state it leaves. */
  datatype Eviction = Eviction(result: EvictResult, state: Paging)

  /**
   * The victim branch of evictionClock at the row under the cursor: the
   * page's entry is made invalid, a dirty page is written to a newly
   * allocated slot that the entry then holds, the cursor moves one past
   * the row, and the frame the entry mapped is returned. `mem` is main
   * memory, where the victim's bytes are read.
   */
  function EvictAt(s: Paging, mem: seq<byte>): Eviction
    requires Consistent(s.ipt, s.tables, s.free, |mem|) && 0 <= s.cursor < |s.ipt|
  {
    var v := s.cursor;
    assert RowRefers(s.ipt, s.tables, v) && InMemory(s.ipt[v].ppn, |mem|);
    var row := s.ipt[v];
    var e := s.tables[row.process][row.index];
    var a := AllocateSlot(s.swaps.freeSwapList, s.swaps.numOfSwap);
    Eviction(Victim(e.ppn),
      Paging(s.ipt, SetEntry(s.tables, row.process, row.index, Evicted(e, a.slot)), s.free,
             SwapOut(s.swaps, e, UserProcess.FrameBytes(mem, e.ppn)), (v + 1) % |s.ipt|))
  }

  /** The cursor condition the clock needs, implied by the invariant. */
  predicate CursorReady(s: Paging)
  {
    s.free == [] && |s.ipt| > 0 ==> 0 <= s.cursor < |s.ipt|
  }

  /**
   * evictionClock: -1 (NoEviction) while the pool has a frame; otherwise
   * the clock scan, which either finds every row pinned and sleeps
   * (EvictBlocked, nothing changed) or evicts the victim it stops at.
   */
  function EvictStep(s: Paging, mem: seq<byte>): Eviction
    requires Consistent(s.ipt, s.tables, s.free, |mem|) && CursorReady(s)
  {
    if s.free != [] then Eviction(NoEviction, s)
    else
      ScanResult(s.ipt, s.tables, s.cursor);
      var st := Scan(s.ipt, s.tables, s.cursor);
      if st.victim.None? then Eviction(EvictBlocked, s)
      else
        ClearingKeepsConsistent(s.ipt, s.tables, st.tables, s.free, |mem|);
        EvictAt(Paging(s.ipt, st.tables, s.free, s.swaps, st.cursor), mem)
  }

  /**
   * What evictionClock achieves without a victim: with a free frame nothing
   * changes and -1 is returned; with none it sleeps exactly when every row
   * is pinned, again changing nothing.
   */
  lemma EvictStepNoVictim(s: Paging, mem: seq<byte>)
    requires Consistent(s.ipt, s.tables, s.free, |mem|) && CursorReady(s)
    ensures var ev := EvictStep(s, mem);
      (ev.result == NoEviction <==> s.free != []) &&
      (ev.result == EvictBlocked <==> s.free == [] && AllPinned(s.ipt)) &&
      (!ev.result.Victim? ==> ev.state == s)
  {
    if s.free == [] {
      ScanResult(s.ipt, s.tables, s.cursor);
    }
  }

  /**
   * What evictionClock achieves when it takes a victim: the victim is the
   * row the scan stopped at, unpinned and with its page unused once the
   * scan has cleared used bits; the page's entry becomes invalid (holding
   * its new swap slot if it was dirty), the inverted table and the pool are
   * unchanged, the row's frame is returned and the cursor ends one past the
   * row.
   */
  lemma EvictStepVictim(s: Paging, mem: seq<byte>)
    requires Consistent(s.ipt, s.tables, s.free, |mem|) && CursorReady(s) && s.free == [] && !AllPinned(s.ipt)
    ensures var ev := EvictStep(s, mem);
      var st := Scan(s.ipt, s.tables, s.cursor); var v := st.cursor;
      ev.result.Victim? && st.victim == Some(v) && 0 <= v < |s.ipt| && RowRefers(s.ipt, st.tables, v) &&
      var row := s.ipt[v]; var e := st.tables[row.process][row.index];
      !row.pinned && !e.used && e.valid && ev.result.ppn == row.ppn &&
      OnlyUsedCleared(s.tables, st.tables)
  {
    ScanResult(s.ipt, s.tables, s.cursor);
    var st := Scan(s.ipt, s.tables, s.cursor);
    ClearingKeepsConsistent(s.ipt, s.tables, st.tables, s.free, |mem|);
    assert RowRefers(s.ipt, st.tables, st.cursor);
  }

  /**
   * The state the victim branch leaves: the victim's entry is evicted to the
   * slot the allocator gives, a dirty page's frame is written to the swap
   * file, and the cursor moves past the victim's row.
   */
  lemma EvictStepVictimState(s: Paging, mem: seq<byte>)
    requires Consistent(s.ipt, s.tables, s.free, |mem|) && CursorReady(s) && s.free == [] && !AllPinned(s.ipt)
    ensures var ev := EvictStep(s, mem);
      var st := Scan(s.ipt, s.tables, s.cursor); var v := st.cursor;
      0 <= v < |s.ipt| && RowRefers(s.ipt, st.tables, v) &&
      var row := s.ipt[v]; var e := st.tables[row.process][row.index];
      ev.state.tables == SetEntry(st.tables, row.process, row.index,
        Evicted(e, AllocateSlot(s.swaps.freeSwapList, s.swaps.numOfSwap).slot)) &&
      ev.state.ipt == s.ipt && ev.state.free == s.free && ev.state.cursor == (v + 1) % |s.ipt| &&
      ev.state.swaps == SwapOut(s.swaps, e, UserProcess.FrameBytes(mem, row.ppn))
  {
    EvictStepVictim(s, mem);
  }

  /** What loadPage returns, with the state it leaves and the frame it fills with which bytes. */
  datatype Loading = Loading(result: LoadResult, state: Paging, ppn: int, bytes: seq<byte>)

  /** The page tables keep their shape through evictionClock. */
  lemma EvictStepShape(s: Paging, mem: seq<byte>)
    requires Consistent(s.ipt, s.tables, s.free, |mem|) && CursorReady(s)
    ensures var ev := EvictStep(s, mem);
      SameShape(s.tables, ev.state.tables) &&
      (ev.result.Victim? ==> var v := Scan(s.ipt, s.tables, s.cursor).cursor;
        0 <= v < |ev.state.ipt| && FindIndexOfPPN(ev.state.ipt, ev.result.ppn) == v)
  {
    EvictStepNoVictim(s, mem);
    if s.free == [] && !AllPinned(s.ipt) {
      EvictStepVictim(s, mem);
      EvictStepVictimState(s, mem);
      FindRow(s.ipt, Scan(s.ipt, s.tables, s.cursor).cursor);
    }
  }

  /** After evictionClock the frame to be filled lies in memory and the swap file is well formed. */
  lemma EvictStepReady(s: Paging, mem: seq<byte>, total: nat)
    requires PagingValid(s, |mem|, total)
    ensures var ev := EvictStep(s, mem);
      SwapPages(ev.state.swaps.swap) &&
      (ev.result == NoEviction ==> s.free != [] && InMemory(s.free[0], |mem|)) &&
      (ev.result.Victim? ==> InMemory(ev.result.ppn, |mem|))
  {
    EvictStepNoVictim(s, mem);
    if s.free == [] && !AllPinned(s.ipt) {
      EvictStepVictim(s, mem);
      EvictStepVictimState(s, mem);
      var st := Scan(s.ipt, s.tables, s.cursor);
      var row := s.ipt[st.cursor];
      SwapOutKeeps(s.swaps, st.tables[row.process][row.index], UserProcess.FrameBytes(mem, row.ppn), 0);
    }
  }

  /**
   * loadPage for entry vpn of process pid, which is not resident: the frame
   * is the head of the pool when evictionClock returned -1, else the
   * victim's frame; the page's entry is set as the page's source says and
   * the frame recorded in the inverted table, by handing over the victim's
   * row after an eviction and by a new row otherwise. The dirty path is
   * modelled as recording its frame like the other two paths, which the
   * source does not do (DirtyRecordAsWritten).
   */
  function LoadStep(s: Paging, mem: seq<byte>, pid: Pid, vpn: int, sections: seq<Section>): Loading
    requires Consistent(s.ipt, s.tables, s.free, |mem|) && CursorReady(s)
    requires pid in s.tables && 0 <= vpn < |s.tables[pid]| && UserProcess.AllWellFormed(sections)
  {
    EvictStepShape(s, mem);
    var ev := EvictStep(s, mem);
    if ev.result == EvictBlocked then Loading(LoadBlocked, s, -1, [])
    else
      var s1 := ev.state;
      var ppn := if ev.result.Victim? then ev.result.ppn else s.free[0];
      var e := s1.tables[pid][vpn];
      var src := PageSource(e, sections, vpn);
      SectionSourceInRange(e, sections, vpn);
      var ipt' := if ev.result.Victim? then Handover(s1.ipt, FindIndexOfPPN(s1.ipt, ppn), pid, vpn)
                  else s1.ipt + [IPTData(ppn, vpn, pid, false)];
      var free' := if ev.result.Victim? then s1.free else s1.free[1..];
      Loading(PageLoaded,
        Paging(ipt', SetEntry(s1.tables, pid, vpn, LoadedEntry(e, ppn, src, sections)), free', s1.swaps, s1.cursor),
        ppn, SourceBytes(src, s1.swaps.swap, sections))
  }

  /**
   * loadPage keeps the invariant: a frame taken from the pool or from a
   * victim ends up held by exactly one row, naming the loaded page, whose
   * entry maps it; the victim's page is no longer resident.
   */
  lemma LoadStepKeepsValid(s: Paging, mem: seq<byte>, pid: Pid, vpn: int, sections: seq<Section>, total: nat)
    requires PagingValid(s, |mem|, total) && UserProcess.AllWellFormed(sections)
    requires pid in s.tables && 0 <= vpn < |s.tables[pid]| && !s.tables[pid][vpn].valid
    ensures PagingValid(LoadStep(s, mem, pid, vpn, sections).state, |mem|, total)
  {
    var m := |mem|;
    EvictStepNoVictim(s, mem);
    if s.free != [] {
      var e := s.tables[pid][vpn];
      assert PagingValid(LoadStep(s, mem, pid, vpn, sections).state, m, total) by {
        LoadedEntryMaps(e, s.free[0], sections, vpn);
        SectionSourceInRange(e, sections, vpn);
        AppendKeepsConsistent(s.ipt, s.tables, s.free, m, pid, vpn,
          LoadedEntry(e, s.free[0], PageSource(e, sections, vpn), sections));
      }
    } else if !AllPinned(s.ipt) {
      VictimLoadKeepsValid(s, mem, pid, vpn, sections, total);
    }
  }

  lemma VictimLoadKeepsValid(s: Paging, mem: seq<byte>, pid: Pid, vpn: int, sections: seq<Section>, total: nat)
    requires PagingValid(s, |mem|, total) && UserProcess.AllWellFormed(sections) && s.free == [] && !AllPinned(s.ipt)
    requires pid in s.tables && 0 <= vpn < |s.tables[pid]| && !s.tables[pid][vpn].valid
    ensures PagingValid(LoadStep(s, mem, pid, vpn, sections).state, |mem|, total)
  {
    var m := |mem|;
    EvictStepVictim(s, mem);
    EvictStepVictimState(s, mem);
    EvictStepShape(s, mem);
    var ev := EvictStep(s, mem);
    var st := Scan(s.ipt, s.tables, s.cursor);
    var v := st.cursor;
    var row := s.ipt[v];
    var ev0 := st.tables[row.process][row.index];
    var evd := Evicted(ev0, AllocateSlot(s.swaps.freeSwapList, s.swaps.numOfSwap).slot);
    var e := ev.state.tables[pid][vpn];
    assert e == st.tables[pid][vpn];
    var ne := LoadedEntry(e, row.ppn, PageSource(e, sections, vpn), sections);
    LoadedEntryMaps(e, row.ppn, sections, vpn);
    SectionSourceInRange(e, sections, vpn);
    assert Consistent(Handover(s.ipt, v, pid, vpn), Replaced(s.ipt, st.tables, v, evd, pid, vpn, ne), s.free, m) by {
      ClearingKeepsConsistent(s.ipt, s.tables, st.tables, s.free, m);
      ReplaceKeepsConsistent(s.ipt, st.tables, s.free, m, v, evd, pid, vpn, ne);
    }
    SwapOutKeeps(s.swaps, ev0, UserProcess.FrameBytes(mem, row.ppn), 0);
  }

  /** loadPage blocks exactly when the pool is empty and every row is pinned, and then changes nothing. */
  lemma LoadStepBlocks(s: Paging, mem: seq<byte>, pid: Pid, vpn: int, sections: seq<Section>)
    requires Consistent(s.ipt, s.tables, s.free, |mem|) && CursorReady(s) && UserProcess.AllWellFormed(sections)
    requires pid in s.tables && 0 <= vpn < |s.tables[pid]|
    ensures var l := LoadStep(s, mem, pid, vpn, sections);
      (l.result == LoadBlocked <==> s.free == [] && AllPinned(s.ipt)) &&
      (l.result == LoadBlocked ==> l.state == s)
  {
    EvictStepNoVictim(s, mem);
  }

  /**
   * A loaded page's entry is the one LoadedEntry gives for its source, and
   * the bytes written to the frame are that source's bytes.
   */
  lemma LoadStepEntry(s: Paging, mem: seq<byte>, pid: Pid, vpn: int, sections: seq<Section>)
    requires Consistent(s.ipt, s.tables, s.free, |mem|) && CursorReady(s) && UserProcess.AllWellFormed(sections)
    requires pid in s.tables && 0 <= vpn < |s.tables[pid]| && !s.tables[pid][vpn].valid
    ensures var l := LoadStep(s, mem, pid, vpn, sections); var e := s.tables[pid][vpn];
      var src := PageSource(e, sections, vpn);
      l.result == PageLoaded ==>
        pid in l.state.tables && 0 <= vpn < |l.state.tables[pid]| &&
        (src.FromSection? ==> 0 <= src.s < |sections| && 0 <= src.i < |sections[src.s].pages|) &&
        l.state.tables[pid][vpn] == LoadedEntry(e, l.ppn, src, sections) &&
        l.bytes == SourceBytes(src, l.state.swaps.swap, sections)
  {
    EvictStepShape(s, mem);
    EvictStepLeavesInvalid(s, mem, pid, vpn);
    SectionSourceInRange(s.tables[pid][vpn], sections, vpn);
  }

  /** After loadPage the page is resident in the frame it was given. */
  lemma LoadStepMaps(s: Paging, mem: seq<byte>, pid: Pid, vpn: int, sections: seq<Section>)
    requires Consistent(s.ipt, s.tables, s.free, |mem|) && CursorReady(s) && UserProcess.AllWellFormed(sections)
    requires pid in s.tables && 0 <= vpn < |s.tables[pid]| && !s.tables[pid][vpn].valid
    ensures var l := LoadStep(s, mem, pid, vpn, sections);
      l.result == PageLoaded ==>
        pid in l.state.tables && 0 <= vpn < |l.state.tables[pid]| &&
        l.state.tables[pid][vpn].valid && l.state.tables[pid][vpn].ppn == l.ppn
  {
    LoadStepEntry(s, mem, pid, vpn, sections);
    SectionSourceInRange(s.tables[pid][vpn], sections, vpn);
    LoadedEntryMaps(s.tables[pid][vpn], LoadStep(s, mem, pid, vpn, sections).ppn, sections, vpn);
  }

  /** evictionClock changes an entry that is not resident in its used bit at most. */
  lemma EvictStepLeavesInvalid(s: Paging, mem: seq<byte>, pid: Pid, vpn: int)
    requires Consistent(s.ipt, s.tables, s.free, |mem|) && CursorReady(s)
    requires pid in s.tables && 0 <= vpn < |s.tables[pid]| && !s.tables[pid][vpn].valid
    ensures var t := EvictStep(s, mem).state.tables;
      pid in t && 0 <= vpn < |t[pid]| && t[pid][vpn] == s.tables[pid][vpn].(used := t[pid][vpn].used)
  {
    EvictStepNoVictim(s, mem);
    if s.free == [] && !AllPinned(s.ipt) {
      EvictStepVictim(s, mem);
      EvictStepVictimState(s, mem);
    }
  }

  /**
   * With a free frame, loadPage takes the head of the pool, appends a row
   * for it, and changes only the page's own entry.
   */
  lemma LoadStepFromPool(s: Paging, mem: seq<byte>, pid: Pid, vpn: int, sections: seq<Section>)
    requires Consistent(s.ipt, s.tables, s.free, |mem|) && CursorReady(s) && UserProcess.AllWellFormed(sections)
    requires pid in s.tables && 0 <= vpn < |s.tables[pid]| && s.free != []
    ensures var l := LoadStep(s, mem, pid, vpn, sections);
      l.result == PageLoaded && l.ppn == s.free[0] && l.state.free == s.free[1..] &&
      pid in l.state.tables && 0 <= vpn < |l.state.tables[pid]| &&
      l.state.ipt == s.ipt + [IPTData(l.ppn, vpn, pid, false)] &&
      l.state.tables == SetEntry(s.tables, pid, vpn, l.state.tables[pid][vpn]) &&
      l.state.swaps == s.swaps && l.state.cursor == s.cursor
  {
    EvictStepNoVictim(s, mem);
  }

  /**
   * With the pool empty and some row unpinned, loadPage refills the frame of
   * the victim the clock chose: the victim's row is handed to the page and
   * the cursor moves past it.
   */
  lemma LoadStepFromVictim(s: Paging, mem: seq<byte>, pid: Pid, vpn: int, sections: seq<Section>)
    requires Consistent(s.ipt, s.tables, s.free, |mem|) && CursorReady(s) && UserProcess.AllWellFormed(sections)
    requires pid in s.tables && 0 <= vpn < |s.tables[pid]| && s.free == [] && !AllPinned(s.ipt)
    ensures var l := LoadStep(s, mem, pid, vpn, sections);
      var v := Scan(s.ipt, s.tables, s.cursor).cursor;
      l.result == PageLoaded && 0 <= v < |s.ipt| && !s.ipt[v].pinned && l.ppn == s.ipt[v].ppn &&
      l.state.free == s.free && l.state.ipt == Handover(s.ipt, v, pid, vpn) &&
      l.state.cursor == (v + 1) % |s.ipt|
  {
    EvictStepVictim(s, mem);
    EvictStepVictimState(s, mem);
    EvictStepShape(s, mem);
  }

  /**
   * The inverted-table update on loadPage's swap path as written: unlike
   * the section and zero-fill paths it does not test IPTFull, and always
   * looks the frame up. A frame in no row gives -1, and IPT.get(-1) throws
   * (None).
   */
  function DirtyRecordAsWritten(ipt: seq<IPTData>, ppn: int, pid: Pid, vpn: int): (r: Option<seq<IPTData>>)
    ensures r.None? <==> forall j :: 0 <= j < |ipt| ==> ipt[j].ppn != ppn
    ensures r.Some? ==> |r.value| == |ipt|
  {
    var idx := FindIndexOfPPN(ipt, ppn);
    if idx == -1 then None else Some(ipt[idx := IPTData(ppn, vpn, pid, false)])
  }

  /**
   * After an eviction the as-written swap path updates the table as
   * LoadStep does: the victim's row is found and handed over.
   */
  lemma DirtyRecordAfterEviction(s: Paging, mem: seq<byte>, pid: Pid, vpn: int, sections: seq<Section>)
    requires Consistent(s.ipt, s.tables, s.free, |mem|) && CursorReady(s) && UserProcess.AllWellFormed(sections)
    requires pid in s.tables && 0 <= vpn < |s.tables[pid]| && s.free == [] && !AllPinned(s.ipt)
    ensures var ev := EvictStep(s, mem);
      ev.result.Victim? &&
      DirtyRecordAsWritten(ev.state.ipt, ev.result.ppn, pid, vpn) == Some(LoadStep(s, mem, pid, vpn, sections).state.ipt)
  {
    EvictStepVictim(s, mem);
    EvictStepVictimState(s, mem);
    EvictStepShape(s, mem);
    LoadStepFromVictim(s, mem, pid, vpn, sections);
  }

  /**
   * With a frame in the pool, the as-written swap path faults: the frame
   * comes from the pool, so no row holds it.
   */
  lemma DirtyRecordFromPoolFaults(s: Paging, mem: seq<byte>, pid: Pid, vpn: int)
    requires Consistent(s.ipt, s.tables, s.free, |mem|) && CursorReady(s) && s.free != []
    ensures var ev := EvictStep(s, mem);
      ev.result == NoEviction && DirtyRecordAsWritten(ev.state.ipt, s.free[0], pid, vpn).None?
  {
    EvictStepNoVictim(s, mem);
    assert forall j :: 0 <= j < |s.ipt| ==> s.ipt[j].ppn != s.free[0] by {
      assert s.free[0] in s.free;
    }
  }

  /**
   * A consistent state in which that happens: page 0 of process 0 was
   * evicted dirty to slot 0 and frame 0 is back in the pool, as after
   * another process exits. The as-written swap path faults on it, while
   * LoadStep loads the page from its slot and keeps the invariant.
   */
  lemma DirtyRecordFaultWitness()
    ensures var e := TranslationEntry(0, -1, false, false, false, true);
      var s := Paging([], map[0 := [e]], [0], SwapState(map[0 := ZeroPage()], [], 1), 0);
      PagingValid(s, PageSize, 1) && !s.tables[0][0].valid && s.tables[0][0].dirty &&
      DirtyRecordAsWritten(s.ipt, s.free[0], 0, 0).None? &&
      LoadStep(s, ZeroPage(), 0, 0, []).result == PageLoaded &&
      PagingValid(LoadStep(s, ZeroPage(), 0, 0, []).state, PageSize, 1)
  {
    var e := TranslationEntry(0, -1, false, false, false, true);
    var s := Paging([], map[0 := [e]], [0], SwapState(map[0 := ZeroPage()], [], 1), 0);
    assert Consistent(s.ipt, s.tables, s.free, PageSize);
    LoadStepFromPool(s, ZeroPage(), 0, 0, []);
    LoadStepKeepsValid(s, ZeroPage(), 0, 0, [], 1);
  }

  /** The frames of a page table's resident pages, in page order. */
  function Frames(table: seq<TranslationEntry>): seq<int>
  {
    if table == [] then []
    else
      var n := |table| - 1;
      Frames(table[..n]) + (if table[n].valid then [table[n].ppn] else [])
  }

  lemma FramesPrefix(table: seq<TranslationEntry>, i: int)
    requires 0 <= i < |table|
    ensures Frames(table[..i + 1]) == Frames(table[..i]) + (if table[i].valid then [table[i].ppn] else [])
  {
    assert table[..i + 1][..i] == table[..i];
  }

  /** A frame is listed exactly when some resident page of the table maps it. */
  lemma {:induction false} FramesMembers(table: seq<TranslationEntry>, f: int)
    ensures f in Frames(table) <==> exists i :: 0 <= i < |table| && table[i].valid && table[i].ppn == f
  {
    if table != [] {
      var n := |table| - 1;
      FramesMembers(table[..n], f);
      if f in Frames(table[..n]) {
        var i :| 0 <= i < n && table[..n][i].valid && table[..n][i].ppn == f;
        assert table[i] == table[..n][i];
      }
      if i :| 0 <= i < |table| && table[i].valid && table[i].ppn == f {
        if i < n {
          assert table[..n][i] == table[i];
        }
      }
    }
  }

  /** The rows of the inverted table whose frame is not listed, in order. */
  function Without(ipt: seq<IPTData>, frames: seq<int>): seq<IPTData>
  {
    if ipt == [] then []
    else (if ipt[0].ppn in frames then [] else [ipt[0]]) + Without(ipt[1..], frames)
  }

  lemma {:induction false} WithoutMembers(ipt: seq<IPTData>, frames: seq<int>, x: IPTData)
    ensures x in Without(ipt, frames) <==> x in ipt && x.ppn !in frames
  {
    if ipt != [] {
      WithoutMembers(ipt[1..], frames, x);
      assert ipt == [ipt[0]] + ipt[1..];
    }
  }

  /** Leaving out f and then g is leaving out f + g. */
  lemma {:induction false} WithoutTwice(ipt: seq<IPTData>, f: seq<int>, g: seq<int>)
    ensures Without(Without(ipt, f), g) == Without(ipt, f + g)
  {
    if ipt != [] {
      WithoutTwice(ipt[1..], f, g);
      var w := Without(ipt[1..], f);
      assert ipt[0].ppn in f + g <==> ipt[0].ppn in f || ipt[0].ppn in g;
      if ipt[0].ppn in f {
        assert Without(ipt, f) == w;
      } else {
        var l := [ipt[0]] + w;
        assert Without(ipt, f) == l;
        assert l[0] == ipt[0] && l[1..] == w;
        assert Without(l, g) == (if ipt[0].ppn in g then [] else [ipt[0]]) + Without(w, g);
      }
    }
  }

  lemma {:induction false} WithoutNone(ipt: seq<IPTData>, frames: seq<int>)
    requires forall j :: 0 <= j < |ipt| ==> ipt[j].ppn !in frames
    ensures Without(ipt, frames) == ipt
  {
    if ipt != [] {
      WithoutNone(ipt[1..], frames);
      assert ipt == [ipt[0]] + ipt[1..];
    }
  }

  lemma {:induction false} WithoutDistinct(ipt: seq<IPTData>, frames: seq<int>)
    requires DistinctRows(ipt)
    ensures DistinctRows(Without(ipt, frames))
  {
    if ipt != [] {
      WithoutDistinct(ipt[1..], frames);
      var w := Without(ipt[1..], frames);
      forall k | 0 <= k < |w| ensures w[k].ppn != ipt[0].ppn {
        WithoutMembers(ipt[1..], frames, w[k]);
        var m :| 0 <= m < |ipt[1..]| && ipt[1..][m] == w[k];
        assert ipt[m + 1] == w[k];
      }
    }
  }

  /**
   * IPT.remove at the index findIdexOfPPN gives: with no frame held twice,
   * it takes out the one row holding the frame.
   */
  lemma {:induction false} RemoveRow(ipt: seq<IPTData>, f: int)
    requires DistinctRows(ipt) && FindIndexOfPPN(ipt, f) >= 0
    ensures var idx := FindIndexOfPPN(ipt, f);
      ipt[..idx] + ipt[idx + 1..] == Without(ipt, [f])
  {
    var idx := FindIndexOfPPN(ipt, f);
    if idx == 0 {
      WithoutNone(ipt[1..], [f]);
      assert ipt[..0] + ipt[1..] == ipt[1..];
    } else {
      assert FindIndexOfPPN(ipt[1..], f) == idx - 1;
      RemoveRow(ipt[1..], f);
      RemoveLaterRow(ipt, f, idx);
    }
  }

  /** Removing a row past the first one keeps the first row in front. */
  lemma RemoveLaterRow(ipt: seq<IPTData>, f: int, idx: int)
    requires 0 < idx < |ipt| && ipt[0].ppn != f
    requires ipt[1..][..idx - 1] + ipt[1..][idx..] == Without(ipt[1..], [f])
    ensures ipt[..idx] + ipt[idx + 1..] == Without(ipt, [f])
  {
    var rest := ipt[1..];
    assert ipt[0].ppn !in [f];
    assert ipt[..idx] == [ipt[0]] + rest[..idx - 1] && ipt[idx + 1..] == rest[idx..];
  }

  /** In a consistent state a row holds one of p's frames exactly when it names p. */
  lemma RowsOfProcess(ipt: seq<IPTData>, pts: Tables, free: seq<int>, memSize: int, p: Pid, x: IPTData)
    requires Consistent(ipt, pts, free, memSize) && p in pts && x in ipt
    ensures x.ppn in Frames(pts[p]) <==> x.process == p
  {
    var k :| 0 <= k < |ipt| && ipt[k] == x;
    FramesMembers(pts[p], x.ppn);
    if x.ppn in Frames(pts[p]) {
      var i :| 0 <= i < |pts[p]| && pts[p][i].valid && pts[p][i].ppn == x.ppn;
      assert RowFor(ipt, x.ppn, p, i);
      assert FindIndexOfPPN(ipt, x.ppn) == k;
    }
    if x.process == p {
      assert RowRefers(ipt, pts, k);
      assert pts[p][x.index].valid && pts[p][x.index].ppn == x.ppn;
    }
  }

  /** Before page i of p is unloaded its row is still in the table. */
  lemma UnloadFindsRow(ipt: seq<IPTData>, pts: Tables, free: seq<int>, memSize: int, p: Pid, i: int)
    requires Consistent(ipt, pts, free, memSize) && p in pts && 0 <= i < |pts[p]| && pts[p][i].valid
    ensures var w := Without(ipt, Frames(pts[p][..i]));
      DistinctRows(w) && FindIndexOfPPN(w, pts[p][i].ppn) >= 0
  {
    var t := pts[p];
    var w := Without(ipt, Frames(t[..i]));
    WithoutDistinct(ipt, Frames(t[..i]));
    assert RowFor(ipt, t[i].ppn, p, i);
    var j := FindIndexOfPPN(ipt, t[i].ppn);
    forall i' | 0 <= i' < i && t[i'].valid ensures t[i'].ppn != t[i].ppn {
      assert RowFor(ipt, t[i'].ppn, p, i');
    }
    FramesMembers(t[..i], t[i].ppn);
    WithoutMembers(ipt, Frames(t[..i]), ipt[j]);
    var k :| 0 <= k < |w| && w[k] == ipt[j];
  }

  /** No frame number occurs twice. */
  ghost predicate Distinct(s: seq<int>)
  {
    forall i, j :: 0 <= i < j < |s| ==> s[i] != s[j]
  }

  /** A process's resident pages hold distinct frames, none of them free, all in memory. */
  lemma FramesApart(ipt: seq<IPTData>, pts: Tables, free: seq<int>, memSize: int, p: Pid)
    requires Consistent(ipt, pts, free, memSize) && p in pts
    ensures var F := Frames(pts[p]);
      Distinct(F) && forall f :: f in F ==> f !in free && InMemory(f, memSize)
  {
    var t := pts[p];
    var F := Frames(t);
    forall f | f in F ensures f !in free && InMemory(f, memSize) {
      FramesMembers(t, f);
      var i :| 0 <= i < |t| && t[i].valid && t[i].ppn == f;
      assert RowFor(ipt, f, p, i);
      assert ipt[FindIndexOfPPN(ipt, f)].ppn == f;
    }
    FramesDistinct(ipt, pts, free, memSize, p, |t|);
    assert t[..|t|] == t;
  }

  lemma {:induction false} FramesDistinct(ipt: seq<IPTData>, pts: Tables, free: seq<int>, memSize: int, p: Pid, n: int)
    requires Consistent(ipt, pts, free, memSize) && p in pts && 0 <= n <= |pts[p]|
    ensures Distinct(Frames(pts[p][..n]))
  {
    if n > 0 {
      var t := pts[p];
      FramesDistinct(ipt, pts, free, memSize, p, n - 1);
      FramesPrefix(t, n - 1);
      if t[n - 1].valid {
        assert RowFor(ipt, t[n - 1].ppn, p, n - 1);
        forall i' | 0 <= i' < n - 1 && t[i'].valid ensures t[i'].ppn != t[n - 1].ppn {
          assert RowFor(ipt, t[i'].ppn, p, i');
        }
        FramesMembers(t[..n - 1], t[n - 1].ppn);
      }
    }
  }

  /** The rows unloadSections leaves are exactly the other processes' rows. */
  lemma UnloadRows(ipt: seq<IPTData>, pts: Tables, free: seq<int>, memSize: int, p: Pid)
    requires Consistent(ipt, pts, free, memSize) && p in pts
    ensures var F := Frames(pts[p]); var rest := Without(ipt, F);
      (forall x :: x in rest <==> x in ipt && x.process != p) &&
      (forall j :: 0 <= j < |rest| ==> rest[j] in ipt && rest[j].process != p && rest[j].ppn !in F)
  {
    var F := Frames(pts[p]);
    var rest := Without(ipt, F);
    forall x ensures x in rest <==> x in ipt && x.process != p {
      WithoutMembers(ipt, F, x);
      if x in ipt {
        RowsOfProcess(ipt, pts, free, memSize, p, x);
      }
    }
    forall j | 0 <= j < |rest| ensures rest[j].ppn !in F {
      WithoutMembers(ipt, F, rest[j]);
    }
  }

  /** Every row left still names a resident page of its process that maps the row's frame. */
  lemma UnloadBacked(ipt: seq<IPTData>, pts: Tables, free: seq<int>, memSize: int, p: Pid)
    requires Consistent(ipt, pts, free, memSize) && p in pts
    ensures var rest := Without(ipt, Frames(pts[p])); Refs(rest, pts - {p}) && Backed(rest, pts - {p})
  {
    var rest := Without(ipt, Frames(pts[p]));
    var pts' := pts - {p};
    UnloadRows(ipt, pts, free, memSize, p);
    forall j | 0 <= j < |rest|
      ensures RowRefers(rest, pts', j) && RowEntry(rest, pts', j).valid && RowEntry(rest, pts', j).ppn == rest[j].ppn
    {
      var k :| 0 <= k < |ipt| && ipt[k] == rest[j];
      assert RowRefers(ipt, pts, k);
    }
  }

  /** Two duplicate-free lists with no element in common make a duplicate-free list. */
  lemma AppendDistinct(a: seq<int>, b: seq<int>)
    requires Distinct(a) && Distinct(b) && forall f :: f in b ==> f !in a
    ensures Distinct(a + b)
  {
    var c := a + b;
    forall i, j | 0 <= i < j < |c| ensures c[i] != c[j] {
      if i < |a| <= j {
        assert c[j] == b[j - |a|] && b[j - |a|] in b;
      }
    }
  }

  /** The frames of the pool, with the process's frames added, are free of duplicates and of rows. */
  lemma UnloadPoolApart(ipt: seq<IPTData>, pts: Tables, free: seq<int>, memSize: int, p: Pid)
    requires Consistent(ipt, pts, free, memSize) && p in pts
    ensures var F := Frames(pts[p]); var rest := Without(ipt, F);
      PoolApart(rest, free + F) && FramesInMemory(rest, free + F, memSize)
  {
    var F := Frames(pts[p]);
    var rest := Without(ipt, F);
    var free' := free + F;
    UnloadRows(ipt, pts, free, memSize, p);
    FramesApart(ipt, pts, free, memSize, p);
    AppendDistinct(free, Frames(pts[p]));
    forall j | 0 <= j < |rest| ensures rest[j].ppn !in free' && InMemory(rest[j].ppn, memSize) {
      var k :| 0 <= k < |ipt| && ipt[k] == rest[j];
    }
    forall f | f in free' ensures InMemory(f, memSize) {
      assert f in free || f in F;
    }
  }

  /** Before the first page nothing is left out of the table. */
  lemma UnloadStart(ipt: seq<IPTData>, table: seq<TranslationEntry>)
    ensures Without(ipt, Frames(table[..0])) == ipt
  {
    assert table[..0] == [];
    WithoutNone(ipt, []);
  }

  /**
   * One iteration of unloadSections' loop: an invalid page changes nothing;
   * for a resident page, findIdexOfPPN finds its row in what is left and
   * IPT.remove takes out that row and no other.
   */
  lemma UnloadStep(ipt: seq<IPTData>, pts: Tables, free: seq<int>, memSize: int, p: Pid, i: int)
    requires Consistent(ipt, pts, free, memSize) && p in pts && 0 <= i < |pts[p]|
    ensures var t := pts[p]; var w := Without(ipt, Frames(t[..i]));
      Frames(t[..i + 1]) == Frames(t[..i]) + (if t[i].valid then [t[i].ppn] else []) &&
      (!t[i].valid ==> Without(ipt, Frames(t[..i + 1])) == w) &&
      (t[i].valid ==>
        var idx := FindIndexOfPPN(w, t[i].ppn);
        0 <= idx < |w| && Without(ipt, Frames(t[..i + 1])) == w[..idx] + w[idx + 1..])
  {
    var t := pts[p];
    FramesPrefix(t, i);
    if t[i].valid {
      UnloadFindsRow(ipt, pts, free, memSize, p, i);
      RemoveRow(Without(ipt, Frames(t[..i])), t[i].ppn);
      WithoutTwice(ipt, Frames(t[..i]), [t[i].ppn]);
    } else {
      assert Frames(t[..i + 1]) == Frames(t[..i]);
    }
  }

  /**
   * unloadSections keeps the bookkeeping consistent: the process's frames
   * go back to the pool, their rows leave the table, and its page table is
   * gone.
   */
  lemma UnloadKeepsConsistent(ipt: seq<IPTData>, pts: Tables, free: seq<int>, memSize: int, p: Pid)
    requires Consistent(ipt, pts, free, memSize) && p in pts
    ensures Consistent(Without(ipt, Frames(pts[p])), pts - {p}, free + Frames(pts[p]), memSize)
  {
    var F := Frames(pts[p]);
    var rest := Without(ipt, F);
    var pts' := pts - {p};
    UnloadBacked(ipt, pts, free, memSize, p);
    UnloadPoolApart(ipt, pts, free, memSize, p);
    WithoutDistinct(ipt, F);
    assert Recorded(rest, pts') by {
      forall q, i | q in pts' && 0 <= i < |pts'[q]| && pts'[q][i].valid
        ensures RowFor(rest, pts'[q][i].ppn, q, i)
      {
        UnloadKeepsRow(ipt, pts, free, memSize, p, q, i);
      }
    }
  }

  /** A resident page of another process keeps its row through unloadSections. */
  lemma UnloadKeepsRow(ipt: seq<IPTData>, pts: Tables, free: seq<int>, memSize: int, p: Pid, q: Pid, i: int)
    requires Consistent(ipt, pts, free, memSize) && p in pts && q in pts && q != p
    requires 0 <= i < |pts[q]| && pts[q][i].valid
    ensures RowFor(Without(ipt, Frames(pts[p])), pts[q][i].ppn, q, i)
  {
    var F := Frames(pts[p]);
    var rest := Without(ipt, F);
    var f := pts[q][i].ppn;
    assert RowFor(ipt, f, q, i);
    var k := FindIndexOfPPN(ipt, f);
    RowsOfProcess(ipt, pts, free, memSize, p, ipt[k]);
    WithoutMembers(ipt, F, ipt[k]);
    WithoutDistinct(ipt, F);
    var m :| 0 <= m < |rest| && rest[m] == ipt[k];
    var j := FindIndexOfPPN(rest, f);
    WithoutMembers(ipt, F, rest[j]);
    var k' :| 0 <= k' < |ipt| && ipt[k'] == rest[j];
  }

  /** The row holding frame ppn with its pinned flag set to b; with no such row, the table as it was. */
  function SetPin(ipt: seq<IPTData>, ppn: int, b: bool): (r: seq<IPTData>)
    ensures |r| == |ipt|
    ensures forall j :: 0 <= j < |ipt| ==> r[j] == ipt[j].(pinned := r[j].pinned)
    ensures var idx := FindIndexOfPPN(ipt, ppn);
      (idx >= 0 ==> r[idx].pinned == b) && forall j :: 0 <= j < |ipt| && j != idx ==> r[j] == ipt[j]
  {
    var idx := FindIndexOfPPN(ipt, ppn);
    if idx == -1 then ipt else ipt[idx := ipt[idx].(pinned := b)]
  }

  /** Pinning and unpinning do not touch the bookkeeping the invariant speaks of. */
  lemma PinKeepsConsistent(ipt: seq<IPTData>, pts: Tables, free: seq<int>, memSize: int, ppn: int, b: bool)
    requires Consistent(ipt, pts, free, memSize)
    ensures Consistent(SetPin(ipt, ppn, b), pts, free, memSize)
  {
    var r := SetPin(ipt, ppn, b);
    forall f ensures FindIndexOfPPN(r, f) == FindIndexOfPPN(ipt, f) {
      FindSameFrames(r, ipt, f);
    }
    assert Backed(r, pts) by {
      forall j | 0 <= j < |r| ensures RowRefers(r, pts, j) && RowEntry(r, pts, j) == RowEntry(ipt, pts, j) {
        assert RowRefers(ipt, pts, j);
      }
    }
    assert Recorded(r, pts) by {
      forall p, i | p in pts && 0 <= i < |pts[p]| && pts[p][i].valid ensures RowFor(r, pts[p][i].ppn, p, i) {
        assert RowFor(ipt, pts[p][i].ppn, p, i);
      }
    }
  }

  lemma PinKeepsValid(s: Paging, memSize: int, total: nat, ppn: int, b: bool)
    requires PagingValid(s, memSize, total)
    ensures PagingValid(s.(ipt := SetPin(s.ipt, ppn, b)), memSize, total)
  {
    PinKeepsConsistent(s.ipt, s.tables, s.free, memSize, ppn, b);
  }

  /**
   * The first half of one round of read/writeVirtualMemory's copy loop, for
   * page vpn of process pid: the row of the frame the entry names is
   * pinned; a page that is not resident is then loaded, and the row of its
   * new frame pinned. The frame to copy is the result's ppn. The entry of a
   * page that is not resident may name a frame that now belongs to another
   * page, whose row is pinned all the same.
   */
  function FaultIn(s: Paging, mem: seq<byte>, pid: Pid, vpn: int, sections: seq<Section>): Loading
    requires Consistent(s.ipt, s.tables, s.free, |mem|) && CursorReady(s)
    requires pid in s.tables && 0 <= vpn < |s.tables[pid]| && UserProcess.AllWellFormed(sections)
  {
    var e := s.tables[pid][vpn];
    PinKeepsConsistent(s.ipt, s.tables, s.free, |mem|, e.ppn, true);
    var s1 := s.(ipt := SetPin(s.ipt, e.ppn, true));
    if e.valid then Loading(PageLoaded, s1, e.ppn, [])
    else
      var l := LoadStep(s1, mem, pid, vpn, sections);
      if l.result == LoadBlocked then l
      else Loading(PageLoaded, l.state.(ipt := SetPin(l.state.ipt, l.ppn, true)), l.ppn, l.bytes)
  }

  /** A fault-in keeps the invariant and the shape of the page tables. */
  lemma FaultInKeepsValid(s: Paging, mem: seq<byte>, pid: Pid, vpn: int, sections: seq<Section>, total: nat)
    requires PagingValid(s, |mem|, total) && UserProcess.AllWellFormed(sections)
    requires pid in s.tables && 0 <= vpn < |s.tables[pid]|
    ensures var l := FaultIn(s, mem, pid, vpn, sections);
      PagingValid(l.state, |mem|, total) && SameShape(s.tables, l.state.tables)
  {
    var e := s.tables[pid][vpn];
    var s1 := s.(ipt := SetPin(s.ipt, e.ppn, true));
    var l := FaultIn(s, mem, pid, vpn, sections);
    PinKeepsValid(s, |mem|, total, e.ppn, true);
    if e.valid {
      assert l.state == s1;
    } else {
      var l1 := LoadStep(s1, mem, pid, vpn, sections);
      LoadStepKeepsValid(s1, mem, pid, vpn, sections, total);
      LoadStepShape(s1, mem, pid, vpn, sections);
      if l1.result == LoadBlocked {
        assert l.state == l1.state;
      } else {
        PinKeepsValid(l1.state, |mem|, total, l1.ppn, true);
        assert l.state == l1.state.(ipt := SetPin(l1.state.ipt, l1.ppn, true));
      }
    }
  }

  /** loadPage keeps the processes and the sizes of their page tables. */
  lemma LoadStepShape(s: Paging, mem: seq<byte>, pid: Pid, vpn: int, sections: seq<Section>)
    requires Consistent(s.ipt, s.tables, s.free, |mem|) && CursorReady(s)
    requires pid in s.tables && 0 <= vpn < |s.tables[pid]| && UserProcess.AllWellFormed(sections)
    ensures SameShape(s.tables, LoadStep(s, mem, pid, vpn, sections).state.tables)
  {
    EvictStepShape(s, mem);
  }

  /** A fault-in blocks only on a page that is not resident, and then changes nothing but the first pin. */
  lemma FaultInBlocks(s: Paging, mem: seq<byte>, pid: Pid, vpn: int, sections: seq<Section>, total: nat)
    requires PagingValid(s, |mem|, total) && UserProcess.AllWellFormed(sections)
    requires pid in s.tables && 0 <= vpn < |s.tables[pid]|
    ensures var l := FaultIn(s, mem, pid, vpn, sections); var e := s.tables[pid][vpn];
      l.result == LoadBlocked ==> !e.valid && l.state == s.(ipt := SetPin(s.ipt, e.ppn, true))
  {
    var e := s.tables[pid][vpn];
    PinKeepsValid(s, |mem|, total, e.ppn, true);
    if !e.valid {
      LoadStepBlocks(s.(ipt := SetPin(s.ipt, e.ppn, true)), mem, pid, vpn, sections);
    }
  }

  /** The row holding the frame of a resident page of a valid state is found, and the frame lies in memory. */
  lemma ResidentRow(s: Paging, memSize: int, total: nat, pid: Pid, vpn: int)
    requires PagingValid(s, memSize, total) && pid in s.tables && 0 <= vpn < |s.tables[pid]| && s.tables[pid][vpn].valid
    ensures var idx := FindIndexOfPPN(s.ipt, s.tables[pid][vpn].ppn);
      0 <= idx < |s.ipt| && InMemory(s.tables[pid][vpn].ppn, memSize)
  {
    var ppn := s.tables[pid][vpn].ppn;
    assert RowFor(s.ipt, ppn, pid, vpn);
    assert InMemory(s.ipt[FindIndexOfPPN(s.ipt, ppn)].ppn, memSize);
  }

  /**
   * After a fault-in that did not block, the page is resident in the frame
   * to copy, that frame lies in memory, and its row is pinned.
   */
  lemma FaultInResident(s: Paging, mem: seq<byte>, pid: Pid, vpn: int, sections: seq<Section>, total: nat)
    requires PagingValid(s, |mem|, total) && UserProcess.AllWellFormed(sections)
    requires pid in s.tables && 0 <= vpn < |s.tables[pid]|
    ensures var l := FaultIn(s, mem, pid, vpn, sections);
      l.result == PageLoaded ==>
        pid in l.state.tables && 0 <= vpn < |l.state.tables[pid]| &&
        l.state.tables[pid][vpn].valid && l.state.tables[pid][vpn].ppn == l.ppn &&
        InMemory(l.ppn, |mem|) &&
        var idx := FindIndexOfPPN(l.state.ipt, l.ppn); 0 <= idx < |l.state.ipt| && l.state.ipt[idx].pinned
  {
    var e := s.tables[pid][vpn];
    var s1 := s.(ipt := SetPin(s.ipt, e.ppn, true));
    var l := FaultIn(s, mem, pid, vpn, sections);
    FaultInKeepsValid(s, mem, pid, vpn, sections, total);
    if e.valid {
      assert l.state == s1 && l.ppn == e.ppn;
      ResidentRow(l.state, |mem|, total, pid, vpn);
    } else {
      PinKeepsValid(s, |mem|, total, e.ppn, true);
      LoadedResident(s1, mem, pid, vpn, sections, total);
    }
  }

  /** The loaded page of a fault-in on a page that was not resident, with its row pinned. */
  lemma LoadedResident(s1: Paging, mem: seq<byte>, pid: Pid, vpn: int, sections: seq<Section>, total: nat)
    requires PagingValid(s1, |mem|, total) && UserProcess.AllWellFormed(sections)
    requires pid in s1.tables && 0 <= vpn < |s1.tables[pid]| && !s1.tables[pid][vpn].valid
    ensures var l1 := LoadStep(s1, mem, pid, vpn, sections);
      var t := l1.state.(ipt := SetPin(l1.state.ipt, l1.ppn, true));
      l1.result == PageLoaded ==>
        pid in t.tables && 0 <= vpn < |t.tables[pid]| &&
        t.tables[pid][vpn].valid && t.tables[pid][vpn].ppn == l1.ppn &&
        InMemory(l1.ppn, |mem|) &&
        var idx := FindIndexOfPPN(t.ipt, l1.ppn); 0 <= idx < |t.ipt| && t.ipt[idx].pinned
  {
    var l1 := LoadStep(s1, mem, pid, vpn, sections);
    if l1.result == PageLoaded {
      LoadStepKeepsValid(s1, mem, pid, vpn, sections, total);
      LoadStepMaps(s1, mem, pid, vpn, sections);
      ResidentRow(l1.state, |mem|, total, pid, vpn);
      FindSameFrames(l1.state.ipt, SetPin(l1.state.ipt, l1.ppn, true), l1.ppn);
    }
  }

  /** A memory whose frame f holds `bytes` and whose other bytes are those of `before` is `before` with the frame spliced in. */
  lemma FrameSplice(memory: array<byte>, before: seq<byte>, f: int, bytes: seq<byte>)
    requires |before| == memory.Length && 0 <= f && (f + 1) * PageSize <= memory.Length
    requires FrameHolds(memory, f, bytes)
    requires forall p :: 0 <= p < memory.Length && p / PageSize != f ==> memory[p] == before[p]
    ensures memory[..] == UserProcess.Splice(before, f * PageSize, bytes)
  {
    var r := UserProcess.Splice(before, f * PageSize, bytes);
    forall p | 0 <= p < memory.Length ensures memory[p] == r[p] {
      InFrame(f, p);
    }
  }

  /** `after` differs from `before` at most in the bytes [lo, hi). */
  ghost predicate SameExcept(before: seq<byte>, after: seq<byte>, lo: int, hi: int)
  {
    |after| == |before| && forall p :: 0 <= p < |before| && !(lo <= p < hi) ==> after[p] == before[p]
  }

  /** A change inside [lo, hi) after one inside [lo, hi) is still one inside [lo, hi). */
  lemma SameExceptWithin(a: seq<byte>, b: seq<byte>, c: seq<byte>, lo: int, hi: int, lo': int, hi': int)
    requires SameExcept(a, b, lo, hi) && SameExcept(b, c, lo', hi') && lo <= lo' && hi' <= hi
    ensures SameExcept(a, c, lo, hi)
  {
  }

  /** A change inside [lo, mid) followed by one inside [mid, hi) is one inside [lo, hi). */
  lemma SameExceptJoin(a: seq<byte>, b: seq<byte>, c: seq<byte>, lo: int, mid: int, hi: int)
    requires SameExcept(a, b, lo, mid) && SameExcept(b, c, mid, hi) && lo <= mid <= hi
    ensures SameExcept(a, c, lo, hi)
  {
  }

  /** A spliced run lands where it is written and changes no other byte. */
  lemma SpliceRun(m: seq<byte>, at: int, bytes: seq<byte>)
    requires 0 <= at && at + |bytes| <= |m|
    ensures var r := UserProcess.Splice(m, at, bytes); r[at..at + |bytes|] == bytes && SameExcept(m, r, at, at + |bytes|)
  {
    UserProcess.SpliceHolds(m, at, bytes);
  }

  /** What a copy between virtual memory and a kernel buffer did under demand paging. */
  datatype VMTransfer =
    | Finished(t: UserProcess.Transfer)  // returned, or indexed the page table past its end
    | Stalled(count: nat)                // slept in evictionClock with every row pinned, after count bytes

  /** The bytes a copy moved before it returned or stalled. */
  function Moved(r: VMTransfer): nat
  {
    match r
    case Finished(t) => t.count
    case Stalled(c) => c
  }

  /**
   * The entry of read/writeVirtualMemory as written: cvLock is acquired,
   * and an address outside [0, maxVA) returns 0 at once with the lock
   * still held, so the process's next copy waits on a lock no one will
   * release.
   */
  method EnterCopyAsWritten(cvLock: Lock, vaddr: int, numPages: nat) returns (proceed: bool)
    requires !cvLock.held
    modifies cvLock
    ensures proceed <==> 0 <= vaddr < UserProcess.MaxVA(numPages)
    ensures cvLock.held
  {
    cvLock.Acquire();
    var maxVA := UserProcess.MaxVA(numPages);
    if vaddr < 0 || vaddr >= maxVA {
      return false;
    }
    return true;
  }

  /**
   * The entry of read/writeVirtualMemory with the release the early return
   * needs: the lock is held exactly when the copy goes ahead.
   */
  method EnterCopy(cvLock: Lock, vaddr: int, numPages: nat) returns (proceed: bool)
    requires !cvLock.held
    modifies cvLock
    ensures proceed <==> 0 <= vaddr < UserProcess.MaxVA(numPages)
    ensures cvLock.held <==> proceed
  {
    cvLock.Acquire();
    var maxVA := UserProcess.MaxVA(numPages);
    if vaddr < 0 || vaddr >= maxVA {
      cvLock.Release();
      return false;
    }
    return true;
  }

  /**
   * The state VMProcess keeps in static fields (the inverted page table, the
   * clock cursor, the swap-slot allocator), the page tables of the
   * processes, the free-frame pool of the kernel, main memory and the swap
   * file. totalFrames is the number of frames given to paging.
   */
  class PageManager {
    const memory: array<byte>
    const pool: FramePool
    ghost const totalFrames: nat
    var ipt: seq<IPTData>
    var freeSwapList: seq<int>
    var evictPage: int
    var numOfSwap: int
    var swap: map<int, seq<byte>>
    var pageTables: Tables

    /** The swap file and its allocator are well formed. */
    ghost predicate SwapValid()
      reads this
    {
      SwapPages(swap) && SwapAllocator(freeSwapList, numOfSwap)
    }

    /** The swap file and its allocator, as one value. */
    ghost function Swaps(): SwapState
      reads this
    {
      SwapState(swap, freeSwapList, numOfSwap)
    }

    /**
     * The invariant: the bookkeeping is consistent, every frame given to
     * paging is free or held by one row, and the cursor is on the table
     * whenever the pool is empty.
     */
    ghost predicate Valid()
      reads this, pool
    {
      PagingValid(State(), memory.Length, totalFrames)
    }

    /** The paging state the fields and the pool hold. */
    ghost function State(): Paging
      reads this, pool
    {
      Paging(ipt, pageTables, pool.free, Swaps(), evictPage)
    }

    /** The statics start empty: no row, no swap slot, the cursor at 0. */
    constructor (memory: array<byte>, pool: FramePool)
      requires PoolApart([], pool.free) && FramesInMemory([], pool.free, memory.Length)
      ensures Valid() && this.memory == memory && this.pool == pool && totalFrames == |pool.free|
      ensures ipt == [] && freeSwapList == [] && evictPage == 0 && numOfSwap == 0 && swap == map[] && pageTables == map[]
    {
      this.memory := memory;
      this.pool := pool;
      totalFrames := |pool.free|;
      ipt := [];
      freeSwapList := [];
      evictPage := 0;
      numOfSwap := 0;
      swap := map[];
      pageTables := map[];
    }

    /** findIdexOfPPN(ppn): the inverted table scanned from the front for the first row holding the frame, or -1. */
    method FindIndex(ppn: int) returns (idx: int)
      ensures idx == FindIndexOfPPN(ipt, ppn)
    {
      var i := 0;
      while i < |ipt|
        invariant 0 <= i <= |ipt|
        invariant forall j :: 0 <= j < i ==> ipt[j].ppn != ppn
      {
        if ipt[i].ppn == ppn {
          FindIndexIs(ipt, ppn, i);
          return i;
        }
        i := i + 1;
      }
      FindIndexIs(ipt, ppn, -1);
      return -1;
    }

    /** allPinned(): the inverted table scanned for an unpinned row; true when there is none. */
    method AllRowsPinned() returns (b: bool)
      ensures b == AllPinned(ipt)
    {
      var i := 0;
      while i < |ipt|
        invariant 0 <= i <= |ipt|
        invariant forall j :: 0 <= j < i ==> ipt[j].pinned
      {
        if !ipt[i].pinned {
          return false;
        }
        i := i + 1;
      }
      return true;
    }

    /**
     * loadSections: process pid gets a page table of numPages entries, all
     * invalid with vpn and ppn -1 and every flag clear; no frame is taken.
     */
    method LoadSections(pid: Pid, numPages: int) returns (ok: bool)
      requires Valid() && pid !in pageTables && numPages >= 0
      modifies this
      ensures Valid() && ok
      ensures pageTables == old(pageTables)[pid := seq(numPages, _ => InvalidEntry)]
      ensures ipt == old(ipt) && evictPage == old(evictPage) && swap == old(swap)
      ensures freeSwapList == old(freeSwapList) && numOfSwap == old(numOfSwap)
    {
      var pageTable: seq<TranslationEntry> := [];
      for i := 0 to numPages
        invariant pageTable == seq(i, _ => InvalidEntry)
      {
        pageTable := pageTable + [TranslationEntry(-1, -1, false, false, false, false)];
      }
      NewTableKeepsConsistent(ipt, pageTables, pool.free, memory.Length, pid, numPages);
      pageTables := pageTables[pid := pageTable];
      ok := true;
    }

    /**
     * One inspection of the scan at the cursor: a pinned row is skipped, an
     * unpinned used row has its page's used bit cleared, and in both cases
     * the cursor moves on; an unpinned unused row is the victim and the
     * cursor stays on it.
     */
    method InspectRow(ghost pts0: Tables, ghost c0: int, ghost k: nat) returns (taken: bool)
      requires Refs(ipt, pageTables) && 0 <= evictPage < |ipt|
      requires ClockRun(ipt, pts0, c0, k) == ClockState(None, pageTables, evictPage)
      modifies this
      ensures ClockRun(ipt, pts0, c0, k + 1) == ClockState(if taken then Some(evictPage) else None, pageTables, evictPage)
      ensures ipt == old(ipt) && swap == old(swap) && freeSwapList == old(freeSwapList) && numOfSwap == old(numOfSwap)
    {
      ghost var t, c := pageTables, evictPage;
      InspectSteps(ipt, pageTables, evictPage);
      ghost var st := Inspect(ipt, pageTables, evictPage);
      ClockAdvance(ipt, pts0, c0, k, t, c, st);
      var row := ipt[evictPage];
      var entry := pageTables[row.process][row.index];
      if entry.used && !row.pinned {
        pageTables := pageTables[row.process := pageTables[row.process][row.index := entry.(used := false)]];
      } else if !entry.used && !row.pinned {
        return true;
      }
      evictPage := (evictPage + 1) % |ipt|;
      return false;
    }

    /**
     * One pass of the scan: IPT.size() inspections from the cursor, stopping
     * at the first victim. `k` counts the inspections of the whole scan so
     * far; a pass without a victim adds exactly IPT.size() of them.
     */
    method ClockPass(ghost ipt0: seq<IPTData>, ghost pts0: Tables, ghost c0: int, ghost base: nat)
      returns (taken: bool, ghost k: nat)
      requires Refs(ipt0, pts0) && ipt == ipt0 && (|ipt| > 0 ==> 0 <= c0 < |ipt|)
      requires ClockRun(ipt0, pts0, c0, base) == ClockState(None, pageTables, evictPage)
      modifies this
      ensures base <= k <= base + |ipt| && (!taken ==> k == base + |ipt|)
      ensures ClockRun(ipt0, pts0, c0, k) == ClockState(if taken then Some(evictPage) else None, pageTables, evictPage)
      ensures ipt == old(ipt) && swap == old(swap) && freeSwapList == old(freeSwapList) && numOfSwap == old(numOfSwap)
    {
      var counter := |ipt|;
      var i := 0;
      k := base;
      while i < counter
        invariant 0 <= i <= counter && k == base + i
        invariant ClockRun(ipt0, pts0, c0, k) == ClockState(None, pageTables, evictPage)
        invariant ipt == ipt0 && swap == old(swap) && freeSwapList == old(freeSwapList) && numOfSwap == old(numOfSwap)
      {
        assert Refs(ipt, pageTables) && 0 <= evictPage < |ipt| by {
          ClockRunKeeps(ipt0, pts0, c0, k);
        }
        taken := InspectRow(pts0, c0, k);
        k := k + 1;
        if taken {
          return;
        }
        i := i + 1;
      }
      taken := false;
    }

    /**
     * The scan of evictionClock, entered with the pool empty: passes of
     * IPT.size() inspections from the cursor, until a victim is taken, the
     * returned row with the cursor on it. When a pass ends with every row
     * pinned the thread would sleep on the condition variable: None is
     * returned, nothing having changed.
     */
    method RunClock() returns (v: Option<int>)
      requires Refs(ipt, pageTables) && (|ipt| > 0 ==> 0 <= evictPage < |ipt|)
      modifies this
      ensures var st := Scan(old(ipt), old(pageTables), old(evictPage));
        v == st.victim && pageTables == st.tables && evictPage == st.cursor
      ensures ipt == old(ipt) && swap == old(swap) && freeSwapList == old(freeSwapList) && numOfSwap == old(numOfSwap)
    {
      ghost var ipt0, pts0, c0 := ipt, pageTables, evictPage;
      ghost var passes, base := 0, 0;
      assert ClockRun(ipt0, pts0, c0, 0) == ClockState(None, pageTables, evictPage);
      while true
        invariant 0 <= passes <= 1 && base == passes * |ipt0|
        invariant passes == 1 ==> !AllPinned(ipt0)
        invariant ClockRun(ipt0, pts0, c0, base) == ClockState(None, pageTables, evictPage)
        invariant ipt == ipt0 && swap == old(swap) && freeSwapList == old(freeSwapList) && numOfSwap == old(numOfSwap)
        decreases 2 - passes
      {
        var taken, k := ClockPass(ipt0, pts0, c0, base);
        if taken {
          assert Scan(ipt0, pts0, c0) == ClockState(Some(evictPage), pageTables, evictPage) by {
            ClockRunKeeps(ipt0, pts0, c0, k);
            VictimStays(ipt0, pts0, c0, k, 2 * |ipt0|);
          }
          return Some(evictPage);
        }
        var allPinned := AllRowsPinned();
        if allPinned {
          assert Scan(ipt0, pts0, c0) == ClockState(None, pageTables, evictPage) by {
            if |ipt0| > 0 {
              AllPinnedPass(ipt0, pts0, c0);
            }
          }
          return None;
        }
        if passes == 1 {
          VictimWithinTwoPasses(ipt0, pts0, c0);
          assert false;
        }
        passes, base := passes + 1, k;
      }
    }

    /**
     * The victim branch of evictionClock, at the row under the cursor: its
     * page's entry becomes invalid; a dirty page is written to a slot (the
     * head of freeSwapList, else a new one at the end of the file) that its
     * entry then holds in its vpn field; the cursor moves past the row and
     * the frame the entry mapped is returned.
     */
    method EvictVictim() returns (ppn: int)
      requires Consistent(ipt, pageTables, pool.free, memory.Length) && 0 <= evictPage < |ipt|
      modifies this
      ensures Eviction(Victim(ppn), State()) == EvictAt(old(State()), memory[..])
    {
      var row := ipt[evictPage];
      assert RowRefers(ipt, pageTables, evictPage) && InMemory(row.ppn, memory.Length);
      var entry := pageTables[row.process][row.index];
      ppn := entry.ppn;
      entry := entry.(valid := false);
      if entry.dirty {
        var buffer := UserProcess.FrameBytes(memory[..], ppn);
        var slot;
        if |freeSwapList| != 0 {
          slot := freeSwapList[0];
          freeSwapList := freeSwapList[1..];
        } else {
          slot := numOfSwap;
          numOfSwap := numOfSwap + 1;
        }
        swap := swap[slot := buffer];
        entry := entry.(vpn := slot);
      }
      pageTables := pageTables[row.process := pageTables[row.process][row.index := entry]];
      evictPage := (evictPage + 1) % |ipt|;
    }

    /**
     * evictionClock: with a free frame in the pool nothing happens and -1
     * (NoEviction) is returned. Otherwise the clock scans for a victim;
     * when every row is pinned the thread sleeps (EvictBlocked) with nothing
     * changed, and else the victim found by the scan is evicted.
     */
    method EvictionClock() returns (r: EvictResult)
      requires Valid()
      modifies this
      ensures Eviction(r, State()) == EvictStep(old(State()), memory[..])
    {
      if |pool.free| != 0 {
        return NoEviction;
      }
      ghost var pts0 := pageTables;
      ScanResult(ipt, pageTables, evictPage);
      var v := RunClock();
      if v.None? {
        return EvictBlocked;
      }
      ClearingKeepsConsistent(ipt, pts0, pageTables, pool.free, memory.Length);
      var ppn := EvictVictim();
      r := Victim(ppn);
    }

    /**
     * The search of loadPage's section path: sections in order, and in each
     * its pages in order, until the one that is page vpn.
     */
    static method LocateSectionPage(sections: seq<Section>, vpn: int) returns (s: int, i: int)
      ensures s == SectionOf(sections, vpn)
      ensures s >= 0 ==> i == vpn - sections[s].firstVPN
    {
      s := 0;
      while s < |sections|
        invariant 0 <= s <= |sections|
        invariant forall k :: 0 <= k < s ==> !Covers(sections[k], vpn)
      {
        i := 0;
        while i < sections[s].length
          invariant 0 <= i && (sections[s].length >= 0 ==> i <= sections[s].length)
          invariant !(sections[s].firstVPN <= vpn < sections[s].firstVPN + i)
        {
          if vpn == sections[s].firstVPN + i {
            return;
          }
          i := i + 1;
        }
        s := s + 1;
      }
      s, i := -1, 0;
    }

    /**
     * The three ways loadPage fills frame ppn with page vpn of process pid
     * and updates the page's entry: a dirty page is read back from the swap
     * slot its entry holds, a page of a section is loaded from the
     * executable, and any other page is zero-filled.
     */
    method FillFrame(pid: Pid, vpn: int, ppn: int, sections: seq<Section>)
      requires pid in pageTables && 0 <= vpn < |pageTables[pid]| && InMemory(ppn, memory.Length)
      requires UserProcess.AllWellFormed(sections) && SwapPages(swap)
      modifies this, memory
      ensures var e := old(pageTables)[pid][vpn]; var src := PageSource(e, sections, vpn);
        pageTables == SetEntry(old(pageTables), pid, vpn, LoadedEntry(e, ppn, src, sections)) &&
        FrameHolds(memory, ppn, SourceBytes(src, swap, sections))
      ensures forall p :: 0 <= p < memory.Length && p / PageSize != ppn ==> memory[p] == old(memory[p])
      ensures ipt == old(ipt) && Swaps() == old(Swaps()) && evictPage == old(evictPage)
    {
      SectionSourceInRange(pageTables[pid][vpn], sections, vpn);
      var entry := pageTables[pid][vpn];
      if entry.dirty {
        var buffer := SwapPage(swap, entry.vpn);
        CopyToFrame(memory, ppn, buffer);
        entry := entry.(valid := true, used := true, ppn := ppn);
      } else {
        var s, i := LocateSectionPage(sections, vpn);
        if s >= 0 {
          entry := entry.(readOnly := sections[s].readOnly, valid := true, used := true, dirty := false, ppn := ppn);
          CopyToFrame(memory, ppn, sections[s].pages[i]);
        } else {
          entry := entry.(readOnly := false, used := true, valid := true, dirty := false, ppn := ppn);
          CopyToFrame(memory, ppn, ZeroPage());
        }
      }
      pageTables := pageTables[pid := pageTables[pid][vpn := entry]];
    }

    /**
     * The inverted-table update of loadPage: after an eviction the row
     * holding the frame is handed to the page, otherwise a new unpinned row
     * for it is appended.
     */
    method RecordFrame(ppn: int, pid: Pid, vpn: int, iptFull: bool)
      requires iptFull ==> FindIndexOfPPN(ipt, ppn) >= 0
      modifies this
      ensures iptFull ==> ipt == Handover(old(ipt), FindIndexOfPPN(old(ipt), ppn), pid, vpn)
      ensures !iptFull ==> ipt == old(ipt) + [IPTData(ppn, vpn, pid, false)]
      ensures pageTables == old(pageTables) && Swaps() == old(Swaps()) && evictPage == old(evictPage)
    {
      if iptFull {
        var idx := FindIndex(ppn);
        ipt := ipt[idx := IPTData(ppn, vpn, pid, false)];
      } else {
        var data := IPTData(ppn, vpn, pid, false);
        ipt := ipt + [data];
      }
    }

    /**
     * loadPage for page vpn of process pid, which is not resident: the
     * frame is the head of the free pool when evictionClock returned -1,
     * else the victim's frame; it is filled as FillFrame says and recorded
     * in the inverted table. The state afterwards is the one LoadStep gives,
     * and the frame, and no other, holds the page's bytes.
     */
    method LoadPage(pid: Pid, vpn: int, sections: seq<Section>) returns (r: LoadResult)
      requires Valid() && pid in pageTables && 0 <= vpn < |pageTables[pid]| && !pageTables[pid][vpn].valid
      requires UserProcess.AllWellFormed(sections)
      modifies this, pool, memory
      ensures Valid()
      ensures var l := LoadStep(old(State()), old(memory[..]), pid, vpn, sections);
        r == l.result && State() == l.state &&
        (r == LoadBlocked ==> memory[..] == old(memory[..])) &&
        (r == PageLoaded ==> (|l.bytes| == PageSize && InMemory(l.ppn, memory.Length) &&
          memory[..] == UserProcess.Splice(old(memory[..]), l.ppn * PageSize, l.bytes)))
    {
      ghost var s0, mem0 := State(), memory[..];
      LoadStepKeepsValid(s0, mem0, pid, vpn, sections, totalFrames);
      EvictStepShape(s0, mem0);
      EvictStepReady(s0, mem0, totalFrames);
      var removed := EvictionClock();
      if removed == EvictBlocked {
        return LoadBlocked;
      }
      var ppn;
      if removed == NoEviction {
        ppn := pool.GetNextFreePage();
      } else {
        ppn := removed.ppn;
      }
      var iptFull := removed.Victim?;
      ghost var e := pageTables[pid][vpn];
      FillFrame(pid, vpn, ppn, sections);
      FrameSplice(memory, mem0, ppn, SourceBytes(PageSource(e, sections, vpn), swap, sections));
      RecordFrame(ppn, pid, vpn, iptFull);
      r := PageLoaded;
    }

    /**
     * The loop of unloadSections: for each resident page of process pid, in
     * page order, its frame goes back to the pool and the row holding it
     * leaves the inverted table.
     */
    method ReleaseFrames(pid: Pid)
      requires Consistent(ipt, pageTables, pool.free, memory.Length) && pid in pageTables
      modifies this, pool
      ensures ipt == Without(old(ipt), Frames(old(pageTables[pid])))
      ensures pool.free == old(pool.free) + Frames(old(pageTables[pid]))
      ensures |ipt| + |pool.free| == old(|ipt| + |pool.free|)
      ensures pageTables == old(pageTables) && Swaps() == old(Swaps()) && evictPage == old(evictPage)
    {
      ghost var ipt0: seq<IPTData>, pts0: Tables, free0: seq<int> := ipt, pageTables, pool.free;
      var table := pageTables[pid];
      UnloadStart(ipt0, table);
      var i := 0;
      while i < |table|
        invariant 0 <= i <= |table|
        invariant ipt == Without(ipt0, Frames(table[..i]))
        invariant pool.free == free0 + Frames(table[..i])
        invariant |ipt| + |pool.free| == |ipt0| + |free0|
        invariant pageTables == pts0 && Swaps() == old(Swaps()) && evictPage == old(evictPage)
      {
        UnloadStep(ipt0, pts0, free0, memory.Length, pid, i);
        if table[i].valid {
          ReleaseFrame(table[i].ppn);
        }
        i := i + 1;
      }
      assert table[..|table|] == table;
    }

    /** One frame of unloadSections: it goes back to the pool and the row holding it leaves the inverted table. */
    method ReleaseFrame(ppn: int)
      requires 0 <= FindIndexOfPPN(ipt, ppn) < |ipt|
      modifies this, pool
      ensures pool.free == old(pool.free) + [ppn]
      ensures var idx := FindIndexOfPPN(old(ipt), ppn); ipt == old(ipt)[..idx] + old(ipt)[idx + 1..]
      ensures pageTables == old(pageTables) && Swaps() == old(Swaps()) && evictPage == old(evictPage)
    {
      pool.AddFreePage(ppn);
      var idx := FindIndex(ppn);
      ipt := ipt[..idx] + ipt[idx + 1..];
    }

    /**
     * unloadSections: the process's frames go back to the pool and their
     * rows leave the inverted table; the process's page table is then
     * dropped.
     */
    method UnloadSections(pid: Pid)
      requires Valid() && pid in pageTables
      modifies this, pool
      ensures Valid()
      ensures ipt == Without(old(ipt), Frames(old(pageTables[pid])))
      ensures pool.free == old(pool.free) + Frames(old(pageTables[pid]))
      ensures pageTables == old(pageTables) - {pid}
      ensures Swaps() == old(Swaps()) && evictPage == old(evictPage)
    {
      UnloadKeepsConsistent(ipt, pageTables, pool.free, memory.Length, pid);
      ReleaseFrames(pid);
      pageTables := pageTables - {pid};
    }

    /** Setting the pinned flag of the row holding frame ppn; nothing else changes. */
    method Pin(ppn: int, b: bool)
      requires Valid()
      modifies this
      ensures Valid() && State() == old(State()).(ipt := SetPin(old(ipt), ppn, b))
    {
      PinKeepsValid(State(), memory.Length, totalFrames, ppn, b);
      ipt := SetPin(ipt, ppn, b);
    }

    /**
     * The fault-in of one round of read/writeVirtualMemory, as FaultIn
     * says: the row of the frame the entry names is pinned, and a page that
     * is not resident is loaded and the row of its new frame pinned. loaded
     * is false when loadPage slept. Memory changes only when a page is
     * loaded, and then only in its frame.
     */
    method PinAndLoad(pid: Pid, vpn: int, sections: seq<Section>) returns (loaded: bool, ppn: int)
      requires Valid() && pid in pageTables && 0 <= vpn < |pageTables[pid]| && UserProcess.AllWellFormed(sections)
      modifies this, pool, memory
      ensures Valid()
      ensures var l := FaultIn(old(State()), old(memory[..]), pid, vpn, sections);
        (loaded <==> l.result == PageLoaded) && (loaded ==> ppn == l.ppn) && State() == l.state
      ensures SameShape(old(pageTables), pageTables)
      ensures var l := FaultIn(old(State()), old(memory[..]), pid, vpn, sections);
        if loaded && !old(pageTables[pid][vpn].valid) then
          |l.bytes| == PageSize && InMemory(ppn, memory.Length) &&
          memory[..] == UserProcess.Splice(old(memory[..]), ppn * PageSize, l.bytes)
        else memory[..] == old(memory[..])
    {
      ghost var s0: Paging, mem0: seq<byte> := State(), memory[..];
      FaultInKeepsValid(s0, mem0, pid, vpn, sections, totalFrames);
      var entry := pageTables[pid][vpn];
      Pin(entry.ppn, true);
      if entry.valid {
        assert FaultIn(s0, mem0, pid, vpn, sections) == Loading(PageLoaded, State(), entry.ppn, []);
        return true, entry.ppn;
      }
      ghost var s1: Paging := State();
      var r := LoadPage(pid, vpn, sections);
      ghost var l1: Loading := LoadStep(s1, mem0, pid, vpn, sections);
      if r == LoadBlocked {
        assert FaultIn(s0, mem0, pid, vpn, sections) == l1;
        return false, entry.ppn;
      }
      LoadStepMaps(s1, mem0, pid, vpn, sections);
      ppn := pageTables[pid][vpn].ppn;
      Pin(ppn, true);
      assert FaultIn(s0, mem0, pid, vpn, sections) == Loading(PageLoaded, State(), l1.ppn, l1.bytes);
      loaded := true;
    }

    /**
     * The fault-in of a round as the copy relies on it: the invariant and
     * the page tables' shape are kept; when the page was loaded it is
     * resident in frame ppn, which lies in memory and whose row is pinned,
     * and memory has changed at most in that frame; otherwise memory is as
     * it was.
     */
    method FaultPage(pid: Pid, vpn: int, sections: seq<Section>) returns (loaded: bool, ppn: int)
      requires Valid() && pid in pageTables && 0 <= vpn < |pageTables[pid]| && UserProcess.AllWellFormed(sections)
      modifies this, pool, memory
      ensures Valid() && SameShape(old(pageTables), pageTables)
      ensures var l := FaultIn(old(State()), old(memory[..]), pid, vpn, sections);
        (loaded <==> l.result == PageLoaded) && (loaded ==> ppn == l.ppn) && State() == l.state
      ensures loaded ==> (pageTables[pid][vpn].valid && pageTables[pid][vpn].ppn == ppn && InMemory(ppn, memory.Length) &&
        var idx := FindIndexOfPPN(ipt, ppn); 0 <= idx < |ipt| && ipt[idx].pinned)
      ensures if loaded then SameExcept(old(memory[..]), memory[..], ppn * PageSize, ppn * PageSize + PageSize)
        else memory[..] == old(memory[..])
    {
      ghost var s0: Paging, mem0: seq<byte> := State(), memory[..];
      FaultInResident(s0, mem0, pid, vpn, sections, totalFrames);
      ghost var wasValid := pageTables[pid][vpn].valid;
      loaded, ppn := PinAndLoad(pid, vpn, sections);
      if loaded && !wasValid {
        SpliceRun(mem0, ppn * PageSize, FaultIn(s0, mem0, pid, vpn, sections).bytes);
      }
    }

    /**
     * One round of readVirtualMemory's loop on the page of va: fault the
     * page in, copy n bytes from its frame ppn, from in-page offset
     * va % pageSize on, into data[off..], then unpin the frame's row. Memory
     * changes at most in that frame, and no byte of data outside
     * data[off..off + n) changes.
     */
    method ReadChunk(pid: Pid, va: int, data: array<byte>, off: int, n: int, sections: seq<Section>)
      returns (loaded: bool, ppn: int)
      requires Valid() && pid in pageTables && 0 <= va && va / PageSize < |pageTables[pid]|
      requires UserProcess.AllWellFormed(sections)
      requires 0 < n <= PageSize - va % PageSize && 0 <= off && off + n <= data.Length && data != memory
      modifies this, pool, memory, data
      ensures Valid() && SameShape(old(pageTables), pageTables)
      ensures loaded ==> (pageTables[pid][va / PageSize].valid && pageTables[pid][va / PageSize].ppn == ppn &&
        InMemory(ppn, memory.Length) &&
        data[off..off + n] == memory[ppn * PageSize + va % PageSize..ppn * PageSize + va % PageSize + n])
      ensures if loaded then SameExcept(old(memory[..]), memory[..], ppn * PageSize, ppn * PageSize + PageSize)
        else memory[..] == old(memory[..])
      ensures !loaded ==> data[..] == old(data[..])
      ensures SameExcept(old(data[..]), data[..], off, off + n)
    {
      loaded, ppn := FaultPage(pid, va / PageSize, sections);
      if !loaded {
        return;
      }
      CopyOutAndUnpin(ppn, va % PageSize, data, off, n);
    }

    /** The copy of one round of readVirtualMemory from frame ppn, and the unpinning of its row. */
    method CopyOutAndUnpin(ppn: int, o: int, data: array<byte>, off: int, n: int)
      requires Valid() && InMemory(ppn, memory.Length) && 0 <= o && 0 < n <= PageSize - o
      requires 0 <= off && off + n <= data.Length && data != memory
      modifies this, data
      ensures Valid() && State() == old(State()).(ipt := SetPin(old(ipt), ppn, false))
      ensures data[off..off + n] == memory[ppn * PageSize + o..ppn * PageSize + o + n]
      ensures SameExcept(old(data[..]), data[..], off, off + n)
    {
      UserProcess.ArrayCopy(memory, ppn * PageSize + o, data, off, n);
      assert data[off..off + n] == memory[ppn * PageSize + o..ppn * PageSize + o + n];
      Pin(ppn, false);
    }

    /**
     * One round of writeVirtualMemory's loop on the page of va: fault the
     * page in, copy n bytes of data[off..] into its frame ppn from in-page
     * offset va % pageSize on, then unpin the frame's row. Memory changes
     * at most in that frame. The entry's dirty bit is left as it was.
     */
    method WriteChunk(pid: Pid, va: int, data: array<byte>, off: int, n: int, sections: seq<Section>)
      returns (loaded: bool, ppn: int)
      requires Valid() && pid in pageTables && 0 <= va && va / PageSize < |pageTables[pid]|
      requires UserProcess.AllWellFormed(sections)
      requires 0 < n <= PageSize - va % PageSize && 0 <= off && off + n <= data.Length && data != memory
      modifies this, pool, memory
      ensures Valid() && SameShape(old(pageTables), pageTables)
      ensures loaded ==> (pageTables[pid][va / PageSize].valid && pageTables[pid][va / PageSize].ppn == ppn &&
        InMemory(ppn, memory.Length) &&
        memory[ppn * PageSize + va % PageSize..ppn * PageSize + va % PageSize + n] == data[off..off + n] &&
        SameExcept(old(memory[..]), memory[..], ppn * PageSize, ppn * PageSize + PageSize))
      ensures !loaded ==> memory[..] == old(memory[..])
    {
      ghost var mem0: seq<byte> := memory[..];
      loaded, ppn := FaultPage(pid, va / PageSize, sections);
      if !loaded {
        return;
      }
      ghost var mem1: seq<byte> := memory[..];
      CopyInAndUnpin(ppn, va % PageSize, data, off, n);
      SameExceptWithin(mem0, mem1, memory[..], ppn * PageSize, ppn * PageSize + PageSize,
                       ppn * PageSize + va % PageSize, ppn * PageSize + va % PageSize + n);
    }

    /** The copy of one round of writeVirtualMemory into frame ppn, and the unpinning of its row. */
    method CopyInAndUnpin(ppn: int, o: int, data: array<byte>, off: int, n: int)
      requires Valid() && InMemory(ppn, memory.Length) && 0 <= o && 0 < n <= PageSize - o
      requires 0 <= off && off + n <= data.Length && data != memory
      modifies this, memory
      ensures Valid() && State() == old(State()).(ipt := SetPin(old(ipt), ppn, false))
      ensures memory[ppn * PageSize + o..ppn * PageSize + o + n] == data[off..off + n]
      ensures SameExcept(old(memory[..]), memory[..], ppn * PageSize + o, ppn * PageSize + o + n)
    {
      UserProcess.ArrayCopy(data, off, memory, ppn * PageSize + o, n);
      assert memory[ppn * PageSize + o..ppn * PageSize + o + n] == data[off..off + n];
      Pin(ppn, false);
    }

    /**
     * readVirtualMemory(vaddr, data, offset, length) of process pid under
     * demand paging. The count is the one the address space allows
     * (Clipped), unless a fault-in sleeps first; the lock is released when
     * the copy returns normally, and bytes of data outside the ones moved
     * are untouched.
     */
    method ReadVirtualMemory(pid: Pid, cvLock: Lock, vaddr: int, data: array<byte>, offset: int, length: int,
                             sections: seq<Section>) returns (r: VMTransfer)
      requires Valid() && pid in pageTables && UserProcess.AllWellFormed(sections) && !cvLock.held
      requires 0 <= offset && 0 <= length && offset + length <= data.Length && data != memory
      modifies this, pool, memory, data, cvLock
      ensures Valid() && pid in pageTables && |pageTables[pid]| == old(|pageTables[pid]|)
      ensures r.Finished? ==> r.t == UserProcess.Clipped(vaddr, length, old(|pageTables[pid]|))
      ensures r.Stalled? ==> r.count <= UserProcess.Clipped(vaddr, length, old(|pageTables[pid]|)).count
      ensures !cvLock.held <==> r.Finished? && r.t.Copied?
      ensures SameExcept(old(data[..]), data[..], offset, offset + Moved(r))
    {
      var np := |pageTables[pid]|;
      var maxVA := UserProcess.MaxVA(np);
      var proceed := EnterCopy(cvLock, vaddr, np);
      if !proceed {
        return Finished(UserProcess.Copied(0));
      }
      ghost var goal := UserProcess.Clipped(vaddr, length, np);
      var remaining := length;
      var totalRead := 0;
      var va, off := vaddr, offset;
      while remaining > 0
        invariant 0 <= remaining <= length && totalRead == length - remaining
        invariant va == vaddr + totalRead && off == offset + totalRead
        invariant 0 <= va < maxVA
        invariant goal == UserProcess.Plus(totalRead, UserProcess.Clipped(va, remaining, np))
        invariant Valid() && pid in pageTables && |pageTables[pid]| == np && cvLock.held
        invariant SameExcept(old(data[..]), data[..], offset, off)
        decreases remaining
      {
        if va / PageSize >= |pageTables[pid]| {
          UserProcess.FaultStep(goal, totalRead, va, remaining, np);
          return Finished(UserProcess.Faulted(totalRead));
        }
        var leftToRead := Min(Min(length, PageSize - va % PageSize), remaining);
        UserProcess.ClippedStep(goal, totalRead, va, remaining, length, np, leftToRead);
        ghost var before: seq<byte> := data[..];
        var loaded, _ := ReadChunk(pid, va, data, off, leftToRead, sections);
        SameExceptJoin(old(data[..]), before, data[..], offset, off, off + leftToRead);
        if !loaded {
          return Stalled(totalRead);
        }
        remaining := remaining - leftToRead;
        totalRead := totalRead + leftToRead;
        va := va + leftToRead;
        off := off + leftToRead;
        if va < 0 || va >= maxVA {
          cvLock.Release();
          return Finished(UserProcess.Copied(totalRead));
        }
      }
      cvLock.Release();
      return Finished(UserProcess.Copied(totalRead));
    }

    /**
     * writeVirtualMemory(vaddr, data, offset, length) of process pid under
     * demand paging: the count is the one the address space allows, unless
     * a fault-in sleeps first, and the lock is released when the copy
     * returns normally.
     */
    method WriteVirtualMemory(pid: Pid, cvLock: Lock, vaddr: int, data: array<byte>, offset: int, length: int,
                              sections: seq<Section>) returns (r: VMTransfer)
      requires Valid() && pid in pageTables && UserProcess.AllWellFormed(sections) && !cvLock.held
      requires 0 <= offset && 0 <= length && offset + length <= data.Length && data != memory
      modifies this, pool, memory, cvLock
      ensures Valid() && pid in pageTables && |pageTables[pid]| == old(|pageTables[pid]|)
      ensures r.Finished? ==> r.t == UserProcess.Clipped(vaddr, length, old(|pageTables[pid]|))
      ensures r.Stalled? ==> r.count <= UserProcess.Clipped(vaddr, length, old(|pageTables[pid]|)).count
      ensures !cvLock.held <==> r.Finished? && r.t.Copied?
    {
      var np := |pageTables[pid]|;
      var maxVA := UserProcess.MaxVA(np);
      var proceed := EnterCopy(cvLock, vaddr, np);
      if !proceed {
        return Finished(UserProcess.Copied(0));
      }
      ghost var goal := UserProcess.Clipped(vaddr, length, np);
      var remaining := length;
      var totalWrote := 0;
      var va, off := vaddr, offset;
      while remaining > 0
        invariant 0 <= remaining <= length && totalWrote == length - remaining
        invariant va == vaddr + totalWrote && off == offset + totalWrote
        invariant 0 <= va < maxVA
        invariant goal == UserProcess.Plus(totalWrote, UserProcess.Clipped(va, remaining, np))
        invariant Valid() && pid in pageTables && |pageTables[pid]| == np && cvLock.held
        decreases remaining
      {
        if va / PageSize >= |pageTables[pid]| {
          UserProcess.FaultStep(goal, totalWrote, va, remaining, np);
          return Finished(UserProcess.Faulted(totalWrote));
        }
        var leftToWrite := Min(Min(length, PageSize - va % PageSize), remaining);
        UserProcess.ClippedStep(goal, totalWrote, va, remaining, length, np, leftToWrite);
        var loaded, _ := WriteChunk(pid, va, data, off, leftToWrite, sections);
        if !loaded {
          return Stalled(totalWrote);
        }
        remaining := remaining - leftToWrite;
        totalWrote := totalWrote + leftToWrite;
        off := off + leftToWrite;
        va := va + leftToWrite;
        if va < 0 || va >= maxVA {
          cvLock.Release();
          return Finished(UserProcess.Copied(totalWrote));
        }
      }
      cvLock.Release();
      return Finished(UserProcess.Copied(totalWrote));
    }
  }
}
