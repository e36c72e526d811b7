/** The totals: what every counter and record of the statistics adds up to over a run. */
module MwTotals {
  import opened MwAccounting
  import opened MwBlock
  import opened MwGuarantees
  import opened MwLedger
  import opened MwStatLaws
  import opened MwStats
  import opened Basics

  // ----- one booking

  /** The record for `file` and `line`; a missing one counts for nothing. */
  function RecordOf(stats: seq<Stat>, file: Name, line: int): Stat {
    var i := FindStat(stats, file, line);
    if i < |stats| then stats[i] else Stat(file, line, 0, 0, 0, 0)
  }

  /** `t` is `s` with one allocation of `size` bytes added, whatever was released since. */
  predicate Grew(s: Stat, t: Stat, size: int) {
    t.total == s.total + size && t.num == s.num + 1 && t.max == Max(s.max, s.curr + size)
  }

  /** But for the bytes in use, `t` is `s`. */
  predicate Stays(s: Stat, t: Stat) {
    t.total == s.total && t.num == s.num && t.max == s.max
  }

  lemma {:induction false} RecordAfter(stats: seq<Stat>, i: nat, x: Stat, f: Name, l: int)
    requires i < |stats| && FindStat(stats, stats[i].file, stats[i].line) == i
    requires x.file == stats[i].file && x.line == stats[i].line
    ensures RecordOf(stats[i := x], f, l) ==
      if f == x.file && l == x.line then x else RecordOf(stats, f, l)
  {
    SameFind(stats, stats[i := x], f, l);
  }

  /** A booking touches one record: an allocation is added to it, a release takes only its bytes off. */
  lemma BookRecord(stats: seq<Stat>, e: Entry, size: int, file: Name, line: int, ok: bool, f: Name, l: int)
    ensures var s, t := RecordOf(stats, f, l), RecordOf(Book(stats, e, size, file, line, ok), f, l);
      if f == file && l == line && e == Gain && (ok || Has(stats, file, line)) then Grew(s, t, size) else Stays(s, t)
    ensures f != file || l != line ==>
      RecordOf(Book(stats, e, size, file, line, ok), f, l) == RecordOf(stats, f, l)
  {
    hide FindStat;
    var s := Ensured(stats, file, line, ok);
    var i := FindStat(s, file, line);
    EnsuredRecord(stats, file, line, ok, f, l);
    if i < |s| {
      RecordAfter(s, i, Booked(s[i], e, size), f, l);
    }
  }

  lemma EnsuredRecord(stats: seq<Stat>, file: Name, line: int, ok: bool, f: Name, l: int)
    ensures var s := Ensured(stats, file, line, ok);
      RecordOf(s, f, l) == RecordOf(stats, f, l) && (Has(s, file, line) <==> ok || Has(stats, file, line))
  {
    var s := Ensured(stats, file, line, ok);
    assert s == stats || s[1..] == stats;
  }

  /** The records an allocation on `file` and `line` is booked on. */
  predicate Hits(level: nat, file: Name, line: int, f: Name, l: int) {
    f == file && (l == MODULE_LINE || (level > 1 && file.Some? && l == line))
  }

  lemma BothRecords(stats: seq<Stat>, level: nat, size: int, file: Name, line: int, f: Name, l: int)
    ensures var s := RecordOf(stats, f, l);
      var t := RecordOf(BookBoth(stats, level, Gain, size, file, line, true, true), f, l);
      if Hits(level, file, line, f, l) then Grew(s, t, size) else Stays(s, t)
  {
    hide Book, RecordOf;
    var m := Book(stats, Gain, size, file, MODULE_LINE, true);
    BookRecord(stats, Gain, size, file, MODULE_LINE, true, f, l);
    BookRecord(m, Gain, size, file, line, true, f, l);
  }

  lemma LossRecords(stats: seq<Stat>, level: nat, size: int, file: Name, line: int, ok1: bool, ok2: bool, f: Name,
                    l: int)
    ensures Stays(RecordOf(stats, f, l), RecordOf(BookBoth(stats, level, Loss, size, file, line, ok1, ok2), f, l))
  {
    hide Book, RecordOf;
    BookRecord(stats, Loss, size, file, MODULE_LINE, ok1, f, l);
    BookRecord(Book(stats, Loss, size, file, MODULE_LINE, ok1), Loss, size, file, line, ok2, f, l);
  }

  // ----- one call

  /** The block a call asks for. */
  datatype Ask = Ask(size: Size, file: Name, line: int)

  function AskOf(op: Op): Option<Ask> {
    match op
    case OpMalloc(size, file, line, _) => Some(Ask(size, file, line))
    case OpCalloc(a, b, file, line, _) => Some(Ask((a * b) % SIZE_LIMIT, file, line))
    case OpRealloc(_, size, file, line, _) => Some(Ask(size, file, line))
    case _ => None
  }

  /** The blocks handed out by a call. */
  function Handing(s: State, op: Op): seq<Ask> {
    if HandedOut(s, op) != 0 && AskOf(op).Some? then [AskOf(op).value] else []
  }

  /** What the counters say after the blocks `asks` were handed out one at a time. */
  predicate Advanced(s: State, asks: seq<Ask>, t: State)
    requires |asks| <= 1
  {
    if asks == [] then t.statTot == s.statTot && t.statNum == s.statNum && t.statMax == s.statMax
    else
      var n := asks[0].size;
      t.statTot == s.statTot + n && t.statNum == s.statNum + 1 && t.statMax == Max(s.statMax, s.statCur + n)
  }

  lemma MallocTallies(s: State, size: Size, file: Name, line: int, o: MallocOracle)
    requires Balanced(s) && Grants(s, size, o)
    ensures var (t, addr) := Malloc(s, size, file, line, o);
      Advanced(s, if addr != 0 then [Ask(size, file, line)] else [], t)
  {
    hide Balanced, Malloc, Grants, Shed, Find, LiveAt;
    MallocIs(s, size, file, line, o);
  }

  lemma FreeTallies(s: State, p: int, file: Name, line: int, o: BookOracle)
    ensures var t := Free(s, p, file, line, o).0;
      t.statTot == s.statTot && t.statNum == s.statNum && t.statMax == s.statMax
  {
    hide BookAll, Shed, GuardErrors;
    if file.Some? && p != 0 && Owned(s.chain, p) && !s.chain[Find(s.chain, p)].nml {
      FreeIs(s, s.chain[Find(s.chain, p)], file, line, o);
    }
  }

  lemma ReallocTallies(s: State, p: int, size: Size, file: Name, line: int, o: ReallocOracle)
    requires Balanced(s) && Grants(s, size, o.malloc)
    ensures var (t, addr) := Realloc(s, p, size, file, line, o);
      Advanced(s, if addr != 0 then [Ask(size, file, line)] else [], t)
  {
    hide Balanced, Malloc, Free, Grants, Find, Patch, Payload0;
    MallocTallies(s, size, file, line, o.malloc);
    FreeTallies(s, p, file, line, o.free);
    if Owned(s.chain, p) {
      var r, s0 := s.chain[Find(s.chain, p)], s.(useLimit := false);
      SameBooksKeep(s, s0);
      SameGrants(s, s0, size, o.malloc);
      MallocTallies(s0, size, file, line, o.malloc);
      var (t, addr) := Malloc(s0, size, file, line, o.malloc);
      FreeTallies(t.(chain := Patch(t.chain, addr, 0, Payload0(r, Min(size, r.size)))), p, file, line, o.free);
    }
  }

  lemma StepTallies(s: State, op: Op)
    requires Proper(s) && Allowed(s, op) && s.inited > 0
    ensures Advanced(s, Handing(s, op), Step(s, op))
  {
    hide Balanced, Malloc, Free, Realloc, Grants, Patch, Returnable;
    ReadyIs(s, op);
    match op {
      case OpMalloc(size, file, line, o) => MallocTallies(s, size, file, line, o);
      case OpCalloc(a, b, file, line, o) => MallocTallies(s, (a * b) % SIZE_LIMIT, file, line, o);
      case OpRealloc(p, size, file, line, o) => ReallocTallies(s, p, size, file, line, o);
      case OpFree(p, file, line, o) => FreeTallies(s, p, file, line, o);
      case _ =>
    }
  }

  // ----- runs

  /** The blocks handed out in a run, in order. */
  function Taken(s: State, ops: seq<Op>): seq<Ask>
    decreases |ops|
  {
    if ops == [] then [] else Handing(s, ops[0]) + Taken(Step(s, ops[0]), ops[1..])
  }

  function BytesOf(asks: seq<Ask>): nat {
    if asks == [] then 0 else asks[0].size + BytesOf(asks[1..])
  }

  /** The highest of `m` and the bytes in use whenever a block has just been handed out; while `mwRealloc`
      copies, the old one is still in use. */
  function PeakOf(m: int, s: State, ops: seq<Op>): int
    decreases |ops|
  {
    if ops == [] then m
    else
      var asks := Handing(s, ops[0]);
      PeakOf(if asks == [] then m else Max(m, s.statCur + asks[0].size), Step(s, ops[0]), ops[1..])
  }

  /** Over a run of a running memwatch, the number of allocations, their total and the maximum are those of
      the blocks handed out. */
  lemma {:induction false} RunTallies(s: State, ops: seq<Op>)
    requires Proper(s) && AllowedRun(s, ops) && s.inited > 0
    ensures var t, asks := Run(s, ops), Taken(s, ops);
      && t.statNum == s.statNum + |asks| && t.statTot == s.statTot + BytesOf(asks)
      && t.statMax == PeakOf(s.statMax, s, ops)
    decreases |ops|
  {
    hide Proper, Step, Allowed, HandedOut;
    if ops != [] {
      StepKeeps(s, ops[0]);
      ReadyIs(s, ops[0]);
      StepTallies(s, ops[0]);
      RunTallies(Step(s, ops[0]), ops[1..]);
      var a, b := Handing(s, ops[0]), Taken(Step(s, ops[0]), ops[1..]);
      assert a == [] ==> a + b == b;
      assert a != [] ==> (a + b)[1..] == b;
    }
  }

  // ----- the records over runs

  /** With its records granted at once, an allocation is booked on both. */
  lemma MallocBooks(s: State, size: Size, file: Name, line: int, o: MallocOracle, f: Name, l: int)
    requires Balanced(s) && Grants(s, size, o) && AtOnce(o.book) && s.statLevel > 0
    ensures var (t, addr) := Malloc(s, size, file, line, o);
      var x, y := RecordOf(s.stats, f, l), RecordOf(t.stats, f, l);
      && t.statLevel == s.statLevel
      && (if addr != 0 && Hits(s.statLevel, file, line, f, l) then Grew(x, y, size) else Stays(x, y))
  {
    hide Balanced, Malloc, Grants, BookBoth, Find, RecordOf, Bytes, HasRecords;
    var (t, addr) := Malloc(s, size, file, line, o);
    var ok1, ok2 := MallocStats(s, size, file, line, o);
    if addr != 0 {
      HasBoth(s, size, file, line, o);
      BothIs(s.stats, s.statLevel, Gain, size, file, line, ok1, ok2);
      BothRecords(s.stats, s.statLevel, size, file, line, f, l);
    }
  }

  lemma HasBoth(s: State, size: Size, file: Name, line: int, o: MallocOracle)
    requires AtOnce(o.book) && s.statLevel > 0 && Malloc(s, size, file, line, o).1 != 0
    ensures HasRecords(Malloc(s, size, file, line, o).0.stats, s.statLevel, file, line)
  {
    hide HasRecords, BookAll, BookOne, BookBoth, FreeUp, Has;
    var s0 := s.(counter := s.counter + 1);
    ObtainStats(s0, o);
    var (t, addr) := Obtain(s0, o);
    var _, _ := BookAllIs(Admitted(t, addr, size, file, line), Gain, ToLong(size), file, line, o.book);
  }

  lemma FreeBooks(s: State, p: int, file: Name, line: int, o: BookOracle, f: Name, l: int)
    requires Balanced(s)
    ensures var t := Free(s, p, file, line, o).0;
      Stays(RecordOf(s.stats, f, l), RecordOf(t.stats, f, l)) && t.statLevel == s.statLevel
  {
    hide BookBoth, BookAll, GuardErrors, Bytes, Gone, Find, RecordOf;
    if file.Some? && p != 0 && Owned(s.chain, p) && !s.chain[Find(s.chain, p)].nml {
      var x := s.chain[Find(s.chain, p)];
      var ok1, ok2 := FreeStats(s, x, file, line, o);
      LossRecords(s.stats, s.statLevel, x.size, x.file, x.line, ok1, ok2, f, l);
    }
  }

  lemma ExchangedBooks(s: State, r: Rec, size: Size, file: Name, line: int, o: ReallocOracle, f: Name, l: int)
    requires Balanced(s) && Grants(s, size, o.malloc) && AtOnce(o.malloc.book) && s.statLevel > 0
    ensures var (t, addr) := Exchanged(s, r, size, file, line, o);
      var x, y := RecordOf(s.stats, f, l), RecordOf(t.stats, f, l);
      && t.statLevel == s.statLevel
      && (if addr != 0 && Hits(s.statLevel, file, line, f, l) then Grew(x, y, size) else Stays(x, y))
  {
    hide Balanced, Malloc, Free, Grants, Patch, Payload0, RecordOf, Hits, AtOnce;
    MallocBooks(s, size, file, line, o.malloc, f, l);
    MallocIs(s, size, file, line, o.malloc);
    var (t, addr) := Malloc(s, size, file, line, o.malloc);
    var data := Payload0(r, Min(size, r.size));
    PatchKeeps(t, addr, 0, data);
    FreeBooks(t.(chain := Patch(t.chain, addr, 0, data)), r.addr, file, line, o.free, f, l);
  }

  lemma ReallocBooks(s: State, p: int, size: Size, file: Name, line: int, o: ReallocOracle, f: Name, l: int)
    requires Balanced(s) && Grants(s, size, o.malloc) && AtOnce(o.malloc.book) && s.statLevel > 0
    ensures var (t, addr) := Realloc(s, p, size, file, line, o);
      var x, y := RecordOf(s.stats, f, l), RecordOf(t.stats, f, l);
      && t.statLevel == s.statLevel
      && (if addr != 0 && Hits(s.statLevel, file, line, f, l) then Grew(x, y, size) else Stays(x, y))
  {
    hide Balanced, Malloc, Free, Grants, Find, Exchanged, RecordOf, Hits, AtOnce;
    MallocBooks(s, size, file, line, o.malloc, f, l);
    FreeBooks(s, p, file, line, o.free, f, l);
    if Owned(s.chain, p) {
      var s0 := s.(useLimit := false);
      SameBooksKeep(s, s0);
      SameGrants(s, s0, size, o.malloc);
      ExchangedBooks(s0, s.chain[Find(s.chain, p)], size, file, line, o, f, l);
    }
  }

  /** The blocks among `asks` that are booked on `f` and `l`. */
  function On(asks: seq<Ask>, level: nat, f: Name, l: int): seq<Ask> {
    if asks == [] then []
    else (if Hits(level, asks[0].file, asks[0].line, f, l) then [asks[0]] else []) + On(asks[1..], level, f, l)
  }

  lemma StepRecords(s: State, op: Op, f: Name, l: int)
    requires Proper(s) && Allowed(s, op) && s.inited > 0 && s.statLevel > 0 && Granted(op)
    ensures var t, asks := Step(s, op), On(Handing(s, op), s.statLevel, f, l);
      var x, y := RecordOf(s.stats, f, l), RecordOf(t.stats, f, l);
      && t.statLevel == s.statLevel && (if asks == [] then Stays(x, y) else Grew(x, y, asks[0].size))
  {
    hide Balanced, Malloc, Free, Realloc, Grants, Patch, Returnable, RecordOf, AtOnce, Hits;
    ReadyIs(s, op);
    match op {
      case OpMalloc(size, file, line, o) => MallocBooks(s, size, file, line, o, f, l);
      case OpCalloc(a, b, file, line, o) => MallocBooks(s, (a * b) % SIZE_LIMIT, file, line, o, f, l);
      case OpRealloc(p, size, file, line, o) => ReallocBooks(s, p, size, file, line, o, f, l);
      case OpFree(p, file, line, o) => FreeBooks(s, p, file, line, o, f, l);
      case _ =>
    }
  }

  /** As `PeakOf`, for the bytes in use on one record. */
  function RecordPeak(m: int, s: State, ops: seq<Op>, f: Name, l: int): int
    decreases |ops|
  {
    if ops == [] then m
    else
      var asks := On(Handing(s, ops[0]), s.statLevel, f, l);
      var n := if asks == [] then m else Max(m, RecordOf(s.stats, f, l).curr + asks[0].size);
      RecordPeak(n, Step(s, ops[0]), ops[1..], f, l)
  }

  /** Over a run of a running memwatch, at one level and with memory for every new record, each record counts
      the blocks handed out on its file and line, their bytes, and the most that was in use of them. */
  lemma {:induction false} RunRecords(s: State, ops: seq<Op>, f: Name, l: int)
    requires Proper(s) && AllowedRun(s, ops) && s.inited > 0 && s.statLevel > 0
    requires forall op :: op in ops ==> Granted(op)
    ensures var x, y, asks := RecordOf(s.stats, f, l), RecordOf(Run(s, ops).stats, f, l),
          On(Taken(s, ops), s.statLevel, f, l);
      && y.num == x.num + |asks| && y.total == x.total + BytesOf(asks)
      && y.max == RecordPeak(x.max, s, ops, f, l)
    decreases |ops|
  {
    hide Proper, Step, Allowed, Handing, RecordOf, Hits, Granted;
    if ops != [] {
      var t := Step(s, ops[0]);
      StepKeeps(s, ops[0]);
      ReadyIs(s, ops[0]);
      StepRecords(s, ops[0], f, l);
      RunRecords(t, ops[1..], f, l);
      OneHanded(s, ops[0]);
      OnBoth(Handing(s, ops[0]), Taken(t, ops[1..]), s.statLevel, f, l);
    }
  }

  lemma OneHanded(s: State, op: Op)
    ensures |Handing(s, op)| <= 1
  {
  }

  lemma OnBoth(a: seq<Ask>, b: seq<Ask>, level: nat, f: Name, l: int)
    requires |a| <= 1
    ensures var x, y := On(a, level, f, l), On(b, level, f, l);
      |x| <= 1 && On(a + b, level, f, l) == x + y && BytesOf(x + y) == (if x == [] then 0 else x[0].size) + BytesOf(y)
  {
    if a == [] {
      assert a + b == b;
    } else {
      assert (a + b)[1..] == b && a[1..] == [];
    }
    var x, y := On(a, level, f, l), On(b, level, f, l);
    assert x == [] ==> x + y == y;
    assert x != [] ==> (x + y)[1..] == y;
  }
}
