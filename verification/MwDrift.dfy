/** What `mwFreeUp` costs the no-mans-land counters: they run ahead of the chain by exactly the blocks
    it gives up, since it counts none of them down. */
module MwDrift {
  import opened MwBlock
  import opened MwLedger
  import opened MwAccounting
  import opened MwStats
  import opened Basics

  /** A call of `mwFreeUp`: the state it is made in, and how the allocations it tries turn out. */
  datatype Request = Request(s: State, tries: seq<bool>)

  /** The blocks of no-mans-land it gives up. */
  function LostTo(q: Request): Extent {
    var c, d := q.s.chain, FreeUp(q.s, q.tries).0.chain;
    Extent(Count(c, true) - Count(d, true), Bytes(c, true, All) - Bytes(d, true, All))
  }

  function Lost(qs: seq<Request>): Extent
    decreases |qs|
  {
    if qs == [] then NOTHING else Plus(LostTo(qs[0]), Lost(qs[1..]))
  }

  /** Giving up grabbed kilobytes does not do, and there are blocks to give up. */
  predicate Digs(q: Request) {
    !ReleaseGrabs(q.s.grabs, q.tries).ok && Count(q.s.chain, true) > 0
  }

  predicate NoneDigs(qs: seq<Request>) {
    forall q :: q in qs ==> !Digs(q)
  }

  lemma {:induction false} BlocksGo(c: seq<Rec>, tries: seq<bool>)
    ensures Count(ReleaseBlocks(c, tries).left, true) < Count(c, true) <==> Count(c, true) > 0
  {
    if c != [] {
      ReleaseSheds(c, tries);
      ShedSums(c, ReleaseBlocks(c, tries).left, All);
      if !c[0].nml {
        BlocksGo(c[1..], tries);
        var l := ReleaseBlocks(c[1..], tries).left;
        assert ([c[0]] + l)[1..] == l;
      } else {
        ReleaseSheds(c[1..], Rest(tries));
        ShedSums(c[1..], ReleaseBlocks(c[1..], Rest(tries)).left, All);
      }
    }
  }

  lemma LosesWhenDigging(q: Request)
    ensures LostTo(q).blocks >= 0 && LostTo(q).bytes >= 0
    ensures LostTo(q).blocks == 0 ==> LostTo(q).bytes == 0
    ensures LostTo(q).blocks > 0 <==> Digs(q)
  {
    hide Count, Bytes, ReleaseGrabs, ReleaseBlocks, Shed;
    FreeUpRelaxes(q.s, q.tries);
    ShedSums(q.s.chain, FreeUp(q.s, q.tries).0.chain, All);
    BlocksGo(q.s.chain, ReleaseGrabs(q.s.grabs, q.tries).tries);
  }

  lemma {:induction false} LosesNothing(qs: seq<Request>)
    ensures Lost(qs).blocks >= 0 && Lost(qs).bytes >= 0
    ensures Lost(qs).blocks == 0 ==> Lost(qs).bytes == 0
    ensures Lost(qs) == NOTHING <==> NoneDigs(qs)
    decreases |qs|
  {
    hide LostTo, Digs;
    if |qs| > 0 {
      LosesRest(qs);
      LosesWhenDigging(qs[0]);
      LosesNothing(qs[1..]);
    }
  }

  lemma LosesRest(qs: seq<Request>)
    requires |qs| > 0
    ensures Lost(qs) == Plus(LostTo(qs[0]), Lost(qs[1..]))
    ensures NoneDigs(qs) <==> !Digs(qs[0]) && NoneDigs(qs[1..])
  {
    hide LostTo, Digs;
    assert forall q :: q in qs <==> q == qs[0] || q in qs[1..];
  }

  lemma {:induction false} LostBoth(a: seq<Request>, b: seq<Request>)
    ensures Lost(a + b) == Plus(Lost(a), Lost(b))
    decreases |a|
  {
    hide LostTo;
    if a == [] {
      assert a + b == b;
    } else {
      LostBoth(a[1..], b);
      assert (a + b)[1..] == a[1..] + b;
    }
  }

  // ----- which calls of `mwFreeUp` a call leads to

  function RecordRequests(s: State, file: Name, line: int, o: RecordOracle): seq<Request> {
    if Has(s.stats, file, line) || o.first then [] else [Request(s, o.tries)]
  }

  function BookRequests(s: State, e: Entry, size: int, file: Name, line: int, o: BookOracle): seq<Request> {
    if s.statLevel == 0 then []
    else
      var t := BookOne(s, e, size, file, MODULE_LINE, o.perFile);
      var qs := RecordRequests(s, file, MODULE_LINE, o.perFile);
      if s.statLevel > 1 && line != MODULE_LINE && file.Some? then qs + RecordRequests(t, file, line, o.perLine)
      else qs
  }

  function ObtainRequests(s: State, o: MallocOracle): seq<Request> {
    if o.first != 0 then [] else [Request(s, o.tries)]
  }

  function AllocateRequests(s: State, size: Size, file: Name, line: int, o: MallocOracle): seq<Request> {
    var (t, addr) := Obtain(s, o);
    var qs := ObtainRequests(s, o);
    if addr == 0 then qs
    else qs + BookRequests(Admitted(t, addr, size, file, line), Gain, ToLong(size), file, line, o.book)
  }

  function MallocRequests(s: State, size: Size, file: Name, line: int, o: MallocOracle): seq<Request> {
    if (OVERHEAD + size) % SIZE_LIMIT < size || (s.useLimit && ToLong(size) + s.statCur > s.limit) then []
    else AllocateRequests(s.(counter := s.counter + 1), size, file, line, o)
  }

  function FreeRequests(s: State, p: int, file: Name, line: int, o: BookOracle): seq<Request> {
    if file == None || p == 0 || !Owned(s.chain, p) then [] else OwnedRequests(s, s.chain[Find(s.chain, p)], o)
  }

  function OwnedRequests(s: State, r: Rec, o: BookOracle): seq<Request> {
    var s1 := s.(counter := s.counter + 1, errors := s.errors + GuardErrors(r));
    if r.nml then [] else BookRequests(Leaving(s1, r), Loss, ToLong(r.size), r.file, r.line, o)
  }

  function MovedRequests(s: State, r: Rec, size: Size, file: Name, line: int, o: ReallocOracle): seq<Request> {
    var (t, addr) := Malloc(s, size, file, line, o.malloc);
    var qs := MallocRequests(s, size, file, line, o.malloc);
    if addr == 0 then qs
    else
      var t1 := t.(chain := Patch(t.chain, addr, 0, Payload0(r, Min(size, r.size))));
      qs + FreeRequests(t1, r.addr, file, line, o.free)
  }

  function ReallocRequests(s: State, p: int, size: Size, file: Name, line: int, o: ReallocOracle): seq<Request> {
    if p == 0 then MallocRequests(s, size, file, line, o.malloc)
    else if size == 0 then FreeRequests(s, p, file, line, o.free)
    else if !Owned(s.chain, p) then []
    else
      var r := s.chain[Find(s.chain, p)];
      if r.nml || (s.useLimit && ToLong(size) + s.statCur - ToLong(r.size) > s.limit) then []
      else MovedRequests(s.(useLimit := false), r, size, file, line, o)
  }

  function ActRequests(s: State, op: Op): seq<Request> {
    match op
    case OpMalloc(size, file, line, o) => MallocRequests(s, size, file, line, o)
    case OpCalloc(a, b, file, line, o) => MallocRequests(s, (a * b) % SIZE_LIMIT, file, line, o)
    case OpRealloc(p, size, file, line, o) => ReallocRequests(s, p, size, file, line, o)
    case OpFree(p, file, line, o) => FreeRequests(s, p, file, line, o)
    case _ => []
  }

  function Requests(s: State, op: Op): seq<Request> {
    ActRequests(Ready(s, op), op)
  }

  function RunRequests(s: State, ops: seq<Op>): seq<Request>
    decreases |ops|
  {
    if ops == [] then [] else Requests(s, ops[0]) + RunRequests(Step(s, ops[0]), ops[1..])
  }

  // ----- what the counters are off by

  /** The counters are off in `t` by what the requests cost more than in `s`. */
  predicate Drifts(s: State, qs: seq<Request>, t: State) {
    Drift(t) == Plus(Drift(s), Lost(qs))
  }

  lemma DriftsOn(s: State, a: seq<Request>, t: State, b: seq<Request>, u: State)
    requires Drifts(s, a, t) && Drifts(t, b, u)
    ensures Drifts(s, a + b, u)
  {
    hide Drift, Lost;
    LostBoth(a, b);
  }

  lemma FreeUpDrifts(s: State, tries: seq<bool>)
    ensures Drifts(s, [Request(s, tries)], FreeUp(s, tries).0)
  {
    hide Count, Bytes, FreeUp, Shed;
    FreeUpRelaxes(s, tries);
    var q := Request(s, tries);
    assert [q][1..] == [];
    assert Lost([q]) == Plus(LostTo(q), NOTHING);
  }

  lemma BookOneDrifts(s: State, e: Entry, size: int, file: Name, line: int, o: RecordOracle)
    ensures Drifts(s, RecordRequests(s, file, line, o), BookOne(s, e, size, file, line, o))
  {
    hide Drifts, Drift, FreeUp, Lost, Book;
    var u := BookOne(s, e, size, file, line, o);
    if Has(s.stats, file, line) || o.first {
      StaysPut(s);
      SameBooksKeep(s, u);
      SameDrifts(s, s, [], u, s);
    } else {
      FreeUpDrifts(s, o.tries);
      SameBooksKeep(FreeUp(s, o.tries).0, u);
      SameDrifts(s, s, [Request(s, o.tries)], u, FreeUp(s, o.tries).0);
    }
  }

  lemma BookAllDrifts(s: State, e: Entry, size: int, file: Name, line: int, o: BookOracle)
    ensures Drifts(s, BookRequests(s, e, size, file, line, o), BookAll(s, e, size, file, line, o))
  {
    hide Drifts, BookOne, RecordRequests;
    BookOneDrifts(s, e, size, file, MODULE_LINE, o.perFile);
    var t := BookOne(s, e, size, file, MODULE_LINE, o.perFile);
    BookOneDrifts(t, e, size, file, line, o.perLine);
    DriftsOn(s, RecordRequests(s, file, MODULE_LINE, o.perFile), t, RecordRequests(t, file, line, o.perLine),
             BookOne(t, e, size, file, line, o.perLine));
    StaysPut(s);
  }

  lemma StaysPut(s: State)
    ensures Drifts(s, [], s)
  {
    hide Count, Bytes;
  }

  lemma SameDrifts(s: State, s1: State, qs: seq<Request>, t: State, t1: State)
    requires Drifts(s1, qs, t1) && Drift(s) == Drift(s1) && Drift(t) == Drift(t1)
    ensures Drifts(s, qs, t)
  {
  }

  lemma AllocateDrifts(s: State, size: Size, file: Name, line: int, o: MallocOracle)
    ensures Drifts(s, AllocateRequests(s, size, file, line, o), Allocate(s, size, file, line, o).0)
  {
    hide Drifts, FreeUp, BookAll, BookRequests, Drift;
    StaysPut(s);
    FreeUpDrifts(s, o.tries);
    var (t, addr) := Obtain(s, o);
    ObtainDrifts(s, o);
    var a := Admitted(t, addr, size, file, line);
    BookAllDrifts(a, Gain, ToLong(size), file, line, o.book);
    AdmittedDrifts(t, addr, size, file, line);
    var b := BookRequests(a, Gain, ToLong(size), file, line, o.book);
    var u := BookAll(a, Gain, ToLong(size), file, line, o.book);
    SameDrifts(t, a, b, u, u);
    DriftsOn(s, ObtainRequests(s, o), t, b, u);
  }

  lemma ObtainDrifts(s: State, o: MallocOracle)
    ensures Drifts(s, ObtainRequests(s, o), Obtain(s, o).0)
  {
    hide Count, Bytes, FreeUp, LostTo;
    FreeUpDrifts(s, o.tries);
  }

  lemma AdmittedDrifts(s: State, addr: int, size: Size, file: Name, line: int)
    ensures Drift(Admitted(s, addr, size, file, line)) == Drift(s)
  {
    var r := Fresh(addr, file, line, size, s.counter);
    assert ([r] + s.chain)[1..] == s.chain;
  }

  lemma MallocDrifts(s: State, size: Size, file: Name, line: int, o: MallocOracle)
    ensures Drifts(s, MallocRequests(s, size, file, line, o), Malloc(s, size, file, line, o).0)
  {
    hide Lost, Allocate, AllocateRequests, Count, Bytes;
    StaysPut(s);
    AllocateDrifts(s.(counter := s.counter + 1), size, file, line, o);
  }

  lemma GoneDrifts(s: State, r: Rec)
    requires LiveAt(s.chain, r) && r.size < LONG_LIMIT
    ensures Drift(Gone(s, r)) == Drift(s)
  {
    var i := Find(s.chain, r.addr);
    RemoveSums(s.chain, i, true, All);
    UpdateSums(s.chain, i, Retired(r), true, All);
  }

  lemma FreeDrifts(s: State, p: int, file: Name, line: int, o: BookOracle)
    requires Balanced(s)
    ensures Drifts(s, FreeRequests(s, p, file, line, o), Free(s, p, file, line, o).0)
  {
    hide Lost, BookAll, BookRequests, Gone, GuardErrors, Count, Bytes, Shed, Find;
    StaysPut(s);
    if file.Some? && p != 0 && Owned(s.chain, p) && !s.chain[Find(s.chain, p)].nml {
      var r := s.chain[Find(s.chain, p)];
      BalancedTidy(s);
      assert r in s.chain;
      FreeIs(s, r, file, line, o);
      var s1 := Leaving(s.(counter := s.counter + 1, errors := s.errors + GuardErrors(r)), r);
      BookAllDrifts(s1, Loss, ToLong(r.size), r.file, r.line, o);
      var s2 := BookAll(s1, Loss, ToLong(r.size), r.file, r.line, o);
      ShedFinds(s.chain, s2.chain, p);
      GoneDrifts(s2, r);
    }
  }

  lemma MovedDrifts(s: State, r: Rec, size: Size, file: Name, line: int, o: ReallocOracle)
    requires Balanced(s) && Grants(s, size, o.malloc)
    ensures Drifts(s, MovedRequests(s, r, size, file, line, o), Exchanged(s, r, size, file, line, o).0)
  {
    hide Drifts, Balanced, Grants, Malloc, Free, Patch, Payload0, MallocRequests, FreeRequests, Drift;
    MallocIs(s, size, file, line, o.malloc);
    MallocDrifts(s, size, file, line, o.malloc);
    var (t, addr) := Malloc(s, size, file, line, o.malloc);
    var data := Payload0(r, Min(size, r.size));
    PatchKeeps(t, addr, 0, data);
    var t1 := t.(chain := Patch(t.chain, addr, 0, data));
    FreeDrifts(t1, r.addr, file, line, o.free);
    var a, b := MallocRequests(s, size, file, line, o.malloc), FreeRequests(t1, r.addr, file, line, o.free);
    var u := Free(t1, r.addr, file, line, o.free).0;
    SameDrifts(t, t1, b, u, u);
    DriftsOn(s, a, t, b, u);
  }

  lemma ReallocDrifts(s: State, p: int, size: Size, file: Name, line: int, o: ReallocOracle)
    requires Balanced(s) && Grants(s, size, o.malloc)
    ensures Drifts(s, ReallocRequests(s, p, size, file, line, o), Realloc(s, p, size, file, line, o).0)
  {
    hide Lost, Balanced, Grants, Malloc, Free, MallocRequests, FreeRequests, MovedRequests, Exchanged;
    hide Count, Bytes, Find;
    StaysPut(s);
    MallocDrifts(s, size, file, line, o.malloc);
    FreeDrifts(s, p, file, line, o.free);
    if Owned(s.chain, p) {
      var s0 := s.(useLimit := false);
      SameBooksKeep(s, s0);
      SameGrants(s, s0, size, o.malloc);
      MovedDrifts(s0, s.chain[Find(s.chain, p)], size, file, line, o);
    }
  }

  lemma ActDrifts(s: State, op: Op)
    requires Balanced(s) && Allowed(s, op)
    ensures Drifts(s, ActRequests(s, op), Act(s, op))
  {
    hide Drifts, Balanced, Grants, Malloc, Free, Realloc, Patch, MallocRequests, FreeRequests, ReallocRequests, Drift;
    StaysPut(s);
    match op {
      case OpMalloc(size, file, line, o) => MallocDrifts(s, size, file, line, o);
      case OpCalloc(a, b, file, line, o) =>
        var size := (a * b) % SIZE_LIMIT;
        MallocIs(s, size, file, line, o);
        MallocDrifts(s, size, file, line, o);
        var (t, addr) := Malloc(s, size, file, line, o);
        PatchKeeps(t, addr, 0, MwGuard.Fill(size, 0));
        SameDrifts(s, s, MallocRequests(s, size, file, line, o), Act(s, op), t);
      case OpRealloc(p, size, file, line, o) => ReallocDrifts(s, p, size, file, line, o);
      case OpFree(p, file, line, o) => FreeDrifts(s, p, file, line, o);
      case OpWrite(p, at, v) =>
        PatchKeeps(s, p, at, [v]);
        SameDrifts(s, s, [], Act(s, op), s);
      case _ =>
        SameBooksKeep(s, Act(s, op));
        SameDrifts(s, s, [], Act(s, op), s);
    }
  }

  // ----- the law

  /** The counters run ahead by exactly what the calls of `mwFreeUp` give up, in blocks and in bytes. */
  lemma StepDrifts(s: State, op: Op)
    requires Proper(s) && Allowed(s, op)
    ensures Drift(Step(s, op)) == Plus(Drift(Ready(s, op)), Lost(Requests(s, op)))
  {
    hide Balanced, Allowed, Ready, Act, Drift, Lost, ActRequests;
    ReadyIs(s, op);
    ActDrifts(Ready(s, op), op);
  }

  /** The no-mans-land counters are exact. */
  predicate Exact(s: State) {
    s.nmlNum == Count(s.chain, true) && s.nmlCur == Bytes(s.chain, true, All)
  }

  lemma ExactIs(s: State)
    ensures Exact(s) <==> Drift(s) == NOTHING
  {
    hide Count, Bytes;
  }

  /** Starting memwatch leaves exact counters exact. */
  lemma ReadyDrift(s: State, op: Op)
    requires Proper(s) && (s.inited > 0 || Exact(s))
    ensures Drift(Ready(s, op)) == Drift(s)
  {
    hide Balanced, Ready, Drift, Exact;
    ReadyIs(s, op);
    ExactIs(s);
  }

  lemma PlusNothing(a: Extent, b: Extent)
    requires a == NOTHING
    ensures Plus(a, b) == b
  {
  }

  /** A call keeps them exact exactly when none of its calls of `mwFreeUp` has to give up a block: each
      gets by with grabbed kilobytes, or finds no block in no-mans-land. */
  lemma StepExact(s: State, op: Op)
    requires Proper(s) && Exact(s) && Allowed(s, op)
    ensures Exact(Step(s, op)) <==> NoneDigs(Requests(s, op))
  {
    hide *;
    StepDrifts(s, op);
    ReadyDrift(s, op);
    ExactIs(s);
    ExactIs(Step(s, op));
    PlusNothing(Drift(s), Lost(Requests(s, op)));
    LosesNothing(Requests(s, op));
  }

  /** Over a run, too; once ahead, the counters stay ahead. */
  lemma {:induction false} RunDrifts(s: State, ops: seq<Op>)
    requires Proper(s) && AllowedRun(s, ops) && (s.inited > 0 || Exact(s))
    ensures Drift(Run(s, ops)) == Plus(Drift(s), Lost(RunRequests(s, ops)))
    decreases |ops|
  {
    hide Proper, Step, Allowed, Drift, Exact, Requests, Ready, Lost, AutoInits;
    if ops == [] {
      StaysPut(s);
    } else {
      var t := Step(s, ops[0]);
      StepKeeps(s, ops[0]);
      StepDrifts(s, ops[0]);
      ReadyDrift(s, ops[0]);
      IdleStep(s, ops[0]);
      RunDrifts(t, ops[1..]);
      LostBoth(Requests(s, ops[0]), RunRequests(t, ops[1..]));
    }
  }

  lemma IdleStep(s: State, op: Op)
    requires Proper(s) && Allowed(s, op) && (s.inited > 0 || Exact(s))
    ensures Step(s, op).inited > 0 || Exact(Step(s, op))
  {
    hide Balanced, Act, Allowed, Exact, Find;
    StepKeeps(s, op);
    ReadyIs(s, op);
    if !AutoInits(op) && s.inited == 0 {
      PassedBy(s, op);
    }
  }

  /** A run keeps the counters exact exactly when none of its calls of `mwFreeUp` gives up a block. */
  lemma RunExact(s: State, ops: seq<Op>)
    requires Proper(s) && Exact(s) && AllowedRun(s, ops)
    ensures Exact(Run(s, ops)) <==> NoneDigs(RunRequests(s, ops))
  {
    hide *;
    RunDrifts(s, ops);
    ExactIs(s);
    ExactIs(Run(s, ops));
    PlusNothing(Drift(s), Lost(RunRequests(s, ops)));
    LosesNothing(RunRequests(s, ops));
  }

  /** `mwAbort` takes what is left of no-mans-land off the counters, so that what remains of them, and is
      complained about, is what `mwFreeUp` gave up: nothing exactly when it never had to give up a block. */
  lemma AbortComplains(s: State, ops: seq<Op>)
    requires Proper(s) && Exact(s) && AllowedRun(s, ops) && s.inited > 0
    ensures var t := Aborted(Awake(Run(s, ops)));
      && t.nmlNum == Lost(RunRequests(s, ops)).blocks && t.nmlCur == Lost(RunRequests(s, ops)).bytes
      && (t.nmlNum == 0 && t.nmlCur == 0 <==> NoneDigs(RunRequests(s, ops)))
      && t.chain == [] && t.errors == 0 && t.inited == 0
  {
    hide Proper, Run, AllowedRun, Exact, Count, Bytes, RunRequests, Lost, NoneDigs;
    RunKeeps(s, ops);
    RunDrifts(s, ops);
    ExactIs(s);
    LosesNothing(RunRequests(s, ops));
  }
}
