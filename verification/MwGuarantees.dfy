/** What memwatch promises its client, over whole runs. */
module MwGuarantees {
  import opened MwBlock
  import opened MwGuard
  import opened MwLedger
  import opened MwAccounting
  import opened MwRing
  import opened MwStats
  import opened Basics

  // ----- blocks as a set

  /** `r` is a block the client still holds. */
  predicate Holds(s: State, r: Rec) {
    r in s.chain && !r.nml
  }

  lemma HeldIsFound(c: seq<Rec>, r: Rec)
    requires DistinctAddrs(c)
    ensures r in c <==> Owned(c, r.addr) && c[Find(c, r.addr)] == r
  {
    if r in c {
      var i :| 0 <= i < |c| && c[i] == r;
      assert Find(c, r.addr) <= i;
    }
  }

  lemma {:induction false} ShedHolds(c: seq<Rec>, d: seq<Rec>, r: Rec)
    requires Shed(c, d) && r in c && !r.nml
    ensures r in d
  {
    if d != [] && c[0] == d[0] && Shed(c[1..], d[1..]) {
      if r != c[0] {
        ShedHolds(c[1..], d[1..], r);
      }
    } else {
      ShedHolds(c[1..], d, r);
    }
  }

  lemma RelaxedHolds(s: State, t: State, r: Rec)
    requires Relaxed(s, t)
    ensures Holds(s, r) <==> Holds(t, r)
    ensures r in t.chain ==> r in s.chain
  {
    ShedMembers(s.chain, t.chain);
    if Holds(s, r) {
      ShedHolds(s.chain, t.chain, r);
    }
  }

  lemma WithoutHolds(c: seq<Rec>, p: int, r: Rec)
    requires DistinctAddrs(c)
    ensures r in Without(c, p) <==> r in c && r.addr != p
  {
    var i := Find(c, p);
    if i < |c| {
      assert c == c[..i] + [c[i]] + c[i + 1..];
    } else if r in c {
      var j :| 0 <= j < |c| && c[j] == r;
    }
  }

  lemma WithHolds(c: seq<Rec>, p: int, x: Rec, r: Rec)
    requires DistinctAddrs(c) && Owned(c, p) && x.addr == p
    ensures r in With(c, p, x) <==> (r in c && r.addr != p) || r == x
  {
    var i := Find(c, p);
    var d := c[i := x];
    if r in d {
      var j :| 0 <= j < |d| && d[j] == r;
    }
    if r in c && r.addr != p {
      var j :| 0 <= j < |c| && c[j] == r;
      assert d[j] == r;
    }
    assert d[i] == x;
  }

  /** A release takes exactly the released block from the client. */
  lemma FreeHolds(s: State, x: Rec, file: Name, line: int, o: BookOracle, r: Rec)
    requires Balanced(s) && Holds(s, x) && file.Some?
    ensures var (t, out) := Free(s, x.addr, file, line, o);
      && out == Freed && t.hist == s.hist + [Release(x.addr, file, line)]
      && (Holds(t, r) <==> Holds(s, r) && r.addr != x.addr)
      && (r in t.chain && r.addr == x.addr ==> r.nml)
      && t.statCur == s.statCur - x.size && t.useLimit == s.useLimit && t.limit == s.limit
  {
    HeldIsFound(s.chain, x);
    FreeIs(s, x, file, line, o);
    var s1 := s.(counter := s.counter + 1, errors := s.errors + GuardErrors(x));
    var s2 := BookAll(Leaving(s1, x), Loss, ToLong(x.size), x.file, x.line, o);
    RelaxedHolds(Leaving(s1, x), s2, r);
    SameBooksKeep(s, s1);
    GoneKeeps(s1, s2, x);
    ShedMembers(s.chain, s2.chain);
    BalancedTidy(s);
    WithoutHolds(s2.chain, x.addr, r);
    WithHolds(s2.chain, x.addr, Retired(x), r);
  }

  /** An allocation takes nothing from the client. */
  lemma MallocHolds(s: State, size: Size, file: Name, line: int, o: MallocOracle, r: Rec)
    requires Balanced(s) && Grants(s, size, o)
    ensures var (t, addr) := Malloc(s, size, file, line, o);
      && t.hist == s.hist && t.useLimit == s.useLimit && t.limit == s.limit && t.nmlLevel == s.nmlLevel
      && (r in t.chain ==> r in s.chain || (addr != 0 && r == Fresh(addr, file, line, size, s.counter + 1)))
      && (Holds(t, r) <==> Holds(s, r) || (addr != 0 && r == Fresh(addr, file, line, size, s.counter + 1)))
      && (addr != 0 ==> !(Holds(s, r) && r.addr == addr) && OVERHEAD + size < LONG_LIMIT)
      && t.statCur == s.statCur + (if addr == 0 then 0 else size)
  {
    MallocIs(s, size, file, line, o);
    var (t, addr) := Malloc(s, size, file, line, o);
    var s0 := s.(counter := s.counter + 1);
    BalancedTidy(s);
    HeldIsFound(s.chain, r);
    if addr == 0 {
      RelaxedHolds(s0, t, r);
    } else {
      RelaxedHolds(Entered(s0, Fresh(addr, file, line, size, s0.counter)), t, r);
    }
  }

  lemma PatchHolds(c: seq<Rec>, p: int, at: int, data: seq<byte>, r: Rec)
    requires DistinctAddrs(c)
    ensures r in Patch(c, p, at, data) && r.addr != p <==> r in c && r.addr != p
    ensures r in Patch(c, p, at, data) && r.addr == p <==>
      Owned(c, p) && r == c[Find(c, p)].(zone := Patched(c[Find(c, p)].zone, at, data))
  {
    if Owned(c, p) {
      WithHolds(c, p, c[Find(c, p)].(zone := Patched(c[Find(c, p)].zone, at, data)), r);
    } else {
      NotOwned(c, p);
    }
  }

  /** A live block is still live after another was allocated and written to. */
  lemma StaysLive(s: State, r: Rec, size: Size, file: Name, line: int, o: MallocOracle, data: seq<byte>)
    requires Balanced(s) && Grants(s, size, o) && LiveAt(s.chain, r) && Malloc(s, size, file, line, o).1 != 0
    ensures var (t, addr) := Malloc(s, size, file, line, o);
      LiveAt(Patch(t.chain, addr, 0, data), r) && t.nmlLevel == s.nmlLevel && r.addr != 0
  {
    hide Malloc, Grants, Find, Patch;
    BalancedTidy(s);
    HeldIsFound(s.chain, r);
    MallocIs(s, size, file, line, o);
    MallocHolds(s, size, file, line, o, r);
    var (t, addr) := Malloc(s, size, file, line, o);
    BalancedTidy(t);
    PatchHolds(t.chain, addr, 0, data, r);
    PatchKeeps(t, addr, 0, data);
    BalancedTidy(t.(chain := Patch(t.chain, addr, 0, data)));
    HeldIsFound(Patch(t.chain, addr, 0, data), r);
  }

  // ----- realloc

  /** The block `mwRealloc` returns: the first bytes of the old payload, then MW_VAL_NEW. */
  function Grown(x: Rec, addr: int, file: Name, line: int, size: Size, count: int): (r: Rec)
    requires WellSized(x)
    ensures r.addr == addr && r.size == size && !r.nml && |r.zone| == size + 2 * ZONE
    ensures !Underflowed(r.zone) && !Overflowed(r.zone, size)
    ensures Payload(r.zone, size) == x.zone[ZONE..ZONE + Min(size, x.size)] + Fill(size - Min(size, x.size), VAL_NEW)
  {
    var data := x.zone[ZONE..ZONE + Min(size, x.size)];
    NewZone(size, data);
    Fresh(addr, file, line, size, count).(zone := Patched(Zone(Fill(size, VAL_NEW)), 0, data))
  }

  lemma NewZone(size: nat, data: seq<byte>)
    requires |data| <= size
    ensures var z := Patched(Zone(Fill(size, VAL_NEW)), 0, data);
      z == Zone(data + Fill(size - |data|, VAL_NEW)) && |z| == size + 2 * ZONE
    ensures var z := Patched(Zone(Fill(size, VAL_NEW)), 0, data);
      !Underflowed(z) && !Overflowed(z, size) && Payload(z, size) == data + Fill(size - |data|, VAL_NEW)
  {
    var z := Zone(Fill(size, VAL_NEW));
    assert z[..ZONE] == TEMPLATE;
    assert z[ZONE + |data|..] == Fill(size - |data|, VAL_NEW) + TEMPLATE;
    ZoneIs(data + Fill(size - |data|, VAL_NEW));
  }

  lemma ZoneIs(payload: seq<byte>)
    ensures var z := Zone(payload);
      && |z| == |payload| + 2 * ZONE && Payload(z, |payload|) == payload
      && !Underflowed(z) && !Overflowed(z, |payload|)
  {
    var z := Zone(payload);
    assert z[ZONE + |payload|..ZONE + |payload| + ZONE] == TEMPLATE;
  }

  /** `mwRealloc` of a held block to a positive size: it fails and the block stays as it was, or the
      block is exchanged for one that begins with the same bytes. Nobody else's block changes, and
      the suspended limit is in force again. */
  lemma ReallocMoves(s: State, x: Rec, size: Size, file: Name, line: int, o: ReallocOracle, r: Rec)
    requires Balanced(s) && Holds(s, x) && file.Some? && size > 0 && Grants(s, size, o.malloc)
    ensures var (t, addr) := Realloc(s, x.addr, size, file, line, o);
      && t.useLimit == s.useLimit && t.limit == s.limit
      && (addr == 0 ==> (Holds(t, r) <==> Holds(s, r)) && t.statCur == s.statCur && t.hist == s.hist)
      && (addr != 0 ==>
        && WellSized(x) && addr != x.addr
        && (Holds(t, r) <==> (Holds(s, r) && r.addr != x.addr) || r == Grown(x, addr, file, line, size, s.counter + 1))
        && (r in t.chain && r.addr == x.addr ==> r.nml)
        && t.statCur == s.statCur + size - x.size
        && (s.useLimit ==> t.statCur <= s.limit)
        && t.hist == s.hist + [Release(x.addr, file, line)])
  {
    BalancedTidy(s);
    HeldIsFound(s.chain, x);
    assert WellSized(x) && x.addr != 0;
    if !(s.useLimit && ToLong(size) + s.statCur - ToLong(x.size) > s.limit) {
      assert Realloc(s, x.addr, size, file, line, o) == Moved(s, x, size, file, line, o);
      MovedHolds(s, x, size, file, line, o, r);
    }
  }

  lemma MovedHolds(s: State, x: Rec, size: Size, file: Name, line: int, o: ReallocOracle, r: Rec)
    requires Balanced(s) && Holds(s, x) && file.Some? && Grants(s, size, o.malloc) && WellSized(x)
    ensures var (t, addr) := Moved(s, x, size, file, line, o);
      && t.useLimit == s.useLimit && t.limit == s.limit
      && (addr == 0 ==> (Holds(t, r) <==> Holds(s, r)) && t.statCur == s.statCur && t.hist == s.hist)
      && (addr != 0 ==>
        && addr != x.addr && OVERHEAD + size < LONG_LIMIT
        && (Holds(t, r) <==> (Holds(s, r) && r.addr != x.addr) || r == Grown(x, addr, file, line, size, s.counter + 1))
        && (r in t.chain && r.addr == x.addr ==> r.nml)
        && t.statCur == s.statCur + size - x.size
        && t.hist == s.hist + [Release(x.addr, file, line)])
  {
    hide Balanced, Malloc, Free, Grants, Patch, Find;
    var s0 := s.(useLimit := false);
    SameBooksKeep(s, s0);
    SameGrants(s, s0, size, o.malloc);
    MallocIs(s0, size, file, line, o.malloc);
    MallocHolds(s0, size, file, line, o.malloc, r);
    MallocHolds(s0, size, file, line, o.malloc, x);
    var (t, addr) := Malloc(s0, size, file, line, o.malloc);
    if addr != 0 {
      var data := Payload0(x, Min(size, x.size));
      var t1 := t.(chain := Patch(t.chain, addr, 0, data));
      PatchKeeps(t, addr, 0, data);
      BalancedTidy(t);
      PatchHolds(t.chain, addr, 0, data, r);
      PatchHolds(t.chain, addr, 0, data, x);
      FreeHolds(t1, x, file, line, o.free, r);
    }
  }

  /** While it runs, `mwRealloc` holds both blocks: the peak it leaves in the statistics is above the
      limit exactly when the two together are. */
  lemma ReallocPeak(s: State, x: Rec, size: Size, file: Name, line: int, o: ReallocOracle)
    requires Balanced(s) && Holds(s, x) && file.Some? && size > 0 && Grants(s, size, o.malloc)
    requires s.useLimit && s.statMax <= s.limit
    ensures var (t, addr) := Realloc(s, x.addr, size, file, line, o);
      addr != 0 ==> t.statCur <= t.limit && (t.statMax > t.limit <==> s.statCur + size > s.limit)
  {
    hide Balanced, Grants, Shed, Free, Malloc, Patch, Payload0, Grown;
    ReallocMoves(s, x, size, file, line, o, x);
    var s0 := s.(useLimit := false);
    SameBooksKeep(s, s0);
    SameGrants(s, s0, size, o.malloc);
    MallocIs(s0, size, file, line, o.malloc);
    BalancedTidy(s);
    HeldIsFound(s.chain, x);
    var (t, addr) := Malloc(s0, size, file, line, o.malloc);
    if addr != 0 {
      PeakOfFree(t.(chain := Patch(t.chain, addr, 0, Payload0(x, Min(size, x.size)))), x.addr, file, line, o.free);
    }
  }

  lemma PeakOfFree(s: State, p: int, file: Name, line: int, o: BookOracle)
    ensures var t := Free(s, p, file, line, o).0;
      t.statMax == s.statMax && t.useLimit == s.useLimit && t.limit == s.limit && t.nmlLevel == s.nmlLevel
  {
    if file.Some? && p != 0 && Owned(s.chain, p) && !s.chain[Find(s.chain, p)].nml {
      FreeIs(s, s.chain[Find(s.chain, p)], file, line, o);
    }
  }

  // ----- the limit

  lemma ActWithinLimit(s: State, op: Op)
    requires Balanced(s) && Allowed(s, op) && !op.OpLimit?
    ensures var t := Act(s, op);
      && t.useLimit == s.useLimit && t.limit == s.limit
      && (s.useLimit ==> t.statCur <= Max(s.statCur, s.limit))
  {
    match op {
      case OpMalloc(size, file, line, o) => MallocWithinLimit(s, size, file, line, o);
      case OpCalloc(a, b, file, line, o) => MallocWithinLimit(s, (a * b) % SIZE_LIMIT, file, line, o);
      case OpRealloc(p, size, file, line, o) =>
        MallocWithinLimit(s, size, file, line, o.malloc);
        FreeWithinLimit(s, p, file, line, o.free);
        if Owned(s.chain, p) && p != 0 && size != 0 {
          var x := s.chain[Find(s.chain, p)];
          if !x.nml {
            ReallocMoves(s, x, size, file, line, o, x);
          }
        }
      case OpFree(p, file, line, o) => FreeWithinLimit(s, p, file, line, o);
      case _ =>
    }
  }

  lemma MallocWithinLimit(s: State, size: Size, file: Name, line: int, o: MallocOracle)
    requires Balanced(s) && Grants(s, size, o)
    ensures var t := Malloc(s, size, file, line, o).0;
      t.useLimit == s.useLimit && t.limit == s.limit && (s.useLimit ==> t.statCur <= Max(s.statCur, s.limit))
  {
    MallocIs(s, size, file, line, o);
  }

  lemma FreeWithinLimit(s: State, p: int, file: Name, line: int, o: BookOracle)
    requires Balanced(s)
    ensures var t := Free(s, p, file, line, o).0;
      t.useLimit == s.useLimit && t.limit == s.limit && t.statCur <= s.statCur
  {
    if file.Some? && p != 0 && Owned(s.chain, p) && !s.chain[Find(s.chain, p)].nml {
      FreeHolds(s, s.chain[Find(s.chain, p)], file, line, o, s.chain[Find(s.chain, p)]);
    }
  }

  /** No call raises the bytes in use above a limit that is in force. */
  lemma StepWithinLimit(s: State, op: Op)
    requires Proper(s) && Allowed(s, op) && !op.OpLimit?
    ensures var t := Step(s, op);
      && t.useLimit == s.useLimit && t.limit == s.limit
      && (s.useLimit ==> t.statCur <= Max(s.statCur, s.limit))
  {
    hide Balanced, Act, Allowed, Ready;
    ReadyIs(s, op);
    ActWithinLimit(Ready(s, op), op);
  }

  lemma {:induction false} RunWithinLimit(s: State, ops: seq<Op>)
    requires Proper(s) && AllowedRun(s, ops) && s.useLimit
    requires forall op :: op in ops ==> !op.OpLimit?
    ensures Run(s, ops).statCur <= Max(s.statCur, s.limit)
    ensures Run(s, ops).useLimit && Run(s, ops).limit == s.limit
    decreases |ops|
  {
    hide Proper, Step, Allowed;
    if ops != [] {
      StepKeeps(s, ops[0]);
      StepWithinLimit(s, ops[0]);
      RunWithinLimit(Step(s, ops[0]), ops[1..]);
    }
  }

  // ----- the second release of a pointer

  /** The pointer a call hands out. */
  function HandedOut(s: State, op: Op): int {
    Handed(Ready(s, op), op)
  }

  function Handed(s: State, op: Op): int {
    match op
    case OpMalloc(size, file, line, o) => Malloc(s, size, file, line, o).1
    case OpCalloc(a, b, file, line, o) => Calloc(s, a, b, file, line, o).1
    case OpRealloc(p, size, file, line, ro) => Realloc(s, p, size, file, line, ro).1
    case _ => 0
  }

  predicate NeverHandsOut(s: State, ops: seq<Op>, p: int)
    decreases |ops|
  {
    ops == [] || (HandedOut(s, ops[0]) != p && NeverHandsOut(Step(s, ops[0]), ops[1..], p))
  }

  /** The client holds nothing at `p`; a retired block may still be there. */
  predicate Released(s: State, p: int) {
    forall r :: r in s.chain && r.addr == p ==> r.nml
  }

  /** The releases since `s`, none of them of `p`. */
  predicate NotReleasedSince(s: State, t: State, p: int) {
    s.hist <= t.hist && forall x :: x in t.hist[|s.hist|..] ==> x.addr != p
  }

  lemma ActReleased(s: State, op: Op, p: int)
    requires Balanced(s) && Allowed(s, op) && Released(s, p) && Handed(s, op) != p
    ensures Released(Act(s, op), p) && NotReleasedSince(s, Act(s, op), p)
  {
    BalancedTidy(s);
    match op {
      case OpMalloc(size, file, line, o) => MallocReleased(s, size, file, line, o, p);
      case OpCalloc(a, b, file, line, o) =>
        var size := (a * b) % SIZE_LIMIT;
        MallocReleased(s, size, file, line, o, p);
        MallocIs(s, size, file, line, o);
        var (t, addr) := Malloc(s, size, file, line, o);
        PatchReleased(t, addr, 0, Fill(size, 0), p);
      case OpRealloc(q, size, file, line, o) =>
        if q == 0 {
          MallocReleased(s, size, file, line, o.malloc, p);
        } else if size == 0 {
          FreeReleased(s, q, file, line, o.free, p);
        } else if Owned(s.chain, q) && !s.chain[Find(s.chain, q)].nml {
          ReallocReleased(s, s.chain[Find(s.chain, q)], size, file, line, o, p);
        }
      case OpFree(q, file, line, o) => FreeReleased(s, q, file, line, o, p);
      case OpWrite(q, at, v) => PatchReleased(s, q, at, [v], p);
      case _ =>
    }
  }

  lemma MallocReleased(s: State, size: Size, file: Name, line: int, o: MallocOracle, p: int)
    requires Balanced(s) && Grants(s, size, o) && Released(s, p)
    requires Malloc(s, size, file, line, o).1 != p
    ensures var t := Malloc(s, size, file, line, o).0; Released(t, p) && t.hist == s.hist
  {
    hide Malloc, Balanced, Grants;
    var t := Malloc(s, size, file, line, o).0;
    forall r | r in t.chain && r.addr == p
      ensures r.nml
    {
      MallocHolds(s, size, file, line, o, r);
    }
    MallocHolds(s, size, file, line, o, Fresh(0, file, line, size, 0));
  }

  lemma PatchReleased(s: State, q: int, at: int, data: seq<byte>, p: int)
    requires Balanced(s) && Released(s, p)
    ensures Released(s.(chain := Patch(s.chain, q, at, data)), p)
  {
    BalancedTidy(s);
    forall r | r in Patch(s.chain, q, at, data) && r.addr == p
      ensures r.nml
    {
      PatchHolds(s.chain, q, at, data, r);
    }
  }

  lemma FreeReleased(s: State, q: int, file: Name, line: int, o: BookOracle, p: int)
    requires Balanced(s) && Released(s, p)
    ensures var t := Free(s, q, file, line, o).0; Released(t, p) && NotReleasedSince(s, t, p)
  {
    if file.Some? && q != 0 && Owned(s.chain, q) && !s.chain[Find(s.chain, q)].nml {
      var x := s.chain[Find(s.chain, q)];
      FreeHolds(s, x, file, line, o, x);
      var t := Free(s, q, file, line, o).0;
      forall r | r in t.chain && r.addr == p
        ensures r.nml
      {
        FreeHolds(s, x, file, line, o, r);
      }
    }
  }

  lemma ReallocReleased(s: State, x: Rec, size: Size, file: Name, line: int, o: ReallocOracle, p: int)
    requires Balanced(s) && Holds(s, x) && file.Some? && size > 0 && Grants(s, size, o.malloc) && Released(s, p)
    requires Realloc(s, x.addr, size, file, line, o).1 != p
    ensures var t := Realloc(s, x.addr, size, file, line, o).0; Released(t, p) && NotReleasedSince(s, t, p)
  {
    hide Realloc, Balanced, Grants, Grown;
    ReallocMoves(s, x, size, file, line, o, x);
    var t := Realloc(s, x.addr, size, file, line, o).0;
    forall r | r in t.chain && r.addr == p
      ensures r.nml
    {
      ReallocMoves(s, x, size, file, line, o, r);
    }
  }

  lemma StepReleased(s: State, op: Op, p: int)
    requires Proper(s) && Allowed(s, op) && Released(s, p) && HandedOut(s, op) != p
    ensures Released(Step(s, op), p) && NotReleasedSince(s, Step(s, op), p)
  {
    hide Balanced, Act, Allowed, Ready, Handed;
    ReadyIs(s, op);
    ActReleased(Ready(s, op), op, p);
  }

  lemma {:induction false} RunReleased(s: State, ops: seq<Op>, p: int)
    requires Proper(s) && AllowedRun(s, ops) && Released(s, p) && NeverHandsOut(s, ops, p)
    ensures Released(Run(s, ops), p) && NotReleasedSince(s, Run(s, ops), p)
    decreases |ops|
  {
    hide Proper, Step, Allowed, Released, HandedOut;
    if ops != [] {
      var t := Step(s, ops[0]);
      StepKeeps(s, ops[0]);
      StepReleased(s, ops[0], p);
      RunReleased(t, ops[1..], p);
      var u := Run(s, ops);
      assert u.hist[|s.hist|..] == t.hist[|s.hist|..] + u.hist[|t.hist|..];
    }
  }

  /** Releasing a pointer that was not handed out again changes nothing but the call and error
      counters, and is recognized as a double free exactly while fewer than 64 releases followed the
      first one -- whether or not released blocks are kept as no-mans-land. */
  lemma SecondRelease(s: State, x: Rec, file: Name, line: int, o: BookOracle, ops: seq<Op>, file2: Name,
                      line2: int, o2: BookOracle)
    requires Proper(s) && Holds(s, x) && file.Some? && file2.Some?
    requires var s1 := Free(s, x.addr, file, line, o).0; AllowedRun(s1, ops) && NeverHandsOut(s1, ops, x.addr)
    ensures var s1 := Free(s, x.addr, file, line, o).0;
      var s2 := Run(s1, ops);
      var (s3, out) := Free(s2, x.addr, file2, line2, o2);
      && s3 == s2.(counter := s2.counter + 1, errors := s3.errors) && s3.errors > s2.errors
      && out == (if |s2.hist| - |s1.hist| < 64 then DoubleFree else WildFree)
      && Awake(s) == s && Awake(s2) == s2
  {
    hide Run, AllowedRun, NeverHandsOut, Free;
    var s1 := Free(s, x.addr, file, line, o).0;
    var s2 := Run(s1, ops);
    FreeKeeps(s, x.addr, file, line, o);
    FreeRuns(s, x.addr, file, line, o);
    FirstRelease(s, x, file, line, o);
    BalancedTidy(s);
    RunKeeps(s1, ops);
    RunReleased(s1, ops, x.addr);
    RememberedUntil(s.hist, s2.hist[|s1.hist|..], Release(x.addr, file, line));
    assert s2.hist == s1.hist + s2.hist[|s1.hist|..];
    RefusedRelease(s2, x.addr, file2, line2, o2);
  }

  lemma FirstRelease(s: State, x: Rec, file: Name, line: int, o: BookOracle)
    requires Balanced(s) && Holds(s, x) && file.Some?
    ensures var s1 := Free(s, x.addr, file, line, o).0;
      x.addr != 0 && Released(s1, x.addr) && s1.hist == s.hist + [Release(x.addr, file, line)]
  {
    BalancedTidy(s);
    var s1 := Free(s, x.addr, file, line, o).0;
    FreeHolds(s, x, file, line, o, x);
    forall r | r in s1.chain && r.addr == x.addr
      ensures r.nml
    {
      FreeHolds(s, x, file, line, o, r);
    }
  }

  lemma RefusedRelease(s: State, p: int, file: Name, line: int, o: BookOracle)
    requires Released(s, p) && p != 0 && file.Some?
    ensures var (t, out) := Free(s, p, file, line, o);
      && t == s.(counter := s.counter + 1, errors := t.errors) && t.errors > s.errors
      && out == if Remembers(s.hist, p) then DoubleFree else WildFree
  {
  }

  // ----- guards

  /** Nothing was written where the client has no business: both guards stand, and a block in
      no-mans-land is as the release left it. */
  predicate Sound(r: Rec) {
    && WellSized(r) && !Underflowed(r.zone) && !Overflowed(r.zone, r.size)
    && (r.nml ==> AllAre(Payload(r.zone, r.size), VAL_NML))
  }

  predicate Healthy(s: State) {
    forall r :: r in s.chain ==> Sound(r)
  }

  /** The client stores only into payloads it holds. */
  predicate Confined(s: State, op: Op) {
    op.OpWrite? && Owned(s.chain, op.p) ==>
      var r := s.chain[Find(s.chain, op.p)]; !r.nml && 0 <= op.at < r.size
  }

  predicate ConfinedRun(s: State, ops: seq<Op>)
    decreases |ops|
  {
    ops == [] || (Confined(s, ops[0]) && ConfinedRun(Step(s, ops[0]), ops[1..]))
  }

  lemma FreshIsSound(addr: int, file: Name, line: int, size: Size, count: int)
    requires size < LONG_LIMIT
    ensures Sound(Fresh(addr, file, line, size, count))
  {
    var r := Fresh(addr, file, line, size, count);
    assert r.zone[..ZONE] == TEMPLATE && r.zone[ZONE + size..ZONE + size + ZONE] == TEMPLATE;
  }

  lemma PatchedIsSound(r: Rec, at: nat, data: seq<byte>)
    requires Sound(r) && !r.nml && at + |data| <= r.size
    ensures Sound(r.(zone := Patched(r.zone, at, data)))
  {
    var z := Patched(r.zone, at, data);
    assert z[..ZONE] == r.zone[..ZONE];
    assert z[ZONE + r.size..] == r.zone[ZONE + r.size..];
  }

  lemma RetiredIsSound(r: Rec)
    requires Sound(r)
    ensures Sound(Retired(r))
  {
    var z := Retired(r).zone;
    assert z[..ZONE] == r.zone[..ZONE];
    assert z[ZONE + r.size..] == r.zone[ZONE + r.size..];
    assert Payload(z, r.size) == Fill(r.size, VAL_NML);
  }

  lemma MallocHealthy(s: State, size: Size, file: Name, line: int, o: MallocOracle)
    requires Balanced(s) && Grants(s, size, o) && Healthy(s)
    ensures Healthy(Malloc(s, size, file, line, o).0)
  {
    hide Malloc, Balanced, Grants, Sound;
    var (t, addr) := Malloc(s, size, file, line, o);
    forall r | r in t.chain
      ensures Sound(r)
    {
      MallocHolds(s, size, file, line, o, r);
      if r !in s.chain {
        FreshIsSound(addr, file, line, size, s.counter + 1);
      }
    }
  }

  lemma PatchHealthy(s: State, p: int, at: nat, data: seq<byte>)
    requires Balanced(s) && Healthy(s)
    requires Owned(s.chain, p) ==> var r := s.chain[Find(s.chain, p)]; !r.nml && at + |data| <= r.size
    ensures Healthy(s.(chain := Patch(s.chain, p, at, data)))
  {
    BalancedTidy(s);
    forall r | r in Patch(s.chain, p, at, data)
      ensures Sound(r)
    {
      PatchHolds(s.chain, p, at, data, r);
      if r.addr == p {
        PatchedIsSound(s.chain[Find(s.chain, p)], at, data);
      }
    }
  }

  lemma FreeHealthy(s: State, p: int, file: Name, line: int, o: BookOracle)
    requires Balanced(s) && Healthy(s)
    ensures Healthy(Free(s, p, file, line, o).0)
  {
    if file.Some? && p != 0 && Owned(s.chain, p) && !s.chain[Find(s.chain, p)].nml {
      var x := s.chain[Find(s.chain, p)];
      FreeIs(s, x, file, line, o);
      var s1 := s.(counter := s.counter + 1, errors := s.errors + GuardErrors(x));
      var s2 := BookAll(Leaving(s1, x), Loss, ToLong(x.size), x.file, x.line, o);
      SameBooksKeep(s, s1);
      GoneKeeps(s1, s2, x);
      ShedMembers(s.chain, s2.chain);
      RetiredIsSound(x);
      BalancedTidy(s);
      forall r | r in Free(s, p, file, line, o).0.chain
        ensures Sound(r)
      {
        WithoutHolds(s2.chain, p, r);
        WithHolds(s2.chain, p, Retired(x), r);
      }
    }
  }

  lemma MovedHealthy(s: State, x: Rec, size: Size, file: Name, line: int, o: ReallocOracle)
    requires Balanced(s) && Healthy(s) && Holds(s, x) && Grants(s, size, o.malloc)
    ensures Healthy(Moved(s, x, size, file, line, o).0)
  {
    hide Balanced, Malloc, Free, Grants, Sound, Find;
    var s0 := s.(useLimit := false);
    SameBooksKeep(s, s0);
    SameGrants(s, s0, size, o.malloc);
    MallocIs(s0, size, file, line, o.malloc);
    MallocHealthy(s0, size, file, line, o.malloc);
    var (t, addr) := Malloc(s0, size, file, line, o.malloc);
    if addr != 0 {
      var data := Payload0(x, Min(size, x.size));
      PatchKeeps(t, addr, 0, data);
      PatchHealthy(t, addr, 0, data);
      FreeHealthy(t.(chain := Patch(t.chain, addr, 0, data)), x.addr, file, line, o.free);
    }
  }

  lemma ActHealthy(s: State, op: Op)
    requires Balanced(s) && Healthy(s) && Allowed(s, op) && Confined(s, op)
    ensures Healthy(Act(s, op))
  {
    match op {
      case OpMalloc(size, file, line, o) => MallocHealthy(s, size, file, line, o);
      case OpCalloc(a, b, file, line, o) =>
        var size := (a * b) % SIZE_LIMIT;
        MallocHealthy(s, size, file, line, o);
        MallocIs(s, size, file, line, o);
        var (t, addr) := Malloc(s, size, file, line, o);
        if addr != 0 {
          PatchHealthy(t, addr, 0, Fill(size, 0));
        }
      case OpRealloc(p, size, file, line, o) =>
        MallocHealthy(s, size, file, line, o.malloc);
        FreeHealthy(s, p, file, line, o.free);
        if Owned(s.chain, p) && !s.chain[Find(s.chain, p)].nml {
          MovedHealthy(s, s.chain[Find(s.chain, p)], size, file, line, o);
        }
      case OpFree(p, file, line, o) => FreeHealthy(s, p, file, line, o);
      case OpWrite(p, at, v) =>
        if Owned(s.chain, p) {
          PatchHealthy(s, p, at, [v]);
        }
      case _ =>
    }
  }

  /** Guards and retired blocks stay as memwatch wrote them as long as the client stays within the
      payloads it holds. */
  lemma StepHealthy(s: State, op: Op)
    requires Proper(s) && Healthy(s) && Allowed(s, op) && Confined(s, op)
    ensures Healthy(Step(s, op))
  {
    hide Balanced, Act, Allowed, Ready, Sound;
    ReadyIs(s, op);
    ActHealthy(Ready(s, op), op);
  }

  lemma {:induction false} RunHealthy(s: State, ops: seq<Op>)
    requires Proper(s) && Healthy(s) && AllowedRun(s, ops) && ConfinedRun(s, ops)
    ensures Healthy(Run(s, ops))
    decreases |ops|
  {
    hide Proper, Step, Allowed, Healthy, Confined;
    if ops != [] {
      StepKeeps(s, ops[0]);
      StepHealthy(s, ops[0]);
      RunHealthy(Step(s, ops[0]), ops[1..]);
    }
  }

  // ----- the report at the end

  lemma {:induction false} ScanOfSound(c: seq<Rec>)
    requires forall r :: r in c ==> Sound(r)
    ensures ScanErrors(c) == Count(c, false)
  {
    if c != [] {
      assert Sound(c[0]);
      ScanOfSound(c[1..]);
    }
  }

  /** After any run of a client that stays within its payloads, `mwAbort` counts one error for every
      block that was allocated and not released, and none besides. */
  lemma AbortCountsLeaks(s: State, ops: seq<Op>)
    requires Proper(s) && Healthy(s) && AllowedRun(s, ops) && ConfinedRun(s, ops)
    ensures ScanErrors(Run(s, ops).chain) == Run(s, ops).numCur
  {
    RunKeeps(s, ops);
    RunHealthy(s, ops);
    ScanOfSound(Run(s, ops).chain);
  }

  /** memwatch can be used again after `mwAbort` with its books in order exactly when nothing was
      leaked: the number of live blocks survives both `mwAbort` and `mwInit`. */
  lemma RestartNeedsNoLeaks(s: State, ops: seq<Op>)
    requires Proper(s) && AllowedRun(s, ops)
    ensures var t := Run(s, ops);
      Proper(Begun(Aborted(Awake(t)))) <==> Count(t.chain, false) == 0
  {
    hide Run, AllowedRun;
    RunKeeps(s, ops);
  }
}
