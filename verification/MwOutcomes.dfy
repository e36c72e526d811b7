/** What each call comes to, told from its arguments, the books before it and the answers of the C library:
    when it succeeds, what it hands out, and which errors it counts. */
module MwOutcomes {
  import opened MwAccounting
  import opened MwBlock
  import opened MwGuarantees
  import opened MwGuard
  import opened MwLedger
  import opened MwRing
  import opened MwShedding
  import opened MwStats
  import opened Basics
  import MwGrab

  // ----- errors counted, and errors still to be found

  /** The errors counted, and the wild writes that will be reported when their blocks go. */
  function Reported(s: State): int {
    s.errors + Wild(s.chain)
  }

  /** A call of `mwFreeUp` finds no error that the end would not. */
  lemma BookAllReports(s: State, e: Entry, size: int, file: Name, line: int, o: BookOracle)
    ensures var t := BookAll(s, e, size, file, line, o); Reported(t) == Reported(s)
  {
    hide BookOne, Wild;
    BookOneReports(s, e, size, file, MODULE_LINE, o.perFile);
    BookOneReports(BookOne(s, e, size, file, MODULE_LINE, o.perFile), e, size, file, line, o.perLine);
  }

  lemma BookOneReports(s: State, e: Entry, size: int, file: Name, line: int, o: RecordOracle)
    ensures var t := BookOne(s, e, size, file, line, o); Reported(t) == Reported(s)
  {
    hide FreeUp, Book, Wild, Yields, Shorn, Needed;
    FreeUpIs(s, o.tries);
  }

  // ----- allocation

  /** The C library has memory: at once, or after `mwFreeUp` gave up enough. */
  predicate Given(s: State, o: MallocOracle) {
    o.first != 0 || (Yields(o.tries, Spare(s)) && o.second != 0)
  }

  /** What an allocation that was not refused for its size or the limit finds wrong. */
  function Shortage(s: State, o: MallocOracle): nat {
    if Given(s, o) then 0 else if Yields(o.tries, Spare(s)) then 2 else 1
  }

  /** An allocation succeeds exactly when its size does not overflow, the limit, if there is one, has room
      and the C library has memory; and it hands out the memory it got. */
  lemma MallocOutcome(s: State, size: Size, file: Name, line: int, o: MallocOracle)
    ensures var (t, addr) := Malloc(s, size, file, line, o);
      && (addr != 0 <==>
        && OVERHEAD + size < SIZE_LIMIT && (s.useLimit ==> ToLong(size) + s.statCur <= s.limit) && Given(s, o))
      && (addr != 0 ==> addr == if o.first != 0 then o.first else o.second)
      && t.counter == s.counter + 1
      && Reported(t) == Reported(s) +
        (if OVERHEAD + size >= SIZE_LIMIT then 0
         else if s.useLimit && ToLong(size) + s.statCur > s.limit then 1
         else Shortage(s, o))
  {
    hide FreeUp, BookAll, Wild, Yields, Shorn, Needed, MwGrab.Drop;
    var s0 := s.(counter := s.counter + 1);
    FreeUpIs(s0, o.tries);
    var (t, addr) := Obtain(s0, o);
    var a := Admitted(t, addr, size, file, line);
    NoneRetired(t.chain, a.chain[0]);
    BookAllReports(a, Gain, ToLong(size), file, line, o.book);
    BookAllRelaxes(a, Gain, ToLong(size), file, line, o.book);
  }

  lemma NoneRetired(c: seq<Rec>, r: Rec)
    requires !r.nml
    ensures Wild([r] + c) == Wild(c)
  {
    assert ([r] + c)[1..] == c;
  }

  // ----- an allocation of zeros

  /** The block `mwCalloc` returns. */
  function Zeroed(addr: int, file: Name, line: int, size: Size, count: int): (r: Rec)
    ensures r.addr == addr && r.size == size && !r.nml && |r.zone| == size + 2 * ZONE
    ensures r.zone[..ZONE] == TEMPLATE && r.zone[ZONE + size..] == TEMPLATE
    ensures forall i :: ZONE <= i < ZONE + size ==> r.zone[i] == 0
  {
    Rec(addr, file, line, size, count, false, TEMPLATE + seq(size, _ => 0) + TEMPLATE)
  }

  lemma ZeroedIs(addr: int, file: Name, line: int, size: Size, count: int)
    ensures var r := Fresh(addr, file, line, size, count);
      r.(zone := Patched(r.zone, 0, Fill(size, 0))) == Zeroed(addr, file, line, size, count)
  {
    NewZone(size, Fill(size, 0));
    assert Fill(size, 0) + Fill(0, VAL_NEW) == seq(size, _ => 0);
  }

  /** `mwCalloc` takes nothing from the client and gives it, if it succeeds, one block of zeros, of the
      truncated product of its arguments. */
  lemma CallocHolds(s: State, a: Size, b: Size, file: Name, line: int, o: MallocOracle, r: Rec)
    requires Balanced(s) && Grants(s, (a * b) % SIZE_LIMIT, o)
    ensures var size := (a * b) % SIZE_LIMIT;
      var (t, addr) := Calloc(s, a, b, file, line, o);
      && addr == Malloc(s, size, file, line, o).1
      && (addr != 0 ==> !(Holds(s, r) && r.addr == addr))
      && (Holds(t, r) <==> Holds(s, r) || (addr != 0 && r == Zeroed(addr, file, line, size, s.counter + 1)))
  {
    hide Balanced, Malloc, Grants, Patch, Zeroed, Fresh;
    var size := (a * b) % SIZE_LIMIT;
    var (t, addr) := Malloc(s, size, file, line, o);
    MallocHolds(s, size, file, line, o, r);
    if addr != 0 {
      var x := Fresh(addr, file, line, size, s.counter + 1);
      MallocHolds(s, size, file, line, o, x);
      MallocIs(s, size, file, line, o);
      BalancedTidy(t);
      HeldIsFound(t.chain, x);
      HeldIsFound(t.chain, r);
      PatchHolds(t.chain, addr, 0, Fill(size, 0), r);
      ZeroedIs(addr, file, line, size, s.counter + 1);
    }
  }

  /** It counts the errors of the allocation, and no other. */
  lemma CallocOutcome(s: State, a: Size, b: Size, file: Name, line: int, o: MallocOracle)
    requires Balanced(s) && Grants(s, (a * b) % SIZE_LIMIT, o)
    ensures var (t, addr) := Calloc(s, a, b, file, line, o);
      var (u, p) := Malloc(s, (a * b) % SIZE_LIMIT, file, line, o);
      addr == p && Reported(t) == Reported(u) && t == u.(chain := t.chain)
  {
    hide Balanced, Malloc, Grants, Patched, Wild, Find, Shed, Entered;
    var size := (a * b) % SIZE_LIMIT;
    MallocIs(s, size, file, line, o);
    var (u, p) := Malloc(s, size, file, line, o);
    if p != 0 {
      LivePatch(u.chain, p, 0, Fill(size, 0));
    }
  }

  lemma {:induction false} WildUpdate(c: seq<Rec>, i: nat, r: Rec)
    requires i < |c|
    ensures Wild(c[i := r]) ==
      Wild(c) - (if c[i].nml && Written(c[i]) then 1 else 0) + (if r.nml && Written(r) then 1 else 0)
  {
    hide Written;
    UpdateTail(c, i, r);
    if i > 0 {
      WildUpdate(c[1..], i - 1, r);
    }
  }

  lemma {:induction false} WildRemove(c: seq<Rec>, i: nat)
    requires i < |c|
    ensures Wild(c[..i] + c[i + 1..]) == Wild(c) - if c[i].nml && Written(c[i]) then 1 else 0
  {
    hide Written;
    CutTail(c, i);
    if i > 0 {
      WildRemove(c[1..], i - 1);
    }
  }

  lemma LivePatch(c: seq<Rec>, p: int, at: int, data: seq<byte>)
    requires Owned(c, p) ==> !c[Find(c, p)].nml
    ensures Wild(Patch(c, p, at, data)) == Wild(c)
  {
    hide Written, Patched;
    if Owned(c, p) {
      var i := Find(c, p);
      WildUpdate(c, i, c[i].(zone := Patched(c[i].zone, at, data)));
    }
  }

  // ----- release

  /** The guards around a payload that are not as memwatch wrote them. */
  function Broken(r: Rec): nat {
    if |r.zone| != r.size + 2 * ZONE then 0
    else (if r.zone[..ZONE] != TEMPLATE then 1 else 0) + (if r.zone[ZONE + r.size..] != TEMPLATE then 1 else 0)
  }

  lemma GuardErrorsAre(r: Rec)
    requires WellSized(r)
    ensures GuardErrors(r) == Broken(r)
  {
    assert r.zone[ZONE + r.size..ZONE + r.size + ZONE] == r.zone[ZONE + r.size..];
  }

  /** A held block is released: its broken guards are counted, one error each, and it is gone from the chain
      or, in no-mans-land mode, stays behind there. */
  lemma ReleaseOutcome(s: State, x: Rec, file: Name, line: int, o: BookOracle)
    requires Balanced(s) && Holds(s, x) && file.Some?
    ensures var (t, out) := Free(s, x.addr, file, line, o);
      && out == Freed && t.counter == s.counter + 1 && Reported(t) == Reported(s) + Broken(x)
      && (s.statLevel == 0 ==> t.errors == s.errors + Broken(x))
      && t.nmlNum == s.nmlNum + (if s.nmlLevel == 0 then 0 else 1)
      && t.nmlCur == s.nmlCur + (if s.nmlLevel == 0 then 0 else x.size)
      && (if s.nmlLevel == 0 then forall r :: r in t.chain ==> r.addr != x.addr else Laid(x) in t.chain)
  {
    hide BookAll, Balanced, Shed, Wild, Find, GuardErrors, Without, With, Retired;
    BalancedTidy(s);
    HeldIsFound(s.chain, x);
    FreeIs(s, x, file, line, o);
    GuardErrorsAre(x);
    var s1 := Leaving(s.(counter := s.counter + 1, errors := s.errors + GuardErrors(x)), x);
    var s2 := BookAll(s1, Loss, ToLong(x.size), x.file, x.line, o);
    BookAllReports(s1, Loss, ToLong(x.size), x.file, x.line, o);
    BookAllAtZero(s1, Loss, ToLong(x.size), x.file, x.line, o);
    ShedFinds(s.chain, s2.chain, x.addr);
    ShedMembers(s.chain, s2.chain);
    GoneIsWild(s2.chain, x);
  }

  lemma BookAllAtZero(s: State, e: Entry, size: int, file: Name, line: int, o: BookOracle)
    ensures s.statLevel == 0 ==> BookAll(s, e, size, file, line, o) == s
  {
  }

  /** A retired block: as it was, but for its payload. */
  function Laid(x: Rec): (r: Rec)
    requires WellSized(x)
    ensures r.nml && r.addr == x.addr && r.size == x.size && |r.zone| == |x.zone|
    ensures r.zone[..ZONE] == x.zone[..ZONE] && r.zone[ZONE + x.size..] == x.zone[ZONE + x.size..]
    ensures forall i :: ZONE <= i < ZONE + x.size ==> r.zone[i] == VAL_NML
  {
    x.(nml := true, zone := x.zone[..ZONE] + seq(x.size, _ => VAL_NML) + x.zone[ZONE + x.size..])
  }

  lemma LaidIs(x: Rec)
    requires WellSized(x)
    ensures Retired(x) == Laid(x) && !Written(Laid(x))
  {
    assert Fill(x.size, VAL_NML) == seq(x.size, _ => VAL_NML);
  }

  lemma GoneIsWild(c: seq<Rec>, x: Rec)
    requires LiveAt(c, x) && WellSized(x) && DistinctAddrs(c)
    ensures Wild(Without(c, x.addr)) == Wild(c) && Wild(With(c, x.addr, Retired(x))) == Wild(c)
    ensures forall r :: r in Without(c, x.addr) ==> r.addr != x.addr
    ensures Laid(x) in With(c, x.addr, Retired(x))
  {
    hide Written, Wild;
    var i := Find(c, x.addr);
    LaidIs(x);
    WildRemove(c, i);
    WildUpdate(c, i, Retired(x));
    forall r | r in Without(c, x.addr)
      ensures r.addr != x.addr
    {
      WithoutHolds(c, x.addr, r);
    }
    assert With(c, x.addr, Retired(x))[i] == Laid(x);
  }

  /** What a release that is refused is called. */
  function Refusal(s: State, p: int): Outcome {
    if Remembers(s.hist, p) then DoubleFree else WildFree
  }

  /** Every other release is refused, and changes nothing but counters: NULL is no error, a pointer to
      nothing on the chain is one, and a block that was released before also has its guards looked at. */
  lemma RefusedOutcome(s: State, p: int, file: Name, line: int, o: BookOracle)
    requires Balanced(s) && forall r :: r in s.chain && r.addr == p ==> r.nml
    ensures var (t, out) := Free(s, p, file, line, o);
      if file == None then t == s && out == Bypassed
      else
        && t == s.(counter := s.counter + 1, errors := t.errors)
        && out == (if p == 0 then NullFree else Refusal(s, p))
        && (p == 0 ==> t.errors == s.errors)
        && (p != 0 && (forall r :: r in s.chain ==> r.addr != p) ==> t.errors == s.errors + 1)
        && (forall r :: r in s.chain && r.addr == p ==> t.errors == s.errors + 1 + Broken(r))
  {
    hide Broken, GuardErrors, Remembers, Find;
    NotOwned(s.chain, p);
    BalancedTidy(s);
    if Owned(s.chain, p) {
      var x := s.chain[Find(s.chain, p)];
      assert x in s.chain;
      GuardErrorsAre(x);
      forall r | r in s.chain && r.addr == p
        ensures r == x
      {
        HeldIsFound(s.chain, r);
      }
    }
  }

  // ----- stores past the payload

  /** A store of one byte through a pointer to a held block. */
  lemma WriteHolds(s: State, x: Rec, off: nat, v: byte, r: Rec)
    requires Balanced(s) && Holds(s, x) && off < |x.zone|
    ensures var t := Write(s, x.addr, off - ZONE, v);
      && Balanced(t) && t == s.(chain := t.chain)
      && (Holds(t, r) <==> (Holds(s, r) && r.addr != x.addr) || r == x.(zone := x.zone[off := v]))
  {
    hide Balanced, Find;
    BalancedTidy(s);
    HeldIsFound(s.chain, x);
    HeldIsFound(s.chain, r);
    PatchKeeps(s, x.addr, off - ZONE, [v]);
    PatchHolds(s.chain, x.addr, off - ZONE, [v], r);
    assert x.zone[..off] + [v] + x.zone[off + 1..] == x.zone[off := v];
  }

  /** One byte stored around a sound block costs one error when the block is released, exactly if it is in
      one of the guards and changes it. */
  lemma DamageCosts(s: State, x: Rec, off: nat, v: byte, file: Name, line: int, o: BookOracle)
    requires Balanced(s) && Holds(s, x) && Sound(x) && off < |x.zone| && file.Some? && s.statLevel == 0
    ensures var t := Free(Write(s, x.addr, off - ZONE, v), x.addr, file, line, o).0;
      t.errors == s.errors + if (off < ZONE || ZONE + x.size <= off) && v != x.zone[off] then 1 else 0
  {
    hide Balanced, Free, Write;
    var y := x.(zone := x.zone[off := v]);
    WriteHolds(s, x, off, v, y);
    ReleaseOutcome(Write(s, x.addr, off - ZONE, v), y, file, line, o);
    OneByteBreaks(x, off, v);
  }

  lemma OneByteBreaks(x: Rec, off: nat, v: byte)
    requires Sound(x) && off < |x.zone|
    ensures Broken(x) == 0
    ensures Broken(x.(zone := x.zone[off := v])) ==
      if (off < ZONE || ZONE + x.size <= off) && v != x.zone[off] then 1 else 0
  {
    var z := x.zone[off := v];
    assert x.zone[ZONE + x.size..ZONE + x.size + ZONE] == x.zone[ZONE + x.size..];
    if off < ZONE {
      assert z[ZONE + x.size..] == x.zone[ZONE + x.size..];
      assert z[..ZONE][off] == v && x.zone[..ZONE][off] == x.zone[off];
    } else {
      assert z[..ZONE] == x.zone[..ZONE];
      if ZONE + x.size <= off {
        var k := off - ZONE - x.size;
        assert z[ZONE + x.size..][k] == v && x.zone[ZONE + x.size..][k] == x.zone[off];
      } else {
        assert z[ZONE + x.size..] == x.zone[ZONE + x.size..];
      }
    }
    if v == x.zone[off] {
      assert z == x.zone;
    }
  }

  // ----- exchange

  /** `mwRealloc` of a pointer to no held block is refused: one error for a stranger, two for a block that
      was released before; and nothing else changes. */
  lemma ReallocRefused(s: State, p: int, size: Size, file: Name, line: int, o: ReallocOracle)
    requires p != 0 && size > 0 && forall r :: r in s.chain && r.addr == p ==> r.nml
    ensures var (t, addr) := Realloc(s, p, size, file, line, o);
      && addr == 0 && t == s.(errors := t.errors)
      && t.errors == s.errors + if exists r :: r in s.chain && r.addr == p then 2 else 1
  {
    hide Find;
    NotOwned(s.chain, p);
    if Owned(s.chain, p) {
      assert s.chain[Find(s.chain, p)] in s.chain;
    }
  }

  /** NULL is allocated, and size 0 released. */
  lemma ReallocDegenerate(s: State, p: int, size: Size, file: Name, line: int, o: ReallocOracle)
    ensures p == 0 ==> Realloc(s, p, size, file, line, o) == Malloc(s, size, file, line, o.malloc)
    ensures p != 0 && size == 0 ==> Realloc(s, p, size, file, line, o) == (Free(s, p, file, line, o.free).0, 0)
  {
    hide Malloc, Free;
  }

  /** A held block is exchanged exactly when the new size does not overflow, the limit, if there is one, has
      room for it once the old block is gone, and the C library has memory. */
  lemma ReallocOutcome(s: State, x: Rec, size: Size, file: Name, line: int, o: ReallocOracle)
    requires Balanced(s) && Holds(s, x) && file.Some? && size > 0 && Grants(s, size, o.malloc)
    ensures var (t, addr) := Realloc(s, x.addr, size, file, line, o);
      var over := s.useLimit && ToLong(size) + s.statCur - x.size > s.limit;
      && (addr != 0 <==> OVERHEAD + size < SIZE_LIMIT && !over && Given(s, o.malloc))
      && (addr != 0 ==> addr == if o.malloc.first != 0 then o.malloc.first else o.malloc.second)
      && t.counter == s.counter + (if addr == 0 then 1 else 2)
      && Reported(t) == Reported(s) + (if addr == 0 then 0 else Broken(x)) +
        (if over then 1 else if OVERHEAD + size >= SIZE_LIMIT then 0 else Shortage(s, o.malloc))
  {
    hide Balanced, Malloc, Free, Grants, Patch, Payload0, Find, Reported, Given, Shortage, Broken, Moved;
    BalancedTidy(s);
    HeldIsFound(s.chain, x);
    assert WellSized(x) && x.addr != 0;
    if s.useLimit && ToLong(size) + s.statCur - x.size > s.limit {
      SameReported(s, Realloc(s, x.addr, size, file, line, o).0, 1);
    } else {
      MovedOutcome(s, x, size, file, line, o);
    }
  }

  lemma SameReported(s: State, t: State, n: int)
    requires t.chain == s.chain && t.errors == s.errors + n
    ensures Reported(t) == Reported(s) + n
  {
  }

  lemma MovedOutcome(s: State, x: Rec, size: Size, file: Name, line: int, o: ReallocOracle)
    requires Balanced(s) && Holds(s, x) && file.Some? && Grants(s, size, o.malloc)
    ensures var (t, addr) := Moved(s, x, size, file, line, o);
      && (addr != 0 <==> OVERHEAD + size < SIZE_LIMIT && Given(s, o.malloc))
      && (addr != 0 ==> addr == if o.malloc.first != 0 then o.malloc.first else o.malloc.second)
      && t.counter == s.counter + (if addr == 0 then 1 else 2)
      && Reported(t) == Reported(s) + (if addr == 0 then 0 else Broken(x)) +
        (if OVERHEAD + size >= SIZE_LIMIT then 0 else Shortage(s, o.malloc))
  {
    hide Balanced, Malloc, Free, Grants, Patch, Payload0, Find, Wild, Broken, Yields;
    var s0 := s.(useLimit := false);
    SameBooksKeep(s, s0);
    SameGrants(s, s0, size, o.malloc);
    MallocOutcome(s0, size, file, line, o.malloc);
    MallocIs(s0, size, file, line, o.malloc);
    MallocHolds(s0, size, file, line, o.malloc, x);
    var (t, addr) := Malloc(s0, size, file, line, o.malloc);
    if addr != 0 {
      var data := Payload0(x, Min(size, x.size));
      var t1 := t.(chain := Patch(t.chain, addr, 0, data));
      PatchKeeps(t, addr, 0, data);
      BalancedTidy(t);
      PatchHolds(t.chain, addr, 0, data, x);
      FoundLive(t.chain, Fresh(addr, file, line, size, s.counter + 1));
      LivePatch(t.chain, addr, 0, data);
      ReleaseOutcome(t1, x, file, line, o.free);
    }
  }

  lemma FoundLive(c: seq<Rec>, r: Rec)
    ensures LiveAt(c, r) ==> !c[Find(c, r.addr)].nml
  {
  }

  // ----- the limit

  /** Once a limit is set, no run that leaves it alone takes the bytes in use above it, or above what they
      were. */
  lemma LimitBinds(s: State, lim: int, ops: seq<Op>)
    requires Proper(s) && lim != 0 && AllowedRun(s, [OpLimit(lim)] + ops)
    requires forall op :: op in ops ==> !op.OpLimit?
    ensures Run(s, [OpLimit(lim)] + ops).statCur <= Max(s.statCur, lim)
  {
    hide Proper, Allowed;
    var all := [OpLimit(lim)] + ops;
    assert all[0] == OpLimit(lim) && all[1..] == ops;
    StepKeeps(s, all[0]);
    ReadyIs(s, all[0]);
    RunWithinLimit(Step(s, all[0]), ops);
  }

  /** An allocation beyond it is refused; one error is counted, and nothing else happens. */
  lemma LimitRefuses(s: State, lim: int, size: Size, file: Name, line: int, o: MallocOracle)
    requires Proper(s) && lim != 0 && ToLong(size) + s.statCur > lim && OVERHEAD + size < SIZE_LIMIT
    ensures var t := Step(s, OpLimit(lim));
      var op := OpMalloc(size, file, line, o);
      HandedOut(t, op) == 0 && Step(t, op) == t.(counter := t.counter + 1, errors := t.errors + 1)
  {
    ReadyIs(s, OpLimit(lim));
  }

  /** Without a limit, nothing but an overflow or the C library makes an allocation fail. */
  lemma NoLimitRefusesNothing(s: State, size: Size, file: Name, line: int, o: MallocOracle)
    requires Proper(s)
    ensures HandedOut(Step(s, OpLimit(0)), OpMalloc(size, file, line, o)) != 0 <==>
      OVERHEAD + size < SIZE_LIMIT && Given(s, o)
  {
    hide Balanced, Malloc, Yields;
    ReadyIs(s, OpLimit(0));
    MallocOutcome(Step(s, OpLimit(0)), size, file, line, o);
  }

  // ----- no-mans-land

  /** Modes 1 and 2 keep released blocks, mode 0 does not. */
  lemma ModeDecides(s: State, level: int, avail: nat, x: Rec, file: Name, line: int, o: BookOracle)
    requires Proper(s) && Holds(s, x) && file.Some? && level in {0, 1, 2}
    ensures var t := Free(Step(s, OpNoMansLand(level, avail)), x.addr, file, line, o).0;
      if level == 0 then forall r :: r in t.chain ==> r.addr != x.addr else Laid(x) in t.chain
  {
    hide Balanced, Free, MwGrab.Drop, MwGrab.Obtainable, MwGrab.Repeat;
    ReadyIs(s, OpNoMansLand(level, avail));
    var t := Step(s, OpNoMansLand(level, avail));
    SameBooksKeep(s, t);
    ReleaseOutcome(t, x, file, line, o);
  }

  /** Mode 2 takes every kilobyte it can have, within the limit; mode 0 gives up to 60000 back; other numbers
      change nothing, and neither does a mode but itself and the kilobytes. */
  lemma ModeGrabs(s: State, level: int, avail: nat)
    requires s.inited > 0
    ensures var t := Step(s, OpNoMansLand(level, avail));
      var k := MwGrab.CountKind(s.grabs, VAL_NML);
      && t == s.(nmlLevel := t.nmlLevel, grabs := t.grabs)
      && (t.nmlLevel == if level in {0, 1, 2} then level else s.nmlLevel)
      && MwGrab.CountKind(t.grabs, VAL_NML) == (
        if level == 0 then Max(0, k - 60000)
        else if level == 2 then k + MwGrab.Obtainable(65000, avail, s.useLimit, s.limit - s.statCur - 1024 * |s.grabs|)
        else k)
      && MwGrab.CountKind(t.grabs, VAL_GRB) == MwGrab.CountKind(s.grabs, VAL_GRB)
  {
    hide MwGrab.Obtainable;
    MwGrab.DropCounts(s.grabs, 60000, VAL_NML, VAL_NML);
    MwGrab.DropCounts(s.grabs, 60000, VAL_NML, VAL_GRB);
    var n := MwGrab.Obtainable(65000, avail, s.useLimit, s.limit - s.statCur - 1024 * |s.grabs|);
    CountRepeat(s.grabs, n, VAL_NML);
    CountRepeat(s.grabs, n, VAL_GRB);
  }

  lemma {:induction false} CountRepeat(s: seq<int>, n: nat, t: int)
    ensures MwGrab.CountKind(MwGrab.Repeat(VAL_NML, n) + s, t) ==
      MwGrab.CountKind(s, t) + if t == VAL_NML then n else 0
    decreases n
  {
    if n == 0 {
      assert MwGrab.Repeat(VAL_NML, n) + s == s;
    } else {
      CountRepeat(s, n - 1, t);
      assert (MwGrab.Repeat(VAL_NML, n) + s)[1..] == MwGrab.Repeat(VAL_NML, n - 1) + s;
    }
  }

  // ----- the end

  /** `mwAbort` reports every block not released and every retired one with a byte written to. */
  lemma {:induction false} ScanIs(c: seq<Rec>)
    ensures ScanErrors(c) == Count(c, false) + Wild(c)
  {
    hide Written, Touched;
    if c != [] {
      TouchedIs(c[0]);
      ScanIs(c[1..]);
    }
  }

  /** A byte stored into a retired block as the release left it is one more error in the end, exactly if it
      is among those `mwTestMem` looks at and changed. */
  lemma WildWriteReported(s: State, r: Rec, at: nat, v: byte)
    requires Balanced(s) && r in s.chain && r.nml && at < r.size
    requires forall i :: ZONE <= i < ZONE + r.size ==> r.zone[i] == VAL_NML
    ensures ScanErrors(Write(s, r.addr, at, v).chain) ==
      ScanErrors(s.chain) + if at < r.size % 0x1_0000_0000 && v != VAL_NML then 1 else 0
  {
    hide Patched, Count, Wild, ScanErrors;
    BalancedTidy(s);
    HeldIsFound(s.chain, r);
    var i := Find(s.chain, r.addr);
    var x := r.(zone := Patched(r.zone, at, [v]));
    ScanIs(s.chain);
    ScanIs(s.chain[i := x]);
    WildUpdate(s.chain, i, x);
    UpdateCount(s.chain, i, x, false);
    ByteIsWild(r, at, v);
  }

  lemma ByteIsWild(r: Rec, at: nat, v: byte)
    requires WellSized(r) && at < r.size && forall i :: ZONE <= i < ZONE + r.size ==> r.zone[i] == VAL_NML
    ensures !Written(r)
    ensures Written(r.(zone := Patched(r.zone, at, [v]))) <==> at < r.size % 0x1_0000_0000 && v != VAL_NML
  {
    var z := Patched(r.zone, at, [v]);
    assert z == r.zone[ZONE + at := v];
    assert z[ZONE + at] == v;
  }

  /** After `mwAbort`, `mwInit` begins with the books of a new memwatch, but for the number of live blocks,
      the level, the limit, the mode, the history and the count of calls; grabbed kilobytes are left only of
      more than 60000. */
  lemma RestartIsFresh(s: State)
    requires Proper(s)
    ensures var t := Begun(Aborted(Awake(s)));
      && t == Initial(s.statLevel).(inited := 1, numCur := s.numCur, useLimit := s.useLimit, limit := s.limit,
                                    nmlLevel := s.nmlLevel, hist := s.hist, counter := s.counter, grabs := t.grabs)
      && forall kind ::
        MwGrab.CountKind(t.grabs, kind) ==
        Max(0, MwGrab.CountKind(s.grabs, kind) - if kind in {VAL_NML, VAL_GRB} then 60000 else 0)
  {
    hide Balanced;
    var g := MwGrab.Drop(s.grabs, 60000, VAL_GRB);
    forall kind
      ensures MwGrab.CountKind(MwGrab.Drop(g, 60000, VAL_NML), kind) ==
        Max(0, MwGrab.CountKind(s.grabs, kind) - if kind in {VAL_NML, VAL_GRB} then 60000 else 0)
    {
      MwGrab.DropCounts(s.grabs, 60000, VAL_GRB, kind);
      MwGrab.DropCounts(g, 60000, VAL_NML, kind);
    }
  }

  // ----- all errors of a run

  function AllocationFaults(s: State, size: Size, o: MallocOracle): nat {
    if OVERHEAD + size >= SIZE_LIMIT then 0
    else if s.useLimit && ToLong(size) + s.statCur > s.limit then 1
    else Shortage(s, o)
  }

  /** A pointer to nothing, a second release, broken guards. */
  function ReleaseFaults(s: State, p: int, file: Name): nat {
    var i := Find(s.chain, p);
    if file == None || p == 0 then 0
    else if i == |s.chain| then 1
    else Broken(s.chain[i]) + if s.chain[i].nml then 1 else 0
  }

  function ExchangeFaults(s: State, p: int, size: Size, o: MallocOracle): nat {
    var i := Find(s.chain, p);
    if i == |s.chain| then 1
    else if s.chain[i].nml then 2
    else if s.useLimit && ToLong(size) + s.statCur - s.chain[i].size > s.limit then 1
    else if OVERHEAD + size >= SIZE_LIMIT then 0
    else if Given(s, o) then Broken(s.chain[i])
    else Shortage(s, o)
  }

  /** What a call finds wrong. */
  function Faults(s: State, op: Op): nat {
    match op
    case OpMalloc(size, _, _, o) => AllocationFaults(s, size, o)
    case OpCalloc(a, b, _, _, o) => AllocationFaults(s, (a * b) % SIZE_LIMIT, o)
    case OpRealloc(p, size, file, _, o) =>
      if p == 0 then AllocationFaults(s, size, o.malloc)
      else if size == 0 then ReleaseFaults(s, p, file)
      else ExchangeFaults(s, p, size, o.malloc)
    case OpFree(p, file, _, _) => ReleaseFaults(s, p, file)
    case _ => 0
  }

  lemma FreeReports(s: State, p: int, file: Name, line: int, o: BookOracle)
    requires Balanced(s)
    ensures Reported(Free(s, p, file, line, o).0) == Reported(s) + ReleaseFaults(s, p, file)
  {
    hide Balanced, Free, Broken, Wild, Find, Laid, Remembers;
    BalancedTidy(s);
    NotOwned(s.chain, p);
    if file.Some? && p != 0 && Owned(s.chain, p) && !s.chain[Find(s.chain, p)].nml {
      HeldIsFound(s.chain, s.chain[Find(s.chain, p)]);
      ReleaseOutcome(s, s.chain[Find(s.chain, p)], file, line, o);
    } else {
      forall r | r in s.chain && r.addr == p && p != 0 && file.Some?
        ensures r.nml
      {
        HeldIsFound(s.chain, r);
      }
      Refused(s, p, file, line, o);
    }
  }

  lemma Refused(s: State, p: int, file: Name, line: int, o: BookOracle)
    requires Balanced(s)
    requires file == None || p == 0 || (Owned(s.chain, p) ==> s.chain[Find(s.chain, p)].nml)
    ensures Reported(Free(s, p, file, line, o).0) == Reported(s) + ReleaseFaults(s, p, file)
  {
    hide Broken, GuardErrors, Wild, Find, Remembers;
    if Owned(s.chain, p) {
      GuardErrorsAre(s.chain[Find(s.chain, p)]);
    }
  }

  lemma ReallocReports(s: State, p: int, size: Size, file: Name, line: int, o: ReallocOracle)
    requires Balanced(s) && Grants(s, size, o.malloc) && Returnable(s, p, file)
    ensures Reported(Realloc(s, p, size, file, line, o).0) == Reported(s) + Faults(s, OpRealloc(p, size, file, line, o))
  {
    hide Balanced, Malloc, Free, Grants, Broken, Wild, Find, Given, Shortage;
    ReallocDegenerate(s, p, size, file, line, o);
    MallocOutcome(s, size, file, line, o.malloc);
    FreeReports(s, p, file, line, o.free);
    if p != 0 && size != 0 {
      ExchangeReports(s, p, size, file, line, o);
    }
  }

  lemma ExchangeReports(s: State, p: int, size: Size, file: Name, line: int, o: ReallocOracle)
    requires Balanced(s) && Grants(s, size, o.malloc) && Returnable(s, p, file) && p != 0 && size != 0
    ensures Reported(Realloc(s, p, size, file, line, o).0) == Reported(s) + ExchangeFaults(s, p, size, o.malloc)
  {
    hide Balanced, Moved, Grants, Broken, Wild, Find, Yields;
    BalancedTidy(s);
    if Owned(s.chain, p) && !s.chain[Find(s.chain, p)].nml {
      var x := s.chain[Find(s.chain, p)];
      HeldIsFound(s.chain, x);
      ReallocOutcome(s, x, size, file, line, o);
    }
  }

  /** A call counts its own faults, and those of wild writes to the blocks it sheds. */
  lemma ActReports(s: State, op: Op)
    requires Balanced(s) && Allowed(s, op) && !op.OpWrite?
    ensures Reported(Act(s, op)) == Reported(s) + Faults(s, op)
  {
    hide Balanced, Malloc, Calloc, Free, Realloc, Grants, Broken, Wild, Find, Yields, ExchangeFaults, Returnable;
    hide ReleaseFaults;
    match op {
      case OpMalloc(size, file, line, o) => MallocOutcome(s, size, file, line, o);
      case OpCalloc(a, b, file, line, o) =>
        MallocOutcome(s, (a * b) % SIZE_LIMIT, file, line, o);
        CallocOutcome(s, a, b, file, line, o);
      case OpRealloc(p, size, file, line, o) => ReallocReports(s, p, size, file, line, o);
      case OpFree(p, file, line, o) => FreeReports(s, p, file, line, o);
      case _ =>
    }
  }

  lemma StepReports(s: State, op: Op)
    requires Proper(s) && Allowed(s, op) && !op.OpWrite?
    ensures Reported(Step(s, op)) == Reported(s) + Faults(Ready(s, op), op)
  {
    hide Balanced, Act, Ready, Allowed, Faults, Wild;
    ReadyIs(s, op);
    ActReports(Ready(s, op), op);
  }

  lemma {:induction false} HealthyIsTame(c: seq<Rec>)
    requires forall r :: r in c ==> Sound(r)
    ensures Wild(c) == 0
  {
    hide Written, Touched;
    if c != [] {
      TouchedIs(c[0]);
      SoundIsTame(c[0]);
      HealthyIsTame(c[1..]);
    }
  }

  lemma SoundIsTame(r: Rec)
    requires Sound(r)
    ensures r.nml ==> !Touched(r)
  {
  }

  function RunFaults(s: State, ops: seq<Op>): nat
    decreases |ops|
  {
    if ops == [] then 0 else Faults(Ready(s, ops[0]), ops[0]) + RunFaults(Step(s, ops[0]), ops[1..])
  }

  /** Over a run, a client that stays within its payloads is charged for its faults, one by one, and for
      nothing else. */
  lemma {:induction false} RunReports(s: State, ops: seq<Op>)
    requires Proper(s) && Healthy(s) && AllowedRun(s, ops) && ConfinedRun(s, ops)
    ensures Run(s, ops).errors == s.errors + RunFaults(s, ops)
    decreases |ops|
  {
    hide Proper, Step, Allowed, Sound, Confined, Faults, Ready;
    if ops != [] {
      StepKeeps(s, ops[0]);
      StepHealthy(s, ops[0]);
      StepCharges(s, ops[0]);
      RunReports(Step(s, ops[0]), ops[1..]);
    }
  }

  lemma StepCharges(s: State, op: Op)
    requires Proper(s) && Healthy(s) && Allowed(s, op) && Confined(s, op)
    ensures Step(s, op).errors == s.errors + Faults(Ready(s, op), op)
  {
    hide Proper, Allowed, Sound, Confined, Wild, Find;
    if !op.OpWrite? {
      StepHealthy(s, op);
      StepReports(s, op);
      HealthyIsTame(s.chain);
      HealthyIsTame(Step(s, op).chain);
    }
  }
}
