/** The books balance: what every run of allocation calls keeps. */
module MwAccounting {
  import opened MwBlock
  import MwGrab
  import opened MwGuard
  import opened MwLedger
  import opened MwRing
  import opened MwStats
  import opened Basics

  // ----- sums over the chain

  datatype Key = All | OfFile(file: Name) | OfLine(file: Name, line: int) | OffLine(file: Name, line: int) | Lined

  predicate Picks(k: Key, r: Rec) {
    match k
    case All => true
    case OfFile(f) => r.file == f
    case OfLine(f, l) => r.file == f && r.line == l
    case OffLine(f, l) => r.file == f && r.line != l
    case Lined => r.file.Some? && r.line != MODULE_LINE
  }

  /** How many blocks are in no-mans-land (`nml`) or not. */
  function Count(c: seq<Rec>, nml: bool): nat {
    if c == [] then 0 else (if c[0].nml == nml then 1 else 0) + Count(c[1..], nml)
  }

  function Bytes(c: seq<Rec>, nml: bool, k: Key): nat {
    if c == [] then 0 else (if c[0].nml == nml && Picks(k, c[0]) then c[0].size else 0) + Bytes(c[1..], nml, k)
  }

  lemma UpdateSums(c: seq<Rec>, i: nat, r: Rec, nml: bool, k: Key)
    requires i < |c|
    ensures Count(c[i := r], nml) ==
      Count(c, nml) - (if c[i].nml == nml then 1 else 0) + (if r.nml == nml then 1 else 0)
    ensures Bytes(c[i := r], nml, k) == Bytes(c, nml, k)
      - (if c[i].nml == nml && Picks(k, c[i]) then c[i].size else 0)
      + (if r.nml == nml && Picks(k, r) then r.size else 0)
  {
    UpdateCount(c, i, r, nml);
    UpdateBytes(c, i, r, nml, k);
  }

  lemma {:induction false} UpdateCount(c: seq<Rec>, i: nat, r: Rec, nml: bool)
    requires i < |c|
    ensures Count(c[i := r], nml) ==
      Count(c, nml) - (if c[i].nml == nml then 1 else 0) + (if r.nml == nml then 1 else 0)
  {
    UpdateTail(c, i, r);
    if i > 0 {
      UpdateCount(c[1..], i - 1, r, nml);
    }
  }

  lemma {:induction false} UpdateBytes(c: seq<Rec>, i: nat, r: Rec, nml: bool, k: Key)
    requires i < |c|
    ensures Bytes(c[i := r], nml, k) == Bytes(c, nml, k)
      - (if c[i].nml == nml && Picks(k, c[i]) then c[i].size else 0)
      + (if r.nml == nml && Picks(k, r) then r.size else 0)
  {
    hide Picks;
    UpdateTail(c, i, r);
    if i > 0 {
      UpdateBytes(c[1..], i - 1, r, nml, k);
    }
  }

  lemma UpdateTail(c: seq<Rec>, i: nat, r: Rec)
    requires i < |c|
    ensures i == 0 ==> c[i := r][1..] == c[1..]
    ensures i > 0 ==> c[i := r][1..] == c[1..][i - 1 := r]
  {
  }

  lemma RemoveSums(c: seq<Rec>, i: nat, nml: bool, k: Key)
    requires i < |c|
    ensures var d := c[..i] + c[i + 1..];
      && Count(d, nml) == Count(c, nml) - (if c[i].nml == nml then 1 else 0)
      && Bytes(d, nml, k) == Bytes(c, nml, k) - (if c[i].nml == nml && Picks(k, c[i]) then c[i].size else 0)
  {
    RemoveCount(c, i, nml);
    RemoveBytes(c, i, nml, k);
  }

  lemma {:induction false} RemoveCount(c: seq<Rec>, i: nat, nml: bool)
    requires i < |c|
    ensures Count(c[..i] + c[i + 1..], nml) == Count(c, nml) - if c[i].nml == nml then 1 else 0
  {
    CutTail(c, i);
    if i > 0 {
      RemoveCount(c[1..], i - 1, nml);
    }
  }

  lemma {:induction false} RemoveBytes(c: seq<Rec>, i: nat, nml: bool, k: Key)
    requires i < |c|
    ensures Bytes(c[..i] + c[i + 1..], nml, k) ==
      Bytes(c, nml, k) - if c[i].nml == nml && Picks(k, c[i]) then c[i].size else 0
  {
    hide Picks;
    CutTail(c, i);
    if i > 0 {
      RemoveBytes(c[1..], i - 1, nml, k);
    }
  }

  lemma CutTail(c: seq<Rec>, i: nat)
    requires i < |c|
    ensures i == 0 ==> c[..i] + c[i + 1..] == c[1..]
    ensures i > 0 ==> (c[..i] + c[i + 1..])[0] == c[0]
    ensures i > 0 ==> (c[..i] + c[i + 1..])[1..] == c[1..][..i - 1] + c[1..][i..]
  {
  }

  // ----- shedding no-mans-land blocks

  /** `d` is `c` without some of its no-mans-land blocks. */
  predicate Shed(c: seq<Rec>, d: seq<Rec>) {
    if c == [] then d == []
    else (d != [] && c[0] == d[0] && Shed(c[1..], d[1..])) || (c[0].nml && Shed(c[1..], d))
  }

  lemma {:induction false} ShedNothing(c: seq<Rec>)
    ensures Shed(c, c)
  {
    if c != [] {
      ShedNothing(c[1..]);
    }
  }

  lemma {:induction false} ShedTwice(c: seq<Rec>, d: seq<Rec>, e: seq<Rec>)
    requires Shed(c, d) && Shed(d, e)
    ensures Shed(c, e)
    decreases |c|
  {
    if c != [] {
      if d != [] && c[0] == d[0] && Shed(c[1..], d[1..]) {
        if e != [] && d[0] == e[0] && Shed(d[1..], e[1..]) {
          ShedTwice(c[1..], d[1..], e[1..]);
        } else {
          ShedTwice(c[1..], d[1..], e);
        }
      } else {
        ShedTwice(c[1..], d, e);
      }
    }
  }

  lemma {:induction false} ReleaseSheds(c: seq<Rec>, tries: seq<bool>)
    ensures Shed(c, ReleaseBlocks(c, tries).left)
  {
    if c != [] {
      ShedNothing(c[1..]);
      if !c[0].nml {
        ReleaseSheds(c[1..], tries);
        var l := ReleaseBlocks(c[1..], tries).left;
        assert ([c[0]] + l)[1..] == l;
      } else {
        ReleaseSheds(c[1..], Rest(tries));
      }
    }
  }

  lemma {:induction false} ShedSums(c: seq<Rec>, d: seq<Rec>, k: Key)
    requires Shed(c, d)
    ensures Count(d, false) == Count(c, false) && Bytes(d, false, k) == Bytes(c, false, k)
    ensures Count(c, true) - Count(d, true) == |c| - |d| >= 0
    ensures Bytes(d, true, k) <= Bytes(c, true, k)
    ensures |c| == |d| ==> c == d
  {
    hide Picks;
    if c != [] {
      if d != [] && c[0] == d[0] && Shed(c[1..], d[1..]) {
        ShedSums(c[1..], d[1..], k);
      } else {
        ShedSums(c[1..], d, k);
      }
    }
  }

  /** A live block stays where it is reachable, and nothing new appears. */
  lemma {:induction false} ShedFinds(c: seq<Rec>, d: seq<Rec>, p: int)
    requires Shed(c, d) && DistinctAddrs(c)
    ensures Owned(d, p) ==> Owned(c, p) && d[Find(d, p)] == c[Find(c, p)]
    ensures Owned(c, p) && !c[Find(c, p)].nml ==> Owned(d, p)
  {
    if c != [] {
      if d != [] && c[0] == d[0] && Shed(c[1..], d[1..]) {
        ShedFinds(c[1..], d[1..], p);
      } else {
        ShedFinds(c[1..], d, p);
        if c[0].addr == p {
          assert forall r :: r in c[1..] ==> r.addr != p;
        }
      }
    }
  }

  predicate DistinctAddrs(c: seq<Rec>) {
    forall i, j :: 0 <= i < j < |c| ==> c[i].addr != c[j].addr
  }

  lemma {:induction false} ShedMembers(c: seq<Rec>, d: seq<Rec>)
    requires Shed(c, d)
    ensures forall r :: r in d ==> r in c
    ensures DistinctAddrs(c) ==> DistinctAddrs(d)
  {
    if c != [] {
      if d != [] && c[0] == d[0] && Shed(c[1..], d[1..]) {
        ShedMembers(c[1..], d[1..]);
        assert forall r :: r in d ==> r == d[0] || r in d[1..];
        if DistinctAddrs(c) {
          forall i, j | 0 <= i < j < |d|
            ensures d[i].addr != d[j].addr
          {
            assert d[j] == d[1..][j - 1] && d[j] in c[1..];
            assert i > 0 ==> d[i] == d[1..][i - 1];
          }
        }
      } else {
        ShedMembers(c[1..], d);
      }
    }
  }

  /** What `mwFreeUp` and the statistics may change behind an allocation call's back. */
  predicate Relaxed(s: State, t: State) {
    && t == s.(chain := t.chain, grabs := t.grabs, stats := t.stats, errors := t.errors)
    && Shed(s.chain, t.chain) && s.errors <= t.errors
  }

  lemma FreeUpRelaxes(s: State, tries: seq<bool>)
    ensures Relaxed(s, FreeUp(s, tries).0)
  {
    ShedNothing(s.chain);
    ReleaseSheds(s.chain, ReleaseGrabs(s.grabs, tries).tries);
  }

  lemma BookAllRelaxes(s: State, e: Entry, size: int, file: Name, line: int, o: BookOracle)
    ensures Relaxed(s, BookAll(s, e, size, file, line, o))
  {
    ShedNothing(s.chain);
    if s.statLevel != 0 {
      BookOneRelaxes(s, e, size, file, MODULE_LINE, o.perFile);
      var t := BookOne(s, e, size, file, MODULE_LINE, o.perFile);
      if s.statLevel > 1 && line != MODULE_LINE && file.Some? {
        BookOneRelaxes(t, e, size, file, line, o.perLine);
        ShedTwice(s.chain, t.chain, BookOne(t, e, size, file, line, o.perLine).chain);
      }
    }
  }

  lemma BookOneRelaxes(s: State, e: Entry, size: int, file: Name, line: int, o: RecordOracle)
    ensures Relaxed(s, BookOne(s, e, size, file, line, o))
  {
    ShedNothing(s.chain);
    FreeUpRelaxes(s, o.tries);
  }

  // ----- the invariant

  predicate Tidy(c: seq<Rec>) {
    DistinctAddrs(c) && forall r :: r in c ==> WellSized(r) && r.addr != 0
  }

  /** The counters agree with the chain; the no-mans-land counters may have fallen behind. */
  predicate Balanced(s: State) {
    && Tidy(s.chain)
    && s.numCur == Count(s.chain, false)
    && s.statCur == Bytes(s.chain, false, All)
    && s.nmlNum >= Count(s.chain, true)
    && s.nmlCur >= Bytes(s.chain, true, All)
    && s.statCur <= s.statMax <= s.statTot
  }

  /** Some blocks, and their bytes. */
  datatype Extent = Extent(blocks: int, bytes: int)

  const NOTHING := Extent(0, 0)

  function Plus(a: Extent, b: Extent): Extent {
    Extent(a.blocks + b.blocks, a.bytes + b.bytes)
  }

  /** What the no-mans-land counters count that is no longer in the chain. */
  function Drift(s: State): Extent {
    Extent(s.nmlNum - Count(s.chain, true), s.nmlCur - Bytes(s.chain, true, All))
  }

  /** The counters only ever run further ahead, and in bytes only if in blocks. */
  predicate Slides(s: State, t: State) {
    && Drift(s).blocks <= Drift(t).blocks && Drift(s).bytes <= Drift(t).bytes
    && (Drift(s).blocks == Drift(t).blocks ==> Drift(s).bytes == Drift(t).bytes)
  }

  lemma RelaxedKeeps(s: State, t: State)
    requires Balanced(s) && Relaxed(s, t)
    ensures Balanced(t) && Slides(s, t)
  {
    ShedSums(s.chain, t.chain, All);
    ShedMembers(s.chain, t.chain);
  }

  /** The books right after a block was put on the chain. */
  function Entered(s: State, r: Rec): State {
    s.(chain := [r] + s.chain, numCur := s.numCur + 1, statCur := s.statCur + r.size, statTot := s.statTot + r.size,
       statMax := if s.statCur + r.size > s.statMax then s.statCur + r.size else s.statMax, statNum := s.statNum + 1)
  }

  function Fresh(addr: int, file: Name, line: int, size: Size, count: int): (r: Rec)
    ensures |r.zone| == size + 2 * ZONE
  {
    Rec(addr, file, line, size, count, false, Zone(Fill(size, VAL_NEW)))
  }

  lemma EnteredKeeps(s: State, r: Rec)
    requires Balanced(s) && WellSized(r) && !r.nml && r.addr != 0 && !Owned(s.chain, r.addr)
    ensures Balanced(Entered(s, r)) && Drift(Entered(s, r)) == Drift(s)
  {
    assert ([r] + s.chain)[1..] == s.chain;
    NotOwned(s.chain, r.addr);
  }

  lemma NotOwned(c: seq<Rec>, p: int)
    ensures Owned(c, p) <==> exists r :: r in c && r.addr == p
  {
    if exists r :: r in c && r.addr == p {
      var i :| 0 <= i < |c| && c[i].addr == p;
      assert Find(c, p) <= i;
    }
  }

  lemma EnterKeeps(s: State, addr: int, size: Size, file: Name, line: int, o: BookOracle)
    requires Balanced(s) && addr != 0 && !Owned(s.chain, addr) && OVERHEAD + size < LONG_LIMIT
    ensures Relaxed(Entered(s, Fresh(addr, file, line, size, s.counter)), Enter(s, addr, size, file, line, o))
    ensures Balanced(Enter(s, addr, size, file, line, o))
  {
    hide BookAll, Balanced, Relaxed, Owned;
    var r := Fresh(addr, file, line, size, s.counter);
    EnteredKeeps(s, r);
    BookAllRelaxes(Entered(s, r), Gain, ToLong(size), file, line, o);
    RelaxedKeeps(Entered(s, r), Enter(s, addr, size, file, line, o));
  }

  lemma ObtainRelaxes(s: State, size: Size, o: MallocOracle)
    requires Grants(s, size, o)
    ensures var (t, addr) := Obtain(s, o);
      Relaxed(s, t) && (addr != 0 ==> !Owned(t.chain, addr) && OVERHEAD + size < LONG_LIMIT)
  {
    hide FreeUp, Owned;
    ShedNothing(s.chain);
    FreeUpRelaxes(s, o.tries);
  }

  /** `mwFreeUp` looks at the chain and the grab list alone. */
  lemma SameGrants(s: State, t: State, size: Size, o: MallocOracle)
    requires s.chain == t.chain && s.grabs == t.grabs
    ensures Grants(s, size, o) == Grants(t, size, o)
  {
  }

  /** `t` differs from `s` only in what the books do not speak of. */
  predicate SameBooks(s: State, t: State) {
    s == t.(stats := s.stats, statLevel := s.statLevel, grabs := s.grabs, hist := s.hist, useLimit := s.useLimit,
            limit := s.limit, nmlLevel := s.nmlLevel, counter := s.counter, errors := s.errors, inited := s.inited)
  }

  lemma SameBooksKeep(s: State, t: State)
    requires SameBooks(s, t)
    ensures Balanced(s) == Balanced(t) && Drift(s) == Drift(t)
  {
  }

  /** An allocation either fails, or puts one fresh live block on the chain; besides, it may have
      shed blocks of no-mans-land. */
  lemma MallocIs(s: State, size: Size, file: Name, line: int, o: MallocOracle)
    requires Balanced(s) && Grants(s, size, o)
    ensures var (t, addr) := Malloc(s, size, file, line, o);
      var s0 := s.(counter := s.counter + 1);
      if addr == 0 then Relaxed(s0, t)
      else
        var r := Fresh(addr, file, line, size, s0.counter);
        && OVERHEAD + size < LONG_LIMIT
        && (Owned(s.chain, addr) ==> s.chain[Find(s.chain, addr)].nml)
        && Relaxed(Entered(s0, r), t) && LiveAt(t.chain, r)
    ensures Balanced(Malloc(s, size, file, line, o).0)
  {
    hide Balanced, Obtain, Enter, Entered, Fresh, Grants, Shed, Tidy, Find, LiveAt;
    var s0 := s.(counter := s.counter + 1);
    SameBooksKeep(s, s0);
    SameBooksKeep(s, s0.(errors := s.errors + 1));
    SameGrants(s, s0, size, o);
    ShedNothing(s.chain);
    ObtainRelaxes(s0, size, o);
    var (s1, addr) := Obtain(s0, o);
    RelaxedKeeps(s0, s1);
    if addr != 0 {
      EnterIs(s0, s1, addr, size, file, line, o.book);
    }
  }

  lemma EnterIs(s: State, s1: State, addr: int, size: Size, file: Name, line: int, o: BookOracle)
    requires Balanced(s) && Relaxed(s, s1) && Balanced(s1)
    requires addr != 0 && !Owned(s1.chain, addr) && OVERHEAD + size < LONG_LIMIT
    ensures var r, t := Fresh(addr, file, line, size, s.counter), Enter(s1, addr, size, file, line, o);
      && (Owned(s.chain, addr) ==> s.chain[Find(s.chain, addr)].nml)
      && Relaxed(Entered(s, r), t) && LiveAt(t.chain, r) && Balanced(t)
  {
    hide Balanced, Enter, Shed, Tidy, Find;
    EnterKeeps(s1, addr, size, file, line, o);
    var r := Fresh(addr, file, line, size, s.counter);
    var t := Enter(s1, addr, size, file, line, o);
    BalancedTidy(s);
    ShedFinds(s.chain, s1.chain, addr);
    ShedUnder(s.chain, s1.chain, t.chain, r);
    EnteredLive(s1, t, r);
  }

  lemma BalancedTidy(s: State)
    requires Balanced(s)
    ensures Tidy(s.chain) && DistinctAddrs(s.chain)
  {
  }

  lemma ShedUnder(c: seq<Rec>, d: seq<Rec>, e: seq<Rec>, r: Rec)
    requires Shed(c, d) && Shed([r] + d, e)
    ensures Shed([r] + c, e)
  {
    assert ([r] + c)[1..] == c && ([r] + d)[1..] == d;
    ShedTwice([r] + c, [r] + d, e);
  }

  lemma EnteredLive(s: State, t: State, r: Rec)
    requires Balanced(s) && !r.nml && r.addr != 0 && WellSized(r) && !Owned(s.chain, r.addr)
    requires Relaxed(Entered(s, r), t)
    ensures LiveAt(t.chain, r)
  {
    EnteredKeeps(s, r);
    ShedFinds([r] + s.chain, t.chain, r.addr);
  }

  lemma PatchKeeps(s: State, p: int, at: int, data: seq<byte>)
    requires Balanced(s)
    ensures Balanced(s.(chain := Patch(s.chain, p, at, data)))
    ensures Drift(s.(chain := Patch(s.chain, p, at, data))) == Drift(s)
  {
    if Owned(s.chain, p) {
      var i := Find(s.chain, p);
      var r := s.chain[i].(zone := Patched(s.chain[i].zone, at, data));
      UpdateSums(s.chain, i, r, false, All);
      UpdateSums(s.chain, i, r, true, All);
      UpdateTidy(s.chain, i, r);
    }
  }

  lemma UpdateTidy(c: seq<Rec>, i: nat, r: Rec)
    requires Tidy(c) && i < |c| && r.addr == c[i].addr && WellSized(r)
    ensures Tidy(c[i := r])
  {
  }

  lemma RemoveTidy(c: seq<Rec>, i: nat)
    requires Tidy(c) && i < |c|
    ensures Tidy(c[..i] + c[i + 1..])
  {
  }

  predicate LiveAt(c: seq<Rec>, r: Rec) {
    Owned(c, r.addr) && c[Find(c, r.addr)] == r && !r.nml
  }

  lemma GoneKeeps(s: State, t: State, r: Rec)
    requires Balanced(s) && LiveAt(s.chain, r) && Relaxed(Leaving(s, r), t)
    ensures Balanced(Gone(t, r)) && LiveAt(t.chain, r)
    ensures |Gone(t, r).chain| == |t.chain| - (if s.nmlLevel == 0 then 1 else 0)
    ensures Slides(s, Gone(t, r))
  {
    var i := Find(t.chain, r.addr);
    ShedFinds(s.chain, t.chain, r.addr);
    ShedSums(s.chain, t.chain, All);
    ShedMembers(s.chain, t.chain);
    assert r in s.chain && Tidy(t.chain);
    RemoveSums(t.chain, i, false, All);
    RemoveSums(t.chain, i, true, All);
    UpdateSums(t.chain, i, Retired(r), false, All);
    UpdateSums(t.chain, i, Retired(r), true, All);
    RemoveTidy(t.chain, i);
    UpdateTidy(t.chain, i, Retired(r));
  }

  /** A successful release, as the steps the invariant follows. */
  lemma FreeIs(s: State, r: Rec, file: Name, line: int, o: BookOracle)
    requires LiveAt(s.chain, r) && r.addr != 0 && file.Some?
    ensures var s1 := s.(counter := s.counter + 1, errors := s.errors + GuardErrors(r));
      var s2 := BookAll(Leaving(s1, r), Loss, ToLong(r.size), r.file, r.line, o);
      && Relaxed(Leaving(s1, r), s2)
      && Free(s, r.addr, file, line, o) == (Gone(s2, r).(hist := s.hist + [Release(r.addr, file, line)]), Freed)
  {
    hide Free, BookAll, GuardErrors, Gone, Leaving, Relaxed, LiveAt;
    var s1 := s.(counter := s.counter + 1, errors := s.errors + GuardErrors(r));
    FreeOfLive(s, r, file, line, o);
    BookAllRelaxes(Leaving(s1, r), Loss, ToLong(r.size), r.file, r.line, o);
  }

  lemma FreeOfLive(s: State, r: Rec, file: Name, line: int, o: BookOracle)
    requires LiveAt(s.chain, r) && r.addr != 0 && file.Some?
    ensures var s1 := s.(counter := s.counter + 1, errors := s.errors + GuardErrors(r));
      Free(s, r.addr, file, line, o) == (ReleaseLive(s1, r, file, line, o), Freed)
  {
    hide ReleaseLive, GuardErrors, Find;
  }

  lemma FreeKeeps(s: State, p: int, file: Name, line: int, o: BookOracle)
    requires Balanced(s)
    ensures var t := Free(s, p, file, line, o).0; Balanced(t) && Slides(s, t)
  {
    if file.Some? && p != 0 && Owned(s.chain, p) && !s.chain[Find(s.chain, p)].nml {
      var r := s.chain[Find(s.chain, p)];
      FreeIs(s, r, file, line, o);
      var s1 := s.(counter := s.counter + 1, errors := s.errors + GuardErrors(r));
      SameBooksKeep(s, s1);
      var s2 := BookAll(Leaving(s1, r), Loss, ToLong(r.size), r.file, r.line, o);
      GoneKeeps(s1, s2, r);
      SameBooksKeep(Gone(s2, r), Free(s, p, file, line, o).0);
    } else {
      SameBooksKeep(s, Free(s, p, file, line, o).0);
    }
  }

  lemma CallocKeeps(s: State, a: Size, b: Size, file: Name, line: int, o: MallocOracle)
    requires Balanced(s) && Grants(s, (a * b) % SIZE_LIMIT, o)
    ensures var t := Calloc(s, a, b, file, line, o).0; Balanced(t) && Slides(s, t)
  {
    hide Balanced, Malloc, Grants, Drift, Patch;
    var size := (a * b) % SIZE_LIMIT;
    MallocIs(s, size, file, line, o);
    MallocSlides(s, size, file, line, o);
    var (t, addr) := Malloc(s, size, file, line, o);
    PatchKeeps(t, addr, 0, Fill(size, 0));
  }

  lemma MallocSlides(s: State, size: Size, file: Name, line: int, o: MallocOracle)
    requires Balanced(s) && Grants(s, size, o)
    ensures Slides(s, Malloc(s, size, file, line, o).0)
  {
    hide Balanced, Malloc, Grants, Find, Shed;
    MallocIs(s, size, file, line, o);
    var (t, addr) := Malloc(s, size, file, line, o);
    var s0 := s.(counter := s.counter + 1);
    if addr == 0 {
      ShedSums(s0.chain, t.chain, All);
    } else {
      var r := Fresh(addr, file, line, size, s0.counter);
      ShedSums([r] + s0.chain, t.chain, All);
      assert ([r] + s0.chain)[1..] == s0.chain;
    }
  }

  lemma MovedKeeps(s: State, r: Rec, size: Size, file: Name, line: int, o: ReallocOracle)
    requires Balanced(s) && Grants(s, size, o.malloc)
    ensures var t := Moved(s, r, size, file, line, o).0; Balanced(t) && Slides(s, t)
  {
    hide Balanced, Malloc, Free, Grants, Drift, Patch, Payload0;
    var s0 := s.(useLimit := false);
    SameBooksKeep(s, s0);
    SameGrants(s, s0, size, o.malloc);
    MallocIs(s0, size, file, line, o.malloc);
    MallocSlides(s0, size, file, line, o.malloc);
    var (t, addr) := Malloc(s0, size, file, line, o.malloc);
    if addr == 0 {
      SameBooksKeep(t, t.(useLimit := s.useLimit));
    } else {
      var data := Payload0(r, Min(size, r.size));
      var t1 := t.(chain := Patch(t.chain, addr, 0, data));
      PatchKeeps(t, addr, 0, data);
      FreeKeeps(t1, r.addr, file, line, o.free);
      var t2 := Free(t1, r.addr, file, line, o.free).0;
      SameBooksKeep(t2, t2.(useLimit := s.useLimit));
    }
  }

  lemma ReallocKeeps(s: State, p: int, size: Size, file: Name, line: int, o: ReallocOracle)
    requires Balanced(s) && Grants(s, size, o.malloc)
    ensures var t := Realloc(s, p, size, file, line, o).0; Balanced(t) && Slides(s, t)
  {
    hide Balanced, Malloc, Free, Grants, Drift, Moved;
    MallocIs(s, size, file, line, o.malloc);
    MallocSlides(s, size, file, line, o.malloc);
    FreeKeeps(s, p, file, line, o.free);
    if Owned(s.chain, p) {
      MovedKeeps(s, s.chain[Find(s.chain, p)], size, file, line, o);
    }
    forall t | SameBooks(s, t)
      ensures Balanced(t) && Drift(t) == Drift(s)
    {
      SameBooksKeep(s, t);
    }
  }

  /** A call keeps the books; the no-mans-land counters never come back towards the chain. */
  lemma ActKeeps(s: State, op: Op)
    requires Balanced(s) && Allowed(s, op)
    ensures Balanced(Act(s, op)) && Slides(s, Act(s, op))
  {
    hide Balanced, Malloc, Calloc, Free, Realloc, Grants, Drift, Patch;
    match op {
      case OpMalloc(size, file, line, o) =>
        MallocIs(s, size, file, line, o);
        MallocSlides(s, size, file, line, o);
      case OpCalloc(a, b, file, line, o) => CallocKeeps(s, a, b, file, line, o);
      case OpRealloc(p, size, file, line, ro) => ReallocKeeps(s, p, size, file, line, ro);
      case OpFree(p, file, line, fo) => FreeKeeps(s, p, file, line, fo);
      case OpWrite(p, at, v) => PatchKeeps(s, p, at, [v]);
      case _ => SameBooksKeep(s, Act(s, op));
    }
  }

  // ----- starting on demand

  /** The books balance, and nothing is on the chain while memwatch is not running. */
  predicate Proper(s: State) {
    Balanced(s) && (s.inited == 0 ==> s.chain == [])
  }

  /** What `mwAutoInit` leaves: the running memwatch as it was, or books that balance. */
  lemma ReadyIs(s: State, op: Op)
    requires Proper(s)
    ensures var e := Ready(s, op);
      && Proper(e) && (AutoInits(op) ==> e.inited > 0) && (s.inited > 0 || !AutoInits(op) ==> e == s)
      && e == s.(inited := e.inited, stats := e.stats, statTot := e.statTot, statCur := e.statCur,
                 statMax := e.statMax, statNum := e.statNum, nmlNum := e.nmlNum, nmlCur := e.nmlCur)
      && e.statCur == s.statCur && (s.inited == 0 && AutoInits(op) ==> Drift(e) == NOTHING && e.stats == [])
    ensures Allowed(Ready(s, op), op) == Allowed(s, op)
  {
    hide Shed, ReleaseGrabs, ReleaseBlocks;
  }

  lemma FreeRuns(s: State, p: int, file: Name, line: int, o: BookOracle)
    ensures Free(s, p, file, line, o).0.inited == s.inited
  {
    hide BookAll, Shed, GuardErrors;
    if file.Some? && p != 0 && Owned(s.chain, p) && !s.chain[Find(s.chain, p)].nml {
      FreeIs(s, s.chain[Find(s.chain, p)], file, line, o);
    }
  }

  lemma MallocRuns(s: State, size: Size, file: Name, line: int, o: MallocOracle)
    ensures Malloc(s, size, file, line, o).0.inited == s.inited
  {
    hide BookAll, Shed, FreeUp;
    var s0 := s.(counter := s.counter + 1);
    FreeUpRelaxes(s0, o.tries);
    var (t, addr) := Obtain(s0, o);
    BookAllRelaxes(Admitted(t, addr, size, file, line), Gain, ToLong(size), file, line, o.book);
  }

  lemma ActRuns(s: State, op: Op)
    ensures Act(s, op).inited == s.inited
  {
    hide Malloc, Free, Patch, Refuse;
    match op {
      case OpMalloc(size, file, line, o) => MallocRuns(s, size, file, line, o);
      case OpCalloc(a, b, file, line, o) => MallocRuns(s, (a * b) % SIZE_LIMIT, file, line, o);
      case OpRealloc(p, size, file, line, o) => ReallocRuns(s, p, size, file, line, o);
      case OpFree(p, file, line, o) => FreeRuns(s, p, file, line, o);
      case _ =>
    }
  }

  lemma ReallocRuns(s: State, p: int, size: Size, file: Name, line: int, o: ReallocOracle)
    ensures Realloc(s, p, size, file, line, o).0.inited == s.inited
  {
    hide Malloc, Free, Patch, Payload0;
    MallocRuns(s, size, file, line, o.malloc);
    FreeRuns(s, p, file, line, o.free);
    if Owned(s.chain, p) {
      var r, s0 := s.chain[Find(s.chain, p)], s.(useLimit := false);
      MallocRuns(s0, size, file, line, o.malloc);
      var (t, addr) := Malloc(s0, size, file, line, o.malloc);
      FreeRuns(t.(chain := Patch(t.chain, addr, 0, Payload0(r, Min(size, r.size)))), p, file, line, o.free);
    }
  }

  /** Where nothing is on the chain, what goes past memwatch changes nothing. */
  lemma PassedBy(s: State, op: Op)
    requires !AutoInits(op) && s.chain == []
    ensures Act(s, op) == s
  {
    hide Patched;
  }

  /** One call keeps the books, and the counters run no nearer to the chain than it finds them. */
  lemma StepKeeps(s: State, op: Op)
    requires Proper(s) && Allowed(s, op)
    ensures Proper(Step(s, op)) && Slides(Ready(s, op), Step(s, op)) && Step(s, op).inited == Ready(s, op).inited
    ensures op.OpWrite? || (op.OpFree? && op.file == None) || Step(s, op).inited > 0
  {
    hide Balanced, Ready, Act, Allowed, Drift;
    ReadyIs(s, op);
    ActKeeps(Ready(s, op), op);
    ActRuns(Ready(s, op), op);
    if Ready(s, op).inited == 0 {
      PassedBy(Ready(s, op), op);
    }
  }

  /** Every run keeps the books. */
  lemma {:induction false} RunKeeps(s: State, ops: seq<Op>)
    requires Proper(s) && AllowedRun(s, ops)
    ensures Proper(Run(s, ops)) && Run(s, ops).inited >= s.inited
    ensures s.inited > 0 ==> Slides(s, Run(s, ops))
    decreases |ops|
  {
    hide Proper, Step, Act, Allowed, Drift;
    if ops != [] {
      ReadyIs(s, ops[0]);
      StepKeeps(s, ops[0]);
      RunKeeps(Step(s, ops[0]), ops[1..]);
    }
  }

  // ----- the end

  /** The books after `mwAbort`. */
  function Aborted(s: State): State {
    s.(chain := [], errors := 0, inited := 0,
       nmlNum := s.nmlNum - Count(s.chain, true), nmlCur := s.nmlCur - Bytes(s.chain, true, All),
       grabs := MwGrab.Drop(MwGrab.Drop(s.grabs, MwGrab.DROP_ALL, VAL_GRB), MwGrab.DROP_ALL, VAL_NML))
  }

  // ----- both kinds of blocks

  function TotalOf(c: seq<Rec>): int {
    Bytes(c, false, All) + Bytes(c, true, All)
  }

  lemma {:induction false} CountBoth(c: seq<Rec>)
    ensures |c| == Count(c, false) + Count(c, true)
    ensures Count(c, true) == 0 ==> Bytes(c, true, All) == 0
  {
    if c != [] {
      CountBoth(c[1..]);
    }
  }
}
