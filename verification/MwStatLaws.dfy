/** The statistics tell the truth about the chain, if they are kept from the start. */
module MwStatLaws {
  import opened MwBlock
  import opened MwLedger
  import opened MwAccounting
  import opened MwDrift
  import opened MwStats
  import MwGuarantees
  import opened Basics

  /** What `curr` of a record should be. Level 1 has no per-line records, and neither have
      allocations without a file name or on line -1. */
  function Expected(c: seq<Rec>, level: nat, file: Name, line: int): int {
    if line == MODULE_LINE then Bytes(c, false, OfFile(file))
    else if level > 1 && file.Some? then Bytes(c, false, OfLine(file, line))
    else 0
  }

  function ExpectedLines(c: seq<Rec>, level: nat, file: Name): int {
    if level > 1 && file.Some? then Bytes(c, false, OffLine(file, MODULE_LINE)) else 0
  }

  /** What a booking of `d` bytes on `file` and `line` adds to the record for `f` and `l`. */
  function Share(level: nat, file: Name, line: int, d: int, f: Name, l: int): int {
    if f == file && (l == MODULE_LINE || (level > 1 && file.Some? && l == line)) then d else 0
  }

  /** What it adds to the per-line records of `f` together. */
  function LinesShare(level: nat, file: Name, line: int, d: int, f: Name): int {
    if f == file && level > 1 && file.Some? && line != MODULE_LINE then d else 0
  }

  predicate AllOrdered(stats: seq<Stat>) {
    forall x :: x in stats ==> x.curr <= x.max <= x.total
  }

  ghost predicate Agrees(s: State) {
    && UniqueKeys(s.stats) && AllOrdered(s.stats)
    && (forall f, l :: CurrOf(s.stats, f, l) == Expected(s.chain, s.statLevel, f, l))
    && ModuleSum(s.stats) == Bytes(s.chain, false, All)
    && (forall f :: LineSum(s.stats, f) == ExpectedLines(s.chain, s.statLevel, f))
  }

  lemma BookOrdered(stats: seq<Stat>, e: Entry, size: nat, file: Name, line: int)
    requires AllOrdered(stats)
    ensures AllOrdered(Book(stats, e, size, file, line, true))
  {
    var s := Ensured(stats, file, line, true);
    var i := FindStat(s, file, line);
    assert forall x :: x in s ==> x in stats || x == Stat(file, line, 0, 0, 0, 0);
    if i < |s| {
      var t := s[i := Booked(s[i], e, size)];
      forall x | x in t
        ensures x.curr <= x.max <= x.total
      {
        assert s[i] in s;
        var j :| 0 <= j < |t| && t[j] == x;
        assert j != i ==> s[j] in s;
      }
    }
  }

  lemma BookBothEffect(stats: seq<Stat>, level: nat, e: Entry, size: nat, file: Name, line: int)
    requires UniqueKeys(stats) && AllOrdered(stats)
    ensures var t := BookBoth(stats, level, e, size, file, line, true, true);
      var d := Signed(e, size);
      && UniqueKeys(t) && AllOrdered(t)
      && (forall f, l :: CurrOf(t, f, l) == CurrOf(stats, f, l) + Share(level, file, line, d, f, l))
      && ModuleSum(t) == ModuleSum(stats) + d
      && (forall f :: LineSum(t, f) == LineSum(stats, f) + LinesShare(level, file, line, d, f))
  {
    hide Book, UniqueKeys, AllOrdered, CurrOf, ModuleSum, LineSum;
    BookEffect(stats, e, size, file, MODULE_LINE);
    BookOrdered(stats, e, size, file, MODULE_LINE);
    var s := Book(stats, e, size, file, MODULE_LINE, true);
    BookEffect(s, e, size, file, line);
    BookOrdered(s, e, size, file, line);
  }

  // ----- what a booking finds and leaves

  /** The records a booking on `file` and `line` needs are there. */
  predicate HasRecords(stats: seq<Stat>, level: nat, file: Name, line: int) {
    Has(stats, file, MODULE_LINE) && (level > 1 && line != MODULE_LINE && file.Some? ==> Has(stats, file, line))
  }

  /** A booking either has its record, found or new, or leaves everything as it was. */
  lemma BookIs(stats: seq<Stat>, e: Entry, size: int, file: Name, line: int, ok: bool, f: Name, l: int)
    ensures var t := Book(stats, e, size, file, line, ok);
      && t == (if ok || Has(stats, file, line) then Book(stats, e, size, file, line, true) else stats)
      && (Has(t, f, l) <==> Has(stats, f, l) || (ok && f == file && l == line))
  {
    var s := Ensured(stats, file, line, ok);
    var i := FindStat(s, file, line);
    assert s == stats || s[1..] == stats;
    if i < |s| {
      SameFind(s, s[i := Booked(s[i], e, size)], f, l);
    }
  }

  lemma BothIs(stats: seq<Stat>, level: nat, e: Entry, size: int, file: Name, line: int, ok1: bool, ok2: bool)
    ensures var t := BookBoth(stats, level, e, size, file, line, ok1, ok2);
      && (HasRecords(t, level, file, line) ==> t == BookBoth(stats, level, e, size, file, line, true, true))
      && (HasRecords(stats, level, file, line) ==> HasRecords(t, level, file, line))
  {
    hide Book, Has;
    var s := Book(stats, e, size, file, MODULE_LINE, ok1);
    BookIs(stats, e, size, file, MODULE_LINE, ok1, file, MODULE_LINE);
    BookIs(stats, e, size, file, MODULE_LINE, ok1, file, line);
    BookIs(s, e, size, file, line, ok2, file, line);
    BookIs(s, e, size, file, line, ok2, file, MODULE_LINE);
  }

  /** Booking nothing changes no sum, and booking a loss makes no missing record positive. */
  lemma BookMissing(stats: seq<Stat>, e: Entry, size: nat, file: Name, line: int, ok: bool, f: Name, l: int)
    requires UniqueKeys(stats) && AllOrdered(stats)
    ensures var t := Book(stats, e, size, file, line, ok);
      && UniqueKeys(t) && AllOrdered(t)
      && (e == Loss ==> CurrOf(t, f, l) <= CurrOf(stats, f, l))
      && (size == 0 ==>
        && CurrOf(t, f, l) == CurrOf(stats, f, l)
        && ModuleSum(t) == ModuleSum(stats) && LineSum(t, f) == LineSum(stats, f))
  {
    hide Book, UniqueKeys, AllOrdered, CurrOf, ModuleSum, LineSum;
    BookIs(stats, e, size, file, line, ok, f, l);
    BookEffect(stats, e, size, file, line);
    BookOrdered(stats, e, size, file, line);
  }

  lemma BothMissing(stats: seq<Stat>, level: nat, e: Entry, size: nat, file: Name, line: int, ok1: bool, ok2: bool,
                    f: Name, l: int)
    requires UniqueKeys(stats) && AllOrdered(stats)
    ensures var t := BookBoth(stats, level, e, size, file, line, ok1, ok2);
      && UniqueKeys(t) && AllOrdered(t)
      && (e == Loss ==> CurrOf(t, f, l) <= CurrOf(stats, f, l))
      && (size == 0 ==>
        && CurrOf(t, f, l) == CurrOf(stats, f, l)
        && ModuleSum(t) == ModuleSum(stats) && LineSum(t, f) == LineSum(stats, f))
  {
    hide Book, UniqueKeys, AllOrdered, CurrOf, ModuleSum, LineSum;
    BookMissing(stats, e, size, file, MODULE_LINE, ok1, f, l);
    BookMissing(Book(stats, e, size, file, MODULE_LINE, ok1), e, size, file, line, ok2, f, l);
  }

  /** A booking gets its record: there is one, or memory for one at once, or after `mwFreeUp`. */
  predicate Had(s: State, file: Name, line: int, o: RecordOracle) {
    Has(s.stats, file, line) || o.first || (FreeUp(s, o.tries).1 && o.second)
  }

  /** It gets the module record, and in the state this leaves the line record if the level asks for one. */
  predicate BothHad(s: State, e: Entry, size: int, file: Name, line: int, o: BookOracle) {
    && Had(s, file, MODULE_LINE, o.perFile)
    && (s.statLevel > 1 && line != MODULE_LINE && file.Some? ==>
      Had(BookOne(s, e, size, file, MODULE_LINE, o.perFile), file, line, o.perLine))
  }

  lemma BookOneIs(s: State, e: Entry, size: int, file: Name, line: int, o: RecordOracle)
    ensures var t := BookOne(s, e, size, file, line, o);
      t.stats == Book(s.stats, e, size, file, line, Had(s, file, line, o)) && t.statLevel == s.statLevel
  {
    hide Book, ReleaseGrabs, ReleaseBlocks;
    BookIs(s.stats, e, size, file, line, true, file, line);
  }

  lemma BookAllIs(s: State, e: Entry, size: int, file: Name, line: int, o: BookOracle) returns (ok1: bool, ok2: bool)
    requires s.statLevel > 0
    ensures var t := BookAll(s, e, size, file, line, o);
      && t.stats == BookBoth(s.stats, s.statLevel, e, size, file, line, ok1, ok2) && t.statLevel == s.statLevel
      && (HasRecords(t.stats, t.statLevel, file, line) <==> BothHad(s, e, size, file, line, o))
  {
    hide Book, BookOne, Had, Has;
    ok1 := Had(s, file, MODULE_LINE, o.perFile);
    BookOneIs(s, e, size, file, MODULE_LINE, o.perFile);
    BookIs(s.stats, e, size, file, MODULE_LINE, ok1, file, MODULE_LINE);
    var t := BookOne(s, e, size, file, MODULE_LINE, o.perFile);
    ok2 := Had(t, file, line, o.perLine);
    BookOneIs(t, e, size, file, line, o.perLine);
    BookIs(t.stats, e, size, file, line, ok2, file, MODULE_LINE);
    BookIs(t.stats, e, size, file, line, ok2, file, line);
    FoundIsHad(s, file, MODULE_LINE, o.perFile);
    FoundIsHad(t, file, line, o.perLine);
  }

  lemma FoundIsHad(s: State, file: Name, line: int, o: RecordOracle)
    ensures Has(s.stats, file, line) ==> Had(s, file, line, o)
  {
    hide Has, FreeUp;
  }

  /** Booking a block in or out follows the chain. */
  lemma Follows(s: State, t: State, e: Entry, r: Rec)
    requires Agrees(s) && s.statLevel == t.statLevel
    requires t.stats == BookBoth(s.stats, s.statLevel, e, r.size, r.file, r.line, true, true)
    requires forall k ::
      Bytes(t.chain, false, k) == Bytes(s.chain, false, k) + (if Picks(k, r) then Signed(e, r.size) else 0)
    ensures Agrees(t)
  {
    hide BookBoth, UniqueKeys, AllOrdered, CurrOf, ModuleSum, LineSum, Bytes;
    BookBothEffect(s.stats, s.statLevel, e, r.size, r.file, r.line);
    ByLine(s.chain, t.chain, e, r, s.statLevel);
  }

  lemma ByLine(c: seq<Rec>, d: seq<Rec>, e: Entry, r: Rec, level: nat)
    requires forall k :: Bytes(d, false, k) == Bytes(c, false, k) + (if Picks(k, r) then Signed(e, r.size) else 0)
    ensures forall f, l ::
      Expected(d, level, f, l) == Expected(c, level, f, l) + Share(level, r.file, r.line, Signed(e, r.size), f, l)
    ensures forall f ::
      ExpectedLines(d, level, f) ==
      ExpectedLines(c, level, f) + LinesShare(level, r.file, r.line, Signed(e, r.size), f)
    ensures Bytes(d, false, All) == Bytes(c, false, All) + Signed(e, r.size)
  {
    hide Bytes;
    forall f, l
      ensures Expected(d, level, f, l) ==
        Expected(c, level, f, l) + Share(level, r.file, r.line, Signed(e, r.size), f, l)
    {
      assert Picks(OfFile(f), r) <==> f == r.file;
      assert Picks(OfLine(f, l), r) <==> f == r.file && l == r.line;
    }
    assert forall f :: Picks(OffLine(f, MODULE_LINE), r) <==> f == r.file && r.line != MODULE_LINE;
    assert Picks(All, r);
  }

  lemma Unchanged(s: State, t: State)
    requires Agrees(s) && s.statLevel == t.statLevel && t.stats == s.stats
    requires forall k :: Bytes(t.chain, false, k) == Bytes(s.chain, false, k)
    ensures Agrees(t)
  {
    hide UniqueKeys, AllOrdered, CurrOf, ModuleSum, LineSum, Bytes;
    assert forall f, l :: Expected(t.chain, t.statLevel, f, l) == Expected(s.chain, s.statLevel, f, l);
    assert forall f :: ExpectedLines(t.chain, t.statLevel, f) == ExpectedLines(s.chain, s.statLevel, f);
  }

  /** A block that is booked in: the records are right afterwards exactly if they are there, or if it
      has no bytes. */
  lemma GainAgrees(s: State, t: State, r: Rec, ok1: bool, ok2: bool)
    requires Agrees(s) && s.statLevel == t.statLevel > 0
    requires t.stats == BookBoth(s.stats, s.statLevel, Gain, r.size, r.file, r.line, ok1, ok2)
    requires forall k :: Bytes(t.chain, false, k) == Bytes(s.chain, false, k) + (if Picks(k, r) then r.size else 0)
    ensures Agrees(t) <==> r.size == 0 || HasRecords(t.stats, t.statLevel, r.file, r.line)
  {
    hide BookBoth, UniqueKeys, AllOrdered, ModuleSum, LineSum, Bytes;
    BothIs(s.stats, s.statLevel, Gain, r.size, r.file, r.line, ok1, ok2);
    if HasRecords(t.stats, t.statLevel, r.file, r.line) {
      Follows(s, t, Gain, r);
    } else if r.size == 0 {
      NoBytesAgree(s, t, Gain, r, ok1, ok2);
    } else {
      var l := if Has(t.stats, r.file, MODULE_LINE) then r.line else MODULE_LINE;
      MissingShows(s, t, r, l);
    }
  }

  lemma MissingShows(s: State, t: State, r: Rec, l: int)
    requires t.statLevel > 0 && r.size > 0 && CurrOf(t.stats, r.file, l) <= 0
    requires l == MODULE_LINE || (l == r.line && t.statLevel > 1 && r.file.Some?)
    requires forall k :: Picks(k, r) ==> Bytes(t.chain, false, k) >= r.size
    ensures !Agrees(t)
  {
    hide UniqueKeys, AllOrdered, ModuleSum, LineSum, Bytes, CurrOf;
    assert Picks(OfFile(r.file), r) && Picks(OfLine(r.file, r.line), r);
    assert Expected(t.chain, t.statLevel, r.file, l) > 0;
  }

  lemma NoBytesAgree(s: State, t: State, e: Entry, r: Rec, ok1: bool, ok2: bool)
    requires Agrees(s) && s.statLevel == t.statLevel && r.size == 0
    requires t.stats == BookBoth(s.stats, s.statLevel, e, r.size, r.file, r.line, ok1, ok2)
    requires forall k :: Bytes(t.chain, false, k) == Bytes(s.chain, false, k)
    ensures Agrees(t)
  {
    hide BookBoth, UniqueKeys, AllOrdered, CurrOf, ModuleSum, LineSum, Bytes;
    forall f, l
      ensures CurrOf(t.stats, f, l) == CurrOf(s.stats, f, l)
    {
      BothMissing(s.stats, s.statLevel, e, r.size, r.file, r.line, ok1, ok2, f, l);
    }
    forall f
      ensures LineSum(t.stats, f) == LineSum(s.stats, f)
    {
      BothMissing(s.stats, s.statLevel, e, r.size, r.file, r.line, ok1, ok2, f, 0);
    }
    BothMissing(s.stats, s.statLevel, e, r.size, r.file, r.line, ok1, ok2, r.file, r.line);
    assert forall f, l :: Expected(t.chain, t.statLevel, f, l) == Expected(s.chain, s.statLevel, f, l);
    assert forall f :: ExpectedLines(t.chain, t.statLevel, f) == ExpectedLines(s.chain, s.statLevel, f);
  }

  /** A live block that is booked out finds its records, unless it has no bytes. */
  lemma LossAgrees(s: State, t: State, r: Rec, ok1: bool, ok2: bool)
    requires Agrees(s) && s.statLevel == t.statLevel > 0
    requires t.stats == BookBoth(s.stats, s.statLevel, Loss, r.size, r.file, r.line, ok1, ok2)
    requires forall k :: Bytes(t.chain, false, k) == Bytes(s.chain, false, k) - (if Picks(k, r) then r.size else 0)
    ensures Agrees(t)
  {
    hide BookBoth, UniqueKeys, AllOrdered, ModuleSum, LineSum, Bytes;
    if r.size == 0 {
      NoBytesAgree(s, t, Loss, r, ok1, ok2);
    } else {
      assert Picks(OfFile(r.file), r) && Picks(OfLine(r.file, r.line), r);
      assert CurrOf(s.stats, r.file, MODULE_LINE) == Expected(s.chain, s.statLevel, r.file, MODULE_LINE) > 0;
      if s.statLevel > 1 && r.line != MODULE_LINE && r.file.Some? {
        assert CurrOf(s.stats, r.file, r.line) == Expected(s.chain, s.statLevel, r.file, r.line) > 0;
      }
      BothIs(s.stats, s.statLevel, Loss, r.size, r.file, r.line, ok1, ok2);
      Follows(s, t, Loss, r);
    }
  }

  // ----- statistics that are off, and changes of level

  /** Records that stand for nothing. */
  predicate Idle(stats: seq<Stat>) {
    UniqueKeys(stats) && AllOrdered(stats) && forall x :: x in stats ==> x.curr == 0
  }

  /** The statistics are true, or off and harmless. */
  ghost predicate InOrder(s: State) {
    if s.statLevel > 0 then Agrees(s) else Idle(s.stats)
  }

  lemma {:induction false} IdleSums(stats: seq<Stat>, f: Name, l: int)
    requires forall x :: x in stats ==> x.curr == 0
    ensures CurrOf(stats, f, l) == 0 && ModuleSum(stats) == 0 && LineSum(stats, f) == 0
  {
    if stats != [] {
      assert stats[0] in stats;
      IdleSums(stats[1..], f, l);
      var i := FindStat(stats, f, l);
      assert i < |stats| ==> stats[i] in stats;
    }
  }

  lemma {:induction false} NoBytes(c: seq<Rec>, k: Key, m: Key)
    requires forall r :: r in c && Picks(m, r) ==> Picks(k, r)
    ensures Bytes(c, false, m) <= Bytes(c, false, k)
  {
    if c != [] {
      NoBytes(c[1..], k, m);
      assert c[0] in c;
    }
  }

  lemma {:induction false} SomeLined(c: seq<Rec>) returns (r: Rec)
    requires Bytes(c, false, Lined) > 0
    ensures Picks(Lined, r) && Bytes(c, false, OfLine(r.file, r.line)) > 0
  {
    if c[0].nml || !Picks(Lined, c[0]) || c[0].size == 0 {
      r := SomeLined(c[1..]);
    } else {
      r := c[0];
    }
  }

  /** Switching statistics on or off is harmless when no bytes are in use; switching between files
      and lines, when none are that line records would stand for; other changes always. */
  predicate MayChange(s: State, level: nat) {
    if s.statLevel == 0 || level == 0 then s.statLevel == level || s.statCur == 0
    else (s.statLevel > 1) == (level > 1) || Bytes(s.chain, false, Lined) == 0
  }

  lemma LateStart(s: State, level: int)
    requires Balanced(s) && Idle(s.stats) && level > 0
    ensures Agrees(SetStatistics(s, level)) <==> s.statCur == 0
  {
    hide UniqueKeys, AllOrdered, CurrOf, ModuleSum, LineSum, Bytes;
    var t := SetStatistics(s, level);
    forall f, l
      ensures CurrOf(s.stats, f, l) == 0
    {
      IdleSums(s.stats, f, l);
    }
    forall f
      ensures LineSum(s.stats, f) == 0
    {
      IdleSums(s.stats, f, 0);
    }
    IdleSums(s.stats, None, 0);
    if s.statCur == 0 {
      forall k
        ensures Bytes(s.chain, false, k) == 0
      {
        NoBytes(s.chain, All, k);
      }
    }
  }

  lemma SwitchOff(s: State)
    requires Balanced(s) && Agrees(s)
    ensures Idle(s.stats) <==> s.statCur == 0
  {
    hide ModuleSum, LineSum, Bytes;
    if Idle(s.stats) {
      IdleSums(s.stats, None, 0);
    }
    if s.statCur == 0 {
      forall x | x in s.stats
        ensures x.curr == 0
      {
        var i :| 0 <= i < |s.stats| && s.stats[i] == x;
        FindUnique(s.stats, i);
        assert CurrOf(s.stats, x.file, x.line) == Expected(s.chain, s.statLevel, x.file, x.line);
        NoBytes(s.chain, All, OfFile(x.file));
        NoBytes(s.chain, All, OfLine(x.file, x.line));
      }
    }
  }

  lemma SwitchLines(s: State, level: nat)
    requires Agrees(s) && s.statLevel > 0 && level > 0 && (s.statLevel > 1) != (level > 1)
    ensures Agrees(s.(statLevel := level)) <==> Bytes(s.chain, false, Lined) == 0
  {
    hide UniqueKeys, AllOrdered, CurrOf, ModuleSum, LineSum, Bytes;
    var t := s.(statLevel := level);
    if Bytes(s.chain, false, Lined) == 0 {
      forall f: Name, l: int | f.Some? && l != MODULE_LINE
        ensures Bytes(s.chain, false, OfLine(f, l)) == 0
      {
        NoBytes(s.chain, Lined, OfLine(f, l));
      }
      forall f: Name | f.Some?
        ensures Bytes(s.chain, false, OffLine(f, MODULE_LINE)) == 0
      {
        NoBytes(s.chain, Lined, OffLine(f, MODULE_LINE));
      }
      assert forall f, l :: Expected(t.chain, t.statLevel, f, l) == Expected(s.chain, s.statLevel, f, l);
      assert forall f :: ExpectedLines(t.chain, t.statLevel, f) == ExpectedLines(s.chain, s.statLevel, f);
    } else {
      var r := SomeLined(s.chain);
      assert Expected(t.chain, t.statLevel, r.file, r.line) != Expected(s.chain, s.statLevel, r.file, r.line);
    }
  }

  lemma SameLevels(s: State, level: nat)
    requires s.statLevel > 0 && level > 0 && (s.statLevel > 1) == (level > 1)
    ensures Agrees(s.(statLevel := level)) <==> Agrees(s)
  {
    hide UniqueKeys, AllOrdered, CurrOf, ModuleSum, LineSum, Bytes;
    var t := s.(statLevel := level);
    assert forall f, l :: Expected(t.chain, t.statLevel, f, l) == Expected(s.chain, s.statLevel, f, l);
    assert forall f :: ExpectedLines(t.chain, t.statLevel, f) == ExpectedLines(s.chain, s.statLevel, f);
  }

  /** A change of level leaves the statistics in order exactly when it may be made. */
  lemma LevelChange(s: State, level: int)
    requires Balanced(s) && InOrder(s)
    ensures InOrder(SetStatistics(s, level)) <==> MayChange(s, if level < 0 then 0 else level)
  {
    hide Balanced, Agrees, Idle, Bytes;
    var l: nat := if level < 0 then 0 else level;
    if s.statLevel == 0 {
      if l > 0 {
        LateStart(s, l);
      }
    } else if l == 0 {
      SwitchOff(s);
    } else if (s.statLevel > 1) == (l > 1) {
      SameLevels(s, l);
    } else {
      SwitchLines(s, l);
    }
  }

  // ----- the calls

  /** An allocation that books bytes gets the records it asks for. */
  predicate RecordedMalloc(s: State, size: Size, file: Name, line: int, o: MallocOracle) {
    var (t, addr) := Obtain(s.(counter := s.counter + 1), o);
    || s.statLevel == 0 || size == 0 || Malloc(s, size, file, line, o).1 == 0
    || BothHad(Admitted(t, addr, size, file, line), Gain, ToLong(size), file, line, o.book)
  }

  lemma RecordedIs(s: State, size: Size, file: Name, line: int, o: MallocOracle)
    requires s.statLevel > 0 && Malloc(s, size, file, line, o).1 != 0
    ensures RecordedMalloc(s, size, file, line, o) <==>
      size == 0 || HasRecords(Malloc(s, size, file, line, o).0.stats, s.statLevel, file, line)
  {
    hide BothHad, HasRecords, BookAll, FreeUp;
    var s0 := s.(counter := s.counter + 1);
    ObtainStats(s0, o);
    var (t, addr) := Obtain(s0, o);
    var _, _ := BookAllIs(Admitted(t, addr, size, file, line), Gain, ToLong(size), file, line, o.book);
  }

  /** While memwatch runs: the call gets the records it needs, or changes the level when it may. A
      release needs none that are not there. */
  predicate RecordedAct(s: State, op: Op) {
    match op
    case OpMalloc(size, file, line, o) => RecordedMalloc(s, size, file, line, o)
    case OpCalloc(a, b, file, line, o) => RecordedMalloc(s, (a * b) % SIZE_LIMIT, file, line, o)
    case OpRealloc(p, size, file, line, o) =>
      Realloc(s, p, size, file, line, o).1 != 0 ==>
        RecordedMalloc(if p == 0 then s else s.(useLimit := false), size, file, line, o.malloc)
    case OpStatistics(level) => MayChange(s, SetStatistics(s, level).statLevel)
    case _ => true
  }

  predicate RecordedOp(s: State, op: Op) {
    RecordedAct(Ready(s, op), op)
  }

  /** How an allocation changes the statistics and the sums. */
  lemma MallocStats(s: State, size: Size, file: Name, line: int, o: MallocOracle) returns (ok1: bool, ok2: bool)
    requires Balanced(s) && Grants(s, size, o)
    ensures var (t, addr) := Malloc(s, size, file, line, o);
      && t.statLevel == s.statLevel
      && (addr == 0 || s.statLevel == 0 ==> t.stats == s.stats)
      && (addr != 0 && s.statLevel > 0 ==>
        t.stats == BookBoth(s.stats, s.statLevel, Gain, size, file, line, ok1, ok2))
    ensures var (t, addr) := Malloc(s, size, file, line, o);
      forall k :: Bytes(t.chain, false, k) == Bytes(s.chain, false, k)
        + (if addr != 0 && Picks(k, Fresh(addr, file, line, size, s.counter + 1)) then size else 0)
  {
    hide Obtain, Enter, Shed, Balanced, Grants, Find, BookBoth, LiveAt;
    MallocIs(s, size, file, line, o);
    var s0 := s.(counter := s.counter + 1);
    ObtainStats(s0, o);
    var (s1, addr) := Obtain(s0, o);
    ok1, ok2 := true, true;
    if Malloc(s, size, file, line, o).1 != 0 {
      ok1, ok2 := EnterStats(s1, addr, size, file, line, o.book);
    }
    MallocSums(s, size, file, line, o);
  }

  lemma MallocSums(s: State, size: Size, file: Name, line: int, o: MallocOracle)
    requires Balanced(s) && Grants(s, size, o)
    ensures var (t, addr) := Malloc(s, size, file, line, o);
      forall k :: Bytes(t.chain, false, k) == Bytes(s.chain, false, k)
        + (if addr != 0 && Picks(k, Fresh(addr, file, line, size, s.counter + 1)) then size else 0)
  {
    hide Malloc, Shed, Balanced, Grants, Find, LiveAt, Picks;
    MallocIs(s, size, file, line, o);
    var (t, addr) := Malloc(s, size, file, line, o);
    var r := Fresh(addr, file, line, size, s.counter + 1);
    var c := if addr == 0 then s.chain else [r] + s.chain;
    forall k
      ensures Bytes(t.chain, false, k) == Bytes(s.chain, false, k) + (if addr != 0 && Picks(k, r) then size else 0)
    {
      ShedSums(c, t.chain, k);
      assert addr != 0 ==> c[1..] == s.chain;
    }
  }

  lemma ObtainStats(s: State, o: MallocOracle)
    ensures Obtain(s, o).0.stats == s.stats && Obtain(s, o).0.statLevel == s.statLevel
  {
    hide ReleaseGrabs, ReleaseBlocks;
  }

  lemma EnterStats(s: State, addr: int, size: Size, file: Name, line: int, o: BookOracle) returns (ok1: bool, ok2: bool)
    ensures var t := Enter(s, addr, size, file, line, o);
      && t.statLevel == s.statLevel && (s.statLevel == 0 ==> t.stats == s.stats)
      && (s.statLevel > 0 ==> t.stats == BookBoth(s.stats, s.statLevel, Gain, ToLong(size), file, line, ok1, ok2))
  {
    hide BookOne, BookBoth, BothHad, HasRecords;
    ok1, ok2 := true, true;
    if s.statLevel > 0 {
      ok1, ok2 := BookAllIs(Admitted(s, addr, size, file, line), Gain, ToLong(size), file, line, o);
    }
  }

  lemma MallocInOrder(s: State, size: Size, file: Name, line: int, o: MallocOracle)
    requires Balanced(s) && Grants(s, size, o) && InOrder(s)
    ensures InOrder(Malloc(s, size, file, line, o).0) <==> RecordedMalloc(s, size, file, line, o)
    ensures Malloc(s, size, file, line, o).0.statLevel == s.statLevel
  {
    hide Balanced, Grants, Malloc, Agrees, Idle, BookBoth, Bytes, HasRecords, BothHad;
    var (t, addr) := Malloc(s, size, file, line, o);
    var ok1, ok2 := MallocStats(s, size, file, line, o);
    if s.statLevel > 0 {
      if addr == 0 {
        Unchanged(s, t);
      } else {
        RecordedIs(s, size, file, line, o);
        GainAgrees(s, t, Fresh(addr, file, line, size, s.counter + 1), ok1, ok2);
      }
    }
  }

  /** How a release changes the statistics and the sums. */
  lemma FreeStats(s: State, x: Rec, file: Name, line: int, o: BookOracle) returns (ok1: bool, ok2: bool)
    requires Balanced(s) && LiveAt(s.chain, x) && file.Some?
    ensures var t := Free(s, x.addr, file, line, o).0;
      && t.statLevel == s.statLevel && (s.statLevel == 0 ==> t.stats == s.stats)
      && (s.statLevel > 0 ==> t.stats == BookBoth(s.stats, s.statLevel, Loss, x.size, x.file, x.line, ok1, ok2))
      && forall k :: Bytes(t.chain, false, k) == Bytes(s.chain, false, k) - (if Picks(k, x) then x.size else 0)
  {
    hide Bytes, BookOne, BookBoth, Shed, GuardErrors, Retired, Without, With, Free, BothHad, HasRecords;
    BalancedTidy(s);
    assert x in s.chain;
    FreeIs(s, x, file, line, o);
    var s1 := s.(counter := s.counter + 1, errors := s.errors + GuardErrors(x));
    ok1, ok2 := true, true;
    if s.statLevel > 0 {
      ok1, ok2 := BookAllIs(Leaving(s1, x), Loss, ToLong(x.size), x.file, x.line, o);
    }
    FreeSums(s, x, file, line, o);
  }

  lemma FreeSums(s: State, x: Rec, file: Name, line: int, o: BookOracle)
    requires Balanced(s) && LiveAt(s.chain, x) && file.Some?
    ensures var t := Free(s, x.addr, file, line, o).0;
      forall k :: Bytes(t.chain, false, k) == Bytes(s.chain, false, k) - (if Picks(k, x) then x.size else 0)
  {
    hide Bytes, BookAll, Shed, GuardErrors, Retired, Free, Picks, Find;
    BalancedTidy(s);
    assert x in s.chain;
    FreeIs(s, x, file, line, o);
    var s1 := s.(counter := s.counter + 1, errors := s.errors + GuardErrors(x));
    var s2 := BookAll(Leaving(s1, x), Loss, ToLong(x.size), x.file, x.line, o);
    ShedFinds(s.chain, s2.chain, x.addr);
    forall k
      ensures Bytes(Gone(s2, x).chain, false, k) == Bytes(s.chain, false, k) - (if Picks(k, x) then x.size else 0)
    {
      ShedSums(s.chain, s2.chain, k);
      RemoveSums(s2.chain, Find(s2.chain, x.addr), false, k);
      RetireSums(s2.chain, x.addr, k);
    }
  }

  lemma RetireSums(c: seq<Rec>, p: int, k: Key)
    requires Owned(c, p) && !c[Find(c, p)].nml
    ensures var x := c[Find(c, p)];
      Bytes(With(c, p, Retired(x)), false, k) == Bytes(c, false, k) - (if Picks(k, x) then x.size else 0)
  {
    var i := Find(c, p);
    UpdateSums(c, i, Retired(c[i]), false, k);
  }

  /** A release always leaves the statistics in order. */
  lemma FreeInOrder(s: State, p: int, file: Name, line: int, o: BookOracle)
    requires Balanced(s) && InOrder(s)
    ensures InOrder(Free(s, p, file, line, o).0) && Free(s, p, file, line, o).0.statLevel == s.statLevel
  {
    hide Agrees, Idle, BookBoth, BookAll, GuardErrors, Bytes, Gone, Find;
    var t := Free(s, p, file, line, o).0;
    if file.Some? && p != 0 && Owned(s.chain, p) && !s.chain[Find(s.chain, p)].nml {
      var x := s.chain[Find(s.chain, p)];
      var ok1, ok2 := FreeStats(s, x, file, line, o);
      if s.statLevel > 0 {
        LossAgrees(s, t, x, ok1, ok2);
      }
    } else if s.statLevel > 0 {
      Unchanged(s, t);
    }
  }

  lemma PatchSums(c: seq<Rec>, p: int, at: int, data: seq<byte>)
    ensures forall k :: Bytes(Patch(c, p, at, data), false, k) == Bytes(c, false, k)
  {
    hide Patched, Bytes;
    if Owned(c, p) {
      var i := Find(c, p);
      forall k
        ensures Bytes(Patch(c, p, at, data), false, k) == Bytes(c, false, k)
      {
        UpdateSums(c, i, c[i].(zone := Patched(c[i].zone, at, data)), false, k);
      }
    }
  }

  lemma PatchInOrder(s: State, p: int, at: int, data: seq<byte>)
    ensures InOrder(s.(chain := Patch(s.chain, p, at, data))) <==> InOrder(s)
  {
    hide Agrees, Idle, Patch, Bytes;
    var t := s.(chain := Patch(s.chain, p, at, data));
    PatchSums(s.chain, p, at, data);
    if Agrees(s) {
      Unchanged(s, t);
    }
    if Agrees(t) {
      Unchanged(t, s);
    }
  }

  lemma OtherFields(s: State, t: State)
    requires s.chain == t.chain && s.stats == t.stats && s.statLevel == t.statLevel
    ensures InOrder(s) <==> InOrder(t)
  {
  }

  /** An exchange is as good as its allocation: a record missing then shows in the end. */
  lemma MovedInOrder(s: State, x: Rec, size: Size, file: Name, line: int, o: ReallocOracle)
    requires Balanced(s) && Grants(s, size, o.malloc) && InOrder(s) && LiveAt(s.chain, x) && file.Some?
    ensures var (t, addr) := Moved(s, x, size, file, line, o);
      InOrder(t) <==> (addr != 0 ==> RecordedMalloc(s.(useLimit := false), size, file, line, o.malloc))
  {
    hide Balanced, InOrder, Malloc, Free, Grants, Patch, Payload0, RecordedMalloc, Find;
    var s0 := s.(useLimit := false);
    SameBooksKeep(s, s0);
    SameGrants(s, s0, size, o.malloc);
    OtherFields(s, s0);
    MallocIs(s0, size, file, line, o.malloc);
    MallocInOrder(s0, size, file, line, o.malloc);
    FailedIsRecorded(s0, size, file, line, o.malloc);
    var (t, addr) := Malloc(s0, size, file, line, o.malloc);
    OtherFields(t, t.(useLimit := s.useLimit));
    if addr != 0 {
      var data := Payload0(x, Min(size, x.size));
      var t1 := t.(chain := Patch(t.chain, addr, 0, data));
      PatchKeeps(t, addr, 0, data);
      PatchInOrder(t, addr, 0, data);
      var t2 := Free(t1, x.addr, file, line, o.free).0;
      OtherFields(t2, t2.(useLimit := s.useLimit));
      if InOrder(t) {
        FreeInOrder(t1, x.addr, file, line, o.free);
      } else {
        MissedForGood(s0, x, size, file, line, o, data);
      }
    }
  }

  lemma FailedIsRecorded(s: State, size: Size, file: Name, line: int, o: MallocOracle)
    ensures Malloc(s, size, file, line, o).1 == 0 ==> RecordedMalloc(s, size, file, line, o)
  {
    hide Malloc, BothHad;
  }

  lemma NotRecordedIs(s: State, size: Size, file: Name, line: int, o: MallocOracle)
    requires !RecordedMalloc(s, size, file, line, o)
    ensures s.statLevel > 0 && size > 0 && Malloc(s, size, file, line, o).1 != 0
    ensures !HasRecords(Malloc(s, size, file, line, o).0.stats, s.statLevel, file, line)
  {
    hide Malloc, BothHad, HasRecords, Obtain;
    if s.statLevel > 0 && Malloc(s, size, file, line, o).1 != 0 {
      RecordedIs(s, size, file, line, o);
    }
  }

  lemma MissedForGood(s: State, x: Rec, size: Size, file: Name, line: int, o: ReallocOracle, data: seq<byte>)
    requires Balanced(s) && Grants(s, size, o.malloc) && InOrder(s) && LiveAt(s.chain, x) && file.Some?
    requires !RecordedMalloc(s, size, file, line, o.malloc)
    ensures var (t, addr) := Malloc(s, size, file, line, o.malloc);
      !InOrder(Free(t.(chain := Patch(t.chain, addr, 0, data)), x.addr, file, line, o.free).0)
  {
    hide Balanced, Malloc, Free, Grants, Patch, Bytes, BookBoth, Find, ModuleSum, LineSum, Expected, ExpectedLines;
    hide RecordedMalloc;
    var (t, addr) := Malloc(s, size, file, line, o.malloc);
    var r := Fresh(addr, file, line, size, s.counter + 1);
    NotRecordedIs(s, size, file, line, o.malloc);
    var ok1, ok2 := MallocStats(s, size, file, line, o.malloc);
    BothMissing(s.stats, s.statLevel, Gain, size, file, line, ok1, ok2, file, line);
    var t1 := t.(chain := Patch(t.chain, addr, 0, data));
    MallocIs(s, size, file, line, o.malloc);
    PatchKeeps(t, addr, 0, data);
    PatchSums(t.chain, addr, 0, data);
    MwGuarantees.StaysLive(s, x, size, file, line, o.malloc, data);
    var t2 := Free(t1, x.addr, file, line, o.free).0;
    var ok3, ok4 := FreeStats(t1, x, file, line, o.free);
    var l := if Has(t.stats, file, MODULE_LINE) then line else MODULE_LINE;
    assert CurrOf(t.stats, file, l) == 0;
    BothMissing(t.stats, s.statLevel, Loss, x.size, x.file, x.line, ok3, ok4, file, l);
    forall k | Picks(k, r)
      ensures Bytes(t2.chain, false, k) >= size
    {
      LiveCounts(s.chain, x, k);
    }
    MissingShows(s, t2, r, l);
  }

  lemma LiveCounts(c: seq<Rec>, x: Rec, k: Key)
    requires LiveAt(c, x)
    ensures Picks(k, x) ==> Bytes(c, false, k) >= x.size
  {
    RemoveSums(c, Find(c, x.addr), false, k);
  }

  lemma ActAgrees(s: State, op: Op)
    requires Balanced(s) && Allowed(s, op) && InOrder(s)
    ensures InOrder(Act(s, op)) <==> RecordedAct(s, op)
  {
    hide Balanced, InOrder, Malloc, Free, Grants, Patch, Moved, Find, RecordedMalloc, MayChange;
    match op {
      case OpMalloc(size, file, line, o) => MallocInOrder(s, size, file, line, o);
      case OpCalloc(a, b, file, line, o) =>
        var size := (a * b) % SIZE_LIMIT;
        MallocInOrder(s, size, file, line, o);
        var (t, addr) := Malloc(s, size, file, line, o);
        PatchInOrder(t, addr, 0, MwGuard.Fill(size, 0));
      case OpRealloc(p, size, file, line, o) => ReallocInOrder(s, p, size, file, line, o);
      case OpFree(p, file, line, o) => FreeInOrder(s, p, file, line, o);
      case OpWrite(p, at, v) => PatchInOrder(s, p, at, [v]);
      case OpStatistics(level) => LevelChange(s, level);
      case _ => OtherFields(s, Act(s, op));
    }
  }

  lemma ReallocInOrder(s: State, p: int, size: Size, file: Name, line: int, o: ReallocOracle)
    requires Balanced(s) && Grants(s, size, o.malloc) && Returnable(s, p, file) && InOrder(s)
    ensures var op := OpRealloc(p, size, file, line, o); InOrder(Act(s, op)) <==> RecordedAct(s, op)
  {
    hide Balanced, InOrder, Malloc, Free, Grants, Moved, Find, RecordedMalloc;
    MallocInOrder(s, size, file, line, o.malloc);
    FailedIsRecorded(s, size, file, line, o.malloc);
    FreeInOrder(s, p, file, line, o.free);
    if p != 0 && size != 0 && Owned(s.chain, p) && !s.chain[Find(s.chain, p)].nml {
      MovedInOrder(s, s.chain[Find(s.chain, p)], size, file, line, o);
    }
    forall t: State | s.chain == t.chain && s.stats == t.stats && s.statLevel == t.statLevel
      ensures InOrder(t)
    {
      OtherFields(s, t);
    }
  }

  /** Starting memwatch puts the statistics in order. */
  lemma ReadyInOrder(s: State, op: Op)
    requires Proper(s) && InOrder(s)
    ensures InOrder(Ready(s, op))
  {
    hide Agrees, Ready, Balanced;
    ReadyIs(s, op);
    if s.inited == 0 && AutoInits(op) {
      NothingAgrees(Ready(s, op));
    }
  }

  lemma NothingAgrees(s: State)
    requires s.chain == [] && s.stats == []
    ensures Agrees(s) && Idle(s.stats)
  {
  }

  /** Every call leaves the statistics in order exactly when it gets the records it needs. */
  lemma StepAgrees(s: State, op: Op)
    requires Proper(s) && Allowed(s, op) && InOrder(s)
    ensures InOrder(Step(s, op)) <==> RecordedOp(s, op)
  {
    hide Balanced, InOrder, Act, Allowed, Ready, RecordedAct;
    ReadyIs(s, op);
    ReadyInOrder(s, op);
    ActAgrees(Ready(s, op), op);
  }

  predicate RecordedRun(s: State, ops: seq<Op>)
    decreases |ops|
  {
    ops == [] || (RecordedOp(s, ops[0]) && RecordedRun(Step(s, ops[0]), ops[1..]))
  }

  /** The statistics are in order after every call of a run. */
  ghost predicate StaysInOrder(s: State, ops: seq<Op>)
    decreases |ops|
  {
    InOrder(s) && (ops != [] ==> StaysInOrder(Step(s, ops[0]), ops[1..]))
  }

  /** Over a run they stay in order exactly when every call gets the records it needs and every change
      of level is made when it may. */
  lemma {:induction false} RunAgrees(s: State, ops: seq<Op>)
    requires Proper(s) && AllowedRun(s, ops) && InOrder(s)
    ensures StaysInOrder(s, ops) <==> RecordedRun(s, ops)
    ensures RecordedRun(s, ops) ==> InOrder(Run(s, ops))
    decreases |ops|
  {
    hide Proper, InOrder, Step, Allowed, RecordedOp;
    if ops != [] {
      StepKeeps(s, ops[0]);
      StepAgrees(s, ops[0]);
      if RecordedOp(s, ops[0]) {
        RunAgrees(Step(s, ops[0]), ops[1..]);
      } else {
        NotInOrder(Step(s, ops[0]), ops[1..]);
      }
    }
  }

  lemma NotInOrder(s: State, ops: seq<Op>)
    requires !InOrder(s)
    ensures !StaysInOrder(s, ops)
  {
    hide InOrder;
  }

  /** The C library has memory for every new record at once, and the level is left alone. */
  predicate Granted(op: Op) {
    match op
    case OpMalloc(_, _, _, o) => AtOnce(o.book)
    case OpCalloc(_, _, _, _, o) => AtOnce(o.book)
    case OpRealloc(_, _, _, _, o) => AtOnce(o.malloc.book)
    case OpStatistics(_) => false
    case _ => true
  }

  predicate AtOnce(o: BookOracle) {
    o.perFile.first && o.perLine.first
  }

  /** Then the statistics stay true, over every run. */
  lemma {:induction false} RunGranted(s: State, ops: seq<Op>)
    requires Proper(s) && AllowedRun(s, ops) && InOrder(s)
    requires forall op :: op in ops ==> Granted(op)
    ensures StaysInOrder(s, ops) && InOrder(Run(s, ops))
    decreases |ops|
  {
    hide Proper, InOrder, Step, Allowed, Granted, RecordedOp;
    if ops != [] {
      StepKeeps(s, ops[0]);
      StepAgrees(s, ops[0]);
      GrantedIsRecorded(s, ops[0]);
      RunGranted(Step(s, ops[0]), ops[1..]);
    }
  }

  lemma GrantedIsRecorded(s: State, op: Op)
    requires Granted(op)
    ensures RecordedOp(s, op)
  {
    hide Ready, Malloc, Realloc, Obtain, Admitted, BookOne, Has, FreeUp;
  }

  lemma {:induction false} BytesByLine(c: seq<Rec>, nml: bool, f: Name, l: int)
    ensures Bytes(c, nml, OfFile(f)) == Bytes(c, nml, OfLine(f, l)) + Bytes(c, nml, OffLine(f, l))
  {
    if c != [] {
      BytesByLine(c[1..], nml, f, l);
    }
  }

  /** What the records add up to: the module records account for all bytes in use, and each module
      record for its line records, except for bytes allocated on "line" -1. */
  lemma ReportAddsUp(s: State, f: Name)
    requires Balanced(s) && Agrees(s) && s.statLevel > 1 && f.Some?
    ensures ModuleSum(s.stats) == s.statCur
    ensures CurrOf(s.stats, f, MODULE_LINE) == Bytes(s.chain, false, OfFile(f))
    ensures CurrOf(s.stats, f, MODULE_LINE) == LineSum(s.stats, f) + Bytes(s.chain, false, OfLine(f, MODULE_LINE))
    ensures forall x :: x in s.stats ==> 0 <= x.curr <= x.max <= x.total
  {
    assert CurrOf(s.stats, f, MODULE_LINE) == Expected(s.chain, s.statLevel, f, MODULE_LINE);
    BytesByLine(s.chain, false, f, MODULE_LINE);
    forall x | x in s.stats
      ensures 0 <= x.curr
    {
      var i :| 0 <= i < |s.stats| && s.stats[i] == x;
      FindUnique(s.stats, i);
      assert CurrOf(s.stats, x.file, x.line) == Expected(s.chain, s.statLevel, x.file, x.line);
    }
  }

  /** Statistics switched on late go wrong: releasing a block allocated before leaves its file with
      less than nothing, if there is memory for the record. */
  lemma LateStatistics(s: State, x: Rec, file: Name, line: int, o: BookOracle)
    requires Balanced(s) && MwGuarantees.Holds(s, x) && s.stats == [] && s.statLevel > 0 && file.Some?
    requires HasRecords(Free(s, x.addr, file, line, o).0.stats, s.statLevel, x.file, x.line)
    ensures CurrOf(Free(s, x.addr, file, line, o).0.stats, x.file, MODULE_LINE) + x.size == 0
  {
    hide Free, BookBoth, HasRecords, Bytes;
    BalancedTidy(s);
    MwGuarantees.HeldIsFound(s.chain, x);
    var ok1, ok2 := FreeStats(s, x, file, line, o);
    BothIs([], s.statLevel, Loss, x.size, x.file, x.line, ok1, ok2);
    BookBothEffect([], s.statLevel, Loss, x.size, x.file, x.line);
    assert CurrOf([], x.file, MODULE_LINE) == 0 by {
      assert FindStat([], x.file, MODULE_LINE) == 0;
    }
  }

  // ----- all of it, from the first call

  lemma InitialIsFine(level: nat)
    ensures var s := Initial(level);
      Proper(s) && MwGuarantees.Healthy(s) && InOrder(s) && Exact(s)
  {
  }

  /** Any run whatever: the books balance; a client that stays within its payloads is charged for
      exactly what it did not release; the statistics stay true exactly if the records they need can
      be had; and the no-mans-land counters are exact in the end exactly if `mwFreeUp` never had to give
      up a block. */
  lemma EveryRun(level: nat, ops: seq<Op>)
    requires AllowedRun(Initial(level), ops)
    ensures var s := Run(Initial(level), ops);
      && Proper(s)
      && (MwGuarantees.ConfinedRun(Initial(level), ops) ==> MwGuarantees.Healthy(s) && ScanErrors(s.chain) == s.numCur)
      && (StaysInOrder(Initial(level), ops) <==> RecordedRun(Initial(level), ops))
      && (Exact(s) <==> NoneDigs(RunRequests(Initial(level), ops)))
  {
    hide *;
    var s := Initial(level);
    InitialIsFine(level);
    RunKeeps(s, ops);
    if MwGuarantees.ConfinedRun(s, ops) {
      MwGuarantees.RunHealthy(s, ops);
      MwGuarantees.AbortCountsLeaks(s, ops);
    }
    RunAgrees(s, ops);
    RunExact(s, ops);
  }
}
