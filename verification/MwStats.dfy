/** Per-file and per-line allocation statistics. */
module MwStats {
  import opened MwBlock
  import opened Basics

  const MODULE_LINE: int := -1

  datatype Stat = Stat(file: Name, line: int, total: int, num: int, max: int, curr: int)

  /** Where the record for `file` and `line` stands, or the length of the list. */
  function FindStat(stats: seq<Stat>, file: Name, line: int): (i: nat)
    ensures i <= |stats|
    ensures i < |stats| ==> stats[i].file == file && stats[i].line == line
    ensures forall j :: 0 <= j < i ==> stats[j].file != file || stats[j].line != line
  {
    if stats == [] || (stats[0].file == file && stats[0].line == line) then 0
    else 1 + FindStat(stats[1..], file, line)
  }

  /** The list after `mwStatGet(file, line, 1)`; `ok` tells whether a new record could be allocated. */
  function Ensured(stats: seq<Stat>, file: Name, line: int, ok: bool): seq<Stat> {
    if FindStat(stats, file, line) == |stats| && ok then [Stat(file, line, 0, 0, 0, 0)] + stats else stats
  }

  /** There is a record for `file` and `line`. */
  predicate Has(stats: seq<Stat>, file: Name, line: int) {
    FindStat(stats, file, line) < |stats|
  }

  function Charge(s: Stat, size: int): Stat {
    s.(total := s.total + size, curr := s.curr + size, num := s.num + 1,
       max := if s.curr + size > s.max then s.curr + size else s.max)
  }

  function Refund(s: Stat, size: int): Stat {
    s.(curr := s.curr - size)
  }

  datatype Entry = Gain | Loss

  function Booked(s: Stat, e: Entry, size: int): Stat {
    if e == Gain then Charge(s, size) else Refund(s, size)
  }

  function Signed(e: Entry, size: int): int {
    if e == Gain then size else -size
  }

  /** One record brought up to date, if there is one or can be one. */
  function Book(stats: seq<Stat>, e: Entry, size: int, file: Name, line: int, ok: bool): seq<Stat> {
    var t := Ensured(stats, file, line, ok);
    var i := FindStat(t, file, line);
    if i < |t| then t[i := Booked(t[i], e, size)] else t
  }

  /** `mwStatAlloc` and `mwStatFree` at statistics level `level`, which is at least 1 here. */
  function BookBoth(stats: seq<Stat>, level: int, e: Entry, size: int, file: Name, line: int, ok1: bool,
                    ok2: bool): seq<Stat> {
    var s := Book(stats, e, size, file, MODULE_LINE, ok1);
    if level > 1 && line != MODULE_LINE && file.Some? then Book(s, e, size, file, line, ok2) else s
  }

  // ----- what the records amount to

  predicate UniqueKeys(stats: seq<Stat>) {
    forall i, j :: 0 <= i < j < |stats| ==> stats[i].file != stats[j].file || stats[i].line != stats[j].line
  }

  /** `curr` of the record for `file` and `line`; a missing record counts as 0. */
  function CurrOf(stats: seq<Stat>, file: Name, line: int): int {
    var i := FindStat(stats, file, line);
    if i < |stats| then stats[i].curr else 0
  }

  function ModuleSum(stats: seq<Stat>): int {
    if stats == [] then 0
    else (if stats[0].line == MODULE_LINE then stats[0].curr else 0) + ModuleSum(stats[1..])
  }

  function LineSum(stats: seq<Stat>, file: Name): int {
    if stats == [] then 0
    else
      (if stats[0].file == file && stats[0].line != MODULE_LINE then stats[0].curr else 0) + LineSum(stats[1..], file)
  }

  lemma {:induction false} SumsAfterUpdate(stats: seq<Stat>, i: nat, s: Stat, file: Name)
    requires i < |stats| && s.file == stats[i].file && s.line == stats[i].line
    ensures var t := stats[i := s]; var d := s.curr - stats[i].curr;
      && ModuleSum(t) == ModuleSum(stats) + (if s.line == MODULE_LINE then d else 0)
      && LineSum(t, file) == LineSum(stats, file) + (if s.line != MODULE_LINE && s.file == file then d else 0)
  {
    var t := stats[i := s];
    if i > 0 {
      SumsAfterUpdate(stats[1..], i - 1, s, file);
      assert t[1..] == stats[1..][i - 1 := s];
    } else {
      assert t[1..] == stats[1..];
    }
  }

  lemma {:induction false} FindUnique(stats: seq<Stat>, i: nat)
    requires UniqueKeys(stats) && i < |stats|
    ensures FindStat(stats, stats[i].file, stats[i].line) == i
  {
    var j := FindStat(stats, stats[i].file, stats[i].line);
    assert j >= i;
    assert j <= i;
  }

  /** Booking moves exactly the record booked on, by exactly the amount booked. */
  lemma BookEffect(stats: seq<Stat>, e: Entry, size: int, file: Name, line: int)
    requires UniqueKeys(stats)
    ensures var t := Book(stats, e, size, file, line, true); var d := Signed(e, size);
      && UniqueKeys(t)
      && (forall f, l :: CurrOf(t, f, l) == CurrOf(stats, f, l) + (if f == file && l == line then d else 0))
      && ModuleSum(t) == ModuleSum(stats) + (if line == MODULE_LINE then d else 0)
      && (forall f :: LineSum(t, f) == LineSum(stats, f) + (if line != MODULE_LINE && f == file then d else 0))
  {
    hide CurrOf, ModuleSum, LineSum, Booked, FindStat;
    var s := Ensured(stats, file, line, true);
    var i := FindStat(s, file, line);
    EnsuredIs(stats, file, line);
    var t := s[i := Booked(s[i], e, size)];
    BookedIs(s, i, e, size);
    forall f, l
      ensures CurrOf(t, f, l) == CurrOf(stats, f, l) + (if f == file && l == line then Signed(e, size) else 0)
    {
      EnsuredSums(stats, file, line, f, l);
      CurrAfter(s, i, e, size, f, l);
    }
    forall f
      ensures LineSum(t, f) == LineSum(stats, f) + (if line != MODULE_LINE && f == file then Signed(e, size) else 0)
    {
      EnsuredSums(stats, file, line, f, 0);
      SumsAfterUpdate(s, i, t[i], f);
    }
    EnsuredSums(stats, file, line, file, line);
    SumsAfterUpdate(s, i, t[i], file);
  }

  /** With a new record or an old one, there is exactly one for the key. */
  lemma EnsuredIs(stats: seq<Stat>, file: Name, line: int)
    requires UniqueKeys(stats)
    ensures var s := Ensured(stats, file, line, true); Has(s, file, line) && UniqueKeys(s)
  {
  }

  lemma EnsuredSums(stats: seq<Stat>, file: Name, line: int, f: Name, l: int)
    ensures var s := Ensured(stats, file, line, true);
      CurrOf(s, f, l) == CurrOf(stats, f, l) && ModuleSum(s) == ModuleSum(stats) && LineSum(s, f) == LineSum(stats, f)
  {
    var s := Ensured(stats, file, line, true);
    assert s == stats || s[1..] == stats;
  }

  lemma BookedIs(s: seq<Stat>, i: nat, e: Entry, size: int)
    requires i < |s|
    ensures var b := Booked(s[i], e, size);
      && b.file == s[i].file && b.line == s[i].line && b.curr == s[i].curr + Signed(e, size)
      && (UniqueKeys(s) ==> UniqueKeys(s[i := b]))
  {
  }

  lemma CurrAfter(s: seq<Stat>, i: nat, e: Entry, size: int, f: Name, l: int)
    requires i < |s| && FindStat(s, s[i].file, s[i].line) == i
    ensures CurrOf(s[i := Booked(s[i], e, size)], f, l) ==
      CurrOf(s, f, l) + if f == s[i].file && l == s[i].line then Signed(e, size) else 0
  {
    hide Booked;
    BookedIs(s, i, e, size);
    SameFind(s, s[i := Booked(s[i], e, size)], f, l);
  }

  lemma {:induction false} SameFind(s: seq<Stat>, t: seq<Stat>, file: Name, line: int)
    requires |s| == |t| && forall i :: 0 <= i < |s| ==> s[i].file == t[i].file && s[i].line == t[i].line
    ensures FindStat(s, file, line) == FindStat(t, file, line)
  {
    if s != [] {
      SameFind(s[1..], t[1..], file, line);
    }
  }

  // ----- the records in memory

  class StatNode {
    var next: StatNode?
    const file: Name
    const line: int
    var total: int
    var num: int
    var max: int
    var curr: int

    constructor (file: Name, line: int, next: StatNode?)
      ensures this.next == next && Value() == Stat(file, line, 0, 0, 0, 0)
    {
      this.file, this.line, this.next := file, line, next;
      total, num, max, curr := 0, 0, 0, 0;
    }

    ghost function Value(): Stat
      reads this
    {
      Stat(file, line, total, num, max, curr)
    }
  }

  ghost function Members(s: seq<StatNode>): set<StatNode> {
    set x | x in s
  }

  class StatTable {
    var list: StatNode?
    ghost var nodes: seq<StatNode>
    ghost var stats: seq<Stat>

    ghost predicate NodeAt(i: int)
      requires 0 <= i < |nodes| == |stats|
      reads this, {nodes[i]}
    {
      nodes[i].Value() == stats[i] && nodes[i].next == if i + 1 < |nodes| then nodes[i + 1] else null
    }

    ghost predicate Valid()
      reads this, nodes
    {
      && |nodes| == |stats|
      && (forall i, j :: 0 <= i < j < |nodes| ==> nodes[i] != nodes[j])
      && list == (if nodes == [] then null else nodes[0])
      && (forall i {:trigger NodeAt(i)} :: 0 <= i < |nodes| ==> NodeAt(i))
    }

    constructor ()
      ensures Valid() && stats == [] && nodes == []
    {
      list, nodes, stats := null, [], [];
    }

    /** The records are given up, as `mwInit` does it. */
    method Clear()
      modifies this
      ensures Valid() && stats == [] && nodes == []
    {
      list, nodes, stats := null, [], [];
    }

    /** `mwStatGet(file, line, 0)`: the search alone. */
    method Search(file: Name, line: int) returns (ms: StatNode?)
      requires Valid()
      ensures ms != null <==> FindStat(stats, file, line) < |stats|
      ensures ms != null ==> ms == nodes[FindStat(stats, file, line)]
    {
      ms := list;
      ghost var i := 0;
      while ms != null
        invariant 0 <= i <= |nodes| && ms == if i == |nodes| then null else nodes[i]
        invariant FindStat(stats, file, line) == i + FindStat(stats[i..], file, line)
        decreases |nodes| - i
      {
        assert NodeAt(i) && stats[i..][1..] == stats[i + 1..];
        if ms.line == line && ms.file == file {
          break;
        }
        ms := ms.next;
        i := i + 1;
      }
    }

    /** `mwStatGet(file, line, 1)` for the line already adjusted to the level; `ok` tells whether a
        new record can be allocated. */
    method StatGet(file: Name, line: int, ok: bool) returns (ms: StatNode?)
      requires Valid()
      modifies this
      ensures Valid() && fresh(Members(nodes) - old(Members(nodes)))
      ensures stats == Ensured(old(stats), file, line, ok)
      ensures ms == if FindStat(stats, file, line) < |stats| then nodes[FindStat(stats, file, line)] else null
    {
      ms := Search(file, line);
      if ms != null || !ok {
        return ms;
      }
      ms := new StatNode(file, line, list);
      list := ms;
      nodes, stats := [ms] + nodes, [Stat(file, line, 0, 0, 0, 0)] + stats;
      assert Members(nodes) == {ms} + old(Members(nodes));
      forall j | 0 <= j < |nodes|
        ensures NodeAt(j)
      {
        assert j == 0 || old(NodeAt(j - 1));
      }
    }

    /** One of the two halves of `mwStatAlloc` and `mwStatFree`. */
    method Update(e: Entry, size: int, file: Name, line: int, ok: bool)
      requires Valid()
      modifies this, Members(nodes)
      ensures Valid() && fresh(Members(nodes) - old(Members(nodes)))
      ensures stats == Book(old(stats), e, size, file, line, ok)
    {
      var ms := StatGet(file, line, ok);
      if ms != null {
        BookOn(ms, e, size, FindStat(stats, file, line));
      }
    }

    method BookOn(ms: StatNode, e: Entry, size: int, ghost i: nat)
      requires Valid() && i < |nodes| && nodes[i] == ms
      modifies this, ms
      ensures Valid() && nodes == old(nodes) && stats == old(stats)[i := Booked(old(stats)[i], e, size)]
    {
      assert NodeAt(i);
      if e == Gain {
        ms.total := ms.total + size;
        ms.curr := ms.curr + size;
        ms.num := ms.num + 1;
        if ms.curr > ms.max {
          ms.max := ms.curr;
        }
      } else {
        ms.curr := ms.curr - size;
      }
      stats := stats[i := Booked(stats[i], e, size)];
      forall j | 0 <= j < |nodes|
        ensures NodeAt(j)
      {
        assert old(NodeAt(j));
      }
    }
  }
}
