/** Markers: reference counts the client keeps on pointers of its choice. */
module MwMarks {
  datatype Mark = Mark(host: int, level: int, text: string)

  /** Where the marker of `p` stands, or the length of the list. */
  function FindMark(marks: seq<Mark>, p: int): (i: nat)
    ensures i <= |marks|
    ensures i < |marks| ==> marks[i].host == p
    ensures forall j :: 0 <= j < i ==> marks[j].host != p
  {
    if marks == [] || marks[0].host == p then 0 else 1 + FindMark(marks[1..], p)
  }

  function LevelOf(marks: seq<Mark>, p: int): int {
    var i := FindMark(marks, p);
    if i < |marks| then marks[i].level else 0
  }

  /** At most one marker per host, none for NULL, none idle. */
  predicate WellFormed(marks: seq<Mark>) {
    && (forall i, j :: 0 <= i < j < |marks| ==> marks[i].host != marks[j].host)
    && (forall i :: 0 <= i < |marks| ==> marks[i].host != 0 && marks[i].level >= 1)
  }

  /** `mwMark`; `okNode` and `okText` tell whether its two allocations succeed. */
  function Marked(marks: seq<Mark>, p: int, text: string, okNode: bool, okText: bool): seq<Mark> {
    var i := FindMark(marks, p);
    if p == 0 then marks
    else if i < |marks| then
      if okText then marks[i := Mark(p, marks[i].level + 1, marks[i].text + ", " + text)] else marks
    else if okNode && okText then [Mark(p, 1, text)] + marks
    else marks
  }

  /** `mwUnmark` */
  function Unmarked(marks: seq<Mark>, p: int): seq<Mark> {
    var i := FindMark(marks, p);
    if i == |marks| then marks
    else if marks[i].level < 2 then marks[..i] + marks[i + 1..]
    else marks[i := marks[i].(level := marks[i].level - 1)]
  }

  lemma FindUnique(marks: seq<Mark>, i: nat)
    requires WellFormed(marks) && i < |marks|
    ensures FindMark(marks, marks[i].host) == i
  {
    assert FindMark(marks, marks[i].host) <= i;
  }

  /** The mark is recorded: a known pointer needs memory for the text, a new one for its node as well. */
  predicate Takes(level: int, p: int, okNode: bool, okText: bool) {
    p != 0 && okText && (level > 0 || okNode)
  }

  /** The list refines one counter per pointer: a mark that is recorded adds one to the counter of `p`
      alone, and one that is not changes nothing. */
  lemma MarkCounts(marks: seq<Mark>, p: int, text: string, okNode: bool, okText: bool, q: int)
    requires WellFormed(marks)
    ensures var t := Marked(marks, p, text, okNode, okText);
      && WellFormed(t)
      && LevelOf(t, q) == LevelOf(marks, q) + (if q == p && Takes(LevelOf(marks, p), p, okNode, okText) then 1 else 0)
  {
    hide WellFormed, FindMark;
    var t := Marked(marks, p, text, okNode, okText);
    var i := FindMark(marks, p);
    if i < |marks| {
      MarkIsFine(marks, i, t[i]);
      SameHosts(marks, t, q);
    } else if p != 0 && okNode && okText {
      NewMark(marks, t[0], q);
    }
  }

  lemma MarkIsFine(marks: seq<Mark>, i: nat, m: Mark)
    requires WellFormed(marks) && i < |marks|
    ensures marks[i].level >= 1
    ensures m.host == marks[i].host && m.level >= 1 ==> WellFormed(marks[i := m])
  {
  }

  lemma NewMark(marks: seq<Mark>, m: Mark, q: int)
    requires WellFormed(marks) && FindMark(marks, m.host) == |marks| && m.host != 0 && m.level == 1
    ensures WellFormed([m] + marks)
    ensures LevelOf([m] + marks, q) == LevelOf(marks, q) + if q == m.host then 1 else 0
  {
    hide WellFormed;
    NewIsFine(marks, m);
    assert ([m] + marks)[1..] == marks;
  }

  lemma NewIsFine(marks: seq<Mark>, m: Mark)
    requires WellFormed(marks) && FindMark(marks, m.host) == |marks| && m.host != 0 && m.level == 1
    ensures WellFormed([m] + marks)
  {
    hide FindMark;
  }

  /** Unmarking takes one off, and an unknown pointer is ignored. */
  lemma UnmarkCounts(marks: seq<Mark>, p: int, q: int)
    requires WellFormed(marks)
    ensures var t := Unmarked(marks, p);
      && WellFormed(t)
      && LevelOf(t, q) == LevelOf(marks, q) - (if q == p && LevelOf(marks, p) > 0 then 1 else 0)
  {
    var t := Unmarked(marks, p);
    var i := FindMark(marks, p);
    if i < |marks| {
      if marks[i].level < 2 {
        RemovalCounts(marks, i, q);
      } else {
        SameHosts(marks, t, q);
      }
    }
  }

  lemma RemovalCounts(marks: seq<Mark>, i: nat, q: int)
    requires WellFormed(marks) && i < |marks| && marks[i].level == 1
    ensures var t := marks[..i] + marks[i + 1..];
      WellFormed(t) && LevelOf(t, q) == LevelOf(marks, q) - (if q == marks[i].host then 1 else 0)
  {
    hide WellFormed, FindMark;
    var t := marks[..i] + marks[i + 1..];
    RemovalIsFine(marks, i);
    FindUnique(marks, i);
    var k := FindMark(marks, q);
    if q == marks[i].host {
      RemovedIsGone(marks, i);
    } else if k < |marks| {
      var m := if k < i then k else k - 1;
      assert t[m] == marks[k];
      FindUnique(t, m);
    } else {
      assert forall j :: 0 <= j < |t| ==> t[j] == marks[if j < i then j else j + 1];
    }
  }

  lemma RemovalIsFine(marks: seq<Mark>, i: nat)
    requires WellFormed(marks) && i < |marks|
    ensures WellFormed(marks[..i] + marks[i + 1..])
  {
    var t := marks[..i] + marks[i + 1..];
    assert forall j :: 0 <= j < |t| ==> t[j] == marks[if j < i then j else j + 1];
  }

  lemma RemovedIsGone(marks: seq<Mark>, i: nat)
    requires WellFormed(marks) && i < |marks|
    ensures var t := marks[..i] + marks[i + 1..]; FindMark(t, marks[i].host) == |t|
  {
    hide FindMark;
    var t := marks[..i] + marks[i + 1..];
    assert forall j :: 0 <= j < |t| ==> t[j] == marks[if j < i then j else j + 1];
  }

  lemma {:induction false} SameHosts(s: seq<Mark>, t: seq<Mark>, q: int)
    requires |s| == |t| && forall i :: 0 <= i < |s| ==> s[i].host == t[i].host
    ensures FindMark(s, q) == FindMark(t, q)
  {
    if s != [] {
      SameHosts(s[1..], t[1..], q);
    }
  }

  function TextOf(marks: seq<Mark>, p: int): string {
    var i := FindMark(marks, p);
    if i < |marks| then marks[i].text else ""
  }

  /** A recorded mark of a new pointer begins its text, and another one adds to it; no other text changes. */
  lemma MarkText(marks: seq<Mark>, p: int, text: string, okNode: bool, okText: bool, q: int)
    requires WellFormed(marks)
    ensures var t := Marked(marks, p, text, okNode, okText);
      TextOf(t, q) ==
      if q == p && Takes(LevelOf(marks, p), p, okNode, okText) then
        if LevelOf(marks, p) > 0 then TextOf(marks, p) + ", " + text else text
      else TextOf(marks, q)
  {
    hide WellFormed, FindMark;
    var t := Marked(marks, p, text, okNode, okText);
    var i := FindMark(marks, p);
    if i < |marks| {
      MarkIsFine(marks, i, t[i]);
      SameHosts(marks, t, q);
    } else if p != 0 && okNode && okText {
      MarkInFront(marks, t[0], q);
    }
  }

  lemma MarkInFront(marks: seq<Mark>, m: Mark, q: int)
    ensures TextOf([m] + marks, q) == if q == m.host then m.text else TextOf(marks, q)
  {
    assert ([m] + marks)[1..] == marks;
  }

  // ----- runs

  datatype MarkOp = DoMark(p: int, text: string, okNode: bool, okText: bool) | DoUnmark(p: int)

  function Apply(marks: seq<Mark>, op: MarkOp): seq<Mark> {
    match op
    case DoMark(p, text, okNode, okText) => Marked(marks, p, text, okNode, okText)
    case DoUnmark(p) => Unmarked(marks, p)
  }

  function ApplyAll(marks: seq<Mark>, ops: seq<MarkOp>): seq<Mark>
    decreases |ops|
  {
    if ops == [] then marks else ApplyAll(Apply(marks, ops[0]), ops[1..])
  }

  /** The plain counter of `q`, started at `n`. */
  function Outstanding(n: int, ops: seq<MarkOp>, q: int): int
    decreases |ops|
  {
    if ops == [] then n
    else
      var n' := match ops[0]
        case DoMark(p, _, okNode, okText) => if p == q && Takes(n, p, okNode, okText) then n + 1 else n
        case DoUnmark(p) => if p == q && n > 0 then n - 1 else n;
      Outstanding(n', ops[1..], q)
  }

  /** Over any run the level of a pointer is its outstanding recorded marks. */
  lemma {:induction false} LevelsAreCounters(marks: seq<Mark>, ops: seq<MarkOp>, q: int)
    requires WellFormed(marks)
    ensures WellFormed(ApplyAll(marks, ops))
    ensures LevelOf(ApplyAll(marks, ops), q) == Outstanding(LevelOf(marks, q), ops, q)
    decreases |ops|
  {
    hide WellFormed, LevelOf, Marked, Unmarked, Takes;
    if ops != [] {
      match ops[0] {
        case DoMark(p, text, okNode, okText) => MarkCounts(marks, p, text, okNode, okText, q);
        case DoUnmark(p) => UnmarkCounts(marks, p, q);
      }
      LevelsAreCounters(Apply(marks, ops[0]), ops[1..], q);
    }
  }

  // ----- the markers in memory

  class MarkNode {
    const host: int
    var next: MarkNode?
    var level: int
    var text: string

    constructor (host: int, text: string, next: MarkNode?)
      ensures this.next == next && Value() == Mark(host, 1, text)
    {
      this.host, this.text, this.next, level := host, text, next, 1;
    }

    ghost function Value(): Mark
      reads this
    {
      Mark(host, level, text)
    }
  }

  ghost function Members(s: seq<MarkNode>): set<MarkNode> {
    set x | x in s
  }

  class MarkList {
    var first: MarkNode?
    ghost var nodes: seq<MarkNode>
    ghost var marks: seq<Mark>

    ghost predicate NodeAt(i: int)
      requires 0 <= i < |nodes| == |marks|
      reads this, {nodes[i]}
    {
      nodes[i].Value() == marks[i] && nodes[i].next == if i + 1 < |nodes| then nodes[i + 1] else null
    }

    ghost predicate Valid()
      reads this, nodes
    {
      && |nodes| == |marks| && WellFormed(marks)
      && (forall i, j :: 0 <= i < j < |nodes| ==> nodes[i] != nodes[j])
      && first == (if nodes == [] then null else nodes[0])
      && (forall i {:trigger NodeAt(i)} :: 0 <= i < |nodes| ==> NodeAt(i))
    }

    constructor ()
      ensures Valid() && marks == [] && nodes == []
    {
      first, nodes, marks := null, [], [];
    }

    /** The search both calls begin with. */
    method Search(p: int) returns (mrk: MarkNode?, prv: MarkNode?, ghost i: nat)
      requires Valid()
      ensures i == FindMark(marks, p) && i <= |nodes|
      ensures mrk != null <==> FindMark(marks, p) < |marks|
      ensures mrk == if i == |nodes| then null else nodes[i]
      ensures prv == if i == 0 then null else nodes[i - 1]
    {
      mrk, prv := first, null;
      i := 0;
      while mrk != null
        invariant 0 <= i <= |nodes| && mrk == if i == |nodes| then null else nodes[i]
        invariant prv == if i == 0 then null else nodes[i - 1]
        invariant FindMark(marks, p) == i + FindMark(marks[i..], p)
        decreases |nodes| - i
      {
        assert NodeAt(i) && marks[i..][1..] == marks[i + 1..];
        if mrk.host == p {
          break;
        }
        prv := mrk;
        mrk := mrk.next;
        i := i + 1;
      }
    }

    /** `mwMark`, with the text already put together. */
    method DoMark(p: int, text: string, okNode: bool, okText: bool)
      requires Valid()
      modifies this, Members(nodes)
      ensures Valid() && fresh(Members(nodes) - old(Members(nodes)))
      ensures marks == Marked(old(marks), p, text, okNode, okText)
    {
      if p == 0 {
        return;
      }
      var mrk, _, i := Search(p);
      if mrk == null {
        if okNode && okText {
          AddFirst(p, text);
        }
      } else if okText {
        assert NodeAt(i);
        Raise(mrk, i, text);
      }
    }

    method AddFirst(p: int, text: string)
      requires Valid() && p != 0 && FindMark(marks, p) == |marks|
      modifies this
      ensures Valid() && fresh(Members(nodes) - old(Members(nodes)))
      ensures marks == [Mark(p, 1, text)] + old(marks)
    {
      var mrk := new MarkNode(p, text, first);
      first := mrk;
      nodes, marks := [mrk] + nodes, [Mark(p, 1, text)] + marks;
      assert Members(nodes) <= {mrk} + old(Members(nodes));
      forall j | 0 <= j < |nodes|
        ensures NodeAt(j)
      {
        assert j == 0 || old(NodeAt(j - 1));
      }
    }

    method Raise(mrk: MarkNode, ghost i: nat, text: string)
      requires Valid() && i < |nodes| && nodes[i] == mrk
      modifies this, mrk
      ensures Valid() && nodes == old(nodes)
      ensures marks == old(marks)[i := Mark(mrk.host, old(marks)[i].level + 1, old(marks)[i].text + ", " + text)]
    {
      assert NodeAt(i);
      mrk.text := mrk.text + ", " + text;
      mrk.level := mrk.level + 1;
      marks := marks[i := mrk.Value()];
      forall j | 0 <= j < |nodes|
        ensures NodeAt(j)
      {
        assert old(NodeAt(j));
      }
    }

    /** `mwUnmark` */
    method DoUnmark(p: int)
      requires Valid()
      modifies this, Members(nodes)
      ensures Valid() && Members(nodes) <= old(Members(nodes))
      ensures marks == Unmarked(old(marks), p)
    {
      var mrk, prv, i := Search(p);
      if mrk != null {
        assert i > 0 ==> prv in Members(nodes);
        assert NodeAt(i);
        if mrk.level < 2 {
          Bypass(prv, mrk, i);
        } else {
          Lower(mrk, i);
        }
      }
    }

    method Bypass(prv: MarkNode?, mrk: MarkNode, ghost i: nat)
      requires Valid() && i < |nodes| && nodes[i] == mrk
      requires prv == if i == 0 then null else nodes[i - 1]
      modifies this, {prv}`next
      ensures Valid() && nodes == old(nodes[..i] + nodes[i + 1..]) && marks == old(marks[..i] + marks[i + 1..])
    {
      assert NodeAt(i) && (i > 0 ==> NodeAt(i - 1));
      if prv != null {
        prv.next := mrk.next;
      } else {
        first := mrk.next;
      }
      nodes, marks := nodes[..i] + nodes[i + 1..], marks[..i] + marks[i + 1..];
      forall j | 0 <= j < |nodes|
        ensures NodeAt(j)
      {
        assert old(NodeAt(if j < i then j else j + 1));
      }
    }

    method Lower(mrk: MarkNode, ghost i: nat)
      requires Valid() && i < |nodes| && nodes[i] == mrk && marks[i].level >= 2
      modifies this`marks, mrk`level
      ensures Valid() && marks == old(marks)[i := old(marks)[i].(level := old(marks)[i].level - 1)]
    {
      assert NodeAt(i);
      mrk.level := mrk.level - 1;
      marks := marks[i := marks[i].(level := marks[i].level - 1)];
      forall j | 0 <= j < |nodes|
        ensures NodeAt(j)
      {
        assert old(NodeAt(j));
      }
    }

    /** "report mwMarked items": every marker left is reported once and removed. */
    method ReportAll() returns (n: nat)
      requires Valid()
      modifies this
      ensures Valid() && marks == [] && n == |old(marks)|
    {
      n := 0;
      while first != null
        invariant Valid() && |marks| == |old(marks)| - n && Members(nodes) <= old(Members(nodes))
        decreases |nodes|
      {
        Bypass(null, first, 0);
        n := n + 1;
      }
    }
  }
}
