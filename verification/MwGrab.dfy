/** The list of grabbed kilobytes: memory taken only to make it scarce, tagged with a type. */
module MwGrab {
  import opened Basics
  import opened MwGuard

  const GRAB_SIZE: int := 1024
  const GRAB_ALL: nat := 65000
  const DROP_ALL: nat := 60000

  function CountKind(s: seq<int>, t: int): nat {
    if s == [] then 0 else (if s[0] == t then 1 else 0) + CountKind(s[1..], t)
  }

  /** The entries of other types, in order. */
  function Others(s: seq<int>, t: int): seq<int> {
    if s == [] then [] else (if s[0] == t then [] else [s[0]]) + Others(s[1..], t)
  }

  /** `s` without its first `k` entries of type `t`. */
  function Drop(s: seq<int>, k: nat, t: int): seq<int> {
    if s == [] || k == 0 then s
    else if s[0] == t then Drop(s[1..], k - 1, t)
    else [s[0]] + Drop(s[1..], k, t)
  }

  /** How many kilobytes can be grabbed when `want` are asked for, the C library has `avail`, and a
      limit, if one is set, leaves `room` bytes. */
  function Obtainable(want: nat, avail: nat, useLimit: bool, room: int): (n: nat)
    ensures n <= want && n <= avail && (useLimit && n > 0 ==> n * GRAB_SIZE <= room)
    ensures n == want || n == avail || (useLimit && (n + 1) * GRAB_SIZE > room)
  {
    var most := if want < avail then want else avail;
    if !useLimit then most
    else if room < GRAB_SIZE then 0
    else if room / GRAB_SIZE < most then room / GRAB_SIZE
    else most
  }

  lemma {:induction false} DropCounts(s: seq<int>, k: nat, t: int, u: int)
    ensures CountKind(Drop(s, k, t), u) == if u == t then CountKind(s, t) - Min(k, CountKind(s, t)) else CountKind(s, u)
    ensures |Drop(s, k, t)| == |s| - Min(k, CountKind(s, t))
  {
    if s != [] && k != 0 {
      DropCounts(s[1..], if s[0] == t then k - 1 else k, t, u);
      var d := Drop(s[1..], k, t);
      assert ([s[0]] + d)[1..] == d;
    }
  }

  lemma {:induction false} DropNothing(s: seq<int>, k: nat, t: int)
    requires |Drop(s, k, t)| >= |s|
    ensures Drop(s, k, t) == s
  {
    if s != [] && k != 0 {
      DropCounts(s[1..], k, t, t);
      DropCounts(s[1..], k - 1, t, t);
      assert s[0] != t;
      DropNothing(s[1..], k, t);
    }
  }

  /** What is dropped are the first entries of the type: up to some point every one of them and
      nothing else, behind it none. */
  lemma {:induction false} DropSplits(s: seq<int>, k: nat, t: int) returns (i: nat)
    ensures i <= |s| && CountKind(s[..i], t) == Min(k, CountKind(s, t))
    ensures Drop(s, k, t) == Others(s[..i], t) + s[i..]
  {
    if s == [] || k == 0 {
      i := 0;
    } else {
      i := DropSplits(s[1..], if s[0] == t then k - 1 else k, t);
      i := i + 1;
      assert s[..i][1..] == s[1..][..i - 1];
    }
  }

  /** `Drop` seen from position `i`. */
  lemma DropAt(s: seq<int>, i: nat, k: nat, t: int)
    requires i <= |s|
    ensures k == 0 || i == |s| ==> Drop(s[i..], k, t) == s[i..]
    ensures k > 0 && i < |s| && s[i] == t ==> Drop(s[i..], k, t) == Drop(s[i + 1..], k - 1, t)
    ensures k > 0 && i < |s| && s[i] != t ==> Drop(s[i..], k, t) == [s[i]] + Drop(s[i + 1..], k, t)
  {
    assert i < |s| ==> s[i..][1..] == s[i + 1..];
  }

  class GrabNode {
    var next: GrabNode?
    const kind: int

    constructor (next: GrabNode?, kind: int)
      ensures this.next == next && this.kind == kind
    {
      this.next, this.kind := next, kind;
    }
  }

  class GrabList {
    var list: GrabNode?
    var size: int
    ghost var nodes: seq<GrabNode>
    ghost var kinds: seq<int>

    ghost predicate NodeAt(i: int)
      requires 0 <= i < |nodes| == |kinds|
      reads this, {nodes[i]}
    {
      nodes[i].kind == kinds[i] && nodes[i].next == if i + 1 < |nodes| then nodes[i + 1] else null
    }

    ghost predicate Valid()
      reads this, nodes
    {
      && |nodes| == |kinds|
      && (forall i, j :: 0 <= i < j < |nodes| ==> nodes[i] != nodes[j])
      && list == (if nodes == [] then null else nodes[0])
      && (forall i {:trigger NodeAt(i)} :: 0 <= i < |nodes| ==> NodeAt(i))
      && size == GRAB_SIZE * |nodes|
    }

    constructor ()
      ensures Valid() && kinds == [] && fresh(nodes)
    {
      list, size, nodes, kinds := null, 0, [], [];
    }

    /** `mwGrab_`: `avail` is how many more kilobytes the C library will grant. */
    method Grab(kb: nat, kind: int, useLimit: bool, limit: int, statCur: int, avail: nat) returns (n: nat)
      requires Valid()
      modifies this
      ensures Valid() && fresh(Members(nodes) - old(Members(nodes)))
      ensures kinds == Repeat(kind, n) + old(kinds)
      ensures n == Obtainable(if kb == 0 then GRAB_ALL else kb, avail, useLimit, limit - statCur - old(size))
    {
      var want := if kb == 0 then GRAB_ALL else kb;
      n := 0;
      while n < want
        invariant Valid() && n <= want && size == old(size) + n * GRAB_SIZE
        invariant kinds == Repeat(kind, n) + old(kinds)
        invariant fresh(Members(nodes) - old(Members(nodes)))
        invariant n <= Obtainable(want, avail, useLimit, limit - statCur - old(size))
      {
        if useLimit && statCur + size + GRAB_SIZE > limit {
          return;
        }
        if n == avail {
          return;
        }
        ghost var before := nodes;
        Push(kind);
        assert Members(nodes) <= {nodes[0]} + Members(before);
        n := n + 1;
      }
    }

    method Push(kind: int)
      requires Valid()
      modifies this
      ensures Valid() && nodes != [] && fresh(nodes[0]) && nodes == [nodes[0]] + old(nodes)
      ensures kinds == [kind] + old(kinds)
    {
      var gd := new GrabNode(list, kind);
      size := size + GRAB_SIZE;
      list := gd;
      nodes, kinds := [gd] + nodes, [kind] + kinds;
      forall i | 0 <= i < |nodes|
        ensures NodeAt(i)
      {
        assert i == 0 || old(NodeAt(i - 1));
      }
    }

    /** `mwDrop_` */
    method DropKind(kb: nat, kind: int) returns (n: nat)
      requires Valid()
      modifies this, Members(nodes)`next
      ensures Valid() && Members(nodes) <= old(Members(nodes))
      ensures kinds == Drop(old(kinds), if kb == 0 then DROP_ALL else kb, kind)
      ensures n == |old(nodes)| - |nodes|
    {
      hide Drop, Valid, Members;
      Standing(0);
      DropAt(kinds, 0, if kb == 0 then DROP_ALL else kb, kind);
      assert kinds[0..] == kinds;
      if list == null && kb == 0 {
        return 0;
      }
      var want := if kb == 0 then DROP_ALL else kb;
      var left := want;
      var pr: GrabNode?, gd := null, list;
      ghost var i := 0;
      while left > 0
        invariant Valid() && 0 <= i <= |nodes| == |kinds| && 0 <= left <= want
        invariant pr == if i == 0 then null else nodes[i - 1]
        invariant gd == if i == |nodes| then null else nodes[i]
        invariant |nodes| == |old(nodes)| - (want - left)
        invariant Members(nodes) <= old(Members(nodes))
        invariant Drop(old(kinds), want, kind) == kinds[..i] + Drop(kinds[i..], left, kind)
        decreases |nodes| - i
      {
        Standing(i);
        DropAt(kinds, i, left, kind);
        if gd == null {
          return want - left;
        }
        Standing(i);
        if gd.kind == kind {
          left := left - 1;
          gd := Bypass(pr, gd, i);
        } else {
          pr := gd;
          gd := gd.next;
          i := i + 1;
        }
      }
      DropAt(kinds, i, 0, kind);
      return want;
    }

    /** What the list is like, at its head and at position `i`. */
    lemma Standing(i: nat)
      requires Valid() && i <= |nodes|
      ensures |nodes| == |kinds| && list == if nodes == [] then null else nodes[0]
      ensures i < |nodes| ==>
        nodes[i].kind == kinds[i] && nodes[i].next == if i + 1 < |nodes| then nodes[i + 1] else null
      ensures i > 0 ==> nodes[i - 1] in Members(nodes)
    {
      if i < |nodes| {
        assert NodeAt(i);
      }
    }

    method Bypass(pr: GrabNode?, gd: GrabNode, ghost i: nat) returns (next: GrabNode?)
      requires Valid() && i < |nodes| && gd == nodes[i]
      requires pr == if i == 0 then null else nodes[i - 1]
      modifies this, {pr}`next
      ensures Valid() && Members(nodes) <= old(Members(nodes))
      ensures nodes == old(nodes[..i] + nodes[i + 1..]) && kinds == old(kinds[..i] + kinds[i + 1..])
      ensures next == if i == |nodes| then null else nodes[i]
    {
      assert NodeAt(i);
      assert i > 0 ==> NodeAt(i - 1);
      if pr != null {
        pr.next := gd.next;
      }
      if list == gd {
        list := gd.next;
      }
      next := gd.next;
      size := size - GRAB_SIZE;
      nodes, kinds := nodes[..i] + nodes[i + 1..], kinds[..i] + kinds[i + 1..];
      forall j | 0 <= j < |nodes|
        ensures NodeAt(j)
      {
        assert old(NodeAt(if j < i then j else j + 1));
      }
    }

    /** `mwDropAll` */
    method DropAll()
      requires Valid()
      modifies this, Members(nodes)`next
      ensures Valid() && Members(nodes) <= old(Members(nodes))
      ensures kinds == Drop(Drop(old(kinds), DROP_ALL, VAL_GRB), DROP_ALL, VAL_NML)
    {
      var n := DropKind(0, VAL_GRB);
      n := DropKind(0, VAL_NML);
    }
  }

  function Repeat(kind: int, n: nat): seq<int> {
    seq(n, _ => kind)
  }

  ghost function Members(s: seq<GrabNode>): set<GrabNode> {
    set x | x in s
  }

  /** `mwDropAll` empties the list exactly when neither type has more than DROP_ALL nodes; grabbing
      "everything" stops only at GRAB_ALL. */
  lemma DropAllEmpties(s: seq<int>)
    requires forall i :: 0 <= i < |s| ==> s[i] == VAL_GRB || s[i] == VAL_NML
    ensures Drop(Drop(s, DROP_ALL, VAL_GRB), DROP_ALL, VAL_NML) == []
      <==> CountKind(s, VAL_GRB) <= DROP_ALL && CountKind(s, VAL_NML) <= DROP_ALL
  {
    DropCounts(s, DROP_ALL, VAL_GRB, VAL_NML);
    DropCounts(Drop(s, DROP_ALL, VAL_GRB), DROP_ALL, VAL_NML, VAL_NML);
    TwoKinds(s);
  }

  /** A list of 60001 nodes of one type keeps one. */
  lemma OneTooMany()
    ensures |Drop(Drop(Repeat(VAL_NML, 60001), DROP_ALL, VAL_GRB), DROP_ALL, VAL_NML)| == 1
  {
    var s := Repeat(VAL_NML, 60001);
    CountRepeat(VAL_NML, 60001);
    DropCounts(s, DROP_ALL, VAL_GRB, VAL_NML);
    DropCounts(Drop(s, DROP_ALL, VAL_GRB), DROP_ALL, VAL_NML, VAL_NML);
  }

  lemma {:induction false} CountRepeat(kind: int, n: nat)
    ensures CountKind(Repeat(kind, n), kind) == n
    ensures forall t :: t != kind ==> CountKind(Repeat(kind, n), t) == 0
  {
    if n > 0 {
      CountRepeat(kind, n - 1);
      assert Repeat(kind, n)[1..] == Repeat(kind, n - 1);
    }
  }

  lemma {:induction false} TwoKinds(s: seq<int>)
    requires forall i :: 0 <= i < |s| ==> s[i] == VAL_GRB || s[i] == VAL_NML
    ensures |s| == CountKind(s, VAL_GRB) + CountKind(s, VAL_NML)
  {
    if s != [] {
      TwoKinds(s[1..]);
    }
  }
}
