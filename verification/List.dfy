/** The singly linked list the program keeps its URLs in. */
module List {
  import opened Basics

  class Node {
    var next: Node?
    var data: string
    ghost var freed: bool

    constructor (data: string)
      ensures this.data == data && next == null && !freed
    {
      this.data, next, freed := data, null, false;
    }
  }

  ghost function Members(s: seq<Node>): set<Node> {
    set x | x in s
  }

  function Reversed(s: seq<string>): seq<string> {
    if s == [] then [] else Reversed(s[1..]) + [s[0]]
  }

  lemma {:induction false} ReversedAt(s: seq<string>, i: nat)
    requires i < |s|
    ensures |Reversed(s)| == |s| && Reversed(s)[|s| - 1 - i] == s[i]
  {
    if |s| == 1 {
      assert Reversed(s[1..]) == [];
    } else if i == 0 {
      ReversedAt(s[1..], 0);
    } else {
      ReversedAt(s[1..], i - 1);
    }
  }

  lemma ReversedItems(s: seq<string>)
    ensures |Reversed(s)| == |s| && forall j :: 0 <= j < |s| ==> Reversed(s)[j] == s[|s| - 1 - j]
  {
    forall j | 0 <= j < |s|
      ensures |Reversed(s)| == |s| && Reversed(s)[j] == s[|s| - 1 - j]
    {
      ReversedAt(s, |s| - 1 - j);
    }
  }

  /** The list behind one `NODE *` variable, and that variable. */
  class SimpleList {
    var head: Node?
    ghost var nodes: seq<Node>
    ghost var items: seq<string>

    ghost predicate NodeAt(i: int)
      requires 0 <= i < |nodes| == |items|
      reads this, {nodes[i]}
    {
      Holds(nodes[i], items[i]) && Onward(nodes, i)
    }

    /** No node on the list has been freed. */
    ghost predicate Valid()
      reads this, nodes
    {
      && |nodes| == |items|
      && (forall i, j :: 0 <= i < j < |nodes| ==> nodes[i] != nodes[j])
      && head == (if nodes == [] then null else nodes[0])
      && (forall i {:trigger NodeAt(i)} :: 0 <= i < |nodes| ==> NodeAt(i))
    }

    constructor ()
      ensures Valid() && items == [] && nodes == []
    {
      head, nodes, items := null, [], [];
    }

    /** `addToHead`; `elem` is None for NULL, `ok` tells whether the node can be allocated. */
    method AddToHead(elem: Option<string>, ok: bool) returns (rc: int)
      requires Valid()
      modifies this
      ensures Valid() && fresh(Members(nodes) - old(Members(nodes)))
      ensures rc == if elem.Some? && ok then 0 else -1
      ensures items == if rc == 0 then [elem.value] + old(items) else old(items)
    {
      if elem == None || !ok {
        return -1;
      }
      var newnode := new Node(elem.value);
      newnode.next := head;
      head := newnode;
      nodes, items := [newnode] + nodes, [elem.value] + items;
      assert Members(nodes) <= {newnode} + old(Members(nodes));
      forall i | 0 <= i < |nodes|
        ensures NodeAt(i)
      {
        assert i == 0 || old(NodeAt(i - 1));
      }
      return 0;
    }

    /** `addToTail` */
    method AddToTail(elem: Option<string>, ok: bool) returns (rc: int)
      requires Valid()
      modifies this, Members(nodes)`next
      ensures Valid() && fresh(Members(nodes) - old(Members(nodes)))
      ensures rc == if elem.Some? && ok then 0 else -1
      ensures items == if rc == 0 then old(items) + [elem.value] else old(items)
    {
      if elem == None || !ok {
        return -1;
      }
      var newnode := new Node(elem.value);
      var last := GetLastNode();
      if last == null {
        head := newnode;
      } else {
        assert last in Members(nodes);
        last.next := newnode;
      }
      nodes, items := nodes + [newnode], items + [elem.value];
      assert Members(nodes) <= {newnode} + old(Members(nodes));
      forall i | 0 <= i < |nodes|
        ensures NodeAt(i)
      {
        assert i == |nodes| - 1 || old(NodeAt(i));
      }
      return 0;
    }

    /** `getLastNode` */
    method GetLastNode() returns (current: Node?)
      requires Valid()
      ensures current == if nodes == [] then null else nodes[|nodes| - 1]
    {
      current := head;
      ghost var i := 0;
      if nodes != [] {
        assert NodeAt(0);
      }
      while current != null && current.next != null
        invariant if nodes == [] then current == null else 0 <= i < |nodes| && current == nodes[i] && NodeAt(i)
        decreases |nodes| - i
      {
        current := current.next;
        i := i + 1;
        assert NodeAt(i);
      }
    }

    /** `listCount` */
    method ListCount() returns (c: nat)
      requires Valid()
      ensures c == |items|
    {
      c := 0;
      var current := head;
      while current != null
        invariant 0 <= c <= |nodes| && current == if c == |nodes| then null else nodes[c]
        decreases |nodes| - c
      {
        assert NodeAt(c);
        c := c + 1;
        current := current.next;
      }
    }

    /** `removeLast`. It is handed the list by value, so it cannot clear the caller's variable: with a
        single node, that variable is left pointing at freed memory. */
    method RemoveLast()
      requires Valid()
      modifies this`nodes, this`items, Members(nodes)`next, Members(nodes)`freed
      ensures Valid() <==> |old(items)| != 1
      ensures |old(items)| != 1 ==> Members(nodes) <= old(Members(nodes))
      ensures |old(items)| != 1 ==> items == if old(items) == [] then [] else old(items)[..|old(items)| - 1]
      ensures |old(items)| == 1 ==> head != null && head.freed
    {
      var p, prev: Node? := head, null;
      ghost var i := 0;
      if nodes != [] {
        assert NodeAt(0);
      }
      while p != null && p.next != null
        invariant if nodes == [] then p == null && i == 0 else 0 <= i < |nodes| && p == nodes[i] && NodeAt(i)
        invariant prev == if i == 0 then null else nodes[i - 1]
        decreases |nodes| - i
      {
        prev := p;
        p := p.next;
        i := i + 1;
        assert NodeAt(i);
      }
      Unhook(prev, p);
    }

    method Unhook(prev: Node?, p: Node?)
      requires Valid()
      requires p == if nodes == [] then null else nodes[|nodes| - 1]
      requires prev == if |nodes| < 2 then null else nodes[|nodes| - 2]
      modifies this`nodes, this`items, Members(nodes)`next, Members(nodes)`freed
      ensures Valid() <==> |old(items)| != 1
      ensures |old(items)| != 1 ==> Members(nodes) <= old(Members(nodes))
      ensures |old(items)| != 1 ==> items == if old(items) == [] then [] else old(items)[..|old(items)| - 1]
      ensures |old(items)| == 1 ==> head != null && head.freed
    {
      if prev != null {
        assert prev in Members(nodes);
        prev.next := null;
      }
      if p != null {
        ghost var n := |nodes| - 1;
        assert p in Members(nodes);
        p.freed := true;
        if n > 0 {
          nodes, items := nodes[..n], items[..n];
          forall i | 0 <= i < |nodes|
            ensures NodeAt(i)
          {
            assert old(NodeAt(i));
          }
        } else {
          assert !NodeAt(0);
        }
      }
    }

    /** `reverseList`, in place. */
    method Reverse()
      requires Valid()
      modifies this, Members(nodes)`next
      ensures Valid() && Members(nodes) == old(Members(nodes))
      ensures items == Reversed(old(items))
    {
      hide Reversed, Holds, Backwards, Onward, Turned, Members;
      ghost var s, t := nodes, items;
      forall j | 0 <= j < |s|
        ensures Onward(s, j) && Holds(s[j], t[j])
      {
        assert NodeAt(j);
      }
      head := TurnAll(head, s);
      nodes, items := Backwards(s), Reversed(t);
      BackwardsIs(s, t);
      TurnedAll(s, t);
      forall j | 0 <= j < |nodes|
        ensures NodeAt(j)
      {
        assert Onward(nodes, j);
      }
    }

    /** The loop of `reverseList`. */
    method TurnAll(head: Node?, ghost s: seq<Node>) returns (result: Node?)
      requires forall i, j :: 0 <= i < j < |s| ==> s[i] != s[j]
      requires forall j {:trigger Onward(s, j)} :: 0 <= j < |s| ==> Onward(s, j)
      requires head == if s == [] then null else s[0]
      modifies Members(s)`next
      ensures result == if s == [] then null else s[|s| - 1]
      ensures forall j {:trigger Turned(s, j)} :: 0 <= j < |s| ==> Turned(s, j)
    {
      var current := head;
      result := null;
      ghost var i := 0;
      while current != null
        invariant 0 <= i <= |s| && current == if i == |s| then null else s[i]
        invariant result == if i == 0 then null else s[i - 1]
        invariant forall j {:trigger Onward(s, j)} :: i <= j < |s| ==> Onward(s, j)
        invariant forall j {:trigger Turned(s, j)} :: 0 <= j < i ==> Turned(s, j)
        decreases |s| - i
      {
        assert current in Members(s) && Onward(s, i);
        var nextnode := current.next;
        current.next := result;
        result := current;
        current := nextnode;
        i := i + 1;
      }
    }
  }

  ghost predicate Holds(n: Node, data: string)
    reads n`data, n`freed
  {
    n.data == data && !n.freed
  }

  ghost predicate Onward(s: seq<Node>, j: int)
    requires 0 <= j < |s|
    reads {s[j]}`next
  {
    s[j].next == if j + 1 < |s| then s[j + 1] else null
  }

  ghost predicate Turned(s: seq<Node>, j: int)
    requires 0 <= j < |s|
    reads {s[j]}`next
  {
    s[j].next == if j > 0 then s[j - 1] else null
  }

  ghost function Backwards(s: seq<Node>): (t: seq<Node>)
    ensures |t| == |s| && forall i :: 0 <= i < |s| ==> t[i] == s[|s| - 1 - i]
  {
    seq(|s|, i requires 0 <= i < |s| => s[|s| - 1 - i])
  }

  lemma BackwardsIs(s: seq<Node>, t: seq<string>)
    requires |s| == |t| && forall i, j :: 0 <= i < j < |s| ==> s[i] != s[j]
    ensures var b, r := Backwards(s), Reversed(t);
      && |b| == |r| == |s| && Members(b) == Members(s)
      && (forall i, j :: 0 <= i < j < |b| ==> b[i] != b[j])
      && (forall j :: 0 <= j < |s| ==> b[j] == s[|s| - 1 - j] && r[j] == t[|t| - 1 - j])
  {
    hide Reversed;
    ReversedItems(t);
    var b := Backwards(s);
    assert forall j {:trigger s[j]} :: 0 <= j < |s| ==> s[j] == b[|s| - 1 - j];
  }

  lemma TurnedAll(s: seq<Node>, t: seq<string>)
    requires |s| == |t|
    requires forall j {:trigger Turned(s, j)} :: 0 <= j < |s| ==> Turned(s, j)
    requires forall j :: 0 <= j < |s| ==> Holds(s[j], t[j])
    ensures var b, r := Backwards(s), Reversed(t);
      |b| == |r| && forall j {:trigger Onward(b, j)} :: 0 <= j < |b| ==> Onward(b, j) && Holds(b[j], r[j])
  {
    hide Reversed, Holds;
    ReversedItems(t);
    var b, r := Backwards(s), Reversed(t);
    forall j | 0 <= j < |b|
      ensures Onward(b, j) && Holds(b[j], r[j])
    {
      assert Turned(s, |s| - 1 - j) && Holds(s[|s| - 1 - j], t[|s| - 1 - j]);
    }
  }
}
