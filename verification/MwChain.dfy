/** The doubly linked chain of headers: linking, unlinking, and the checks that walk it. */
module MwChain {
  import opened MwBlock
  import opened MwGuard
  import opened Basics

  ghost predicate Distinct(s: seq<Block>) {
    forall i, j :: 0 <= i < j < |s| ==> s[i] != s[j]
  }

  ghost predicate Ends(s: seq<Block>, head: Block?, tail: Block?) {
    if s == [] then head == null && tail == null else head == s[0] && tail == s[|s| - 1]
  }

  ghost predicate LinkedAt(s: seq<Block>, i: int)
    requires 0 <= i < |s|
    reads {s[i]}`prev, {s[i]}`next
  {
    && s[i].prev == (if i == 0 then null else s[i - 1])
    && s[i].next == (if i == |s| - 1 then null else s[i + 1])
  }

  /** `s` is the chain from `head` to `tail`, except that the links of `mw` may be anything. */
  ghost predicate LinkedExcept(s: seq<Block>, head: Block?, tail: Block?, mw: Block?)
    reads s`prev, s`next
  {
    && Distinct(s)
    && Ends(s, head, tail)
    && forall i {:trigger LinkedAt(s, i)} :: 0 <= i < |s| && s[i] != mw ==> LinkedAt(s, i)
  }

  /** `s` is the chain from `head` to `tail`: no block twice, every link answered. */
  ghost predicate Linked(s: seq<Block>, head: Block?, tail: Block?)
    reads s`prev, s`next
  {
    LinkedExcept(s, head, tail, null)
  }

  /** A finite pointer graph: whatever is reachable from `pool` lies in `pool`. */
  ghost predicate Closed(pool: set<Block>)
    reads pool`prev, pool`next
  {
    forall b :: b in pool ==> (b.prev == null || b.prev in pool) && (b.next == null || b.next in pool)
  }

  ghost function Members(s: seq<Block>): set<Block> {
    set b | b in s
  }

  ghost function TotalSize(s: seq<Block>): int
    reads s`size
  {
    if s == [] then 0 else TotalSize(s[..|s| - 1]) + ToLong(s[|s| - 1].size)
  }

  /** The blocks met so far by following `next` from `head`, each answering the link that led to it. */
  ghost predicate Walk(s: seq<Block>, head: Block?)
    reads s`prev, s`next
  {
    && (s != [] ==> head == s[0] && s[0].prev == null)
    && forall i :: 0 <= i < |s| - 1 ==> s[i].next == s[i + 1] && s[i + 1].prev == s[i]
  }

  lemma {:induction false} WalkIsPrefix(s: seq<Block>, t: seq<Block>, head: Block?, tail: Block?)
    requires Linked(t, head, tail) && s != [] && head == s[0]
    requires forall i :: 0 <= i < |s| - 1 ==> s[i].next == s[i + 1]
    ensures s <= t
  {
    if |s| > 1 {
      var r := s[..|s| - 1];
      WalkIsPrefix(r, t, head, tail);
      assert LinkedAt(t, |s| - 2);
      assert s == r + [s[|s| - 1]];
    }
  }

  lemma {:induction false} WalkIsSuffix(r: seq<Block>, t: seq<Block>, head: Block?, tail: Block?)
    requires Linked(t, head, tail) && r != [] && tail == r[|r| - 1]
    requires forall i :: 0 < i < |r| ==> r[i].prev == r[i - 1]
    ensures |r| <= |t| && t[|t| - |r|..] == r
  {
    if |r| > 1 {
      WalkIsSuffix(r[1..], t, head, tail);
      var k := |t| - |r| + 1;
      assert t[k] == t[k..][0] == r[1] && r[1].prev == r[0];
      assert LinkedAt(t, k);
      assert t[k - 1..] == [t[k - 1]] + t[k..];
    }
  }

  lemma FrontIsPrefix(s: seq<Block>, t: seq<Block>, head: Block?, tail: Block?, k: nat)
    requires k < |s| && LinkedExcept(s, head, tail, s[k]) && Linked(t, head, tail)
    ensures s[..k + 1] <= t
  {
    var front := s[..k + 1];
    forall i | 0 <= i < |front| - 1
      ensures front[i].next == front[i + 1]
    {
      assert LinkedAt(s, i);
    }
    WalkIsPrefix(front, t, head, tail);
  }

  lemma BackIsSuffix(s: seq<Block>, t: seq<Block>, head: Block?, tail: Block?, k: nat)
    requires k < |s| && LinkedExcept(s, head, tail, s[k]) && Linked(t, head, tail)
    ensures |s| - k <= |t| && t[|t| - (|s| - k)..] == s[k..]
  {
    var back := s[k..];
    forall i | 0 < i < |back|
      ensures back[i].prev == back[i - 1]
    {
      assert LinkedAt(s, k + i);
    }
    WalkIsSuffix(back, t, head, tail);
  }

  /** A sequence without repetition that begins and ends like another, up to one element they share, is
      that other. */
  lemma Overlapping(s: seq<Block>, t: seq<Block>, k: nat)
    requires Distinct(t) && k < |s| && s[..k + 1] <= t
    requires |s| - k <= |t| && t[|t| - (|s| - k)..] == s[k..]
    ensures s == t
  {
    var d := |t| - |s|;
    assert t[k] == s[..k + 1][k] == s[k];
    assert t[k + d] == t[k + d..][0] == s[k];
    assert t == t[..k] + t[k..] && s == s[..k] + s[k..];
    assert s[..k + 1][..k] == t[..k];
  }

  lemma StrangerIsNoDamage(s: seq<Block>, t: seq<Block>, head: Block?, tail: Block?, mw: Block)
    requires LinkedExcept(s, head, tail, mw) && Linked(t, head, tail) && head != null && mw !in s
    ensures s == t
  {
    forall i | 0 <= i < |s|
      ensures i < |s| - 1 ==> s[i].next == s[i + 1]
    {
      assert LinkedAt(s, i);
    }
    WalkIsPrefix(s, t, head, tail);
    assert LinkedAt(s, |s| - 1);
    assert LinkedAt(t, |s| - 1);
  }

  /** Damage to one block cannot pass for another chain. */
  lemma DamageShows(s: seq<Block>, t: seq<Block>, head: Block?, tail: Block?, mw: Block)
    requires LinkedExcept(s, head, tail, mw) && Linked(t, head, tail) && head != null
    ensures s == t
  {
    if k: nat :| k < |s| && s[k] == mw {
      FrontIsPrefix(s, t, head, tail, k);
      BackIsSuffix(s, t, head, tail, k);
      Overlapping(s, t, k);
    } else {
      StrangerIsNoDamage(s, t, head, tail, mw);
    }
  }

  /** Following answered links from a block without predecessor never returns to a block seen before. */
  lemma {:induction false} WalkIsDistinct(s: seq<Block>, head: Block?)
    requires Walk(s, head)
    ensures Distinct(s)
  {
    if s != [] {
      var r := s[..|s| - 1];
      WalkIsDistinct(r, head);
      var last := s[|s| - 1];
      forall i | 0 <= i < |s| - 1
        ensures s[i] != last
      {
        assert s[|s| - 2].next == last;
        assert i == 0 || (s[i - 1].next == s[i] && r[i - 1] != r[|r| - 1]);
      }
    }
  }

  lemma WalkExtends(s: seq<Block>, mw: Block, head: Block?)
    requires Walk(s, head)
    requires if s == [] then mw == head && mw.prev == null else s[|s| - 1].next == mw && mw.prev == s[|s| - 1]
    ensures Walk(s + [mw], head) && mw !in s
  {
    var t := s + [mw];
    WalkIsDistinct(t, head);
    assert forall i :: 0 <= i < |s| ==> t[i] == s[i] && t[i] != t[|s|];
  }

  lemma LinkedIsClosed(s: seq<Block>, head: Block?, tail: Block?)
    requires Linked(s, head, tail)
    ensures Closed(Members(s)) && (head != null ==> head in Members(s))
  {
    forall i | 0 <= i < |s|
      ensures s[i].prev != null ==> s[i].prev in Members(s)
      ensures s[i].next != null ==> s[i].next in Members(s)
    {
      assert LinkedAt(s, i);
    }
  }

  class Chain {
    var head: Block?
    var tail: Block?
    ghost var blocks: seq<Block>

    ghost predicate Valid()
      reads this, blocks`prev, blocks`next
    {
      Linked(blocks, head, tail)
    }

    constructor ()
      ensures Valid() && blocks == []
    {
      head, tail, blocks := null, null, [];
    }

    /** The linking part of `mwMalloc`. */
    method PushFront(mw: Block)
      requires Valid() && mw !in blocks
      modifies this, Members(blocks)`prev, mw`prev, mw`next
      ensures Valid() && blocks == [mw] + old(blocks)
    {
      mw.prev := null;
      mw.next := head;
      if head != null {
        head.prev := mw;
      }
      head := mw;
      if tail == null {
        tail := mw;
      }
      blocks := [mw] + blocks;
      forall i | 0 <= i < |blocks|
        ensures LinkedAt(blocks, i)
      {
        if i > 0 {
          assert old(LinkedAt(blocks, i - 1));
        }
      }
    }

    /** `mwUnlink`: each side is bypassed only if the neighbour points back. */
    method Unlink(mw: Block, ghost k: nat)
      requires Valid() && k < |blocks| && blocks[k] == mw
      modifies this, Members(blocks)`prev, Members(blocks)`next
      ensures Valid() && blocks == Cut(old(blocks), k)
      ensures mw.prev == old(mw.prev) && mw.next == old(mw.next)
    {
      assert LinkedAt(blocks, k);
      assert k > 0 ==> LinkedAt(blocks, k - 1);
      assert k + 1 < |blocks| ==> LinkedAt(blocks, k + 1);
      if mw.prev == null {
        head := mw.next;
      } else if mw.prev.next == mw {
        mw.prev.next := mw.next;
      }
      if mw.next == null {
        tail := mw.prev;
      } else if mw.next.prev == mw {
        mw.next.prev := mw.prev;
      }
      blocks := blocks[..k] + blocks[k + 1..];
      forall i | 0 <= i < |blocks|
        ensures LinkedAt(blocks, i)
      {
        assert old(LinkedAt(blocks, if i < k then i else i + 1));
      }
    }

    /** `mwIsHeapOK`, on any finite graph of headers, however damaged. */
    method IsHeapOK(includes: Block?, ghost pool: set<Block>) returns (ok: bool)
      requires head != null ==> head in pool
      requires Closed(pool)
      ensures head == null ==> ok == (includes == null)
      ensures head != null ==>
        (ok <==> exists s: seq<Block> :: Linked(s, head, tail) && (includes == null || includes in s))
    {
      var found := 0;
      var mw := head;
      ghost var s: seq<Block>, left := [], pool;
      while mw != null
        invariant Walk(s, head)
        invariant if s == [] then mw == head else s[|s| - 1].next == mw
        invariant s != [] && mw != null ==> mw.prev == s[|s| - 1]
        invariant s != [] && mw == null ==> tail == s[|s| - 1]
        invariant mw != null ==> mw in left
        invariant left <= pool && forall b :: b in pool ==> b in left || b in s
        invariant 0 <= found && (found > 0 <==> includes != null && includes in s)
        decreases left
      {
        if includes == mw {
          found := found + 1;
        }
        if mw.prev != null {
          if mw == head || mw.prev.next != mw {
            NotLinked(s, mw);
            return false;
          }
        }
        if mw.next != null {
          if mw == tail || mw.next.prev != mw {
            NotLinked(s, mw);
            return false;
          }
        } else if mw != tail {
          NotLinked(s, mw);
          return false;
        }
        WalkExtends(s, mw, head);
        if mw.next != null {
          WalkExtends(s + [mw], mw.next, head);
        }
        s, left := s + [mw], left - {mw};
        mw := mw.next;
      }
      if head != null {
        OnlyChain(s);
      }
      return includes == null || found > 0;
    }

    /** A block of the chain passes the tests of `IsHeapOK`. */
    lemma ChainPassesTests(r: seq<Block>, mw: Block, s: seq<Block>)
      requires Walk(r, head) && Linked(s, head, tail)
      requires if r == [] then mw == head else r[|r| - 1].next == mw
      ensures mw.prev != null ==> mw != head && mw.prev.next == mw
      ensures mw.next != null ==> mw != tail && mw.next.prev == mw
      ensures mw.next == null ==> mw == tail
    {
      var k := |r|;
      WalkIsPrefix(r + [mw], s, head, tail);
      assert k == 0 || LinkedAt(s, k - 1);
      assert k + 1 == |s| || LinkedAt(s, k + 1);
      assert s[k] == (r + [mw])[k] == mw;
      assert LinkedAt(s, k);
    }

    lemma NotLinked(r: seq<Block>, mw: Block)
      requires Walk(r, head)
      requires if r == [] then mw == head else r[|r| - 1].next == mw
      requires
        || (mw.prev != null && (mw == head || mw.prev.next != mw))
        || (mw.next != null && (mw == tail || mw.next.prev != mw))
        || (mw.next == null && mw != tail)
      ensures !exists s: seq<Block> :: Linked(s, head, tail)
    {
      if s: seq<Block> :| Linked(s, head, tail) {
        ChainPassesTests(r, mw, s);
        assert false;
      }
    }

    /** A walk that reached `tail` is the chain, and the only one. */
    lemma OnlyChain(t: seq<Block>)
      requires t != [] && Walk(t, head)
      requires tail == t[|t| - 1] && tail.next == null
      ensures Linked(t, head, tail)
      ensures forall s: seq<Block> :: Linked(s, head, tail) ==> s == t
    {
      WalkIsDistinct(t, head);
      forall i | 0 <= i < |t|
        ensures LinkedAt(t, i)
      {
        if i > 0 {
          assert t[i - 1].next == t[i];
        }
      }
      forall s: seq<Block> | Linked(s, head, tail)
        ensures s == t
      {
        WalkIsPrefix(t, s, head, tail);
        assert LinkedAt(s, |t| - 1);
      }
    }

    /** The loop that counts the chain's blocks and bytes at the end of `mwRelink`. */
    method Measure() returns (count: int, size: int)
      requires Valid()
      ensures count == |blocks| && size == TotalSize(blocks)
    {
      count, size := 0, 0;
      var mw := head;
      ghost var i := 0;
      while mw != null
        invariant i <= |blocks| && count == i && size == TotalSize(blocks[..i])
        invariant mw == if i == |blocks| then null else blocks[i]
        decreases |blocks| - i
      {
        assert LinkedAt(blocks, i);
        assert blocks[..i + 1][..i] == blocks[..i];
        count := count + 1;
        size := size + ToLong(mw.size);
        i := i + 1;
        mw := mw.next;
      }
      assert blocks[..i] == blocks;
    }

    /** The two searches of `mwRelink` for the neighbours of `mw`: whatever the links of `mw`
        held, a member gets its own back; `fails` is 2 exactly for a stranger. */
    method RepairLinks(mw: Block) returns (fails: int)
      requires LinkedExcept(blocks, head, tail, mw) && blocks != []
      modifies mw`prev, mw`next
      ensures Valid()
      ensures fails == if mw in blocks then 0 else 2
      ensures mw !in blocks ==> mw.prev == old(mw.prev) && mw.next == old(mw.next)
    {
      ghost var k := if mw in blocks then IndexOf(mw) else |blocks|;
      var failsHead := RepairPrev(mw, k);
      var failsTail := RepairNext(mw, k);
      fails := failsHead + failsTail;
      forall i | 0 <= i < |blocks|
        ensures LinkedAt(blocks, i)
      {
        assert blocks[i] == mw ==> i == k;
      }
    }

    /** `k` is where `mw` stands in the chain, or the chain's length if it does not. */
    ghost predicate PositionOf(mw: Block, k: nat)
      reads this
    {
      if k < |blocks| then blocks[k] == mw else k == |blocks| && mw !in blocks
    }

    /** "Repair from head". */
    method RepairPrev(mw: Block, ghost k: nat) returns (fails: int)
      requires LinkedExcept(blocks, head, tail, mw) && blocks != [] && PositionOf(mw, k)
      modifies mw`prev
      ensures LinkedExcept(blocks, head, tail, mw)
      ensures fails == if k < |blocks| then 0 else 1
      ensures mw.prev == if k == |blocks| then old(mw.prev) else if k == 0 then null else blocks[k - 1]
    {
      if head != mw {
        var mw1 := head;
        ghost var i := 0;
        while mw1 != null
          invariant 0 <= i <= |blocks| && mw !in blocks[..i]
          invariant mw1 != mw && mw1 == if i == |blocks| then null else blocks[i]
          decreases |blocks| - i
        {
          assert LinkedAt(blocks, i);
          if mw1.next == mw {
            mw.prev := mw1;
            break;
          }
          assert i + 1 == |blocks| || LinkedAt(blocks, i + 1);
          if mw1.next != null && mw1.next.prev != mw1 {
            assert false; // the code would turn to its emergency repairs
          }
          mw1 := mw1.next;
          i := i + 1;
        }
        fails := if mw1 == null then 1 else 0;
      } else {
        fails := 0;
        if mw.prev != null {
          mw.prev := null;
        }
      }
      forall j | 0 <= j < |blocks| && blocks[j] != mw
        ensures LinkedAt(blocks, j)
      {
        assert old(LinkedAt(blocks, j));
      }
    }

    /** "Repair from tail". */
    method RepairNext(mw: Block, ghost k: nat) returns (fails: int)
      requires LinkedExcept(blocks, head, tail, mw) && blocks != [] && PositionOf(mw, k)
      modifies mw`next
      ensures LinkedExcept(blocks, head, tail, mw)
      ensures fails == if k < |blocks| then 0 else 1
      ensures mw.next == if k == |blocks| then old(mw.next) else if k == |blocks| - 1 then null else blocks[k + 1]
    {
      if tail != mw {
        var mw1 := tail;
        ghost var i := |blocks|;
        while mw1 != null
          invariant 0 <= i <= |blocks| && mw !in blocks[i..]
          invariant mw1 != mw && mw1 == if i == 0 then null else blocks[i - 1]
          decreases i
        {
          assert LinkedAt(blocks, i - 1);
          if mw1.prev == mw {
            mw.next := mw1;
            break;
          }
          assert i == 1 || LinkedAt(blocks, i - 2);
          if mw1.prev != null && mw1.prev.next != mw1 {
            assert false; // the code would turn to its emergency repairs
          }
          mw1 := mw1.prev;
          i := i - 1;
        }
        fails := if mw1 == null then 1 else 0;
      } else {
        fails := 0;
        if mw.next != null {
          mw.next := null;
        }
      }
      forall j | 0 <= j < |blocks| && blocks[j] != mw
        ensures LinkedAt(blocks, j)
      {
        assert old(LinkedAt(blocks, j));
      }
    }

    ghost function IndexOf(mw: Block): (k: nat)
      requires mw in blocks
      reads this
      ensures k < |blocks| && blocks[k] == mw
    {
      var k: nat :| k < |blocks| && blocks[k] == mw;
      k
    }

    /** `mwRelink` where every link but those of `mw` is intact, which keeps it out of its emergency
        branch. `numCur` and `statCur` are `mwNumCurAlloc` and `mwStatCurAlloc`, `known` tells whether
        the statistics have a module record for the file of `mw`. */
    method Relink(mw: Block, numCur: int, statCur: int, known: bool) returns (ok: bool)
      requires LinkedExcept(blocks, head, tail, mw)
      modifies mw`prev, mw`next, mw`file, mw`check, mw`size
      ensures Valid()
      ensures ok <==> blocks != [] && |blocks| == numCur
      ensures mw.size == if ok && old(TotalSize(blocks)) != statCur then 0 else old(mw.size)
      ensures mw in blocks ==> mw.check == Checksum(mw.count, ToLong(old(mw.size)), mw.line)
      ensures mw.file == if mw in blocks && !known && old(mw.file).Some? then Some("<relinked>") else old(mw.file)
      ensures mw !in blocks ==> mw.prev == old(mw.prev) && mw.next == old(mw.next) && mw.check == old(mw.check)
    {
      hide Xor, TotalSize, LinkedAt, Distinct;
      if head != mw && head == null {
        return false; // emergency branch: the heap is empty, nothing to repair
      }
      var fails := RepairLinks(mw);
      if fails <= 1 {
        if mw.file != None && !known {
          mw.file := Some("<relinked>");
        }
        mw.check := mw.ChkVal();
      }
      var count, size := Assess();
      if count == numCur {
        if size != statCur {
          mw.size := 0;
        }
      } else {
        return false;
      }
      return true;
    }

    /** `verifyok`: the chain is checked once more, then measured. */
    method Assess() returns (count: int, size: int)
      requires Valid()
      ensures count == |blocks| && size == TotalSize(blocks)
    {
      LinkedIsClosed(blocks, head, tail);
      var intact := IsHeapOK(null, Members(blocks));
      assert Linked(blocks, head, tail);
      if !intact {
        assert false; // the code would abort the program
      }
      count, size := Measure();
    }

    /** The vote of `mwIsOwned`: one point for each neighbour that points back, one for the checksum. */
    function Vote(mw: Block): (v: int)
      reads this, mw, mw.prev, mw.next
    {
      (if mw.prev != null then if mw.prev.next == mw then 1 else 0 else if head == mw then 1 else 0)
      + (if mw.next != null then if mw.next.prev == mw then 1 else 0 else if tail == mw then 1 else 0)
      + (if mw.check == mw.ChkVal() then 1 else 0)
    }

    /** On a well-formed chain the vote agrees with a full walk, unless two blocks outside the chain
        take the stranger for their neighbour. */
    lemma VoteDecidesMembership(mw: Block)
      requires Valid() && mw.check == mw.ChkVal()
      ensures Vote(mw) == 3 <==> mw in blocks || VouchedForOutside(mw)
    {
      hide Xor;
      if mw in blocks {
        var k := IndexOf(mw);
        assert LinkedAt(blocks, k);
        assert k > 0 ==> LinkedAt(blocks, k - 1);
        assert k + 1 < |blocks| ==> LinkedAt(blocks, k + 1);
      } else {
        forall b | b in blocks
          ensures b.prev != mw && b.next != mw
        {
          assert LinkedAt(blocks, IndexOf(b));
        }
      }
    }

    ghost predicate VouchedForOutside(mw: Block)
      reads this, mw, mw.prev, mw.next
    {
      && mw !in blocks
      && mw.prev != null && mw.prev !in blocks && mw.prev.next == mw
      && mw.next != null && mw.next !in blocks && mw.next.prev == mw
    }

    /** A stranger that takes itself for both its neighbours gets every vote. */
    lemma SelfLinkedStranger(mw: Block)
      requires Valid() && mw !in blocks && mw.prev == mw && mw.next == mw && mw.check == mw.ChkVal()
      ensures Vote(mw) == 3
    {
      VoteDecidesMembership(mw);
    }

    /** What an intact chain means for the damage-tolerant calls below. */
    lemma Intact(mw: Block)
      requires Valid()
      ensures LinkedExcept(blocks, head, tail, mw) && Closed(Members(blocks))
    {
      LinkedIsClosed(blocks, head, tail);
    }

    lemma VoteOfMember(mw: Block)
      requires Valid() && mw in blocks && mw.check == mw.ChkVal()
      ensures Vote(mw) == 3
    {
      VoteDecidesMembership(mw);
    }

    /** `mwIsHeapOK(mw)`, told in terms of the chain that would be there if `mw` were undamaged. */
    method IsHeapOKIncluding(mw: Block, ghost pool: set<Block>) returns (ok: bool)
      requires LinkedExcept(blocks, head, tail, mw)
      requires Members(blocks) <= pool && Closed(pool)
      ensures ok <==> Linked(blocks, head, tail) && mw in blocks
    {
      ok := IsHeapOK(mw, pool);
      if head != null {
        forall s: seq<Block> | Linked(s, head, tail)
          ensures s == blocks
        {
          DamageShows(blocks, s, head, tail, mw);
        }
        assert Linked(blocks, head, tail) || !ok;
      }
    }

    /** `mwIsOwned`. `errors` is how often it raised the error count. */
    method IsOwned(mw: Block, numCur: int, statCur: int, known: bool, ghost pool: set<Block>)
      returns (owned: bool, errors: nat)
      requires LinkedExcept(blocks, head, tail, mw)
      requires Members(blocks) <= pool && Closed(pool)
      modifies mw`prev, mw`next, mw`file, mw`check, mw`size
      ensures blocks == [] && statCur == 0 ==> !owned && errors == 0 && unchanged(mw)
      // A wrong checksum: a member of an intact chain is adopted, but its size is forgotten.
      ensures (blocks != [] || statCur != 0) && old(mw.check != mw.ChkVal()) ==>
        && owned == old(Linked(blocks, head, tail) && mw in blocks)
        && errors == (if owned then 1 else 0)
        && (owned ==> mw.size == 0 && mw.check == mw.ChkVal() && mw.prev == old(mw.prev) && mw.next == old(mw.next))
        && (!owned ==> unchanged(mw))
      // A full vote is believed.
      ensures (blocks != [] || statCur != 0) && old(mw.check == mw.ChkVal() && Vote(mw) == 3) ==>
        owned && errors == 0 && unchanged(mw)
      // Otherwise the chain is repaired, and `mw` owned if nothing but live blocks is on it.
      ensures (blocks != [] || statCur != 0) && old(mw.check == mw.ChkVal() && Vote(mw) != 3) ==>
        && Valid()
        && owned == (blocks != [] && |blocks| == numCur)
        && errors == (if owned then 0 else 1)
        && mw.size == (if owned && old(TotalSize(blocks)) != statCur then 0 else old(mw.size))
        && mw.check == old(mw.check)
    {
      hide Xor, TotalSize;
      errors := 0;
      if head == null && tail == null && statCur == 0 {
        return false, 0;
      }
      if mw.check != mw.ChkVal() {
        var intact := IsHeapOKIncluding(mw, pool);
        if intact {
          if mw.file.Some? {
            if !known {
              mw.file := Some("<relinked>");
            }
          } else {
            mw.file := Some("<unknown>");
          }
          mw.size := 0;
          mw.check := mw.ChkVal();
          return true, 1;
        }
        return false, 0;
      }
      if Vote(mw) > 2 {
        return true, 0;
      }
      if Valid() && mw in blocks {
        VoteOfMember(mw);
        assert false;
      }
      var intact := IsHeapOKIncluding(mw, pool);
      if !intact {
        var relinked := Relink(mw, numCur, statCur, known);
        if relinked {
          return true, 0;
        }
      }
      return false, 1;
    }

    /** Whether the neighbours of `mw` point back at it, as far as it has any. */
    predicate LinksAnswered(mw: Block)
      reads mw, mw.prev, mw.next
    {
      (mw.prev != null ==> mw.prev.next == mw) && (mw.next != null ==> mw.next.prev == mw)
    }

    lemma MemberIsAnswered(mw: Block)
      requires Valid() && mw in blocks
      ensures LinksAnswered(mw)
    {
      var k := IndexOf(mw);
      assert LinkedAt(blocks, k);
      assert k > 0 ==> LinkedAt(blocks, k - 1);
      assert k + 1 < |blocks| ==> LinkedAt(blocks, k + 1);
    }

    /** `mwTestBuf` on a block of the chain whose recorded size is intact. */
    method TestBuf(mw: Block, numCur: int, statCur: int, known: bool) returns (retv: int, errors: nat)
      requires LinkedExcept(blocks, head, tail, mw) && mw in blocks
      requires mw.zone.Length == mw.size + 2 * ZONE
      modifies mw`prev, mw`next, mw`file, mw`check, mw`size
      ensures old(mw.check == mw.ChkVal() && LinksAnswered(mw)) ==>
        && unchanged(mw)
        && errors == (if Underflowed(mw.zone[..]) then 1 else 0) + (if Overflowed(mw.zone[..], mw.size) then 1 else 0)
        && retv == (if errors > 0 then 1 else 0)
      ensures old(!(mw.check == mw.ChkVal() && LinksAnswered(mw))) ==>
        && Valid() && errors > 0
        && (|blocks| != numCur ==> retv != 0)
        && (|blocks| == numCur && old(TotalSize(blocks)) == statCur ==>
          && mw.size == old(mw.size) && mw.check == mw.ChkVal()
          && retv == (if Underflowed(mw.zone[..]) || Overflowed(mw.zone[..], mw.size) then 1 else 0))
    {
      hide Xor, TotalSize, LinkedExcept, Underflowed, Overflowed;
      var done;
      retv, errors, done := TestHeader(mw, numCur, statCur, known);
      if done {
        return;
      }
      var hits := TestGuards(mw);
      if hits > 0 {
        errors, retv := errors + hits, 1;
      }
    }

    /** The guards in front of and behind the payload. */
    method TestGuards(mw: Block) returns (hits: nat)
      requires mw.zone.Length >= mw.size + 2 * ZONE
      ensures hits == (if Underflowed(mw.zone[..]) then 1 else 0) + (if Overflowed(mw.zone[..], mw.size) then 1 else 0)
    {
      hits := 0;
      var bad := CheckOF(mw.zone, 0);
      if bad {
        hits := hits + 1;
      }
      bad := CheckOF(mw.zone, ZONE + mw.size);
      if bad {
        hits := hits + 1;
      }
    }

    /** The checksum and the links, repaired where they are wrong. */
    method TestHeader(mw: Block, numCur: int, statCur: int, known: bool) returns (retv: int, errors: nat, done: bool)
      requires LinkedExcept(blocks, head, tail, mw) && mw in blocks
      modifies mw`prev, mw`next, mw`file, mw`check, mw`size
      ensures old(mw.check == mw.ChkVal() && LinksAnswered(mw)) ==> unchanged(mw) && errors == 0 && retv == 0 && !done
      ensures old(!(mw.check == mw.ChkVal() && LinksAnswered(mw))) ==>
        && Valid() && errors > 0
        && (|blocks| != numCur ==> retv != 0)
        && (|blocks| == numCur && old(TotalSize(blocks)) == statCur ==>
          mw.size == old(mw.size) && mw.check == mw.ChkVal() && retv == 0 && !done)
      ensures mw.size == old(mw.size) || mw.size == 0
    {
      hide Xor, TotalSize;
      retv, errors, done := 0, 0, false;
      if mw.check != mw.ChkVal() {
        errors := errors + 1;
        var ok := Relink(mw, numCur, statCur, known);
        if !ok {
          return 2, errors, true;
        }
      }
      if mw.prev != null && mw.prev.next != mw {
        errors := errors + 1;
        var ok := Relink(mw, numCur, statCur, known);
        if !ok {
          retv := 2;
        }
      }
      if mw.next != null && mw.next.prev != mw {
        errors := errors + 1;
        var ok := Relink(mw, numCur, statCur, known);
        if !ok {
          retv := 2;
        }
      }
    }
  }
}
