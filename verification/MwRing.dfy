/** The ring that remembers the most recent releases. */
module MwRing {
  import opened MwBlock
  import opened Basics

  const FREE_LIST: nat := 64

  datatype Release = Release(addr: int, file: Name, line: int)

  /** The releases still remembered after `hist`, oldest first. */
  function Window(hist: seq<Release>): (w: seq<Release>)
    ensures |w| == if |hist| < FREE_LIST then |hist| else FREE_LIST
  {
    if |hist| <= FREE_LIST then hist else hist[|hist| - FREE_LIST..]
  }

  predicate Remembers(hist: seq<Release>, p: int) {
    exists r :: r in Window(hist) && r.addr == p
  }

  /** An address is remembered until 64 further releases. */
  lemma RememberedUntil(hist: seq<Release>, later: seq<Release>, r: Release)
    requires forall x :: x in later ==> x.addr != r.addr
    ensures Remembers(hist + [r] + later, r.addr) <==> |later| < 64
  {
    var all := hist + [r] + later;
    var w := Window(all);
    if |later| < FREE_LIST {
      assert all[|hist|] == r;
      assert w[|hist| - (|all| - |w|)] == r;
    } else {
      forall x | x in w
        ensures x.addr != r.addr
      {
        var i :| 0 <= i < |w| && w[i] == x;
        assert x == all[|all| - |w| + i] == later[|all| - |w| + i - |hist| - 1];
      }
    }
  }

  class FreeRing {
    const lastFree: array<int>
    const files: array<Name>
    const lines: array<int>
    var cur: nat
    ghost var hist: seq<Release>

    /** Slot `i` holds the release numbered `j`, the last one with `j % 64 == i`; or NULL. */
    ghost predicate Valid()
      reads this, lastFree, files, lines
    {
      && lastFree != lines
      && lastFree.Length == files.Length == lines.Length == FREE_LIST
      && cur == |hist| % FREE_LIST
      && (forall j {:trigger hist[j]} :: 0 <= j < |hist| && |hist| - FREE_LIST <= j ==>
        Release(lastFree[j % FREE_LIST], files[j % FREE_LIST], lines[j % FREE_LIST]) == hist[j])
      && (forall i {:trigger lastFree[i]} :: |hist| <= i < FREE_LIST ==> lastFree[i] == 0)
    }

    constructor ()
      ensures Valid() && hist == [] && fresh(lastFree) && fresh(files) && fresh(lines)
    {
      lastFree := new int[FREE_LIST](_ => 0);
      files := new Name[FREE_LIST](_ => None);
      lines := new int[FREE_LIST](_ => 0);
      cur, hist := 0, [];
    }

    /** The tail of a successful `mwFree`. */
    method Record(p: int, file: Name, line: int)
      requires Valid()
      modifies this, lastFree, files, lines
      ensures Valid() && hist == old(hist) + [Release(p, file, line)]
    {
      files[cur] := file;
      lines[cur] := line;
      lastFree[cur] := p;
      cur := cur + 1;
      if cur == FREE_LIST {
        cur := 0;
      }
      hist := hist + [Release(p, file, line)];
    }

    /** The search behind `check_dbl_free`: the first slot that holds `p`, or FREE_LIST. */
    method Search(p: int) returns (i: nat)
      requires Valid() && p != 0
      ensures i <= FREE_LIST
      ensures i < FREE_LIST <==> Remembers(hist, p)
      ensures i < FREE_LIST ==> Release(p, files[i], lines[i]) in Window(hist)
    {
      i := 0;
      while i < FREE_LIST
        invariant i <= FREE_LIST
        invariant forall k :: 0 <= k < i ==> lastFree[k] != p
      {
        if lastFree[i] == p {
          SlotIsRemembered(i);
          return;
        }
        i := i + 1;
      }
      forall r | r in Window(hist)
        ensures r.addr != p
      {
        var k :| 0 <= k < |Window(hist)| && Window(hist)[k] == r;
        var j := |hist| - |Window(hist)| + k;
        assert hist[j] == r;
      }
    }

    lemma SlotIsRemembered(i: nat)
      requires Valid() && i < FREE_LIST && lastFree[i] != 0
      ensures Release(lastFree[i], files[i], lines[i]) in Window(hist)
    {
      var n := |hist|;
      var lap := n - n % FREE_LIST;
      var j := if n <= FREE_LIST then i else if i >= n % FREE_LIST then lap - FREE_LIST + i else lap + i;
      assert j % FREE_LIST == i;
      assert hist[j] == Window(hist)[j - (n - |Window(hist)|)];
    }
  }
}
