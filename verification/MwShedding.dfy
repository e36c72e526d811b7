/** What `mwFreeUp` gives up and when it succeeds, and which wild writes it reports. */
module MwShedding {
  import opened MwAccounting
  import opened MwBlock
  import opened MwGrab
  import opened MwGuard
  import opened MwLedger
  import opened MwStats
  import opened Basics

  // ----- attempts

  /** The allocation tried after `i` others succeeds. */
  predicate At(tries: seq<bool>, i: nat) {
    i < |tries| && tries[i]
  }

  /** One of the first `n` attempts succeeds. */
  predicate Yields(tries: seq<bool>, n: nat) {
    exists i: nat :: i < n && At(tries, i)
  }

  /** How many of `n` things are given up, one before each attempt: up to the first that succeeds. */
  function Needed(tries: seq<bool>, n: nat): (k: nat)
    ensures k <= n && (n > 0 ==> k > 0)
    ensures forall i: nat :: i + 1 < k ==> !At(tries, i)
    ensures k < n ==> At(tries, k - 1)
    decreases n
  {
    if n == 0 then 0
    else if At(tries, 0) then 1
    else
      RestIs(tries);
      1 + Needed(Rest(tries), n - 1)
  }

  lemma RestIs(tries: seq<bool>)
    ensures forall i: nat {:trigger At(tries, i)} :: i > 0 ==> (At(tries, i) <==> At(Rest(tries), i - 1))
    ensures forall i: nat :: At(Rest(tries), i) <==> At(tries, i + 1)
    ensures Next(tries) <==> At(tries, 0)
  {
  }

  /** The outcomes left after `k` attempts. */
  function Behind(tries: seq<bool>, k: nat): seq<bool> {
    if k <= |tries| then tries[k..] else []
  }

  lemma BehindOne(tries: seq<bool>, k: nat)
    ensures Behind(tries, 0) == tries && Behind(tries, 1) == Rest(tries)
    ensures Behind(Rest(tries), k) == Behind(tries, k + 1)
  {
  }

  lemma YieldsOne(tries: seq<bool>, n: nat)
    requires n > 0
    ensures Yields(tries, n) <==> At(tries, 0) || Yields(Rest(tries), n - 1)
  {
    hide At;
    RestIs(tries);
    if Yields(tries, n) {
      var i: nat :| i < n && At(tries, i);
      assert i > 0 ==> At(Rest(tries), i - 1);
    }
    if Yields(Rest(tries), n - 1) {
      var i: nat :| i < n - 1 && At(Rest(tries), i);
      assert At(tries, i + 1);
    }
  }

  /** First the `n` things of one kind, then the `m` of the other. */
  lemma {:induction false} NeededBoth(tries: seq<bool>, n: nat, m: nat)
    ensures Yields(tries, n) ==> Needed(tries, n + m) == Needed(tries, n) && Yields(tries, n + m)
    ensures !Yields(tries, n) ==>
      && Needed(tries, n) == n && Needed(tries, n + m) == n + Needed(Behind(tries, n), m)
      && (Yields(tries, n + m) <==> Yields(Behind(tries, n), m))
    decreases n
  {
    hide At, Yields;
    if n == 0 {
      BehindOne(tries, 0);
      YieldsNothing(tries);
    } else {
      YieldsOne(tries, n);
      YieldsOne(tries, n + m);
      BehindOne(tries, n - 1);
      NeededBoth(Rest(tries), n - 1, m);
    }
  }

  lemma YieldsNothing(tries: seq<bool>)
    ensures !Yields(tries, 0)
  {
  }

  // ----- grabbed kilobytes

  lemma {:induction false} DropOneMore(s: seq<int>, k: nat, t: int)
    ensures Drop(Drop(s, 1, t), k, t) == Drop(s, k + 1, t)
  {
    if s != [] && s[0] != t {
      DropOneMore(s[1..], k, t);
      assert ([s[0]] + Drop(s[1..], 1, t))[1..] == Drop(s[1..], 1, t);
    }
  }

  lemma {:induction false} GrabsGo(grabs: seq<int>, tries: seq<bool>)
    ensures var r, n := ReleaseGrabs(grabs, tries), CountKind(grabs, VAL_NML);
      && r.left == Drop(grabs, Needed(tries, n), VAL_NML) && r.tries == Behind(tries, Needed(tries, n))
      && (r.ok <==> Yields(tries, n))
    decreases |grabs|
  {
    hide At, Yields, Drop, CountKind;
    var n, less := CountKind(grabs, VAL_NML), Drop(grabs, 1, VAL_NML);
    DropCounts(grabs, 1, VAL_NML, VAL_NML);
    RestIs(tries);
    if n == 0 {
      YieldsNothing(tries);
      DropZero(grabs, VAL_NML);
      BehindOne(tries, 0);
    } else {
      YieldsOne(tries, n);
      if At(tries, 0) {
        BehindOne(tries, 0);
      } else {
        GrabsGo(less, Rest(tries));
        var k := Needed(Rest(tries), n - 1);
        DropOneMore(grabs, k, VAL_NML);
        BehindOne(tries, k);
      }
    }
  }

  lemma DropZero(s: seq<int>, t: int)
    ensures Drop(s, 0, t) == s
  {
  }

  // ----- blocks in no-mans-land

  /** `c` without its first `k` blocks of no-mans-land. */
  function Shorn(c: seq<Rec>, k: nat): seq<Rec> {
    if c == [] || k == 0 then c
    else if c[0].nml then Shorn(c[1..], k - 1)
    else [c[0]] + Shorn(c[1..], k)
  }

  /** A byte `mwTestMem` looks at is not as the release left it. */
  predicate Written(r: Rec) {
    && |r.zone| == r.size + 2 * ZONE
    && exists i :: ZONE <= i < ZONE + r.size % 0x1_0000_0000 && r.zone[i] != VAL_NML
  }

  /** The blocks of no-mans-land that were written to. */
  function Wild(c: seq<Rec>): nat {
    if c == [] then 0 else (if c[0].nml && Written(c[0]) then 1 else 0) + Wild(c[1..])
  }

  lemma TouchedIs(r: Rec)
    ensures Touched(r) <==> Written(r)
  {
    if |r.zone| == r.size + 2 * ZONE {
      var p := Payload(r.zone, r.size)[..Looked(r.size)];
      assert forall i :: ZONE <= i < ZONE + |p| ==> r.zone[i] == p[i - ZONE];
      assert forall i :: 0 <= i < |p| ==> p[i] == r.zone[ZONE + i];
    }
  }

  /** The newest blocks go first, until an attempt succeeds, and each one written to is reported. */
  lemma {:induction false} BlocksGive(c: seq<Rec>, tries: seq<bool>)
    ensures var r, m := ReleaseBlocks(c, tries), Count(c, true);
      && r.left == Shorn(c, Needed(tries, m)) && (r.ok <==> Yields(tries, m))
      && r.errors + Wild(r.left) == Wild(c)
    decreases |c|
  {
    hide At, Yields, Written, Touched;
    var m := Count(c, true);
    if c == [] {
      YieldsNothing(tries);
    } else {
      RestIs(tries);
      if c[0].nml {
        TouchedIs(c[0]);
        YieldsOne(tries, m);
        BlocksGive(c[1..], Rest(tries));
        ShornNothing(c[1..]);
      } else {
        BlocksGive(c[1..], tries);
        ShornNothing(c);
        var d := ReleaseBlocks(c[1..], tries).left;
        assert ([c[0]] + d)[1..] == d;
      }
    }
  }

  lemma ShornNothing(c: seq<Rec>)
    ensures Shorn(c, 0) == c
  {
  }

  // ----- both

  /** How many things `mwFreeUp` can give up. */
  function Spare(s: State): nat {
    CountKind(s.grabs, VAL_NML) + Count(s.chain, true)
  }

  /** `mwFreeUp` succeeds exactly when one of the attempts it has things to give up for does. It gives up
      as many as it takes, kilobytes first, and reports the wild writes to the blocks among them. */
  lemma FreeUpIs(s: State, tries: seq<bool>)
    ensures var (t, ok) := FreeUp(s, tries);
      var k, n := Needed(tries, Spare(s)), CountKind(s.grabs, VAL_NML);
      && (ok <==> Yields(tries, Spare(s)))
      && t.grabs == Drop(s.grabs, Min(k, n), VAL_NML) && t.chain == Shorn(s.chain, Max(k - n, 0))
      && t.errors + Wild(t.chain) == s.errors + Wild(s.chain)
      && t == s.(grabs := t.grabs, chain := t.chain, errors := t.errors)
  {
    hide At, Yields, Wild, Shorn, Drop, Needed, ReleaseGrabs, ReleaseBlocks;
    var n := CountKind(s.grabs, VAL_NML);
    GrabsGo(s.grabs, tries);
    BlocksGive(s.chain, Behind(tries, Needed(tries, n)));
    NeededBoth(tries, n, Count(s.chain, true));
    ShornNothing(s.chain);
  }
}
