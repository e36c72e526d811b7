/** memwatch's globals and the calls that change them, proved against the ledger. */
module MwTracker {
  import opened MwBlock
  import opened MwGuard
  import opened MwChain
  import opened MwGrab
  import MwMarks
  import opened MwRing
  import opened MwStats
  import opened MwLedger
  import opened MwAccounting
  import opened MwOutcomes
  import opened Basics

  /** The header `b` and the memory behind it are as the ledger's `r` has them. */
  ghost predicate Shows(b: Block, r: Rec)
    reads b`file, b`line, b`size, b`count, b`nml, b`check, b.zone
  {
    && b.addr == r.addr && b.file == r.file && b.line == r.line
    && b.size == r.size && b.count == r.count && b.nml == r.nml
    && b.check == b.ChkVal() && b.zone[..] == r.zone
  }

  ghost predicate ShownAt(s: seq<Block>, z: seq<array<byte>>, c: seq<Rec>, at: map<int, Block>, i: int)
    requires 0 <= i < |s| == |z| == |c|
    reads s`file, s`line, s`size, s`count, s`nml, s`check, z
  {
    s[i].zone == z[i] && Shows(s[i], c[i]) && s[i].addr in at && at[s[i].addr] == s[i]
  }

  ghost predicate Apart(z: seq<array<byte>>, i: int, j: int)
    requires 0 <= i < |z| && 0 <= j < |z|
  {
    z[i] != z[j]
  }

  /** After a call that handed out `p`, every other address still in use finds the same header. */
  predicate Keeps(before: map<int, Block>, after: map<int, Block>, p: int) {
    forall q :: q in after && q != p ==> q in before && after[q] == before[q]
  }

  lemma KeepsWithin(a: map<int, Block>, b: map<int, Block>, c: map<int, Block>, p: int)
    requires Keeps(a, b, p) && Within(c, b)
    ensures Keeps(a, c, p) && (p in c ==> p in b && c[p] == b[p])
  {
  }

  predicate Within(a: map<int, Block>, b: map<int, Block>) {
    forall p :: p in a ==> p in b && a[p] == b[p]
  }

  /** The blocks `s`, with the memories `z` behind their headers, are what the ledger's `c` says; no
      two share memory; `at` finds them and nothing else. */
  ghost predicate Backed(s: seq<Block>, z: seq<array<byte>>, c: seq<Rec>, at: map<int, Block>)
    reads s`file, s`line, s`size, s`count, s`nml, s`check, z
  {
    && |s| == |z| == |c| && Tidy(c)
    && (forall i {:trigger ShownAt(s, z, c, at, i)} :: 0 <= i < |c| ==> ShownAt(s, z, c, at, i))
    && (forall p :: p in at ==> Owned(c, p))
    && (forall i, j {:trigger Apart(z, i, j)} :: 0 <= i < |c| && 0 <= j < |c| && i != j ==> Apart(z, i, j))
  }

  lemma BackedCut(s: seq<Block>, z: seq<array<byte>>, c: seq<Rec>, at: map<int, Block>, i: nat)
    requires Backed(s, z, c, at) && i < |c|
    ensures Backed(Cut(s, i), Cut(z, i), Cut(c, i), at - {s[i].addr})
  {
    var s', z', c', at' := Cut(s, i), Cut(z, i), Cut(c, i), at - {s[i].addr};
    RemoveTidy(c, i);
    assert ShownAt(s, z, c, at, i);
    forall j | 0 <= j < |c'|
      ensures ShownAt(s', z', c', at', j)
    {
      var k := if j < i then j else j + 1;
      assert ShownAt(s, z, c, at, k) && s'[j] == s[k];
    }
    forall j, k | 0 <= j < |c'| && 0 <= k < |c'| && j != k
      ensures Apart(z', j, k)
    {
      assert Apart(z, if j < i then j else j + 1, if k < i then k else k + 1);
    }
    forall p | p in at'
      ensures Owned(c', p)
    {
      WithoutOwned(c, i, p);
    }
  }

  lemma CutIsApart(s: seq<Block>, z: seq<array<byte>>, c: seq<Rec>, at: map<int, Block>, i: nat)
    requires Backed(s, z, c, at) && i < |c|
    ensures s[i] !in Cut(s, i) && s[i].zone !in Cut(z, i)
  {
    assert ShownAt(s, z, c, at, i);
    forall j | 0 <= j < |s| && j != i
      ensures z[j] != z[i] && s[j] != s[i]
    {
      assert ShownAt(s, z, c, at, j) && Apart(z, i, j);
    }
  }

  lemma WithoutOwned(c: seq<Rec>, i: nat, p: int)
    requires i < |c| && Owned(c, p) && p != c[i].addr
    ensures Owned(c[..i] + c[i + 1..], p)
  {
    var d := c[..i] + c[i + 1..];
    var k := Find(c, p);
    assert d[if k < i then k else k - 1] == c[k];
    NotOwned(d, p);
  }

  lemma BackedPlus(s: seq<Block>, z: seq<array<byte>>, c: seq<Rec>, at: map<int, Block>, b: Block, r: Rec)
    requires Backed(s, z, c, at) && Shows(b, r) && b.zone !in z
    requires !Owned(c, r.addr) && WellSized(r) && r.addr != 0
    ensures Backed([b] + s, [b.zone] + z, [r] + c, at[b.addr := b])
  {
    var s', z', c', at' := [b] + s, [b.zone] + z, [r] + c, at[b.addr := b];
    NotOwned(c, r.addr);
    forall j | 0 <= j < |c'|
      ensures ShownAt(s', z', c', at', j)
    {
      if j > 0 {
        assert ShownAt(s, z, c, at, j - 1) && s'[j] == s[j - 1];
      }
    }
    forall j, k | 0 <= j < |c'| && 0 <= k < |c'| && j != k
      ensures Apart(z', j, k)
    {
      assert j > 0 && k > 0 ==> Apart(z, j - 1, k - 1);
    }
    forall p | p in at'
      ensures Owned(c', p)
    {
      assert c'[1..] == c;
    }
  }

  /** One block was changed in place, and shows what `r` says. */
  lemma BackedUpdate(s: seq<Block>, z: seq<array<byte>>, c: seq<Rec>, at: map<int, Block>, i: nat, r: Rec)
    requires |s| == |z| == |c| && Tidy(c) && i < |c|
    requires r.addr == c[i].addr && WellSized(r) && Shows(s[i], r)
    requires s[i].zone == z[i] && s[i].addr in at && at[s[i].addr] == s[i]
    requires forall j {:trigger ShownAt(s, z, c, at, j)} :: 0 <= j < |c| && j != i ==> ShownAt(s, z, c, at, j)
    requires forall p :: p in at ==> Owned(c, p)
    requires forall j, k {:trigger Apart(z, j, k)} :: 0 <= j < |c| && 0 <= k < |c| && j != k ==> Apart(z, j, k)
    ensures Backed(s, z, c[i := r], at)
  {
    UpdateTidy(c, i, r);
    var d := c[i := r];
    forall j | 0 <= j < |d|
      ensures ShownAt(s, z, d, at, j)
    {
      assert j == i || ShownAt(s, z, c, at, j);
    }
    forall p | p in at
      ensures Owned(d, p)
    {
      assert d[Find(c, p)].addr == p;
      NotOwned(d, p);
    }
  }

  method NewBlock(addr: int, size: Size, file: Name, line: int, count: int) returns (mw: Block)
    requires size < LONG_LIMIT
    ensures fresh(mw) && fresh(mw.zone) && mw.addr == addr && Shows(mw, Fresh(addr, file, line, size, count))
  {
    hide Xor;
    mw := new Block(addr, size + 2 * ZONE);
    mw.count := count;
    mw.prev := null;
    mw.file := file;
    mw.size := size;
    mw.line := line;
    mw.nml := false;
    mw.check := mw.ChkVal();
    Format(mw.zone, size);
  }

  /** The guards around a new payload, and its fill. */
  method Format(zone: array<byte>, size: nat)
    requires zone.Length == size + 2 * ZONE
    modifies zone
    ensures zone[..] == Zone(Fill(size, VAL_NEW))
  {
    WriteOF(zone, 0);
    MemSet(zone, ZONE, size, VAL_NEW);
    assert zone[..ZONE] == TEMPLATE;
    WriteOF(zone, ZONE + size);
    assert zone[..ZONE + size] == TEMPLATE + Fill(size, VAL_NEW);
  }

  lemma ObtainIsFresh(s: State, size: Size, o: MallocOracle)
    requires Grants(s, size, o)
    ensures var (t, addr) := MwLedger.Obtain(s, o); addr != 0 ==> !Owned(t.chain, addr) && OVERHEAD + size < LONG_LIMIT
  {
    hide MwLedger.FreeUp;
  }

  /** `ReleaseBlocks` where `done` was walked over already and `e` errors were seen. */
  function Resumed(done: seq<Rec>, e: nat, c: seq<Rec>, t: seq<bool>): Released<Rec> {
    var r := ReleaseBlocks(c, t);
    Released(done + r.left, r.tries, e + r.errors, r.ok)
  }

  lemma ResumeAll(c: seq<Rec>, t: seq<bool>)
    ensures ReleaseBlocks(c, t) == Resumed(c[..0], 0, c[0..], t)
  {
    assert c[0..] == c;
  }

  lemma ResumeAt(c: seq<Rec>, i: nat, e: nat, t: seq<bool>)
    requires i <= |c|
    ensures i == |c| ==> Resumed(c[..i], e, c[i..], t) == Released(c, t, e, false)
    ensures i < |c| && !c[i].nml ==> Resumed(c[..i], e, c[i..], t) == Resumed(c[..i + 1], e, c[i + 1..], t)
    ensures i < |c| && c[i].nml ==>
      var d, e' := Cut(c, i), if Touched(c[i]) then e + 1 else e;
      Resumed(c[..i], e, c[i..], t) ==
        if Next(t) then Released(d, Rest(t), e', true) else Resumed(d[..i], e', d[i..], Rest(t))
  {
    if i < |c| {
      assert c[i..][1..] == c[i + 1..] && c[..i + 1] == c[..i] + [c[i]];
      assert Cut(c, i)[..i] == c[..i] && Cut(c, i)[i..] == c[i + 1..];
    } else {
      assert c[..i] == c;
    }
  }

  lemma PatchIs(c: seq<Rec>, p: int, at: int, data: seq<byte>)
    requires Owned(c, p)
    ensures var i := Find(c, p);
      MwLedger.Patch(c, p, at, data) == c[i := c[i].(zone := Patched(c[i].zone, at, data))]
  {
  }

  lemma NoPatch(c: seq<Rec>, p: int, at: int, data: seq<byte>)
    requires Owned(c, p) ==> !(0 <= ZONE + at && ZONE + at + |data| <= |c[Find(c, p)].zone|)
    ensures MwLedger.Patch(c, p, at, data) == c
  {
  }

  /** As `Shows`, whatever the checksum. */
  ghost predicate ShowsButCheck(b: Block, r: Rec)
    reads b`file, b`line, b`size, b`count, b`nml, b.zone
  {
    && b.addr == r.addr && b.file == r.file && b.line == r.line
    && b.size == r.size && b.count == r.count && b.nml == r.nml
    && b.zone[..] == r.zone
  }

  lemma {:induction false} LastOfTotal(c: seq<Rec>)
    requires c != []
    ensures TotalOf(c) == TotalOf(c[..|c| - 1]) + c[|c| - 1].size
  {
    if |c| > 1 {
      LastOfTotal(c[1..]);
      assert c[1..][..|c| - 2] == c[..|c| - 1][1..];
    } else {
      assert c[..0] == [] && c[1..] == [];
    }
  }

  lemma {:induction false} TotalIs(s: seq<Block>, c: seq<Rec>)
    requires |s| == |c| && forall i :: 0 <= i < |s| ==> s[i].size == c[i].size < LONG_LIMIT
    ensures TotalSize(s) == TotalOf(c)
  {
    if s != [] {
      var n := |s| - 1;
      assert forall i :: 0 <= i < n ==> s[..n][i] == s[i] && c[..n][i] == c[i];
      TotalIs(s[..n], c[..n]);
      LastOfTotal(c);
    }
  }

  class Tracker {
    const chain: Chain
    const stats: StatTable
    const grabs: GrabList
    const ring: FreeRing
    var at: map<int, Block> // what `mwBUFFER_TO_MW` finds; memory given back is not in it
    var numCur: int
    var statCur: int
    var statTot: int
    var statMax: int
    var statNum: int
    var nmlNum: int
    var nmlCur: int
    var statLevel: nat
    var useLimit: bool
    var limit: int
    var nmlLevel: int
    var counter: int
    var errors: int
    var inited: nat
    ghost var recs: seq<Rec>
    ghost var zones: seq<array<byte>>

    ghost predicate Valid()
      reads this`at, this`recs, this`zones, chain, chain.blocks, zones
      reads stats, stats.nodes, grabs, grabs.nodes, ring, ring.lastFree, ring.files, ring.lines
    {
      && BlocksValid()
      && stats.Valid() && grabs.Valid() && ring.Valid()
    }

    ghost function View(): State
      reads this, stats, grabs, ring
    {
      State(recs, numCur, statCur, statTot, statMax, statNum, nmlNum, nmlCur, stats.stats, statLevel,
            grabs.kinds, ring.hist, useLimit, limit, nmlLevel, counter, errors, inited)
    }

    constructor ()
      ensures Valid() && View() == Initial(0)
    {
      chain := new Chain();
      stats := new StatTable();
      grabs := new GrabList();
      ring := new FreeRing();
      at := map[];
      numCur, statCur, statTot, statMax, statNum, nmlNum, nmlCur := 0, 0, 0, 0, 0, 0, 0;
      statLevel, useLimit, limit, nmlLevel, counter, errors, inited := 0, false, 0, 0, 0, 0, 0;
      recs, zones := [], [];
    }

    /** Every object the tracker is made of, but for the memory behind its headers. */
    ghost function Footprint(): set<object>
      reads chain, grabs, stats, ring
    {
      {chain, grabs, stats, ring, ring.lastFree, ring.files, ring.lines}
      + MwChain.Members(chain.blocks) + MwGrab.Members(grabs.nodes) + MwStats.Members(stats.nodes)
    }

    /** The memory behind the header `p` leads to. */
    ghost function MemoryAt(p: int): set<array<byte>>
      reads this`at
    {
      if p in at then {at[p].zone} else {}
    }

    lemma HeadIsFirst()
      requires BlocksValid()
      ensures chain.head == if recs == [] then null else chain.blocks[0]
    {
    }

    /** What is known of the block at position `i`. */
    lemma AtPosition(i: nat)
      requires BlocksValid() && i < |recs|
      ensures Find(recs, recs[i].addr) == i && WellSized(recs[i])
      ensures Shows(chain.blocks[i], recs[i]) && chain.blocks[i].zone == zones[i]
      ensures recs[i].addr in at && at[recs[i].addr] == chain.blocks[i]
      ensures chain.blocks[i].next == if i + 1 < |recs| then chain.blocks[i + 1] else null
    {
      assert Find(recs, recs[i].addr) <= i;
      assert ShownAt(chain.blocks, zones, recs, at, i);
      assert LinkedAt(chain.blocks, i);
    }

    lemma NextOf(i: nat)
      requires BlocksValid() && i < |recs|
      ensures chain.blocks[i].nml == recs[i].nml
      ensures chain.blocks[i].next == if i + 1 < |recs| then chain.blocks[i + 1] else null
    {
      AtPosition(i);
    }

    /** The chain and the memory behind it are in order. */
    ghost predicate BlocksValid()
      reads this`at, this`recs, this`zones, chain, chain.blocks, zones
    {
      chain.Valid() && Backed(chain.blocks, zones, recs, at) && |chain.blocks| == |zones| == |recs|
    }

    /** `mwInit` */
    method Init()
      requires Valid()
      modifies this`inited, this`statTot, this`statCur, this`statMax, this`statNum, this`nmlNum, this`nmlCur, stats
      ensures Valid() && View() == Begun(old(View()))
      ensures MwStats.Members(stats.nodes) <= old(MwStats.Members(stats.nodes))
    {
      hide Valid;
      inited := inited + 1;
      if inited > 1 {
        return;
      }
      Forget();
      StartOver();
    }

    method Forget()
      requires Valid()
      modifies stats
      ensures Valid() && View() == old(View()).(stats := []) && stats.nodes == []
    {
      hide BlocksValid, GrabList.Valid, FreeRing.Valid;
      stats.Clear();
    }

    method StartOver()
      modifies this`statTot, this`statCur, this`statMax, this`statNum, this`nmlNum, this`nmlCur
      ensures View() == old(View()).(statTot := 0, statCur := 0, statMax := 0, statNum := 0, nmlNum := 0, nmlCur := 0)
    {
      statTot, statCur, statMax, statNum := 0, 0, 0, 0;
      nmlCur, nmlNum := 0, 0;
    }

    /** `mwAutoInit` */
    method AutoInit()
      requires Valid()
      modifies this`inited, this`statTot, this`statCur, this`statMax, this`statNum, this`nmlNum, this`nmlCur, stats
      ensures Valid() && View() == Awake(old(View())) && inited > 0
      ensures MwStats.Members(stats.nodes) <= old(MwStats.Members(stats.nodes))
    {
      hide Valid;
      if inited == 0 {
        Init();
      }
    }

    /** `mwUnlink` followed by `free`: the block leaves the chain and its memory is given back. */
    method Discard(mw: Block, ghost i: nat)
      requires chain.Valid() && Backed(chain.blocks, zones, recs, at) && |chain.blocks| == |zones| == |recs|
      requires i < |recs| && mw == chain.blocks[i]
      modifies this`at, this`recs, this`zones, chain, MwChain.Members(chain.blocks)`prev
      modifies MwChain.Members(chain.blocks)`next
      ensures chain.Valid() && Backed(chain.blocks, zones, recs, at) && |chain.blocks| == |zones| == |recs|
      ensures recs == Cut(old(recs), i) && zones == Cut(old(zones), i) && chain.blocks == Cut(old(chain.blocks), i)
      ensures at == old(at) - {mw.addr} && mw !in chain.blocks && mw.zone !in zones
    {
      hide *;
      ghost var s, z, c, a := chain.blocks, zones, recs, at;
      chain.Unlink(mw, i);
      assert Backed(s, z, c, a);
      BackedCut(s, z, c, a, i);
      CutIsApart(s, z, c, a, i);
      at := at - {mw.addr};
      recs, zones := Cut(c, i), Cut(z, i);
    }

    /** A no-mans-land block is checked for wild writes and given up. */
    method GiveUp(mw: Block, ghost i: nat)
      requires BlocksValid() && i < |recs| && mw == chain.blocks[i]
      modifies this`at, this`recs, this`zones, this`errors, chain, MwChain.Members(chain.blocks)`prev
      modifies MwChain.Members(chain.blocks)`next
      ensures BlocksValid() && MwChain.Members(chain.blocks) <= old(MwChain.Members(chain.blocks))
      ensures recs == Cut(old(recs), i) && chain.blocks == Cut(old(chain.blocks), i) && Within(at, old(at))
      ensures errors == old(errors) + if Touched(old(recs)[i]) then 1 else 0
    {
      hide Backed, Linked, Find, Xor;
      AtPosition(i);
      var hit := TestMem(mw.zone, ZONE, mw.size, VAL_NML);
      if hit {
        errors := errors + 1;
      }
      Discard(mw, i);
    }

    /** "free normal NML memory" */
    method ReleaseRetired(tries: seq<bool>) returns (ok: bool)
      requires BlocksValid()
      modifies this`at, this`recs, this`zones, this`errors, chain, MwChain.Members(chain.blocks)`prev
      modifies MwChain.Members(chain.blocks)`next
      ensures BlocksValid() && MwChain.Members(chain.blocks) <= old(MwChain.Members(chain.blocks))
      ensures var r := ReleaseBlocks(old(recs), tries); recs == r.left && errors == old(errors) + r.errors && ok == r.ok
      ensures Within(at, old(at))
    {
      hide Backed, Linked, Resumed, ReleaseBlocks, Touched, Find;
      ResumeAll(recs, tries);
      HeadIsFirst();
      var mw := chain.head;
      var t := tries;
      ghost var i := 0;
      while mw != null
        invariant BlocksValid() && 0 <= i <= |recs| && mw == if i == |recs| then null else chain.blocks[i]
        invariant MwChain.Members(chain.blocks) <= old(MwChain.Members(chain.blocks))
        invariant errors >= old(errors) && Within(at, old(at))
        invariant ReleaseBlocks(old(recs), tries) == Resumed(recs[..i], errors - old(errors), recs[i..], t)
        decreases |recs| - i
      {
        NextOf(i);
        ResumeAt(recs, i, errors - old(errors), t);
        if !mw.nml {
          mw := mw.next;
          i := i + 1;
        } else {
          var mw2 := mw.next;
          GiveUp(mw, i);
          mw := mw2;
          var got := Next(t);
          t := Rest(t);
          if got {
            return true;
          }
        }
      }
      ResumeAt(recs, i, errors - old(errors), t);
      return false;
    }

    /** "free grabbed NML memory" */
    method ReleaseGrabbed(tries: seq<bool>) returns (ok: bool, rest: seq<bool>)
      requires grabs.Valid()
      modifies grabs, MwGrab.Members(grabs.nodes)`next
      ensures grabs.Valid() && MwGrab.Members(grabs.nodes) <= old(MwGrab.Members(grabs.nodes))
      ensures var r := ReleaseGrabs(old(grabs.kinds), tries); grabs.kinds == r.left && ok == r.ok && rest == r.tries
    {
      rest := tries;
      while true
        invariant grabs.Valid() && MwGrab.Members(grabs.nodes) <= old(MwGrab.Members(grabs.nodes))
        invariant ReleaseGrabs(old(grabs.kinds), tries) == ReleaseGrabs(grabs.kinds, rest)
        decreases |grabs.nodes|
      {
        ghost var before := grabs.kinds;
        var n := grabs.DropKind(1, VAL_NML);
        if n == 0 {
          DropNothing(before, 1, VAL_NML);
          return false, rest;
        }
        var got := Next(rest);
        rest := Rest(rest);
        if got {
          return true, rest;
        }
      }
    }

    /** `mwFreeUp(needed, 0)` */
    method FreeUp(tries: seq<bool>) returns (ok: bool)
      requires Valid()
      modifies this`at, this`recs, this`zones, this`errors, chain, MwChain.Members(chain.blocks)`prev
      modifies MwChain.Members(chain.blocks)`next
      modifies grabs, MwGrab.Members(grabs.nodes)`next
      ensures Valid() && MwChain.Members(chain.blocks) <= old(MwChain.Members(chain.blocks))
      ensures MwGrab.Members(grabs.nodes) <= old(MwGrab.Members(grabs.nodes))
      ensures (View(), ok) == MwLedger.FreeUp(old(View()), tries) && Within(at, old(at))
    {
      hide ReleaseGrabs, ReleaseBlocks, Valid;
      var rest;
      ok, rest := LetGrabsGo(tries);
      if !ok {
        ok := LetBlocksGo(rest);
      }
    }

    method LetGrabsGo(tries: seq<bool>) returns (ok: bool, rest: seq<bool>)
      requires Valid()
      modifies grabs, MwGrab.Members(grabs.nodes)`next
      ensures Valid() && MwGrab.Members(grabs.nodes) <= old(MwGrab.Members(grabs.nodes))
      ensures var r := ReleaseGrabs(old(View()).grabs, tries);
        View() == old(View()).(grabs := r.left) && ok == r.ok && rest == r.tries
    {
      hide BlocksValid, StatTable.Valid, FreeRing.Valid, GrabList.Valid, ReleaseGrabs;
      ok, rest := ReleaseGrabbed(tries);
    }

    method LetBlocksGo(tries: seq<bool>) returns (ok: bool)
      requires Valid()
      modifies this`at, this`recs, this`zones, this`errors
      modifies chain, MwChain.Members(chain.blocks)`prev, MwChain.Members(chain.blocks)`next
      ensures Valid() && MwChain.Members(chain.blocks) <= old(MwChain.Members(chain.blocks)) && Within(at, old(at))
      ensures var r := ReleaseBlocks(old(View()).chain, tries);
        View() == old(View()).(chain := r.left, errors := old(View()).errors + r.errors) && ok == r.ok
    {
      hide BlocksValid, StatTable.Valid, FreeRing.Valid, GrabList.Valid, ReleaseBlocks, Within;
      ok := ReleaseRetired(tries);
    }

    /** The search of `mwStatGet`, with its allocation, and the update that follows it. */
    method BookOne(e: Entry, size: int, file: Name, line: int, o: RecordOracle)
      requires Valid()
      modifies this`at, this`recs, this`zones, this`errors, chain, MwChain.Members(chain.blocks)`prev
      modifies MwChain.Members(chain.blocks)`next
      modifies grabs, MwGrab.Members(grabs.nodes)`next, stats, MwStats.Members(stats.nodes)
      ensures Valid() && MwChain.Members(chain.blocks) <= old(MwChain.Members(chain.blocks))
      ensures MwGrab.Members(grabs.nodes) <= old(MwGrab.Members(grabs.nodes))
      ensures fresh(MwStats.Members(stats.nodes) - old(MwStats.Members(stats.nodes)))
      ensures View() == MwLedger.BookOne(old(View()), e, size, file, line, o) && Within(at, old(at))
    {
      hide BlocksValid, StatTable.Valid, FreeRing.Valid, GrabList.Valid, Book, MwLedger.FreeUp;
      var ms := stats.Search(file, line);
      var ok := true;
      if ms == null && !o.first {
        ok := FreeUp(o.tries);
        ok := ok && o.second;
      }
      Update(e, size, file, line, ok);
    }

    /** The statistics are apart from everything else. */
    method Update(e: Entry, size: int, file: Name, line: int, ok: bool)
      requires Valid()
      modifies stats, MwStats.Members(stats.nodes)
      ensures Valid() && fresh(MwStats.Members(stats.nodes) - old(MwStats.Members(stats.nodes)))
      ensures View() == old(View()).(stats := Book(old(stats.stats), e, size, file, line, ok))
    {
      hide BlocksValid, StatTable.Valid, FreeRing.Valid, GrabList.Valid, Book;
      stats.Update(e, size, file, line, ok);
    }

    /** `mwStatAlloc` and `mwStatFree`, if statistics are on. */
    method BookAll(e: Entry, size: int, file: Name, line: int, o: BookOracle)
      requires Valid()
      modifies this`at, this`recs, this`zones, this`errors, chain, MwChain.Members(chain.blocks)`prev
      modifies MwChain.Members(chain.blocks)`next
      modifies grabs, MwGrab.Members(grabs.nodes)`next, stats, MwStats.Members(stats.nodes)
      ensures Valid() && MwChain.Members(chain.blocks) <= old(MwChain.Members(chain.blocks))
      ensures MwGrab.Members(grabs.nodes) <= old(MwGrab.Members(grabs.nodes))
      ensures fresh(MwStats.Members(stats.nodes) - old(MwStats.Members(stats.nodes)))
      ensures View() == MwLedger.BookAll(old(View()), e, size, file, line, o) && Within(at, old(at))
    {
      hide Valid, MwLedger.BookOne;
      if statLevel != 0 {
        BookOne(e, size, file, MODULE_LINE, o.perFile);
        if statLevel > 1 && line != MODULE_LINE && file.Some? {
          BookOne(e, size, file, line, o.perLine);
        }
      }
    }

    /** The header, the links, the guards and the fill of a new block. */
    method Link(addr: int, size: Size, file: Name, line: int)
      requires Valid() && addr != 0 && !Owned(recs, addr) && OVERHEAD + size < LONG_LIMIT
      modifies this`at, this`recs, this`zones, chain, MwChain.Members(chain.blocks)`prev
      ensures Valid() && fresh(MwChain.Members(chain.blocks) - old(MwChain.Members(chain.blocks)))
      ensures View() == old(View()).(chain := [Fresh(addr, file, line, size, counter)] + old(recs))
      ensures Keeps(old(at), at, addr) && addr in at && fresh(at[addr].zone)
    {
      hide BlocksValid, StatTable.Valid, FreeRing.Valid, GrabList.Valid;
      LinkBlock(addr, size, file, line);
    }

    method LinkBlock(addr: int, size: Size, file: Name, line: int)
      requires BlocksValid() && addr != 0 && !Owned(recs, addr) && OVERHEAD + size < LONG_LIMIT
      modifies this`at, this`recs, this`zones, chain, MwChain.Members(chain.blocks)`prev
      ensures BlocksValid() && fresh(MwChain.Members(chain.blocks) - old(MwChain.Members(chain.blocks)))
      ensures recs == [Fresh(addr, file, line, size, counter)] + old(recs)
      ensures Keeps(old(at), at, addr) && addr in at && fresh(at[addr].zone)
    {
      hide Backed, Linked, Shows;
      var mw := NewBlock(addr, size, file, line, counter);
      Insert(mw, Fresh(addr, file, line, size, counter));
      assert MwChain.Members(chain.blocks) <= {mw} + old(MwChain.Members(chain.blocks));
    }

    method Insert(mw: Block, ghost r: Rec)
      requires chain.Valid() && Backed(chain.blocks, zones, recs, at) && |chain.blocks| == |zones| == |recs|
      requires Shows(mw, r) && mw !in chain.blocks && mw.zone !in zones
      requires !Owned(recs, r.addr) && WellSized(r) && r.addr != 0
      modifies this`at, this`recs, this`zones, chain, MwChain.Members(chain.blocks)`prev, mw`prev, mw`next
      ensures chain.Valid() && Backed(chain.blocks, zones, recs, at) && |chain.blocks| == |zones| == |recs|
      ensures recs == [r] + old(recs) && chain.blocks == [mw] + old(chain.blocks) && zones == [mw.zone] + old(zones)
      ensures at == old(at)[mw.addr := mw]
    {
      hide *;
      ghost var s, z, c, a := chain.blocks, zones, recs, at;
      chain.PushFront(mw);
      assert Backed(s, z, c, a);
      BackedPlus(s, z, c, a, mw, r);
      at := at[mw.addr := mw];
      recs, zones := [r] + c, [mw.zone] + z;
    }

    /** The call of `malloc`, and the second one after `mwFreeUp`. */
    method Obtain(o: MallocOracle) returns (addr: int)
      requires Valid()
      modifies this`at, this`recs, this`zones, this`errors, chain, MwChain.Members(chain.blocks)`prev
      modifies MwChain.Members(chain.blocks)`next
      modifies grabs, MwGrab.Members(grabs.nodes)`next
      ensures Valid() && MwChain.Members(chain.blocks) <= old(MwChain.Members(chain.blocks))
      ensures MwGrab.Members(grabs.nodes) <= old(MwGrab.Members(grabs.nodes))
      ensures (View(), addr) == MwLedger.Obtain(old(View()), o) && Within(at, old(at))
    {
      hide BlocksValid, StatTable.Valid, FreeRing.Valid, GrabList.Valid, MwLedger.FreeUp;
      addr := o.first;
      if addr == 0 {
        var freed := FreeUp(o.tries);
        if freed {
          addr := o.second;
          if addr == 0 {
            errors := errors + 1;
          }
        }
        if addr == 0 {
          errors := errors + 1;
        }
      }
    }

    /** The books of a new block. */
    method Enter(addr: int, size: Size, file: Name, line: int, o: BookOracle)
      requires Valid() && addr != 0 && !Owned(recs, addr) && OVERHEAD + size < LONG_LIMIT
      modifies this, chain, MwChain.Members(chain.blocks)`prev, MwChain.Members(chain.blocks)`next
      modifies grabs, MwGrab.Members(grabs.nodes)`next, stats, MwStats.Members(stats.nodes)
      ensures Valid() && fresh(MwChain.Members(chain.blocks) - old(MwChain.Members(chain.blocks)))
      ensures MwGrab.Members(grabs.nodes) <= old(MwGrab.Members(grabs.nodes))
      ensures forall x :: x in MwStats.Members(stats.nodes) - old(MwStats.Members(stats.nodes)) ==> fresh(x)
      ensures View() == MwLedger.Enter(old(View()), addr, size, file, line, o)
      ensures Keeps(old(at), at, addr) && (addr in at ==> fresh(at[addr].zone))
    {
      hide Valid, MwLedger.BookAll, Tallied, ToLong, Keeps, Within;
      Link(addr, size, file, line);
      ghost var linked := at;
      label L:
      Admit(size, file, line, o);
      forall x | x in MwStats.Members(stats.nodes) - old(MwStats.Members(stats.nodes))
        ensures fresh(x)
      {
        assert fresh@L(x);
      }
      KeepsWithin(old(at), linked, at, addr);
    }

    method Admit(size: Size, file: Name, line: int, o: BookOracle)
      requires Valid()
      modifies this, chain, MwChain.Members(chain.blocks)`prev, MwChain.Members(chain.blocks)`next
      modifies grabs, MwGrab.Members(grabs.nodes)`next, stats, MwStats.Members(stats.nodes)
      ensures Valid() && MwChain.Members(chain.blocks) <= old(MwChain.Members(chain.blocks))
      ensures MwGrab.Members(grabs.nodes) <= old(MwGrab.Members(grabs.nodes))
      ensures forall x :: x in MwStats.Members(stats.nodes) - old(MwStats.Members(stats.nodes)) ==> fresh(x)
      ensures View() == MwLedger.BookAll(Tallied(old(View()), ToLong(size)), Gain, ToLong(size), file, line, o)
      ensures Within(at, old(at))
    {
      hide Valid, MwLedger.BookAll, Tallied, ToLong, Within;
      Tally(ToLong(size));
      label L:
      BookAll(Gain, ToLong(size), file, line, o);
      forall x | x in MwStats.Members(stats.nodes) - old(MwStats.Members(stats.nodes))
        ensures fresh(x)
      {
        assert fresh@L(x);
      }
    }

    method Tally(size: int)
      modifies this`numCur, this`statCur, this`statTot, this`statMax, this`statNum
      ensures View() == Tallied(old(View()), size)
    {
      numCur := numCur + 1;
      statCur := statCur + size;
      statTot := statTot + size;
      if statCur > statMax {
        statMax := statCur;
      }
      statNum := statNum + 1;
    }

    method Allocate(size: Size, file: Name, line: int, o: MallocOracle) returns (p: int)
      requires Valid() && Grants(View(), size, o)
      modifies this, chain, MwChain.Members(chain.blocks)`prev, MwChain.Members(chain.blocks)`next
      modifies grabs, MwGrab.Members(grabs.nodes)`next, stats, MwStats.Members(stats.nodes)
      ensures Valid() && fresh(MwChain.Members(chain.blocks) - old(MwChain.Members(chain.blocks)))
      ensures MwGrab.Members(grabs.nodes) <= old(MwGrab.Members(grabs.nodes))
      ensures forall x :: x in MwStats.Members(stats.nodes) - old(MwStats.Members(stats.nodes)) ==> fresh(x)
      ensures (View(), p) == MwLedger.Allocate(old(View()), size, file, line, o)
      ensures Keeps(old(at), at, p) && (p != 0 && p in at ==> fresh(at[p].zone))
    {
      hide Valid, MwLedger.Obtain, MwLedger.Enter, Grants, Owned;
      ObtainIsFresh(View(), size, o);
      p := Obtain(o);
      if p != 0 {
        Enter(p, size, file, line, o.book);
      }
    }

    /** The size and limit checks of `mwMalloc`. */
    method Checked(size: Size, file: Name, line: int, o: MallocOracle) returns (p: int)
      requires Valid() && Grants(View(), size, o)
      modifies this, chain, MwChain.Members(chain.blocks)`prev, MwChain.Members(chain.blocks)`next
      modifies grabs, MwGrab.Members(grabs.nodes)`next, stats, MwStats.Members(stats.nodes)
      ensures Valid() && fresh(MwChain.Members(chain.blocks) - old(MwChain.Members(chain.blocks)))
      ensures MwGrab.Members(grabs.nodes) <= old(MwGrab.Members(grabs.nodes))
      ensures forall x :: x in MwStats.Members(stats.nodes) - old(MwStats.Members(stats.nodes)) ==> fresh(x)
      ensures (View(), p) == MwLedger.Checked(old(View()), size, file, line, o)
      ensures Keeps(old(at), at, p) && (p != 0 && p in at ==> fresh(at[p].zone))
    {
      hide Valid, MwLedger.Allocate, Grants;
      if (OVERHEAD + size) % SIZE_LIMIT < size {
        p := 0;
      } else if useLimit && ToLong(size) + statCur > limit {
        errors := errors + 1;
        p := 0;
      } else {
        p := Allocate(size, file, line, o);
      }
    }

    lemma SameChain(s: State)
      ensures Awake(s).chain == s.chain && Awake(s).grabs == s.grabs
    {
    }

    /** `mwMalloc` */
    method Malloc(size: Size, file: Name, line: int, o: MallocOracle) returns (p: int)
      requires Valid() && Grants(View(), size, o)
      modifies this, chain, MwChain.Members(chain.blocks)`prev, MwChain.Members(chain.blocks)`next
      modifies grabs, MwGrab.Members(grabs.nodes)`next, stats, MwStats.Members(stats.nodes)
      ensures Valid() && fresh(MwChain.Members(chain.blocks) - old(MwChain.Members(chain.blocks)))
      ensures MwGrab.Members(grabs.nodes) <= old(MwGrab.Members(grabs.nodes))
      ensures forall x :: x in MwStats.Members(stats.nodes) - old(MwStats.Members(stats.nodes)) ==> fresh(x)
      ensures (View(), p) == MwLedger.Malloc(Awake(old(View())), size, file, line, o)
      ensures Keeps(old(at), at, p) && (p != 0 && p in at ==> fresh(at[p].zone))
    {
      hide Valid, MwLedger.Malloc, Grants, Keeps, Awake;
      SameChain(View());
      SameGrants(View(), Awake(View()), size, o);
      AutoInit();
      ghost var between := MwStats.Members(stats.nodes);
      label L:
      p := MallocNow(size, file, line, o);
      forall x | x in MwStats.Members(stats.nodes) - old(MwStats.Members(stats.nodes))
        ensures fresh(x)
      {
        assert x in MwStats.Members(stats.nodes) - between;
        assert fresh@L(x);
      }
    }

    method MallocNow(size: Size, file: Name, line: int, o: MallocOracle) returns (p: int)
      requires Valid() && Grants(View(), size, o)
      modifies this, chain, MwChain.Members(chain.blocks)`prev, MwChain.Members(chain.blocks)`next
      modifies grabs, MwGrab.Members(grabs.nodes)`next, stats, MwStats.Members(stats.nodes)
      ensures Valid() && fresh(MwChain.Members(chain.blocks) - old(MwChain.Members(chain.blocks)))
      ensures MwGrab.Members(grabs.nodes) <= old(MwGrab.Members(grabs.nodes))
      ensures forall x :: x in MwStats.Members(stats.nodes) - old(MwStats.Members(stats.nodes)) ==> fresh(x)
      ensures (View(), p) == MwLedger.Malloc(old(View()), size, file, line, o)
      ensures Keeps(old(at), at, p) && (p != 0 && p in at ==> fresh(at[p].zone))
    {
      hide Valid, MwLedger.Checked, Grants, Keeps;
      SameGrants(View(), View().(counter := counter + 1), size, o);
      counter := counter + 1;
      p := Checked(size, file, line, o);
    }

    lemma FoundAt(p: int)
      requires BlocksValid()
      ensures p in at <==> Owned(recs, p)
      ensures p in at ==> at[p] == chain.blocks[Find(recs, p)] && at[p] in MwChain.Members(chain.blocks)
    {
      if Owned(recs, p) {
        AtPosition(Find(recs, p));
      }
    }

    /** `mwBUFFER_TO_MW` and `mwIsOwned`, while nothing is corrupted. */
    method FindOwned(p: int) returns (mw: Block?)
      requires Valid()
      modifies MwChain.Members(chain.blocks)
      ensures unchanged(MwChain.Members(chain.blocks))
      ensures mw != null <==> Owned(recs, p)
      ensures mw != null ==> p in at && mw == at[p]
    {
      hide Find, Xor, Checksum, Linked, LinkedExcept;
      hide Backed, StatTable.Valid, GrabList.Valid, FreeRing.Valid, TotalSize;
      FoundAt(p);
      if p !in at {
        return null; // `mwIsSafeAddr` fails
      }
      mw := at[p];
      AtPosition(Find(recs, p));
      var record := stats.Search(mw.file, MODULE_LINE);
      chain.Intact(mw);
      chain.VoteOfMember(mw);
      var owned, _ := chain.IsOwned(mw, numCur, statCur, record != null, MwChain.Members(chain.blocks));
      if !owned {
        assert false;
      }
    }

    /** `mwTestBuf`, while nothing but payloads and guards may have been written to. */
    method TestBuf(mw: Block, ghost i: nat) returns (retv: int)
      requires Valid() && i < |recs| && mw == chain.blocks[i]
      modifies this`errors, mw`prev, mw`next, mw`file, mw`check, mw`size
      ensures unchanged(mw) && errors == old(errors) + GuardErrors(recs[i])
      ensures retv == if Underflowed(recs[i].zone) || Overflowed(recs[i].zone, recs[i].size) then 1 else 0
    {
      hide Find, Xor, Checksum, Linked, LinkedExcept;
      hide Backed, TotalSize, StatTable.Valid, GrabList.Valid, FreeRing.Valid;
      AtPosition(i);
      chain.Intact(mw);
      chain.MemberIsAnswered(mw);
      var record := stats.Search(mw.file, MODULE_LINE);
      var errs;
      retv, errs := chain.TestBuf(mw, numCur, statCur, record != null);
      errors := errors + errs;
    }

    lemma AllApart(i: nat)
      requires BlocksValid() && i < |recs|
      ensures forall j {:trigger chain.blocks[j]} :: 0 <= j < |recs| && j != i ==>
        chain.blocks[j] != chain.blocks[i] && zones[j] != zones[i]
    {
      forall j | 0 <= j < |recs| && j != i
        ensures chain.blocks[j] != chain.blocks[i] && zones[j] != zones[i]
      {
        assert Apart(zones, i, j);
        AtPosition(i);
        AtPosition(j);
      }
    }

    /** A released block is kept as no-mans-land. */
    method Retire(mw: Block, ghost i: nat)
      requires BlocksValid() && i < |recs| && mw == chain.blocks[i]
      modifies this`recs, this`nmlNum, this`nmlCur, mw`nml, mw.zone
      ensures BlocksValid() && recs == old(recs)[i := Retired(old(recs)[i])]
      ensures nmlNum == old(nmlNum) + 1 && nmlCur == old(nmlCur) + ToLong(old(recs)[i].size)
    {
      hide Find, Xor, Linked, Tidy, Owned;
      AtPosition(i);
      AllApart(i);
      ghost var r := Retired(recs[i]);
      mw.nml := true;
      nmlNum := nmlNum + 1;
      nmlCur := nmlCur + ToLong(mw.size);
      MemSet(mw.zone, ZONE, mw.size, VAL_NML);
      forall j | 0 <= j < |recs| && j != i
        ensures ShownAt(chain.blocks, zones, recs, at, j)
      {
        assert old(ShownAt(chain.blocks, zones, recs, at, j));
      }
      BackedUpdate(chain.blocks, zones, recs, at, i, r);
      recs := recs[i := r];
    }

    /** The header and memory of a block that goes back to the C library are overwritten first. */
    method Scrub(mw: Block)
      modifies mw`prev, mw`next, mw`file, mw`count, mw`check, mw`size, mw`line, mw.zone
      ensures mw.check != mw.ChkVal() && AllAre(mw.zone[..], VAL_DEL)
    {
      hide Xor;
      ScrubbedFails();
      MemSet(mw.zone, 0, mw.zone.Length, VAL_DEL);
      mw.prev, mw.next, mw.file := null, null, None;
      mw.count, mw.check, mw.size, mw.line := DEL_LONG, DEL_LONG, DEL_SIZE, DEL_INT;
    }

    /** "we should either free the allocation or keep it as NML" */
    method PutAway(mw: Block, ghost i: nat)
      requires BlocksValid() && i < |recs| && mw == chain.blocks[i]
      modifies this`at, this`recs, this`zones, this`nmlNum, this`nmlCur, chain, MwChain.Members(chain.blocks), mw.zone
      ensures BlocksValid() && MwChain.Members(chain.blocks) <= old(MwChain.Members(chain.blocks))
      ensures recs == if nmlLevel == 0 then Cut(old(recs), i) else old(recs)[i := Retired(old(recs)[i])]
      ensures nmlNum == old(nmlNum) + if nmlLevel == 0 then 0 else 1
      ensures nmlCur == old(nmlCur) + if nmlLevel == 0 then 0 else ToLong(old(recs)[i].size)
    {
      hide Backed, Linked, LinkedExcept, Retired;
      if nmlLevel != 0 {
        Retire(mw, i);
      } else {
        Discard(mw, i);
        Scrub(mw);
      }
    }

    /** `check_dbl_free` */
    method Refuse(p: int) returns (out: Outcome)
      requires Valid() && p != 0
      modifies this`errors
      ensures (View(), out) == MwLedger.Refuse(old(View()), p)
    {
      hide BlocksValid, StatTable.Valid, GrabList.Valid, Remembers;
      var i := ring.Search(p);
      errors := errors + 1;
      out := if i < FREE_LIST then DoubleFree else WildFree;
    }

    /** The header of a held block tells what the ledger has. */
    lemma HeaderOf(r: Rec)
      requires Valid() && LiveAt(recs, r)
      ensures Tidy(recs) && r.addr in at && WellSized(r)
      ensures var b := at[r.addr];
        && b == chain.blocks[Find(recs, r.addr)] && b in MwChain.Members(chain.blocks)
        && b.size == r.size && b.file == r.file && b.line == r.line && b.zone in zones
    {
      AtPosition(Find(recs, r.addr));
    }

    lemma StillFound(p: int)
      requires Valid() && Owned(recs, p)
      ensures p in at
    {
      FoundAt(p);
    }

    method Deduct(mw: Block, ghost r: Rec)
      requires Valid() && mw.size == r.size
      modifies this`numCur, this`statCur
      ensures Valid() && View() == Leaving(old(View()), r)
    {
      numCur := numCur - 1;
      statCur := statCur - ToLong(mw.size);
    }

    method PutAwayLive(mw: Block, ghost r: Rec)
      requires Valid() && LiveAt(recs, r) && r.addr in at && mw == at[r.addr]
      modifies this`at, this`recs, this`zones, this`nmlNum, this`nmlCur, chain, MwChain.Members(chain.blocks), mw.zone
      ensures Valid() && MwChain.Members(chain.blocks) <= old(MwChain.Members(chain.blocks))
      ensures View() == Gone(old(View()), r)
    {
      hide BlocksValid, StatTable.Valid, GrabList.Valid, FreeRing.Valid, Find, Retired, Gone;
      HeaderOf(r);
      GoneIs(View(), r);
      PutAway(mw, Find(recs, r.addr));
    }

    lemma GoneIs(s: State, r: Rec)
      requires LiveAt(s.chain, r)
      ensures Gone(s, r) ==
        if s.nmlLevel == 0 then s.(chain := Cut(s.chain, Find(s.chain, r.addr)))
        else s.(chain := s.chain[Find(s.chain, r.addr) := Retired(r)],
                nmlNum := s.nmlNum + 1, nmlCur := s.nmlCur + ToLong(r.size))
    {
    }

    /** A held block is still where it was after the statistics were brought up to date. */
    lemma StillThere(s: State, e: Entry, size: int, file: Name, line: int, o: BookOracle, r: Rec)
      requires Tidy(s.chain) && LiveAt(s.chain, r)
      ensures LiveAt(MwLedger.BookAll(s, e, size, file, line, o).chain, r)
    {
      hide MwLedger.BookAll, Shed;
      BookAllRelaxes(s, e, size, file, line, o);
      ShedFinds(s.chain, MwLedger.BookAll(s, e, size, file, line, o).chain, r.addr);
    }

    /** The counters and statistics let go of a block. */
    method Unbook(mw: Block, ghost r: Rec, o: BookOracle)
      requires Valid() && LiveAt(recs, r) && r.addr in at && mw == at[r.addr]
      modifies this`at, this`recs, this`zones, this`errors, this`numCur, this`statCur
      modifies chain, MwChain.Members(chain.blocks)`prev, MwChain.Members(chain.blocks)`next
      modifies grabs, MwGrab.Members(grabs.nodes)`next, stats, MwStats.Members(stats.nodes)
      ensures Valid() && MwChain.Members(chain.blocks) <= old(MwChain.Members(chain.blocks))
      ensures MwGrab.Members(grabs.nodes) <= old(MwGrab.Members(grabs.nodes))
      ensures forall x :: x in MwStats.Members(stats.nodes) - old(MwStats.Members(stats.nodes)) ==> fresh(x)
      ensures View() == MwLedger.BookAll(Leaving(old(View()), r), Loss, ToLong(r.size), r.file, r.line, o)
      ensures LiveAt(recs, r) && r.addr in at && mw == at[r.addr]
    {
      hide Valid, Tidy, LiveAt, MwLedger.BookAll, Leaving, Find;
      HeaderOf(r);
      StillThereToo(View(), ToLong(r.size), r.file, r.line, o, r);
      Deduct(mw, r);
      label L:
      BookAll(Loss, ToLong(mw.size), mw.file, mw.line, o);
      forall x | x in MwStats.Members(stats.nodes) - old(MwStats.Members(stats.nodes))
        ensures fresh(x)
      {
        assert fresh@L(x);
      }
      StillFound(r.addr);
    }

    /** The release proper. */
    method ReleaseLive(mw: Block, ghost r: Rec, p: int, file: Name, line: int, o: BookOracle)
      requires Valid() && LiveAt(recs, r) && p == r.addr && p in at && mw == at[p]
      modifies this, chain, MwChain.Members(chain.blocks), mw.zone
      modifies grabs, MwGrab.Members(grabs.nodes)`next, stats, MwStats.Members(stats.nodes), ring
      modifies ring.lastFree, ring.files, ring.lines
      ensures Valid() && MwChain.Members(chain.blocks) <= old(MwChain.Members(chain.blocks))
      ensures MwGrab.Members(grabs.nodes) <= old(MwGrab.Members(grabs.nodes))
      ensures forall x :: x in MwStats.Members(stats.nodes) - old(MwStats.Members(stats.nodes)) ==> fresh(x)
      ensures View() == MwLedger.ReleaseLive(old(View()), r, file, line, o)
    {
      hide Valid, LiveAt, MwLedger.BookAll, Leaving, Gone, MwChain.Members, MwGrab.Members, MwStats.Members;
      Unbook(mw, r, o);
      Finish(mw, r, p, file, line);
    }

    method Finish(mw: Block, ghost r: Rec, p: int, file: Name, line: int)
      requires Valid() && LiveAt(recs, r) && r.addr in at && mw == at[r.addr]
      modifies this`at, this`recs, this`zones, this`nmlNum, this`nmlCur, chain, MwChain.Members(chain.blocks), mw.zone
      modifies ring, ring.lastFree, ring.files, ring.lines
      ensures Valid() && MwChain.Members(chain.blocks) <= old(MwChain.Members(chain.blocks))
      ensures View() == Gone(old(View()), r).(hist := old(View()).hist + [Release(p, file, line)])
    {
      hide Valid, LiveAt, Gone;
      PutAwayLive(mw, r);
      Remember(p, file, line);
    }

    method Remember(p: int, file: Name, line: int)
      requires Valid()
      modifies ring, ring.lastFree, ring.files, ring.lines
      ensures Valid() && View() == old(View()).(hist := old(View()).hist + [Release(p, file, line)])
    {
      hide BlocksValid, StatTable.Valid, GrabList.Valid;
      ring.Record(p, file, line);
    }

    lemma StillThereToo(s: State, size: int, file: Name, line: int, o: BookOracle, r: Rec)
      requires Tidy(s.chain) && LiveAt(s.chain, r)
      ensures LiveAt(MwLedger.BookAll(Leaving(s, r), Loss, size, file, line, o).chain, r)
      ensures Owned(MwLedger.BookAll(Leaving(s, r), Loss, size, file, line, o).chain, r.addr)
    {
      hide MwLedger.BookAll;
      StillThere(Leaving(s, r), Loss, size, file, line, o, r);
    }

    /** The part of `mwFree` that deals with a block it knows. */
    method FreeOwned(mw: Block, ghost r: Rec, p: int, file: Name, line: int, o: BookOracle) returns (out: Outcome)
      requires Valid() && Owned(recs, p) && r == recs[Find(recs, p)] && p != 0 && p in at && mw == at[p]
      modifies this, chain, MwChain.Members(chain.blocks), mw.zone
      modifies grabs, MwGrab.Members(grabs.nodes)`next, stats, MwStats.Members(stats.nodes), ring
      modifies ring.lastFree, ring.files, ring.lines
      ensures Valid() && MwChain.Members(chain.blocks) <= old(MwChain.Members(chain.blocks))
      ensures MwGrab.Members(grabs.nodes) <= old(MwGrab.Members(grabs.nodes))
      ensures forall x :: x in MwStats.Members(stats.nodes) - old(MwStats.Members(stats.nodes)) ==> fresh(x)
      ensures (View(), out) == MwLedger.FreeOwned(old(View()), r, file, line, o)
    {
      hide Valid, MwLedger.ReleaseLive, MwLedger.Refuse, GuardErrors, Find, Tidy;
      KnownAt(p);
      var _ := TestBuf(mw, Find(recs, p));
      if mw.nml {
        out := Refuse(p);
      } else {
        ReleaseLive(mw, r, p, file, line, o);
        out := Freed;
      }
    }

    lemma KnownAt(p: int)
      requires Valid() && Owned(recs, p)
      ensures var r := recs[Find(recs, p)];
        && r.addr == p && p in at && at[p] == chain.blocks[Find(recs, p)] && at[p] in MwChain.Members(chain.blocks)
        && at[p].nml == r.nml && at[p].zone in zones && (!r.nml ==> LiveAt(recs, r))
        && Find(recs, p) < |chain.blocks| == |recs|
    {
      AtPosition(Find(recs, p));
    }

    /** `mwFree`; without a file name `mwFree_` calls `free`, and nothing here changes. */
    method Free(p: int, file: Name, line: int, o: BookOracle) returns (out: Outcome)
      requires Valid() && Returnable(View(), p, file)
      modifies this, chain, MwChain.Members(chain.blocks), MemoryAt(p)
      modifies grabs, MwGrab.Members(grabs.nodes)`next, stats, MwStats.Members(stats.nodes), ring
      modifies ring.lastFree, ring.files, ring.lines
      ensures Valid() && MwChain.Members(chain.blocks) <= old(MwChain.Members(chain.blocks))
      ensures MwGrab.Members(grabs.nodes) <= old(MwGrab.Members(grabs.nodes))
      ensures forall x :: x in MwStats.Members(stats.nodes) - old(MwStats.Members(stats.nodes)) ==> fresh(x)
      ensures var s := old(View());
        (View(), out) == MwLedger.Free(if file.Some? then Awake(s) else s, p, file, line, o)
    {
      hide Valid, MwLedger.FreeOwned, Find, Begun;
      if file == None {
        return Bypassed;
      }
      SameChain(View());
      AutoInit();
      ghost var between := MwStats.Members(stats.nodes);
      label L:
      out := FreeNamed(p, file, line, o);
      forall x | x in MwStats.Members(stats.nodes) - old(MwStats.Members(stats.nodes))
        ensures fresh(x)
      {
        assert x in MwStats.Members(stats.nodes) - between;
        assert fresh@L(x);
      }
    }

    method FreeNamed(p: int, file: Name, line: int, o: BookOracle) returns (out: Outcome)
      requires Valid() && file.Some?
      modifies this, chain, MwChain.Members(chain.blocks), MemoryAt(p)
      modifies grabs, MwGrab.Members(grabs.nodes)`next, stats, MwStats.Members(stats.nodes), ring
      modifies ring.lastFree, ring.files, ring.lines
      ensures Valid() && MwChain.Members(chain.blocks) <= old(MwChain.Members(chain.blocks))
      ensures MwGrab.Members(grabs.nodes) <= old(MwGrab.Members(grabs.nodes))
      ensures forall x :: x in MwStats.Members(stats.nodes) - old(MwStats.Members(stats.nodes)) ==> fresh(x)
      ensures (View(), out) == MwLedger.Free(old(View()), p, file, line, o)
    {
      hide Valid, MwLedger.FreeOwned, MwLedger.Refuse, Find;
      counter := counter + 1;
      if p == 0 {
        out := NullFree;
      } else {
        var mw := FindOwned(p);
        if mw == null {
          out := Refuse(p);
        } else {
          KnownAt(p);
          out := FreeOwned(mw, recs[Find(recs, p)], p, file, line, o);
        }
      }
    }

    /** Bytes are stored behind a header. */
    method Overwrite(mw: Block, ghost i: nat, at: int, data: seq<byte>)
      requires BlocksValid() && i < |recs| && mw == chain.blocks[i]
      requires 0 <= ZONE + at && ZONE + at + |data| <= mw.zone.Length
      modifies this`recs, mw.zone
      ensures BlocksValid() && recs == old(recs)[i := old(recs)[i].(zone := Patched(old(recs)[i].zone, at, data))]
    {
      hide Find, Xor, Linked, Tidy, Owned;
      AtPosition(i);
      AllApart(i);
      ghost var r := recs[i].(zone := Patched(recs[i].zone, at, data));
      MwGuard.Store(mw.zone, ZONE + at, data);
      forall j | 0 <= j < |recs| && j != i
        ensures ShownAt(chain.blocks, zones, recs, this.at, j)
      {
        assert old(ShownAt(chain.blocks, zones, recs, this.at, j));
      }
      BackedUpdate(chain.blocks, zones, recs, this.at, i, r);
      recs := recs[i := r];
    }

    /** Bytes are stored through a pointer the client holds; `at` may be anywhere around the payload. */
    method Patch(p: int, at: int, data: seq<byte>)
      requires Valid()
      modifies this`recs, MemoryAt(p)
      ensures Valid() && View() == old(View()).(chain := MwLedger.Patch(old(recs), p, at, data))
    {
      hide BlocksValid, StatTable.Valid, GrabList.Valid, FreeRing.Valid, Find, Patched;
      if p in this.at {
        KnownIn(p);
        var mw := this.at[p];
        if 0 <= ZONE + at && ZONE + at + |data| <= mw.zone.Length {
          PatchIs(recs, p, at, data);
          Overwrite(mw, Find(recs, p), at, data);
        } else {
          NoPatch(recs, p, at, data);
        }
      } else {
        NotKnown(p);
        NoPatch(recs, p, at, data);
      }
    }

    lemma KnownIn(p: int)
      requires Valid() && p in at
      ensures Owned(recs, p) && Find(recs, p) < |recs| == |chain.blocks| && at[p] == chain.blocks[Find(recs, p)]
      ensures at[p].zone in zones && at[p].zone.Length == |recs[Find(recs, p)].zone|
    {
      FoundAt(p);
      AtPosition(Find(recs, p));
    }

    lemma NotKnown(p: int)
      requires Valid() && p !in at
      ensures !Owned(recs, p)
    {
      FoundAt(p);
    }

    /** `mwCalloc`; the product may wrap around. */
    method Calloc(a: Size, b: Size, file: Name, line: int, o: MallocOracle) returns (p: int)
      requires Valid() && Grants(View(), (a * b) % SIZE_LIMIT, o)
      modifies this, chain, MwChain.Members(chain.blocks)`prev, MwChain.Members(chain.blocks)`next
      modifies grabs, MwGrab.Members(grabs.nodes)`next, stats, MwStats.Members(stats.nodes)
      ensures Valid() && fresh(MwChain.Members(chain.blocks) - old(MwChain.Members(chain.blocks)))
      ensures MwGrab.Members(grabs.nodes) <= old(MwGrab.Members(grabs.nodes))
      ensures forall x :: x in MwStats.Members(stats.nodes) - old(MwStats.Members(stats.nodes)) ==> fresh(x)
      ensures (View(), p) == MwLedger.Calloc(Awake(old(View())), a, b, file, line, o)
      ensures Keeps(old(at), at, p) && (p != 0 && p in at ==> fresh(at[p].zone))
    {
      hide Valid, Grants, MwLedger.Malloc, MwLedger.Patch, Keeps, Awake;
      var size := (a * b) % SIZE_LIMIT;
      p := Malloc(size, file, line, o);
      if p != 0 {
        Patch(p, 0, Fill(size, 0));
      }
    }

    /** "fake realloc operation" */
    method Move(mw: Block, ghost r: Rec, p: int, size: Size, file: Name, line: int, o: ReallocOracle) returns (ptr: int)
      requires inited > 0
      requires file.Some?
      requires Valid() && LiveAt(recs, r) && p == r.addr && p in at && mw == at[p] && Grants(View(), size, o.malloc)
      modifies this, Footprint(), MemoryAt(p)
      ensures Valid() && (forall x :: x in Footprint() - old(Footprint()) ==> fresh(x))
      ensures (View(), ptr) == MwLedger.Moved(old(View()), r, size, file, line, o)
    {
      hide Valid, Grants, MwLedger.Exchanged, LiveAt;
      SameGrants(View(), View().(useLimit := false), size, o.malloc);
      var oldUseLimit := useLimit;
      useLimit := false;
      ptr := Exchange(mw, r, p, size, file, line, o);
      useLimit := oldUseLimit;
    }

    method Exchange(mw: Block, ghost r: Rec, p: int, size: Size, file: Name, line: int, o: ReallocOracle)
      returns (ptr: int)
      requires inited > 0
      requires file.Some?
      requires Valid() && LiveAt(recs, r) && p == r.addr && p in at && mw == at[p] && Grants(View(), size, o.malloc)
      modifies this, Footprint(), MemoryAt(p)
      ensures Valid() && (forall x :: x in Footprint() - old(Footprint()) ==> fresh(x))
      ensures (View(), ptr) == MwLedger.Exchanged(old(View()), r, size, file, line, o)
    {
      hide Valid, Grants, View, MwLedger.Malloc, MwLedger.Patch, MwLedger.Free, LiveAt, MwLedger.Exchanged, Payload0;
      PayloadOf(r);
      ghost var s := View();
      var n := if size < mw.size then size else mw.size;
      var data := mw.zone[ZONE..ZONE + n];
      assert data == Payload0(r, Min(size, r.size));
      ptr := Fetch(size, file, line, o.malloc);
      ghost var t := View();
      if ptr != 0 {
        ghost var before, between := old(Footprint()), Footprint();
        assert between <= before + (between - before);
        label L:
        CopyAndFree(ptr, p, data, file, line, o.free);
        forall x | x in Footprint() - before
          ensures fresh(x)
        {
          assert x in between - before || x in Footprint() - between;
          assert x in Footprint() - between ==> fresh@L(x);
        }
      }
      ExchangedIs(s, r, size, file, line, o, t, ptr, View());
    }

    /** `mwFree`, with the wider frame. */
    method GiveBack(p: int, file: Name, line: int, o: BookOracle)
      requires inited > 0
      requires Valid() && Returnable(View(), p, file)
      modifies this, Footprint(), MemoryAt(p)
      ensures Valid() && (forall x :: x in Footprint() - old(Footprint()) ==> fresh(x))
      ensures View() == MwLedger.Free(old(View()), p, file, line, o).0
    {
      hide Valid, Returnable, MwLedger.Free;
      var _ := Free(p, file, line, o);
      forall x | x in Footprint() - old(Footprint())
        ensures fresh(x)
      {
        assert x in MwChain.Members(chain.blocks) - old(MwChain.Members(chain.blocks))
          || x in MwStats.Members(stats.nodes) - old(MwStats.Members(stats.nodes));
      }
    }

    /** `mwMalloc`, with the wider frame that `mwRealloc` needs. */
    method Fetch(size: Size, file: Name, line: int, o: MallocOracle) returns (p: int)
      requires inited > 0
      requires Valid() && Grants(View(), size, o)
      modifies this, Footprint()
      ensures Valid() && (forall x :: x in Footprint() - old(Footprint()) ==> fresh(x))
      ensures (View(), p) == MwLedger.Malloc(old(View()), size, file, line, o) && inited > 0
      ensures Keeps(old(at), at, p) && (p != 0 && p in at ==> fresh(at[p].zone))
    {
      hide Valid, Grants, MwLedger.Malloc, Keeps;
      MallocRuns(View(), size, file, line, o);
      p := Malloc(size, file, line, o);
      forall x | x in Footprint() - old(Footprint())
        ensures fresh(x)
      {
        assert x in MwChain.Members(chain.blocks) - old(MwChain.Members(chain.blocks))
          || x in MwStats.Members(stats.nodes) - old(MwStats.Members(stats.nodes));
      }
    }

    lemma ExchangedIs(s: State, r: Rec, size: Size, file: Name, line: int, o: ReallocOracle, t: State, addr: int,
                      u: State)
      requires (t, addr) == MwLedger.Malloc(s, size, file, line, o.malloc)
      requires addr == 0 ==> u == t
      requires addr != 0 ==>
        var t1 := t.(chain := MwLedger.Patch(t.chain, addr, 0, Payload0(r, Min(size, r.size))));
        u == MwLedger.Free(t1, r.addr, file, line, o.free).0
      ensures (u, addr) == MwLedger.Exchanged(s, r, size, file, line, o)
    {
      hide MwLedger.Malloc, MwLedger.Patch, MwLedger.Free, Payload0;
    }

    method CopyAndFree(ptr: int, p: int, data: seq<byte>, file: Name, line: int, o: BookOracle)
      requires inited > 0
      requires Valid() && file.Some?
      modifies this, Footprint(), MemoryAt(p), MemoryAt(ptr)
      ensures Valid() && (forall x :: x in Footprint() - old(Footprint()) ==> fresh(x))
      ensures var s := old(View());
        View() == MwLedger.Free(s.(chain := MwLedger.Patch(s.chain, ptr, 0, data)), p, file, line, o).0
    {
      hide Valid, MwLedger.Patch, MwLedger.Free;
      Patch(ptr, 0, data);
      GiveBack(p, file, line, o);
    }

    lemma PayloadOf(r: Rec)
      requires Valid() && LiveAt(recs, r)
      ensures r.addr in at
      ensures var b := at[r.addr];
        && b.size == r.size && b.zone.Length == r.size + 2 * ZONE && b in MwChain.Members(chain.blocks)
        && forall n: nat :: n <= r.size ==> b.zone[ZONE..ZONE + n] == Payload0(r, n)
    {
      AtPosition(Find(recs, r.addr));
    }

    /** The part of `mwRealloc` that deals with a block it knows. */
    method ReallocOwned(mw: Block, ghost r: Rec, p: int, size: Size, file: Name, line: int, o: ReallocOracle)
      returns (ptr: int)
      requires inited > 0
      requires file.Some?
      requires Valid() && Owned(recs, p) && r == recs[Find(recs, p)] && p != 0 && p in at && mw == at[p]
      requires Grants(View(), size, o.malloc)
      modifies this, Footprint(), MemoryAt(p)
      ensures Valid() && (forall x :: x in Footprint() - old(Footprint()) ==> fresh(x))
      ensures (View(), ptr) == MwLedger.ReallocOwned(old(View()), r, size, file, line, o)
    {
      hide Valid, Footprint, Grants, MwLedger.Moved, MwLedger.Refuse, LiveAt, Find;
      KnownAt(p);
      SizeOf(p);
      if mw.nml {
        errors := errors + 1;
        var _ := Refuse(p);
        ptr := 0;
      } else if useLimit && ToLong(size) + statCur - ToLong(mw.size) > limit {
        counter := counter + 1;
        errors := errors + 1;
        ptr := 0;
      } else {
        ptr := Move(mw, r, p, size, file, line, o);
      }
    }

    lemma SizeOf(p: int)
      requires Valid() && Owned(recs, p)
      ensures p in at && at[p].size == recs[Find(recs, p)].size
    {
      AtPosition(Find(recs, p));
    }

    /** `mwRealloc` */
    method Realloc(p: int, size: Size, file: Name, line: int, o: ReallocOracle) returns (ptr: int)
      requires Valid() && Grants(View(), size, o.malloc) && Returnable(View(), p, file)
      modifies this, Footprint(), MemoryAt(p)
      ensures Valid() && (forall x :: x in Footprint() - old(Footprint()) ==> fresh(x))
      ensures (View(), ptr) == MwLedger.Realloc(Awake(old(View())), p, size, file, line, o)
    {
      hide Valid, Grants, MwLedger.Realloc, Find, Begun;
      SameChain(View());
      SameGrants(View(), Awake(View()), size, o.malloc);
      AutoInit();
      ghost var between := Footprint();
      assert between <= old(Footprint());
      label L:
      ptr := ReallocNow(p, size, file, line, o);
      forall x | x in Footprint() - old(Footprint())
        ensures fresh(x)
      {
        assert x in Footprint() - between;
        assert fresh@L(x);
      }
    }

    method ReallocNow(p: int, size: Size, file: Name, line: int, o: ReallocOracle) returns (ptr: int)
      requires inited > 0
      requires Valid() && Grants(View(), size, o.malloc) && Returnable(View(), p, file)
      modifies this, Footprint(), MemoryAt(p)
      ensures Valid() && (forall x :: x in Footprint() - old(Footprint()) ==> fresh(x))
      ensures (View(), ptr) == MwLedger.Realloc(old(View()), p, size, file, line, o)
    {
      hide Valid, Grants, MwLedger.Malloc, MwLedger.Free, MwLedger.ReallocOwned, MwLedger.Refuse, Find, Keeps;
      if p == 0 {
        ptr := Fetch(size, file, line, o.malloc);
      } else if size == 0 {
        GiveBack(p, file, line, o.free);
        ptr := 0;
      } else {
        var mw := FindOwned(p);
        if mw == null {
          var _ := Refuse(p);
          ptr := 0;
        } else {
          KnownAt(p);
          ptr := ReallocOwned(mw, recs[Find(recs, p)], p, size, file, line, o);
        }
      }
    }

    /** `mwStatistics` */
    method Statistics(level: int)
      requires Valid()
      modifies this, stats
      ensures Valid() && View() == SetStatistics(Awake(old(View())), level)
    {
      hide BlocksValid, StatTable.Valid, FreeRing.Valid, GrabList.Valid, Awake;
      AutoInit();
      var l := if level < 0 then 0 else level;
      if statLevel != l {
        statLevel := l;
      }
    }

    /** `mwLimit` */
    method SetLimit(lim: int)
      requires Valid()
      modifies this, stats
      ensures Valid() && View() == MwLedger.SetLimit(Awake(old(View())), lim)
    {
      hide BlocksValid, StatTable.Valid, FreeRing.Valid, GrabList.Valid, Awake;
      AutoInit();
      useLimit := lim != 0;
      limit := lim;
    }

    /** `mwNoMansLand` */
    method NoMansLand(level: int, avail: nat)
      requires Valid()
      modifies this, stats, grabs, MwGrab.Members(grabs.nodes)`next
      ensures Valid() && fresh(MwGrab.Members(grabs.nodes) - old(MwGrab.Members(grabs.nodes)))
      ensures View() == MwLedger.NoMansLand(Awake(old(View())), level, avail)
    {
      hide Valid, View, Awake, MwLedger.NoMansLand;
      AutoInit();
      SetMode(level, avail);
    }

    method SetMode(level: int, avail: nat)
      requires Valid()
      modifies this`nmlLevel, grabs, MwGrab.Members(grabs.nodes)`next
      ensures Valid() && fresh(MwGrab.Members(grabs.nodes) - old(MwGrab.Members(grabs.nodes)))
      ensures View() == MwLedger.NoMansLand(old(View()), level, avail)
    {
      hide BlocksValid, StatTable.Valid, FreeRing.Valid, Drop, Obtainable;
      if level == 0 {
        var _ := grabs.DropKind(0, VAL_NML);
      } else if level == 2 {
        var _ := grabs.Grab(0, VAL_NML, useLimit, limit, statCur, avail);
      } else if level != 1 {
        return;
      }
      nmlLevel := level;
    }

    /** `mwTestBuffer`: 0 is good news. */
    method TestBuffer(p: int) returns (retv: int)
      requires Valid()
      modifies this, stats, MwChain.Members(chain.blocks)
      ensures Valid() && unchanged(MwChain.Members(chain.blocks))
      ensures retv == 0 <==>
        && Owned(recs, p)
        && var r := recs[Find(recs, p)]; !Underflowed(r.zone) && !Overflowed(r.zone, r.size)
      ensures var s := Awake(old(View()));
        View() == s.(errors := s.errors + if Owned(recs, p) then Broken(recs[Find(recs, p)]) else 0)
    {
      hide Valid, Find, Awake, Underflowed, Overflowed, GuardErrors, Broken;
      AutoInit();
      var mw := FindOwned(p);
      if mw == null {
        return 1;
      }
      KnownAt(p);
      BrokenAt(p);
      retv := TestBuf(mw, Find(recs, p));
    }

    lemma BrokenAt(p: int)
      requires Valid() && Owned(recs, p)
      ensures GuardErrors(recs[Find(recs, p)]) == Broken(recs[Find(recs, p)])
    {
      AtPosition(Find(recs, p));
      GuardErrorsAre(recs[Find(recs, p)]);
    }

    /** One round of the scan in `mwAbort`: the first block is reported and taken down. */
    method TakeDown()
      requires Valid() && recs != []
      modifies this`at, this`recs, this`zones, this`errors, this`nmlNum, this`nmlCur
      modifies chain, MwChain.Members(chain.blocks)
      ensures Valid() && MwChain.Members(chain.blocks) <= old(MwChain.Members(chain.blocks))
      ensures var r := old(recs)[0];
        View() == old(View()).(chain := old(recs)[1..],
          errors := old(errors) + (if !r.nml || Touched(r) then 1 else 0),
          nmlNum := old(nmlNum) - (if r.nml then 1 else 0),
          nmlCur := old(nmlCur) - (if r.nml then ToLong(r.size) else 0))
    {
      hide BlocksValid, Find, Touched, StatTable.Valid, GrabList.Valid, FreeRing.Valid;
      HeadKnown();
      var mw := FindOwned(chain.head.addr);
      Report(mw, recs[0]);
      assert Cut(recs, 0) == recs[1..];
      TakeOff(mw, 0);
    }

    lemma HeadKnown()
      requires Valid() && recs != []
      ensures Owned(recs, recs[0].addr) && chain.head != null && chain.head.addr == recs[0].addr
      ensures recs[0].addr in at && at[recs[0].addr] == chain.head && |chain.blocks| == |recs|
      ensures chain.head == chain.blocks[0] && Pictured(chain.head, recs[0])
    {
      HeadIsFirst();
      AtPosition(0);
    }

    ghost predicate Pictured(mw: Block, r: Rec)
      reads mw`nml, mw`size, mw.zone
    {
      WellSized(r) && mw.nml == r.nml && mw.size == r.size && mw.zone[..] == r.zone
    }

    method Report(mw: Block, ghost r: Rec)
      requires Valid() && Pictured(mw, r)
      modifies this`errors, this`nmlNum, this`nmlCur
      ensures Valid() && View() == old(View()).(errors := old(errors) + (if !r.nml || Touched(r) then 1 else 0),
        nmlNum := old(nmlNum) - (if r.nml then 1 else 0), nmlCur := old(nmlCur) - (if r.nml then ToLong(r.size) else 0))
    {
      hide BlocksValid, StatTable.Valid, GrabList.Valid, FreeRing.Valid;
      var hit := TestMem(mw.zone, ZONE, mw.size, VAL_NML);
      if !mw.nml {
        errors := errors + 1;
      } else {
        if hit {
          errors := errors + 1;
        }
        nmlNum := nmlNum - 1;
        nmlCur := nmlCur - ToLong(mw.size);
      }
    }

    method TakeOff(mw: Block, ghost i: nat)
      requires Valid() && i < |recs| == |chain.blocks| && mw == chain.blocks[i]
      modifies this`at, this`recs, this`zones, chain, MwChain.Members(chain.blocks)`prev
      modifies MwChain.Members(chain.blocks)`next
      ensures Valid() && MwChain.Members(chain.blocks) <= old(MwChain.Members(chain.blocks))
      ensures View() == old(View()).(chain := Cut(old(recs), i))
    {
      hide Backed, Linked, StatTable.Valid, GrabList.Valid, FreeRing.Valid;
      Discard(mw, i);
    }

    /** `mwAbort`: what is left is reported. The counters of live blocks and bytes stay as they were. */
    method Abort(marks: MwMarks.MarkList) returns (reported: int)
      requires Valid() && marks.Valid()
      modifies this, stats, chain, MwChain.Members(chain.blocks), grabs, MwGrab.Members(grabs.nodes)`next, marks
      ensures Valid() && marks.Valid() && marks.marks == []
      ensures reported == old(errors) + |old(marks.marks)| + ScanErrors(old(recs))
      ensures View() == Aborted(Awake(old(View())))
    {
      hide Begun, Valid, MwMarks.MarkList.Valid, ScanErrors, Count, Bytes;
      hide Drop, MwChain.Members, MwGrab.Members, MwStats.Members;
      AutoInit(); // its first `mwWrite` does it
      BlameMarks(marks);
      ScanDown();
      reported := errors;
      Close();
    }

    /** The grab list goes, and every marker left is an error. */
    method BlameMarks(marks: MwMarks.MarkList)
      requires Valid() && marks.Valid()
      modifies this`errors, grabs, MwGrab.Members(grabs.nodes)`next, marks
      ensures Valid() && marks.Valid() && marks.marks == []
      ensures View() == old(View()).(errors := old(errors) + |old(marks.marks)|,
        grabs := Drop(Drop(old(View()).grabs, DROP_ALL, VAL_GRB), DROP_ALL, VAL_NML))
    {
      hide Valid, MwMarks.MarkList.Valid, Drop, MwGrab.Members;
      DropAll();
      var n := marks.ReportAll();
      Blame(n);
    }

    method Blame(n: nat)
      modifies this`errors
      ensures View() == old(View()).(errors := old(errors) + n)
    {
      errors := errors + n;
    }

    method Close()
      modifies this`errors, this`inited
      ensures View() == old(View()).(errors := 0, inited := 0)
    {
      errors, inited := 0, 0;
    }

    method DropAll()
      requires Valid()
      modifies grabs, MwGrab.Members(grabs.nodes)`next
      ensures Valid()
      ensures View() == old(View()).(grabs := Drop(Drop(old(View()).grabs, DROP_ALL, VAL_GRB), DROP_ALL, VAL_NML))
    {
      hide BlocksValid, StatTable.Valid, FreeRing.Valid, Drop;
      grabs.DropAll();
    }

    method ScanDown()
      requires Valid()
      modifies this`at, this`recs, this`zones, this`errors, this`nmlNum, this`nmlCur
      modifies chain, MwChain.Members(chain.blocks)
      ensures Valid()
      ensures View() == old(View()).(chain := [], errors := old(errors) + ScanErrors(old(View()).chain),
        nmlNum := old(nmlNum) - Count(old(View()).chain, true),
        nmlCur := old(nmlCur) - Bytes(old(View()).chain, true, All))
    {
      hide BlocksValid, StatTable.Valid, FreeRing.Valid, GrabList.Valid, Touched;
      ghost var s := View();
      HeadThere();
      while chain.head != null
        invariant Valid() && MwChain.Members(chain.blocks) <= old(MwChain.Members(chain.blocks))
        invariant chain.head == null <==> recs == []
        invariant View() == s.(chain := recs, errors := errors, nmlNum := nmlNum, nmlCur := nmlCur)
        invariant errors + ScanErrors(recs) == s.errors + ScanErrors(s.chain)
        invariant nmlNum - Count(recs, true) == s.nmlNum - Count(s.chain, true)
        invariant nmlCur - Bytes(recs, true, All) == s.nmlCur - Bytes(s.chain, true, All)
        decreases |recs|
      {
        HeadSized();
        TakeDown();
        HeadThere();
      }
    }

    lemma HeadThere()
      requires Valid()
      ensures chain.head == null <==> recs == []
    {
      HeadIsFirst();
    }

    lemma HeadSized()
      requires Valid()
      ensures recs != [] ==> recs[0].size < LONG_LIMIT
    {
      if recs != [] {
        AtPosition(0);
      }
    }

    /** Everything is in order but the links and the checksum of the block at position `i`. */
    ghost predicate DamagedAt(i: nat)
      reads this`at, this`recs, this`zones, chain, chain.blocks, zones
    {
      var s, z, c := chain.blocks, zones, recs;
      && i < |s| == |z| == |c|
      && LinkedExcept(s, chain.head, chain.tail, s[i]) && Tidy(c)
      && s[i].zone == z[i] && ShowsButCheck(s[i], c[i]) && s[i].addr in at && at[s[i].addr] == s[i]
      && (forall j {:trigger ShownAt(s, z, c, at, j)} :: 0 <= j < |c| && j != i ==> ShownAt(s, z, c, at, j))
      && (forall p :: p in at ==> Owned(c, p))
      && (forall j, k {:trigger Apart(z, j, k)} :: 0 <= j < |c| && 0 <= k < |c| && j != k ==> Apart(z, j, k))
    }

    lemma TotalOfDamaged(i: nat)
      requires DamagedAt(i)
      ensures TotalSize(chain.blocks) == TotalOf(recs)
      ensures chain.blocks[i] in chain.blocks && chain.blocks[i].size == recs[i].size
      ensures forall j {:trigger chain.blocks[j]} :: 0 <= j < |recs| && j != i ==> chain.blocks[j] != chain.blocks[i]
    {
      forall j | 0 <= j < |recs|
        ensures chain.blocks[j].size == recs[j].size < LONG_LIMIT
      {
        assert j == i || ShownAt(chain.blocks, zones, recs, at, j);
        assert recs[j] in recs;
      }
      TotalIs(chain.blocks, recs);
    }

    /** `mwRelink` on the one damaged block of a heap whose counters are right: everything is in order
        again, up to the file name if the statistics do not know it -- yet success is reported only
        when no block is in no-mans-land, since the whole chain is compared with the live blocks. */
    method Relink(mw: Block, ghost i: nat) returns (ok: bool)
      requires DamagedAt(i) && mw == chain.blocks[i] && stats.Valid()
      requires numCur == Count(recs, false) && statCur == Bytes(recs, false, All)
      modifies this`recs, mw`prev, mw`next, mw`file, mw`check, mw`size
      ensures BlocksValid() && chain.blocks == old(chain.blocks)
      ensures recs == old(recs)[i := old(recs)[i].(file := mw.file)]
      ensures mw.file == old(mw.file) || mw.file == Some("<relinked>")
      ensures ok <==> Count(recs, true) == 0
    {
      hide Find, Xor, Linked, LinkedExcept, TotalSize, Bytes, Count, Tidy, Owned;
      TotalOfDamaged(i);
      CountBoth(recs);
      var record := stats.Search(mw.file, MODULE_LINE);
      ok := chain.Relink(mw, numCur, statCur, record != null);
      ghost var s, z, c := chain.blocks, zones, recs;
      ghost var r := c[i].(file := mw.file);
      forall j | 0 <= j < |c| && j != i
        ensures ShownAt(s, z, c, at, j)
      {
        assert old(ShownAt(chain.blocks, zones, recs, at, j));
      }
      SizedAt(c, i, r);
      BackedUpdate(s, z, c, at, i, r);
      recs := c[i := r];
      SameCounts(c, i, r);
    }
  }

  lemma SizedAt(c: seq<Rec>, i: nat, r: Rec)
    requires Tidy(c) && i < |c| && r.size == c[i].size && r.zone == c[i].zone
    ensures WellSized(r)
  {
    assert c[i] in c;
  }

  lemma SameCounts(c: seq<Rec>, i: nat, r: Rec)
    requires i < |c| && r.nml == c[i].nml
    ensures Count(c[i := r], true) == Count(c, true)
  {
    UpdateSums(c, i, r, true, All);
  }

  /** One retired block is enough for `mwRelink` to call its repair a failure. */
  lemma OneRetired(c: seq<Rec>, r: Rec)
    requires r in c && r.nml
    ensures Count(c, true) != 0
  {
    if c[0] != r {
      OneRetired(c[1..], r);
    }
  }
}
