/** The polling loop: which URLs are fetched, and what is remembered of them. The answers of the
    matcher, the file system and the network are parameters. */
module Polling {
  import opened Downloads
  import opened List
  import opened StateFile
  import opened Basics

  const U16: nat := 65536

  /** One URL of a feed, and what the world answers when it is looked at: whether a filter matches,
      whether the target file is present, the response code if a response comes, whether memory is there
      for a list node, and whether the state file can be opened and how many lines fit into it. */
  datatype Visit = Visit(url: string, matches: bool, present: bool, response: Option<int>,
                         linked: bool, canOpen: bool, writes: nat)

  datatype State = State(bucket: seq<string>, max: nat, changed: bool, matchOnly: bool, file: string)

  /** One feed as it was fetched: the number of its items by the parser's count, and its URLs. */
  datatype Feed = Feed(itemCount: nat, visits: seq<seq<Visit>>)

  // ----- the specification

  predicate Succeeds(s: State, v: Visit) {
    v.matches && !s.matchOnly && v.url !in s.bucket && !v.present && v.response == Some(200)
  }

  function Saved(file: string, bucket: seq<string>, canOpen: bool, writes: nat): string {
    if !canOpen then file
    else if writes >= |bucket| then Printed(bucket)
    else Printed(bucket[..writes])
  }

  /** A URL is looked at; a feed's items are counted; the program shuts down in order; it is started
      again with the configured bound, whether it was shut down or just stopped, and can read its state
      file or not, with memory for all entries or not. */
  datatype Event =
    | Look(v: Visit)
    | Grow(n: nat)
    | Stop(canOpen: bool, writes: nat)
    | Restart(max: nat, canRead: bool, linked: seq<bool>)

  function Added(s: State, v: Visit): seq<string> {
    Bucketed(s.bucket, v.url, s.max, v.linked)
  }

  function Step(s: State, e: Event): State {
    match e
    case Grow(n) => s.(max := (s.max + n) % U16)
    case Stop(canOpen, writes) => if s.changed then s.(file := Saved(s.file, s.bucket, canOpen, writes)) else s
    case Restart(max, canRead, linked) => State(Loaded(s.file, canRead, linked), max, false, s.matchOnly, s.file)
    case Look(v) =>
      if Succeeds(s, v) then
        s.(bucket := Added(s, v), changed := true, file := Saved(s.file, Added(s, v), v.canOpen, v.writes))
      else s
  }

  function Run(s: State, events: seq<Event>): State
    decreases |events|
  {
    if events == [] then s else Run(Step(s, events[0]), events[1..])
  }

  /** A download of `v` is remembered: its URL is not empty, and memory is there for its node. */
  predicate Notable(v: Visit) {
    v.url != "" && v.linked
  }

  function Noted(v: Visit): seq<string> {
    if Notable(v) then [v.url] else []
  }

  /** The URLs downloaded and recorded in a run, newest first. */
  function Recorded(s: State, events: seq<Event>): seq<string>
    decreases |events|
  {
    if events == [] then []
    else
      var e := events[0];
      Recorded(Step(s, e), events[1..]) + (if e.Look? && Succeeds(s, e.v) then Noted(e.v) else [])
  }

  /** Before every event the bucket is unbounded or bounded by `m` at least. */
  predicate RoomFor(s: State, events: seq<Event>, m: nat)
    decreases |events|
  {
    events == [] || ((s.max == 0 || s.max >= m) && RoomFor(Step(s, events[0]), events[1..], m))
  }

  /** Every restart finds the bucket that was there. */
  predicate Lossless(s: State, events: seq<Event>)
    decreases |events|
  {
    events == [] ||
    (&& (events[0].Restart? ==> Step(s, events[0]).bucket == s.bucket)
     && Lossless(Step(s, events[0]), events[1..]))
  }

  // ----- the laws

  /** The bucket is always the newest part of the whole history, restarts included, and never less of it
      than the smallest bound that was in force. */
  lemma {:induction false} BucketIsHistory(s: State, events: seq<Event>, m: nat)
    requires RoomFor(s, events, m) && Lossless(s, events)
    ensures Run(s, events).bucket <= Recorded(s, events) + s.bucket
    ensures |Run(s, events).bucket| >= Min(m, |Recorded(s, events) + s.bucket|)
    decreases |events|
  {
    hide Added, Succeeds, Saved, Loaded;
    if events != [] {
      var e := events[0];
      var t := Step(s, e);
      BucketIsHistory(t, events[1..], m);
      if e.Look? && Succeeds(s, e.v) {
        AddedIsNewest(s, e.v, m);
        Longer(Run(s, events).bucket, Recorded(t, events[1..]), t.bucket, Noted(e.v), s.bucket, m);
      }
    }
  }

  lemma AddedIsNewest(s: State, v: Visit, m: nat)
    requires s.max == 0 || s.max >= m
    ensures Added(s, v) <= Noted(v) + s.bucket
    ensures |Added(s, v)| >= Min(m, |Noted(v) + s.bucket|)
  {
    assert [] + s.bucket == s.bucket;
  }

  lemma Longer(b: seq<string>, h: seq<string>, t: seq<string>, n: seq<string>, past: seq<string>, m: nat)
    requires b <= h + t && |b| >= Min(m, |h + t|) && t <= n + past && |t| >= Min(m, |n + past|)
    ensures b <= (h + n) + past && |b| >= Min(m, |(h + n) + past|)
  {
    assert h + (n + past) == (h + n) + past;
    assert h + t <= h + (n + past);
  }

  /** Two recorded downloads of one URL are at least `m` other recorded downloads apart, also if the
      program was restarted in between. */
  lemma NotAgainTooSoon(s: State, v: Visit, events: seq<Event>, v2: Visit, m: nat)
    requires Succeeds(s, v) && Notable(v) && v2.url == v.url
    requires var t := Step(s, Look(v)); RoomFor(t, events, m) && Lossless(t, events) && Succeeds(Run(t, events), v2)
    ensures |Recorded(Step(s, Look(v)), events)| >= m
  {
    var t := Step(s, Look(v));
    BucketIsHistory(t, events, m);
    assert t.bucket[0] == v.url;
    if |Recorded(t, events)| < m {
      StillThere(Run(t, events).bucket, Recorded(t, events), t.bucket);
      assert false;
    }
  }

  lemma StillThere(b: seq<string>, h: seq<string>, t: seq<string>)
    requires b <= h + t && |h| < |b| && t != []
    ensures t[0] in b
  {
    assert b[|h|] == (h + t)[|h|] == t[0];
  }

  function NextMax(max: nat, e: Event): nat {
    match e
    case Look(_) => max
    case Grow(n) => max + n
    case Stop(_, _) => max
    case Restart(m, _, _) => m
  }

  /** The 16-bit bound never wraps around. */
  predicate NoWrap(max: nat, events: seq<Event>)
    decreases |events|
  {
    max < U16 && (events != [] ==> NoWrap(NextMax(max, events[0]), events[1..]))
  }

  /** The smallest bound at the beginning of a process. */
  function Lowest(max: nat, events: seq<Event>): (m: nat)
    ensures m <= max
    decreases |events|
  {
    if events == [] then max else Min(max, Lowest(NextMax(max, events[0]), events[1..]))
  }

  function Highest(max: nat, events: seq<Event>): (m: nat)
    ensures m >= max
    decreases |events|
  {
    if events == [] then max
    else
      var m := Highest(NextMax(max, events[0]), events[1..]);
      if m < max then max else m
  }

  /** Without wrap-around the bound shrinks at a restart only; so the smallest bound a process began
      with will do, and without restarts that is the first. */
  lemma {:induction false} NoWrapNoShrink(s: State, events: seq<Event>)
    requires NoWrap(s.max, events)
    ensures RoomFor(s, events, Lowest(s.max, events))
    ensures (forall e :: e in events ==> !e.Restart?) ==> Lowest(s.max, events) == s.max
    decreases |events|
  {
    if events != [] {
      var t := Step(s, events[0]);
      assert t.max == NextMax(s.max, events[0]);
      NoWrapNoShrink(t, events[1..]);
      RoomForLess(t, events[1..], Lowest(t.max, events[1..]), Lowest(s.max, events));
    }
  }

  lemma {:induction false} RoomForLess(s: State, events: seq<Event>, m: nat, n: nat)
    requires RoomFor(s, events, m) && n <= m
    ensures RoomFor(s, events, n)
    decreases |events|
  {
    if events != [] {
      RoomForLess(Step(s, events[0]), events[1..], m, n);
    }
  }

  lemma Separation(s: State, v: Visit, events: seq<Event>, v2: Visit)
    requires Succeeds(s, v) && Notable(v) && v2.url == v.url && NoWrap(s.max, events)
    requires var t := Step(s, Look(v)); Lossless(t, events) && Succeeds(Run(t, events), v2)
    ensures |Recorded(Step(s, Look(v)), events)| >= Lowest(s.max, events)
    ensures (forall e :: e in events ==> !e.Restart?) ==> |Recorded(Step(s, Look(v)), events)| >= s.max
  {
    NoWrapNoShrink(Step(s, Look(v)), events);
    NotAgainTooSoon(s, v, events, v2, Lowest(s.max, events));
  }

  /** A download can be repeated at once exactly when it is not remembered. */
  lemma RepeatedAtOnce(s: State, v: Visit)
    requires Succeeds(s, v)
    ensures Succeeds(Step(s, Look(v)), v) <==> !Notable(v)
  {
    BucketedRemembers(s.bucket, v.url, s.max, v.linked);
  }

  /** No event puts a URL in twice, whatever the bound. */
  lemma {:induction false} NeverTwice(s: State, events: seq<Event>)
    requires NoDuplicates(s.bucket) && Lossless(s, events)
    ensures NoDuplicates(Run(s, events).bucket)
    decreases |events|
  {
    hide Saved, Loaded;
    if events != [] {
      var e := events[0];
      if e.Look? && Succeeds(s, e.v) {
        BucketedKeeps(s.bucket, e.v.url, s.max, e.v.linked);
      }
      NeverTwice(Step(s, e), events[1..]);
    }
  }

  /** No event makes the bucket longer than its bound unless it was. */
  lemma {:induction false} BucketStaysBounded(s: State, events: seq<Event>)
    requires NoWrap(s.max, events) && Lowest(s.max, events) > 0 && Lossless(s, events)
    ensures var m := Highest(s.max, events);
      |Run(s, events).bucket| <= if |s.bucket| > m then |s.bucket| else m
    decreases |events|
  {
    hide Saved, Loaded;
    if events != [] {
      var e := events[0];
      if e.Look? && Succeeds(s, e.v) {
        BucketedKeeps(s.bucket, e.v.url, s.max, e.v.linked);
      }
      assert Step(s, e).max == NextMax(s.max, e);
      BucketStaysBounded(Step(s, e), events[1..]);
    }
  }

  // ----- the state file

  predicate Persisted(s: State) {
    Parsed(s.file) == s.bucket
  }

  /** The save after a download goes through. */
  predicate SaveCompletes(s: State, v: Visit) {
    Succeeds(s, v) ==> v.canOpen && v.writes >= |Added(s, v)|
  }

  /** Every save goes through, every URL that is remembered can be stored, and every restart can read
      the file and has memory for its entries. */
  predicate Durable(s: State, events: seq<Event>)
    decreases |events|
  {
    events == [] || (DurableStep(s, events[0]) && Durable(Step(s, events[0]), events[1..]))
  }

  predicate DurableStep(s: State, e: Event) {
    match e
    case Grow(_) => true
    case Stop(canOpen, writes) => s.changed ==> canOpen && writes >= |s.bucket|
    case Restart(_, canRead, linked) => canRead && false !in linked
    case Look(v) => SaveCompletes(s, v) && (Succeeds(s, v) && Notable(v) ==> Storable(v.url))
  }

  /** After a download whose save goes through, the state file reads back as the bucket exactly when
      the URL is one that can be stored, or is not remembered. */
  lemma PersistsExactly(s: State, v: Visit)
    requires Persisted(s) && Succeeds(s, v) && SaveCompletes(s, v)
    ensures Persisted(Step(s, Look(v))) <==> !Notable(v) || Storable(v.url)
  {
    ParsedIsStorable(s.file);
    var b := Added(s, v);
    RoundTrip(b);
    assert forall u :: u in b ==> u == v.url || u in s.bucket;
    assert Notable(v) ==> b[0] == v.url;
    assert !Notable(v) ==> forall u :: u in b ==> u in s.bucket;
  }

  /** A shutdown whose save goes through puts the file right, whatever became of the saves before,
      exactly when every entry of the bucket can be stored. */
  lemma StopPersists(s: State, canOpen: bool, writes: nat)
    requires s.changed && canOpen && writes >= |s.bucket|
    ensures Persisted(Step(s, Stop(canOpen, writes))) <==> forall u :: u in s.bucket ==> Storable(u)
  {
    RoundTrip(s.bucket);
  }

  /** Shut down in order and started again, the program has its bucket exactly when it can be stored, or,
      if nothing was recorded, the file was right already. */
  lemma StopAndRestart(s: State, canOpen: bool, writes: nat, max: nat)
    requires canOpen && writes >= |s.bucket|
    ensures var t := Step(Step(s, Stop(canOpen, writes)), Restart(max, true, []));
      t.bucket == s.bucket <==> if s.changed then forall u :: u in s.bucket ==> Storable(u) else Persisted(s)
  {
    KeptIs(Parsed(Step(s, Stop(canOpen, writes)).file), []);
    if s.changed {
      StopPersists(s, canOpen, writes);
    }
  }

  /** Between any two events the state file reads back as the bucket; so no restart loses anything. */
  lemma {:induction false} AlwaysPersisted(s: State, events: seq<Event>)
    requires Persisted(s) && Durable(s, events)
    ensures Persisted(Run(s, events)) && Lossless(s, events)
    decreases |events|
  {
    hide Added, Saved, Parsed, Kept, SaveCompletes, Storable;
    if events != [] {
      var e := events[0];
      if e.Look? && Succeeds(s, e.v) {
        PersistsExactly(s, e.v);
      } else if e.Stop? && s.changed {
        ParsedIsStorable(s.file);
        StopPersists(s, e.canOpen, e.writes);
      } else if e.Restart? {
        KeptIs(Parsed(s.file), e.linked);
      }
      AlwaysPersisted(Step(s, e), events[1..]);
    }
  }

  /** Nothing is fetched again too soon, restarts or not: while saves go through and URLs can be stored,
      two recorded downloads of one URL have as many others between them as the smallest bound a
      process began with. */
  lemma SeparationOverRestarts(s: State, v: Visit, events: seq<Event>, v2: Visit)
    requires Persisted(s) && Succeeds(s, v) && Notable(v) && v2.url == v.url && NoWrap(s.max, events)
    requires Durable(s, [Look(v)] + events) && Succeeds(Run(Step(s, Look(v)), events), v2)
    ensures |Recorded(Step(s, Look(v)), events)| >= Lowest(s.max, events)
  {
    assert ([Look(v)] + events)[1..] == events;
    AlwaysPersisted(s, [Look(v)] + events);
    Separation(s, v, events, v2);
  }

  /** Stopped between any two events and started again, the program remembers what it did, and goes on
      from there as if it had not been stopped, but for the bound. */
  lemma RestartKeepsHistory(s: State, before: seq<Event>, max: nat, linked: seq<bool>)
    requires Persisted(s) && Durable(s, before) && false !in linked
    ensures var t := Run(s, before);
      var u := Step(t, Restart(max, true, linked));
      u == t.(max := max, changed := false) && Persisted(u)
  {
    AlwaysPersisted(s, before);
    KeptIs(Parsed(Run(s, before).file), linked);
  }

  // ----- the program

  function Looks(visits: seq<Visit>): seq<Event> {
    if visits == [] then [] else [Look(visits[0])] + Looks(visits[1..])
  }

  function ItemEvents(items: seq<seq<Visit>>): seq<Event> {
    if items == [] then [] else Looks(items[0]) + ItemEvents(items[1..])
  }

  /** A feed that cannot be fetched (None) is no event; the bound grows on the first pass only. */
  function FeedEvents(feed: Option<Feed>, firstRun: bool): seq<Event> {
    if feed == None then []
    else (if firstRun then [Grow(feed.value.itemCount)] else []) + ItemEvents(feed.value.visits)
  }

  function PassEvents(feeds: seq<Option<Feed>>, firstRun: bool): seq<Event> {
    if feeds == [] then [] else FeedEvents(feeds[0], firstRun) + PassEvents(feeds[1..], firstRun)
  }

  /** The passes made until the program is told to stop; with `once`, only the first. */
  function PollEvents(passes: seq<seq<Option<Feed>>>, firstRun: bool, once: bool): seq<Event> {
    if passes == [] then []
    else PassEvents(passes[0], firstRun) + (if once then [] else PollEvents(passes[1..], false, once))
  }

  lemma RunNothing(s: State, first: bool, once: bool)
    ensures Run(s, []) == s && ItemEvents([]) == [] && Looks([]) == []
    ensures PassEvents([], first) == [] && PollEvents([], first, once) == []
  {
  }

  lemma RunOne(s: State, v: Visit, rest: seq<Visit>)
    ensures Looks([v] + rest) == [Look(v)] + Looks(rest)
    ensures Run(s, [Look(v)] + Looks(rest)) == Run(Step(s, Look(v)), Looks(rest))
  {
    assert ([v] + rest)[1..] == rest;
  }

  lemma {:induction false} RunSplits(s: State, a: seq<Event>, b: seq<Event>)
    ensures Run(s, a + b) == Run(Run(s, a), b)
    decreases |a|
  {
    if a == [] {
      assert a + b == b;
    } else {
      assert (a + b)[1..] == a[1..] + b;
      RunSplits(Step(s, a[0]), a[1..], b);
    }
  }

  /** The line buffer of `save_state` has room for the URL. */
  predicate Fits(url: string) {
    |url| + 2 <= MAX_LINE_LEN + 1
  }

  predicate FeedFits(feed: Option<Feed>) {
    feed.Some? ==> forall item, v :: item in feed.value.visits && v in item ==> Fits(v.url)
  }

  class Session {
    const downloads: SimpleList
    var maxBucketItems: nat
    var bucketChanged: bool
    const matchOnly: bool
    var file: string

    ghost predicate Valid()
      reads this, downloads, downloads.nodes
    {
      downloads.Valid() && forall u :: u in downloads.items ==> Fits(u)
    }

    ghost function View(): State
      reads this, downloads
    {
      State(downloads.items, maxBucketItems, bucketChanged, matchOnly, file)
    }

    /** `session_init` with the configured bound, and `load_state`: a process that takes over from `s`. */
    constructor (max: nat, matchOnly: bool, file: string, canRead: bool, linked: seq<bool>, ghost s: State)
      requires s.matchOnly == matchOnly && s.file == file
      ensures Valid() && View() == Step(s, Restart(max, canRead, linked))
      ensures fresh(downloads) && forall x :: x in Members(downloads.nodes) ==> fresh(x)
      ensures canRead && false !in linked ==> Persisted(View())
    {
      hide Parsed, Kept, Storable, SimpleList.Valid;
      downloads := new SimpleList();
      this.maxBucketItems, this.bucketChanged, this.matchOnly, this.file := max, false, matchOnly, file;
      new;
      label L:
      var _ := LoadState(file, canRead, linked, downloads);
      forall x | x in Members(downloads.nodes)
        ensures fresh(x)
      {
        assert x in Members(downloads.nodes) - Members([]) && fresh@L(x);
      }
      KeptIs(Parsed(file), linked);
      ParsedFits(file);
    }

    /** The body of the inner loop of `processRSSList`. */
    method LookAt(v: Visit)
      requires Valid() && Fits(v.url)
      modifies this, downloads, Members(downloads.nodes)`next, Members(downloads.nodes)`freed
      ensures Valid()
      ensures forall x :: x in Members(downloads.nodes) - old(Members(downloads.nodes)) ==> fresh(x)
      ensures View() == Step(old(View()), Look(v))
    {
      if v.matches {
        if !matchOnly {
          var known := HasBeenDownloaded(downloads, v.url);
          if !known && !v.present {
            if v.response.Some? {
              if v.response.value == 200 {
                var rc := AddToBucket(v.url, downloads, maxBucketItems, v.linked);
                BucketedFits(old(downloads.items), v.url, maxBucketItems, v.linked);
                if rc == 0 {
                  bucketChanged := true;
                  var _, saved := SaveState(file, downloads, v.canOpen, v.writes);
                  file := saved;
                }
              }
            }
          }
        }
      }
    }

    /** `processRSSList` */
    method ProcessRSSList(items: seq<seq<Visit>>)
      requires Valid() && forall item, v :: item in items && v in item ==> Fits(v.url)
      modifies this, downloads, Members(downloads.nodes)`next, Members(downloads.nodes)`freed
      ensures Valid()
      ensures forall x :: x in Members(downloads.nodes) - old(Members(downloads.nodes)) ==> fresh(x)
      ensures View() == Run(old(View()), ItemEvents(items))
    {
      hide Valid, Run, Members;
      ghost var s, before := View(), Members(downloads.nodes);
      var i := 0;
      while i < |items|
        invariant 0 <= i <= |items| && Valid()
        invariant forall x :: x in Members(downloads.nodes) - before ==> fresh(x)
        invariant Run(View(), ItemEvents(items[i..])) == Run(s, ItemEvents(items))
      {
        assert items[i..][1..] == items[i + 1..];
        RunSplits(View(), Looks(items[i]), ItemEvents(items[i + 1..]));
        ghost var between := Members(downloads.nodes);
        assert between <= before + (between - before);
        label L:
        ProcessItem(items[i]);
        forall x | x in Members(downloads.nodes) - before
          ensures fresh(x)
        {
          assert x in between - before || x in Members(downloads.nodes) - between;
          assert x in Members(downloads.nodes) - between ==> fresh@L(x);
        }
        i := i + 1;
      }
      RunNothing(View(), false, false);
    }

    method ProcessItem(urls: seq<Visit>)
      requires Valid() && forall v :: v in urls ==> Fits(v.url)
      modifies this, downloads, Members(downloads.nodes)`next, Members(downloads.nodes)`freed
      ensures Valid()
      ensures forall x :: x in Members(downloads.nodes) - old(Members(downloads.nodes)) ==> fresh(x)
      ensures View() == Run(old(View()), Looks(urls))
    {
      hide Valid, Run, Members;
      ghost var s, before := View(), Members(downloads.nodes);
      var j := 0;
      while j < |urls|
        invariant 0 <= j <= |urls| && Valid()
        invariant forall x :: x in Members(downloads.nodes) - before ==> fresh(x)
        invariant Run(View(), Looks(urls[j..])) == Run(s, Looks(urls))
      {
        assert urls[j..] == [urls[j]] + urls[j + 1..];
        RunOne(View(), urls[j], urls[j + 1..]);
        ghost var between := Members(downloads.nodes);
        assert between <= before + (between - before);
        label L:
        LookAt(urls[j]);
        forall x | x in Members(downloads.nodes) - before
          ensures fresh(x)
        {
          assert x in between - before || x in Members(downloads.nodes) - between;
          assert x in Members(downloads.nodes) - between ==> fresh@L(x);
        }
        j := j + 1;
      }
      RunNothing(View(), false, false);
    }

    /** `processFeed`, once the feed was fetched or not. */
    method ProcessFeed(feed: Option<Feed>, firstRun: bool)
      requires Valid() && FeedFits(feed)
      modifies this, downloads, Members(downloads.nodes)`next, Members(downloads.nodes)`freed
      ensures Valid()
      ensures forall x :: x in Members(downloads.nodes) - old(Members(downloads.nodes)) ==> fresh(x)
      ensures View() == Run(old(View()), FeedEvents(feed, firstRun))
    {
      if feed.Some? {
        RunSplits(View(), if firstRun then [Grow(feed.value.itemCount)] else [], ItemEvents(feed.value.visits));
        if firstRun {
          maxBucketItems := (maxBucketItems + feed.value.itemCount) % U16;
        }
        ProcessRSSList(feed.value.visits);
      }
    }

    /** The polling loop of `main`: a run of the specification, event for event. */
    method Poll(passes: seq<seq<Option<Feed>>>, once: bool)
      requires Valid() && forall feeds, f :: feeds in passes && f in feeds ==> FeedFits(f)
      modifies this, downloads, Members(downloads.nodes)`next, Members(downloads.nodes)`freed
      ensures Valid()
      ensures forall x :: x in Members(downloads.nodes) - old(Members(downloads.nodes)) ==> fresh(x)
      ensures View() == Run(old(View()), PollEvents(passes, true, once))
    {
      hide Valid, Run, Members;
      ghost var s, before := View(), Members(downloads.nodes);
      var firstRun := true;
      var i := 0;
      while i < |passes|
        invariant 0 <= i <= |passes| && Valid()
        invariant forall x :: x in Members(downloads.nodes) - before ==> fresh(x)
        invariant Run(View(), PollEvents(passes[i..], firstRun, once)) == Run(s, PollEvents(passes, true, once))
      {
        assert passes[i..][1..] == passes[i + 1..];
        RunSplits(View(), PassEvents(passes[i], firstRun),
                  if once then [] else PollEvents(passes[i + 1..], false, once));
        ghost var between := Members(downloads.nodes);
        assert between <= before + (between - before);
        label L:
        OnePass(passes[i], firstRun);
        forall x | x in Members(downloads.nodes) - before
          ensures fresh(x)
        {
          assert x in between - before || x in Members(downloads.nodes) - between;
          assert x in Members(downloads.nodes) - between ==> fresh@L(x);
        }
        firstRun := false;
        RunNothing(View(), firstRun, once);
        if once {
          return;
        }
        i := i + 1;
      }
      RunNothing(View(), firstRun, once);
    }

    method OnePass(feeds: seq<Option<Feed>>, firstRun: bool)
      requires Valid() && forall f :: f in feeds ==> FeedFits(f)
      modifies this, downloads, Members(downloads.nodes)`next, Members(downloads.nodes)`freed
      ensures Valid()
      ensures forall x :: x in Members(downloads.nodes) - old(Members(downloads.nodes)) ==> fresh(x)
      ensures View() == Run(old(View()), PassEvents(feeds, firstRun))
    {
      hide Valid, Run, Members;
      ghost var s, before := View(), Members(downloads.nodes);
      var i := 0;
      while i < |feeds|
        invariant 0 <= i <= |feeds| && Valid()
        invariant forall x :: x in Members(downloads.nodes) - before ==> fresh(x)
        invariant Run(View(), PassEvents(feeds[i..], firstRun)) == Run(s, PassEvents(feeds, firstRun))
      {
        assert feeds[i..][1..] == feeds[i + 1..];
        RunSplits(View(), FeedEvents(feeds[i], firstRun), PassEvents(feeds[i + 1..], firstRun));
        ghost var between := Members(downloads.nodes);
        assert between <= before + (between - before);
        label L:
        ProcessFeed(feeds[i], firstRun);
        forall x | x in Members(downloads.nodes) - before
          ensures fresh(x)
        {
          assert x in between - before || x in Members(downloads.nodes) - between;
          assert x in Members(downloads.nodes) - between ==> fresh@L(x);
        }
        i := i + 1;
      }
      RunNothing(View(), firstRun, false);
    }

    /** `shutdown_daemon`, as far as the state file goes. */
    method Shutdown(canOpen: bool, writes: nat)
      requires Valid()
      modifies this`file
      ensures Valid() && View() == Step(old(View()), Stop(canOpen, writes))
    {
      if bucketChanged {
        var _, saved := SaveState(file, downloads, canOpen, writes);
        file := saved;
      }
    }
  }

  lemma ParsedFits(file: string)
    ensures forall u :: u in Parsed(file) ==> Fits(u)
  {
    hide Parsed;
    ParsedIsStorable(file);
  }

  lemma BucketedFits(bucket: seq<string>, url: string, max: int, kept: bool)
    requires Fits(url) && forall u :: u in bucket ==> Fits(u)
    ensures forall u :: u in Bucketed(bucket, url, max, kept) ==> Fits(u)
  {
  }
}
