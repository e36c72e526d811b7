/** What the polling loop does, told from the feeds and the answers it gets: what is recorded and saved, where
    an entry of the bucket came from, which URLs are looked at, and what the bound grows to. */
module PollingRuns {
  import opened Polling
  import opened StateFile
  import opened Basics

  // ----- one URL

  /** A URL is recorded exactly when a filter matches it, the program is not just listing matches, its file is
      not present, it is not in the bucket, and it was fetched with response 200; otherwise nothing changes.
      It goes in front, unless it is empty or there is no memory for it; the oldest entry goes if the bound is
      exceeded; and the bucket is saved, as many lines of it as can be written. */
  lemma LookDecides(s: State, v: Visit)
    ensures var t := Step(s, Look(v));
      if v.matches && !s.matchOnly && !v.present && v.url !in s.bucket && v.response == Some(200) then
        var b := (if v.url != "" && v.linked then [v.url] else []) + s.bucket;
        && t.bucket == (if s.max > 0 && |b| > s.max then b[..|b| - 1] else b)
        && (v.url != "" && v.linked ==> t.bucket[0] == v.url)
        && t == s.(bucket := t.bucket, changed := true, file := t.file)
        && t.file == if v.canOpen then Printed(t.bucket[..Min(v.writes, |t.bucket|)]) else s.file
      else t == s
  {
    var b := (if v.url != "" && v.linked then [v.url] else []) + s.bucket;
    assert [] + s.bucket == s.bucket;
    SaveWrites(s.file, Step(s, Look(v)).bucket, v.canOpen, v.writes);
  }

  lemma SaveWrites(file: string, bucket: seq<string>, canOpen: bool, writes: nat)
    ensures Saved(file, bucket, canOpen, writes) ==
      if canOpen then Printed(bucket[..Min(writes, |bucket|)]) else file
  {
    assert bucket[..|bucket|] == bucket;
  }

  /** A save that was cut short leaves the newest entries to be read back, if they can be stored; one that
      could not begin, those of the file before. */
  lemma CutShort(file: string, bucket: seq<string>, canOpen: bool, writes: nat)
    requires forall u :: u in bucket ==> Storable(u)
    ensures Parsed(Saved(file, bucket, canOpen, writes)) ==
      if canOpen then bucket[..Min(writes, |bucket|)] else Parsed(file)
  {
    hide Storable, Parsed;
    SaveWrites(file, bucket, canOpen, writes);
    RoundTrip(bucket[..Min(writes, |bucket|)]);
  }

  // ----- where an entry came from

  /** Event `i` is a look at `u` that was answered with a complete download. */
  predicate FetchedAt(events: seq<Event>, i: nat, u: string) {
    && i < |events| && events[i].Look? && events[i].v.url == u
    && events[i].v.matches && !events[i].v.present && events[i].v.response == Some(200)
  }

  /** Event `i` is a restart that finds `u` in the state file. */
  predicate LoadedAt(s: State, events: seq<Event>, i: nat, u: string) {
    i < |events| && events[i].Restart? && u in Parsed(Run(s, events[..i]).file)
  }

  /** Whatever is in the bucket after a run was there before, was downloaded in the run, or was read from the
      state file by a restart. */
  lemma {:induction false} WhereFrom(s: State, events: seq<Event>, u: string)
    requires u in Run(s, events).bucket
    ensures u in s.bucket || (exists i: nat :: FetchedAt(events, i, u)) || (exists i: nat :: LoadedAt(s, events, i, u))
    decreases |events|
  {
    hide Parsed, Saved, Step;
    if events != [] {
      var e, rest := events[0], events[1..];
      var t := Step(s, e);
      WhereFrom(t, rest, u);
      if u in t.bucket {
        if u !in s.bucket {
          OneStep(s, e, u);
          assert e.Look? ==> FetchedAt(events, 0, u);
          assert events[..0] == [];
          assert e.Restart? ==> LoadedAt(s, events, 0, u);
        }
      } else if i: nat :| FetchedAt(rest, i, u) {
        assert FetchedAt(events, i + 1, u);
      } else {
        var i: nat :| LoadedAt(t, rest, i, u);
        assert events[..i + 1][1..] == rest[..i] && events[..i + 1][0] == e;
        assert LoadedAt(s, events, i + 1, u);
      }
    }
  }

  lemma OneStep(s: State, e: Event, u: string)
    requires u in Step(s, e).bucket && u !in s.bucket
    ensures (e.Look? && FetchedAt([e], 0, u)) || (e.Restart? && u in Parsed(s.file))
  {
    hide Parsed, Saved;
    if e.Restart? {
      KeptIs(Parsed(s.file), e.linked);
    } else if e.Look? {
      LookDecides(s, e.v);
    }
  }

  // ----- the loop

  function Flat<T>(s: seq<seq<T>>): seq<T> {
    if s == [] then [] else s[0] + Flat(s[1..])
  }

  lemma {:induction false} FlatBoth<T>(a: seq<seq<T>>, b: seq<seq<T>>)
    ensures Flat(a + b) == Flat(a) + Flat(b)
  {
    if a == [] {
      assert a + b == b;
    } else {
      assert (a + b)[0] == a[0] && (a + b)[1..] == a[1..] + b;
      FlatBoth(a[1..], b);
    }
  }

  /** The URLs looked at, in order. */
  function LookedAt(events: seq<Event>): seq<Visit> {
    if events == [] then [] else (if events[0].Look? then [events[0].v] else []) + LookedAt(events[1..])
  }

  /** What the bound is told to grow by. */
  function GrowsBy(events: seq<Event>): nat {
    if events == [] then 0 else (if events[0].Grow? then events[0].n else 0) + GrowsBy(events[1..])
  }

  lemma {:induction false} EventsBoth(a: seq<Event>, b: seq<Event>)
    ensures LookedAt(a + b) == LookedAt(a) + LookedAt(b) && GrowsBy(a + b) == GrowsBy(a) + GrowsBy(b)
  {
    if a == [] {
      assert a + b == b;
    } else {
      assert (a + b)[0] == a[0] && (a + b)[1..] == a[1..] + b;
      EventsBoth(a[1..], b);
    }
  }

  /** The feeds that could be fetched. */
  function Fetched(feeds: seq<Option<Feed>>): seq<Feed> {
    if feeds == [] then [] else (if feeds[0].Some? then [feeds[0].value] else []) + Fetched(feeds[1..])
  }

  function ItemCounts(feeds: seq<Feed>): nat {
    if feeds == [] then 0 else feeds[0].itemCount + ItemCounts(feeds[1..])
  }

  /** All URLs of all items of the feeds. */
  function UrlsOf(feeds: seq<Feed>): seq<Visit> {
    if feeds == [] then [] else Flat(feeds[0].visits) + UrlsOf(feeds[1..])
  }

  lemma {:induction false} UrlsOfBoth(a: seq<Feed>, b: seq<Feed>)
    ensures UrlsOf(a + b) == UrlsOf(a) + UrlsOf(b)
  {
    if a == [] {
      assert a + b == b;
    } else {
      assert (a + b)[0] == a[0] && (a + b)[1..] == a[1..] + b;
      UrlsOfBoth(a[1..], b);
    }
  }

  lemma {:induction false} FetchedBoth(a: seq<Option<Feed>>, b: seq<Option<Feed>>)
    ensures Fetched(a + b) == Fetched(a) + Fetched(b)
  {
    if a == [] {
      assert a + b == b;
    } else {
      assert (a + b)[0] == a[0] && (a + b)[1..] == a[1..] + b;
      FetchedBoth(a[1..], b);
    }
  }

  lemma {:induction false} LooksAre(visits: seq<Visit>)
    ensures LookedAt(Looks(visits)) == visits && GrowsBy(Looks(visits)) == 0
    ensures forall e :: e in Looks(visits) ==> e.Look?
  {
    if visits != [] {
      LooksAre(visits[1..]);
      EventsBoth([Look(visits[0])], Looks(visits[1..]));
    }
  }

  lemma {:induction false} ItemsAre(items: seq<seq<Visit>>)
    ensures LookedAt(ItemEvents(items)) == Flat(items) && GrowsBy(ItemEvents(items)) == 0
    ensures forall e :: e in ItemEvents(items) ==> e.Look?
  {
    if items != [] {
      LooksAre(items[0]);
      ItemsAre(items[1..]);
      EventsBoth(Looks(items[0]), ItemEvents(items[1..]));
    }
  }

  /** A feed that could be fetched first makes the bound grow, on the first pass, by the number of its items;
      then each of its URLs is looked at, in order. One that could not be fetched does nothing. */
  lemma FeedIs(feed: Option<Feed>, firstRun: bool)
    ensures var events := FeedEvents(feed, firstRun);
      && LookedAt(events) == UrlsOf(Fetched([feed]))
      && GrowsBy(events) == (if firstRun then ItemCounts(Fetched([feed])) else 0)
      && (feed.Some? && firstRun ==> events != [] && events[0] == Grow(feed.value.itemCount))
      && forall i :: (if feed.Some? && firstRun then 1 else 0) <= i < |events| ==> events[i].Look?
  {
    if feed.Some? {
      var looks := ItemEvents(feed.value.visits);
      ItemsAre(feed.value.visits);
      EventsBoth([Grow(feed.value.itemCount)], looks);
      assert [] + looks == looks && [feed.value][1..] == [] && Fetched([feed]) == [feed.value];
    }
  }

  /** A pass is the feeds one after the other. */
  lemma {:induction false} PassSplits(a: seq<Option<Feed>>, b: seq<Option<Feed>>, firstRun: bool)
    ensures PassEvents(a + b, firstRun) == PassEvents(a, firstRun) + PassEvents(b, firstRun)
    ensures |a| == 1 ==> PassEvents(a, firstRun) == FeedEvents(a[0], firstRun)
    decreases |a|
  {
    hide FeedEvents;
    if a == [] {
      assert a + b == b;
    } else {
      assert (a + b)[0] == a[0] && (a + b)[1..] == a[1..] + b;
      PassSplits(a[1..], b, firstRun);
    }
  }

  lemma FetchedFirst(feeds: seq<Option<Feed>>)
    requires feeds != []
    ensures var f, rest := Fetched([feeds[0]]), Fetched(feeds[1..]);
      && UrlsOf(Fetched(feeds)) == UrlsOf(f) + UrlsOf(rest)
      && ItemCounts(Fetched(feeds)) == ItemCounts(f) + ItemCounts(rest)
  {
    var f, rest := Fetched([feeds[0]]), Fetched(feeds[1..]);
    assert [feeds[0]][1..] == [];
    assert f == if feeds[0].Some? then [feeds[0].value] else [];
    UrlsOfBoth(f, rest);
    assert f == [] ==> f + rest == rest;
    assert f != [] ==> f[1..] == [] && (f + rest)[1..] == rest;
  }

  lemma {:induction false} PassIs(feeds: seq<Option<Feed>>, firstRun: bool)
    ensures var events := PassEvents(feeds, firstRun);
      && LookedAt(events) == UrlsOf(Fetched(feeds))
      && GrowsBy(events) == if firstRun then ItemCounts(Fetched(feeds)) else 0
  {
    if feeds != [] {
      var rest := PassEvents(feeds[1..], firstRun);
      PassIs(feeds[1..], firstRun);
      FeedIs(feeds[0], firstRun);
      EventsBoth(FeedEvents(feeds[0], firstRun), rest);
      FetchedFirst(feeds);
    }
  }

  /** The passes that are made. */
  function Made<T>(passes: seq<T>, once: bool): seq<T> {
    if once && |passes| > 1 then passes[..1] else passes
  }

  /** The loop looks at every URL of every feed it could fetch, in order, pass after pass, and the bound grows
      by the items of the first pass alone. */
  lemma {:induction false} PollIs(passes: seq<seq<Option<Feed>>>, firstRun: bool, once: bool)
    ensures var events := PollEvents(passes, firstRun, once);
      && LookedAt(events) == UrlsOf(Fetched(Flat(Made(passes, once))))
      && GrowsBy(events) == if firstRun && passes != [] then ItemCounts(Fetched(passes[0])) else 0
    decreases |passes|
  {
    if passes != [] {
      PassIs(passes[0], firstRun);
      var rest := if once then [] else PollEvents(passes[1..], false, once);
      PollIs(passes[1..], false, once);
      EventsBoth(PassEvents(passes[0], firstRun), rest);
      if once {
        assert Made(passes, once) == [passes[0]] && Flat([passes[0]]) == passes[0];
      } else {
        FetchedBoth(passes[0], Flat(passes[1..]));
        UrlsOfBoth(Fetched(passes[0]), Fetched(Flat(passes[1..])));
      }
    }
  }

  /** Without restarts the bound is what it was, and all it is told to grow by, in 16 bits. */
  lemma {:induction false} BoundGrows(s: State, events: seq<Event>)
    requires s.max < 65536 && forall e :: e in events ==> !e.Restart?
    ensures Run(s, events).max == (s.max + GrowsBy(events)) % 65536
    decreases |events|
  {
    hide Step;
    if events != [] {
      BoundStep(s, events[0]);
      BoundGrows(Step(s, events[0]), events[1..]);
      Wraps(s.max, GrowsBy([events[0]]), GrowsBy(events[1..]));
      EventsBoth([events[0]], events[1..]);
      assert [events[0]] + events[1..] == events;
    }
  }

  lemma BoundStep(s: State, e: Event)
    requires s.max < 65536 && !e.Restart?
    ensures Step(s, e).max == (s.max + GrowsBy([e])) % 65536
  {
    hide Added, Saved, Succeeds;
    assert [e][1..] == [];
  }

  lemma Wraps(m: nat, a: nat, b: nat)
    ensures ((m + a) % 65536 + b) % 65536 == (m + (a + b)) % 65536
  {
  }

  lemma {:induction false} NoRestarts(passes: seq<seq<Option<Feed>>>, firstRun: bool, once: bool)
    ensures forall e :: e in PollEvents(passes, firstRun, once) ==> e.Look? || e.Grow?
    decreases |passes|
  {
    if passes != [] {
      NoRestartsInPass(passes[0], firstRun);
      NoRestarts(passes[1..], false, once);
    }
  }

  lemma {:induction false} NoRestartsInPass(feeds: seq<Option<Feed>>, firstRun: bool)
    ensures forall e :: e in PassEvents(feeds, firstRun) ==> e.Look? || e.Grow?
  {
    if feeds != [] {
      FeedIs(feeds[0], firstRun);
      NoRestartsInPass(feeds[1..], firstRun);
    }
  }

  /** After any number of passes the bound is the configured one and the items of the first pass. */
  lemma PollBound(s: State, passes: seq<seq<Option<Feed>>>, once: bool)
    requires s.max < 65536
    ensures Run(s, PollEvents(passes, true, once)).max ==
      (s.max + if passes == [] then 0 else ItemCounts(Fetched(passes[0]))) % 65536
  {
    NoRestarts(passes, true, once);
    PollIs(passes, true, once);
    BoundGrows(s, PollEvents(passes, true, once));
  }
}
