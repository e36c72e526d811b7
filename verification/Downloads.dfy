/** The bucket: a bounded list of what was downloaded, newest first. */
module Downloads {
  import opened List
  import opened Basics

  /** The bucket after `addToBucket`. `am_strdup` makes NULL of an empty string, and nothing is added, nor
      if memory for the node is missing; the bound is enforced all the same. */
  function Bucketed(bucket: seq<string>, url: string, max: int, linked: bool): seq<string> {
    var t := if url == "" || !linked then bucket else [url] + bucket;
    if max > 0 && |t| > max then t[..|t| - 1] else t
  }

  /** `has_been_downloaded` */
  method HasBeenDownloaded(bucket: SimpleList, url: string) returns (found: bool)
    requires bucket.Valid()
    ensures found <==> url in bucket.items
  {
    var p := bucket.head;
    ghost var i := 0;
    while p != null
      invariant 0 <= i <= |bucket.nodes| && p == if i == |bucket.nodes| then null else bucket.nodes[i]
      invariant url !in bucket.items[..i]
      decreases |bucket.nodes| - i
    {
      assert bucket.NodeAt(i);
      if p.data == url {
        return true;
      }
      p := p.next;
      i := i + 1;
    }
    assert bucket.items[..i] == bucket.items;
    return false;
  }

  /** `addToBucket`. The list is never a single node when its last one is removed, so the caller's
      pointer always stays good. */
  method AddToBucket(identifier: string, bucket: SimpleList, maxBucketItems: int, linked: bool) returns (rc: int)
    requires bucket.Valid()
    modifies bucket, Members(bucket.nodes)`next, Members(bucket.nodes)`freed
    ensures bucket.Valid() && rc == 0 && fresh(Members(bucket.nodes) - old(Members(bucket.nodes)))
    ensures bucket.items == Bucketed(old(bucket.items), identifier, maxBucketItems, linked)
  {
    var copy := if identifier == "" then None else Some(identifier);
    var _ := bucket.AddToHead(copy, linked);
    var count := bucket.ListCount();
    if maxBucketItems > 0 && count > maxBucketItems {
      bucket.RemoveLast();
    }
    return 0;
  }

  /** A new URL is in the bucket afterwards exactly when it is not empty and memory was there for its node. */
  lemma BucketedRemembers(bucket: seq<string>, url: string, max: int, linked: bool)
    requires url !in bucket
    ensures url in Bucketed(bucket, url, max, linked) <==> url != "" && linked
  {
    if url != "" && linked {
      var t := [url] + bucket;
      assert Bucketed(bucket, url, max, linked) == t || Bucketed(bucket, url, max, linked) == t[..|t| - 1];
      assert t[0] == url;
      if max > 0 && |t| > max {
        assert t[..|t| - 1][0] == url;
      }
    }
  }

  predicate NoDuplicates(s: seq<string>) {
    forall i, j :: 0 <= i < j < |s| ==> s[i] != s[j]
  }

  /** A new URL keeps the bucket free of duplicates and, if there is a bound, within the bound or the
      length it had. */
  lemma BucketedKeeps(bucket: seq<string>, url: string, max: int, linked: bool)
    requires url !in bucket
    ensures NoDuplicates(bucket) ==> NoDuplicates(Bucketed(bucket, url, max, linked))
    ensures var n := |Bucketed(bucket, url, max, linked)|;
      max > 0 ==> n <= max || n <= |bucket|
  {
  }
}
