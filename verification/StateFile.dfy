/** The bucket on disk: one URL a line, read back in chunks of at most 299 characters. */
module StateFile {
  import opened List
  import opened Basics

  const MAX_LINE_LEN: nat := 300
  const MIN_LINE: nat := 20

  // ----- printing

  function Printed(items: seq<string>): string {
    if items == [] then "" else items[0] + "\n" + Printed(items[1..])
  }

  /** `save_state`, as far as the file goes: `canOpen` and `writes` tell whether the file can be opened
      and how many lines can be written to it. The line buffer holds 301 characters. */
  method SaveState(file: string, downloads: SimpleList, canOpen: bool, writes: nat) returns (rc: int, saved: string)
    requires downloads.Valid()
    requires forall u :: u in downloads.items ==> |u| + 2 <= MAX_LINE_LEN + 1
    ensures !canOpen ==> rc == -1 && saved == file
    ensures canOpen ==> rc == (if writes >= |downloads.items| then 0 else -1)
    ensures canOpen && rc == 0 ==> saved == Printed(downloads.items)
    ensures canOpen && rc == -1 ==> writes < |downloads.items| && saved == Printed(downloads.items[..writes])
  {
    if !canOpen {
      return -1, file;
    }
    saved := "";
    var left := writes;
    var current := downloads.head;
    ghost var i := 0;
    ghost var all := downloads.items;
    while current != null
      invariant 0 <= i <= |all| && left == writes - i && current == if i == |all| then null else downloads.nodes[i]
      invariant saved == Printed(all[..i])
      decreases |all| - i
    {
      assert downloads.NodeAt(i);
      if left == 0 {
        return -1, saved;
      }
      PrintedGrows(all, i);
      saved := saved + (current.data + "\n");
      left := left - 1;
      current := current.next;
      i := i + 1;
    }
    assert all[..i] == all;
    return 0, saved;
  }

  lemma {:induction false} PrintedGrows(s: seq<string>, i: nat)
    requires i < |s|
    ensures Printed(s[..i + 1]) == Printed(s[..i]) + (s[i] + "\n")
  {
    if i == 0 {
      assert s[..1][1..] == [] && s[..0] == [];
    } else {
      PrintedGrows(s[1..], i - 1);
      assert s[..i + 1][1..] == s[1..][..i] && s[..i][1..] == s[1..][..i - 1];
    }
  }

  // ----- parsing

  /** The length of the first line with its newline, or of all there is. */
  function LineEnd(s: string): (n: nat)
    ensures n <= |s| && (s != "" ==> n > 0)
    ensures forall i :: 0 <= i < n - 1 ==> s[i] != '\n'
    ensures n < |s| ==> n > 0 && s[n - 1] == '\n'
  {
    if s == "" then 0 else if s[0] == '\n' then 1 else 1 + LineEnd(s[1..])
  }

  /** How much one `fgets` takes. */
  function Taken(s: string): (n: nat)
    ensures n <= |s| && n < MAX_LINE_LEN && (s != "" ==> n > 0)
    ensures forall i :: 0 <= i < n - 1 ==> s[i] != '\n'
  {
    if LineEnd(s) < MAX_LINE_LEN then LineEnd(s) else MAX_LINE_LEN - 1
  }

  /** `strlen`: what follows a NUL is not seen. */
  function StrLen(s: string): (n: nat)
    ensures n <= |s| && (forall i :: 0 <= i < n ==> s[i] != '\0') && (n < |s| ==> s[n] == '\0')
  {
    if s == "" || s[0] == '\0' then 0 else 1 + StrLen(s[1..])
  }

  /** The entry a chunk yields, if any: its last character is dropped, whether a newline or not. */
  function Entry(line: string): seq<string> {
    if StrLen(line) > MIN_LINE then [line[..StrLen(line) - 1]] else []
  }

  function Parsed(s: string): seq<string>
    decreases |s|
  {
    if s == "" then [] else Entry(s[..Taken(s)]) + Parsed(s[Taken(s)..])
  }

  /** The entries that get a node: `linked` tells of one after the other whether memory is there, and
      of those behind its end that it is. */
  function Kept(entries: seq<string>, linked: seq<bool>): seq<string>
    decreases |entries|
  {
    if entries == [] then []
    else if linked == [] then entries
    else (if linked[0] then [entries[0]] else []) + Kept(entries[1..], linked[1..])
  }

  function Loaded(file: string, canOpen: bool, linked: seq<bool>): seq<string> {
    if canOpen then Kept(Parsed(file), linked) else []
  }

  /** `load_state`: the entries are appended to the list, if the file can be opened. */
  method LoadState(file: string, canOpen: bool, linked: seq<bool>, downloads: SimpleList) returns (rc: int)
    requires downloads.Valid()
    modifies downloads, Members(downloads.nodes)`next
    ensures downloads.Valid() && rc == (if canOpen then 0 else -1)
    ensures forall x :: x in Members(downloads.nodes) - old(Members(downloads.nodes)) ==> fresh(x)
    ensures downloads.items == old(downloads.items) + Loaded(file, canOpen, linked)
  {
    hide Parsed, Entry, Kept, Taken, SimpleList.Valid, Members;
    if !canOpen {
      return -1;
    }
    ghost var before, was := Members(downloads.nodes), downloads.items;
    var rest, left := file, linked;
    while rest != ""
      invariant downloads.Valid() && forall x :: x in Members(downloads.nodes) - before ==> fresh(x)
      invariant downloads.items + Kept(Parsed(rest), left) == was + Kept(Parsed(file), linked)
      decreases |rest|
    {
      ParsedStep(rest, left);
      ghost var between, items := Members(downloads.nodes), downloads.items;
      assert between <= before + (between - before);
      label L:
      var ok := left == [] || left[0];
      var used := LoadLine(rest[..Taken(rest)], ok, downloads);
      forall x | x in Members(downloads.nodes) - before
        ensures fresh(x)
      {
        assert x in between - before || x in Members(downloads.nodes) - between;
        assert x in Members(downloads.nodes) - between ==> fresh@L(x);
      }
      rest := rest[Taken(rest)..];
      if used && left != [] {
        left := left[1..];
      }
    }
    ParsedNothing(left);
    return 0;
  }

  lemma ParsedStep(s: string, linked: seq<bool>)
    requires s != ""
    ensures 0 < Taken(s) <= |s|
    ensures var e, p := Entry(s[..Taken(s)]), Parsed(s[Taken(s)..]);
      Kept(Parsed(s), linked) ==
      (if linked == [] || linked[0] then e else []) + Kept(p, if e != [] && linked != [] then linked[1..] else linked)
  {
    hide Taken, StrLen;
    var line, p := s[..Taken(s)], Parsed(s[Taken(s)..]);
    var e := Entry(line);
    if e == [] {
      assert e + p == p && [] + Kept(p, linked) == Kept(p, linked);
    } else {
      assert (e + p)[1..] == p && e == [e[0]];
    }
  }

  lemma ParsedNothing(linked: seq<bool>)
    ensures Kept(Parsed(""), linked) == []
  {
  }

  /** The copy of the line is taken to be there: `am_strndup` writes to it unchecked. */
  method LoadLine(line: string, linked: bool, downloads: SimpleList) returns (used: bool)
    requires downloads.Valid()
    modifies downloads, Members(downloads.nodes)`next
    ensures downloads.Valid() && fresh(Members(downloads.nodes) - old(Members(downloads.nodes)))
    ensures downloads.items == old(downloads.items) + (if linked then Entry(line) else [])
    ensures used <==> Entry(line) != []
  {
    var len := StrLen(line);
    used := len > MIN_LINE;
    if used {
      var data := line[..len - 1];
      var _ := downloads.AddToTail(Some(data), linked);
    }
  }

  // ----- laws

  /** An entry that survives a save and a load. */
  predicate Storable(u: string) {
    20 <= |u| < 299 && '\n' !in u && '\0' !in u
  }

  /** Whatever the file, only such entries are read from it. */
  lemma {:induction false} ParsedIsStorable(s: string)
    ensures forall u :: u in Parsed(s) ==> Storable(u)
    decreases |s|
  {
    if s != "" {
      var line := s[..Taken(s)];
      ParsedIsStorable(s[Taken(s)..]);
      forall u | u in Entry(line)
        ensures Storable(u)
      {
        assert forall i :: 0 <= i < |u| ==> u[i] == line[i] == s[i];
      }
    }
  }

  /** Loading loses nothing while memory lasts, and never makes an entry up. */
  lemma {:induction false} KeptIs(entries: seq<string>, linked: seq<bool>)
    ensures false !in linked ==> Kept(entries, linked) == entries
    ensures forall u :: u in Kept(entries, linked) ==> u in entries
  {
    if entries != [] && linked != [] {
      KeptIs(entries[1..], linked[1..]);
      assert linked[0] in linked;
    }
  }

  /** Each entry is kept or lost by its own node. */
  lemma {:induction false} KeptOneByOne(a: seq<string>, b: seq<string>, l: seq<bool>, m: seq<bool>, u: string, ok: bool)
    requires |a| == |l|
    ensures Kept(a + b, l + m) == Kept(a, l) + Kept(b, m)
    ensures Kept([u], [ok]) == if ok then [u] else []
    decreases |a|
  {
    hide Kept;
    KeptFirst([u], [ok]);
    KeptFirst(a, l);
    KeptFirst(a + b, l + m);
    if a == [] {
      assert a + b == b && l + m == m;
    } else {
      assert (a + b)[1..] == a[1..] + b && (l + m)[1..] == l[1..] + m;
      KeptOneByOne(a[1..], b, l[1..], m, u, ok);
    }
  }

  lemma KeptFirst(entries: seq<string>, linked: seq<bool>)
    ensures entries == [] ==> Kept(entries, linked) == []
    ensures entries != [] && linked != [] ==>
      Kept(entries, linked) == (if linked[0] then [entries[0]] else []) + Kept(entries[1..], linked[1..])
    ensures |entries| == 1 && linked != [] ==> Kept(entries, linked) == if linked[0] then entries else []
  {
    if |entries| == 1 {
      assert entries[1..] == [] && entries == [entries[0]];
    }
  }

  /** A longer line is read in pieces of 299 characters, of which the last one is lost each time. */
  lemma LongLineIsCut(u: string, rest: string)
    requires |u| == 299 && '\n' !in u && '\0' !in u
    ensures Parsed(u + rest) == [u[..298]] + Parsed(rest)
  {
    var s := u + rest;
    assert forall i :: 0 <= i < 299 ==> s[i] == u[i];
    assert LineEnd(s) >= 299;
    assert s[..299] == u && s[299..] == rest;
    NoNul(u);
  }

  lemma LineOf(u: string, rest: string)
    requires Storable(u)
    ensures var s := u + "\n" + rest;
      Taken(s) == |u| + 1 && s[..Taken(s)] == u + "\n" && s[Taken(s)..] == rest
    ensures Entry(u + "\n") == [u]
  {
    var s := u + "\n" + rest;
    assert s[|u|] == '\n';
    assert forall i :: 0 <= i < |u| ==> s[i] == u[i];
    assert LineEnd(s) == |u| + 1;
    NoNul(u + "\n");
  }

  lemma NoNul(s: string)
    requires '\0' !in s
    ensures StrLen(s) == |s|
  {
  }

  /** What is saved is what is loaded, in order, exactly when every entry is storable. */
  lemma {:induction false} RoundTrip(items: seq<string>)
    ensures Parsed(Printed(items)) == items <==> forall u :: u in items ==> Storable(u)
  {
    ParsedIsStorable(Printed(items));
    if forall u :: u in items ==> Storable(u) {
      StorableRoundTrip(items);
    }
  }

  /** A short URL does not come back. */
  lemma ShortUrlIsLost()
    ensures Parsed(Printed(["http://a.b"])) == []
  {
    var line := "http://a.b" + "\n";
    assert Printed(["http://a.b"]) == line + "" == line;
    assert forall i :: 0 <= i < 10 ==> line[i] != '\n';
    assert Entry(line[..Taken(line)]) == [];
    ParsedIsStorable(line);
    assert LineEnd(line) == |line|;
    assert line[Taken(line)..] == "";
  }

  lemma {:induction false} StorableRoundTrip(items: seq<string>)
    requires forall u :: u in items ==> Storable(u)
    ensures Parsed(Printed(items)) == items
  {
    if items != [] {
      StorableRoundTrip(items[1..]);
      LineOf(items[0], Printed(items[1..]));
    }
  }
}
