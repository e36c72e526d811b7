/** Percent-encoding (sections 2.1 and 2.3 of RFC 3986, with '+' for a space). A C string is its characters
    followed by one NUL, so that an index into it can never lie behind the NUL. */
module UrlCode {

  const NUL: bv8 := 0
  const SPACE: bv8 := 32
  const PERCENT: bv8 := 37
  const PLUS: bv8 := 43

  predicate IsDigit(c: bv8) { 48 <= c <= 57 }

  predicate IsUpper(c: bv8) { 65 <= c <= 90 }

  predicate IsLower(c: bv8) { 97 <= c <= 122 }

  /** The characters `url_encode` leaves alone, with `isalnum` of the C locale: '-', '_', '.' and '~' besides. */
  predicate Unreserved(c: bv8) {
    IsDigit(c) || IsUpper(c) || IsLower(c) || c == 45 || c == 95 || c == 46 || c == 126
  }

  function ToLower(c: bv8): bv8 { if IsUpper(c) then c + 32 else c }

  /** `from_hex`; for no hexadecimal digit the subtraction wraps. */
  function FromHex(c: bv8): bv8 {
    if IsDigit(c) then c - 48 else ToLower(c) - 97 + 10
  }

  /** `to_hex`: the symbols are '0' to '9' and 'a' to 'f'. */
  function ToHex(code: bv8): bv8 {
    if code & 15 < 10 then 48 + (code & 15) else 87 + (code & 15)
  }

  function FromPair(high: bv8, low: bv8): bv8 { (FromHex(high) << 4) | FromHex(low) }

  function Escape(c: bv8): (e: seq<bv8>)
    ensures |e| == 3 && e[0] == PERCENT
  {
    [PERCENT, ToHex(c >> 4), ToHex(c & 15)]
  }

  lemma PairOfEscape(c: bv8)
    ensures FromPair(ToHex(c >> 4), ToHex(c & 15)) == c
  {
    NibbleBack(c >> 4);
    NibbleBack(c & 15);
  }

  lemma NibbleBack(n: bv8)
    requires n <= 15
    ensures FromHex(ToHex(n)) == n
  {
  }

  // ----- the specification

  function Symbol(c: bv8): (e: seq<bv8>)
    ensures 0 < |e| <= 3
  {
    if Unreserved(c) then [c] else if c == SPACE then [PLUS] else Escape(c)
  }

  function Encoded(s: seq<bv8>): seq<bv8> {
    if s == [] then [] else Symbol(s[0]) + Encoded(s[1..])
  }

  function Spaced(c: bv8): (e: seq<bv8>)
    ensures 0 < |e| <= 3
  {
    if c == SPACE then Escape(SPACE) else [c]
  }

  function SpaceEncoded(s: seq<bv8>): seq<bv8> {
    if s == [] then [] else Spaced(s[0]) + SpaceEncoded(s[1..])
  }

  /** A '%' with fewer than two characters behind it is dropped. */
  function Decoded(s: seq<bv8>): seq<bv8> {
    if s == [] then []
    else if s[0] == PERCENT then
      if |s| > 2 then [FromPair(s[1], s[2])] + Decoded(s[3..]) else Decoded(s[1..])
    else [if s[0] == PLUS then SPACE else s[0]] + Decoded(s[1..])
  }

  // ----- the laws

  /** The number a lower-case hexadecimal digit, or an upper-case one, stands for. */
  function Nibble(h: bv8): bv8 { if h <= 57 then h - 48 else if h <= 70 then h - 55 else h - 87 }

  predicate LowerHex(h: bv8) { 48 <= h <= 57 || 97 <= h <= 102 }

  predicate AnyHex(h: bv8) { LowerHex(h) || 65 <= h <= 70 }

  /** What becomes of one character: letters, digits and "-._~" stay, a space becomes "+", and every other
      character "%" and the two hexadecimal digits of its code. */
  lemma EncodedCharacter(c: bv8)
    ensures Encoded([c]) == Symbol(c)
    ensures var e := Encoded([c]);
      if 48 <= c <= 57 || 65 <= c <= 90 || 97 <= c <= 122 || c in {45, 46, 95, 126} then e == [c]
      else if c == 32 then e == [43]
      else |e| == 3 && e[0] == 37 && LowerHex(e[1]) && LowerHex(e[2]) && (Nibble(e[1]) << 4) | Nibble(e[2]) == c
    ensures SpaceEncoded([c]) == if c == 32 then [37, 50, 48] else [c]
  {
    HexOf(c);
    assert [c][1..] == [];
  }

  lemma HexOf(c: bv8)
    ensures var h, l := ToHex(c >> 4), ToHex(c & 15);
      LowerHex(h) && LowerHex(l) && (Nibble(h) << 4) | Nibble(l) == c
  {
  }

  /** And of a string: that of each of its characters. */
  lemma {:induction false} EncodedBoth(s: seq<bv8>, t: seq<bv8>)
    ensures Encoded(s + t) == Encoded(s) + Encoded(t)
    ensures SpaceEncoded(s + t) == SpaceEncoded(s) + SpaceEncoded(t)
    decreases |s|
  {
    hide Symbol, Spaced;
    if s == [] {
      assert s + t == t;
    } else {
      assert (s + t)[0] == s[0] && (s + t)[1..] == s[1..] + t;
      EncodedBoth(s[1..], t);
    }
  }

  /** What decoding makes of what comes first: an escape, in either case of its digits, becomes the character
      it stands for, "+" a space, "%" with fewer than two characters behind it nothing, and others stay. */
  lemma DecodedFirst(c: bv8, h: bv8, l: bv8, rest: seq<bv8>)
    ensures AnyHex(h) && AnyHex(l) ==> Decoded([37, h, l] + rest) == [(Nibble(h) << 4) | Nibble(l)] + Decoded(rest)
    ensures c != 37 ==> Decoded([c] + rest) == [if c == 43 then 32 else c] + Decoded(rest)
    ensures Decoded([37]) == [] && Decoded([37, c]) == Decoded([c]) && Decoded([]) == []
  {
    assert ([c] + rest)[1..] == rest && ([37, h, l] + rest)[3..] == rest && [37, c][1..] == [c] && [37][1..] == [];
    if AnyHex(h) && AnyHex(l) {
      PairIs(h, l);
    }
  }

  lemma PairIs(h: bv8, l: bv8)
    requires AnyHex(h) && AnyHex(l)
    ensures FromPair(h, l) == (Nibble(h) << 4) | Nibble(l)
  {
    DigitIs(h);
    DigitIs(l);
  }

  lemma DigitIs(h: bv8)
    requires AnyHex(h)
    ensures FromHex(h) == Nibble(h)
  {
  }

  /** Decoding undoes encoding, for every string. */
  lemma {:induction false} DecodeEncode(s: seq<bv8>)
    ensures Decoded(Encoded(s)) == s
  {
    if s != [] {
      DecodeEncode(s[1..]);
      SymbolBack(s[0], Encoded(s[1..]));
    }
  }

  lemma SymbolBack(c: bv8, rest: seq<bv8>)
    ensures Decoded(Symbol(c) + rest) == [c] + Decoded(rest)
  {
    hide FromPair, ToHex;
    PairOfEscape(c);
    assert (Symbol(c) + rest)[|Symbol(c)|..] == rest;
  }

  /** ALPHA, DIGIT, "-", ".", "_", "~" of RFC 3986, and "%" and "+". */
  predicate Sendable(c: bv8) {
    48 <= c <= 57 || 65 <= c <= 90 || 97 <= c <= 122 || c in {45, 46, 95, 126, 37, 43}
  }

  /** Only unreserved characters, '%' and '+' come out, hence no NUL: the result is one C string. */
  lemma {:induction false} EncodedIsSendable(s: seq<bv8>)
    ensures forall c :: c in Encoded(s) ==> Sendable(c) && c != NUL
  {
    if s != [] {
      EncodedIsSendable(s[1..]);
      ToHexIsSendable(s[0] >> 4);
      ToHexIsSendable(s[0] & 15);
    }
  }

  lemma ToHexIsSendable(n: bv8)
    ensures Sendable(ToHex(n)) && ToHex(n) != NUL
  {
  }

  /** The characters of `s` that take three. */
  function Escapes(s: seq<bv8>): nat {
    if s == [] then 0 else (if Unreserved(s[0]) || s[0] == SPACE then 0 else 1) + Escapes(s[1..])
  }

  lemma {:induction false} EncodedLength(s: seq<bv8>)
    ensures |Encoded(s)| == |s| + 2 * Escapes(s) <= 3 * |s|
  {
    hide Unreserved, ToHex;
    if s != [] {
      EncodedLength(s[1..]);
    }
  }

  lemma {:induction false} SpaceEncodedLength(s: seq<bv8>)
    ensures |s| <= |SpaceEncoded(s)| <= 3 * |s|
    ensures NUL !in s ==> NUL !in SpaceEncoded(s)
  {
    if s != [] {
      SpaceEncodedLength(s[1..]);
      ToHexIsSendable(SPACE >> 4);
      ToHexIsSendable(SPACE & 15);
    }
  }

  lemma {:induction false} DecodedLength(s: seq<bv8>)
    ensures |Decoded(s)| <= |s|
    decreases |s|
  {
    if s != [] {
      if s[0] == PERCENT && |s| > 2 {
        DecodedLength(s[3..]);
      } else {
        DecodedLength(s[1..]);
      }
    }
  }

  /** Decoding undoes the encoding of spaces alone exactly on the strings without '%' and '+'. */
  lemma {:induction false} DecodeSpaceEncode(s: seq<bv8>)
    ensures Decoded(SpaceEncoded(s)) == s <==> PERCENT !in s && PLUS !in s
  {
    hide FromPair, ToHex;
    if s != [] {
      var rest := SpaceEncoded(s[1..]);
      if s[0] == PERCENT {
        PercentIsLost(s);
      } else {
        DecodeSpaceEncode(s[1..]);
        PairOfEscape(SPACE);
        assert SpaceEncoded(s)[|Spaced(s[0])|..] == rest;
        assert Decoded(SpaceEncoded(s)) == [if s[0] == PLUS then SPACE else s[0]] + Decoded(rest);
        assert Decoded(SpaceEncoded(s)) == s <==> s[0] != PLUS && Decoded(rest) == s[1..] by {
          assert s == [s[0]] + s[1..];
          assert ([s[0]] + Decoded(rest))[1..] == Decoded(rest);
        }
      }
    }
  }

  /** A plus sign becomes a space, and "%41" the letter it stands for. */
  lemma SpaceEncodeFails()
    ensures Decoded(SpaceEncoded([PLUS])) == [SPACE]
    ensures Decoded(SpaceEncoded([PERCENT, 52, 49])) == [65]
  {
    var s: seq<bv8> := [PERCENT, 52, 49];
    assert s[1..] == [52, 49] && s[1..][1..] == [49] && s[1..][1..][1..] == [];
    assert SpaceEncoded(s[1..][1..]) == [49];
    assert SpaceEncoded(s[1..]) == [52, 49];
    assert SpaceEncoded(s) == s;
    assert Decoded(s) == [FromPair(s[1], s[2])] + Decoded(s[3..]);
  }

  lemma PercentIsLost(s: seq<bv8>)
    requires s != [] && s[0] == PERCENT
    ensures Decoded(SpaceEncoded(s)) != s
  {
    hide FromPair, ToHex;
    EscapeOfSpace();
    var w := SpaceEncoded(s);
    assert w == [PERCENT] + SpaceEncoded(s[1..]);
    if |s| == 1 {
    } else if s[1] == SPACE {
      AfterSpace(s);
    } else if |s| == 2 {
      assert s[1..][1..] == [] && SpaceEncoded(s[1..]) == [s[1]];
      DecodedLength(w[1..]);
    } else if s[2] == SPACE {
      AfterCharAndSpace(s);
    } else {
      AfterTwo(s);
      NoLongerThan(s[3..]);
    }
  }

  lemma EscapeOfSpace()
    ensures Escape(SPACE) == [PERCENT, 50, 48]
  {
  }

  lemma PlainCharacter(c: bv8, rest: seq<bv8>)
    requires c != PERCENT && c != PLUS
    ensures Decoded([c] + rest) == [c] + Decoded(rest)
  {
    assert ([c] + rest)[1..] == rest;
  }

  /** A '%' eats the '%' and '2' of a space behind it and leaves its '0'. */
  lemma AfterSpace(s: seq<bv8>)
    requires |s| > 1 && s[0] == PERCENT && s[1] == SPACE
    ensures var d, t := Decoded(SpaceEncoded(s)), SpaceEncoded(s[2..]); |d| == 2 + |Decoded(t)| && d[1] == 48
  {
    hide FromPair, ToHex;
    EscapeOfSpace();
    var w, t := SpaceEncoded(s), SpaceEncoded(s[2..]);
    assert s[1..][1..] == s[2..];
    assert SpaceEncoded(s[1..]) == Escape(SPACE) + t;
    assert w == [PERCENT] + SpaceEncoded(s[1..]);
    assert w == [PERCENT, PERCENT, 50, 48] + t;
    assert w[3..] == [48] + t;
    PlainCharacter(48, t);
  }

  /** A '%' and two characters that are no spaces become one character. */
  lemma AfterTwo(s: seq<bv8>)
    requires |s| > 2 && s[0] == PERCENT && s[1] != SPACE && s[2] != SPACE
    ensures |Decoded(SpaceEncoded(s))| == 1 + |Decoded(SpaceEncoded(s[3..]))|
  {
    hide FromPair, Escape;
    var w, t := SpaceEncoded(s), SpaceEncoded(s[3..]);
    assert s[1..][1..] == s[2..] && s[2..][1..] == s[3..];
    assert SpaceEncoded(s[2..]) == [s[2]] + t;
    assert SpaceEncoded(s[1..]) == [s[1]] + SpaceEncoded(s[2..]);
    assert w == [PERCENT] + SpaceEncoded(s[1..]);
    assert w == [PERCENT, s[1], s[2]] + t;
    assert w[3..] == t;
    assert Decoded(w) == [FromPair(w[1], w[2])] + Decoded(w[3..]);
  }

  lemma AfterCharAndSpace(s: seq<bv8>)
    requires |s| > 2 && s[0] == PERCENT && s[1] != SPACE && s[2] == SPACE
    ensures var d, t := Decoded(SpaceEncoded(s)), SpaceEncoded(s[3..]); |d| == 3 + |Decoded(t)| && d[2] == 48
  {
    hide FromPair, Escape;
    EscapeOfSpace();
    var w, t := SpaceEncoded(s), SpaceEncoded(s[3..]);
    assert s[1..][1..] == s[2..] && s[2..][1..] == s[3..];
    assert SpaceEncoded(s[2..]) == Escape(SPACE) + t;
    assert SpaceEncoded(s[1..]) == [s[1]] + SpaceEncoded(s[2..]);
    assert w == [PERCENT] + SpaceEncoded(s[1..]);
    assert w == [PERCENT, s[1], PERCENT, 50, 48] + t;
    assert w[3..] == [50] + ([48] + t);
    PlainCharacter(48, t);
    PlainCharacter(50, [48] + t);
    assert Decoded(w) == [FromPair(w[1], w[2])] + Decoded(w[3..]);
  }

  lemma {:induction false} NoLongerThan(s: seq<bv8>)
    ensures |Decoded(SpaceEncoded(s))| <= |s|
    decreases |s|
  {
    hide FromPair, ToHex;
    if s != [] {
      EscapeOfSpace();
      var w := SpaceEncoded(s);
      if s[0] != PERCENT {
        NoLongerThan(s[1..]);
        assert w[|Spaced(s[0])|..] == SpaceEncoded(s[1..]);
      } else if |s| > 1 && s[1] == SPACE {
        AfterSpace(s);
        NoLongerThan(s[2..]);
      } else if |s| > 2 && s[2] == SPACE {
        AfterCharAndSpace(s);
        NoLongerThan(s[3..]);
      } else if |s| > 2 {
        AfterTwo(s);
        NoLongerThan(s[3..]);
      } else {
        DecodedLength(w);
      }
    }
  }

  // ----- the code

  predicate IsCString(str: seq<bv8>) {
    str != [] && str[|str| - 1] == NUL && NUL !in str[..|str| - 1]
  }

  function Text(str: seq<bv8>): seq<bv8>
    requires IsCString(str)
  {
    str[..|str| - 1]
  }

  /** Where the walk along `str` stands: what is written, and the rest to come, make the whole. */
  lemma NextSymbol(s: seq<bv8>, k: nat)
    requires k < |s|
    ensures Encoded(s[k..]) == Symbol(s[k]) + Encoded(s[k + 1..])
    ensures SpaceEncoded(s[k..]) == Spaced(s[k]) + SpaceEncoded(s[k + 1..])
  {
    assert s[k..][1..] == s[k + 1..];
  }

  lemma SymbolIs(c: bv8)
    ensures Symbol(c) == if Unreserved(c) then [c] else if c == SPACE then [PLUS] else Escape(c)
  {
  }

  lemma SpacedIs(c: bv8)
    ensures Spaced(c) == if c == SPACE then Escape(SPACE) else [c]
  {
  }

  method Put(buf: array<bv8>, at: nat, e: seq<bv8>) returns (next: nat)
    requires at + |e| <= buf.Length
    modifies buf
    ensures next == at + |e| && buf[..next] == old(buf[..at]) + e
  {
    for i := 0 to |e|
      invariant buf[..at + i] == old(buf[..at]) + e[..i]
    {
      buf[at + i] := e[i];
    }
    next := at + |e|;
  }

  /** `url_encode` */
  method Encode(str: seq<bv8>) returns (buf: array<bv8>)
    requires IsCString(str)
    ensures fresh(buf) && buf.Length == 3 * (|str| - 1) + 1
    ensures var e := Encoded(Text(str));
      |e| < buf.Length && buf[..|e|] == e && buf[|e|] == NUL && IsCString(buf[..|e| + 1])
  {
    hide Encoded, Escape, Unreserved, Sendable, Symbol, SpaceEncoded, Spaced, IsCString, Text;
    ghost var s := Text(str);
    TextIs(str);
    var length := |str| - 1;
    buf := new bv8[length * 3 + 1];
    var k: nat, n: nat := 0, 0;
    assert s[0..] == s;
    while str[k] != NUL
      invariant k <= length && n <= 3 * k && buf[..n] + Encoded(s[k..]) == Encoded(s)
      decreases length - k
    {
      NextSymbol(s, k);
      SymbolIs(str[k]);
      if Unreserved(str[k]) {
        n := Put(buf, n, [str[k]]);
      } else if str[k] == SPACE {
        n := Put(buf, n, [PLUS]);
      } else {
        n := Put(buf, n, Escape(str[k]));
      }
      k := k + 1;
    }
    NothingLeft(str, k);
    EncodedIsSendable(s);
    buf[n] := NUL;
    assert buf[..n] == Encoded(s) && buf[..n + 1] == buf[..n] + [NUL];
    IsText(buf[..n]);
  }

  lemma IsText(s: seq<bv8>)
    requires NUL !in s
    ensures IsCString(s + [NUL])
  {
  }

  /** The characters of a C string, and its NUL. */
  lemma TextIs(str: seq<bv8>)
    requires IsCString(str)
    ensures |Text(str)| == |str| - 1 && NUL !in Text(str) && str[|str| - 1] == NUL
    ensures forall k :: 0 <= k < |str| - 1 ==> Text(str)[k] == str[k]
  {
  }

  lemma NothingLeft(str: seq<bv8>, k: nat)
    requires IsCString(str) && k < |str| && str[k] == NUL
    ensures k == |str| - 1 && Encoded(Text(str)[k..]) == SpaceEncoded(Text(str)[k..]) == Decoded(Text(str)[k..]) == []
  {
    assert forall i :: 0 <= i < |str| - 1 ==> str[i] == Text(str)[i] && Text(str)[i] in Text(str);
  }

  /** `url_encode_whitespace` */
  method EncodeWhitespace(str: seq<bv8>) returns (buf: array<bv8>)
    requires IsCString(str)
    ensures fresh(buf) && buf.Length == 3 * (|str| - 1) + 1
    ensures var e := SpaceEncoded(Text(str));
      |e| < buf.Length && buf[..|e|] == e && buf[|e|] == NUL && IsCString(buf[..|e| + 1])
  {
    hide Encoded, SpaceEncoded, Escape, Symbol, Spaced, IsCString, Text;
    ghost var s := Text(str);
    TextIs(str);
    var length := |str| - 1;
    buf := new bv8[length * 3 + 1];
    var k: nat, n: nat := 0, 0;
    assert s[0..] == s;
    while str[k] != NUL
      invariant k <= length && n <= 3 * k && buf[..n] + SpaceEncoded(s[k..]) == SpaceEncoded(s)
      decreases length - k
    {
      NextSymbol(s, k);
      SpacedIs(str[k]);
      if str[k] == SPACE {
        n := Put(buf, n, Escape(str[k]));
      } else {
        n := Put(buf, n, [str[k]]);
      }
      k := k + 1;
    }
    NothingLeft(str, k);
    SpaceEncodedLength(s);
    buf[n] := NUL;
    assert buf[..n] == SpaceEncoded(s) && buf[..n + 1] == buf[..n] + [NUL];
    IsText(buf[..n]);
  }

  lemma NextCharacter(s: seq<bv8>, k: nat)
    requires k < |s|
    ensures s[k] == PERCENT && k + 2 < |s| ==> Decoded(s[k..]) == [FromPair(s[k + 1], s[k + 2])] + Decoded(s[k + 3..])
    ensures s[k] == PERCENT && k + 2 >= |s| ==> Decoded(s[k..]) == Decoded(s[k + 1..])
    ensures s[k] != PERCENT ==> Decoded(s[k..]) == [if s[k] == PLUS then SPACE else s[k]] + Decoded(s[k + 1..])
  {
    assert s[k..][1..] == s[k + 1..];
    if k + 2 < |s| {
      assert s[k..][3..] == s[k + 3..];
    }
  }

  /** `url_decode`: the two tests behind a '%' look at the NUL at most. */
  method Decode(str: seq<bv8>) returns (buf: array<bv8>)
    requires IsCString(str)
    ensures fresh(buf) && buf.Length == |str|
    ensures var d := Decoded(Text(str)); |d| < buf.Length && buf[..|d|] == d && buf[|d|] == NUL
  {
    hide Decoded, FromPair, IsCString, Text;
    ghost var s := Text(str);
    TextIs(str);
    var length := |str| - 1;
    buf := new bv8[length + 1];
    var k: nat, n: nat := 0, 0;
    assert s[0..] == s;
    while str[k] != NUL
      invariant n <= k <= length && buf[..n] + Decoded(s[k..]) == Decoded(s)
      decreases length - k
    {
      NextCharacter(s, k);
      if str[k] == PERCENT {
        assert k + 2 < length ==> s[k + 1] == str[k + 1] && s[k + 2] == str[k + 2];
        if str[k + 1] != NUL && str[k + 2] != NUL {
          n := Put(buf, n, [FromPair(str[k + 1], str[k + 2])]);
          k := k + 2;
        }
      } else if str[k] == PLUS {
        n := Put(buf, n, [SPACE]);
      } else {
        n := Put(buf, n, [str[k]]);
      }
      k := k + 1;
    }
    NothingLeft(str, k);
    buf[n] := NUL;
    assert buf[..n] == Decoded(s);
  }
}
