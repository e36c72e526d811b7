/** Base64 (section 4 of RFC 4648). Characters are their ASCII codes; the code's masks and shifts of
    unsigned chars are written as division, remainder and product. */
module Base64 {
  import opened Basics

  type sextet = v: int | 0 <= v < 64

  const PAD: byte := 61

  /** "ABCDEFGHIJKLMNOPQRSTUVWXYZabcdefghijklmnopqrstuvwxyz0123456789+/" */
  const ALPHABET: seq<byte> := Range(65, 26) + Range(97, 26) + Range(48, 10) + [43, 47]

  function Range(first: byte, n: nat): seq<byte>
    requires first + n <= 256
  {
    seq(n, i requires 0 <= i < n => first + i)
  }

  /** `is_base64`, with `isalnum` of the C locale. */
  predicate IsBase64(c: byte) {
    48 <= c <= 57 || 65 <= c <= 90 || 97 <= c <= 122 || c == 43 || c == 47
  }

  /** The sextet a character of the alphabet stands for. */
  function Value(c: byte): sextet
    requires IsBase64(c)
  {
    if 65 <= c <= 90 then c - 65
    else if 97 <= c <= 122 then c - 71
    else if 48 <= c <= 57 then c + 4
    else if c == 43 then 62
    else 63
  }

  lemma SymbolOf(v: sextet)
    ensures IsBase64(ALPHABET[v]) && Value(ALPHABET[v]) == v && ALPHABET[v] != PAD
  {
  }

  lemma ValueOf(c: byte)
    requires IsBase64(c)
    ensures ALPHABET[Value(c)] == c
  {
  }

  /** `find`, stored in an unsigned char: 255 stands for -1. */
  method Find(c: byte) returns (v: byte)
    ensures v == if IsBase64(c) then Value(c) else 255
  {
    for i := 0 to 64
      invariant forall j :: 0 <= j < i ==> ALPHABET[j] != c
    {
      if ALPHABET[i] == c {
        SymbolOf(i);
        return i;
      }
    }
    if IsBase64(c) {
      ValueOf(c);
      assert false;
    }
    return 255;
  }

  // ----- the specification

  function Sextet0(a: byte): sextet { a / 4 }
  function Sextet1(a: byte, b: byte): sextet { a % 4 * 16 + b / 16 }
  function Sextet2(b: byte, c: byte): sextet { b % 16 * 4 + c / 64 }
  function Sextet3(c: byte): sextet { c % 64 }

  function Byte0(p: byte, q: byte): byte { (p * 4 + q / 16 % 4) % 256 }
  function Byte1(q: byte, r: byte): byte { (q % 16 * 16 + r / 4 % 16) % 256 }
  function Byte2(r: byte, s: byte): byte { (r % 4 * 64 + s) % 256 }

  function Encoded(x: seq<byte>): seq<byte> {
    if |x| == 0 then []
    else if |x| == 1 then [ALPHABET[Sextet0(x[0])], ALPHABET[Sextet1(x[0], 0)], PAD, PAD]
    else if |x| == 2 then [ALPHABET[Sextet0(x[0])], ALPHABET[Sextet1(x[0], x[1])], ALPHABET[Sextet2(x[1], 0)], PAD]
    else Quad(x[0], x[1], x[2]) + Encoded(x[3..])
  }

  function Quad(a: byte, b: byte, c: byte): (q: seq<byte>)
    ensures |q| == 4
  {
    [ALPHABET[Sextet0(a)], ALPHABET[Sextet1(a, b)], ALPHABET[Sextet2(b, c)], ALPHABET[Sextet3(c)]]
  }

  /** How many characters of the alphabet `s` begins with. */
  function Prefix(s: seq<byte>): (m: nat)
    ensures m <= |s| && (forall i :: 0 <= i < m ==> IsBase64(s[i])) && (m < |s| ==> !IsBase64(s[m]))
  {
    if s == [] || !IsBase64(s[0]) then 0 else 1 + Prefix(s[1..])
  }

  /** What a run of characters of the alphabet decodes to; one left over gives nothing. */
  function Decoded(t: seq<byte>): seq<byte>
    requires forall c :: c in t ==> IsBase64(c)
  {
    if |t| < 2 then []
    else if |t| == 2 then [Byte0(Value(t[0]), Value(t[1]))]
    else if |t| == 3 then [Byte0(Value(t[0]), Value(t[1])), Byte1(Value(t[1]), Value(t[2]))]
    else Triple(t[0], t[1], t[2], t[3]) + Decoded(t[4..])
  }

  function Triple(a: byte, b: byte, c: byte, d: byte): (t: seq<byte>)
    requires IsBase64(a) && IsBase64(b) && IsBase64(c) && IsBase64(d)
    ensures |t| == 3
  {
    [Byte0(Value(a), Value(b)), Byte1(Value(b), Value(c)), Byte2(Value(c), Value(d))]
  }

  function DecodedText(s: seq<byte>): seq<byte> {
    Decoded(s[..Prefix(s)])
  }

  // ----- the laws

  /** Table 1 of RFC 4648. */
  lemma Alphabet(v: sextet)
    ensures ALPHABET[v] ==
      if v < 26 then 65 + v else if v < 52 then 97 + (v - 26) else if v < 62 then 48 + (v - 52)
      else if v == 62 then 43 else 47
  {
  }

  function Symbol(n: nat): byte
    requires n < 64
  {
    ALPHABET[n]
  }

  /** Three bytes are a number of 24 bits, and its four groups of 6 bits are what is written; one byte or two
      at the end are filled up with zero bits, and with padding. */
  lemma EncodedBits(a: byte, b: byte, c: byte, rest: seq<byte>)
    ensures var n: nat := a * 65536 + b * 256 + c;
      && n / 262144 < 64
      && Encoded([a, b, c] + rest) ==
        [Symbol(n / 262144), Symbol(n / 4096 % 64), Symbol(n / 64 % 64), Symbol(n % 64)] + Encoded(rest)
    ensures var n: nat := (a * 256 + b) * 4;
      n / 4096 < 64 && Encoded([a, b]) == [Symbol(n / 4096), Symbol(n / 64 % 64), Symbol(n % 64), 61]
    ensures var n: nat := a * 16; n / 64 < 64 && Encoded([a]) == [Symbol(n / 64), Symbol(n % 64), 61, 61]
    ensures Encoded([]) == []
  {
    hide Sextet0, Sextet1, Sextet2, Sextet3;
    assert ([a, b, c] + rest)[3..] == rest;
    Bits24(a, b, c);
    Bits18(a, b);
    Bits12(a);
  }

  lemma Bits24(a: byte, b: byte, c: byte)
    ensures var n: nat := a * 65536 + b * 256 + c;
      && n / 262144 == Sextet0(a) && n / 4096 % 64 == Sextet1(a, b)
      && n / 64 % 64 == Sextet2(b, c) && n % 64 == Sextet3(c)
  {
    hide Sextet0, Sextet1, Sextet2, Sextet3;
    SextetsOf(a, b, c);
    Groups(Sextet0(a), Sextet1(a, b), Sextet2(b, c), Sextet3(c));
  }

  lemma Bits18(a: byte, b: byte)
    ensures var n: nat := (a * 256 + b) * 4;
      n / 4096 == Sextet0(a) && n / 64 % 64 == Sextet1(a, b) && n % 64 == Sextet2(b, 0)
  {
    SextetsOf(a, b, 0);
    Groups(0, Sextet0(a), Sextet1(a, b), Sextet2(b, 0));
  }

  lemma Bits12(a: byte)
    ensures var n: nat := a * 16; n / 64 == Sextet0(a) && n % 64 == Sextet1(a, 0)
  {
    SextetsOf(a, 0, 0);
    Groups(0, 0, Sextet0(a), Sextet1(a, 0));
  }

  /** The sextets are the digits of the bytes' number. */
  lemma SextetsOf(a: byte, b: byte, c: byte)
    ensures a * 65536 + b * 256 + c == Sextet0(a) * 262144 + Sextet1(a, b) * 4096 + Sextet2(b, c) * 64 + Sextet3(c)
  {
    assert a == a / 4 * 4 + a % 4 && b == b / 16 * 16 + b % 16 && c == c / 64 * 64 + c % 64;
  }

  lemma Groups(p: sextet, q: sextet, r: sextet, s: sextet)
    ensures var n: nat := p * 262144 + q * 4096 + r * 64 + s;
      n / 262144 == p && n / 4096 == p * 64 + q && n / 4096 % 64 == q && n / 64 == (p * 64 + q) * 64 + r
      && n / 64 % 64 == r && n % 64 == s
  {
    var n: nat := p * 262144 + q * 4096 + r * 64 + s;
    assert n / 64 == (p * 64 + q) * 64 + r;
    assert n / 4096 == p * 64 + q;
  }

  /** Four characters are a number of 24 bits, and its three groups of 8 bits are what is read; of two or
      three at the end the bits that fill no byte are dropped, and one is dropped altogether. */
  lemma DecodedBits(p: byte, q: byte, r: byte, s: byte, rest: seq<byte>)
    requires IsBase64(p) && IsBase64(q) && IsBase64(r) && IsBase64(s) && forall c :: c in rest ==> IsBase64(c)
    ensures var n: nat := Value(p) * 262144 + Value(q) * 4096 + Value(r) * 64 + Value(s);
      n / 65536 < 256 && Decoded([p, q, r, s] + rest) == [n / 65536, n / 256 % 256, n % 256] + Decoded(rest)
    ensures var n: nat := (Value(p) * 64 + Value(q)) * 64 + Value(r);
      n / 1024 < 256 && Decoded([p, q, r]) == [n / 1024, n / 4 % 256]
    ensures var n: nat := Value(p) * 64 + Value(q); n / 16 < 256 && Decoded([p, q]) == [n / 16]
    ensures Decoded([p]) == [] && Decoded([]) == []
  {
    hide Byte0, Byte1, Byte2, Value, IsBase64;
    assert ([p, q, r, s] + rest)[4..] == rest;
    BytesOf24(Value(p), Value(q), Value(r), Value(s));
  }

  lemma BytesOf24(p: sextet, q: sextet, r: sextet, s: sextet)
    ensures var n: nat := p * 262144 + q * 4096 + r * 64 + s;
      n / 65536 == Byte0(p, q) && n / 256 % 256 == Byte1(q, r) && n % 256 == Byte2(r, s)
    ensures var n: nat := (p * 64 + q) * 64 + r; n / 1024 == Byte0(p, q) && n / 4 % 256 == Byte1(q, r)
    ensures (p * 64 + q) / 16 == Byte0(p, q)
  {
    var x, y, z := p * 4 + q / 16, q % 16 * 16 + r / 4, r % 4 * 64 + s;
    BytesAreDigits(p, q, r, s);
    assert p * 262144 + q * 4096 + r * 64 + s == (x * 256 + y) * 256 + z by {
      assert q == q / 16 * 16 + q % 16 && r == r / 4 * 4 + r % 4;
    }
    Octet3(x, y, z);
    assert (p * 64 + q) * 64 + r == (x * 256 + y) * 4 + r % 4 by {
      assert q == q / 16 * 16 + q % 16 && r == r / 4 * 4 + r % 4;
    }
    Octet2(x, y, r % 4);
  }

  lemma BytesAreDigits(p: sextet, q: sextet, r: sextet, s: sextet)
    ensures Byte0(p, q) == p * 4 + q / 16 && Byte1(q, r) == q % 16 * 16 + r / 4 && Byte2(r, s) == r % 4 * 64 + s
  {
    FirstDigit(p, q);
    SecondDigit(q, r);
    ThirdDigit(r, s);
  }

  lemma FirstDigit(p: sextet, q: sextet)
    ensures Byte0(p, q) == p * 4 + q / 16
  {
    assert 0 <= q / 16 < 4;
    Below(q / 16, 4);
    Below(p * 4 + q / 16, 256);
  }

  lemma SecondDigit(q: sextet, r: sextet)
    ensures Byte1(q, r) == q % 16 * 16 + r / 4
  {
    assert 0 <= r / 4 < 16 && 0 <= q % 16 < 16;
    Below(r / 4, 16);
    Below(q % 16 * 16 + r / 4, 256);
  }

  lemma ThirdDigit(r: sextet, s: sextet)
    ensures Byte2(r, s) == r % 4 * 64 + s
  {
    assert 0 <= r % 4 < 4;
    Below(r % 4 * 64 + s, 256);
  }

  lemma Below(x: nat, n: nat)
    requires x < n
    ensures x % n == x
  {
  }

  lemma Octet3(x: byte, y: byte, z: byte)
    ensures var n: nat := (x * 256 + y) * 256 + z; n / 65536 == x && n / 256 % 256 == y && n % 256 == z
  {
    var n: nat := (x * 256 + y) * 256 + z;
    assert n / 256 == x * 256 + y;
  }

  lemma Octet2(x: byte, y: byte, z: nat)
    requires z < 4
    ensures var n: nat := (x * 256 + y) * 4 + z; n / 1024 == x && n / 4 % 256 == y
  {
    var n: nat := (x * 256 + y) * 4 + z;
    assert n / 4 == x * 256 + y;
  }

  lemma {:induction false} EncodedLength(x: seq<byte>)
    ensures |Encoded(x)| == 4 * ((|x| + 2) / 3)
  {
    hide Quad, Sextet0, Sextet1, Sextet2;
    if |x| > 2 {
      EncodedLength(x[3..]);
      assert |Encoded(x)| == 4 + |Encoded(x[3..])|;
    }
  }

  lemma {:induction false} DecodedLength(t: seq<byte>)
    requires forall c :: c in t ==> IsBase64(c)
    ensures |Decoded(t)| == 3 * (|t| / 4) + if |t| % 4 == 0 then 0 else |t| % 4 - 1
  {
    hide Triple, Byte0, Byte1, IsBase64, Value;
    if |t| > 3 {
      DecodedLength(t[4..]);
      assert |Decoded(t)| == 3 + |Decoded(t[4..])|;
    }
  }

  lemma BytesBack(a: byte, b: byte, c: byte)
    ensures Byte0(Sextet0(a), Sextet1(a, b)) == a
    ensures Byte1(Sextet1(a, b), Sextet2(b, c)) == b
    ensures Byte2(Sextet2(b, c), Sextet3(c)) == c
  {
    hide *;
    Byte0Back(a, b);
    Byte1Back(a, b, c);
    Byte2Back(b, c);
  }

  lemma Byte0Back(a: byte, b: byte)
    ensures Byte0(Sextet0(a), Sextet1(a, b)) == a
  {
    Digits16(a % 4, b / 16);
    assert Sextet1(a, b) / 16 == a % 4;
  }

  lemma Byte1Back(a: byte, b: byte, c: byte)
    ensures Byte1(Sextet1(a, b), Sextet2(b, c)) == b
  {
    Digits16(a % 4, b / 16);
    Digits4(b % 16, c / 64);
  }

  lemma Byte2Back(b: byte, c: byte)
    ensures Byte2(Sextet2(b, c), Sextet3(c)) == c
  {
    Digits4(b % 16, c / 64);
  }

  lemma Digits16(high: nat, low: nat)
    requires low < 16
    ensures (high * 16 + low) / 16 == high && (high * 16 + low) % 16 == low
  {
  }

  lemma Digits4(high: nat, low: nat)
    requires low < 4
    ensures (high * 4 + low) / 4 == high && (high * 4 + low) % 4 == low
  {
  }

  lemma SextetsBack(p: sextet, q: sextet, r: sextet, s: sextet)
    ensures var a, b, c := Byte0(p, q), Byte1(q, r), Byte2(r, s);
      && Sextet0(a) == p && Sextet1(a, b) == q && Sextet2(b, c) == r && Sextet3(c) == s
      && (q % 16 == 0 ==> Sextet1(a, 0) == q)
      && (r % 4 == 0 ==> Sextet2(b, 0) == r)
  {
    Sextet1Back(p, q, r);
    Sextet2Back(q, r, s);
  }

  lemma BytesAre(p: sextet, q: sextet, r: sextet, s: sextet)
    ensures Byte0(p, q) == p * 4 + q / 16 && Byte1(q, r) == q % 16 * 16 + r / 4 && Byte2(r, s) == r % 4 * 64 + s
  {
    hide *;
    Byte0Is(p, q);
    Byte1Is(q, r);
    Byte2Is(r, s);
  }

  lemma Byte0Is(p: sextet, q: sextet)
    ensures Byte0(p, q) == p * 4 + q / 16
  {
  }

  lemma Byte1Is(q: sextet, r: sextet)
    ensures Byte1(q, r) == q % 16 * 16 + r / 4
  {
  }

  lemma Byte2Is(r: sextet, s: sextet)
    ensures Byte2(r, s) == r % 4 * 64 + s
  {
  }

  lemma Sextet1Back(p: sextet, q: sextet, r: sextet)
    ensures Sextet0(Byte0(p, q)) == p && Sextet1(Byte0(p, q), Byte1(q, r)) == q
    ensures q % 16 == 0 ==> Sextet1(Byte0(p, q), 0) == q
  {
    hide Byte0, Byte1, Byte2;
    BytesAre(p, q, r, 0);
    Digits4(p, q / 16);
    Digits16(q % 16, r / 4);
  }

  lemma Sextet2Back(q: sextet, r: sextet, s: sextet)
    ensures Sextet2(Byte1(q, r), Byte2(r, s)) == r && Sextet3(Byte2(r, s)) == s
    ensures r % 4 == 0 ==> Sextet2(Byte1(q, r), 0) == r
  {
    hide Byte0, Byte1, Byte2;
    BytesAre(0, q, r, s);
    Digits16(q % 16, r / 4);
    Digits64(r % 4, s);
  }

  lemma Digits64(high: nat, low: nat)
    requires low < 64
    ensures (high * 64 + low) / 64 == high && (high * 64 + low) % 64 == low
  {
  }

  lemma PrefixOf(q: seq<byte>, rest: seq<byte>)
    requires forall c :: c in q ==> IsBase64(c)
    ensures Prefix(q + rest) == |q| + Prefix(rest)
  {
    var s := q + rest;
    var m := Prefix(s);
    assert forall i :: 0 <= i < |q| ==> s[i] == q[i];
    assert m >= |q|;
    PrefixIs(rest, m - |q|, s);
  }

  lemma PrefixIs(rest: seq<byte>, k: int, s: seq<byte>)
    requires 0 <= k <= |rest| <= |s| && s[|s| - |rest|..] == rest
    requires forall i :: 0 <= i < k ==> IsBase64(rest[i])
    requires k < |rest| ==> !IsBase64(rest[k])
    ensures Prefix(rest) == k
  {
  }

  /** Decoding undoes encoding, for one- and two-byte tails as well. */
  lemma {:induction false} DecodeEncode(x: seq<byte>)
    ensures DecodedText(Encoded(x)) == x
  {
    hide Sextet0, Sextet1, Sextet2, Sextet3, Byte0, Byte1, Byte2, IsBase64, Value, DecodedText, Encoded;
    if |x| >= 3 {
      DecodeEncode(x[3..]);
      EncodedLong(x);
      EncodeStep(x[0], x[1], x[2], Encoded(x[3..]));
      BytesBack(x[0], x[1], x[2]);
      assert x == x[..3] + x[3..];
    } else {
      DecodeEncodeShort(x);
    }
  }

  lemma DecodeEncodeShort(x: seq<byte>)
    requires |x| < 3
    ensures DecodedText(Encoded(x)) == x
  {
    hide Encoded, DecodedText;
    EncodesShort(x);
    if |x| == 2 {
      TwoBack(x[0], x[1]);
    } else if |x| == 1 {
      OneBack(x[0]);
    } else {
      NothingBack();
    }
  }

  lemma EncodesShort(x: seq<byte>)
    ensures |x| == 2 ==>
      Encoded(x) == [ALPHABET[Sextet0(x[0])], ALPHABET[Sextet1(x[0], x[1])], ALPHABET[Sextet2(x[1], 0)], PAD]
    ensures |x| == 1 ==> Encoded(x) == [ALPHABET[Sextet0(x[0])], ALPHABET[Sextet1(x[0], 0)], PAD, PAD]
    ensures |x| == 0 ==> Encoded(x) == []
  {
    hide Sextet0, Sextet1, Sextet2, ALPHABET;
  }

  lemma TwoBack(a: byte, b: byte)
    ensures DecodedText([ALPHABET[Sextet0(a)], ALPHABET[Sextet1(a, b)], ALPHABET[Sextet2(b, 0)], PAD]) == [a, b]
  {
    hide Sextet0, Sextet1, Sextet2, Byte0, Byte1, IsBase64, Value, DecodedText;
    SymbolOf(Sextet0(a));
    SymbolOf(Sextet1(a, b));
    SymbolOf(Sextet2(b, 0));
    Byte0Back(a, b);
    Byte1Back(a, b, 0);
    PaddedOnce(ALPHABET[Sextet0(a)], ALPHABET[Sextet1(a, b)], ALPHABET[Sextet2(b, 0)]);
  }

  lemma OneBack(a: byte)
    ensures DecodedText([ALPHABET[Sextet0(a)], ALPHABET[Sextet1(a, 0)], PAD, PAD]) == [a]
  {
    hide Sextet0, Sextet1, Byte0, IsBase64, Value, DecodedText;
    SymbolOf(Sextet0(a));
    SymbolOf(Sextet1(a, 0));
    Byte0Back(a, 0);
    PaddedTwice(ALPHABET[Sextet0(a)], ALPHABET[Sextet1(a, 0)]);
  }

  lemma PaddedOnce(p: byte, q: byte, r: byte)
    requires IsBase64(p) && IsBase64(q) && IsBase64(r)
    ensures DecodedText([p, q, r, PAD]) == [Byte0(Value(p), Value(q)), Byte1(Value(q), Value(r))]
  {
    hide IsBase64, Byte0, Byte1, Value, Prefix;
    TailPrefix([p, q, r, PAD], 3);
    assert [p, q, r, PAD][..3] == [p, q, r];
  }

  lemma PaddedTwice(p: byte, q: byte)
    requires IsBase64(p) && IsBase64(q)
    ensures DecodedText([p, q, PAD, PAD]) == [Byte0(Value(p), Value(q))]
  {
    hide IsBase64, Byte0, Byte1, Value, Prefix;
    TailPrefix([p, q, PAD, PAD], 2);
    assert [p, q, PAD, PAD][..2] == [p, q];
  }

  lemma NothingBack()
    ensures DecodedText([]) == []
  {
  }

  lemma TailPrefix(e: seq<byte>, k: nat)
    requires |e| == 4 && k <= 3 && e[k] == PAD && forall i :: 0 <= i < k ==> IsBase64(e[i])
    ensures Prefix(e) == k
  {
  }

  lemma EncodeStep(a: byte, b: byte, c: byte, rest: seq<byte>)
    ensures var q := Quad(a, b, c);
      && (forall i :: 0 <= i < 4 ==> IsBase64(q[i]))
      && DecodedText(q + rest) == Triple(q[0], q[1], q[2], q[3]) + DecodedText(rest)
      && Value(q[0]) == Sextet0(a) && Value(q[1]) == Sextet1(a, b)
      && Value(q[2]) == Sextet2(b, c) && Value(q[3]) == Sextet3(c)
  {
    var q := Quad(a, b, c);
    SymbolOf(Sextet0(a));
    SymbolOf(Sextet1(a, b));
    SymbolOf(Sextet2(b, c));
    SymbolOf(Sextet3(c));
    DecodeStep(q, rest);
  }

  lemma DecodeStep(q: seq<byte>, rest: seq<byte>)
    requires |q| == 4 && forall i :: 0 <= i < 4 ==> IsBase64(q[i])
    ensures DecodedText(q + rest) == Triple(q[0], q[1], q[2], q[3]) + DecodedText(rest)
  {
    PrefixOf(q, rest);
    var t := (q + rest)[..Prefix(q + rest)];
    assert t == q + rest[..Prefix(rest)] && t[4..] == rest[..Prefix(rest)];
  }

  /** The canonical encodings of section 3.5 of RFC 4648: padded, and without stray bits. */
  predicate Canonical(s: seq<byte>) {
    if s == [] then true
    else if |s| < 4 || !IsBase64(s[0]) || !IsBase64(s[1]) then false
    else if IsBase64(s[2]) && IsBase64(s[3]) then Canonical(s[4..])
    else if |s| != 4 || s[3] != PAD then false
    else if s[2] == PAD then Value(s[1]) % 16 == 0
    else IsBase64(s[2]) && Value(s[2]) % 4 == 0
  }

  /** Encoding undoes decoding exactly on the canonical encodings. */
  lemma {:induction false} EncodeDecode(s: seq<byte>)
    ensures Encoded(DecodedText(s)) == s <==> Canonical(s)
  {
    if Canonical(s) {
      CanonicalBack(s);
    }
    if Encoded(DecodedText(s)) == s {
      EncodedIsCanonical(DecodedText(s));
    }
  }

  lemma {:induction false} EncodedIsCanonical(x: seq<byte>)
    ensures Canonical(Encoded(x))
  {
    if |x| >= 3 {
      EncodedIsCanonical(x[3..]);
      EncodeStep(x[0], x[1], x[2], Encoded(x[3..]));
      assert Encoded(x)[4..] == Encoded(x[3..]);
    } else if |x| == 2 {
      SymbolOf(Sextet0(x[0]));
      SymbolOf(Sextet1(x[0], x[1]));
      SymbolOf(Sextet2(x[1], 0));
    } else if |x| == 1 {
      SymbolOf(Sextet0(x[0]));
      SymbolOf(Sextet1(x[0], 0));
    }
  }

  lemma {:induction false} CanonicalBack(s: seq<byte>)
    requires Canonical(s)
    ensures Encoded(DecodedText(s)) == s
  {
    if s != [] {
      if IsBase64(s[2]) && IsBase64(s[3]) {
        CanonicalBack(s[4..]);
        CanonicalQuad(s);
      } else {
        CanonicalEnd(s);
      }
    }
  }

  lemma CanonicalQuad(s: seq<byte>)
    requires |s| >= 4 && forall i :: 0 <= i < 4 ==> IsBase64(s[i])
    requires Encoded(DecodedText(s[4..])) == s[4..]
    ensures Encoded(DecodedText(s)) == s
  {
    hide Sextet0, Sextet1, Sextet2, Sextet3, Byte0, Byte1, Byte2, IsBase64, Value, Decoded, Encoded, DecodedText;
    SextetsBack(Value(s[0]), Value(s[1]), Value(s[2]), Value(s[3]));
    ValueOf(s[0]);
    ValueOf(s[1]);
    ValueOf(s[2]);
    ValueOf(s[3]);
    DecodeStep(s[..4], s[4..]);
    assert s == s[..4] + s[4..];
    var d := Triple(s[0], s[1], s[2], s[3]);
    EncodedFirst(d[0], d[1], d[2], DecodedText(s[4..]));
    assert d == [d[0], d[1], d[2]];
  }

  lemma EncodedFirst(a: byte, b: byte, c: byte, rest: seq<byte>)
    ensures Encoded([a, b, c] + rest) == Quad(a, b, c) + Encoded(rest)
  {
    assert ([a, b, c] + rest)[3..] == rest;
  }

  lemma CanonicalEnd(s: seq<byte>)
    requires s != [] && Canonical(s) && !(IsBase64(s[2]) && IsBase64(s[3]))
    ensures Encoded(DecodedText(s)) == s
  {
    hide Sextet0, Sextet1, Sextet2, Sextet3, Byte0, Byte1, Byte2, IsBase64, Value;
    ValueOf(s[0]);
    ValueOf(s[1]);
    if s[2] == PAD {
      TailPrefix(s, 2);
      SextetsBack(Value(s[0]), Value(s[1]), 0, 0);
    } else {
      ValueOf(s[2]);
      TailPrefix(s, 3);
      SextetsBack(Value(s[0]), Value(s[1]), Value(s[2]), 0);
    }
  }

  // ----- the code

  const U32: nat := 0x1_0000_0000

  lemma EncodedLong(x: seq<byte>)
    requires |x| >= 3
    ensures Encoded(x) == Quad(x[0], x[1], x[2]) + Encoded(x[3..])
  {
  }

  lemma Slices(x: seq<byte>, n: nat)
    requires 3 <= n <= |x|
    ensures x[..n][3..] == x[3..][..n - 3] && x[n..] == x[3..][n - 3..]
  {
  }

  lemma {:induction false} EncodedGrows(x: seq<byte>, n: nat)
    requires n % 3 == 0 && n + 3 <= |x|
    ensures Encoded(x[..n + 3]) == Encoded(x[..n]) + Quad(x[n], x[n + 1], x[n + 2])
  {
    hide Quad, Encoded;
    EncodedLong(x[..n + 3]);
    Slices(x, n + 3);
    EmptyEncodes();
    if n == 0 {
      assert x[3..][..0] == [] && x[..0] == [];
    } else {
      EncodedLong(x[..n]);
      Slices(x, n);
      EncodedGrows(x[3..], n - 3);
    }
  }

  lemma {:induction false} EncodedTail(x: seq<byte>, n: nat)
    requires n % 3 == 0 && n <= |x|
    ensures Encoded(x) == Encoded(x[..n]) + Encoded(x[n..])
  {
    hide Quad, Encoded;
    EmptyEncodes();
    if n == 0 {
      assert x[0..] == x && x[..0] == [];
    } else {
      EncodedLong(x);
      EncodedLong(x[..n]);
      Slices(x, n);
      EncodedTail(x[3..], n - 3);
    }
  }

  method Put(a: array<byte>, at: nat, data: seq<byte>) returns (next: nat)
    requires at + |data| <= a.Length
    modifies a
    ensures next == at + |data| && a[..next] == old(a[..at]) + data
  {
    for i := 0 to |data|
      invariant a[..at + i] == old(a[..at]) + data[..i]
    {
      a[at + i] := data[i];
    }
    next := at + |data|;
  }

  /** The three-byte buffer, padded with zeros, as four symbols. */
  method Symbols(char3: seq<byte>) returns (s: seq<byte>)
    requires |char3| == 3
    ensures s == Quad(char3[0], char3[1], char3[2])
  {
    var char4 := [char3[0] / 4, char3[0] % 4 * 16 + char3[1] / 16, char3[1] % 16 * 4 + char3[2] / 64, char3[2] % 64];
    s := [ALPHABET[char4[0]], ALPHABET[char4[1]], ALPHABET[char4[2]], ALPHABET[char4[3]]];
  }

  /** The buffer takes the next character of the text. */
  lemma Appended(buffer: seq<byte>, i: nat, s: seq<byte>, done: nat, n: nat)
    requires i < |buffer| && done <= n < |s| && buffer[..i] == s[done..n]
    ensures buffer[i := s[n]][..i + 1] == s[done..n + 1]
  {
    assert buffer[i := s[n]][..i + 1] == buffer[..i] + [s[n]];
  }

  lemma EmptyEncodes()
    ensures Encoded([]) == []
  {
  }

  /** A full buffer is written out as four symbols. */
  method Flush(a: array<byte>, at: nat, char3: seq<byte>) returns (next: nat)
    requires |char3| == 3 && at + 4 <= a.Length
    modifies a
    ensures next == at + 4 && a[..next] == old(a[..at]) + Quad(char3[0], char3[1], char3[2])
  {
    hide *;
    var s := Symbols(char3);
    next := Put(a, at, s);
  }

  lemma EncodedShort(char3: seq<byte>, i: nat)
    requires |char3| == 3 && 0 < i < 3 && forall m :: i <= m < 3 ==> char3[m] == 0
    ensures Encoded(char3[..i]) == Quad(char3[0], char3[1], char3[2])[..i + 1] + seq(3 - i, _ => PAD)
  {
    hide Sextet0, Sextet1, Sextet2, Sextet3, ALPHABET;
  }

  /** A buffer of one or two bytes is filled with zeros; one symbol more than bytes, then padding. */
  method FlushTail(a: array<byte>, at: nat, buffer: seq<byte>, i: nat) returns (next: nat)
    requires |buffer| == 3 && 0 < i < 3 && at + 4 <= a.Length
    modifies a
    ensures next == at + 4 && a[..next] == old(a[..at]) + Encoded(buffer[..i])
  {
    hide *;
    var char3, j := buffer, i;
    while j < 3
      invariant i <= j <= 3 && |char3| == 3 && char3[..i] == buffer[..i]
      invariant forall m :: i <= m < j ==> char3[m] == 0
    {
      char3 := char3[j := 0];
      j := j + 1;
    }
    var s := Symbols(char3);
    EncodedShort(char3, i);
    next := Put(a, at, s[..i + 1]);
    next := Put(a, next, seq(3 - i, _ => PAD));
  }

  /** `base64_encode`: within the allocation, up to and including the final NUL. */
  method Encode(input: seq<byte>) returns (ret: array?<byte>, count: nat)
    requires |input| + 13 < 3 * (U32 / 4)
    ensures input == [] ==> ret == null && count == 0
    ensures input != [] ==>
      && ret != null && fresh(ret) && ret.Length == (|input| + 13) / 3 * 4 < U32
      && count == |Encoded(input)| < ret.Length && ret[..count] == Encoded(input) && ret[count] == 0
  {
    hide *;
    if |input| == 0 {
      return null, 0;
    }
    EncodeRoom(|input|);
    var out := new byte[(|input| + 13) / 3 * 4];
    var char3: seq<byte>, i: nat;
    ghost var done: nat;
    count, char3, i, done := EncodeGroups(input, out);
    EncodedTail(input, 3 * done);
    assert input[3 * done..] == char3[..i];
    if i != 0 {
      count := FlushTail(out, count, char3, i);
    } else {
      EmptyEncodes();
    }
    out[count] := 0;
    ret := out;
  }

  lemma EncodeRoom(n: nat)
    ensures 3 * ((n + 13) / 3 * 4) >= 4 * n + 44
  {
  }

  /** The loop of `base64_encode`: what is left at the end is in the first `i` places of `char3`. */
  method EncodeGroups(input: seq<byte>, out: array<byte>)
    returns (count: nat, char3: seq<byte>, i: nat, ghost done: nat)
    requires 3 * out.Length >= 4 * |input| + 44
    modifies out
    ensures i < 3 && 3 * done + i == |input| && |char3| == 3 && char3[..i] == input[3 * done..]
    ensures count == 4 * done < out.Length && out[..count] == Encoded(input[..3 * done])
  {
    hide *;
    var k := 0;
    i, char3, count, done := 0, [0, 0, 0], 0, 0;
    EmptyEncodes();
    while k < |input|
      invariant 0 <= i < 3 && k == 3 * done + i <= |input| && |char3| == 3
      invariant char3[..i] == input[3 * done..k]
      invariant count == 4 * done && out[..count] == Encoded(input[..3 * done])
    {
      Appended(char3, i, input, 3 * done, k);
      char3 := char3[i := input[k]];
      i, k := i + 1, k + 1;
      if i == 3 {
        EncodedGrows(input, 3 * done);
        assert forall m :: 0 <= m < 3 ==> char3[m] == char3[..3][m];
        count := Flush(out, count, char3);
        i, done := 0, done + 1;
      }
    }
    assert input[3 * done..k] == input[3 * done..];
  }

  /** The allocation of `base64_decode` has room for the result and its NUL. */
  predicate DecodeFits(s: seq<byte>) {
    |DecodedText(s)| + 1 <= 3 * (|s| / 4) + 2
  }

  /** That is so exactly when the text is not a run of the alphabet that is three characters over. */
  lemma DecodeFitsWhen(s: seq<byte>)
    ensures DecodeFits(s) <==> !(|s| % 4 == 3 && forall c :: c in s ==> IsBase64(c))
  {
    hide IsBase64;
    DecodedLength(s[..Prefix(s)]);
    assert Prefix(s) == |s| <==> forall c :: c in s ==> IsBase64(c) by {
      if Prefix(s) < |s| {
        assert s[Prefix(s)] in s;
      }
    }
  }

  /** Three letters are such a text: two bytes and a NUL do not go into two. */
  lemma ThreeLettersDoNotFit()
    ensures !DecodeFits([65, 65, 65])
  {
    DecodeFitsWhen([65, 65, 65]);
  }

  lemma DecodedFirst(t: seq<byte>)
    requires |t| >= 4 && forall c :: c in t ==> IsBase64(c)
    ensures Decoded(t) == Triple(t[0], t[1], t[2], t[3]) + Decoded(t[4..])
  {
  }

  lemma FourOff(t: seq<byte>, n: nat)
    requires 4 <= n <= |t|
    ensures t[..n][4..] == t[4..][..n - 4] && t[n..] == t[4..][n - 4..]
  {
  }

  lemma {:induction false} DecodedGrows(t: seq<byte>, n: nat)
    requires n % 4 == 0 && n + 4 <= |t| && forall c :: c in t ==> IsBase64(c)
    ensures Decoded(t[..n + 4]) == Decoded(t[..n]) + Triple(t[n], t[n + 1], t[n + 2], t[n + 3])
  {
    hide IsBase64, Value, Triple, Decoded;
    DecodedFirst(t[..n + 4]);
    EmptyDecodes();
    if n == 0 {
      assert t[..4][4..] == [] && t[..0] == [];
    } else {
      DecodedFirst(t[..n]);
      FourOff(t, n + 4);
      FourOff(t, n);
      DecodedGrows(t[4..], n - 4);
    }
  }

  lemma {:induction false} DecodedTail(t: seq<byte>, n: nat)
    requires n % 4 == 0 && n <= |t| && forall c :: c in t ==> IsBase64(c)
    ensures Decoded(t) == Decoded(t[..n]) + Decoded(t[n..])
  {
    hide IsBase64, Value, Triple, Decoded;
    EmptyDecodes();
    if n == 0 {
      assert t[0..] == t && t[..0] == [];
    } else {
      DecodedFirst(t);
      DecodedFirst(t[..n]);
      DecodedTail(t[4..], n - 4);
      assert t[..n][4..] == t[4..][..n - 4] && t[4..][n - 4..] == t[n..];
    }
  }

  /** The octets made of four looked-up characters, each in an unsigned char. */
  method Octets(char4: seq<byte>) returns (b: seq<byte>)
    requires |char4| == 4
    ensures |b| == 3
    ensures IsBase64(char4[0]) && IsBase64(char4[1]) ==> b[0] == Byte0(Value(char4[0]), Value(char4[1]))
    ensures IsBase64(char4[1]) && IsBase64(char4[2]) ==> b[1] == Byte1(Value(char4[1]), Value(char4[2]))
    ensures IsBase64(char4[2]) && IsBase64(char4[3]) ==> b[2] == Byte2(Value(char4[2]), Value(char4[3]))
  {
    hide IsBase64, Value;
    var v0 := Find(char4[0]);
    var v1 := Find(char4[1]);
    var v2 := Find(char4[2]);
    var v3 := Find(char4[3]);
    b := [Byte0(v0, v1), Byte1(v1, v2), Byte2(v2, v3)];
  }

  lemma DecodedFull(char4: seq<byte>, b: seq<byte>)
    requires |char4| == 4 && |b| == 3 && forall m :: 0 <= m < 4 ==> IsBase64(char4[m])
    requires b[0] == Byte0(Value(char4[0]), Value(char4[1]))
    requires b[1] == Byte1(Value(char4[1]), Value(char4[2]))
    requires b[2] == Byte2(Value(char4[2]), Value(char4[3]))
    ensures b == Triple(char4[0], char4[1], char4[2], char4[3])
  {
  }

  /** A full buffer is written out as three octets. */
  method Emit(a: array<byte>, at: nat, char4: seq<byte>) returns (next: nat)
    requires |char4| == 4 && at + 3 <= a.Length && forall m :: 0 <= m < 4 ==> IsBase64(char4[m])
    modifies a
    ensures next == at + 3 && a[..next] == old(a[..at]) + Triple(char4[0], char4[1], char4[2], char4[3])
  {
    hide *;
    var b := Octets(char4);
    DecodedFull(char4, b);
    next := Put(a, at, b);
  }

  lemma DecodedShort(t: seq<byte>, char4: seq<byte>, b: seq<byte>)
    requires 0 < |t| < 4 && |char4| == 4 && |b| == 3 && char4[..|t|] == t && forall c :: c in t ==> IsBase64(c)
    requires IsBase64(char4[0]) && IsBase64(char4[1]) ==> b[0] == Byte0(Value(char4[0]), Value(char4[1]))
    requires IsBase64(char4[1]) && IsBase64(char4[2]) ==> b[1] == Byte1(Value(char4[1]), Value(char4[2]))
    ensures Decoded(t) == b[..|t| - 1]
  {
    hide Byte0, Byte1, Byte2, IsBase64, Value;
    assert forall m :: 0 <= m < |t| ==> t[m] == char4[m] && t[m] in t;
    if |t| == 1 {
      assert b[..0] == [];
    } else if |t| == 2 {
      assert b[..1] == [b[0]];
    } else {
      assert b[..2] == [b[0], b[1]];
    }
  }

  /** A buffer of fewer than four is filled with NULs, which `find` does not know; they reach no octet written. */
  method EmitTail(a: array<byte>, at: nat, buffer: seq<byte>, i: nat) returns (next: nat)
    requires |buffer| == 4 && 0 < i < 4 && forall c :: c in buffer[..i] ==> IsBase64(c)
    requires at + |Decoded(buffer[..i])| <= a.Length
    modifies a
    ensures next == at + |Decoded(buffer[..i])| && a[..next] == old(a[..at]) + Decoded(buffer[..i])
  {
    hide *;
    var char4, j := buffer, i;
    while j < 4
      invariant i <= j <= 4 && |char4| == 4 && char4[..i] == buffer[..i]
    {
      char4 := char4[j := 0];
      j := j + 1;
    }
    var b := Octets(char4);
    DecodedShort(buffer[..i], char4, b);
    next := Put(a, at, b[..i - 1]);
  }

  lemma EmptyDecodes()
    ensures Decoded([]) == []
  {
  }

  /** `base64_decode` */
  method Decode(s: seq<byte>) returns (ret: array<byte>, count: nat)
    requires |s| < U32 && DecodeFits(s)
    ensures fresh(ret) && ret.Length == 3 * (|s| / 4) + 2
    ensures count == |DecodedText(s)| < ret.Length && ret[..count] == DecodedText(s) && ret[count] == 0
  {
    hide IsBase64, Value, Decoded, DecodedText, Triple, Prefix;
    ret := new byte[3 * (|s| / 4) + 2];
    count := 0;
    var i, n, char4: seq<byte> := 0, 0, [0, 0, 0, 0];
    ghost var done := 0;
    EmptyDecodes();
    while n < |s| && s[n] != PAD && IsBase64(s[n])
      invariant 0 <= i < 4 && n == done + i <= |s| && done % 4 == 0 && |char4| == 4
      invariant forall m :: 0 <= m < n ==> IsBase64(s[m])
      invariant char4[..i] == s[done..n]
      invariant count == done / 4 * 3 && ret[..count] == Decoded(s[..done])
    {
      Appended(char4, i, s, done, n);
      char4 := char4[i := s[n]];
      i, n := i + 1, n + 1;
      if i == 4 {
        FullBuffer(s, done, char4);
        count := Emit(ret, count, char4);
        i, done := 0, n;
      }
    }
    StoppedAt(s, n);
    DecodedTail(s[..n], done);
    assert s[..n][..done] == s[..done] && s[..n][done..] == char4[..i];
    if i != 0 {
      count := EmitTail(ret, count, char4, i);
    }
    ret[count] := 0;
  }

  lemma FullBuffer(s: seq<byte>, done: nat, char4: seq<byte>)
    requires done % 4 == 0 && done + 4 <= |s| && |char4| == 4 && char4[..4] == s[done..done + 4]
    requires forall m :: 0 <= m < done + 4 ==> IsBase64(s[m])
    ensures forall m :: 0 <= m < 4 ==> IsBase64(char4[m])
    ensures Decoded(s[..done + 4]) == Decoded(s[..done]) + Triple(char4[0], char4[1], char4[2], char4[3])
  {
    hide IsBase64, Value, Decoded, Triple;
    var t := s[..done + 4];
    assert forall m :: 0 <= m < 4 ==> char4[m] == char4[..4][m] == s[done + m];
    assert t[..done] == s[..done] && t[..done + 4] == t;
    DecodedGrows(t, done);
  }

  lemma StoppedAt(s: seq<byte>, n: nat)
    requires n <= |s| && (forall m :: 0 <= m < n ==> IsBase64(s[m])) && (n < |s| ==> s[n] == PAD || !IsBase64(s[n]))
    ensures Prefix(s) == n && DecodedText(s) == Decoded(s[..n])
  {
  }
}
