/** The header memwatch keeps in front of every allocation, and the checksum that guards it. */
module MwBlock {
  import opened Basics

  // Sizes of the LP64 target: sizeof(mwData) is already a multiple of mwROUNDALLOC.
  const MW_DATA_SIZE: nat := 56
  const ZONE: nat := 8
  const OVERHEAD: nat := MW_DATA_SIZE + 2 * ZONE
  const SIZE_LIMIT: nat := 0x1_0000_0000_0000_0000
  const LONG_LIMIT: nat := 0x8000_0000_0000_0000

  const CHECK_SEED: int := 0xFE0180

  /** A size_t argument; `malloc` is free to refuse it but the code must cope with it. */
  type Size = n: nat | n < SIZE_LIMIT

  /** The C cast from size_t to long. */
  function ToLong(n: Size): int {
    if n < LONG_LIMIT then n else n - SIZE_LIMIT
  }

  type Name = Option<string>

  /** One allocation of the C library: a header, and behind it guard, payload, guard. */
  class Block {
    const addr: int         // address of the payload
    const zone: array<byte> // the memory behind the header
    var prev: Block?
    var next: Block?
    var file: Name
    var count: int
    var check: int
    var size: Size
    var line: int
    var nml: bool

    /** Memory fresh from `malloc`. */
    constructor (addr: int, length: nat)
      ensures this.addr == addr && zone.Length == length && fresh(zone)
    {
      this.addr := addr;
      zone := new byte[length];
      prev, next := null, null;
      file, count, check, size, line, nml := None, 0, 0, 0, 0, false;
    }

    /** `CHKVAL(mw)` */
    function ChkVal(): int
      reads `count, `size, `line
    {
      Checksum(count, ToLong(size), line)
    }
  }

  // MW_VAL_DEL in every byte of a long, a size_t and an int
  const DEL_LONG: int := 0xFDFD_FDFD_FDFD_FDFD - 0x1_0000_0000_0000_0000
  const DEL_SIZE: Size := 0xFDFD_FDFD_FDFD_FDFD
  const DEL_INT: int := 0xFDFD_FDFD - 0x1_0000_0000

  /** The last bytes of the overwritten header of a released block never look like a checksum of the
      others. */
  lemma ScrubbedFails()
    ensures DEL_LONG != Checksum(DEL_LONG, ToLong(DEL_SIZE), DEL_INT)
  {
    hide Xor;
    XorCancels(CHECK_SEED, DEL_LONG);
    XorBit7(CHECK_SEED, DEL_INT);
  }

  lemma XorBit7(a: int, b: int)
    ensures Xor(a, b) / 128 % 2 == (a / 128 % 2 + b / 128 % 2) % 2
  {
    hide Xor;
    XorShift64(a, b);
    XorStep(a / 64, b / 64);
    XorStep(a / 128, b / 128);
    assert a / 64 / 2 == a / 128 && b / 64 / 2 == b / 128;
  }

  lemma XorShift64(a: int, b: int)
    ensures Xor(a, b) / 64 == Xor(a / 64, b / 64)
  {
    hide Xor;
    XorShift8(a, b);
    XorShift8(a / 8, b / 8);
    assert a / 8 / 8 == a / 64 && b / 8 / 8 == b / 64;
  }

  lemma XorShift8(a: int, b: int)
    ensures Xor(a, b) / 8 == Xor(a / 8, b / 8)
  {
    hide Xor;
    XorStep(a, b);
    XorStep(a / 2, b / 2);
    XorStep(a / 4, b / 4);
  }

  /** `s` without its element `i`. */
  function Cut<T>(s: seq<T>, i: nat): seq<T>
    requires i < |s|
  {
    s[..i] + s[i + 1..]
  }

  function Magnitude(a: int): nat {
    if a < 0 then -a - 1 else a
  }

  /** Bitwise exclusive or of two's complement numbers of any width. */
  function Xor(a: int, b: int): int
    decreases Magnitude(a) + Magnitude(b)
  {
    if Magnitude(a) == 0 && Magnitude(b) == 0 then
      if a == b then 0 else -1
    else
      (a % 2 + b % 2) % 2 + 2 * Xor(a / 2, b / 2)
  }

  function Checksum(count: int, size: int, line: int): int {
    Xor(Xor(Xor(CHECK_SEED, count), size), line)
  }

  /** The recursion equation also holds where `Xor` stops. */
  lemma XorStep(a: int, b: int)
    ensures Xor(a, b) % 2 == (a % 2 + b % 2) % 2
    ensures Xor(a, b) / 2 == Xor(a / 2, b / 2)
  {
  }

  lemma XorOfSigns(a: int, b: int)
    requires Magnitude(a) == 0 && Magnitude(b) == 0
    ensures Xor(a, b) == if a == b then 0 else -1
  {
  }

  lemma SameHalves(a: int, b: int)
    requires a % 2 == b % 2 && a / 2 == b / 2
    ensures a == b
  {
  }

  lemma {:induction false} XorCancels(a: int, b: int)
    ensures Xor(Xor(a, b), b) == a
    decreases Magnitude(a) + Magnitude(b)
  {
    hide Xor;
    if Magnitude(a) == 0 && Magnitude(b) == 0 {
      XorOfSigns(a, b);
      XorOfSigns(Xor(a, b), b);
    } else {
      XorCancels(a / 2, b / 2);
      XorStep(a, b);
      XorStep(Xor(a, b), b);
      SameHalves(Xor(Xor(a, b), b), a);
    }
  }

  lemma {:induction false} XorCommutes(a: int, b: int)
    ensures Xor(a, b) == Xor(b, a)
    decreases Magnitude(a) + Magnitude(b)
  {
    if Magnitude(a) != 0 || Magnitude(b) != 0 {
      XorStep(a, b);
      XorStep(b, a);
      XorCommutes(a / 2, b / 2);
    }
  }

  /** Damage to any single checksummed field is noticed: with the other two unchanged,
      two headers have the same checksum only if they agree on the third as well. */
  lemma ChecksumDetectsOneField(count: int, size: int, line: int, count': int, size': int, line': int)
    requires
      || (count == count' && size == size') || (count == count' && line == line') || (size == size' && line == line')
    ensures Checksum(count, size, line) == Checksum(count', size', line') <==>
      count == count' && size == size' && line == line'
  {
    var a, b := Xor(CHECK_SEED, count), Xor(CHECK_SEED, count');
    var c, d := Xor(a, size), Xor(b, size');
    XorCancels(CHECK_SEED, count);
    XorCancels(CHECK_SEED, count');
    XorCommutes(CHECK_SEED, count);
    XorCommutes(CHECK_SEED, count');
    XorCancels(count, CHECK_SEED);
    XorCancels(count', CHECK_SEED);
    XorCancels(a, size);
    XorCancels(b, size');
    XorCommutes(a, size);
    XorCommutes(b, size');
    XorCancels(size, a);
    XorCancels(size', b);
    XorCancels(c, line);
    XorCancels(d, line');
    XorCommutes(c, line);
    XorCommutes(d, line');
    XorCancels(line, c);
    XorCancels(line', d);
  }
}
