/** The guard zones written around every payload, and the tests that look at them. */
module MwGuard {
  import opened Basics
  import opened MwBlock

  const VAL_NEW: byte := 0xFE
  const VAL_DEL: byte := 0xFD
  const VAL_NML: byte := 0xFC
  const VAL_GRB: byte := 0xFB

  /** "mEmwAtch" */
  const TEMPLATE: seq<byte> := [0x6D, 0x45, 0x6D, 0x77, 0x41, 0x74, 0x63, 0x68]

  function Fill(n: nat, c: byte): (s: seq<byte>)
    ensures |s| == n && forall i :: 0 <= i < n ==> s[i] == c
  {
    seq(n, _ => c)
  }

  /** A block's memory behind its header: guard, payload, guard. */
  function Zone(payload: seq<byte>): seq<byte> {
    TEMPLATE + payload + TEMPLATE
  }

  function Payload(zone: seq<byte>, size: nat): seq<byte>
    requires |zone| == size + 2 * ZONE
  {
    zone[ZONE..ZONE + size]
  }

  predicate Underflowed(zone: seq<byte>)
    requires |zone| >= ZONE
  {
    zone[..ZONE] != TEMPLATE
  }

  predicate Overflowed(zone: seq<byte>, size: nat)
    requires |zone| >= size + 2 * ZONE
  {
    zone[ZONE + size..ZONE + size + ZONE] != TEMPLATE
  }

  /** A size as the parameter `unsigned len` of `mwTestMem` takes it. */
  function Looked(size: nat): (len: nat)
    ensures len <= size && (size < 0x1_0000_0000 ==> len == size)
  {
    size % 0x1_0000_0000
  }

  predicate AllAre(s: seq<byte>, c: byte) {
    forall i :: 0 <= i < |s| ==> s[i] == c
  }

  /** `mwWriteOF` */
  method WriteOF(a: array<byte>, p: nat)
    requires p + ZONE <= a.Length
    modifies a
    ensures a[..] == old(a[..p]) + TEMPLATE + old(a[p + ZONE..])
  {
    for i := 0 to ZONE
      invariant a[..p] == old(a[..p]) && a[p + ZONE..] == old(a[p + ZONE..])
      invariant forall j :: 0 <= j < i ==> a[p + j] == TEMPLATE[j]
    {
      a[p + i] := TEMPLATE[i % 8];
    }
    assert a[p..p + ZONE] == TEMPLATE;
  }

  /** `mwCheckOF` */
  method CheckOF(a: array<byte>, p: nat) returns (bad: bool)
    requires p + ZONE <= a.Length
    ensures bad <==> a[p..p + ZONE] != TEMPLATE
  {
    for i := 0 to ZONE
      invariant forall j :: 0 <= j < i ==> a[p..p + ZONE][j] == TEMPLATE[j]
    {
      if a[p + i] != TEMPLATE[i % 8] {
        assert a[p..p + ZONE][i] != TEMPLATE[i];
        return true;
      }
    }
    return false;
  }

  /** `mwTestMem`: whether some byte it looks at differs from `c`. */
  method TestMem(a: array<byte>, p: nat, size: nat, c: byte) returns (hit: bool)
    requires p + size <= a.Length
    ensures hit <==> !AllAre(a[p..p + size][..Looked(size)], c)
  {
    var len := Looked(size);
    assert a[p..p + size][..len] == a[p..p + len];
    var ptr := p;
    while ptr < p + len
      invariant p <= ptr <= p + len
      invariant AllAre(a[p..ptr], c)
    {
      if a[ptr] != c {
        assert a[p..p + len][ptr - p] != c;
        return true;
      }
      assert a[p..ptr + 1] == a[p..ptr] + [c];
      ptr := ptr + 1;
    }
    return false;
  }

  /** `memset` */
  method MemSet(a: array<byte>, p: nat, len: nat, c: byte)
    requires p + len <= a.Length
    modifies a
    ensures a[..] == old(a[..p]) + Fill(len, c) + old(a[p + len..])
  {
    for i := 0 to len
      invariant a[..p] == old(a[..p]) && a[p + len..] == old(a[p + len..])
      invariant a[p..p + i] == Fill(i, c)
    {
      a[p + i] := c;
      assert a[p..p + i + 1] == a[p..p + i] + [c];
    }
  }

  /** `memcpy`, and any other store of consecutive bytes. */
  method Store(a: array<byte>, p: nat, data: seq<byte>)
    requires p + |data| <= a.Length
    modifies a
    ensures a[..] == old(a[..p]) + data + old(a[p + |data|..])
  {
    for i := 0 to |data|
      invariant a[..p] == old(a[..p]) && a[p + |data|..] == old(a[p + |data|..])
      invariant a[p..p + i] == data[..i]
    {
      a[p + i] := data[i];
      assert a[p..p + i + 1] == a[p..p + i] + [data[i]];
    }
  }

  /** A write to one byte of the zone goes unnoticed by the guards exactly when it stays inside the
      payload or leaves the byte as it was. */
  lemma WriteNoticed(zone: seq<byte>, size: nat, off: nat, v: byte)
    requires |zone| == size + 2 * ZONE && off < |zone|
    requires !Underflowed(zone) && !Overflowed(zone, size)
    ensures var z := zone[off := v];
      Underflowed(z) || Overflowed(z, size) <==> !(ZONE <= off < ZONE + size) && v != zone[off]
  {
    var z := zone[off := v];
    if off < ZONE {
      assert z[..ZONE][off] == v && zone[..ZONE][off] == zone[off];
      assert z[ZONE + size..ZONE + size + ZONE] == zone[ZONE + size..ZONE + size + ZONE];
    } else {
      assert z[..ZONE] == zone[..ZONE];
      if off < ZONE + size {
        assert z[ZONE + size..ZONE + size + ZONE] == zone[ZONE + size..ZONE + size + ZONE];
      } else {
        assert z[ZONE + size..ZONE + size + ZONE][off - ZONE - size] == v;
        assert zone[ZONE + size..ZONE + size + ZONE][off - ZONE - size] == zone[off];
      }
    }
    if v == zone[off] {
      assert z == zone;
    }
  }
}
