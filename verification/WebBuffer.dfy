/** The buffer one HTTP response is received into: sized by a Content-Length header, or with a default on the
    first chunk, doubled until a chunk fits, and closed with a NUL. Whether an allocation succeeds is a
    parameter, and fresh memory holds anything. */
module WebBuffer {

  import opened Basics

  const DATA_BUFFER_SIZE: nat := 102400
  const SIZE_T: nat := 0x1_0000_0000_0000_0000

  // ----- the specification

  /** `known` is the run of received bytes that ends at `pos`; it is shorter than `pos` only after a loss. */
  datatype Buffer = Buffer(held: bool, size: nat, pos: nat, known: seq<byte>)

  /** A body chunk, with the fate of the at most two allocations it asks for. */
  datatype Chunk = Chunk(data: seq<byte>, first: bool, second: bool)

  /** A Content-Length line with a positive number, before any body. */
  datatype Length = Length(n: nat, granted: bool)

  const EMPTY := Buffer(false, 0, 0, [])

  /** The do-while loop: doubled once, and again while too small. */
  function Doubled(size: nat, need: nat): (r: nat)
    requires 0 < size
    ensures size < need ==> need <= r < 2 * need
    decreases need - size
  {
    if 2 * size < need then Doubled(2 * size, need) else 2 * size
  }

  function Sized(b: Buffer, l: Length): Buffer {
    Buffer(l.granted, l.n + 1, b.pos, b.known)
  }

  function Started(b: Buffer, first: bool): Buffer {
    if b.held then b else Buffer(first, DATA_BUFFER_SIZE, b.pos, [])
  }

  function Grown(b: Buffer, need: nat, second: bool): Buffer
    requires 0 < b.size
  {
    if need <= b.size then b
    else Buffer(second, Doubled(b.size, need), b.pos, if second && b.held then b.known else [])
  }

  function Received(b: Buffer, c: Chunk): Buffer
    requires WellFormed(b)
  {
    var g := Grown(Started(b, c.first), b.pos + |c.data| + 1, c.second);
    if g.held then g.(pos := g.pos + |c.data|, known := g.known + c.data) else g.(known := [])
  }

  predicate WellFormed(b: Buffer) {
    |b.known| <= b.pos && (b.held ==> 0 < b.size)
  }

  function AllSized(b: Buffer, lengths: seq<Length>): Buffer {
    if lengths == [] then b else Sized(AllSized(b, lengths[..|lengths| - 1]), lengths[|lengths| - 1])
  }

  function AllReceived(b: Buffer, chunks: seq<Chunk>): (r: Buffer)
    requires WellFormed(b)
    ensures WellFormed(r)
  {
    if chunks == [] then b else Received(AllReceived(b, chunks[..|chunks| - 1]), chunks[|chunks| - 1])
  }

  /** One response: header lines, then the body. */
  function Response(lengths: seq<Length>, chunks: seq<Chunk>): (b: Buffer)
    ensures WellFormed(b)
  {
    HeadersLeaveNoBody(lengths);
    AllReceived(AllSized(EMPTY, lengths), chunks)
  }

  function Body(chunks: seq<Chunk>): seq<byte> {
    if chunks == [] then [] else Body(chunks[..|chunks| - 1]) + chunks[|chunks| - 1].data
  }

  // ----- the laws

  lemma {:induction false} HeadersLeaveNoBody(lengths: seq<Length>)
    ensures var b := AllSized(EMPTY, lengths); b.pos == 0 && b.known == [] && WellFormed(b)
    ensures lengths != [] ==> AllSized(EMPTY, lengths).size == lengths[|lengths| - 1].n + 1
  {
    if lengths != [] {
      HeadersLeaveNoBody(lengths[..|lengths| - 1]);
    }
  }

  /** The size the first chunk finds or asks for. */
  function InitialSize(lengths: seq<Length>): nat {
    if lengths == [] then DATA_BUFFER_SIZE else lengths[|lengths| - 1].n + 1
  }

  /** Whatever fails, memory that is there has room for the NUL and is at most twice what is stored. */
  lemma {:induction false} SizeIsBounded(lengths: seq<Length>, chunks: seq<Chunk>)
    ensures var b := Response(lengths, chunks);
      b.held ==> b.pos < b.size <= Max(Max(InitialSize(lengths), DATA_BUFFER_SIZE), 2 * (b.pos + 1))
  {
    HeadersLeaveNoBody(lengths);
    if chunks != [] {
      SizeIsBounded(lengths, chunks[..|chunks| - 1]);
    }
  }

  /** When no allocation fails, the buffer holds the body, all of it and nothing else. */
  lemma {:induction false} ResponseIsWhole(lengths: seq<Length>, chunks: seq<Chunk>)
    requires forall l :: l in lengths ==> l.granted
    requires forall c :: c in chunks ==> c.first && c.second
    ensures var b := Response(lengths, chunks);
      && b.known == Body(chunks) && b.pos == |b.known|
      && b.held == (lengths != [] || chunks != [])
      && (b.held ==> b.pos < b.size <= Max(InitialSize(lengths), 2 * (b.pos + 1)))
  {
    HeadersLeaveNoBody(lengths);
    if chunks == [] {
      assert lengths != [] ==> lengths[|lengths| - 1] in lengths;
    } else {
      var c := chunks[|chunks| - 1];
      assert c in chunks;
      ResponseIsWhole(lengths, chunks[..|chunks| - 1]);
    }
  }

  /** With an announced length that the body keeps to, nothing is ever reallocated. */
  lemma {:induction false} LengthKept(lengths: seq<Length>, chunks: seq<Chunk>)
    requires lengths != [] && lengths[|lengths| - 1].granted
    requires |Body(chunks)| <= lengths[|lengths| - 1].n
    ensures Response(lengths, chunks) == Buffer(true, lengths[|lengths| - 1].n + 1, |Body(chunks)|, Body(chunks))
  {
    HeadersLeaveNoBody(lengths);
    if chunks != [] {
      LengthKept(lengths, chunks[..|chunks| - 1]);
    }
  }

  /** When a chunk extends an undamaged buffer: exactly if the memory it needs is granted, and the old
      contents do not go with a block that an earlier failure dropped. */
  lemma ChunkIsKept(b: Buffer, c: Chunk)
    requires WellFormed(b) && b.pos == |b.known|
    ensures var r := Received(b, c);
      var fits := b.pos + |c.data| < Started(b, c.first).size;
      (r.held && r.pos == |r.known| && r.known == b.known + c.data)
      <==> (if fits then b.held || c.first else c.second) && (b.held || b.pos == 0)
  {
    var s := Started(b, c.first);
    assert b.pos == 0 ==> b.known == [];
    assert |b.known + c.data| == |b.known| + |c.data|;
    if !b.held && b.pos > 0 {
      assert Received(b, c).held ==> |Received(b, c).known| == |c.data|;
    }
  }

  /** One byte was received; the next two need a larger block, which is refused: all three are gone. */
  lemma RefusedBlockLosesAll()
    ensures var b := Received(Buffer(true, 2, 1, [7]), Chunk([8, 9], true, false));
      !b.held && b.known == [] && b.pos == 1
  {
  }

  // ----- the code

  lemma Extends(was: seq<byte>, known: seq<byte>, chunk: seq<byte>)
    requires |known| <= |was| && (known == [] || was[|was| - |known|..] == known)
    ensures (was + chunk)[|was| - |known|..] == known + chunk
  {
    assert was[|was|..] == [];
  }

  class HTTPData {
    var data: array?<byte>
    var bufferSize: nat
    var bufferPos: nat
    /** The received bytes the buffer is known to end with. */
    ghost var known: seq<byte>

    ghost predicate Valid()
      reads this, data
    {
      && WellFormed(View())
      && (data != null ==> data.Length == bufferSize)
      && (data != null && bufferPos <= bufferSize ==> data[bufferPos - |known|..bufferPos] == known)
      && (data != null && 0 < bufferPos < bufferSize ==> data[bufferPos] == 0)
      && (data != null ==> bufferPos < bufferSize)
    }

    ghost function View(): Buffer
      reads this
    {
      Buffer(data != null, bufferSize, bufferPos, known)
    }

    constructor ()
      ensures Valid() && View() == EMPTY
    {
      data, bufferSize, bufferPos, known := null, 0, 0, [];
    }

    /** `am_malloc` */
    method Allocate(granted: bool)
      requires bufferSize > 0
      modifies this`data
      ensures if granted then data != null && fresh(data) && data.Length == bufferSize else data == null
    {
      if granted {
        data := new byte[bufferSize];
      } else {
        data := null;
      }
    }

    /** `am_realloc`: the new block begins with what fits of the old one. */
    method Reallocate(granted: bool)
      requires bufferSize > 0
      modifies this`data
      ensures if granted then data != null && fresh(data) && data.Length == bufferSize else data == null
      ensures granted && old(data) != null && old(data).Length <= bufferSize ==>
        data[..old(data).Length] == old(data[..])
    {
      var was := data;
      Allocate(granted);
      if data != null && was != null {
        for i := 0 to if was.Length < bufferSize then was.Length else bufferSize
          invariant data != null && fresh(data) && data.Length == bufferSize
          invariant was[..] == old(data[..])
          invariant data[..i] == was[..i]
        {
          data[i] := was[i];
        }
        if was.Length <= bufferSize {
          assert was[..was.Length] == was[..];
        }
      }
    }

    /** The Content-Length branch of `write_header_callback`. */
    method ContentLength(n: nat, granted: bool)
      requires Valid() && bufferPos == 0 && 0 < n < 0x7fff_ffff
      modifies this
      ensures Valid() && View() == Sized(old(View()), Length(n, granted))
      ensures data != null ==> fresh(data)
    {
      bufferSize := n + 1;
      Reallocate(granted);
    }

    method Start(first: bool)
      requires Valid()
      modifies this
      ensures 0 < bufferSize && bufferPos == old(bufferPos) && View() == Started(old(View()), first)
      ensures data == old(data) || (data != null ==> fresh(data))
      ensures data != null ==> data.Length == bufferSize && Tail()
    {
      if data == null {
        bufferSize := DATA_BUFFER_SIZE;
        Allocate(first);
        known := [];
      }
    }

    ghost predicate Tail()
      requires data != null
      reads this, data
    {
      && |known| <= bufferPos
      && (known == [] || (bufferPos <= data.Length && data[bufferPos - |known|..bufferPos] == known))
    }

    method Grow(need: nat, second: bool)
      requires 0 < bufferSize && bufferPos < need <= SIZE_T / 2
      requires data != null ==> data.Length == bufferSize && Tail()
      modifies this
      ensures bufferPos == old(bufferPos) && View() == Grown(old(View()), need, second)
      ensures data == old(data) || (data != null ==> fresh(data))
      ensures data != null ==> data.Length == bufferSize && need <= bufferSize && Tail()
      ensures bufferSize == old(bufferSize) || bufferSize < SIZE_T
    {
      if need > bufferSize {
        ghost var size := bufferSize;
        bufferSize := bufferSize * 2;
        while bufferSize < need
          invariant 0 < bufferSize && bufferSize < 2 * need
          invariant Doubled(size, need) == if bufferSize < need then Doubled(bufferSize, need) else bufferSize
          invariant data == old(data) && bufferPos == old(bufferPos) && known == old(known)
        {
          bufferSize := bufferSize * 2;
        }
        if data == null || !second {
          known := [];
        }
        Reallocate(second);
        if data != null && old(data) != null && known != [] {
          ghost var was, i := old(data[..]), bufferPos - |known|;
          assert data[i..bufferPos] == data[..|was|][i..bufferPos] == was[i..bufferPos];
        }
      }
    }

    method CopyIn(chunk: seq<byte>)
      requires data != null && bufferPos + |chunk| <= data.Length
      modifies data
      ensures data[..bufferPos + |chunk|] == old(data[..bufferPos]) + chunk
    {
      for i := 0 to |chunk|
        invariant data[..bufferPos + i] == old(data[..bufferPos]) + chunk[..i]
      {
        data[bufferPos + i] := chunk[i];
      }
    }

    method Store(chunk: seq<byte>)
      requires data != null && data.Length == bufferSize && bufferPos + |chunk| < bufferSize && Tail()
      modifies this, data
      ensures data == old(data) && Valid() && data[bufferPos] == 0
      ensures View() == old(View()).(pos := old(bufferPos) + |chunk|, known := old(known) + chunk)
    {
      ghost var was := data[..bufferPos];
      CopyIn(chunk);
      Extends(was, known, chunk);
      bufferPos := bufferPos + |chunk|;
      known := known + chunk;
      End(was + chunk);
    }

    /** The NUL behind what is stored. */
    method End(ghost text: seq<byte>)
      requires data != null && bufferPos < data.Length == bufferSize && data[..bufferPos] == text
      requires |known| <= bufferPos && text[|text| - |known|..] == known
      modifies data
      ensures Valid() && data[bufferPos] == 0
    {
      data[bufferPos] := 0;
      assert data[..bufferPos] == text;
      assert data[bufferPos - |known|..bufferPos] == data[..bufferPos][bufferPos - |known|..];
    }

    /** `write_data_callback`: it reports the whole chunk as taken whether or not it was stored. */
    method WriteData(chunk: seq<byte>, first: bool, second: bool) returns (taken: nat)
      requires Valid() && bufferPos + |chunk| + 1 <= SIZE_T / 2
      modifies this, data
      ensures Valid() && View() == Received(old(View()), Chunk(chunk, first, second))
      ensures taken == |chunk|
      ensures data != null && data != old(data) ==> fresh(data)
      ensures data != null ==> data[bufferPos] == 0 && data[bufferPos - |known|..bufferPos] == known
    {
      hide Doubled, Grown, Started;
      Start(first);
      Grow(bufferPos + |chunk| + 1, second);
      if data != null {
        Store(chunk);
      } else {
        known := [];
      }
      taken := |chunk|;
    }
  }
}
