/** The byte buffers and request framing of Network.cs: the growable
    send/receive window `ByteBuffer` and its free list, `BufferSegment`, the
    capacity gate of `Send`, NUL-terminated string requests and the
    `host:port` split of `Connect`. */
module Network {
  import opened Common

  /** The array sizes a buffer can have: 1024 doubled any number of times. */
  ghost predicate PowerSize(n: nat)
    decreases n
  {
    n == InitialSize || (n > InitialSize && n % 2 == 0 && PowerSize(n / 2))
  }

  function Pow2(k: nat): (r: nat)
    ensures r >= 1
  {
    if k == 0 then 1 else 2 * Pow2(k - 1)
  }

  /** Every size a buffer can have is 1024·2^k. */
  lemma {:induction false} PowerSizeIsDoubling(n: nat) returns (k: nat)
    requires PowerSize(n)
    ensures n == InitialSize * Pow2(k)
    decreases n
  {
    if n == InitialSize {
      k := 0;
    } else {
      var h := PowerSizeIsDoubling(n / 2);
      k := h + 1;
    }
  }

  /** `Array.Copy(bytes, from, a, at, n)`: the `n` bytes at `from` land at `at`,
      and nothing before `at` changes. */
  method Place(a: array<byte>, at: nat, bytes: seq<byte>, from: nat, n: nat)
    requires at + n <= a.Length && from + n <= |bytes|
    modifies a
    ensures a[..at + n] == old(a[..at]) + bytes[from..from + n]
  {
    forall i | 0 <= i < n {
      a[at + i] := bytes[from + i];
    }
    assert forall i :: 0 <= i < at + n ==> a[i] == (old(a[..at]) + bytes[from..from + n])[i];
  }

  /** The doubling loop of `checksize`: double `size` at least once and until
      it holds `need`. */
  method NextSize(size: nat, need: nat) returns (r: nat)
    requires PowerSize(size)
    ensures PowerSize(r) && need <= r && 2 * size <= r
    ensures r == 2 * size || r < 2 * need
  {
    r := 2 * size;
    while r < need
      invariant PowerSize(r) && 2 * size <= r
      invariant r == 2 * size || r < 2 * need
      decreases need - r
    {
      r := 2 * r;
    }
  }

  /** The size of the array of a fresh buffer. */
  const InitialSize: nat := 1024

  /** `ByteBuffer` (Network.cs:71-193): the live bytes are
      `data[offset..offset + length]`. */
  class ByteBuffer {
    var data: array<byte>
    var offset: nat
    var length: nat

    ghost predicate Valid()
      reads this
    {
      offset + length <= data.Length && PowerSize(data.Length)
    }

    function Contents(): seq<byte>
      reads this, data
      requires Valid()
    {
      data[offset..offset + length]
    }

    constructor ()
      ensures Valid() && fresh(data) && data.Length == InitialSize
      ensures offset == 0 && length == 0
    {
      data := new byte[InitialSize];
      offset, length := 0, 0;
    }

    /** The in-place branch of `checksize`: move the live bytes to the front. */
    method Compact()
      requires Valid()
      modifies this`offset, data
      ensures Valid() && offset == 0 && length == old(length) && data == old(data)
      ensures Contents() == old(Contents())
    {
      forall i | 0 <= i < length {
        data[i] := data[offset + i];
      }
      offset := 0;
    }

    /** The reallocating branch of `checksize`: the smallest doubling of the
        array, at least one, that holds `need` bytes. */
    method Grow(need: nat)
      requires Valid()
      modifies this`data, this`offset
      ensures Valid() && fresh(data) && offset == 0 && length == old(length)
      ensures Contents() == old(Contents())
      ensures need <= data.Length && 2 * old(data.Length) <= data.Length
      ensures data.Length == 2 * old(data.Length) || data.Length < 2 * need
    {
      var size := NextSize(data.Length, need);
      var grown := new byte[size];
      forall i | 0 <= i < length {
        grown[i] := data[offset + i];
      }
      data, offset := grown, 0;
    }

    /** `checksize(n)` (Network.cs:130-153): afterwards `n` more bytes fit after
        the live ones, which keep their values. The array is kept when they
        already fit, compacted when the total fits and at least half the array
        lies before the live bytes, and doubled otherwise. */
    method CheckSize(n: nat)
      requires Valid()
      modifies this`data, this`offset, data
      ensures Valid() && length == old(length) && Contents() == old(Contents())
      ensures offset + length + n <= data.Length && (data == old(data) || fresh(data))
      ensures old(offset + length + n <= data.Length) ==> data == old(data) && offset == old(offset)
      ensures old(offset + length + n > data.Length && length + n <= data.Length && offset >= (data.Length + 1) / 2)
        ==> data == old(data) && offset == 0
      ensures old(offset + length + n > data.Length && !(length + n <= data.Length && offset >= (data.Length + 1) / 2))
        ==> fresh(data) && offset == 0 && data.Length >= 2 * old(data.Length)
            && (data.Length == 2 * old(data.Length) || data.Length < 2 * (length + n))
    {
      if offset + length + n > data.Length {
        var need := length + n;
        if need <= data.Length && offset >= (data.Length + 1) / 2 {
          Compact();
        } else {
          Grow(need);
        }
      }
    }

    /** `Write(bytes, offset, length)` (Network.cs:155-160). */
    method Write(bytes: seq<byte>, from: nat, n: nat)
      requires Valid() && from + n <= |bytes|
      modifies this`data, this`offset, this`length, data
      ensures Valid() && length == old(length) + n && (data == old(data) || fresh(data))
      ensures Contents() == old(Contents()) + bytes[from..from + n]
    {
      CheckSize(n);
      ghost var kept := Contents();
      ghost var before := data[..offset + length];
      assert kept == before[offset..];
      Place(data, offset + length, bytes, from, n);
      length := length + n;
      assert Contents() == data[..offset + length][offset..];
    }

    /** `Write(onebyte)` (Network.cs:169-174). */
    method WriteByte(b: byte)
      requires Valid()
      modifies this`data, this`offset, this`length, data
      ensures Valid() && length == old(length) + 1 && (data == old(data) || fresh(data))
      ensures Contents() == old(Contents()) + [b]
    {
      CheckSize(1);
      data[offset + length] := b;
      length := length + 1;
    }

    /** `Pop(n)` (Network.cs:176-186): drop up to `n` bytes from the front; an
        emptied buffer restarts at the front of its array. */
    method Pop(n: nat)
      requires Valid()
      modifies this`offset, this`length
      ensures Valid()
      ensures Contents() == old(Contents())[if n < old(length) then n else old(length)..]
      ensures length == 0 ==> offset == 0
    {
      var k := if n > length then length else n;
      offset := offset + k;
      length := length - k;
      if length == 0 {
        Reset();
      }
    }

    /** `Reset()` (Network.cs:188-192). */
    method Reset()
      requires Valid()
      modifies this`offset, this`length
      ensures Valid() && offset == 0 && length == 0
    {
      offset, length := 0, 0;
    }
  }

  /** Popping every byte empties a buffer and restarts it at the front; popping
      after writing gives back exactly what was written. */
  method WriteThenPop(b: ByteBuffer, bytes: seq<byte>) returns (popped: seq<byte>)
    requires b.Valid() && b.length == 0
    modifies b`data, b`offset, b`length, b.data
    ensures b.Valid() && b.offset == 0 && b.length == 0
    ensures popped == bytes
  {
    b.Write(bytes, 0, |bytes|);
    assert bytes[0..|bytes|] == bytes;
    popped := b.Contents();
    b.Pop(|bytes|);
  }

  /** The free list of buffers behind `ByteBuffer.New`/`Release`
      (Network.cs:96-118): a stack of emptied, distinct buffers. `Repr` holds
      every buffer that was ever released and its array. */
  class Pool {
    var free: seq<ByteBuffer>
    ghost var Repr: set<object>

    ghost predicate Valid()
      reads this, Repr
    {
      && (forall i :: 0 <= i < |free| ==> free[i] in Repr && free[i].data in Repr)
      && (forall i :: 0 <= i < |free| ==> free[i].Valid() && free[i].offset == 0 && free[i].length == 0)
      && (forall i, j :: 0 <= i < j < |free| ==> free[i] != free[j])
    }

    constructor ()
      ensures Valid() && free == [] && Repr == {}
    {
      free, Repr := [], {};
    }

    /** `New()`: the most recently released buffer, or a fresh one. */
    method New() returns (b: ByteBuffer)
      requires Valid()
      modifies this`free
      ensures Valid() && Repr == old(Repr) && b !in free
      ensures b.Valid() && b.offset == 0 && b.length == 0
      ensures old(free) != [] ==> b == old(free[|free| - 1]) && free == old(free[..|free| - 1])
      ensures old(free) != [] ==> b in Repr && b.data in Repr
      ensures old(free) == [] ==> fresh(b) && fresh(b.data) && b.data.Length == InitialSize && free == []
    {
      if |free| > 0 {
        b := free[|free| - 1];
        free := free[..|free| - 1];
      } else {
        b := new ByteBuffer();
      }
    }

    /** `Release()`: empty the buffer and push it, keeping its array. */
    method Release(b: ByteBuffer)
      requires Valid() && b.Valid() && b !in free
      modifies this`free, this`Repr, b`offset, b`length
      ensures Valid() && free == old(free) + [b] && Repr == old(Repr) + {b, b.data}
      ensures b.offset == 0 && b.length == 0
    {
      b.Reset();
      free, Repr := free + [b], Repr + {b, b.data};
    }
  }

  /** A buffer released to the pool is the next one `New` hands out, emptied. */
  method ReleaseThenNew(p: Pool, b: ByteBuffer) returns (c: ByteBuffer)
    requires p.Valid() && b.Valid() && b !in p.free
    modifies p`free, p`Repr, b`offset, b`length
    ensures c == b && c.Valid() && c.Contents() == [] && p.free == old(p.free)
  {
    p.Release(b);
    c := p.New();
    assert p.free == (old(p.free) + [b])[..|old(p.free)|];
  }

  // ---------------------------------------------------------------------------
  // Segments and the send gate

  /** `BufferSegment` (Network.cs:16-66): a source slice, `length` bytes of
      unmanaged memory at `pointer`, or the single byte `one`. */
  datatype Segment = Segment(source: Option<seq<byte>>, length: int, offset: int, pointer: nat, one: byte)

  function Make(source: seq<byte>): Segment
  {
    MakeRange(source, 0, |source|)
  }

  function MakePrefix(source: seq<byte>, length: int): Segment
  {
    MakeRange(source, 0, length)
  }

  function MakeRange(source: seq<byte>, offset: int, length: int): Segment
  {
    Segment(Some(source), length, offset, 0, 0)
  }

  function MakePointer(pointer: nat, length: int): Segment
  {
    Segment(None, length, 0, pointer, 0)
  }

  function MakeByte(one: byte): Segment
  {
    Segment(None, 0, 0, 0, one)
  }

  /** `Write(seg)` can copy the segment: its slice lies in its source, or
      `memory`, the bytes at its pointer, holds `length` bytes. */
  predicate Readable(seg: Segment, memory: seq<byte>)
  {
    if seg.source.Some? then 0 <= seg.offset && 0 <= seg.length && seg.offset + seg.length <= |seg.source.value|
    else seg.pointer != 0 ==> 0 <= seg.length <= |memory|
  }

  /** The bytes `Write(seg)` appends (Network.cs:120-128). */
  function SegmentBytes(seg: Segment, memory: seq<byte>): seq<byte>
    requires Readable(seg, memory)
  {
    if seg.source.Some? then seg.source.value[seg.offset..seg.offset + seg.length]
    else if seg.pointer != 0 then memory[..seg.length]
    else [seg.one]
  }

  /** What each way of making a segment sends; a pointer segment at
      `IntPtr.Zero` falls through to the single-byte case and sends one 0. */
  lemma MakeSends(source: seq<byte>, offset: nat, length: nat, pointer: nat, one: byte, memory: seq<byte>)
    ensures SegmentBytes(Make(source), memory) == source
    ensures offset + length <= |source| ==> SegmentBytes(MakeRange(source, offset, length), memory) == source[offset..offset + length]
    ensures length <= |source| ==> SegmentBytes(MakePrefix(source, length), memory) == source[..length]
    ensures SegmentBytes(MakeByte(one), memory) == [one]
    ensures 0 < pointer && length <= |memory| ==> SegmentBytes(MakePointer(pointer, length), memory) == memory[..length]
    ensures SegmentBytes(MakePointer(0, length), memory) == [0]
  {
    assert source[0..|source|] == source;
  }

  /** `ByteBuffer.Write(seg)`; the pointer case stands for `Marshal.Copy`. A
      segment that cannot be copied makes the copy throw before `_length`
      moves, and `ok` is false. */
  method WriteSegment(b: ByteBuffer, seg: Segment, memory: seq<byte>) returns (ok: bool)
    requires b.Valid()
    modifies b`data, b`offset, b`length, b.data
    ensures b.Valid() && (b.data == old(b.data) || fresh(b.data))
    ensures ok <==> Readable(seg, memory)
    ensures ok ==> b.Contents() == old(b.Contents()) + SegmentBytes(seg, memory)
    ensures !ok ==> b.Contents() == old(b.Contents())
  {
    ok := Readable(seg, memory);
    if !ok {
      return;
    }
    if seg.source.Some? {
      b.Write(seg.source.value, seg.offset, seg.length);
    } else if seg.pointer != 0 {
      b.Write(memory, 0, seg.length);
      assert memory[0..seg.length] == memory[..seg.length];
    } else {
      b.WriteByte(seg.one);
    }
  }

  /** The first `n` segments can be copied. */
  predicate ReadablePrefix(segs: seq<Segment>, memories: seq<seq<byte>>, n: nat)
  {
    n <= |segs| == |memories| && forall i :: 0 <= i < n ==> Readable(segs[i], memories[i])
  }

  /** The index of the first segment that cannot be copied, or the number of
      segments when all can. */
  function FirstUnreadable(segs: seq<Segment>, memories: seq<seq<byte>>, from: nat): (k: nat)
    requires from <= |segs| == |memories| && ReadablePrefix(segs, memories, from)
    ensures from <= k <= |segs| && ReadablePrefix(segs, memories, k)
    ensures k < |segs| ==> !Readable(segs[k], memories[k])
    decreases |segs| - from
  {
    if from == |segs| || !Readable(segs[from], memories[from]) then from
    else FirstUnreadable(segs, memories, from + 1)
  }

  /** Everything the first `n` segments append, in order. */
  function Concat(segs: seq<Segment>, memories: seq<seq<byte>>, n: nat): seq<byte>
    requires ReadablePrefix(segs, memories, n)
  {
    if n == 0 then [] else Concat(segs, memories, n - 1) + SegmentBytes(segs[n - 1], memories[n - 1])
  }

  /** The default send capacity of `Settings` (Network.cs:318). */
  const DefaultCapacity: int := 2 * 0x100_0000

  /** How a call of `Send` ends: `false` with nothing written, `true` after
      every segment was written and `SendQueue` was called, or the exception
      of the copy of segment `at`, thrown out of `Send` before `SendQueue`. */
  datatype Sent = Refused | Accepted | Threw(at: nat)

  /** `NetHandlerImpl.Send` (Network.cs:874-927), every overload: refused,
      with the buffer untouched, when the pending bytes have reached the
      capacity; otherwise the segments are appended in order, even past the
      capacity, up to the first that cannot be copied. */
  method Send(b: ByteBuffer, capacity: int, segs: seq<Segment>, memories: seq<seq<byte>>) returns (r: Sent)
    requires b.Valid() && |segs| == |memories|
    modifies b`data, b`offset, b`length, b.data
    ensures b.Valid()
    ensures r == Refused <==> old(b.length) >= capacity
    ensures r == Refused ==> b.Contents() == old(b.Contents()) && b.data == old(b.data)
    ensures r != Refused ==> var k := FirstUnreadable(segs, memories, 0);
      && b.Contents() == old(b.Contents()) + Concat(segs, memories, k)
      && (r == Accepted <==> k == |segs|)
      && (r.Threw? ==> r.at == k)
  {
    if b.length >= capacity {
      return Refused;
    }
    var failed, at := WriteAll(b, segs, memories);
    r := if failed then Threw(at) else Accepted;
  }

  /** The writes of `Send`, one segment after another, stopped by the first
      copy that throws. */
  method WriteAll(b: ByteBuffer, segs: seq<Segment>, memories: seq<seq<byte>>) returns (failed: bool, at: nat)
    requires b.Valid() && |segs| == |memories|
    modifies b`data, b`offset, b`length, b.data
    ensures b.Valid() && at == FirstUnreadable(segs, memories, 0)
    ensures failed <==> at < |segs|
    ensures b.Contents() == old(b.Contents()) + Concat(segs, memories, at)
  {
    ghost var start := b.Contents();
    AppendNil(start);
    var i := 0;
    while i < |segs|
      invariant 0 <= i <= |segs| && b.Valid() && (b.data == old(b.data) || fresh(b.data))
      invariant ReadablePrefix(segs, memories, i) && FirstUnreadable(segs, memories, 0) == FirstUnreadable(segs, memories, i)
      invariant b.Contents() == start + Concat(segs, memories, i)
    {
      var ok := WriteNext(b, segs, memories, i, start);
      if !ok {
        return true, i;
      }
      i := i + 1;
    }
    return false, i;
  }

  /** One turn of `WriteAll`: the `i`-th segment goes after the first `i`, or
      nothing changes when it cannot be copied. */
  method WriteNext(b: ByteBuffer, segs: seq<Segment>, memories: seq<seq<byte>>, i: nat, ghost start: seq<byte>)
    returns (ok: bool)
    requires b.Valid() && ReadablePrefix(segs, memories, i) && i < |segs|
    requires b.Contents() == start + Concat(segs, memories, i)
    modifies b`data, b`offset, b`length, b.data
    ensures b.Valid() && (b.data == old(b.data) || fresh(b.data))
    ensures ok <==> Readable(segs[i], memories[i])
    ensures ok ==> ReadablePrefix(segs, memories, i + 1) && b.Contents() == start + Concat(segs, memories, i + 1)
    ensures !ok ==> b.Contents() == old(b.Contents())
  {
    ok := WriteSegment(b, segs[i], memories[i]);
    if ok {
      AppendAssoc(start, Concat(segs, memories, i), SegmentBytes(segs[i], memories[i]));
    }
  }

  // ---------------------------------------------------------------------------
  // NUL-terminated string requests

  /** The first 0 byte at an index in `[from, to)`. */
  function FirstZero(bytes: seq<byte>, from: nat, to: nat): (r: Option<nat>)
    requires to <= |bytes|
    ensures r.Some? ==> from <= r.value < to && bytes[r.value] == 0
    ensures r.Some? ==> forall i :: from <= i < r.value ==> bytes[i] != 0
    ensures r.None? ==> forall i :: from <= i < to ==> bytes[i] != 0
    decreases if from < to then to - from else 0
  {
    if from >= to then None
    else if bytes[from] == 0 then Some(from)
    else FirstZero(bytes, from + 1, to)
  }

  /** How many of the `length` bytes at `offset` a read consumes when it looks
      for the terminator in `[offset, end)`. */
  function Chunk(bytes: seq<byte>, offset: nat, end: nat, length: nat): nat
    requires end <= |bytes|
  {
    match FirstZero(bytes, offset, end)
    case Some(z) => z - offset + 1
    case None => length
  }

  /** The scan of `UTF8StringRequest.Read` as written (Network.cs:1077-1085):
      the loop bound is `length`, a count, used as an end index. */
  function ChunkAsWritten(bytes: seq<byte>, offset: nat, length: nat): nat
    requires offset + length <= |bytes|
  {
    Chunk(bytes, offset, length, length)
  }

  /** The scan over the `length` bytes that start at `offset`. */
  function ChunkIntended(bytes: seq<byte>, offset: nat, length: nat): nat
    requires offset + length <= |bytes|
  {
    Chunk(bytes, offset, offset + length, length)
  }

  /** The intended scan consumes up to and including the first 0, or every
      byte when there is none, and never less than one byte. */
  lemma ChunkIntendedConsumes(bytes: seq<byte>, offset: nat, length: nat)
    requires offset + length <= |bytes| && 1 <= length
    ensures var n := ChunkIntended(bytes, offset, length);
      && 1 <= n <= length
      && (forall i :: offset <= i < offset + n - 1 ==> bytes[i] != 0)
      && (bytes[offset + n - 1] == 0 <==> FirstZero(bytes, offset, offset + length).Some?)
  {
  }

  /** What a read appends to the bytes already pending: everything up to the
      first 0, which then ends the buffered bytes, or all `length` bytes. */
  lemma ChunkSplits(bytes: seq<byte>, offset: nat, length: nat, pending: seq<byte>, n: nat, all: seq<byte>)
    requires offset + length <= |bytes| && 1 <= length
    requires n == ChunkIntended(bytes, offset, length) && all == pending + bytes[offset..offset + n]
    ensures match FirstZero(bytes, offset, offset + length)
      case Some(z) =>
        n == z - offset + 1 && all[|all| - 1] == 0 && all[..|all| - 1] == pending + bytes[offset..z]
      case None =>
        n == length && all[|all| - 1] != 0 && all == pending + bytes[offset..offset + length]
  {
    assert all[|all| - 1] == bytes[offset + n - 1];
    match FirstZero(bytes, offset, offset + length)
    case Some(z) =>
      assert bytes[offset..offset + n] == bytes[offset..z] + [bytes[z]];
      assert all[..|all| - 1] == pending + bytes[offset..z];
    case None =>
  }

  /** At offset 0, the only offset of the first request of a packet, both
      scans agree. */
  lemma ChunkAtStart(bytes: seq<byte>, length: nat)
    requires length <= |bytes|
    ensures ChunkAsWritten(bytes, 0, length) == ChunkIntended(bytes, 0, length)
  {
  }

  /** The second request of the packet "a\0b\0c" starts at offset 2 with 3
      bytes left: as written the scan stops at index 3, the count of bytes
      rather than the end of the range, so it checks only index 2 and swallows
      the terminator of "b" together with the "c" after it. */
  lemma ChunkAsWrittenSwallows()
    ensures ChunkAsWritten([97, 0, 98, 0, 99], 2, 3) == 3
    ensures ChunkIntended([97, 0, 98, 0, 99], 2, 3) == 2
  {
    assert FirstZero([97, 0, 98, 0, 99], 2, 5) == Some(3);
  }

  /** The scan loop over `[offset, end)`. */
  method Scan(bytes: seq<byte>, offset: nat, end: nat, length: nat) returns (n: nat)
    requires end <= |bytes|
    ensures n == Chunk(bytes, offset, end, length)
  {
    n := length;
    var i := offset;
    while i < end
      invariant offset <= i
      invariant FirstZero(bytes, offset, end) == FirstZero(bytes, i, end)
      decreases end - i
    {
      if bytes[i] == 0 {
        n := i - offset + 1;
        return;
      }
      i := i + 1;
    }
  }

  /** `UTF8StringRequest` (Network.cs:1073-1119) with the intended scan. Its
      `Value` is kept as the bytes whose UTF-8 decoding it is; `None` is null.
      The bytes of an unfinished string wait in `buffer`, a buffer of `pool`. */
  class Utf8Request {
    const pool: Pool
    var buffer: ByteBuffer?
    var value: Option<seq<byte>>
    /** The buffered bytes of an unfinished string. */
    ghost var pending: seq<byte>
    ghost var Repr: set<object>

    ghost predicate Valid()
      reads this, Repr
    {
      && pool in Repr && pool.Repr <= Repr && pool.Valid()
      && (buffer == null ==> pending == [])
      && (buffer != null ==>
            && buffer in Repr && buffer.data in Repr && buffer !in pool.free
            && buffer.Valid() && pending == buffer.Contents())
    }

    constructor (pool: Pool)
      requires pool.Valid()
      ensures Valid() && fresh(Repr - pool.Repr - {pool})
      ensures this.pool == pool && value == None && pending == []
    {
      this.pool := pool;
      buffer, value, pending := null, None, [];
      Repr := {pool} + pool.Repr;
    }

    /** The pending buffer, or one from the pool when nothing is pending. */
    method Claim() returns (b: ByteBuffer)
      requires Valid()
      modifies this`Repr, pool`free
      ensures pool.Valid() && pool.Repr == old(pool.Repr) && pool in Repr && pool.Repr <= Repr
      ensures b in Repr && b.data in Repr && fresh(Repr - old(Repr))
      ensures b.Valid() && b !in pool.free && b.Contents() == pending
    {
      if buffer != null {
        b := buffer;
      } else {
        b := pool.New();
        Repr := Repr + {b, b.data};
      }
    }

    /** Write the consumed bytes into the claimed buffer. */
    method Stage(bytes: seq<byte>, from: nat, n: nat) returns (b: ByteBuffer)
      requires Valid() && from + n <= |bytes|
      modifies this`Repr, pool`free, Repr
      ensures pool.Valid() && pool.Repr == old(pool.Repr) && pool in Repr && pool.Repr <= Repr
      ensures fresh(Repr - old(Repr))
      ensures b in Repr && b.data in Repr && b.Valid() && b !in pool.free
      ensures b.Contents() == old(pending) + bytes[from..from + n]
      ensures value == old(value)
    {
      b := Claim();
      b.Write(bytes, from, n);
      Repr := Repr + {b.data};
    }

    /** The end of `Read`: a 0 as the last buffered byte completes the string
        and releases the buffer; otherwise the buffer stays pending. */
    method Settle(b: ByteBuffer, ghost all: seq<byte>)
      requires pool.Valid() && pool in Repr && pool.Repr <= Repr
      requires b in Repr && b.data in Repr && b.Valid() && b !in pool.free
      requires b.Contents() == all && |all| >= 1
      modifies this`buffer, this`value, this`pending, pool`free, pool`Repr, b`offset, b`length
      ensures Valid() && Repr == old(Repr)
      ensures all[|all| - 1] == 0 ==> value == Some(all[..|all| - 1]) && pending == [] && buffer == null
      ensures all[|all| - 1] != 0 ==> value == old(value) && pending == all && buffer != null
    {
      if b.data[b.offset + b.length - 1] == 0 {
        assert b.data[b.offset..b.offset + b.length - 1] == b.Contents()[..b.length - 1];
        value := Some(b.data[b.offset..b.offset + b.length - 1]);
        pool.Release(b);
        buffer, pending := null, [];
      } else {
        buffer, pending := b, b.Contents();
      }
    }

    /** `Read(bytes, offset, length)` (Network.cs:1075-1095): buffer the bytes
        up to and including the first 0; a 0 at the end of the buffered bytes
        completes the string and returns the buffer to the pool. */
    method Read(bytes: seq<byte>, offset: nat, length: nat) returns (n: nat)
      requires Valid() && 1 <= length && offset + length <= |bytes|
      modifies this`buffer, this`value, this`pending, this`Repr, Repr
      ensures Valid() && fresh(Repr - old(Repr))
      ensures n == ChunkIntended(bytes, offset, length)
      ensures match FirstZero(bytes, offset, offset + length)
        case Some(z) =>
          n == z - offset + 1 && pending == [] && value == Some(old(pending) + bytes[offset..z])
        case None =>
          n == length && value == old(value) && pending == old(pending) + bytes[offset..offset + length]
    {
      ChunkIntendedConsumes(bytes, offset, length);
      n := Scan(bytes, offset, offset + length, length);
      ghost var all := pending + bytes[offset..offset + n];
      ChunkSplits(bytes, offset, length, pending, n, all);
      var b := Stage(bytes, offset, n);
      Settle(b, all);
    }

    /** `Reset()` (Network.cs:1111-1119): forget the value and hand a pending
        buffer back to the pool, emptied. */
    method Reset()
      requires Valid()
      modifies this`buffer, this`value, this`pending, pool`free, pool`Repr, Repr
      ensures Valid() && Repr == old(Repr)
      ensures value == None && pending == [] && buffer == null
      ensures old(buffer) != null ==> pool.free == old(pool.free) + [old(buffer)]
      ensures old(buffer) == null ==> pool.free == old(pool.free)
    {
      value := None;
      if buffer != null {
        pool.Release(buffer);
        buffer := null;
      }
      pending := [];
    }

    /** `Request.Input(bytes, offset, ref length)` (Network.cs:202-217): read
        until the request completes. Returns whether it did and the new value
        of `length`, the count consumed when it did. Each `Read` is passed the
        original `length`, which is safe only because a string read either
        completes or consumes all of it. */
    method Input(bytes: seq<byte>, offset: nat, length: nat) returns (done: bool, consumed: nat)
      requires Valid() && offset + length <= |bytes|
      modifies this`buffer, this`value, this`pending, this`Repr, Repr
      ensures Valid() && fresh(Repr - old(Repr))
      ensures length == 0 ==> !done && consumed == 0 && value == old(value) && pending == old(pending)
      ensures 0 < length && old(value).None? ==>
        match FirstZero(bytes, offset, offset + length)
        case Some(z) =>
          done && consumed == z - offset + 1 && pending == []
          && value == Some(old(pending) + bytes[offset..z])
        case None =>
          !done && consumed == length && value == None
          && pending == old(pending) + bytes[offset..offset + length]
    {
      var left: int := length;
      var at := offset;
      done, consumed := false, length;
      while left > 0
        invariant Valid() && fresh(Repr - old(Repr))
        invariant left == length ==> at == offset && value == old(value) && pending == old(pending)
        invariant left != length ==>
          && left == 0 && value == None
          && FirstZero(bytes, offset, offset + length).None?
          && pending == old(pending) + bytes[offset..offset + length]
        decreases left
      {
        var n := Read(bytes, at, length);
        at := at + n;
        left := left - n;
        if value.Some? {
          return true, length - left;
        }
      }
    }
  }

  /** The frame that sending a string puts on the wire (Network.cs:1103-1108):
      the string, which holds no 0 byte, then one terminating 0. A request
      reading that frame from the front gets the string back and consumes
      exactly the frame. */
  method Echo(pool: Pool, text: seq<byte>) returns (got: Option<seq<byte>>, consumed: nat)
    requires pool.Valid() && forall i :: 0 <= i < |text| ==> text[i] != 0
    modifies pool, pool.Repr
    ensures got == Some(text) && consumed == |text| + 1
  {
    var frame := text + [0];
    var r := new Utf8Request(pool);
    assert FirstZero(frame, 0, |frame|) == Some(|text|) by {
      ZeroAt(frame, 0, |text|);
    }
    var done;
    done, consumed := r.Input(frame, 0, |frame|);
    assert r.value == Some([] + frame[0..|text|]);
    assert [] + frame[0..|text|] == text;
    got := r.value;
  }

  lemma {:induction false} ZeroAt(bytes: seq<byte>, from: nat, z: nat)
    requires from <= z < |bytes| && bytes[z] == 0
    requires forall i :: from <= i < z ==> bytes[i] != 0
    ensures FirstZero(bytes, from, |bytes|) == Some(z)
    decreases z - from
  {
    if from < z {
      ZeroAt(bytes, from + 1, z);
    }
  }

  // ---------------------------------------------------------------------------
  // host:port

  predicate IsDigit(c: char)
  {
    '0' <= c <= '9'
  }

  predicate AllDigits(s: string)
  {
    forall i :: 0 <= i < |s| ==> IsDigit(s[i])
  }

  /** The value of a run of decimal digits. */
  function DigitsValue(d: string): nat
    requires AllDigits(d)
  {
    if d == [] then 0 else 10 * DigitsValue(d[..|d| - 1]) + (d[|d| - 1] - '0') as nat
  }

  /** The decimal form of `n`. */
  function Digits(n: nat): (r: string)
    ensures r != [] && AllDigits(r) && ':' !in r && '\n' !in r
  {
    if n < 10 then [('0' as int + n) as char]
    else Digits(n / 10) + [('0' as int + n % 10) as char]
  }

  lemma {:induction false} DigitsRoundTrip(n: nat)
    ensures DigitsValue(Digits(n)) == n
  {
    if n >= 10 {
      DigitsRoundTrip(n / 10);
      var d := Digits(n);
      assert d[..|d| - 1] == Digits(n / 10);
    }
  }

  /** The index of the last ':' of `s`. */
  function LastColon(s: string): (r: Option<nat>)
    ensures r.Some? ==> r.value < |s| && s[r.value] == ':' && ':' !in s[r.value + 1..]
    ensures r.None? ==> ':' !in s
  {
    if s == [] then None
    else if s[|s| - 1] == ':' then Some(|s| - 1)
    else
      var r := LastColon(s[..|s| - 1]);
      assert s == s[..|s| - 1] + [s[|s| - 1]];
      if r.Some? then assert s[r.value + 1..] == s[..|s| - 1][r.value + 1..] + [s[|s| - 1]]; r
      else r
  }

  /** `^(?<host>.+):(?<port>\d+)$` on one line: the greedy host runs to the
      last ':', after which every character must be a digit. */
  function MatchLine(line: string): Option<(string, string)>
  {
    match LastColon(line)
    case None => None
    case Some(k) =>
      if 1 <= k && k + 1 < |line| && AllDigits(line[k + 1..]) then Some((line[..k], line[k + 1..]))
      else None
  }

  /** The index of the first line break of `s`, or `|s|`. */
  function LineEnd(s: string): (r: nat)
    ensures r <= |s| && '\n' !in s[..r] && (r < |s| ==> s[r] == '\n')
  {
    if s == [] || s[0] == '\n' then 0
    else
      var r := 1 + LineEnd(s[1..]);
      assert s[..r] == [s[0]] + s[1..][..r - 1];
      r
  }

  /** The match of the pattern with `RegexOptions.Multiline`: `^` and `$` match
      at line breaks and `.` never crosses one, so the match is the first line
      that matches. */
  function MatchHostPort(s: string): Option<(string, string)>
    decreases |s|
  {
    var e := LineEnd(s);
    var m := MatchLine(s[..e]);
    if m.Some? || e == |s| then m else MatchHostPort(s[e + 1..])
  }

  datatype Parse = Parsed(host: string, port: int32) | BadFormat | Overflow

  /** The split of `Connect(hostport, …)` (Network.cs:504-508, 513-517): a
      port that does not fit an `int` makes `Convert.ToInt32` throw. */
  function SplitHostPort(s: string): Parse
  {
    match MatchHostPort(s)
    case None => BadFormat
    case Some((host, port)) =>
      if AllDigits(port) && DigitsValue(port) < 0x8000_0000 then Parsed(host, DigitsValue(port) as int32)
      else Overflow
  }

  lemma {:induction false} LastColonAt(s: string, k: nat)
    requires k < |s| && s[k] == ':' && forall i :: k < i < |s| ==> s[i] != ':'
    ensures LastColon(s) == Some(k)
    decreases |s|
  {
    if k < |s| - 1 {
      LastColonAt(s[..|s| - 1], k);
    }
  }

  /** A non-empty host on one line and a port in range split back out of
      "host:port", whatever colons the host holds. */
  lemma SplitRoundTrip(host: string, port: nat)
    requires host != [] && '\n' !in host && port < 0x8000_0000
    ensures SplitHostPort(host + ":" + Digits(port)) == Parsed(host, port as int32)
  {
    var d := Digits(port);
    var s := host + ":" + d;
    Joined(host, d);
    LastColonAt(s, |host|);
    assert s[..LineEnd(s)] == s;
    assert MatchLine(s) == Some((host, d));
    assert MatchHostPort(s) == Some((host, d));
    DigitsRoundTrip(port);
  }

  /** "host:port" with a one-line host and a digit port: the parts sit where
      they were put, no line breaks, and no ':' after the one joining them. */
  lemma Joined(host: string, d: string)
    requires '\n' !in host && ':' !in d && '\n' !in d
    ensures var s := host + ":" + d;
      && s[..|host|] == host && s[|host|] == ':' && s[|host| + 1..] == d
      && (forall i :: |host| < i < |s| ==> s[i] != ':')
      && (forall i :: 0 <= i < |s| ==> s[i] != '\n')
  {
    var s := host + ":" + d;
    forall i | 0 <= i < |s| ensures s[i] != '\n' && (|host| < i ==> s[i] != ':') {
      if i < |host| {
        assert s[i] == host[i];
      } else if |host| < i {
        assert s[i] == d[i - |host| - 1];
      }
    }
    assert s[|host| + 1..] == d;
  }

  /** A string without ':' never splits. */
  lemma {:induction false} SplitNeedsColon(s: string)
    requires ':' !in s
    ensures SplitHostPort(s) == BadFormat
    decreases |s|
  {
    var e := LineEnd(s);
    var line := s[..e];
    assert ':' !in line by {
      forall i | 0 <= i < |line| ensures line[i] != ':' { assert line[i] == s[i]; }
    }
    if e < |s| {
      var rest := s[e + 1..];
      assert ':' !in rest by {
        forall i | 0 <= i < |rest| ensures rest[i] != ':' { assert rest[i] == s[e + 1 + i]; }
      }
      SplitNeedsColon(rest);
    }
  }

  /** What a `Connect` overload does with a `host:port` string: dial, throw
      at once, or deliver the exception through `Loop.Idle`. */
  datatype Connecting = Dial(host: string, port: int32) | ThrowsFormat | ThrowsOverflow | IdleFormat

  /** `Connect(hostport, timeout)` (Network.cs:502-509). */
  function ConnectSync(s: string): Connecting
  {
    match SplitHostPort(s)
    case Parsed(h, p) => Dial(h, p)
    case BadFormat => ThrowsFormat
    case Overflow => ThrowsOverflow
  }

  /** `Connect(hostport, timeout, callback)` (Network.cs:511-527). */
  function ConnectLater(s: string): Connecting
  {
    match SplitHostPort(s)
    case Parsed(h, p) => Dial(h, p)
    case BadFormat => IdleFormat
    case Overflow => ThrowsOverflow
  }

  /** The two overloads dial the same endpoint and differ only in how a
      malformed string is reported. */
  lemma ConnectAgree(s: string)
    ensures ConnectSync(s).Dial? <==> ConnectLater(s).Dial?
    ensures ConnectSync(s).Dial? ==> ConnectSync(s) == ConnectLater(s)
    ensures ConnectSync(s) == ThrowsFormat <==> ConnectLater(s) == IdleFormat
    ensures ConnectLater(s) != ThrowsFormat && ConnectSync(s) != IdleFormat
  {
  }
}
