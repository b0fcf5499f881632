/** The remote-to-local relay of the native login path: read the channel into
    a fresh 1024-byte buffer, print what was read, and stop at the first
    zero-byte read. The channel's behaviour is given as the sequence of
    results its successive reads return. */
module Relay {
  import opened StdModel

  const BufferSize: nat := 1024

  /** One `channel.read(&mut buf)`: the bytes it placed at the start of the
      buffer (none means end of stream), or an error. */
  datatype ReadResult = Chunk(bytes: seq<byte>) | ReadError

  const EndOfStream: ReadResult := Chunk([])

  /** A read never returns more bytes than the buffer holds. */
  predicate ReadsFit(results: seq<ReadResult>) {
    forall k :: 0 <= k < |results| ==> results[k].Chunk? ==> |results[k].bytes| <= BufferSize
  }

  /** How the loop ends: on a zero-byte read (after `consumed` reads), by the
      `from_utf8(..).unwrap()` panic on read number `at`, or not at all within
      the given reads (it goes on polling). */
  datatype RelayEnd = ReachedEof(consumed: nat) | Utf8Panic(at: nat) | AwaitingData

  /** The buffer after a read of `bytes`: those bytes, then the zeros it was
      created with. */
  function Padded(bytes: seq<byte>): (buf: seq<byte>)
    requires |bytes| <= BufferSize
    ensures |buf| == BufferSize && buf[..|bytes|] == bytes
  {
    bytes + seq(BufferSize - |bytes|, _ => 0 as byte)
  }

  /** What the loop prints for each read, as written: the whole buffer for a
      non-empty read, nothing for an error. */
  function Written(results: seq<ReadResult>): seq<byte>
    requires ReadsFit(results)
  {
    if results == [] then []
    else
      (if results[0].Chunk? && results[0].bytes != [] then Padded(results[0].bytes) else [])
      + Written(results[1..])
  }

  /** The bytes the channel delivered, in order. */
  function BytesRead(results: seq<ReadResult>): seq<byte> {
    if results == [] then []
    else (if results[0].Chunk? then results[0].bytes else []) + BytesRead(results[1..])
  }

  /** Where the loop stopped reading: the index of the end-of-stream read or of
      the panicking read, or the end of the given reads. */
  function StopIndex(e: RelayEnd, n: nat): int {
    match e
    case ReachedEof(k) => k - 1
    case Utf8Panic(a) => a
    case AwaitingData => n
  }

  /** Reference for the loop, as written, from read `i` on with `out` already
      printed. */
  function RelayFrom(results: seq<ReadResult>, i: nat, out: seq<byte>): (RelayEnd, seq<byte>)
    requires ReadsFit(results) && i <= |results|
    decreases |results| - i
  {
    if i == |results| then (AwaitingData, out)
    else match results[i]
      case ReadError => RelayFrom(results, i + 1, out)
      case Chunk(bs) =>
        if bs == [] then (ReachedEof(i + 1), out)
        else if !ValidUtf8(Padded(bs)) then (Utf8Panic(i), out)
        else RelayFrom(results, i + 1, out + Padded(bs))
  }

  /** `channel.read(&mut buf)` writing `bytes` into a fresh zeroed buffer. */
  method ReadInto(buf: array<byte>, bytes: seq<byte>)
    requires buf.Length == BufferSize && |bytes| <= BufferSize
    requires forall k :: 0 <= k < buf.Length ==> buf[k] == 0
    modifies buf
    ensures buf[..] == Padded(bytes)
  {
    for k := 0 to |bytes|
      invariant forall j :: 0 <= j < k ==> buf[j] == bytes[j]
      invariant forall j :: k <= j < buf.Length ==> buf[j] == 0
    {
      buf[k] := bytes[k];
    }
    assert buf[..] == Padded(bytes);
  }

  /** The remote-to-local loop as written: a fresh buffer per read, the whole
      buffer printed through `from_utf8(..).unwrap()` after a non-empty read,
      errors ignored, a zero-byte read ends the loop. */
  method RelayRemoteToLocal(results: seq<ReadResult>) returns (end: RelayEnd, out: seq<byte>)
    requires ReadsFit(results)
    ensures (end, out) == RelayFrom(results, 0, [])
  {
    out := [];
    var i := 0;
    while i < |results|
      invariant i <= |results|
      invariant RelayFrom(results, 0, []) == RelayFrom(results, i, out)
    {
      var buf := new byte[BufferSize](_ => 0);
      match results[i] {
        case ReadError =>
        case Chunk(bs) =>
          if bs == [] {
            return ReachedEof(i + 1), out;
          }
          ReadInto(buf, bs);
          if !ValidUtf8(buf[..]) {
            return Utf8Panic(i), out;
          }
          out := out + buf[..];
      }
      i := i + 1;
    }
    return AwaitingData, out;
  }

  /** The loop ends only on a zero-byte read (or the UTF-8 panic); read errors
      never end it. It stops at the first end-of-stream read, and it panics at
      the first non-empty read whose padded buffer is not valid UTF-8: every
      non-empty read before the stop point was valid. */
  lemma {:induction false} RelayEndsOnlyAtEof(results: seq<ReadResult>, i: nat, out: seq<byte>)
    requires ReadsFit(results) && i <= |results|
    ensures var (e, _) := RelayFrom(results, i, out);
      && i <= StopIndex(e, |results|) <= |results|
      && (forall j :: i <= j < StopIndex(e, |results|) ==> results[j] != EndOfStream)
      && (forall j :: i <= j < StopIndex(e, |results|) ==>
            results[j].Chunk? && results[j].bytes != [] ==> ValidUtf8(Padded(results[j].bytes)))
      && (e.ReachedEof? ==> e.consumed <= |results| && results[e.consumed - 1] == EndOfStream)
      && (e.Utf8Panic? ==>
            && e.at < |results| && results[e.at].Chunk? && results[e.at].bytes != []
            && !ValidUtf8(Padded(results[e.at].bytes)))
    decreases |results| - i
  {
    if i < |results| {
      match results[i]
      case ReadError =>
        RelayEndsOnlyAtEof(results, i + 1, out);
      case Chunk(bs) =>
        if bs != [] && ValidUtf8(Padded(bs)) {
          RelayEndsOnlyAtEof(results, i + 1, out + Padded(bs));
        }
    }
  }

  /** What the loop prints, as written: for every non-empty read before it
      stopped, the whole 1024-byte buffer. */
  lemma {:induction false} RelayWritesPaddedBuffers(results: seq<ReadResult>, i: nat, out: seq<byte>)
    requires ReadsFit(results) && i <= |results|
    ensures var (e, o) := RelayFrom(results, i, out);
      i <= StopIndex(e, |results|) <= |results|
      && o == out + Written(results[i..StopIndex(e, |results|)])
    decreases |results| - i
  {
    var (e, o) := RelayFrom(results, i, out);
    if i == |results| {
      assert results[i..i] == [];
    } else {
      match results[i]
      case ReadError =>
        RelayWritesPaddedBuffers(results, i + 1, out);
        var stop := StopIndex(e, |results|);
        assert results[i..stop][1..] == results[i + 1..stop];
      case Chunk(bs) =>
        if bs == [] || !ValidUtf8(Padded(bs)) {
          assert results[i..i] == [];
        } else {
          RelayWritesPaddedBuffers(results, i + 1, out + Padded(bs));
          var stop := StopIndex(e, |results|);
          assert results[i..stop][1..] == results[i + 1..stop];
        }
    }
  }

  /** As written the output is not the byte stream that was read: one read of
      the single byte 0x61 prints it followed by 1023 NUL bytes, and the two
      bytes of U+00E9 arriving in two reads panic on the first. */
  lemma PaddedRelayCounterexample()
    ensures var results := [Chunk([0x61]), EndOfStream];
      && RelayFrom(results, 0, []) == (ReachedEof(2), [0x61] + seq(1023, _ => 0 as byte))
      && BytesRead(results) == [0x61]
    ensures var results := [Chunk([0xC3]), Chunk([0xA9]), EndOfStream];
      && RelayFrom(results, 0, []).0 == Utf8Panic(0)
      && BytesRead(results) == [0xC3, 0xA9] && ValidUtf8(BytesRead(results))
  {
    var a := [Chunk([0x61]), EndOfStream];
    assert Padded([0x61]) == [0x61] + seq(1023, _ => 0 as byte);
    assert ValidUtf8(Padded([0x61])) by { AsciiValid(Padded([0x61])); }
    assert [] + Padded([0x61]) == Padded([0x61]);
    assert RelayFrom(a, 1, [] + Padded([0x61])) == (ReachedEof(2), Padded([0x61]));
    assert RelayFrom(a, 0, []) == RelayFrom(a, 1, [] + Padded([0x61]));
    var b := [Chunk([0xC3]), Chunk([0xA9]), EndOfStream];
    assert Padded([0xC3])[1] == 0;
    assert b[1..][1..][1..] == [];
    assert BytesRead(b[1..][1..]) == [];
    assert BytesRead(b[1..]) == [0xA9];
    assert ValidUtf8([0xC3, 0xA9]) by {
      assert [0xC3, 0xA9][2..] == [];
    }
  }

  lemma {:induction false} AsciiValid(s: seq<byte>)
    requires forall k :: 0 <= k < |s| ==> s[k] <= 0x7F
    ensures ValidUtf8(s)
  {
    if s != [] {
      AsciiValid(s[1..]);
    }
  }

  // ---------------------------------------------------------------------------
  // The relay printing only the bytes read, as the loop evidently intends

  lemma {:induction false} BytesReadSnoc(results: seq<ReadResult>, r: ReadResult)
    ensures BytesRead(results + [r]) == BytesRead(results) + (if r.Chunk? then r.bytes else [])
  {
    if results != [] {
      assert (results + [r])[1..] == results[1..] + [r];
      BytesReadSnoc(results[1..], r);
    } else {
      assert BytesRead([r]) == (if r.Chunk? then r.bytes else []) + BytesRead([]);
    }
  }

  /** The loop writing `&buf[..c]` as raw bytes: what it prints is exactly the
      byte stream read up to the end of stream, in order, and it never panics. */
  method RelayRemoteToLocalExact(results: seq<ReadResult>) returns (end: RelayEnd, out: seq<byte>)
    requires ReadsFit(results)
    ensures !end.Utf8Panic?
    ensures end.ReachedEof? ==>
      && 1 <= end.consumed <= |results| && results[end.consumed - 1] == EndOfStream
      && (forall j :: 0 <= j < end.consumed - 1 ==> results[j] != EndOfStream)
      && out == BytesRead(results[..end.consumed])
    ensures end.AwaitingData? ==>
      && (forall j :: 0 <= j < |results| ==> results[j] != EndOfStream)
      && out == BytesRead(results)
  {
    out := [];
    var i := 0;
    while i < |results|
      invariant i <= |results|
      invariant forall j :: 0 <= j < i ==> results[j] != EndOfStream
      invariant out == BytesRead(results[..i])
    {
      BytesReadSnoc(results[..i], results[i]);
      assert results[..i + 1] == results[..i] + [results[i]];
      var buf := new byte[BufferSize](_ => 0);
      match results[i] {
        case ReadError =>
        case Chunk(bs) =>
          if bs == [] {
            return ReachedEof(i + 1), out;
          }
          ReadInto(buf, bs);
          out := out + buf[..|bs|];
      }
      i := i + 1;
    }
    assert results[..i] == results;
    return AwaitingData, out;
  }
}
