/**
 Spool frames: a little-endian 32-bit length followed by that many bytes of an
 encoded document. Reading copes with short and interrupted reads, ends cleanly on a
 frame boundary and nowhere else.
 */
module Frames {
  import opened Basics
  import opened Bytes

  const HEADER_BYTES: nat := 4
  const LENGTH_LIMIT: nat := 0x1_0000_0000

  datatype SpoolError = Io | Truncated(expected: nat, found: nat) | Decode

  /** The document encoding; its details are not part of this model. */
  datatype Codec<!D> = Codec(encode: D -> seq<Byte>, decode: seq<Byte> -> Option<D>)

  ghost predicate RoundTrips<D(!new)>(codec: Codec<D>) {
    forall d :: codec.decode(codec.encode(d)) == Some(d)
  }

  function LittleEndian(n: nat): seq<Byte>
    requires n < LENGTH_LIMIT
  {
    [n % 256, n / 256 % 256, n / 65536 % 256, n / 16777216]
  }

  function FromLittleEndian(bytes: seq<Byte>): nat
    requires |bytes| == HEADER_BYTES
  {
    bytes[0] as int + bytes[1] as int * 256 + bytes[2] as int * 65536 + bytes[3] as int * 16777216
  }

  lemma LengthRoundTrip(n: nat)
    requires n < LENGTH_LIMIT
    ensures FromLittleEndian(LittleEndian(n)) == n
  {
    assert n / 256 == n / 65536 * 256 + n / 256 % 256;
    assert n / 65536 == n / 16777216 * 256 + n / 65536 % 256;
  }

  /** Whether a document's encoding has a length the header can hold. */
  predicate Fits<D>(codec: Codec<D>, d: D) {
    |codec.encode(d)| < LENGTH_LIMIT
  }

  function Frame<D>(codec: Codec<D>, d: D): seq<Byte>
    requires Fits(codec, d)
  {
    LittleEndian(|codec.encode(d)|) + codec.encode(d)
  }

  /** A segment: the frames of its documents, one after another. */
  function Stream<D>(codec: Codec<D>, documents: seq<D>): seq<Byte>
    requires forall d :: d in documents ==> Fits(codec, d)
  {
    if documents == [] then [] else Frame(codec, documents[0]) + Stream(codec, documents[1..])
  }

  // -------------------------------------------------------------------------
  // Writing

  class Sink {
    var bytes: seq<Byte>

    constructor ()
      ensures bytes == []
    {
      bytes := [];
    }

    method WriteAll(more: seq<Byte>)
      modifies this
      ensures bytes == old(bytes) + more
    {
      bytes := bytes + more;
    }
  }

  /** Appends one frame; an encoding too long for the header writes nothing. */
  method WriteFrame<D>(sink: Sink, codec: Codec<D>, document: D) returns (written: Result<nat, SpoolError>)
    modifies sink
    ensures written.Ok? <==> Fits(codec, document)
    ensures written.Ok? ==> sink.bytes == old(sink.bytes) + Frame(codec, document)
                            && written.value == |Frame(codec, document)|
    ensures written.Err? ==> sink.bytes == old(sink.bytes)
                             && written.error == Truncated(LENGTH_LIMIT - 1, |codec.encode(document)|)
  {
    var payload := codec.encode(document);
    if |payload| >= LENGTH_LIMIT {
      return Err(Truncated(LENGTH_LIMIT - 1, |payload|));
    }
    sink.WriteAll(LittleEndian(|payload|));
    sink.WriteAll(payload);
    written := Ok(HEADER_BYTES + |payload|);
  }

  // -------------------------------------------------------------------------
  // What reading means, as functions of the bytes that are left

  /** One frame off the front of `left`, and the bytes after it. */
  function ParseFrame<D>(codec: Codec<D>, left: seq<Byte>): (Result<Option<D>, SpoolError>, seq<Byte>) {
    if |left| == 0 then (Ok(None), [])
    else if |left| < HEADER_BYTES then (Err(Truncated(HEADER_BYTES, |left|)), [])
    else
      var length, rest := FromLittleEndian(left[..HEADER_BYTES]), left[HEADER_BYTES..];
      if |rest| < length then (Err(Truncated(length, |rest|)), [])
      else
        match codec.decode(rest[..length])
        case None => (Err(Decode), rest[length..])
        case Some(d) => (Ok(Some(d)), rest[length..])
  }

  /** Every document off the front of `left`, and how the reading ended. */
  function ParseAll<D>(codec: Codec<D>, left: seq<Byte>): (seq<D>, Result<(), SpoolError>)
    decreases |left|
  {
    var (frame, rest) := ParseFrame(codec, left);
    match frame
    case Err(error) => ([], Err(error))
    case Ok(None) => ([], Ok(()))
    case Ok(Some(d)) =>
      var (later, end) := ParseAll(codec, rest);
      ([d] + later, end)
  }

  /** Reading `left` gives these documents and ends so. Folded until `UnfoldHere`. */
  ghost predicate ParsesTo<D(!new)>(codec: Codec<D>, left: seq<Byte>, documents: seq<D>, end: Result<(), SpoolError>) {
    forall u: nat :: UnfoldHere(u) ==> ParseAll(codec, left) == (documents, end)
  }

  lemma ParsesAsItDoes<D(!new)>(codec: Codec<D>, left: seq<Byte>)
    ensures ParsesTo(codec, left, ParseAll(codec, left).0, ParseAll(codec, left).1)
  {
  }

  lemma ParsesMeaning<D(!new)>(codec: Codec<D>, left: seq<Byte>, documents: seq<D>, end: Result<(), SpoolError>)
    requires ParsesTo(codec, left, documents, end)
    ensures ParseAll(codec, left) == (documents, end)
  {
    assert UnfoldHere(0);
  }

  /** A frame in front adds its document. */
  lemma FirstFrame<D(!new)>(codec: Codec<D>, left: seq<Byte>, d: D, after: seq<Byte>, documents: seq<D>,
                            end: Result<(), SpoolError>)
    requires ParseFrame(codec, left) == (Ok(Some(d)), after) && ParsesTo(codec, after, documents, end)
    ensures ParsesTo(codec, left, [d] + documents, end)
  {
    assert UnfoldHere(0);
  }

  /** Behind a first frame the other documents are read. */
  lemma BehindFirstFrame<D(!new)>(codec: Codec<D>, left: seq<Byte>, d: D, after: seq<Byte>, documents: seq<D>,
                                  end: Result<(), SpoolError>)
    requires ParseFrame(codec, left) == (Ok(Some(d)), after) && ParsesTo(codec, left, documents, end)
    ensures documents != [] && documents[0] == d && ParsesTo(codec, after, documents[1..], end)
  {
    assert UnfoldHere(0);
  }

  /** How the reading ends at a frame that is missing or broken. */
  function EndAt<D>(frame: Result<Option<D>, SpoolError>): Result<(), SpoolError> {
    match frame case Err(error) => Err(error) case Ok(_) => Ok(())
  }

  /** After such a frame nothing is read. */
  lemma NoFrame<D(!new)>(codec: Codec<D>, left: seq<Byte>)
    requires ParseFrame(codec, left).0.Err? || ParseFrame(codec, left).0.value.None?
    ensures ParsesTo(codec, left, [], EndAt(ParseFrame(codec, left).0))
  {
  }

  lemma EndsWithoutFrame<D(!new)>(codec: Codec<D>, left: seq<Byte>, documents: seq<D>, end: Result<(), SpoolError>)
    requires ParseFrame(codec, left).0.Err? || ParseFrame(codec, left).0.value.None?
    requires ParsesTo(codec, left, documents, end)
    ensures documents == [] && end == EndAt(ParseFrame(codec, left).0)
  {
    assert UnfoldHere(0);
  }

  // -------------------------------------------------------------------------
  // Reading through a stream that may return less than asked for

  /** What one read call does: is interrupted, fails, or returns at most this many bytes (at least one). */
  datatype Attempt = Interrupted | Failed | Short(most: nat)

  /** Overwrites `buffer` with `bytes` from position `from` on. */
  method Copy(buffer: array<Byte>, from: nat, bytes: seq<Byte>)
    requires from + |bytes| <= buffer.Length
    modifies buffer
    ensures buffer[..] == old(buffer[..from]) + bytes + old(buffer[from + |bytes|..])
  {
    for i := 0 to |bytes|
      invariant buffer[..from + i] == old(buffer[..from]) + bytes[..i]
      invariant buffer[from + i..] == old(buffer[from + i..])
    {
      buffer[from + i] := bytes[i];
      assert buffer[..from + i + 1] == buffer[..from + i] + [bytes[i]];
    }
    assert buffer[..] == buffer[..from + |bytes|] + buffer[from + |bytes|..];
  }

  class Reader {
    const data: seq<Byte>
    var at: nat
    /** What the coming read calls do; once used up, reads return all they can. */
    var schedule: seq<Attempt>

    ghost predicate Valid()
      reads this
    {
      at <= |data|
    }

    /** The bytes not read yet. */
    ghost function Left(): seq<Byte>
      requires Valid()
      reads this
    {
      data[at..]
    }

    /** No read call fails outright. */
    ghost predicate Reliable()
      reads this
    {
      Failed !in schedule
    }

    constructor (data: seq<Byte>, schedule: seq<Attempt>)
      ensures Valid() && Left() == data && this.schedule == schedule
    {
      this.data, this.at, this.schedule := data, 0, schedule;
    }

    /** Reads into `buffer[from..]`: some bytes, none only at the end of the data. */
    method Read(buffer: array<Byte>, from: nat) returns (outcome: Result<nat, Attempt>)
      requires Valid() && from < buffer.Length
      modifies this, buffer
      ensures Valid() && (old(Reliable()) ==> Reliable())
      ensures |schedule| <= old(|schedule|)
      ensures outcome.Err? ==>
                && (outcome.error == Interrupted || (outcome.error == Failed && !old(Reliable())))
                && at == old(at) && buffer[..] == old(buffer[..]) && |schedule| < old(|schedule|)
      ensures outcome.Ok? ==>
                && outcome.value <= buffer.Length - from && outcome.value <= old(|Left()|)
                && (outcome.value == 0 <==> old(Left()) == [])
                && at == old(at) + outcome.value
                && buffer[..] == old(buffer[..from]) + old(Left())[..outcome.value]
                   + old(buffer[from + outcome.value..])
    {
      var most := buffer.Length - from;
      if schedule != [] {
        var attempt := schedule[0];
        schedule := schedule[1..];
        match attempt {
          case Interrupted => return Err(Interrupted);
          case Failed => return Err(Failed);
          case Short(limit) => most := Min(most, if limit == 0 then 1 else limit);
        }
      }
      var count := Min(most, |data| - at);
      assert data[at..at + count] == Left()[..count];
      Copy(buffer, from, data[at..at + count]);
      at := at + count;
      outcome := Ok(count);
    }
  }

  /** Fills the buffer, reporting whether any bytes were available at all. */
  method ReadExactOrEof(reader: Reader, buffer: array<Byte>) returns (filled: Result<bool, SpoolError>)
    requires reader.Valid()
    modifies reader, buffer
    ensures reader.Valid() && (old(reader.Reliable()) ==> reader.Reliable() && filled != Err(Io))
    ensures var left, size := old(reader.Left()), buffer.Length;
            if filled == Err(Io) then true
            else if size <= |left| then
              filled == Ok(true) && buffer[..] == left[..size] && reader.Left() == left[size..]
            else if left == [] then
              filled == Ok(false) && reader.Left() == []
            else
              filled == Err(Truncated(size, |left|)) && reader.Left() == []
  {
    var count := 0;
    ghost var left := reader.Left();
    while count < buffer.Length
      invariant 0 <= count <= buffer.Length && count <= |left|
      invariant reader.Valid() && (old(reader.Reliable()) ==> reader.Reliable()) && reader.Left() == left[count..]
      invariant buffer[..count] == left[..count]
      decreases buffer.Length - count, |reader.schedule|
    {
      var outcome := reader.Read(buffer, count);
      match outcome {
        case Err(Interrupted) => continue;
        case Err(_) => return Err(Io);
        case Ok(read) =>
          if read == 0 {
            if count == 0 {
              return Ok(false);
            }
            return Err(Truncated(buffer.Length, count));
          }
          count := count + read;
      }
    }
    filled := Ok(true);
  }

  /** Reads one frame, or none at a clean end, unless a read fails. */
  method ReadFrame<D>(reader: Reader, codec: Codec<D>) returns (document: Result<Option<D>, SpoolError>)
    requires reader.Valid()
    modifies reader
    ensures reader.Valid() && (old(reader.Reliable()) ==> reader.Reliable() && document != Err(Io))
    ensures document != Err(Io) ==> (document, reader.Left()) == ParseFrame(codec, old(reader.Left()))
  {
    ghost var left := reader.Left();
    var header := new Byte[HEADER_BYTES];
    var read := ReadExactOrEof(reader, header);
    if read.Err? {
      return Err(read.error);
    }
    if !read.value {
      return Ok(None);
    }
    var length := FromLittleEndian(header[..]);
    var payload := new Byte[length];
    read := ReadExactOrEof(reader, payload);
    if read.Err? {
      return Err(read.error);
    }
    if !read.value {
      return Err(Truncated(length, 0));
    }
    match codec.decode(payload[..]) {
      case None => document := Err(Decode);
      case Some(d) => document := Ok(Some(d));
    }
  }

  /** Streams every document of a segment, stopping at the first error. */
  method ReadSegment<D(!new)>(reader: Reader, codec: Codec<D>)
    returns (documents: seq<D>, end: Result<(), SpoolError>)
    requires reader.Valid()
    modifies reader
    ensures reader.Valid() && (old(reader.Reliable()) ==> end != Err(Io))
    ensures end != Err(Io) ==> (documents, end) == ParseAll(codec, old(reader.Left()))
    ensures end == Err(Io) ==> documents <= ParseAll(codec, old(reader.Left())).0
  {
    ghost var all, last := ParseAll(codec, reader.Left()).0, ParseAll(codec, reader.Left()).1;
    ParsesAsItDoes(codec, reader.Left());
    documents, end := ReadDocuments(reader, codec, all, last);
  }

  /** The loop, for bytes that parse to `all` and end so. */
  method ReadDocuments<D(!new)>(reader: Reader, codec: Codec<D>, ghost all: seq<D>, ghost last: Result<(), SpoolError>)
    returns (documents: seq<D>, end: Result<(), SpoolError>)
    requires reader.Valid() && ParsesTo(codec, reader.Left(), all, last)
    modifies reader
    ensures reader.Valid() && (old(reader.Reliable()) ==> end != Err(Io))
    ensures end != Err(Io) ==> documents == all && end == last
    ensures end == Err(Io) ==> documents <= all
  {
    documents := [];
    ghost var more := all;
    while true
      invariant reader.Valid() && (old(reader.Reliable()) ==> reader.Reliable())
      invariant ParsesTo(codec, reader.Left(), more, last) && all == documents + more
      decreases |reader.Left()|
    {
      ghost var before := reader.Left();
      var document := ReadFrame(reader, codec);
      match document {
        case Err(error) =>
          if error == Io {
            return documents, Err(Io);
          }
          EndsWithoutFrame(codec, before, more, last);
          return documents, Err(error);
        case Ok(None) =>
          EndsWithoutFrame(codec, before, more, last);
          return documents, Ok(());
        case Ok(Some(d)) =>
          BehindFirstFrame(codec, before, d, reader.Left(), more, last);
          more := more[1..];
          documents := documents + [d];
      }
    }
  }

  // -------------------------------------------------------------------------
  // Round trips

  /** A frame in front of anything is read back, and leaves exactly the rest. */
  lemma FrameRoundTrip<D(!new)>(codec: Codec<D>, d: D, after: seq<Byte>)
    requires RoundTrips(codec) && Fits(codec, d)
    ensures ParseFrame(codec, Frame(codec, d) + after) == (Ok(Some(d)), after)
  {
    var payload := codec.encode(d);
    var whole := Frame(codec, d) + after;
    LengthRoundTrip(|payload|);
    assert whole[..HEADER_BYTES] == LittleEndian(|payload|);
    assert whole[HEADER_BYTES..] == payload + after;
    assert (payload + after)[..|payload|] == payload && (payload + after)[|payload|..] == after;
  }

  /** Reading a segment gives back exactly the documents written, then a clean end. */
  lemma {:induction false} StreamRoundTrip<D(!new)>(codec: Codec<D>, documents: seq<D>)
    requires RoundTrips(codec) && forall d :: d in documents ==> Fits(codec, d)
    ensures ParseAll(codec, Stream(codec, documents)) == (documents, Ok(()))
  {
    if documents != [] {
      FrameRoundTrip(codec, documents[0], Stream(codec, documents[1..]));
      StreamRoundTrip(codec, documents[1..]);
      assert [documents[0]] + documents[1..] == documents;
    }
  }

  /** A frame cut short is an error, unless nothing of it is left. */
  lemma CutFrameIsAnError<D(!new)>(codec: Codec<D>, d: D, n: nat)
    requires Fits(codec, d) && 0 < n < |Frame(codec, d)|
    ensures ParseFrame(codec, Frame(codec, d)[..n]).0
            == Err(if n < HEADER_BYTES then Truncated(HEADER_BYTES, n)
                   else Truncated(|codec.encode(d)|, n - HEADER_BYTES))
  {
    var payload := codec.encode(d);
    var cut := Frame(codec, d)[..n];
    if n >= HEADER_BYTES {
      LengthRoundTrip(|payload|);
      assert cut[..HEADER_BYTES] == LittleEndian(|payload|);
    }
  }

  /** A first frame cut short, or nothing at all. */
  lemma CutFirst<D(!new)>(codec: Codec<D>, d: D, after: seq<Byte>, n: nat) returns (end: Result<(), SpoolError>)
    requires Fits(codec, d) && n < |Frame(codec, d)|
    ensures ParsesTo(codec, (Frame(codec, d) + after)[..n], [], end) && (end.Ok? <==> n == 0)
  {
    var cut := Frame(codec, d)[..n];
    assert (Frame(codec, d) + after)[..n] == cut;
    if n > 0 {
      CutFrameIsAnError(codec, d, n);
    }
    NoFrame(codec, cut);
    end := EndAt(ParseFrame(codec, cut).0);
  }

  lemma FrameThen<D(!new)>(codec: Codec<D>, d: D, after: seq<Byte>, documents: seq<D>, end: Result<(), SpoolError>)
    requires RoundTrips(codec) && Fits(codec, d) && ParsesTo(codec, after, documents, end)
    ensures ParsesTo(codec, Frame(codec, d) + after, [d] + documents, end)
  {
    FrameRoundTrip(codec, d, after);
    FirstFrame(codec, Frame(codec, d) + after, d, after, documents, end);
  }

  lemma {:induction false} CutParses<D(!new)>(codec: Codec<D>, documents: seq<D>, k: nat, n: nat)
    returns (end: Result<(), SpoolError>)
    requires RoundTrips(codec) && forall d :: d in documents ==> Fits(codec, d)
    requires k < |documents|
    requires |Stream(codec, documents[..k])| <= n < |Stream(codec, documents[..k])| + |Frame(codec, documents[k])|
    ensures n <= |Stream(codec, documents)|
    ensures ParsesTo(codec, Stream(codec, documents)[..n], documents[..k], end)
    ensures end.Ok? <==> n == |Stream(codec, documents[..k])|
    decreases k
  {
    var d, rest := documents[0], documents[1..];
    if k == 0 {
      end := CutFirst(codec, d, Stream(codec, rest), n);
    } else {
      var m := n - |Frame(codec, d)|;
      assert documents[..k] == [d] + rest[..k - 1];
      assert documents[..k][1..] == rest[..k - 1];
      end := CutParses(codec, rest, k - 1, m);
      FrameThen(codec, d, Stream(codec, rest)[..m], rest[..k - 1], end);
      assert Stream(codec, documents)[..n] == Frame(codec, d) + Stream(codec, rest)[..m];
    }
  }

  /**
   A segment cut anywhere gives back its complete frames; the end is clean exactly
   when the cut is on a frame boundary.
   */
  lemma CutStream<D(!new)>(codec: Codec<D>, documents: seq<D>, k: nat, n: nat)
    requires RoundTrips(codec) && forall d :: d in documents ==> Fits(codec, d)
    requires k < |documents|
    requires |Stream(codec, documents[..k])| <= n < |Stream(codec, documents[..k])| + |Frame(codec, documents[k])|
    ensures n <= |Stream(codec, documents)|
    ensures var (read, end) := ParseAll(codec, Stream(codec, documents)[..n]);
            read == documents[..k] && (end.Ok? <==> n == |Stream(codec, documents[..k])|)
  {
    var end := CutParses(codec, documents, k, n);
    ParsesMeaning(codec, Stream(codec, documents)[..n], documents[..k], end);
  }

  /** Every cut before the end falls into some frame. */
  lemma {:induction false} CutFallsIntoFrame<D>(codec: Codec<D>, documents: seq<D>, n: nat) returns (k: nat)
    requires forall d :: d in documents ==> Fits(codec, d)
    requires n < |Stream(codec, documents)|
    ensures k < |documents|
    ensures |Stream(codec, documents[..k])| <= n < |Stream(codec, documents[..k])| + |Frame(codec, documents[k])|
  {
    var d, rest := documents[0], documents[1..];
    if n < |Frame(codec, d)| {
      k := 0;
    } else {
      var j := CutFallsIntoFrame(codec, rest, n - |Frame(codec, d)|);
      k := j + 1;
      assert documents[..k] == [d] + rest[..j] && documents[..k][1..] == rest[..j];
    }
  }

  /** Good frames in front of anything give their documents, and then what the rest gives. */
  lemma {:induction false} StreamThen<D(!new)>(codec: Codec<D>, documents: seq<D>, rest: seq<Byte>, more: seq<D>,
                                               end: Result<(), SpoolError>)
    requires RoundTrips(codec) && forall d :: d in documents ==> Fits(codec, d)
    requires ParsesTo(codec, rest, more, end)
    ensures ParsesTo(codec, Stream(codec, documents) + rest, documents + more, end)
  {
    if documents == [] {
      assert Stream(codec, documents) + rest == rest && documents + more == more;
    } else {
      var after := Stream(codec, documents[1..]) + rest;
      StreamThen(codec, documents[1..], rest, more, end);
      FrameThen(codec, documents[0], after, documents[1..] + more, end);
      assert Stream(codec, documents) + rest == Frame(codec, documents[0]) + after;
      assert [documents[0]] + (documents[1..] + more) == documents + more;
    }
  }

  /** A frame that does not decode ends the reading: the documents before it are kept, those behind it are not read. */
  lemma UndecodableFrameEndsReading<D(!new)>(codec: Codec<D>, documents: seq<D>, payload: seq<Byte>, after: seq<Byte>)
    requires RoundTrips(codec) && forall d :: d in documents ==> Fits(codec, d)
    requires |payload| < LENGTH_LIMIT && codec.decode(payload) == None
    ensures ParseAll(codec, Stream(codec, documents) + (LittleEndian(|payload|) + payload + after))
            == (documents, Err(Decode))
  {
    var bad := LittleEndian(|payload|) + payload + after;
    UndecodableFrame(codec, payload, after);
    NoFrame(codec, bad);
    StreamThen(codec, documents, bad, [], Err(Decode));
    assert documents + [] == documents;
    ParsesMeaning(codec, Stream(codec, documents) + bad, documents, Err(Decode));
  }

  lemma UndecodableFrame<D>(codec: Codec<D>, payload: seq<Byte>, after: seq<Byte>)
    requires |payload| < LENGTH_LIMIT && codec.decode(payload) == None
    ensures ParseFrame(codec, LittleEndian(|payload|) + payload + after) == (Err(Decode), after)
  {
    var whole := LittleEndian(|payload|) + payload + after;
    LengthRoundTrip(|payload|);
    assert whole[..HEADER_BYTES] == LittleEndian(|payload|);
    assert whole[HEADER_BYTES..] == payload + after;
  }

  /** The header has the least significant byte first. */
  lemma LeastFirst(n: nat)
    requires n < LENGTH_LIMIT
    ensures var header := LittleEndian(n);
            && |header| == 4
            && n == (header[0] as int) + 0x100 * (header[1] as int) + 0x1_0000 * (header[2] as int)
                    + 0x100_0000 * (header[3] as int)
  {
    LengthRoundTrip(n);
  }
}
