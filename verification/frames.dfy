/** The per-chunk decoder of the realtime stream (`connectRealtime` in
    pocket-internal.ts). The input is the stream already cut at blank lines;
    `JSON.parse` is the parameter `parse`, which fails with None. */
module Frames {
  import opened Results
  import opened Model
  import opened Text
  import Normalize

  /** A decoded payload: either the `{ action, record }` of a data frame or
      some other JSON value (the connection frame carries `{ clientId }`). */
  datatype Json = DataPayload(action: SyncCause, record: Normalize.RawMessage) | OtherJson

  /** A decoded frame; `kind` is the event-type line. */
  datatype Frame = Frame(id: string, kind: string, data: Json)

  const LineBreak := '\n'

  /** Lengths of the line prefixes the decoder strips: "id:", "event:", "data:". */
  const IdPrefixLength := 3
  const KindPrefixLength := 6
  const DataPrefixLength := 5

  /** An empty chunk, a chunk with fewer than three lines and a chunk whose
      third line does not parse all yield nothing; otherwise the frame is
      the first three lines with 3, 6 and 5 characters dropped, whatever
      those characters are, and later lines are ignored. */
  function DecodeChunk(chunk: string, parse: string -> Option<Json>): (r: Option<Frame>)
    ensures chunk == "" ==> r.None?
    ensures r.Some? <==>
              |Split(chunk, LineBreak)| >= 3 && parse(SliceFrom(Split(chunk, LineBreak)[2], DataPrefixLength)).Some?
    ensures r.Some? ==>
              && r.value.id == SliceFrom(Split(chunk, LineBreak)[0], IdPrefixLength)
              && r.value.kind == SliceFrom(Split(chunk, LineBreak)[1], KindPrefixLength)
              && parse(SliceFrom(Split(chunk, LineBreak)[2], DataPrefixLength)) == Some(r.value.data)
  {
    if chunk == "" then None
    else
      var lines := Split(chunk, LineBreak);
      if |lines| < 3 then None
      else
        match parse(SliceFrom(lines[2], DataPrefixLength))
        case None => None
        case Some(data) =>
          Some(Frame(SliceFrom(lines[0], IdPrefixLength), SliceFrom(lines[1], KindPrefixLength), data))
  }

  /** A chunk with fewer than two line breaks never yields a frame. */
  lemma TooFewLinesDropped(chunk: string, parse: string -> Option<Json>)
    requires multiset(chunk)[LineBreak] < 2
    ensures DecodeChunk(chunk, parse) == None
  {
    SplitCount(chunk, LineBreak);
  }

  /** The wire form of one frame: id, event type and data lines. */
  function EncodeFrame(id: string, kind: string, data: string): (wire: string) {
    "id:" + id + [LineBreak] + "event:" + kind + [LineBreak] + "data:" + data
  }

  /** The lines of an encoded frame are its three prefixed lines. */
  lemma EncodedLines(id: string, kind: string, data: string)
    requires LineBreak !in id && LineBreak !in kind && LineBreak !in data
    ensures Split(EncodeFrame(id, kind, data), LineBreak) == ["id:" + id, "event:" + kind, "data:" + data]
  {
    var lines := ["id:" + id, "event:" + kind, "data:" + data];
    assert EncodeFrame(id, kind, data) == Join(lines, LineBreak) by {
      assert lines[1..][1..] == ["data:" + data];
      assert Join(lines[1..][1..], LineBreak) == "data:" + data;
      assert Join(lines[1..], LineBreak) == "event:" + kind + [LineBreak] + "data:" + data;
    }
    assert LineBreak !in lines[0] by { assert lines[0] == "id:" + id; }
    assert LineBreak !in lines[1] by { assert lines[1] == "event:" + kind; }
    assert LineBreak !in lines[2] by { assert lines[2] == "data:" + data; }
    JoinSplit(lines, LineBreak);
  }

  /** Decoding an encoded frame gives back its id and type and the parse of
      its data, or nothing when the data does not parse. */
  lemma DecodeEncodedFrame(id: string, kind: string, data: string, parse: string -> Option<Json>)
    requires LineBreak !in id && LineBreak !in kind && LineBreak !in data
    ensures DecodeChunk(EncodeFrame(id, kind, data), parse) ==
              if parse(data).Some? then Some(Frame(id, kind, parse(data).value)) else None
  {
    EncodedLines(id, kind, data);
    SliceFromPrefix("id:", id);
    SliceFromPrefix("event:", kind);
    SliceFromPrefix("data:", data);
  }

  /** Lines after the third do not change the decoded frame. */
  lemma ExtraLinesIgnored(chunk: string, extra: string, parse: string -> Option<Json>)
    requires |Split(chunk, LineBreak)| >= 3
    ensures DecodeChunk(chunk + [LineBreak] + extra, parse) == DecodeChunk(chunk, parse)
  {
    SplitAppend(chunk, extra, LineBreak);
    var lines := Split(chunk, LineBreak);
    var longer := Split(chunk + [LineBreak] + extra, LineBreak);
    assert longer[0] == lines[0] && longer[1] == lines[1] && longer[2] == lines[2];
  }

  /** Every chunk decoded in order; chunks that yield nothing are skipped
      and decoding carries on with the next one. */
  function DecodeStream(chunks: seq<string>, parse: string -> Option<Json>): (frames: seq<Frame>)
    ensures |frames| <= |chunks|
    ensures forall f :: f in frames ==> exists c :: c in chunks && DecodeChunk(c, parse) == Some(f)
    decreases |chunks|
  {
    if |chunks| == 0 then []
    else
      var rest := DecodeStream(chunks[1..], parse);
      assert forall c :: c in chunks[1..] ==> c in chunks;
      match DecodeChunk(chunks[0], parse)
      case None => rest
      case Some(f) => [f] + rest
  }

  /** A single chunk contributes its frame when it decodes and nothing
      otherwise; with `DecodeStreamAppend` this fixes the whole stream. */
  lemma DecodeStreamOne(c: string, parse: string -> Option<Json>)
    ensures DecodeStream([c], parse) ==
              if DecodeChunk(c, parse).Some? then [DecodeChunk(c, parse).value] else []
  {
  }

  /** Decoding distributes over concatenation: what one part of the stream
      yields never depends on another part. */
  lemma {:induction false} DecodeStreamAppend(a: seq<string>, b: seq<string>, parse: string -> Option<Json>)
    ensures DecodeStream(a + b, parse) == DecodeStream(a, parse) + DecodeStream(b, parse)
    decreases |a|
  {
    if |a| > 0 {
      assert (a + b)[0] == a[0];
      assert (a + b)[1..] == a[1..] + b;
      DecodeStreamAppend(a[1..], b, parse);
    } else {
      assert a + b == b;
    }
  }

  /** A chunk that yields nothing, between any two parts of the stream,
      leaves the frames of both parts intact. */
  lemma MalformedChunkSkipped(a: seq<string>, bad: string, b: seq<string>, parse: string -> Option<Json>)
    requires DecodeChunk(bad, parse).None?
    ensures DecodeStream(a + [bad] + b, parse) == DecodeStream(a, parse) + DecodeStream(b, parse)
  {
    assert a + [bad] + b == a + ([bad] + b);
    DecodeStreamAppend(a, [bad] + b, parse);
    DecodeStreamAppend([bad], b, parse);
    DecodeStreamOne(bad, parse);
  }

  /** A connection frame followed by a data frame yields exactly those two
      frames. */
  lemma TwoFramesDecoded(
    connectId: string, connectData: string, id: string, kind: string, data: string,
    parse: string -> Option<Json>)
    requires LineBreak !in connectId && LineBreak !in connectData
    requires LineBreak !in id && LineBreak !in kind && LineBreak !in data
    requires parse(connectData).Some? && parse(data).Some?
    ensures DecodeStream([EncodeFrame(connectId, "PB_CONNECT", connectData), EncodeFrame(id, kind, data)], parse)
            == [Frame(connectId, "PB_CONNECT", parse(connectData).value), Frame(id, kind, parse(data).value)]
  {
    DecodeEncodedFrame(connectId, "PB_CONNECT", connectData, parse);
    DecodeEncodedFrame(id, kind, data, parse);
    var chunks := [EncodeFrame(connectId, "PB_CONNECT", connectData), EncodeFrame(id, kind, data)];
    assert chunks[1..] == [EncodeFrame(id, kind, data)];
    assert chunks[1..][1..] == [];
  }
}
