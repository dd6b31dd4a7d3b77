/** Filling the probe's head buffer from an endless body, and the probe end to end. */
module StreamProbe {
  import opened Wrappers
  import opened Bytes
  import opened Codec
  import Mpeg

  /** How much of a stream the probe pulls before hanging up. */
  const STREAM_HEAD_BYTES: nat := 1024

  /** What one `reader.read()` hands over before the body is done: a chunk, or no value at all. */
  type Read = Option<seq<Byte>>

  /** All bytes the body delivers, in order. */
  function Body(chunks: seq<Read>): seq<Byte> {
    if chunks == [] then []
    else (match chunks[0] case Some(chunk) => chunk case None => []) + Body(chunks[1..])
  }

  lemma {:induction false} BodyAppend(a: seq<Read>, b: seq<Read>)
    ensures Body(a + b) == Body(a) + Body(b)
  {
    if a == [] {
      assert a + b == b;
    } else {
      assert (a + b)[1..] == a[1..] + b;
      BodyAppend(a[1..], b);
    }
  }

  function Take(s: seq<Byte>, n: nat): seq<Byte> {
    if |s| <= n then s else s[..n]
  }

  /** However the body is split into chunks, the head is its first 1024 bytes or all of it. */
  method FillHead(chunks: seq<Read>) returns (filledHead: seq<Byte>)
    ensures filledHead == Take(Body(chunks), STREAM_HEAD_BYTES)
  {
    var head := new Byte[STREAM_HEAD_BYTES];
    var filled := 0;
    var next := 0;
    while filled < STREAM_HEAD_BYTES && next < |chunks|
      invariant 0 <= filled <= STREAM_HEAD_BYTES && next <= |chunks|
      invariant head[..filled] == Take(Body(chunks[..next]), STREAM_HEAD_BYTES)
      decreases |chunks| - next
    {
      var value := chunks[next];
      BodyAppend(chunks[..next], [value]);
      assert chunks[..next + 1] == chunks[..next] + [value];
      next := next + 1;
      if value.Some? {
        var chunk := value.value;
        var take := if |chunk| <= STREAM_HEAD_BYTES - filled then |chunk| else STREAM_HEAD_BYTES - filled;
        ghost var before := head[..filled];
        forall i | 0 <= i < take {
          head[filled + i] := chunk[i];
        }
        filled := filled + take;
        assert head[..filled] == before + chunk[..take];
      }
    }
    BodyAppend(chunks[..next], chunks[next..]);
    assert chunks == chunks[..next] + chunks[next..];
    return head[..filled];
  }

  // ---------------------------------------------------------------- the probe end to end

  /** A head in which a frame was found is green exactly for the row that declares mp3 at the rate of that
      frame, provided no other signature holds as well. */
  lemma Mp3RowIsGreenIff(head: seq<Byte>, codec: RadioCodec, bitrate: Option<nat>, icyBr: Option<string>)
    requires Mpeg.FrameStart(head).Some?
    ensures RowIsGreen(codec, bitrate, head, icyBr)
       <==> && !Signature(Vorbis, head) && !Signature(Flac, head)
            && codec == Mp3 && bitrate == Some(Mpeg.FrameStart(head).value.frame.kbps)
  {
    assert Signature(Mp3, head);
    IdentifiedIffUnambiguous(head, Mp3);
    IdentifiedIffUnambiguous(head, Vorbis);
    IdentifiedIffUnambiguous(head, Flac);
  }

  /** A constant-rate MPEG-1 Layer III stream of frames up to 511 bytes, joined at any byte and delivered in
      any chunks: the row that declares the encoded rate is green exactly when no imitation of a frame start
      in the tail of the frame cut into comes first with another rate, and no other signature holds. Then it
      is the only green row. */
  lemma HonestMp3RowIsGreen(
      frames: seq<seq<Byte>>, kbps: nat, cut: nat, chunks: seq<Read>,
      codec: RadioCodec, bitrate: Option<nat>, icyBr: Option<string>)
    requires Mpeg.FramesUpTo(frames, 511) && Mpeg.ConstantRate(frames, kbps)
    requires cut + STREAM_HEAD_BYTES <= |Concat(frames)|
    requires Mpeg.Window(Concat(frames), cut, STREAM_HEAD_BYTES) <= Body(chunks)
    ensures var head := Take(Body(chunks), STREAM_HEAD_BYTES);
            RowIsGreen(Mp3, Some(kbps), head, icyBr)
            <==> && Mpeg.ImitationStates(frames, cut, STREAM_HEAD_BYTES, kbps)
                 && !Signature(Vorbis, head) && !Signature(Flac, head)
    ensures var head := Take(Body(chunks), STREAM_HEAD_BYTES);
            RowIsGreen(Mp3, Some(kbps), head, icyBr) ==>
              (RowIsGreen(codec, bitrate, head, icyBr) <==> codec == Mp3 && bitrate == Some(kbps))
  {
    var head := Take(Body(chunks), STREAM_HEAD_BYTES);
    assert head == Mpeg.Window(Concat(frames), cut, STREAM_HEAD_BYTES);
    Mpeg.RateIsReadIff(frames, kbps, 511, cut, STREAM_HEAD_BYTES);
    Mp3RowIsGreenIff(head, Mp3, Some(kbps), icyBr);
    Mp3RowIsGreenIff(head, codec, bitrate, icyBr);
  }

  /** When a header decodes exactly at the cut it alone decides the row, whatever the stream is encoded at. */
  lemma HeaderAtTheCutDecides(
      stream: seq<Byte>, cut: nat, chunks: seq<Read>, codec: RadioCodec, bitrate: Option<nat>, icyBr: Option<string>)
    requires cut + STREAM_HEAD_BYTES <= |stream| && Mpeg.FrameAt(stream, cut).Some?
    requires Mpeg.Window(stream, cut, STREAM_HEAD_BYTES) <= Body(chunks)
    ensures RowIsGreen(codec, bitrate, Take(Body(chunks), STREAM_HEAD_BYTES), icyBr)
       <==> codec == Mp3 && bitrate == Some(Mpeg.FrameAt(stream, cut).value.kbps)
  {
    var head := Take(Body(chunks), STREAM_HEAD_BYTES);
    assert head == Mpeg.Window(stream, cut, STREAM_HEAD_BYTES);
    Mpeg.HeaderAtTheCutIsBelieved(stream, cut, STREAM_HEAD_BYTES);
    Mp3RowIsGreenIff(head, codec, bitrate, icyBr);
    assert head[0] == stream[cut] && head[1] == stream[cut + 1];
    SyncHeadIsMp3(head);
    IdentifiedIffUnambiguous(head, Mp3);
  }

  /** A whole 128 kbps frame whose payload holds three octets that spell a 32 kbps header. */
  function ImitatingFrame(): (f: seq<Byte>)
    ensures |f| == 417 && Mpeg.WholeFrame(f) && Mpeg.FrameAt(f, 0).value.kbps == 128
    ensures Mpeg.FrameAt(f, 100) == Some(Mpeg.Frame(32, 104))
  {
    var silent := Mpeg.SilentFrame(Mpeg.Header(1, 9, 0, 0, 0, 0));
    var f := silent[100 := 0xff][101 := 0xfb][102 := 0x10];
    Mpeg.FrameAtShift(f, 0, silent, 0);
    f
  }

  /** The cut that meets it: a contiguous constant-rate stream well within the probe's reach reads 32 kbps,
      and the row that truthfully declares 128 goes red. */
  lemma ImitationTurnsATrueRowRed(icyBr: Option<string>)
    ensures var f := ImitatingFrame();
            var frames := [f, f, f, f];
            && Mpeg.FramesUpTo(frames, 417) && Mpeg.ConstantRate(frames, 128) && 100 + STREAM_HEAD_BYTES <= |Concat(frames)|
            && MpegFrameBitrate(Mpeg.Window(Concat(frames), 100, STREAM_HEAD_BYTES)) == Kbps(32)
            && !RowIsGreen(Mp3, Some(128), Mpeg.Window(Concat(frames), 100, STREAM_HEAD_BYTES), icyBr)
  {
    var f := ImitatingFrame();
    var frames := [f, f, f, f];
    Mpeg.ThreeCopies(f);
    assert frames[1..] == [f, f, f];
    assert Concat(frames) == f + (f + f + f);
    Mpeg.FrameAtShift(Concat(frames), 100, f, 100);
    Mpeg.HeaderAtTheCutIsBelieved(Concat(frames), 100, STREAM_HEAD_BYTES);
    var head := Mpeg.Window(Concat(frames), 100, STREAM_HEAD_BYTES);
    assert Body([Some(head)]) == head by {
      assert [Some(head)][1..] == [];
    }
    HeaderAtTheCutDecides(Concat(frames), 100, [Some(head)], Mp3, Some(128), icyBr);
  }

  /** The kilobyte covers every cut of a stream exactly when its frames are at most 511 bytes long, so
      frames of 160 kbps at 44.1 kHz (522 bytes) are already out of reach. */
  lemma KilobyteCoversFramesUpTo511(h: Mpeg.Header)
    requires h.Legal()
    ensures Mpeg.EveryCutResyncs(h.Length(), STREAM_HEAD_BYTES) <==> h.Length() <= 511
  {
    Mpeg.ResyncBoundIsExact(h, STREAM_HEAD_BYTES);
  }

  /** The failing cut: whole frames at an honest 160 kbps, joined one byte late, read as no codec at all. */
  lemma ReggaeCutIsUnidentified()
    ensures var f := Mpeg.SilentFrame(Mpeg.Header(1, 10, 0, 0, 0, 0));
            var stream := Concat([f, f, f]);
            && |f| == 522 && Mpeg.FramesUpTo([f, f, f], 522) && 1 + STREAM_HEAD_BYTES <= |stream|
            && IdentifyCodec(Mpeg.Window(stream, 1, STREAM_HEAD_BYTES)) == None
  {
    var h := Mpeg.Header(1, 10, 0, 0, 0, 0);
    var f := Mpeg.SilentFrame(h);
    assert h.Legal() && h.Length() == 522;
    Mpeg.ResyncBoundIsTight(h, STREAM_HEAD_BYTES);
    Mpeg.ThreeCopies(f);
    var head := Mpeg.Window(Concat([f, f, f]), 1, STREAM_HEAD_BYTES);
    assert head[0] == f[1] == h.Encode()[1] == 0xfb;
    assert forall magic | magic == OGG_PAGE || magic == NATIVE_FLAC_MAGIC :: magic[0] != 0xfb;
    forall magic | magic == OGG_PAGE || magic == NATIVE_FLAC_MAGIC
      ensures !StartsWith(head, magic)
    {
      if StartsWith(head, magic) {
        MatchedOctet(head, magic, 0, 0);
      }
    }
    assert Matched(head) == [];
  }
}
