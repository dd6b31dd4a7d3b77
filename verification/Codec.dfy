/** What a stream's first bytes say about it: which codec they are, and which bitrate they state. */
module Codec {
  import opened Wrappers
  import opened Bytes
  import Decimal
  import Mpeg

  datatype RadioCodec = Mp3 | Vorbis | Flac

  const OGG_PAGE: seq<Byte> := [0x4f, 0x67, 0x67, 0x53]
  const OGG_VORBIS_ID: seq<Byte> := [0x01, 0x76, 0x6f, 0x72, 0x62, 0x69, 0x73]
  const OGG_FLAC_ID: seq<Byte> := [0x7f, 0x46, 0x4c, 0x41, 0x43]
  const NATIVE_FLAC_MAGIC: seq<Byte> := [0x66, 0x4c, 0x61, 0x43]

  predicate Spells(bytes: seq<Byte>, s: string) {
    |bytes| == |s| && forall i | 0 <= i < |s| :: bytes[i] == s[i] as int
  }

  /** What the four magic numbers spell. */
  lemma MagicsSpell()
    ensures Spells(OGG_PAGE, "OggS") && Spells(NATIVE_FLAC_MAGIC, "fLaC")
    ensures OGG_VORBIS_ID[0] == 1 && Spells(OGG_VORBIS_ID[1..], "vorbis")
    ensures OGG_FLAC_ID[0] == 0x7f && Spells(OGG_FLAC_ID[1..], "FLAC")
  {
  }

  // ---------------------------------------------------------------- codec identification

  predicate StartsWithSync(head: seq<Byte>) {
    |head| >= 2 && Mpeg.IsSync(head[0], head[1])
  }

  predicate Signature(codec: RadioCodec, head: seq<Byte>) {
    match codec
    case Mp3 => StartsWithSync(head) || Mpeg.FrameStart(head).Some?
    case Vorbis => StartsWith(head, OGG_PAGE) && Contains(head, OGG_VORBIS_ID)
    case Flac => (StartsWith(head, OGG_PAGE) && Contains(head, OGG_FLAC_ID)) || StartsWith(head, NATIVE_FLAC_MAGIC)
  }

  /** The codecs whose signature holds, in table order. */
  function Matched(head: seq<Byte>): seq<RadioCodec> {
    (if Signature(Mp3, head) then [Mp3] else [])
    + (if Signature(Vorbis, head) then [Vorbis] else [])
    + (if Signature(Flac, head) then [Flac] else [])
  }

  function IdentifyCodec(head: seq<Byte>): Option<RadioCodec> {
    var matched := Matched(head);
    if |matched| == 1 then Some(matched[0]) else None
  }

  /** The answer is `c` exactly when `c`'s signature holds and no other does. */
  lemma IdentifiedIffUnambiguous(head: seq<Byte>, c: RadioCodec)
    ensures IdentifyCodec(head) == Some(c) <==> Signature(c, head) && forall d | d != c :: !Signature(d, head)
  {
    assert Signature(Mp3, head) || Signature(Vorbis, head) || Signature(Flac, head) || Matched(head) == [];
    if Signature(c, head) && forall d | d != c :: !Signature(d, head) {
      assert forall d | d != c :: !Signature(d, head);
      assert Matched(head) == [c];
    }
  }

  /** A head that opens with an MPEG sync is never ambiguous. */
  lemma SyncHeadIsMp3(head: seq<Byte>)
    requires StartsWithSync(head)
    ensures IdentifyCodec(head) == Some(Mp3)
  {
    forall magic | magic == OGG_PAGE || magic == NATIVE_FLAC_MAGIC
      ensures !StartsWith(head, magic)
    {
      if StartsWith(head, magic) {
        MatchedOctet(head, magic, 0, 0);
      }
    }
    IdentifiedIffUnambiguous(head, Mp3);
  }

  // ---------------------------------------------------------------- bitrate readings

  /** Why a reading failed, as data; the source spells each as a sentence. */
  datatype Complaint =
    | TooShort
    | NoFrame(length: nat)
    | VersionLayer(version: nat, layer: nat)
    | FrequencyIndex(index: nat)
    | RateIndex(index: nat)
    | HeaderCutShort
    | NoIdHeader
    | NotANumeral(raw: string)

  datatype Reading = Absent | Kbps(kbps: nat) | Unreadable(why: Complaint)

  datatype Source = MpegFrame | VorbisNominal | IcyBr

  datatype BitrateReading = BitrateReading(reading: Reading, source: Source)

  function ParseIcyBitrate(header: Option<string>): Reading {
    match header
    case None => Absent
    case Some(s) =>
      if Decimal.IsNumeral(s) && s[0] != '0' then Kbps(Decimal.Value(s)) else Unreadable(NotANumeral(s))
  }

  /** The header states `n` exactly when it is the one canonical spelling of a positive `n`. */
  lemma IcyBitrateIffCanonical(s: string, n: nat)
    ensures ParseIcyBitrate(Some(s)) == Kbps(n) <==> n > 0 && s == Decimal.Show(n)
  {
    if Decimal.IsNumeral(s) && s[0] != '0' {
      Decimal.NumeralIsShown(s);
    }
    Decimal.ShowReadsBack(n);
  }

  function MpegFrameComplaint(head: seq<Byte>): Complaint {
    if |head| < 3 then TooShort
    else if !Mpeg.IsSync(head[0], head[1]) then NoFrame(|head|)
    else
      var version, layer := Mpeg.VersionBits(head[1]), Mpeg.LayerBits(head[1]);
      if version != 3 || layer != 1 then VersionLayer(version, layer)
      else if Mpeg.SampleRate(Mpeg.FrequencyIndex(head[2])).None? then FrequencyIndex(Mpeg.FrequencyIndex(head[2]))
      else RateIndex(Mpeg.RateIndex(head[2]))
  }

  function MpegFrameBitrate(head: seq<Byte>): Reading {
    match Mpeg.FrameStart(head)
    case Some(start) => Kbps(start.frame.kbps)
    case None => Unreadable(MpegFrameComplaint(head))
  }

  /** The complaint quotes the head correctly and what it quotes really rules a frame out. */
  ghost predicate Accurate(why: Complaint, head: seq<Byte>) {
    match why
    case TooShort => |head| < 3
    case NoFrame(length) => length == |head| && !StartsWithSync(head)
    case VersionLayer(v, l) =>
      |head| >= 2 && v == Mpeg.VersionBits(head[1]) && l == Mpeg.LayerBits(head[1]) && (v != 3 || l != 1)
    case FrequencyIndex(i) => |head| >= 3 && i == Mpeg.FrequencyIndex(head[2]) && Mpeg.SampleRate(i).None?
    case RateIndex(i) => |head| >= 3 && i == Mpeg.RateIndex(head[2]) && Mpeg.Kbps(i).None?
    case _ => false
  }

  /** When the search fails its complaint is accurate, except on a head of exactly three octets that
      decode: those are blamed on a bitrate index that is legal. That index is only blamed when the sampling
      rate is legal. */
  lemma ComplaintIsAccurate(head: seq<Byte>)
    requires Mpeg.FrameStart(head).None?
    ensures Accurate(MpegFrameComplaint(head), head) <==> !(|head| == 3 && Mpeg.FrameAt(head, 0).Some?)
    ensures MpegFrameComplaint(head).RateIndex? ==> |head| >= 3 && Mpeg.SampleRate(Mpeg.FrequencyIndex(head[2])).Some?
  {
    assert !Mpeg.Accepts(head, 0);
  }

  /** The smallest of them: the first three octets of an honest 128 kbps frame. */
  lemma ThreeOctetHeadIsMisblamed()
    ensures var head := [0xff, 0xfb, 0x90];
            && MpegFrameBitrate(head) == Unreadable(RateIndex(9)) && Mpeg.Kbps(9) == Some(128)
            && !Accurate(MpegFrameComplaint(head), head)
  {
    var head: seq<Byte> := [0xff, 0xfb, 0x90];
    assert Mpeg.FrameAt(head, 0) == Some(Mpeg.Frame(128, 417));
    ComplaintIsAccurate(head);
  }

  /** `Math.round(nominal / 1000)` of a positive nominal. */
  function RoundedKbps(nominal: nat): nat { (nominal + 500) / 1000 }

  function NominalAt(head: seq<Byte>, at: nat): Reading {
    if at + 24 > |head| then Unreadable(HeaderCutShort)
    else
      var nominal := SignedLe32(head[at + 20], head[at + 21], head[at + 22], head[at + 23]);
      if nominal <= 0 then Absent else Kbps(RoundedKbps(nominal))
  }

  function VorbisNominalBitrate(head: seq<Byte>): Reading {
    match FindFrom(head, OGG_VORBIS_ID, 0)
    case None => Unreadable(NoIdHeader)
    case Some(at) => NominalAt(head, at)
  }

  /** The source's loop: the first identification header decides. */
  method ScanVorbisNominal(head: seq<Byte>) returns (r: Reading)
    ensures r == VorbisNominalBitrate(head)
  {
    var at := 0;
    while at + |OGG_VORBIS_ID| <= |head|
      invariant FindFrom(head, OGG_VORBIS_ID, 0) == FindFrom(head, OGG_VORBIS_ID, at)
    {
      if head[at..at + |OGG_VORBIS_ID|] == OGG_VORBIS_ID {
        if at + 24 > |head| {
          return Unreadable(HeaderCutShort);
        }
        var nominal := SignedLe32(head[at + 20], head[at + 21], head[at + 22], head[at + 23]);
        return if nominal <= 0 then Absent else Kbps(RoundedKbps(nominal));
      }
      at := at + 1;
    }
    return Unreadable(NoIdHeader);
  }

  /** Each codec's authority; `icy-br` is consulted for FLAC only. */
  function ReadBitrate(served: RadioCodec, head: seq<Byte>, icyBr: Option<string>): BitrateReading {
    match served
    case Mp3 => BitrateReading(MpegFrameBitrate(head), MpegFrame)
    case Vorbis => BitrateReading(VorbisNominalBitrate(head), VorbisNominal)
    case Flac => BitrateReading(ParseIcyBitrate(icyBr), IcyBr)
  }

  /** Identification and decoding agree: a head called vorbis has the header the decoder needs, and a
      head called mp3 without opening on a sync yields a rate. */
  lemma DecoderFindsWhatWasIdentified(head: seq<Byte>, icyBr: Option<string>)
    ensures IdentifyCodec(head) == Some(Vorbis) ==> ReadBitrate(Vorbis, head, icyBr).reading != Unreadable(NoIdHeader)
    ensures IdentifyCodec(head) == Some(Mp3) && !StartsWithSync(head) ==> ReadBitrate(Mp3, head, icyBr).reading.Kbps?
  {
    IdentifiedIffUnambiguous(head, Vorbis);
    IdentifiedIffUnambiguous(head, Mp3);
  }

  // ---------------------------------------------------------------- the Vorbis header format

  /** A Vorbis identification header (Vorbis I specification, section 4.2.2). */
  datatype IdHeader = IdHeader(version: nat, channels: Byte, rate: nat, maximum: int, nominal: int, minimum: int, blocks: Byte) {
    ghost predicate Legal() {
      && version < 0x1_0000_0000 && rate < 0x1_0000_0000
      && -0x8000_0000 <= maximum < 0x8000_0000
      && -0x8000_0000 <= nominal < 0x8000_0000
      && -0x8000_0000 <= minimum < 0x8000_0000
    }

    function Encode(): (e: seq<Byte>)
      requires Legal()
      ensures |e| == 30 && OGG_VORBIS_ID <= e && e[20..24] == Le32(TwosComplement(nominal))
    {
      OGG_VORBIS_ID + Le32(version) + [channels] + Le32(rate) + Le32(TwosComplement(maximum))
      + Le32(TwosComplement(nominal)) + Le32(TwosComplement(minimum)) + [blocks, 1]
    }
  }

  /** The reading a header should give once `k` of its octets have arrived. */
  function ExpectedReading(h: IdHeader, k: nat): Reading {
    if k < 7 then Unreadable(NoIdHeader)
    else if k < 24 then Unreadable(HeaderCutShort)
    else if h.nominal <= 0 then Absent
    else Kbps(RoundedKbps(h.nominal))
  }

  /** The magic's first octet occurs nowhere else in it, so it cannot straddle the end of a prefix. */
  lemma MagicCannotStraddle(prefix: seq<Byte>, tail: seq<Byte>, j: nat)
    requires !Contains(prefix, OGG_VORBIS_ID) && (tail == [] || tail[0] == 0x01)
    requires MatchesAt(prefix + tail, OGG_VORBIS_ID, j)
    ensures |prefix| <= j
  {
    var head := prefix + tail;
    if j < |prefix| {
      if j + 7 <= |prefix| {
        assert head[j..j + 7] == prefix[j..j + 7];
        assert MatchesAt(prefix, OGG_VORBIS_ID, j);
      } else {
        MatchedOctet(head, OGG_VORBIS_ID, j, |prefix| - j);
      }
    }
  }

  lemma MagicIsFoundFirst(prefix: seq<Byte>, tail: seq<Byte>)
    requires !Contains(prefix, OGG_VORBIS_ID) && OGG_VORBIS_ID <= tail
    ensures FindFrom(prefix + tail, OGG_VORBIS_ID, 0) == Some(|prefix|)
  {
    var head, p := prefix + tail, |prefix|;
    assert head[p..p + 7] == tail[..7];
    assert MatchesAt(head, OGG_VORBIS_ID, p);
    assert tail[0] == OGG_VORBIS_ID[0];
    MagicCannotStraddle(prefix, tail, FindFrom(head, OGG_VORBIS_ID, 0).value);
  }

  lemma ShortTailHidesMagic(prefix: seq<Byte>, tail: seq<Byte>)
    requires !Contains(prefix, OGG_VORBIS_ID) && |tail| < 7 && tail <= OGG_VORBIS_ID
    ensures FindFrom(prefix + tail, OGG_VORBIS_ID, 0) == None
  {
    var found := FindFrom(prefix + tail, OGG_VORBIS_ID, 0);
    if found.Some? {
      assert tail == [] || tail[0] == OGG_VORBIS_ID[0];
      MagicCannotStraddle(prefix, tail, found.value);
    }
  }

  /** What the four octets of the nominal rate say, wherever the header stands. */
  lemma NominalIsRead(head: seq<Byte>, at: nat, nominal: int)
    requires -0x8000_0000 <= nominal < 0x8000_0000 && at + 24 <= |head|
    requires head[at + 20..at + 24] == Le32(TwosComplement(nominal))
    ensures NominalAt(head, at) == if nominal <= 0 then Absent else Kbps(RoundedKbps(nominal))
  {
    var b := head[at + 20..at + 24];
    assert head[at + 20] == b[0] && head[at + 21] == b[1] && head[at + 22] == b[2] && head[at + 23] == b[3];
    SignedLe32RoundTrip(nominal);
  }

  /** Any identification header after any prefix free of the magic, cut after any number of octets,
      followed by anything: the decoder recovers exactly the nominal rate or says what is missing. */
  lemma VorbisRoundTrip(prefix: seq<Byte>, h: IdHeader, rest: seq<Byte>, k: nat)
    requires h.Legal() && !Contains(prefix, OGG_VORBIS_ID) && k <= 30 + |rest|
    ensures VorbisNominalBitrate(prefix + (h.Encode() + rest)[..k]) == ExpectedReading(h, k)
  {
    var e := h.Encode();
    var tail := (e + rest)[..k];
    if k < 7 {
      assert tail == e[..k] == OGG_VORBIS_ID[..k];
      ShortTailHidesMagic(prefix, tail);
    } else {
      assert tail[..7] == e[..7] == OGG_VORBIS_ID;
      MagicIsFoundFirst(prefix, tail);
      if k >= 24 {
        assert (prefix + tail)[|prefix| + 20..|prefix| + 24] == tail[20..24] == e[20..24];
        NominalIsRead(prefix + tail, |prefix|, h.nominal);
      }
    }
  }

  /** A positive nominal rate is off by at most 500 bits per second, a tie rounds up, and exactly below 500 it
      reads as zero. */
  lemma RoundedKbpsIsNearest(nominal: nat)
    ensures -500 < 1000 * RoundedKbps(nominal) - nominal <= 500
    ensures RoundedKbps(nominal) == 0 <==> nominal < 500
  {
  }

  /** A legal header that nominates 499 bits per second reads as a rate of zero rather than as absent. */
  lemma TinyNominalReadsAsZero(h: IdHeader)
    requires h.Legal() && h.nominal == 499
    ensures VorbisNominalBitrate(h.Encode()) == Kbps(0)
  {
    assert !Contains([], OGG_VORBIS_ID);
    assert [] + (h.Encode() + [])[..30] == h.Encode();
    VorbisRoundTrip([], h, [], 30);
  }

  /** The first page of an Ogg bitstream that carries one packet of 30 octets
      (section 6 of RFC 3533): granule position and sequence number are zero. */
  datatype FirstPage = FirstPage(serial: nat, checksum: nat) {
    ghost predicate Legal() { serial < 0x1_0000_0000 && checksum < 0x1_0000_0000 }

    function Encode(): (e: seq<Byte>)
      requires Legal()
      ensures |e| == 28 && OGG_PAGE <= e
      ensures forall i | 0 <= i < 14 || 18 <= i < 22 :: e[i] != 0x01
      ensures e[18] == 0
    {
      OGG_PAGE + [0, 2] + seq(8, _ => 0) + Le32(serial) + [0, 0, 0, 0] + Le32(checksum) + [1, 30]
    }
  }

  /** Whatever the serial number and the checksum, a first page's header cannot imitate the magic. */
  lemma FirstPageHasNoMagic(page: FirstPage)
    requires page.Legal()
    ensures !Contains(page.Encode(), OGG_VORBIS_ID)
  {
    var e := page.Encode();
    forall j: nat
      ensures !MatchesAt(e, OGG_VORBIS_ID, j)
    {
      if MatchesAt(e, OGG_VORBIS_ID, j) {
        MatchedOctet(e, OGG_VORBIS_ID, j, if 14 <= j < 18 then 18 - j else 0);
      }
    }
  }

  /** A real Vorbis stream's head: the reading is the header's nominal rate, and the head is called
      vorbis unless another signature also holds. */
  lemma VorbisStreamReads(page: FirstPage, h: IdHeader, rest: seq<Byte>)
    requires page.Legal() && h.Legal()
    ensures var head := page.Encode() + (h.Encode() + rest);
            && VorbisNominalBitrate(head) == ExpectedReading(h, 30 + |rest|)
            && (IdentifyCodec(head) == Some(Vorbis) <==> !Contains(head, OGG_FLAC_ID) && Mpeg.FrameStart(head).None?)
  {
    FirstPageHasNoMagic(page);
    var packet := h.Encode() + rest;
    var head := page.Encode() + packet;
    assert packet[..30 + |rest|] == packet;
    VorbisRoundTrip(page.Encode(), h, rest, 30 + |rest|);
    assert head[0..4] == OGG_PAGE;
    assert head[28..35] == OGG_VORBIS_ID;
    assert MatchesAt(head, OGG_VORBIS_ID, 28);
    assert head[0] == head[0..4][0];
    IdentifiedIffUnambiguous(head, Vorbis);
    assert Signature(Vorbis, head);
    assert !StartsWith(head, NATIVE_FLAC_MAGIC);
  }

  // ---------------------------------------------------------------- the two verdicts

  datatype Finding = Unidentified | Serves(codec: RadioCodec) | NotABitrate(why: Complaint) | StatesNone | Says(kbps: nat)

  function CodecFailure(declared: RadioCodec, served: Option<RadioCodec>): Option<Finding> {
    match served
    case None => Some(Unidentified)
    case Some(codec) => if codec != declared then Some(Serves(codec)) else None
  }

  function BitrateFailure(declared: Option<nat>, from: BitrateReading): Option<Finding> {
    match from.reading
    case Unreadable(why) => Some(NotABitrate(why))
    case Absent => if declared.None? then None else Some(StatesNone)
    case Kbps(kbps) => if declared.None? || declared.value != kbps then Some(Says(kbps)) else None
  }

  /** Both stream axes of one table row: no finding on either. */
  predicate RowIsGreen(codec: RadioCodec, bitrate: Option<nat>, head: seq<Byte>, icyBr: Option<string>) {
    var served := IdentifyCodec(head);
    && CodecFailure(codec, served).None?
    && (served.None? || BitrateFailure(bitrate, ReadBitrate(served.value, head, icyBr)).None?)
  }

  // ---------------------------------------------------------------- green rows, codec by codec

  /** What a row must declare to agree with a reading; nothing agrees with an unreadable one. */
  ghost predicate Agrees(declared: Option<nat>, reading: Reading) {
    (reading.Absent? && declared == None) || (reading.Kbps? && declared == Some(reading.kbps))
  }

  lemma GreenIffAgrees(served: RadioCodec, codec: RadioCodec, bitrate: Option<nat>, head: seq<Byte>, icyBr: Option<string>)
    requires IdentifyCodec(head) == Some(served)
    ensures RowIsGreen(codec, bitrate, head, icyBr)
       <==> codec == served && Agrees(bitrate, ReadBitrate(served, head, icyBr).reading)
  {
  }

  /** A head no codec or several codecs claim leaves no row green. */
  lemma UnidentifiedIsNeverGreen(codec: RadioCodec, bitrate: Option<nat>, head: seq<Byte>, icyBr: Option<string>)
    requires forall c :: !Signature(c, head) || exists d :: d != c && Signature(d, head)
    ensures !RowIsGreen(codec, bitrate, head, icyBr)
  {
    IdentifiedIffUnambiguous(head, Mp3);
    IdentifiedIffUnambiguous(head, Vorbis);
    IdentifiedIffUnambiguous(head, Flac);
  }

  /** A head that opens on a sync but holds no frame leaves no row green, silent ones included. */
  lemma FramelessSyncIsNeverGreen(codec: RadioCodec, bitrate: Option<nat>, head: seq<Byte>, icyBr: Option<string>)
    requires StartsWithSync(head) && Mpeg.FrameStart(head).None?
    ensures !RowIsGreen(codec, bitrate, head, icyBr)
  {
    SyncHeadIsMp3(head);
    GreenIffAgrees(Mp3, codec, bitrate, head, icyBr);
  }

  /** A real Vorbis stream's head, cut anywhere in its first packet or behind it: once identified, a row is
      green exactly when the nominal rate has arrived and the row declares vorbis at that rate, or none where
      the header nominates none. */
  lemma VorbisRowIsGreenIff(
      page: FirstPage, h: IdHeader, rest: seq<Byte>, k: nat, codec: RadioCodec, bitrate: Option<nat>, icyBr: Option<string>)
    requires page.Legal() && h.Legal() && k <= 30 + |rest|
    requires IdentifyCodec(page.Encode() + (h.Encode() + rest)[..k]) == Some(Vorbis)
    ensures RowIsGreen(codec, bitrate, page.Encode() + (h.Encode() + rest)[..k], icyBr)
       <==> k >= 24 && codec == Vorbis && bitrate == if h.nominal <= 0 then None else Some(RoundedKbps(h.nominal))
  {
    FirstPageHasNoMagic(page);
    VorbisRoundTrip(page.Encode(), h, rest, k);
    GreenIffAgrees(Vorbis, codec, bitrate, page.Encode() + (h.Encode() + rest)[..k], icyBr);
  }

  /** A FLAC head: a row is green exactly when it declares flac and `icy-br` is absent where the row declares
      no rate, or the canonical numeral of the one it declares. */
  lemma FlacRowIsGreenIff(codec: RadioCodec, bitrate: Option<nat>, head: seq<Byte>, icyBr: Option<string>)
    requires IdentifyCodec(head) == Some(Flac)
    ensures RowIsGreen(codec, bitrate, head, icyBr)
       <==> && codec == Flac
            && if bitrate == None then icyBr == None else bitrate.value > 0 && icyBr == Some(Decimal.Show(bitrate.value))
  {
    GreenIffAgrees(Flac, codec, bitrate, head, icyBr);
    if bitrate.Some? && icyBr.Some? {
      IcyBitrateIffCanonical(icyBr.value, bitrate.value);
    }
  }

  /** A head that opens natively, or on an Ogg page that carries the FLAC mapping, is called flac exactly when
      nothing else in it passes for another codec. */
  lemma FlacStreamIsFlac(head: seq<Byte>, page: seq<Byte>, rest: seq<Byte>)
    requires head == NATIVE_FLAC_MAGIC + rest || (OGG_PAGE <= page && head == page + OGG_FLAC_ID + rest)
    ensures IdentifyCodec(head) == Some(Flac)
       <==> Mpeg.FrameStart(head).None? && !(OGG_PAGE <= head && Contains(head, OGG_VORBIS_ID))
  {
    if head == NATIVE_FLAC_MAGIC + rest {
      assert head[0..4] == NATIVE_FLAC_MAGIC;
      assert head[0] == 0x66;
    } else {
      assert head[0..4] == OGG_PAGE;
      assert head[0] == 0x4f;
      assert head[|page|..|page| + 5] == OGG_FLAC_ID;
      assert MatchesAt(head, OGG_FLAC_ID, |page|);
    }
    assert OGG_PAGE <= head <==> StartsWith(head, OGG_PAGE);
    IdentifiedIffUnambiguous(head, Flac);
  }

  /** Each codec's rate comes from its own authority: `icy-br` from nothing but the header, the others from
      nothing but the bytes. */
  lemma ReadingDependsOnItsAuthority(
      served: RadioCodec, head: seq<Byte>, other: seq<Byte>, icyBr: Option<string>, otherIcy: Option<string>)
    ensures ReadBitrate(served, head, icyBr).source == IcyBr <==> served == Flac
    ensures ReadBitrate(served, head, icyBr).source == VorbisNominal <==> served == Vorbis
    ensures served == Flac ==> ReadBitrate(served, head, icyBr) == ReadBitrate(served, other, icyBr)
    ensures served != Flac ==> ReadBitrate(served, head, icyBr) == ReadBitrate(served, head, otherIcy)
  {
  }

  /** What a finding says is what was measured. */
  lemma FindingsAreAccurate(codec: RadioCodec, served: Option<RadioCodec>, declared: Option<nat>, from: BitrateReading)
    ensures CodecFailure(codec, served) == None <==> served == Some(codec)
    ensures CodecFailure(codec, served) == Some(Unidentified) <==> served == None
    ensures forall c :: CodecFailure(codec, served) == Some(Serves(c)) <==> served == Some(c) && c != codec
    ensures BitrateFailure(declared, from) == None <==> Agrees(declared, from.reading)
    ensures BitrateFailure(declared, from) == Some(StatesNone) <==> from.reading == Absent && declared != None
    ensures forall k: nat :: BitrateFailure(declared, from) == Some(Says(k)) <==> from.reading == Kbps(k) && declared != Some(k)
    ensures forall why :: BitrateFailure(declared, from) == Some(NotABitrate(why)) <==> from.reading == Unreadable(why)
  {
  }
}
