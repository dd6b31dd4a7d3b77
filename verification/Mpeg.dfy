/** MPEG-1 Layer III frame headers (ISO/IEC 11172-3, section 2.4.2.3) and the search that
    resynchronises on a chain of them from an arbitrary byte offset. */
module Mpeg {
  import opened Wrappers
  import opened Bytes

  /** The kbps a four-bit index states; 0 is "free" and 15 is "reserved". */
  function Kbps(index: nat): Option<nat> {
    match index
    case 1 => Some(32)   case 2 => Some(40)   case 3 => Some(48)   case 4 => Some(56)
    case 5 => Some(64)   case 6 => Some(80)   case 7 => Some(96)   case 8 => Some(112)
    case 9 => Some(128)  case 10 => Some(160) case 11 => Some(192) case 12 => Some(224)
    case 13 => Some(256) case 14 => Some(320) case _ => None
  }

  function SampleRate(index: nat): Option<nat> {
    match index
    case 0 => Some(44100) case 1 => Some(48000) case 2 => Some(32000) case _ => None
  }

  // The bit fields of a header's second and third octets, as shifts and masks.
  predicate IsSync(first: Byte, second: Byte) { first == 0xff && second / 0x20 == 7 }
  function VersionBits(second: Byte): nat { second / 8 % 4 }
  function LayerBits(second: Byte): nat { second / 2 % 4 }
  function RateIndex(third: Byte): nat { third / 16 }
  function FrequencyIndex(third: Byte): nat { third / 4 % 4 }
  function PaddingBit(third: Byte): nat { third / 2 % 2 }

  datatype Frame = Frame(kbps: nat, bytes: nat)

  /** The frame that starts at `at`, or `None` when these octets are not a header. */
  function FrameAt(head: seq<Byte>, at: nat): Option<Frame> {
    if at + 2 >= |head| then None
    else
      var second, third := head[at + 1], head[at + 2];
      if !IsSync(head[at], second) then None
      else if VersionBits(second) != 3 || LayerBits(second) != 1 then None
      else match (Kbps(RateIndex(third)), SampleRate(FrequencyIndex(third)))
        case (Some(kbps), Some(rate)) => Some(Frame(kbps, 144 * kbps * 1000 / rate + PaddingBit(third)))
        case _ => None
  }

  // ---------------------------------------------------------------- the header format

  /** The fields of an MPEG-1 Layer III header; `fourth` is the octet the decoder ignores. */
  datatype Header = Header(protection: nat, rate: nat, frequency: nat, padding: nat, private: nat, fourth: Byte) {
    ghost predicate Legal() {
      protection < 2 && 1 <= rate <= 14 && frequency < 3 && padding < 2 && private < 2
    }

    function Encode(): seq<Byte>
      requires Legal()
    {
      [0xff, 0xfa + protection, 16 * rate + 4 * frequency + 2 * padding + private, fourth]
    }

    function Length(): nat
      requires Legal()
    {
      144 * Kbps(rate).value * 1000 / SampleRate(frequency).value + padding
    }
  }

  /** The header a decodable position spells. */
  function HeaderAt(head: seq<Byte>, at: nat): (h: Header)
    requires at + 4 <= |head|
  {
    var second, third := head[at + 1], head[at + 2];
    Header(second % 2, RateIndex(third), FrequencyIndex(third), PaddingBit(third), third % 2, head[at + 3])
  }

  /** The second octet packs sync, version 3 and layer 1 exactly when it is 0xfa or 0xfb. */
  lemma SecondOctet(second: Byte)
    ensures second / 0x20 == 7 && VersionBits(second) == 3 && LayerBits(second) == 1 <==> second == 0xfa + second % 2
  {
  }

  /** The third octet is its four fields, each within its width. */
  lemma ThirdOctet(third: Byte)
    ensures third == 16 * RateIndex(third) + 4 * FrequencyIndex(third) + 2 * PaddingBit(third) + third % 2
    ensures RateIndex(third) < 16 && FrequencyIndex(third) < 4 && PaddingBit(third) < 2
  {
  }

  lemma ThirdOctetFields(rate: nat, frequency: nat, padding: nat, private: nat)
    requires rate < 16 && frequency < 4 && padding < 2 && private < 2
    ensures var third := 16 * rate + 4 * frequency + 2 * padding + private;
            third < 256 && RateIndex(third) == rate && FrequencyIndex(third) == frequency && PaddingBit(third) == padding
  {
  }

  /** The bit fields of an encoded header are the ones that were put in. */
  lemma FieldsRoundTrip(h: Header)
    requires h.Legal()
    ensures var e := h.Encode();
            && IsSync(e[0], e[1]) && VersionBits(e[1]) == 3 && LayerBits(e[1]) == 1
            && RateIndex(e[2]) == h.rate && FrequencyIndex(e[2]) == h.frequency && PaddingBit(e[2]) == h.padding
  {
    SecondOctet(h.Encode()[1]);
    ThirdOctetFields(h.rate, h.frequency, h.padding, h.private);
  }

  lemma LegalHeaderDecodes(head: seq<Byte>, at: nat, h: Header)
    requires at + 4 <= |head| && h.Legal() && head[at..at + 4] == h.Encode()
    ensures FrameAt(head, at) == Some(Frame(Kbps(h.rate).value, h.Length()))
  {
    var four := head[at..at + 4];
    assert four[0] == head[at] && four[1] == head[at + 1] && four[2] == head[at + 2];
    FieldsRoundTrip(h);
  }

  lemma DecodedHeaderIsLegal(head: seq<Byte>, at: nat)
    requires at + 4 <= |head| && FrameAt(head, at).Some?
    ensures HeaderAt(head, at).Legal() && head[at..at + 4] == HeaderAt(head, at).Encode()
  {
    var second, third := head[at + 1], head[at + 2];
    SecondOctet(second);
    ThirdOctet(third);
    assert head[at..at + 4] == [head[at], second, third, head[at + 3]];
  }

  /** Four octets decode exactly when they are the encoding of some legal header, and the decoder
      reads back that header's rate and length. */
  lemma FrameAtIffHeader(head: seq<Byte>, at: nat)
    requires at + 4 <= |head|
    ensures FrameAt(head, at).Some? <==> exists h: Header :: h.Legal() && head[at..at + 4] == h.Encode()
    ensures forall h: Header | h.Legal() && head[at..at + 4] == h.Encode() ::
              FrameAt(head, at) == Some(Frame(Kbps(h.rate).value, h.Length()))
  {
    if FrameAt(head, at).Some? {
      DecodedHeaderIsLegal(head, at);
    }
    forall h: Header | h.Legal() && head[at..at + 4] == h.Encode()
      ensures FrameAt(head, at) == Some(Frame(Kbps(h.rate).value, h.Length()))
    {
      LegalHeaderDecodes(head, at, h);
    }
  }

  /** Every decoded frame states one of the fourteen legal rates and a length in [96, 1441]. */
  lemma FrameBounds(head: seq<Byte>, at: nat)
    requires FrameAt(head, at).Some?
    ensures FrameAt(head, at).value.kbps in {32, 40, 48, 56, 64, 80, 96, 112, 128, 160, 192, 224, 256, 320}
    ensures 96 <= FrameAt(head, at).value.bytes <= 1441
  {
    var third := head[at + 2];
    LengthBounds(RateIndex(third), FrequencyIndex(third));
  }

  lemma LengthBounds(rate: nat, frequency: nat)
    requires 1 <= rate <= 14 && frequency < 3
    ensures 96 <= 144 * Kbps(rate).value * 1000 / SampleRate(frequency).value <= 1440
  {
  }

  // ---------------------------------------------------------------- the tables

  function Octave(k: nat): nat { if k == 0 then 1 else 2 * Octave(k - 1) }

  /** The standard's rates rise in octaves of four equal steps: 32, 40, 48, 56, then 64, 80, 96, 112, and so on. */
  lemma RatesRiseInOctaves(head: seq<Byte>, at: nat)
    requires FrameAt(head, at).Some?
    ensures 1 <= RateIndex(head[at + 2]) <= 14
    ensures FrameAt(head, at).value.kbps == 8 * (4 + (RateIndex(head[at + 2]) - 1) % 4) * Octave((RateIndex(head[at + 2]) - 1) / 4)
  {
    OctavesOf(RateIndex(head[at + 2]));
  }

  lemma OctavesOf(index: nat)
    requires Kbps(index).Some?
    ensures 1 <= index <= 14 && Kbps(index).value == 8 * (4 + (index - 1) % 4) * Octave((index - 1) / 4)
  {
    assert Octave(1) == 2 && Octave(2) == 4 && Octave(3) == 8;
  }

  /** A higher index states a higher rate. */
  lemma RatesAscend(g: Header, h: Header)
    requires g.Legal() && h.Legal() && g.rate < h.rate
    ensures FrameAt(g.Encode(), 0).Some? && FrameAt(h.Encode(), 0).Some?
    ensures FrameAt(g.Encode(), 0).value.kbps < FrameAt(h.Encode(), 0).value.kbps
  {
    EncodingDecodes(g);
    EncodingDecodes(h);
  }

  lemma EncodingDecodes(h: Header)
    requires h.Legal()
    ensures FrameAt(h.Encode(), 0) == Some(Frame(Kbps(h.rate).value, h.Length()))
  {
    assert h.Encode()[0..4] == h.Encode();
    LegalHeaderDecodes(h.Encode(), 0, h);
  }

  /** A frame holds 1152 samples: its stated length, padding aside, is what its rate transmits in that time,
      rounded down, at 44.1, 48 or 32 kHz as the frequency bits say. */
  lemma LengthIsOneFrameOfSamples(head: seq<Byte>, at: nat)
    requires FrameAt(head, at).Some?
    ensures var frame, hz := FrameAt(head, at).value, [44100, 48000, 32000];
            var f := FrequencyIndex(head[at + 2]);
            var whole := frame.bytes - PaddingBit(head[at + 2]);
            f < 3 && whole * hz[f] * 8 <= 1152 * frame.kbps * 1000 < (whole + 1) * hz[f] * 8
  {
    var third := head[at + 2];
    LengthIsRoundedDown(Kbps(RateIndex(third)).value, FrequencyIndex(third));
  }

  lemma LengthIsRoundedDown(kbps: nat, frequency: nat)
    requires frequency < 3
    ensures var whole, hz := 144 * kbps * 1000 / SampleRate(frequency).value, [44100, 48000, 32000];
            whole * hz[frequency] * 8 <= 1152 * kbps * 1000 < (whole + 1) * hz[frequency] * 8
  {
  }

  // ---------------------------------------------------------------- the search

  datatype Start = Start(frame: Frame, at: nat)

  /** A position the search stands behind: offset zero on its own header, any other only when the
      length it states lands on another header. */
  predicate Accepts(head: seq<Byte>, at: nat) {
    && at + 4 <= |head|
    && FrameAt(head, at).Some?
    && (at == 0 || FrameAt(head, at + FrameAt(head, at).value.bytes).Some?)
  }

  /** The least accepted position at or after `from`. */
  function FrameStartFrom(head: seq<Byte>, from: nat): (r: Option<Start>)
    ensures r.Some? ==> from <= r.value.at && Accepts(head, r.value.at)
    ensures r.Some? ==> r.value.frame == FrameAt(head, r.value.at).value
    ensures r.Some? ==> forall j: nat | from <= j < r.value.at :: !Accepts(head, j)
    ensures r.None? ==> forall j: nat | from <= j :: !Accepts(head, j)
    decreases |head| - from
  {
    if from + 4 > |head| then None
    else if Accepts(head, from) then Some(Start(FrameAt(head, from).value, from))
    else FrameStartFrom(head, from + 1)
  }

  function FrameStart(head: seq<Byte>): Option<Start> {
    FrameStartFrom(head, 0)
  }

  /** The source's loop, branch for branch: it finds the least accepted position. */
  method ScanFrameStart(head: seq<Byte>) returns (r: Option<Start>)
    ensures r == FrameStart(head)
    ensures r.Some? ==> Accepts(head, r.value.at) && forall j: nat | j < r.value.at :: !Accepts(head, j)
    ensures r.None? ==> forall j: nat :: !Accepts(head, j)
  {
    var at := 0;
    while at + 4 <= |head|
      invariant FrameStart(head) == FrameStartFrom(head, at)
    {
      var frame := FrameAt(head, at);
      if frame.Some? {
        if at == 0 && FrameAt(head, frame.value.bytes).None? {
          return Some(Start(frame.value, at));
        }
        if FrameAt(head, at + frame.value.bytes).Some? {
          return Some(Start(frame.value, at));
        }
      }
      at := at + 1;
    }
    return None;
  }

  /** One corroborated header anywhere is enough, whatever garbage precedes it. */
  lemma ResyncCompleteness(head: seq<Byte>, k: nat)
    requires k + 4 <= |head| && FrameAt(head, k).Some?
    requires FrameAt(head, k + FrameAt(head, k).value.bytes).Some?
    ensures FrameStart(head).Some? && FrameStart(head).value.at <= k
  {
    assert Accepts(head, k);
  }

  // ---------------------------------------------------------------- contiguous streams

  /** A whole frame: a header whose stated length is the frame's own. */
  ghost predicate WholeFrame(f: seq<Byte>) {
    4 <= |f| && FrameAt(f, 0).Some? && FrameAt(f, 0).value.bytes == |f|
  }

  /** Whole frames, none longer than `longest`, back to back. */
  ghost predicate FramesUpTo(frames: seq<seq<Byte>>, longest: nat) {
    forall k | 0 <= k < |frames| :: WholeFrame(frames[k]) && |frames[k]| <= longest
  }

  /** What a listener reads who joins at byte `cut` and takes `n` bytes. */
  function Window(stream: seq<Byte>, cut: nat, n: nat): (w: seq<Byte>)
    requires cut + n <= |stream|
    ensures |w| == n
  {
    stream[cut..cut + n]
  }

  /** `pos` is the first byte of one of the frames. */
  ghost predicate IsBoundary(frames: seq<seq<Byte>>, pos: int) {
    frames != [] && (pos == 0 || (|frames[0]| <= pos && IsBoundary(frames[1..], pos - |frames[0]|)))
  }

  /** The first frame start at or after `cut`. */
  function FirstStart(frames: seq<seq<Byte>>, cut: nat): nat {
    if cut == 0 || frames == [] then 0
    else if |frames[0]| <= cut then |frames[0]| + FirstStart(frames[1..], cut - |frames[0]|)
    else |frames[0]|
  }

  /** A decoded header only depends on the three octets it is read from. */
  lemma FrameAtShift(a: seq<Byte>, i: nat, b: seq<Byte>, j: nat)
    requires i + 2 < |a| && j + 2 < |b| && a[i] == b[j] && a[i + 1] == b[j + 1] && a[i + 2] == b[j + 2]
    ensures FrameAt(a, i) == FrameAt(b, j)
  {
  }

  /** Headers survive taking a window that still holds their first three octets. */
  lemma FrameAtInWindow(stream: seq<Byte>, cut: nat, n: nat, i: nat, p: nat)
    requires cut + n <= |stream| && i + 3 <= n && p == cut + i
    ensures FrameAt(Window(stream, cut, n), i) == FrameAt(stream, p)
  {
    FrameAtShift(Window(stream, cut, n), i, stream, p);
  }

  lemma FrameAtBehind(f: seq<Byte>, rest: seq<Byte>, i: nat, p: nat)
    requires p == |f| + i
    ensures FrameAt(f + rest, p) == FrameAt(rest, i)
  {
    if i + 2 < |rest| {
      FrameAtShift(f + rest, p, rest, i);
    }
  }

  lemma FrameAtFront(f: seq<Byte>, rest: seq<Byte>)
    requires 3 <= |f|
    ensures FrameAt(f + rest, 0) == FrameAt(f, 0)
  {
    FrameAtShift(f + rest, 0, f, 0);
  }

  /** A header at `at`, and another at `next`, exactly where the first says it is. */
  predicate Chain(s: seq<Byte>, at: nat, next: nat) {
    FrameAt(s, at).Some? && at + FrameAt(s, at).value.bytes == next && FrameAt(s, next).Some?
  }

  lemma ChainBehind(f: seq<Byte>, rest: seq<Byte>, i: nat, j: nat, p: nat, q: nat)
    requires Chain(rest, i, j) && p == |f| + i && q == |f| + j
    ensures Chain(f + rest, p, q)
  {
    FrameAtBehind(f, rest, i, p);
    FrameAtBehind(f, rest, j, q);
  }

  lemma ChainInWindow(stream: seq<Byte>, cut: nat, n: nat, i: nat, j: nat, p: nat, q: nat)
    requires cut + n <= |stream| && i + 3 <= n && j + 3 <= n && p == cut + i && q == cut + j && Chain(stream, p, q)
    ensures Chain(Window(stream, cut, n), i, j)
  {
    FrameAtInWindow(stream, cut, n, i, p);
    FrameAtInWindow(stream, cut, n, j, q);
  }

  lemma RestOfFrames(frames: seq<seq<Byte>>, longest: nat)
    requires FramesUpTo(frames, longest) && frames != []
    ensures FramesUpTo(frames[1..], longest) && WholeFrame(frames[0]) && 4 <= |frames[0]| <= longest
    ensures Concat(frames) == frames[0] + Concat(frames[1..])
  {
  }

  /** A whole frame and what follows it, if that holds a header's three octets. */
  lemma ChainAtFront(frames: seq<seq<Byte>>, longest: nat)
    requires FramesUpTo(frames, longest) && frames != [] && |Concat(frames)| >= |frames[0]| + 3
    ensures Chain(Concat(frames), 0, |frames[0]|)
  {
    var f, rest := frames[0], frames[1..];
    RestOfFrames(frames, longest);
    assert rest != [];
    RestOfFrames(rest, longest);
    FrameAtFront(f, Concat(rest));
    FrameAtFront(rest[0], Concat(rest[1..]));
    FrameAtBehind(f, Concat(rest), 0, |f|);
  }

  /** Every boundary with a full frame and three octets behind it starts a chain. */
  lemma {:induction false} ChainAtBoundary(frames: seq<seq<Byte>>, longest: nat, b: nat) returns (next: nat)
    requires FramesUpTo(frames, longest) && IsBoundary(frames, b) && b + longest + 3 <= |Concat(frames)|
    ensures b < next <= b + longest && Chain(Concat(frames), b, next)
  {
    var f, rest := frames[0], frames[1..];
    RestOfFrames(frames, longest);
    if b == 0 {
      next := |f|;
      ChainAtFront(frames, longest);
    } else {
      var i := b - |f|;
      var j := ChainAtBoundary(rest, longest, i);
      next := |f| + j;
      ChainBehind(f, Concat(rest), i, j, b, next);
    }
  }

  /** Less than one frame after any cut a frame starts, and `FirstStart` is the first that does. */
  lemma {:induction false} FirstStartIsNext(frames: seq<seq<Byte>>, longest: nat, cut: nat)
    requires FramesUpTo(frames, longest) && cut + longest <= |Concat(frames)| && 1 <= longest
    ensures cut <= FirstStart(frames, cut) < cut + longest && IsBoundary(frames, FirstStart(frames, cut))
    ensures forall p: nat | cut <= p && IsBoundary(frames, p) :: FirstStart(frames, cut) <= p
  {
    if cut > 0 {
      var f, rest := frames[0], frames[1..];
      RestOfFrames(frames, longest);
      if |f| <= cut {
        FirstStartIsNext(rest, longest, cut - |f|);
      } else {
        assert rest != [] && IsBoundary(rest, 0);
      }
    }
  }

  // ---------------------------------------------------------------- main results

  /** Cut a contiguous stream of frames no longer than `longest` anywhere: `2 * longest + 2` bytes
      are enough to find a frame, no later than the first that starts in the window. */
  lemma StreamResync(frames: seq<seq<Byte>>, longest: nat, cut: nat, n: nat)
    requires FramesUpTo(frames, longest) && 1 <= longest
    requires 2 * longest + 2 <= n && cut + n <= |Concat(frames)|
    ensures var found := FrameStart(Window(Concat(frames), cut, n));
            found.Some? && found.value.at < longest && cut + found.value.at <= FirstStart(frames, cut)
  {
    var s, b := Concat(frames), FirstStart(frames, cut);
    FirstStartIsNext(frames, longest, cut);
    var next := ChainAtBoundary(frames, longest, b);
    ChainInWindow(s, cut, n, b - cut, next - cut, b, next);
    ChainIsFound(Window(s, cut, n), b - cut, next - cut);
  }

  lemma ChainIsFound(head: seq<Byte>, at: nat, next: nat)
    requires at + 4 <= |head| && Chain(head, at, next)
    ensures Accepts(head, at) && FrameStart(head).Some? && FrameStart(head).value.at <= at
  {
    ResyncCompleteness(head, at);
  }

  /** A header at `at` that lands on another one, whose three octets end inside the window of `n` octets
      at `cut`. */
  predicate ChainsWithin(s: seq<Byte>, at: nat, cut: nat, n: nat) {
    && FrameAt(s, at).Some?
    && at + FrameAt(s, at).value.bytes + 3 <= cut + n && FrameAt(s, at + FrameAt(s, at).value.bytes).Some?
  }

  /** The tail of the frame that was cut into imitates a frame start at `p`: a header decodes at the cut
      itself, where one alone is believed, or behind it and lands on another inside the window. */
  ghost predicate Imitates(frames: seq<seq<Byte>>, cut: nat, n: nat, p: nat) {
    && cut <= p < FirstStart(frames, cut)
    && if p == cut then FrameAt(Concat(frames), p).Some? else ChainsWithin(Concat(frames), p, cut, n)
  }

  /** Chance syncs, lone headers behind the cut, and anything at all from the first real start on are free
      to occur. */
  ghost predicate Undisturbed(frames: seq<seq<Byte>>, cut: nat, n: nat) {
    forall p: nat :: !Imitates(frames, cut, n, p)
  }

  ghost predicate FirstImitation(frames: seq<seq<Byte>>, cut: nat, n: nat, p: nat) {
    Imitates(frames, cut, n, p) && forall r: nat | r < p :: !Imitates(frames, cut, n, r)
  }

  /** The first imitation, if there is one, states this rate. */
  ghost predicate ImitationStates(frames: seq<seq<Byte>>, cut: nat, n: nat, kbps: nat) {
    forall p: nat | FirstImitation(frames, cut, n, p) :: StatesRate(Concat(frames), p, kbps)
  }

  /** What the search accepts in a window, in terms of the stream. */
  lemma AcceptedInWindow(stream: seq<Byte>, cut: nat, n: nat, j: nat, p: nat)
    requires cut + n <= |stream| && j + 4 <= n && p == cut + j
    ensures Accepts(Window(stream, cut, n), j) <==> if j == 0 then FrameAt(stream, p).Some? else ChainsWithin(stream, p, cut, n)
  {
    FrameAtInWindow(stream, cut, n, j, p);
    if FrameAt(stream, p).Some? {
      var next := FrameAt(stream, p).value.bytes;
      if j + next + 3 <= n {
        FrameAtInWindow(stream, cut, n, j + next, p + next);
      }
    }
  }

  /** Before the first real start the search accepts exactly the imitations. */
  lemma AcceptedIffImitation(frames: seq<seq<Byte>>, longest: nat, cut: nat, n: nat, j: nat, p: nat)
    requires FramesUpTo(frames, longest) && 1 <= longest && 2 * longest + 2 <= n && cut + n <= |Concat(frames)|
    requires p == cut + j && p < FirstStart(frames, cut)
    ensures Accepts(Window(Concat(frames), cut, n), j) <==> Imitates(frames, cut, n, p)
  {
    FirstStartIsNext(frames, longest, cut);
    AcceptedInWindow(Concat(frames), cut, n, j, p);
  }

  lemma NoImitationBefore(frames: seq<seq<Byte>>, longest: nat, cut: nat, n: nat, at: nat)
    requires FramesUpTo(frames, longest) && 1 <= longest && 2 * longest + 2 <= n && cut + n <= |Concat(frames)|
    requires forall j: nat | j < at :: !Accepts(Window(Concat(frames), cut, n), j)
    ensures forall r: nat | r < cut + at :: !Imitates(frames, cut, n, r)
  {
    forall r: nat | r < cut + at
      ensures !Imitates(frames, cut, n, r)
    {
      if cut <= r < FirstStart(frames, cut) {
        AcceptedIffImitation(frames, longest, cut, n, r - cut, r);
      }
    }
  }

  /** Where the search ends up, in the window and in the stream. */
  ghost predicate Finds(frames: seq<seq<Byte>>, cut: nat, n: nat, start: Start, p: nat)
    requires cut + n <= |Concat(frames)|
  {
    && FrameStart(Window(Concat(frames), cut, n)) == Some(start) && p == cut + start.at <= FirstStart(frames, cut)
    && FrameAt(Concat(frames), p) == Some(start.frame)
  }

  lemma SearchFinds(frames: seq<seq<Byte>>, longest: nat, cut: nat, n: nat) returns (start: Start, p: nat)
    requires FramesUpTo(frames, longest) && 1 <= longest && 2 * longest + 2 <= n && cut + n <= |Concat(frames)|
    ensures Finds(frames, cut, n, start, p) && start.at < longest
  {
    StreamResync(frames, longest, cut, n);
    start := FrameStart(Window(Concat(frames), cut, n)).value;
    p := cut + start.at;
    FrameAtInWindow(Concat(frames), cut, n, start.at, p);
  }

  /** The search locks on to the first frame that starts in the window, or to the first imitation of one in
      the tail before it. */
  lemma FindsFirstStartOrImitation(frames: seq<seq<Byte>>, longest: nat, cut: nat, n: nat) returns (start: Start, p: nat)
    requires FramesUpTo(frames, longest) && 1 <= longest && 2 * longest + 2 <= n && cut + n <= |Concat(frames)|
    ensures Finds(frames, cut, n, start, p)
    ensures if Undisturbed(frames, cut, n) then p == FirstStart(frames, cut) else FirstImitation(frames, cut, n, p)
  {
    start, p := SearchFinds(frames, longest, cut, n);
    assert Accepts(Window(Concat(frames), cut, n), start.at);
    NoImitationBefore(frames, longest, cut, n, start.at);
    if p < FirstStart(frames, cut) {
      AcceptedIffImitation(frames, longest, cut, n, start.at, p);
    }
  }

  /** So it locks on to the first real start exactly when the tail is undisturbed. */
  lemma LocksOnIffUndisturbed(frames: seq<seq<Byte>>, longest: nat, cut: nat, n: nat)
    requires FramesUpTo(frames, longest) && 1 <= longest
    requires 2 * longest + 2 <= n && cut + n <= |Concat(frames)|
    ensures FrameStart(Window(Concat(frames), cut, n)).Some?
    ensures cut + FrameStart(Window(Concat(frames), cut, n)).value.at == FirstStart(frames, cut) <==> Undisturbed(frames, cut, n)
  {
    var start, p := FindsFirstStartOrImitation(frames, longest, cut, n);
    assert Undisturbed(frames, cut, n) ==> p == FirstStart(frames, cut);
    assert FirstImitation(frames, cut, n, p) ==> p < FirstStart(frames, cut);
  }

  /** A header that decodes exactly at the cut is believed on its own, real frame start or not. */
  lemma HeaderAtTheCutIsBelieved(stream: seq<Byte>, cut: nat, n: nat)
    requires 4 <= n && cut + n <= |stream| && FrameAt(stream, cut).Some?
    ensures FrameStart(Window(stream, cut, n)) == Some(Start(FrameAt(stream, cut).value, 0))
  {
    FrameAtInWindow(stream, cut, n, 0, cut);
    assert Accepts(Window(stream, cut, n), 0);
  }

  ghost predicate ConstantRate(frames: seq<seq<Byte>>, kbps: nat) {
    forall k | 0 <= k < |frames| :: WholeFrame(frames[k]) && FrameAt(frames[k], 0).value.kbps == kbps
  }

  ghost predicate StatesRate(s: seq<Byte>, at: nat, kbps: nat) {
    FrameAt(s, at).Some? ==> FrameAt(s, at).value.kbps == kbps
  }

  lemma {:induction false} BoundaryStatesRate(frames: seq<seq<Byte>>, kbps: nat, pos: nat)
    requires ConstantRate(frames, kbps) && IsBoundary(frames, pos)
    ensures StatesRate(Concat(frames), pos, kbps)
  {
    var f, rest := frames[0], frames[1..];
    if pos == 0 {
      FrameAtFront(f, Concat(rest));
    } else {
      BoundaryStatesRate(rest, kbps, pos - |f|);
      FrameAtBehind(f, Concat(rest), pos - |f|, pos);
    }
  }

  /** Then it reads exactly the rate the stream is encoded at. */
  lemma StreamRateIsRead(frames: seq<seq<Byte>>, kbps: nat, longest: nat, cut: nat, n: nat)
    requires FramesUpTo(frames, longest) && 1 <= longest && ConstantRate(frames, kbps)
    requires 2 * longest + 2 <= n && cut + n <= |Concat(frames)| && Undisturbed(frames, cut, n)
    ensures var found := FrameStart(Window(Concat(frames), cut, n));
            found.Some? && cut + found.value.at == FirstStart(frames, cut) && found.value.frame.kbps == kbps
  {
    LocksOnIffUndisturbed(frames, longest, cut, n);
    FirstStartIsNext(frames, longest, cut);
    var at := FrameStart(Window(Concat(frames), cut, n)).value.at;
    FrameAtInWindow(Concat(frames), cut, n, at, FirstStart(frames, cut));
    BoundaryStatesRate(frames, kbps, FirstStart(frames, cut));
  }

  lemma OnlyOneIsFirst(frames: seq<seq<Byte>>, cut: nat, n: nat, first: nat, kbps: nat)
    requires FirstImitation(frames, cut, n, first)
    ensures ImitationStates(frames, cut, n, kbps) <==> StatesRate(Concat(frames), first, kbps)
  {
    forall p: nat | FirstImitation(frames, cut, n, p)
      ensures p == first
    {
      assert !(p < first) && !(first < p);
    }
  }

  /** The stream's own rate is read exactly when the first imitation in the tail, if there is one, states it. */
  lemma RateIsReadIff(frames: seq<seq<Byte>>, kbps: nat, longest: nat, cut: nat, n: nat)
    requires FramesUpTo(frames, longest) && 1 <= longest && ConstantRate(frames, kbps)
    requires 2 * longest + 2 <= n && cut + n <= |Concat(frames)|
    ensures FrameStart(Window(Concat(frames), cut, n)).Some?
    ensures FrameStart(Window(Concat(frames), cut, n)).value.frame.kbps == kbps <==> ImitationStates(frames, cut, n, kbps)
  {
    var start, p := FindsFirstStartOrImitation(frames, longest, cut, n);
    if Undisturbed(frames, cut, n) {
      StreamRateIsRead(frames, kbps, longest, cut, n);
    } else {
      OnlyOneIsFirst(frames, cut, n, p, kbps);
    }
  }

  /** A frame with this header and an all-zero payload. */
  function SilentFrame(h: Header): (f: seq<Byte>)
    requires h.Legal()
    ensures |f| == h.Length() && h.Encode() <= f && WholeFrame(f)
    ensures forall i | 4 <= i < |f| :: f[i] == 0
  {
    LengthBounds(h.rate, h.frequency);
    var f := h.Encode() + seq(h.Length() - 4, _ => 0);
    assert f[0..4] == h.Encode();
    LegalHeaderDecodes(f, 0, h);
    f
  }

  /** The bound is tight for every header: three silent frames, joined one byte late, are found
      exactly when the window holds `2 * length + 2` bytes. */
  lemma ResyncBoundIsTight(h: Header, n: nat)
    requires h.Legal() && n + 1 <= 3 * h.Length()
    ensures var f := SilentFrame(h);
            var s := Concat([f, f, f]);
            n + 1 <= |s| && (FrameStart(Window(s, 1, n)).Some? <==> 2 * h.Length() + 2 <= n)
  {
    var f := SilentFrame(h);
    var frames := [f, f, f];
    var s := Concat(frames);
    ThreeCopies(f);
    LengthBounds(h.rate, h.frequency);
    if 2 * h.Length() + 2 <= n {
      StreamResync(frames, h.Length(), 1, n);
    } else {
      var w := Window(s, 1, n);
      forall j: nat
        ensures !Accepts(w, j)
      {
        if j + 4 <= |w| && FrameAt(w, j).Some? {
          HeadersOfThreeSilentFrames(h, n, j);
        }
      }
    }
  }

  /** In a window cut one byte in, only the second and third frame starts decode, as `h` itself. */
  lemma HeadersOfThreeSilentFrames(h: Header, n: nat, j: nat)
    requires h.Legal() && n + 1 <= 3 * h.Length() && j + 4 <= n
    requires n + 1 <= |Concat([SilentFrame(h), SilentFrame(h), SilentFrame(h)])|
    requires FrameAt(Window(Concat([SilentFrame(h), SilentFrame(h), SilentFrame(h)]), 1, n), j).Some?
    ensures j + 1 == h.Length() || j + 1 == 2 * h.Length()
    ensures FrameAt(Window(Concat([SilentFrame(h), SilentFrame(h), SilentFrame(h)]), 1, n), j).value.bytes == h.Length()
  {
    var f := SilentFrame(h);
    var s := Concat([f, f, f]);
    FrameAtInWindow(s, 1, n, j, j + 1);
    SyncsOfThreeSilentFrames(h, j + 1);
    ThreeCopies(f);
    FrameAtShift(s, j + 1, f, 0);
  }

  /** `n` bytes find a frame at every cut of every stream with frames up to `longest`. */
  ghost predicate EveryCutResyncs(longest: nat, n: nat) {
    forall frames, cut: nat | FramesUpTo(frames, longest) && cut + n <= |Concat(frames)| ::
      FrameStart(Window(Concat(frames), cut, n)).Some?
  }

  /** For every legal header: `n` bytes cover all streams of frames up to its length exactly when
      they are two such frames and two octets. */
  lemma ResyncBoundIsExact(h: Header, n: nat)
    requires h.Legal()
    ensures EveryCutResyncs(h.Length(), n) <==> 2 * h.Length() + 2 <= n
  {
    LengthBounds(h.rate, h.frequency);
    if 2 * h.Length() + 2 <= n {
      forall frames, cut: nat | FramesUpTo(frames, h.Length()) && cut + n <= |Concat(frames)|
        ensures FrameStart(Window(Concat(frames), cut, n)).Some?
      {
        StreamResync(frames, h.Length(), cut, n);
      }
    } else {
      var f := SilentFrame(h);
      ResyncBoundIsTight(h, n);
      assert FramesUpTo([f, f, f], h.Length());
    }
  }

  lemma ThreeCopies(f: seq<Byte>)
    ensures Concat([f, f, f]) == f + f + f
  {
    assert [f, f, f][1..] == [f, f] && [f, f][1..] == [f];
    assert Concat([f]) == f;
    assert Concat([f, f]) == f + f;
  }

  /** In three silent frames the sync pattern occurs at the three frame starts only. */
  lemma SyncsOfThreeSilentFrames(h: Header, pos: nat)
    requires h.Legal()
    requires var s := Concat([SilentFrame(h), SilentFrame(h), SilentFrame(h)]);
             pos + 1 < |s| && IsSync(s[pos], s[pos + 1])
    ensures pos == 0 || pos == h.Length() || pos == 2 * h.Length()
  {
    var f := SilentFrame(h);
    ThreeCopies(f);
    LengthBounds(h.rate, h.frequency);
    var s := f + f + f;
    var i := if pos < |f| then pos else if pos < 2 * |f| then pos - |f| else pos - 2 * |f|;
    assert s[pos] == f[i];
    assert i + 1 < |f| ==> s[pos + 1] == f[i + 1];
    assert f[1] == h.Encode()[1] && f[2] == h.Encode()[2];
  }

  /** Streams that meet the premises of the main results, at every cut, exist at every legal rate and length. */
  lemma SilentStreamIsHonest(h: Header)
    requires h.Legal()
    ensures var frames := [SilentFrame(h), SilentFrame(h), SilentFrame(h)];
            && FramesUpTo(frames, h.Length()) && ConstantRate(frames, Kbps(h.rate).value)
            && |Concat(frames)| == 3 * h.Length()
            && forall cut: nat, n: nat | h.Length() <= n && cut + n <= |Concat(frames)| :: Undisturbed(frames, cut, n)
  {
    var f := SilentFrame(h);
    ThreeCopies(f);
    assert f[0..4] == h.Encode();
    LegalHeaderDecodes(f, 0, h);
    forall cut: nat, n: nat | h.Length() <= n && cut + n <= |Concat([f, f, f])|
      ensures Undisturbed([f, f, f], cut, n)
    {
      SilentTailIsUndisturbed(h, cut, n);
    }
  }

  lemma SilentTailIsUndisturbed(h: Header, cut: nat, n: nat)
    requires h.Legal() && h.Length() <= n && cut + n <= |Concat([SilentFrame(h), SilentFrame(h), SilentFrame(h)])|
    ensures Undisturbed([SilentFrame(h), SilentFrame(h), SilentFrame(h)], cut, n)
  {
    var f := SilentFrame(h);
    var frames := [f, f, f];
    FirstStartIsNext(frames, h.Length(), cut);
    forall p: nat | cut <= p < FirstStart(frames, cut)
      ensures FrameAt(Concat(frames), p).None?
    {
      if FrameAt(Concat(frames), p).Some? {
        SyncsOfThreeSilentFrames(h, p);
        ThreeStarts(f);
      }
    }
  }

  lemma ThreeStarts(f: seq<Byte>)
    ensures IsBoundary([f, f, f], 0) && IsBoundary([f, f, f], |f|) && IsBoundary([f, f, f], 2 * |f|)
  {
    assert [f, f, f][1..] == [f, f] && [f, f][1..] == [f];
    assert IsBoundary([f, f], 0) && IsBoundary([f], 0) && IsBoundary([f, f], |f|);
  }
}
