# Models of the radio probe, the contrast contract, the pull curve, the lock gate, the logo mirror, the credits and the network editor

grappa is an IRC bouncer with a browser client, cicchetto. This project models seven pieces of it whose
behaviour is easy to state and hard to be sure of, and proves what each promises:

* **The stream probe** (`Bytes`, `Mpeg`, `Codec`, `StreamProbe`) joins an endless radio stream at an arbitrary
  byte, finds an MPEG-1 Layer III frame (ISO/IEC 11172-3, section 2.4.2.3), decides the codec by signature,
  and reads the bitrate from MPEG frames, from the Vorbis identification header (Vorbis I specification,
  section 4.2.2, inside an Ogg page, section 6 of RFC 3533) or from the `icy-br` header.
* **The contrast contract of the backgrounds** (`Contrast`, `ContrastPremises`): bisection for the brightest
  (dimmest) neutral value that clears the bar, the in-place clamp of an image to per-pixel luminance caps, and
  the claim that text stays legible at every opacity of the slider. Luminance and ratio are those of WCAG 2.x,
  success criterion 1.4.3. The transfer curve is a parameter.
* **The elastic pull** (`PullCurve`) of the channel directory.
* **The lockfile gate** (`LockParser`, `LockDrift`): a scanner for `name@version` pins, the classification of an
  installed tree against them, and the verdict.
* **The logo mirror** (`MirrorSync`): fetch loop, prune loop and the generated map that is the run's receipt.
* **The credits** (`Credits`, `Pacing`): a shuffle bag, the stage machine over it, and the pace of the roll.
* **The admin's network editor** (`NetworkDraft`): a cap parser and printer, a draft store, and a PATCH that
  carries only what changed.

`Wrappers`, `Reals`, `Decimal`, `Strings`, `Ordering`, `FlatMaps` and `Folds` hold what they share or rest on:
options, real arithmetic, numerals, last occurrences, stable sorting by a string key, mapping under reordering,
and folding.

Code that updates state in place is modelled by methods, classes and loops, each proved equal to a function of
its inputs or of the old state; what the source promises is then proved about those functions.

## What the proofs found

Places where the code does less than it, or a comment on it, says. Each has a lemma giving the exact condition
under which the promise holds, and an input on which it does not.

* The 1024-byte probe finds a frame at every cut of every stream exactly when frames are at most 511 bytes long
  (`StreamProbe.KilobyteCoversFramesUpTo511`). The comment at `check-radio-logos-core.ts:353-356` says refusing an
  uncorroborated candidate "cannot bite a real stream"; frames of 160 kbps at 44.1 kHz are 522 bytes, and
  `StreamProbe.ReggaeCutIsUnidentified` is the cut that bites.
* A lone header is believed when it decodes exactly at the cut. The comment at `check-radio-logos-core.ts:361-366`
  takes offset zero for the place where "the stream BEGINS"; for a listener who joins mid-frame it is any byte at
  all. A stream's true rate is read exactly when the first imitation of a frame start in the cut frame's tail, if
  there is one, states that rate (`Mpeg.RateIsReadIff`), and `StreamProbe.ImitationTurnsATrueRowRed` is a 128 kbps
  stream read as 32.
* The complaint about an MPEG head quotes a legal bitrate index on three-byte heads that decode, and is accurate
  on every other head (`Codec.ComplaintIsAccurate`, `Codec.ThreeOctetHeadIsMisblamed`).
* A positive Vorbis nominal rate reads as 0 kbps, rather than as absent, exactly below 500 bits per second
  (`Codec.RoundedKbpsIsNearest`, `Codec.TinyNominalReadsAsZero`).
* A sync killed after it began to prune and before it wrote the map can leave the committed map naming a deleted
  file. That cannot happen exactly when the new table still claims every path the map names
  (`MirrorSync.KillIsHarmlessIff`, `MirrorSync.DanglingPathExample`).
* The roll is not re-timed when a measurement has the same key as the one before it: prose as tall as the block
  keeps the block's 35 seconds, and a window closed on the block and opened again gets no duration at all
  (`Pacing.MeasurementTakesEffectIff`, `Pacing.EqualKeysAreNotMeasured`).
* Minimal patches do not keep "autoconnect only where visitors are allowed": two admins can strand the pair, and so
  can one whose refetch after a save fails (`NetworkDraft.SaveStrandsIff`, `NetworkDraft.TwoAdminsStrandTheRow`,
  `NetworkDraft.FailedRefetchStrandsTheRow`).
* A freshly seeded draft parses exactly when no cap of its row is above 2^31-1
  (`NetworkDraft.FreshDraftIsPristine`, `NetworkDraft.OverlargeCapBlocksSaving`).

## Model

| member | source | states |
|---|---|---|
| Bytes.FindFrom | cicchetto/scripts/check-radio-logos-core.ts:179-184 | the answer is an occurrence of the magic, with none before it; no answer means none anywhere |
| Bytes.ScanContains | cicchetto/scripts/check-radio-logos-core.ts:179-184 | the loop answers yes exactly when the magic occurs somewhere in the head |
| Bytes.SignedLe32RoundTrip | cicchetto/scripts/check-radio-logos-core.ts:427-429 | reading a signed 32-bit value laid out in two's complement, least significant octet first, gives it back, for every value |
| Mpeg.FrameAtIffHeader | cicchetto/scripts/check-radio-logos-core.ts:318-334 | four octets decode exactly when they are the encoding of some legal header, and the decoder returns that header's rate and length |
| Mpeg.FrameBounds | cicchetto/scripts/check-radio-logos-core.ts:302-334 | every decoded rate is one of the 14 legal ones and every length lies in 96 to 1441 |
| Mpeg.RatesRiseInOctaves | cicchetto/scripts/check-radio-logos-core.ts:302-306 | every decoded rate is the standard's for its index: octaves of four equal steps from 32 kbps |
| Mpeg.RatesAscend | cicchetto/scripts/check-radio-logos-core.ts:302-306 | of two legal headers the one with the higher index decodes to the higher rate |
| Mpeg.LengthIsOneFrameOfSamples | cicchetto/scripts/check-radio-logos-core.ts:308-333 | padding aside, every decoded length is what its rate transmits in 1152 samples at 44.1, 48 or 32 kHz as the frequency bits say, rounded down |
| Mpeg.ScanFrameStart | cicchetto/scripts/check-radio-logos-core.ts:357-371 | the loop returns the least position with four octets left that decodes and is either offset 0 or corroborated at its own stated length; null means there is none |
| Mpeg.ResyncCompleteness | cicchetto/scripts/check-radio-logos-core.ts:346-371 | one corroborated header anywhere in the head is enough, whatever precedes it, and the answer is no later than it |
| Mpeg.StreamResync | cicchetto/scripts/check-radio-logos-core.ts:353-371 | a contiguous stream of frames no longer than L, cut anywhere: 2L+2 bytes always yield a frame start, less than L bytes in and no later than the first frame that starts in the window |
| Mpeg.FirstStartIsNext | cicchetto/scripts/check-radio-logos-core.ts:353-356 | less than one frame after any cut a frame starts, and FirstStart is the first that does |
| Mpeg.LocksOnIffUndisturbed | cicchetto/scripts/check-radio-logos-core.ts:346-371 | the search locks on to the first frame that starts after the cut if and only if no header decodes at the cut itself and none in the rest of the cut frame's tail lands on another inside the window; chance syncs anywhere, lone headers behind the cut, and anything further on, do no harm |
| Mpeg.AcceptedIffImitation | cicchetto/scripts/check-radio-logos-core.ts:357-371 | before the first real start the search accepts exactly the positions of the stream at which a frame start is imitated: a header at the cut, or one behind it that lands on another inside the window |
| Mpeg.FindsFirstStartOrImitation | cicchetto/scripts/check-radio-logos-core.ts:357-371 | in every stream and at every cut the search returns the first real start, or else the first imitation in the tail of the cut frame |
| Mpeg.HeaderAtTheCutIsBelieved | cicchetto/scripts/check-radio-logos-core.ts:361-367 | a header that decodes exactly at the cut is returned on its own, whether or not a frame starts there |
| Mpeg.ResyncBoundIsTight | cicchetto/scripts/check-radio-logos-core.ts:353-371 | for every legal header, three such frames joined one byte late are found exactly when the window holds twice the length plus two |
| Mpeg.ResyncBoundIsExact | cicchetto/scripts/check-radio-logos-core.ts:353-371 | for every legal frame length, n bytes suffice at every cut of every stream of frames up to it if and only if n is at least twice it plus two |
| Mpeg.StreamRateIsRead | cicchetto/scripts/check-radio-logos-core.ts:374-378 | in a constant-rate stream whose cut frame's tail imitates no frame start the search returns the first frame start and reads exactly the encoded rate |
| Mpeg.RateIsReadIff | cicchetto/scripts/check-radio-logos-core.ts:374-378 | in a constant-rate stream the encoded rate is read if and only if the first imitation in the cut frame's tail, if there is one, states that same rate |
| StreamProbe.FillHead | cicchetto/scripts/check-radio-logos.ts:287-299 | however the body is split into chunks, empty and missing ones included, the head is the first 1024 bytes of the body, or all of it |
| StreamProbe.KilobyteCoversFramesUpTo511 | cicchetto/scripts/check-radio-logos.ts:158 | a 1024-byte head finds a frame at every cut of every stream exactly when its frames are at most 511 bytes long |
| StreamProbe.ReggaeCutIsUnidentified | cicchetto/scripts/check-radio-logos-core.ts:353-356 | the counterexample to the comment: whole 522-byte frames (160 kbps, 44.1 kHz) joined one byte late are identified as no codec |
| StreamProbe.Mp3RowIsGreenIff | cicchetto/scripts/check-radio-logos.ts:334-368 | whenever a frame was found, a row is green exactly when it declares mp3 at that frame's rate and no other signature holds |
| StreamProbe.HonestMp3RowIsGreen | cicchetto/scripts/check-radio-logos.ts:334-368 | end to end, for a constant-rate mp3 stream of frames up to 511 bytes, any cut and any chunking: the table row that declares mp3 at the encoded rate is green on both stream axes if and only if the first imitation in the cut frame's tail, if any, states that rate and the head carries no other codec signature; then it is the only green row |
| StreamProbe.HeaderAtTheCutDecides | cicchetto/scripts/check-radio-logos-core.ts:361-378 | in any stream and any chunking, when a header decodes exactly at the cut a row is green exactly when it declares mp3 at that header's rate |
| StreamProbe.ImitationTurnsATrueRowRed | cicchetto/scripts/check-radio-logos-core.ts:361-366 | the counterexample: whole 417-byte frames at 128 kbps with three payload octets that spell a header, joined at those octets, read 32 kbps, and the row that truthfully declares 128 is red |
| Codec.IdentifiedIffUnambiguous | cicchetto/scripts/check-radio-logos-core.ts:220-232 | the answer is c exactly when c's signature holds and no other codec's does |
| Codec.SyncHeadIsMp3 | cicchetto/scripts/check-radio-logos-core.ts:193-232 | a head that opens with an MPEG sync is always identified as mp3, never ambiguous |
| Codec.MagicsSpell | cicchetto/scripts/check-radio-logos-core.ts:164-173 | the four magic numbers spell OggS, vorbis, FLAC and fLaC behind their packet types |
| Codec.FlacStreamIsFlac | cicchetto/scripts/check-radio-logos-core.ts:215-217 | a head that opens natively, or on an Ogg page with the FLAC mapping in it, is called flac exactly when nothing else in it passes for another codec |
| Codec.DecoderFindsWhatWasIdentified | cicchetto/scripts/check-radio-logos-core.ts:442-461 | a vorbis answer means the bitrate decoder finds the header; an mp3 answer without a leading sync means a rate is read |
| Codec.IcyBitrateIffCanonical | cicchetto/scripts/check-radio-logos-core.ts:257-266 | the header states n exactly when it is the decimal spelling of a positive n without leading zeros |
| Codec.ComplaintIsAccurate | cicchetto/scripts/check-radio-logos-core.ts:380-405 | when no frame was found the complaint quotes the head correctly and names something illegal, if and only if the head is not a three-byte one that decodes; the bitrate index is blamed only when the sampling rate is legal |
| Codec.ThreeOctetHeadIsMisblamed | cicchetto/scripts/check-radio-logos-core.ts:386-405 | the counterexample: on the first three octets of a 128 kbps header the complaint names bitrate index 9, which is legal |
| Codec.ScanVorbisNominal | cicchetto/scripts/check-radio-logos-core.ts:417-434 | the loop answers from the first identification header, or says there is none |
| Codec.VorbisRoundTrip | cicchetto/scripts/check-radio-logos-core.ts:407-434 | any identification header, any int32 nominal rate, after any prefix free of the magic, cut anywhere: recovered when its field arrived, absent when not positive, unreadable when cut short |
| Codec.RoundedKbpsIsNearest | cicchetto/scripts/check-radio-logos-core.ts:431 | the kbps is within 500 bits per second of the nominal rate, ties going up, and is zero exactly below 500 |
| Codec.TinyNominalReadsAsZero | cicchetto/scripts/check-radio-logos-core.ts:430-431 | the counterexample: a legal header that nominates 499 bits per second reads as 0 kbps |
| Codec.VorbisStreamReads | cicchetto/scripts/check-radio-logos-core.ts:214-232 | a real first page followed by any identification header reads its nominal rate whatever the page's serial and checksum, and is called vorbis exactly when no other signature also holds |
| Codec.VorbisRowIsGreenIff | cicchetto/scripts/check-radio-logos-core.ts:463-484 | for a real Vorbis stream cut anywhere, once identified, a row is green exactly when the nominal rate has arrived and the row declares vorbis at it, or no rate where the header nominates none |
| Codec.FlacRowIsGreenIff | cicchetto/scripts/check-radio-logos-core.ts:442-484 | for a head identified as flac a row is green exactly when it declares flac and either no rate with icy-br absent, or the rate icy-br spells canonically |
| Codec.FramelessSyncIsNeverGreen | cicchetto/scripts/check-radio-logos-core.ts:373-378 | a head that opens on a sync but holds no frame leaves no row green, whatever it declares |
| Codec.UnidentifiedIsNeverGreen | cicchetto/scripts/check-radio-logos.ts:361-368 | a head that no codec or several codecs claim leaves no row green |
| Codec.ReadingDependsOnItsAuthority | cicchetto/scripts/check-radio-logos-core.ts:442-461 | the flac reading depends on icy-br alone, the others on the bytes alone, and each names its authority |
| Codec.FindingsAreAccurate | cicchetto/scripts/check-radio-logos-core.ts:234-242 | each finding of the two axes says exactly what was measured, and there is none exactly when declaration and measurement agree |
| Mpeg.SilentStreamIsHonest | cicchetto/scripts/check-radio-logos-core.ts:353-371 | streams that meet the premises of the results on streams, at every cut, exist for every legal header |
| Contrast.RatioAtLeastIsRatio | scripts/gen-backgrounds.py:35-37 | comparing the contrast ratio with a bar is the cross-multiplied comparison of the lighter with the darker luminance |
| Contrast.PrimariesCarryTheWeights | scripts/gen-backgrounds.py:30-33 | luminance is additive over the channels, and full red, green and blue have luminance 0.2126, 0.7152 and 0.0722 |
| Contrast.ClearsIffDarkEnough | scripts/gen-backgrounds.py:35-37 | on bright text the V-shaped ratio reaches the bar exactly below one luminance, never again above the text |
| Contrast.DarkOkIsDownwardClosed | scripts/gen-backgrounds.py:48-58 | if a value's composite clears the bar on dark, so does every darker value's |
| Contrast.LightOkIsUpwardClosed | scripts/gen-backgrounds.py:60-70 | if a value's composite clears the bar on light, so does every lighter value's |
| Contrast.DownwardClosedIffTextIsBright | scripts/gen-backgrounds.py:48-58 | at full opacity the predicate the bisection relies on is downward closed if and only if white on the text colour cannot reach the bar |
| Contrast.MaxImgValue | scripts/gen-backgrounds.py:48-58 | 60 halvings return a value that clears the bar (with everything below it), and nothing above it by more than 255/2^60 does |
| Contrast.MinImgValue | scripts/gen-backgrounds.py:60-70 | the dual for the light theme: the value and everything above it clears the bar, nothing below it by more than 255/2^60 does |
| Contrast.DarkCaps | scripts/gen-backgrounds.py:72-73 | the two caps the script computes meet what every result on pixels asks of them if and only if the bare pane clears 4.6, neither could be higher by more than 255/2^60, and over such a pane the centre cap is not above the edge cap |
| Contrast.WidthIsExact | scripts/gen-backgrounds.py:51 | k halvings of the channel range leave an interval of exactly 255/2^k |
| Contrast.BandFallsOutwards | scripts/gen-backgrounds.py:77-98 | moving away from the centre never raises the weight, so the cap never falls outwards when the centre cap is not above the edge cap, as the computed ones are not |
| Contrast.BandIsFullInTheReadingBand | scripts/gen-backgrounds.py:88-93 | the envelope is at the centre cap exactly where the centre weight reaches 0.75, where the verified band starts |
| Contrast.RampShape | scripts/gen-backgrounds.py:83-84 | the centre weight is 1 exactly up to 0.10 from the centre, 0 exactly from 0.85 on, symmetric about the middle of the two, and flat at both ends |
| Contrast.BandIsProportional | scripts/gen-backgrounds.py:93 | below the reading band the envelope rises in proportion to the weight, from 0 |
| Contrast.CapMovesWithTheBand | scripts/gen-backgrounds.py:98 | the cap is the edge's at band 0, the centre's at band 1, and equal steps of band move it equally |
| Contrast.FillCaps | scripts/gen-backgrounds.py:97-101 | the loop over 64-row slabs fills every pixel's cap, whatever the height |
| Contrast.EnforceDark | scripts/gen-backgrounds.py:95-110 | every pixel becomes its clamp to its own cap, and an image with no pixel over its cap comes back as it is |
| Contrast.ClampMeetsCap | scripts/gen-backgrounds.py:95-110 | after the clamp luminance is at most the cap, the linear channels are the old ones times one common factor, a pixel under its cap is unchanged and one over it lands on it |
| Contrast.ClampSparesWhatIsUnderItsCap | scripts/gen-backgrounds.py:95-110 | at the edge a pixel is left alone exactly when it is under the edge's cap, in the reading band exactly when under the centre's |
| Contrast.CompositeIsBoundedByEndpoints | scripts/gen-backgrounds.py:347-364 | for every pixel, the composite's luminance at any opacity between two is at most the larger of the two, up to the curve's slack from convexity; no inverse of the curve is needed |
| Contrast.OneMeasurementCoversTheSlider | scripts/gen-backgrounds.py:347-364 | a pixel measured to clear 4.6 at one opacity keeps the promised 4.5 at every lower one on a curve convex up to 0.001, and clears 4.6 there on a convex one |
| Contrast.CapClearsEverywhere | scripts/gen-backgrounds.py:72-98 | an interpolated cap clears the bar at every opacity up to 0.6, and up to 1 where the centre weight is at least 0.75 |
| Contrast.NeutralPixelClears | scripts/gen-backgrounds.py:88-110 | after the clamp every neutral pixel clears 4.6 at every opacity up to 0.6, and up to 1 in the reading band |
| Contrast.ColourIsNoBrighterThanGrey | scripts/gen-backgrounds.py:30-33 | given concavity of wallpaper light to composite light, a coloured pixel's composite is no brighter than that of a neutral one of equal luminance |
| Contrast.ColouredPixelKeepsPromise | scripts/gen-backgrounds.py:88-110 | after the clamp every coloured pixel keeps 4.5 at every opacity up to 0.6, and up to 1 in the reading band, when light shows through concavely up to 0.0005; it clears 4.6 there when concavely |
| Contrast.ClampedIsLegible | scripts/gen-backgrounds.py:88-110 | one clamped pixel meets the whole contract: in gamut, one common light factor, neutral stays neutral and clears 4.6, coloured keeps 4.5 or clears 4.6 |
| Contrast.DarkImage | scripts/gen-backgrounds.py:72-110 | the image pass end to end, with the caps the bisection returns: whenever the bare pane clears 4.6 every pixel of the result keeps its hue and is legible at every opacity it answers for, neutral and coloured ones each as their rows say |
| ContrastPremises.PremisesAreConsistent | scripts/gen-backgrounds.py:26-33 | a curve that bends meets every premise of the contrast results without slack: increasing, exactly invertible, convex, and concave through every pane at every opacity |
| PullCurve.StrictlyIncreasing | cicchetto/src/DirectoryPane.tsx:114-117 | every further distance moves the track further, across the seam too, for every commit distance and every positive damping |
| PullCurve.NeverReachesTheMaximum | cicchetto/src/DirectoryPane.tsx:156-172 | the offset stays below the maximum, and an explicit inverse reads the finger's travel back from it |
| PullCurve.EveryOffsetIsReached | cicchetto/src/DirectoryPane.tsx:114-117 | every offset below the maximum is reached, by exactly one distance: an asymptote and not a clamp |
| PullCurve.GainNeverRises | cicchetto/src/DirectoryPane.tsx:156-172 | for damping at most 1, equal stretches of finger never buy more later than earlier, across the seam |
| PullCurve.GainFallsPastCommit | cicchetto/src/DirectoryPane.tsx:112-113 | past the commit point they buy strictly less, whatever the damping |
| PullCurve.GainFallsIffDampingAtMostOne | cicchetto/src/DirectoryPane.tsx:144-154 | the gain never rises if and only if the damping is at most 1 |
| LockParser.ParseLockVersions | cicchetto/scripts/lock-drift-core.ts:77-93 | the loop over matches builds the map of all leftmost, non-overlapping quoted tokens after a bracket |
| LockParser.PinIffLastSplit | cicchetto/scripts/lock-drift-core.ts:82-87 | a token pins exactly the pair it splits into at its last at-sign, so scoped names survive |
| LockParser.CollectMeaning | cicchetto/scripts/lock-drift-core.ts:73-93 | a name is in the map exactly when some token pins it, with its versions in first-seen order without repetition |
| LockParser.ScanReadsRendering | cicchetto/scripts/lock-drift-core.ts:79 | scanning any rendering of tokens among inert text, the last of which may end in an unclosed token, gives back exactly those tokens in order |
| LockParser.TokenlessIffNoMatch | cicchetto/scripts/lock-drift-core.ts:79 | the texts allowed after the last token are exactly those in which the pattern finds nothing |
| LockParser.InertIffPassedOver | cicchetto/scripts/lock-drift-core.ts:79 | the texts allowed before a token are exactly those after which the pattern's first match is that token, whichever it is and whatever follows it |
| LockParser.LockRoundTrip | cicchetto/scripts/lock-drift-core.ts:63-93 | parsing any rendering gives exactly the pinned names, each with a nonempty duplicate-free list of exactly its pinned versions in first-seen order |
| LockDrift.MatchesPlatformMeaning | cicchetto/scripts/lock-drift-core.ts:95-106 | a constraint admits exactly what its entries do not rule out: absent or empty nothing is, a list of exclusions rules out what it names, any other list what it does not |
| LockDrift.RunsHereMeaning | cicchetto/scripts/lock-drift-core.ts:108-110 | a package runs here exactly when neither its os nor its cpu entries rule this platform out |
| LockDrift.UnconstrainedRunsEverywhere | cicchetto/scripts/lock-drift-core.ts:99-110 | a package whose two lists are absent or empty runs on every platform |
| LockDrift.Classify | cicchetto/scripts/lock-drift-core.ts:121-159 | the single pass with its counters, set and sorts computes the report defined by per-package fates |
| LockDrift.EveryPackageIsCountedOnce | cicchetto/scripts/lock-drift-core.ts:133-149 | compared, skipped and not-in-lock sum to the number of installed packages |
| LockDrift.CountsMeanTheFates | cicchetto/scripts/lock-drift-core.ts:133-149 | skipped counts the packages for another platform, not-in-lock those that run here without a lock entry, compared those that run here with one |
| LockDrift.JoinAppend | cicchetto/scripts/lock-drift-core.ts:147 | joining a list gives its halves with one separator between them |
| LockDrift.ReportNamesTheOffenders | cicchetto/scripts/lock-drift-core.ts:146-157 | the report's rows are exactly the off-lock packages, each with its name, what the lock holds and what is installed, and the required names never reached, both in name order |
| LockDrift.ReportIgnoresOrder | cicchetto/scripts/lock-drift-core.ts:121-159 | for distinct names the report is the same for every ordering of the tree |
| LockDrift.OkIffTreeMatchesLock | cicchetto/scripts/lock-drift-core.ts:161-178 | the verdict is ok exactly when something was compared, every compared version is in its lock list, and every required name is locked or installed for another platform |
| LockDrift.RefusalsAreAccurate | cicchetto/scripts/lock-drift-core.ts:167-178 | each refusal gives its true reason, in order: nothing compared, names never reached, packages off-lock and how many |
| LockDrift.GreenOverRenderedLock | cicchetto/scripts/lock-drift-core.ts:63-178 | parser, classifier and verdict together: over any rendering the gate is green exactly when the tree agrees with the pins the text spells |
| MirrorSync.ExtensionIsPlain | cicchetto/scripts/sync-radio-logos-core.ts:46-60 | an extension is nonempty and holds no dot and no slash |
| MirrorSync.ExtensionIff | cicchetto/scripts/sync-radio-logos-core.ts:46-60 | the extension of a URL is the lower-cased text behind the last dot of the file name, if there is something on both sides of that dot, and the script throws otherwise |
| MirrorSync.WantedTypeMeaning | cicchetto/scripts/sync-radio-logos-core.ts:37-44 | the wanted types are the image subtypes named after the extension, jpg meaning JPEG and svg an XML format, and there is no other |
| Strings.LettersFold | cicchetto/scripts/sync-radio-logos-core.ts:59 | capitals fold onto the small letters in alphabetical order and nothing else changes |
| MirrorSync.PathsNeverCollide | cicchetto/scripts/sync-radio-logos-core.ts:62-70 | two stations share a mirror path only if they share id and extension |
| MirrorSync.OrphansAreCanonical | cicchetto/scripts/sync-radio-logos-core.ts:95-100 | the orphans do not depend on the order in which the directory is listed |
| MirrorSync.Mirror.FetchLogos | cicchetto/scripts/sync-radio-logos.ts:91-122 | the loop stores bytes as they arrive, records rows, counts failures and ends at an exception, as the recursive definition says |
| MirrorSync.Mirror.Prune | cicchetto/scripts/sync-radio-logos.ts:124-138 | exactly the listed orphans are gone, or a prefix of them when the run is killed on the way; all other files are untouched |
| MirrorSync.Mirror.Sync | cicchetto/scripts/sync-radio-logos.ts:89-152 | one run of the script takes files and map to the state the run's step defines |
| MirrorSync.CleanIffAllSucceed | cicchetto/scripts/sync-radio-logos.ts:71-122 | a run is clean exactly when every station's visit yields a file, whatever the mirror held before |
| MirrorSync.SucceedsIff | cicchetto/scripts/sync-radio-logos.ts:71-120 | a station with artwork succeeds exactly when its name has an extension and the answer is a 2xx response with a body of the type wanted for it, and its body is what is stored; one without artwork stores its tile as svg |
| MirrorSync.FailingRunDeletesNothing | cicchetto/scripts/sync-radio-logos.ts:130-150 | a run with a failure or an exception deletes no file and leaves the map alone |
| MirrorSync.CleanRunMirrorsTheTable | cicchetto/scripts/sync-radio-logos.ts:124-152 | a clean run ends with mirror files equal to map paths, one row per station, every file nonempty, rows ascending for distinct ids |
| MirrorSync.CleanRunStoresEachPayload | cicchetto/scripts/sync-radio-logos.ts:95-122 | with distinct ids every station's path holds the bytes its own visit brought |
| MirrorSync.EveryStationIsServed | cicchetto/scripts/sync-radio-logos.ts:95-152 | after a clean run over distinct ids the map sends every station to /radio-logos/id.extension, and that file holds the body the network answered, or its tile |
| MirrorSync.CleanRunForgetsHistory | cicchetto/scripts/sync-radio-logos.ts:33-37 | what a clean run leaves depends on that run alone, and repeating it changes nothing |
| MirrorSync.HonestUnlessKilledWhilePruning | cicchetto/scripts/sync-radio-logos.ts:124-152 | one run keeps every mapped path a nonempty file if and only if it is not a clean run killed after removing a file the map names; which files it will have removed is computed beforehand from mirror, table and point of the kill |
| MirrorSync.RemovedIsForeseen | cicchetto/scripts/sync-radio-logos.ts:124-138 | what a clean run removes is the sorted list of the files the table has no use for, cut off at the kill, whatever was fetched |
| MirrorSync.KillIsHarmlessIff | cicchetto/scripts/sync-radio-logos.ts:124-152 | from an honest state a kill at any point of a run is harmless if and only if the run does not get to pruning or its table still claims every path the map names |
| MirrorSync.ReceiptStaysHonest | cicchetto/scripts/sync-radio-logos.ts:33-37 | over any sequence of runs with changing tables, failing fetches, exceptions and kills, every mapped path names a nonempty file, as long as each clean run that is killed has a table that still claims every mapped path |
| MirrorSync.GrowingTablesSurviveKills | cicchetto/scripts/sync-radio-logos.ts:33-37 | while the tables of successive runs only grow, no kill at any point of any of them harms the receipt |
| MirrorSync.KilledRunLosesDroppedStation | cicchetto/scripts/sync-radio-logos.ts:124-152 | whenever the table dropped a station, a clean run killed just before the map write leaves the map naming a deleted file |
| MirrorSync.DanglingPathExample | cicchetto/scripts/sync-radio-logos.ts:124-152 | a concrete such run with one station replaced by another |
| MirrorSync.MapIsCanonical | cicchetto/scripts/sync-radio-logos-core.ts:112-119 | for distinct ids two clean runs over reorderings of one table write the same rows |
| Ordering.SortOrders | cicchetto/scripts/lock-drift-core.ts:151 | sorting by a key orders any input, repeated keys included |
| Ordering.SortIsStable | cicchetto/scripts/lock-drift-core.ts:151 | elements with equal keys keep their order |
| Ordering.LessAtTheFirstDifference | cicchetto/scripts/lock-drift-core.ts:151 | strings compare by their first difference, a proper prefix coming first |
| Ordering.SortIsCanonical | cicchetto/scripts/sync-radio-logos-core.ts:112-119 | with distinct keys the sorted result is strictly ascending and does not depend on the input's order |
| Credits.PickBelow | cicchetto/src/lib/creditsProse.ts:210 | the index drawn from a random number in [0, 1) is the floor of the product and lies below the bound |
| Credits.ShuffledIndices | cicchetto/src/lib/creditsProse.ts:207-216 | whatever the random source, the shuffle holds each index exactly once |
| Credits.ProseDeck.DrawSet | cicchetto/src/lib/creditsProse.ts:239-258 | one draw takes the end of the bag, refilling an empty bag with a shuffle that does not open on the last card dealt |
| Credits.CreditsModal.TurnRoll | cicchetto/src/CreditsModal.tsx:154-177 | one turn of the roll takes stage, pending ending, set and deck to what the stage machine's step says |
| Credits.CreditsModal.OpenModal | cicchetto/src/CreditsModal.tsx:210-232 | an opening resets stage, set and pass, and neither the deck nor the pending ending |
| Credits.StepKeepsConsistent | cicchetto/src/CreditsModal.tsx:149-177 | every opening, closing and turn keeps the invariant that ties stage, bag and pending ending to the cards shown since the last finale |
| Credits.ScreenFollowsLog | cicchetto/src/CreditsModal.tsx:154-232 | in every session stage and prose are what was shown last in this opening, the pass counts what it has shown, and the block is up exactly in pass zero |
| Credits.WindowFollowsEvents | cicchetto/src/CreditsModal.tsx:210-232 | the window is open exactly when the last opening or closing was an opening |
| Credits.EndingNeverEarly | cicchetto/src/CreditsModal.tsx:149-177 | over any interleaving of openings, closings and turns, whenever the manifesto or the finale is shown every set has been drawn since the last finale, each exactly once |
| Credits.NoSetTwiceInARow | cicchetto/src/lib/creditsProse.ts:218-228 | with two or more sets no set is ever drawn twice in a row, across bags, openings and endings |
| Credits.EachTurnCountsDown | cicchetto/src/CreditsModal.tsx:137-177 | a turn brings the finale exactly one turn closer, the finale absorbs, closing loses nothing, and an opening restarts the run only after a finale |
| Credits.FinaleAfterExactlyRemaining | cicchetto/src/CreditsModal.tsx:137-177 | from any reachable open state the finale is up exactly from the predicted number of turns on |
| Credits.FreshRunTakesNPlusTwo | cicchetto/src/CreditsModal.tsx:127-177 | an uninterrupted fresh run of an N-set deck reaches the finale in exactly N+2 turns |
| Credits.EmptyDeckNeverEnds | cicchetto/src/lib/creditsProse.ts:194-198 | with no prose at all no run ever reaches the manifesto or the finale |
| Pacing.RollClock.SyncRollDistance | cicchetto/src/CreditsModal.tsx:421-452 | one measurement takes latched speed, last key and duration to what the clock's step says, an equal key or an empty size changing nothing |
| Pacing.FirstSetLasts35Seconds | cicchetto/src/CreditsModal.tsx:437-446 | the set the pace was solved from lasts exactly 35 seconds for every height and viewport |
| Pacing.SlowdownIsProportional | cicchetto/src/CreditsModal.tsx:347-354 | the extra reading time grows in proportion to the height, up to six tenths at a screenful and not beyond |
| Pacing.CycleRisesWithHeight | cicchetto/src/CreditsModal.tsx:353-354 | on one screen a taller set always takes strictly longer |
| Pacing.TravelSpeedEquation | cicchetto/src/CreditsModal.tsx:353-354 | on-screen speed times reading factor times pace is the latched speed |
| Pacing.TravelSpeedFallsWithHeight | cicchetto/src/CreditsModal.tsx:340-354 | on one screen speed never rises with height, falls by at most a factor of 1.6, and is constant past one screenful |
| Pacing.TallProseRunsAtTheProsePace | cicchetto/src/CreditsModal.tsx:355-386 | when the first set filled the screen, screen-tall prose runs at exactly 1/1.7 of its speed |
| Pacing.SpeedIsLatched | cicchetto/src/CreditsModal.tsx:416-442 | over any session the speed is the one solved from the first real measurement, for ever |
| Pacing.RepeatTakesEffectIff | cicchetto/src/CreditsModal.tsx:430-446 | if a size was last new at some event, measuring it again takes effect exactly when no element was mounted since and both sets are the block or both are prose |
| Pacing.EveryEqualBlockLasts35Seconds | cicchetto/src/CreditsModal.tsx:437-446 | at any later point, an opening block of the first one's size measured under a new key lasts 35 seconds again |
| Pacing.MeasurementTakesEffectIff | cicchetto/src/CreditsModal.tsx:430-432 | in any session a measurement puts the set's own cycle on the element if and only if its key differs from the last one measured, or that key was new on the element still on screen for a set of the same kind, block or prose |
| Pacing.EqualKeysAreNotMeasured | cicchetto/src/CreditsModal.tsx:430-432 | two sessions in which an equal key leaves a wrong duration, or none |
| NetworkDraft.ParsePrintedCap | cicchetto/src/AdminNetworksTab.tsx:1176-1197 | the parser inverts the printer on null and on every cap up to 2^31-1, and refuses any other printed cap |
| NetworkDraft.ParseCapMeaning | cicchetto/src/AdminNetworksTab.tsx:1180-1197 | blank input is unlimited, a numeral of at most 2^31-1 between white space is that cap, and everything else is bad |
| NetworkDraft.BuildPatchBody | cicchetto/src/AdminNetworksTab.tsx:1199-1236 | filling the body key by key gives the difference between the row and the row the draft describes, and null when a cap does not parse |
| NetworkDraft.FreshDraftIsPristine | cicchetto/src/AdminNetworksTab.tsx:243-259 | a freshly seeded draft gives the empty patch exactly when every cap fits, no patch otherwise, and Save is off either way |
| NetworkDraft.OverlargeCapBlocksSaving | cicchetto/src/AdminNetworksTab.tsx:1204-1210 | the counterexample: a row that holds a cap of 2^31 cannot be saved until that cap is retyped, whatever else is edited |
| NetworkDraft.PatchIsLeast | cicchetto/src/AdminNetworksTab.tsx:1199-1236 | applied to its own row the patch gives the draft, and any other patch that does carries at least its keys |
| NetworkDraft.SaveIsLiveIff | cicchetto/src/AdminNetworksTab.tsx:1238-1243 | Save is live exactly when the draft parses and describes a different row |
| NetworkDraft.EditedCapIsSent | cicchetto/src/AdminNetworksTab.tsx:346-354 | typing a cap into any of the three fields of a pristine draft sends that key alone, with that cap |
| NetworkDraft.EditedControlIsSent | cicchetto/src/AdminNetworksTab.tsx:356-385 | flipping one control of a pristine draft sends that key alone, save that revoking visitors also sends autoconnect off where it was on |
| NetworkDraft.PatchIsThreeWayMerge | cicchetto/src/AdminNetworksTab.tsx:1199-1203 | applied to a row changed meanwhile, the patch keeps that row on every field the operator left alone and takes the draft elsewhere |
| NetworkDraft.DisjointPatchesCommute | lib/grappa/networks.ex:672-690 | patches without a common key commute |
| NetworkDraft.DraftStore.SeedEditsFromServer | cicchetto/src/AdminNetworksTab.tsx:243-259 | the store becomes exactly one fresh draft per row, old drafts gone |
| NetworkDraft.DraftStore.OnEditToggle | cicchetto/src/AdminNetworksTab.tsx:356-375 | one draft's toggle changes, revoking visitors clears autoconnect with it, every other draft is untouched, an unknown slug changes nothing |
| NetworkDraft.DraftStore.OnEditCap | cicchetto/src/AdminNetworksTab.tsx:346-354 | one cap's text of one draft changes and nothing else |
| NetworkDraft.DraftStore.OnEditFlavor | cicchetto/src/AdminNetworksTab.tsx:377-385 | one draft's flavor changes and nothing else |
| NetworkDraft.DraftsStaySound | cicchetto/src/AdminNetworksTab.tsx:292-303 | over any run of edits by any number of admins that respects the checkbox lock, no draft holds autoconnect without visitors, as long as no row it is drawn from does |
| NetworkDraft.ActIsLocal | cicchetto/src/AdminNetworksTab.tsx:328-410 | an admin changes no page but their own and the server only by saving; a refresh or a refetched save redraws the page from the server's row |
| NetworkDraft.LoneAdminKeepsRowSound | cicchetto/src/AdminNetworksTab.tsx:356-410 | one admin whose refetches succeed keeps the row's autoconnect-implies-visitors over any run of edits and saves |
| NetworkDraft.SaveStrandsIff | cicchetto/src/AdminNetworksTab.tsx:1221-1226 | a save strands the pair exactly when it changes one side of it and the other side moved underneath |
| NetworkDraft.TwoAdminsStrandTheRow | cicchetto/src/AdminNetworksTab.tsx:1221-1226 | from every sound row with visitors on and autoconnect off, two admins' interleaved saves strand the pair |
| NetworkDraft.FailedRefetchStrandsTheRow | cicchetto/src/AdminNetworksTab.tsx:387-410 | so do two saves by one admin whose refetch failed |

## Left out

Of the modelled code:

- Contrast.MaxImgValue: works over real numbers with any strictly increasing curve; IEEE rounding, the sRGB formula itself and its numeric value at #e0e0e0 are not modelled. `ContrastPremises.PremisesAreConsistent` exhibits a curve that meets every premise.
- Contrast.CompositeIsBoundedByEndpoints: convexity of the curve, up to a slack, is a premise; the published sRGB formula jumps by about 2e-9 at its seam, which the slack admits, and deriving its convexity from the exponent 2.4 needs real powers.
- Contrast.ClampMeetsCap: takes an exact inverse of the curve; the published pair of formulas misses each other by about 3e-8 of the channel range around the seam.
- Contrast.ColouredPixelKeepsPromise: concavity of the wallpaper-light to composite-light map, up to a slack, is a premise, because deriving it for the sRGB exponent needs real powers.
- Contrast.EnforceDark: image arrays hold reals; truncation to 8 bits, WEBP encoding and the drawing of the images are not modelled.
- Contrast.RampShape: takes the distance from the centre as it comes; the elliptical distance of a pixel is not modelled.
- `enforce_light`'s blend towards white and its convergence within 24 passes.
- Mpeg.FrameAtIffHeader: shifts and masks are division and remainder on octets 0..255, with no bit vectors.
- Codec.IcyBitrateIffCanonical: numerals are unbounded; a bitrate above 2^53 would lose digits in a JavaScript number.
- The probe's other axes (REACH, AGREE, FEED, BYTES) and FLAC in Ogg page layout (section 10.1 of RFC 9639) beyond its magic.
- Mpeg.RateIsReadIff: how likely an imitation is in real audio is not modelled, only what one does.
- MirrorSync.PathsNeverCollide: a station's id is any string used as a file name; URL parsing is reduced to the pathname it yields, and lower-casing is ASCII only.
- MirrorSync.Mirror.Sync: the network is an oracle of answers, a single file write is atomic, and the formatter run after the map write is not modelled; of the generated module only its rows and their order are.
- Ordering.SortIsCanonical: strings are compared by character code rather than by UTF-16 unit; `Array.sort` is a stable sort function, not its algorithm.
- Credits.ShuffledIndices: shows each index once, not that all orders are equally likely.
- Credits.CreditsModal.TurnRoll: the prose texts, movement names, soundtrack, hold and fast-forward are not modelled; a turn happens only while the window is open.
- Pacing.RollClock.SyncRollDistance: heights arrive already rounded to pixels; the two-decimal rounding of the written duration and the animation restart are not modelled.
- NetworkDraft.ParsePrintedCap: caps are unbounded numbers, so the safe-integer test is subsumed by the 2^31-1 bound.
- NetworkDraft.DisjointPatchesCommute: of the server only "an absent key keeps its value" is modelled; its validation of the row is not.
- NetworkDraft.DraftsStaySound: follows one network row across admins; a page of many rows is a store of such drafts, which `NetworkDraft.DraftStore` covers per handler.

Of the repository:

- The Elixir bouncer, its sessions, its wire protocol and its database.
- All markup, styling, focus, touch and animation plumbing of the client, and every other form and settings page.
- Build runners, the emoji generator and the command-line posting client.
