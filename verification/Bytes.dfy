/** Octets, magic numbers and the little-endian words the stream formats use. */
module Bytes {
  import opened Wrappers

  type Byte = b: int | 0 <= b < 256

  /** `magic` sits in `head` at offset `at`, all of it inside. */
  predicate MatchesAt(head: seq<Byte>, magic: seq<Byte>, at: nat) {
    at + |magic| <= |head| && head[at..at + |magic|] == magic
  }

  lemma MatchedOctet(head: seq<Byte>, magic: seq<Byte>, at: nat, i: nat)
    requires MatchesAt(head, magic, at) && i < |magic|
    ensures head[at + i] == magic[i]
  {
    assert head[at..at + |magic|][i] == head[at + i];
  }

  predicate StartsWith(head: seq<Byte>, magic: seq<Byte>) {
    MatchesAt(head, magic, 0)
  }

  /** The first occurrence of `magic` at or after `from`. */
  function FindFrom(head: seq<Byte>, magic: seq<Byte>, from: nat): (r: Option<nat>)
    ensures r.Some? ==> from <= r.value && MatchesAt(head, magic, r.value)
    ensures r.Some? ==> forall j: nat | from <= j < r.value :: !MatchesAt(head, magic, j)
    ensures r.None? ==> forall j: nat | from <= j :: !MatchesAt(head, magic, j)
    decreases |head| - from
  {
    if from + |magic| > |head| then None
    else if MatchesAt(head, magic, from) then Some(from)
    else FindFrom(head, magic, from + 1)
  }

  predicate Contains(head: seq<Byte>, magic: seq<Byte>): (found: bool)
    ensures found <==> exists at: nat :: MatchesAt(head, magic, at)
  {
    FindFrom(head, magic, 0).Some?
  }

  /** The source's `contains` loop, which answers without keeping the position. */
  method ScanContains(head: seq<Byte>, magic: seq<Byte>) returns (found: bool)
    ensures found <==> Contains(head, magic)
  {
    var at := 0;
    while at + |magic| <= |head|
      invariant forall j: nat | j < at :: !MatchesAt(head, magic, j)
    {
      if head[at..at + |magic|] == magic {
        assert MatchesAt(head, magic, at);
        return true;
      }
      at := at + 1;
    }
    return false;
  }

  /** A 32-bit word laid out least significant octet first. */
  function Le32(word: nat): (bytes: seq<Byte>)
    requires word < 0x1_0000_0000
    ensures |bytes| == 4
  {
    [word % 0x100, word / 0x100 % 0x100, word / 0x1_0000 % 0x100, word / 0x100_0000]
  }

  /** Reads four octets as a signed two's-complement word, least significant first. */
  function SignedLe32(b0: Byte, b1: Byte, b2: Byte, b3: Byte): (value: int)
    ensures -0x8000_0000 <= value < 0x8000_0000
  {
    var word := b0 + 0x100 * b1 + 0x1_0000 * b2 + 0x100_0000 * b3;
    if word < 0x8000_0000 then word else word - 0x1_0000_0000
  }

  /** The unsigned word that carries a signed value. */
  function TwosComplement(value: int): (word: nat)
    requires -0x8000_0000 <= value < 0x8000_0000
    ensures word < 0x1_0000_0000
  {
    if value < 0 then value + 0x1_0000_0000 else value
  }

  lemma SignedLe32RoundTrip(value: int)
    requires -0x8000_0000 <= value < 0x8000_0000
    ensures var b := Le32(TwosComplement(value)); SignedLe32(b[0], b[1], b[2], b[3]) == value
  {
    var w := TwosComplement(value);
    var q1 := w / 0x100;
    var q2 := q1 / 0x100;
    assert w / 0x1_0000 == q2;
    assert w / 0x100_0000 == q2 / 0x100;
  }

  /** Concatenation of a sequence of byte strings. */
  function Concat(parts: seq<seq<Byte>>): seq<Byte> {
    if parts == [] then [] else parts[0] + Concat(parts[1..])
  }
}
