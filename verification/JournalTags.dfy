/** Descriptor-block tags of the jbd2 journal: their wire format as the journal's feature flags decide it
    (improved/fs_capabilities.c:33-67) and the walk over them (improved/journal_recovery_v5.c:988-1026). */
module JournalTags {
  import opened Bytes
  import opened Collections

  const JOURNAL_HEADER: nat := 12
  const UUID_BYTES: nat := 16

  // Feature and tag flags are single bits.

  predicate Feature64Bit(incompat: nat) { incompat / 0x02 % 2 == 1 }
  predicate FeatureCsumV2(incompat: nat) { incompat / 0x08 % 2 == 1 }
  predicate FeatureCsumV3(incompat: nat) { incompat / 0x10 % 2 == 1 }

  datatype Format = V1 | CsumV2 | CsumV3

  datatype Caps = Caps(fmt: Format, has64: bool, tagBytes: nat)

  function SetJournal(incompat: nat): Caps {
    var has64 := Feature64Bit(incompat);
    var fmt := if FeatureCsumV3(incompat) then CsumV3
               else if FeatureCsumV2(incompat) then CsumV2
               else V1;
    var bytes := if fmt == CsumV3 then 16
                 else 12 + (if fmt == CsumV2 then 2 else 0) - (if !has64 then 4 else 0);
    Caps(fmt, has64, bytes)
  }

  /** Tags are long enough for the fields the walk reads. */
  predicate Readable(caps: Caps) {
    && caps.tagBytes >= 8
    && (caps.has64 ==> caps.tagBytes >= 12)
    && (caps.fmt == CsumV3 ==> caps.tagBytes == 16)
  }

  /** What the walk takes from a tag. */
  datatype Tag = Tag(block: nat, flags: nat)
  {
    predicate Last() { flags / 0x08 % 2 == 1 }
    predicate SameUuid() { flags / 0x02 % 2 == 1 }
    predicate Escaped() { flags % 2 == 1 }
  }

  function TagAt(caps: Caps, buf: seq<byte>, p: nat): Tag
    requires Readable(caps) && p + caps.tagBytes <= |buf|
  {
    Tag(Be32(buf, p) + (if caps.has64 then Be32(buf, p + 8) * 0x1_0000_0000 else 0),
        if caps.fmt == CsumV3 then Be32(buf, p + 4) else Be16(buf, p + 6))
  }

  function Width(caps: Caps, t: Tag): nat {
    caps.tagBytes + if t.SameUuid() then 0 else UUID_BYTES
  }

  /** The tags from position `p` to the last one, or to the end of the block. */
  function Parse(caps: Caps, buf: seq<byte>, p: nat): seq<Tag>
    requires Readable(caps)
    decreases |buf| - p, 1
  {
    if |buf| - p < caps.tagBytes then [] else [TagAt(caps, buf, p)] + After(caps, buf, p)
  }

  /** The tags that follow the one at `p`. */
  function After(caps: Caps, buf: seq<byte>, p: nat): seq<Tag>
    requires Readable(caps) && p + caps.tagBytes <= |buf|
    decreases |buf| - p, 0
  {
    var t := TagAt(caps, buf, p);
    if t.Last() then [] else Parse(caps, buf, p + Width(caps, t))
  }

  method ParseTags(caps: Caps, buf: seq<byte>) returns (tags: seq<Tag>)
    requires Readable(caps)
    ensures tags == Parse(caps, buf, JOURNAL_HEADER)
  {
    tags := [];
    var tagp := JOURNAL_HEADER;
    var remaining: int := |buf| - JOURNAL_HEADER;
    ghost var all := Parse(caps, buf, JOURNAL_HEADER);
    while remaining >= caps.tagBytes
      invariant remaining == |buf| - tagp
      invariant tags + Parse(caps, buf, tagp) == all
    {
      var t := TagAt(caps, buf, tagp);
      ghost var next := tagp + Width(caps, t);
      Regroup(tags, t, After(caps, buf, tagp));
      tags := tags + [t];
      tagp, remaining := tagp + caps.tagBytes, remaining - caps.tagBytes;
      if !t.SameUuid() {
        tagp, remaining := tagp + UUID_BYTES, remaining - UUID_BYTES;
      }
      assert tagp == next;
      if t.Last() {
        return;
      }
    }
  }

  // ----- the writer's side -----

  function AsBit(b: bool): (n: nat)
    ensures n < 2 && (n == 1 <==> b)
  {
    if b then 1 else 0
  }

  /** A tag as it is written: what it says, the flag bits without a meaning here, checksum, padding, and the UUID that
      follows it unless it is that of the tag before. */
  datatype WireTag = WireTag(block: nat, escaped: bool, sameUuid: bool, deleted: bool, last: bool, other: nat,
                             csum: nat, pad: seq<byte>, uuid: seq<byte>)
  {
    function FlagWord(): nat {
      AsBit(escaped) + 2 * AsBit(sameUuid) + 4 * AsBit(deleted) + 8 * AsBit(last) + 16 * other
    }
  }

  /** The journal's feature word, with any other features. */
  function FeatureWord(has64: bool, v2: bool, v3: bool, bit0: bool, bit2: bool, other: nat): nat {
    AsBit(bit0) + 2 * AsBit(has64) + 4 * AsBit(bit2) + 8 * AsBit(v2) + 16 * AsBit(v3) + 32 * other
  }

  /** The format the feature word stands for, and the size of a tag in it. */
  lemma FeaturesRead(has64: bool, v2: bool, v3: bool, bit0: bool, bit2: bool, other: nat)
    ensures var caps := SetJournal(FeatureWord(has64, v2, v3, bit0, bit2, other));
      && caps.has64 == has64 && caps.fmt == (if v3 then CsumV3 else if v2 then CsumV2 else V1)
      && caps.tagBytes == (if v3 then 16 else if v2 then if has64 then 14 else 10 else if has64 then 12 else 8)
  {
    FeatureBits(has64, v2, v3, bit0, bit2, other);
  }

  lemma FeatureBits(has64: bool, v2: bool, v3: bool, bit0: bool, bit2: bool, other: nat)
    ensures var w := FeatureWord(has64, v2, v3, bit0, bit2, other);
      && (w / 2 % 2 == 1 <==> has64) && (w / 8 % 2 == 1 <==> v2) && (w / 16 % 2 == 1 <==> v3)
  {
    BitsOf(AsBit(bit0), AsBit(has64), AsBit(bit2), AsBit(v2), AsBit(v3), other);
  }

  lemma Halve(w: nat, bit: nat, rest: nat)
    requires w == bit + 2 * rest && bit < 2
    ensures w % 2 == bit && w / 2 == rest
  {
  }

  lemma Halves(w: nat)
    ensures w / 8 == w / 2 / 2 / 2 && w / 16 == w / 2 / 2 / 2 / 2
  {
  }

  lemma BitsOf(a: nat, b: nat, c: nat, d: nat, e: nat, rest: nat)
    requires a < 2 && b < 2 && c < 2 && d < 2 && e < 2
    ensures var w := a + 2 * b + 4 * c + 8 * d + 16 * e + 32 * rest;
      w / 2 % 2 == b && w / 8 % 2 == d && w / 16 % 2 == e
  {
    var w := a + 2 * b + 4 * c + 8 * d + 16 * e + 32 * rest;
    Halve(w, a, b + 2 * c + 4 * d + 8 * e + 16 * rest);
    Halve(w / 2, b, c + 2 * d + 4 * e + 8 * rest);
    Halve(w / 2 / 2, c, d + 2 * e + 4 * rest);
    Halve(w / 2 / 2 / 2, d, e + 2 * rest);
    Halve(w / 2 / 2 / 2 / 2, e, rest);
    Halves(w);
  }

  /** Every format: 8 or 12, 10 or 14, and 16 bytes. */
  predicate Sized(caps: Caps) {
    caps.tagBytes == match caps.fmt {
      case V1 => if caps.has64 then 12 else 8
      case CsumV2 => if caps.has64 then 14 else 10
      case CsumV3 => 16
    }
  }

  ghost predicate Fits(caps: Caps, t: WireTag) {
    && t.block < (if caps.has64 then 0x1_0000_0000_0000_0000 else 0x1_0000_0000)
    && t.FlagWord() < (if caps.fmt == CsumV3 then 0x1_0000_0000 else 0x1_0000)
    && t.csum < (if caps.fmt == CsumV3 then 0x1_0000_0000 else 0x1_0000)
    && |t.pad| == 2 && |t.uuid| == 16
  }

  ghost predicate AllFit(caps: Caps, ts: seq<WireTag>) {
    forall i | 0 <= i < |ts| :: Fits(caps, ts[i])
  }

  function Fields(caps: Caps, t: WireTag): seq<byte>
    requires Fits(caps, t)
  {
    var lo, hi := t.block % 0x1_0000_0000, t.block / 0x1_0000_0000;
    if caps.fmt == CsumV3 then PutBe32(lo) + (PutBe32(t.FlagWord()) + (PutBe32(hi) + PutBe32(t.csum)))
    else PutBe32(lo) + (PutBe16(t.csum) + (PutBe16(t.FlagWord())
         + ((if caps.has64 then PutBe32(hi) else []) + if caps.fmt == CsumV2 then t.pad else [])))
  }

  function EncodeTag(caps: Caps, t: WireTag): seq<byte>
    requires Fits(caps, t)
  {
    Fields(caps, t) + if t.sameUuid then [] else t.uuid
  }

  function Encoded(caps: Caps, ts: seq<WireTag>): (es: seq<seq<byte>>)
    requires AllFit(caps, ts)
    ensures |es| == |ts|
  {
    seq(|ts|, i requires 0 <= i < |ts| => EncodeTag(caps, ts[i]))
  }

  function Encode(caps: Caps, ts: seq<WireTag>): seq<byte>
    requires AllFit(caps, ts)
  {
    Join(Encoded(caps, ts))
  }

  /** What a tag says: the block it names and the meaning of its flags. */
  datatype Sense = Sense(block: nat, escaped: bool, sameUuid: bool, last: bool)

  function SenseOf(t: Tag): Sense {
    Sense(t.block, t.Escaped(), t.SameUuid(), t.Last())
  }

  function Senses(tags: seq<Tag>): seq<Sense> {
    seq(|tags|, i requires 0 <= i < |tags| => SenseOf(tags[i]))
  }

  /** What a written tag is meant to say. */
  function Meant(ts: seq<WireTag>): seq<Sense> {
    seq(|ts|, i requires 0 <= i < |ts| => Sense(ts[i].block, ts[i].escaped, ts[i].sameUuid, ts[i].last))
  }

  lemma FlagsRead(w: WireTag)
    ensures SenseOf(Tag(w.block, w.FlagWord())) == Sense(w.block, w.escaped, w.sameUuid, w.last)
  {
    FlagBits(AsBit(w.escaped), AsBit(w.sameUuid), AsBit(w.deleted), AsBit(w.last), w.other);
  }

  lemma FlagBits(a: nat, b: nat, c: nat, d: nat, rest: nat)
    requires a < 2 && b < 2 && c < 2 && d < 2
    ensures var w := a + 2 * b + 4 * c + 8 * d + 16 * rest; w % 2 == a && w / 2 % 2 == b && w / 8 % 2 == d
  {
    var w := a + 2 * b + 4 * c + 8 * d + 16 * rest;
    Halve(w, a, b + 2 * c + 4 * d + 8 * rest);
    Halve(w / 2, b, c + 2 * d + 4 * rest);
    Halve(w / 2 / 2, c, d + 2 * rest);
    Halve(w / 2 / 2 / 2, d, rest);
    Halves(w);
  }

  lemma SplitBlock(block: nat)
    ensures block == block % 0x1_0000_0000 + block / 0x1_0000_0000 * 0x1_0000_0000
    ensures block < 0x1_0000_0000 ==> block == block % 0x1_0000_0000
  {
  }

  lemma FieldsSize(caps: Caps, t: WireTag)
    requires Sized(caps) && Fits(caps, t)
    ensures |Fields(caps, t)| == caps.tagBytes && Readable(caps)
  {
  }

  lemma ReadsV3(caps: Caps, t: WireTag, s: seq<byte>, p: nat)
    requires Sized(caps) && Readable(caps) && caps.fmt == CsumV3 && Fits(caps, t) && StandsAt(s, p, Fields(caps, t))
    requires p + caps.tagBytes <= |s|
    ensures TagAt(caps, s, p) == Tag(t.block, t.FlagWord())
  {
    var lo, hi := t.block % 0x1_0000_0000, t.block / 0x1_0000_0000;
    StandsPart(s, p, PutBe32(lo), PutBe32(t.FlagWord()) + (PutBe32(hi) + PutBe32(t.csum)));
    StandsPart(s, p + 4, PutBe32(t.FlagWord()), PutBe32(hi) + PutBe32(t.csum));
    StandsPart(s, p + 8, PutBe32(hi), PutBe32(t.csum));
    ReadsBe32(s, p, lo);
    ReadsBe32(s, p + 4, t.FlagWord());
    ReadsBe32(s, p + 8, hi);
    SplitBlock(t.block);
  }

  lemma ReadsV1V2(caps: Caps, t: WireTag, s: seq<byte>, p: nat)
    requires Sized(caps) && Readable(caps) && caps.fmt != CsumV3 && Fits(caps, t) && StandsAt(s, p, Fields(caps, t))
    requires p + caps.tagBytes <= |s|
    ensures TagAt(caps, s, p) == Tag(t.block, t.FlagWord())
  {
    var lo, hi := t.block % 0x1_0000_0000, t.block / 0x1_0000_0000;
    var high, pad := if caps.has64 then PutBe32(hi) else [], if caps.fmt == CsumV2 then t.pad else [];
    StandsPart(s, p, PutBe32(lo), PutBe16(t.csum) + (PutBe16(t.FlagWord()) + (high + pad)));
    StandsPart(s, p + 4, PutBe16(t.csum), PutBe16(t.FlagWord()) + (high + pad));
    StandsPart(s, p + 6, PutBe16(t.FlagWord()), high + pad);
    StandsPart(s, p + 8, high, pad);
    ReadsBe32(s, p, lo);
    ReadsBe16(s, p + 6, t.FlagWord());
    if caps.has64 { ReadsBe32(s, p + 8, hi); }
    SplitBlock(t.block);
  }

  /** The tag that stands at `p` is read, and the walk steps over it and its UUID, if it has one. */
  lemma ReadsTag(caps: Caps, t: WireTag, s: seq<byte>, p: nat)
    requires Sized(caps) && Readable(caps) && Fits(caps, t) && StandsAt(s, p, EncodeTag(caps, t))
    ensures p + caps.tagBytes <= |s| && SenseOf(TagAt(caps, s, p)) == Sense(t.block, t.escaped, t.sameUuid, t.last)
    ensures Width(caps, TagAt(caps, s, p)) == |EncodeTag(caps, t)|
  {
    FieldsSize(caps, t);
    StandsPart(s, p, Fields(caps, t), if t.sameUuid then [] else t.uuid);
    if caps.fmt == CsumV3 { ReadsV3(caps, t, s, p); } else { ReadsV1V2(caps, t, s, p); }
    FlagsRead(t);
  }

  /** Where tag number `i` stands if the first stands at `p`. */
  function PosOf(caps: Caps, ts: seq<WireTag>, p: nat, i: nat): nat
    requires AllFit(caps, ts) && i <= |ts|
  {
    p + |Join(Encoded(caps, ts)[..i])|
  }

  lemma TagStands(caps: Caps, ts: seq<WireTag>, s: seq<byte>, p: nat, i: nat, e: seq<byte>)
    requires AllFit(caps, ts) && i < |ts| && StandsAt(s, p, Encode(caps, ts)) && e == Encoded(caps, ts)[i]
    ensures StandsAt(s, PosOf(caps, ts, p, i), e)
    ensures PosOf(caps, ts, p, i + 1) == PosOf(caps, ts, p, i) + |e|
  {
    PieceStands(Encoded(caps, ts), s, p, i, e);
  }

  lemma PosEnds(caps: Caps, ts: seq<WireTag>, p: nat)
    requires AllFit(caps, ts)
    ensures PosOf(caps, ts, p, 0) == p && PosOf(caps, ts, p, |ts|) == p + |Encode(caps, ts)|
  {
    var es := Encoded(caps, ts);
    assert es[..0] == [] && es[..|ts|] == es;
  }

  /** No tag but the last is written as the last; if none is, there is no room for another behind them. */
  ghost predicate Terminated(caps: Caps, ts: seq<WireTag>, room: int) {
    && (forall i | 0 <= i < |ts| - 1 :: !ts[i].last)
    && ((ts != [] && ts[|ts| - 1].last) || room < caps.tagBytes)
  }

  lemma {:induction false} ParseFrom(caps: Caps, ts: seq<WireTag>, s: seq<byte>, p: nat, i: nat)
    requires Sized(caps) && Readable(caps) && AllFit(caps, ts) && StandsAt(s, p, Encode(caps, ts))
    requires Terminated(caps, ts, |s| - (p + |Encode(caps, ts)|)) && i <= |ts|
    requires i == |ts| ==> ts == [] || !ts[i - 1].last
    ensures Senses(Parse(caps, s, PosOf(caps, ts, p, i))) == Meant(ts[i..])
    decreases |ts| - i
  {
    var q := PosOf(caps, ts, p, i);
    if i == |ts| {
      PosEnds(caps, ts, p);
      NoRoom(caps, s, q);
    } else {
      TagStands(caps, ts, s, p, i, EncodeTag(caps, ts[i]));
      ReadsTag(caps, ts[i], s, q);
      if !ts[i].last { ParseFrom(caps, ts, s, p, i + 1); }
      ParseTag(caps, s, q, PosOf(caps, ts, p, i + 1), ts, i);
    }
  }

  lemma NoRoom(caps: Caps, s: seq<byte>, q: nat)
    requires Readable(caps) && |s| - q < caps.tagBytes
    ensures Senses(Parse(caps, s, q)) == []
  {
  }

  lemma ParseTag(caps: Caps, s: seq<byte>, q: nat, next: nat, ts: seq<WireTag>, i: nat)
    requires Readable(caps) && q + caps.tagBytes <= |s| && next == q + Width(caps, TagAt(caps, s, q)) && i < |ts|
    requires SenseOf(TagAt(caps, s, q)) == Sense(ts[i].block, ts[i].escaped, ts[i].sameUuid, ts[i].last)
    requires if ts[i].last then i + 1 == |ts| else Senses(Parse(caps, s, next)) == Meant(ts[i + 1..])
    ensures Senses(Parse(caps, s, q)) == Meant(ts[i..])
  {
    ParseNext(caps, s, q, next);
    assert ts[i..][1..] == ts[i + 1..];
    SayFirst(TagAt(caps, s, q), if ts[i].last then [] else Parse(caps, s, next), ts[i..]);
  }

  /** Any list of tags, written anywhere, is read back: every block number and the meaning of every flag. */
  lemma ParseEncoded(caps: Caps, ts: seq<WireTag>, s: seq<byte>, p: nat)
    requires Sized(caps) && Readable(caps) && AllFit(caps, ts) && StandsAt(s, p, Encode(caps, ts))
    requires Terminated(caps, ts, |s| - (p + |Encode(caps, ts)|))
    ensures Senses(Parse(caps, s, p)) == Meant(ts)
  {
    PosEnds(caps, ts, p);
    ParseFrom(caps, ts, s, p, 0);
    assert ts[0..] == ts;
  }

  lemma ParseNext(caps: Caps, s: seq<byte>, p: nat, next: nat)
    requires Readable(caps) && p + caps.tagBytes <= |s| && next == p + Width(caps, TagAt(caps, s, p))
    ensures var t := TagAt(caps, s, p); Parse(caps, s, p) == [t] + if t.Last() then [] else Parse(caps, s, next)
  {
  }

  lemma SayFirst(t: Tag, tags: seq<Tag>, ts: seq<WireTag>)
    requires ts != [] && SenseOf(t) == Sense(ts[0].block, ts[0].escaped, ts[0].sameUuid, ts[0].last)
    requires Senses(tags) == Meant(ts[1..])
    ensures Senses([t] + tags) == Meant(ts)
  {
    var a, b := Senses([t] + tags), Meant(ts);
    assert |a| == |Senses(tags)| + 1 && |b| == |Meant(ts[1..])| + 1;
    forall i | 0 < i < |ts| ensures a[i] == b[i] {
      assert a[i] == Senses(tags)[i - 1] && b[i] == Meant(ts[1..])[i - 1];
    }
  }

  /** For every feature word and every list of tags behind a header of twelve bytes: the tag size is the kernel's, and
      parsing gives back exactly the block numbers and the flags. */
  lemma RoundTrip(has64: bool, v2: bool, v3: bool, bit0: bool, bit2: bool, other: nat, ts: seq<WireTag>,
                  header: seq<byte>, rest: seq<byte>)
    requires var caps := SetJournal(FeatureWord(has64, v2, v3, bit0, bit2, other));
      AllFit(caps, ts) && Terminated(caps, ts, |rest|)
    requires |header| == 12
    ensures var caps := SetJournal(FeatureWord(has64, v2, v3, bit0, bit2, other));
      Sized(caps) && Readable(caps) && Senses(Parse(caps, header + Encode(caps, ts) + rest, 12)) == Meant(ts)
  {
    FeaturesRead(has64, v2, v3, bit0, bit2, other);
    var caps := SetJournal(FeatureWord(has64, v2, v3, bit0, bit2, other));
    ParseBehind(caps, ts, header, rest, header + Encode(caps, ts) + rest);
  }

  lemma ParseBehind(caps: Caps, ts: seq<WireTag>, header: seq<byte>, rest: seq<byte>, s: seq<byte>)
    requires Sized(caps) && Readable(caps) && AllFit(caps, ts) && Terminated(caps, ts, |rest|)
    requires s == header + Encode(caps, ts) + rest
    ensures Senses(Parse(caps, s, |header|)) == Meant(ts)
  {
    InMiddle(header, Encode(caps, ts), rest, s);
    ParseEncoded(caps, ts, s, |header|);
  }

  lemma InMiddle(a: seq<byte>, t: seq<byte>, b: seq<byte>, s: seq<byte>)
    requires s == a + t + b
    ensures StandsAt(s, |a|, t) && |s| - (|a| + |t|) == |b|
  {
  }
}
