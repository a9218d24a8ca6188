/** The index-header reader of scripts/fixture-segment-ids.py, and the header
    layout it documents: magic, codec name, version, sixteen-byte id. */
module SegmentHeader {
  import opened VarInt

  const MAGIC: seq<Byte> := [0x3F, 0xD7, 0x6C, 0x17]

  /** How many bytes of a file the script reads. */
  const HEAD_BYTES: nat := 64

  datatype Header = Header(name: seq<Byte>, version: seq<Byte>, id: seq<Byte>)

  /** Fixed-width parts have their width and the name length fits a vint. */
  ghost predicate Valid(h: Header) {
    |h.version| == 4 && |h.id| == 16 && |h.name| < Pow128(VINT_BYTES)
  }

  function Write(h: Header): (bytes: seq<Byte>) {
    MAGIC + Encode(|h.name|) + h.name + h.version + h.id
  }

  /** `segment_id` */
  function SegmentId(data: seq<Byte>): (r: Result<seq<Byte>>) {
    if |data| < 4 || data[..4] != MAGIC then Err(NotAHeader)
    else
      match Decode(data, 4, VINT_BYTES)
      case Err(f) => Err(f)
      case Ok((nameLength, pos)) =>
        var at := pos + nameLength + 4;
        if at + 16 > |data| then Err(Truncated) else Ok(data[at..at + 16])
  }

  /** `handle.read(64)` */
  function Head(file: seq<Byte>): seq<Byte> {
    if |file| <= HEAD_BYTES then file else file[..HEAD_BYTES]
  }

  /** Reading a prefix of a written header: the vint decodes to the name length,
      and the id comes back exactly when the prefix reaches past it. */
  lemma {:induction false} ReadPrefix(h: Header, after: seq<Byte>, cut: nat)
    requires Valid(h)
    requires 4 + |Encode(|h.name|)| <= cut <= |Write(h) + after|
    ensures SegmentId((Write(h) + after)[..cut])
         == if |Write(h)| <= cut then Ok(h.id) else Err(Truncated)
  {
    hide Decode, Encode;
    var file := Write(h) + after;
    var data := file[..cut];
    var n := |Encode(|h.name|)|;
    Layout(h, after);
    assert data[..4] == file[..4] && data[4..4 + n] == file[4..4 + n];
    DecodeEncode(|h.name|, data, 4, VINT_BYTES);
    var at := 4 + n + |h.name| + 4;
    if at + 16 <= cut {
      assert data[at..at + 16] == file[at..at + 16];
    }
  }

  /** Where the parts of a header stand. */
  lemma Layout(h: Header, after: seq<Byte>)
    requires Valid(h)
    ensures var file, n := Write(h) + after, |Encode(|h.name|)|;
            && |Write(h)| == 4 + n + |h.name| + 20
            && file[..4] == MAGIC && file[4..4 + n] == Encode(|h.name|)
            && file[4 + n + |h.name| + 4..4 + n + |h.name| + 20] == h.id
  {
    hide Encode;
    var length := Encode(|h.name|);
    Between(MAGIC, length, h.name + h.version + h.id + after);
    Between(MAGIC + length + h.name + h.version, h.id, after);
    assert Write(h) + after == MAGIC + length + (h.name + h.version + h.id + after);
  }

  lemma Between(a: seq<Byte>, b: seq<Byte>, c: seq<Byte>)
    ensures (a + b + c)[..|a|] == a && (a + b + c)[|a|..|a| + |b|] == b
  {
  }

  /** `segment_id` returns the id that was written, for any name, version and
      trailing bytes. */
  lemma SegmentIdWrite(h: Header, after: seq<Byte>)
    requires Valid(h)
    ensures SegmentId(Write(h) + after) == Ok(h.id)
    ensures h.name + (h.version + h.id) == Write(h)[4 + |Encode(|h.name|)|..]
  {
    var file := Write(h) + after;
    assert file[..|file|] == file;
    ReadPrefix(h, after, |file|);
  }

  /** The 64 bytes the script reads are enough exactly for names of at most 39 bytes. */
  lemma HeadSuffices(h: Header, after: seq<Byte>)
    requires Valid(h)
    ensures |h.name| <= 39 ==> SegmentId(Head(Write(h) + after)) == Ok(h.id)
    ensures |h.name| > 39 ==> SegmentId(Head(Write(h) + after)) == Err(Truncated)
  {
    var file := Write(h) + after;
    var n := |Encode(|h.name|)|;
    EncodedLength(|h.name|, VINT_BYTES);
    EncodedLength(|h.name|, 1);
    assert Pow128(1) == 128 * Pow128(0);
    assert |Write(h)| == 4 + n + |h.name| + 20;
    assert |Write(h)| <= HEAD_BYTES <==> |h.name| <= 39;
    if |file| <= HEAD_BYTES {
      SegmentIdWrite(h, after);
    } else {
      ReadPrefix(h, after, HEAD_BYTES);
    }
  }

  /** Non-headers are refused, whatever the rest holds. */
  lemma ForeignMagic(data: seq<Byte>)
    ensures SegmentId(data) == Err(NotAHeader) <==> !([0x3F, 0xD7, 0x6C, 0x17] <= data)
  {
    var r := Decode(data, 4, VINT_BYTES);
    NoHeaderFault(data, 4, VINT_BYTES);
  }

  lemma {:induction false} NoHeaderFault(data: seq<Byte>, pos: nat, room: nat)
    requires room >= 1
    ensures Decode(data, pos, room) != Err(NotAHeader)
    decreases room
  {
    if pos < |data| && data[pos] >= 128 && room > 1 {
      NoHeaderFault(data, pos + 1, room - 1);
    }
  }
}
