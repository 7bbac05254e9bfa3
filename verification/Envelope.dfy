/** The byte framing of sidecar files: magic, version, segment id, recipe length, CRC,
    recipe, payload. The CRC is an arbitrary function of the bytes it covers. */
module Envelope {

  newtype Byte = x: int | 0 <= x < 256

  type U32 = n: nat | n < 0x1_0000_0000
  type U64 = n: nat | n < 0x1_0000_0000_0000_0000
  type Magic = s: seq<Byte> | |s| == 8 witness [0, 0, 0, 0, 0, 0, 0, 0]
  type Crc = seq<Byte> -> U32

  const HEADER_BYTES: nat := 28

  datatype Error =
    | RecipeTooLarge
    | HeaderTruncated
    | MagicMismatch
    | VersionMismatch(version: U32)
    | SegmentMismatch(segment: U64)
    | RecipeTruncated
    | CrcMismatch(expected: U32, actual: U32)
    | RecipeMismatch
    | UnexpectedEof

  datatype Result<+T> = Ok(value: T) | Err(error: Error)

  /** What the consumer fixes about a file besides its payload. */
  datatype Tags = Tags(magic: Magic, version: U32, segment: U64, recipe: seq<Byte>)

  // ---------------------------------------------------------------------------
  // Little-endian numbers
  // ---------------------------------------------------------------------------

  function Pow256(w: nat): (p: nat)
    ensures p > 0
  {
    if w == 0 then 1 else 256 * Pow256(w - 1)
  }

  lemma Widths()
    ensures Pow256(4) == 0x1_0000_0000 && Pow256(8) == 0x1_0000_0000_0000_0000
  {
    assert Pow256(1) == 256 && Pow256(2) == 256 * Pow256(1) && Pow256(3) == 256 * Pow256(2);
    assert Pow256(4) == 256 * Pow256(3) && Pow256(5) == 256 * Pow256(4) && Pow256(6) == 256 * Pow256(5);
    assert Pow256(7) == 256 * Pow256(6) && Pow256(8) == 256 * Pow256(7);
  }

  function LeBytes(n: nat, w: nat): (b: seq<Byte>)
    ensures |b| == w
  {
    if w == 0 then [] else [(n % 256) as Byte] + LeBytes(n / 256, w - 1)
  }

  function LeValue(b: seq<Byte>): nat {
    if b == [] then 0 else b[0] as nat + 256 * LeValue(b[1..])
  }

  lemma {:induction false} LeBound(b: seq<Byte>)
    ensures LeValue(b) < Pow256(|b|)
  {
    if b != [] { LeBound(b[1..]); }
  }

  lemma {:induction false} LeRoundTrip(n: nat, w: nat)
    requires n < Pow256(w)
    ensures LeValue(LeBytes(n, w)) == n
  {
    if w > 0 {
      LeRoundTrip(n / 256, w - 1);
      assert LeBytes(n, w)[1..] == LeBytes(n / 256, w - 1);
    }
  }

  lemma LowDigit(d: nat, rest: nat)
    requires d < 256
    ensures (d + 256 * rest) % 256 == d && (d + 256 * rest) / 256 == rest
  {
  }

  lemma {:induction false} LeUnique(b: seq<Byte>)
    ensures LeBytes(LeValue(b), |b|) == b
  {
    if b != [] {
      LeUnique(b[1..]);
      LowDigit(b[0] as nat, LeValue(b[1..]));
      assert b == [b[0]] + b[1..];
    }
  }

  lemma ShiftOnce(x: nat, p: nat)
    ensures x * (256 * p) == 256 * (x * p)
  {
  }

  /** The last byte is the most significant. */
  lemma {:induction false} LeValueLast(b: seq<Byte>, x: Byte)
    ensures LeValue(b + [x]) == LeValue(b) + x as nat * Pow256(|b|)
  {
    if b == [] {
      assert ([x])[1..] == [] && b + [x] == [x];
    } else {
      LeValueLast(b[1..], x);
      assert (b + [x])[1..] == b[1..] + [x];
      ShiftOnce(x as nat, Pow256(|b| - 1));
    }
  }

  function ReadU32(b: seq<Byte>): U32
    requires |b| == 4
  {
    LeBound(b);
    Widths();
    LeValue(b)
  }

  function ReadU64(b: seq<Byte>): U64
    requires |b| == 8
  {
    LeBound(b);
    Widths();
    LeValue(b)
  }

  lemma Le32(n: U32, b: seq<Byte>)
    requires |b| == 4
    ensures ReadU32(b) == n <==> b == LeBytes(n, 4)
  {
    Widths();
    LeRoundTrip(n, 4);
    LeUnique(b);
  }

  lemma Le64(n: U64, b: seq<Byte>)
    requires |b| == 8
    ensures ReadU64(b) == n <==> b == LeBytes(n, 8)
  {
    Widths();
    LeRoundTrip(n, 8);
    LeUnique(b);
  }

  // ---------------------------------------------------------------------------
  // Encoding
  // ---------------------------------------------------------------------------

  /** The bytes of an envelope with `field` in the place of the CRC. */
  function Frame(t: Tags, field: seq<Byte>, payload: seq<Byte>): seq<Byte> {
    t.magic + LeBytes(t.version, 4) + LeBytes(t.segment, 8) + LeBytes(|t.recipe|, 4) + field + t.recipe + payload
  }

  /** Every byte but those of the CRC field. */
  function Covered(b: seq<Byte>): seq<Byte>
    requires |b| >= HEADER_BYTES
  {
    b[..24] + b[28..]
  }

  function Encoded(crc: Crc, t: Tags, payload: seq<Byte>): Result<seq<Byte>> {
    if |t.recipe| >= 0x1_0000_0000 then Err(RecipeTooLarge)
    else Ok(Frame(t, LeBytes(crc(Covered(Frame(t, LeBytes(0, 4), payload))), 4), payload))
  }

  /** `encode`: append the fields, with a zero CRC that is then overwritten in place. */
  method Encode(crc: Crc, t: Tags, payload: seq<Byte>) returns (r: Result<seq<Byte>>)
    ensures r == Encoded(crc, t, payload)
  {
    if |t.recipe| >= 0x1_0000_0000 { return Err(RecipeTooLarge); }
    var bytes: seq<Byte> := [];
    bytes := bytes + t.magic;
    bytes := bytes + LeBytes(t.version, 4);
    bytes := bytes + LeBytes(t.segment, 8);
    bytes := bytes + LeBytes(|t.recipe|, 4);
    bytes := bytes + LeBytes(0, 4);
    bytes := bytes + t.recipe;
    bytes := bytes + payload;
    assert bytes == Frame(t, LeBytes(0, 4), payload);
    var sum := LeBytes(crc(Covered(bytes)), 4);
    FrameParts(t, LeBytes(0, 4), payload);
    FrameParts(t, sum, payload);
    bytes := bytes[..24] + sum + bytes[28..];
    assert bytes == Frame(t, sum, payload);
    return Ok(bytes);
  }

  /** Where the fields of an envelope lie. */
  lemma FrameParts(t: Tags, field: seq<Byte>, payload: seq<Byte>)
    requires |field| == 4
    ensures var b := Frame(t, field, payload);
            && |b| == HEADER_BYTES + |t.recipe| + |payload|
            && b[..8] == t.magic && b[8..12] == LeBytes(t.version, 4) && b[12..20] == LeBytes(t.segment, 8)
            && b[20..24] == LeBytes(|t.recipe|, 4) && b[24..28] == field
            && b[28..28 + |t.recipe|] == t.recipe && b[28 + |t.recipe|..] == payload
            && b[28..] == t.recipe + payload
            && b[..24] == t.magic + LeBytes(t.version, 4) + LeBytes(t.segment, 8) + LeBytes(|t.recipe|, 4)
  {
  }

  // ---------------------------------------------------------------------------
  // Decoding
  // ---------------------------------------------------------------------------

  /** `decode`: the payload, if every field checks. */
  function Decode(crc: Crc, t: Tags, b: seq<Byte>): Result<seq<Byte>> {
    if |b| < HEADER_BYTES then Err(HeaderTruncated)
    else if b[..8] != t.magic then Err(MagicMismatch)
    else if ReadU32(b[8..12]) != t.version then Err(VersionMismatch(ReadU32(b[8..12])))
    else if ReadU64(b[12..20]) != t.segment then Err(SegmentMismatch(ReadU64(b[12..20])))
    else
      var recipeEnd := HEADER_BYTES + ReadU32(b[20..24]);
      if |b| < recipeEnd then Err(RecipeTruncated)
      else
        var expected := ReadU32(b[24..28]);
        var actual := crc(Covered(b));
        if actual != expected then Err(CrcMismatch(expected, actual))
        else if b[HEADER_BYTES..recipeEnd] != t.recipe then Err(RecipeMismatch)
        else Ok(b[recipeEnd..])
  }

  datatype PayloadInfo = PayloadInfo(offset: nat, length: nat, crc32: U32)

  /** The next `n` bytes of a reader positioned at `pos`. */
  function ReadExact(contents: seq<Byte>, pos: nat, n: nat): (r: Result<seq<Byte>>)
    ensures r.Ok? ==> |r.value| == n
  {
    if pos + n <= |contents| then Ok(contents[pos..pos + n]) else Err(UnexpectedEof)
  }

  /** `payload_info`: the payload range, from the header and the recipe alone. */
  function Info(t: Tags, contents: seq<Byte>, sidecarLen: nat): Result<PayloadInfo> {
    if sidecarLen < HEADER_BYTES then Err(HeaderTruncated)
    else
      match ReadExact(contents, 0, HEADER_BYTES)
      case Err(e) => Err(e)
      case Ok(h) =>
        if h[..8] != t.magic then Err(MagicMismatch)
        else if ReadU32(h[8..12]) != t.version then Err(VersionMismatch(ReadU32(h[8..12])))
        else if ReadU64(h[12..20]) != t.segment then Err(SegmentMismatch(ReadU64(h[12..20])))
        else
          var recipeLen := ReadU32(h[20..24]);
          var offset := HEADER_BYTES + recipeLen;
          if sidecarLen < offset then Err(RecipeTruncated)
          else if recipeLen != |t.recipe| then Err(RecipeMismatch)
          else
            match ReadExact(contents, HEADER_BYTES, |t.recipe|)
            case Err(e) => Err(e)
            case Ok(recipe) =>
              if recipe != t.recipe then Err(RecipeMismatch)
              else Ok(PayloadInfo(offset, sidecarLen - offset, ReadU32(h[24..28])))
  }

  // ---------------------------------------------------------------------------
  // The parser accepts exactly the image of the printer
  // ---------------------------------------------------------------------------

  lemma CoveredIgnoresField(t: Tags, f: seq<Byte>, g: seq<Byte>, payload: seq<Byte>)
    requires |f| == |g| == 4
    ensures |Frame(t, f, payload)| >= HEADER_BYTES && |Frame(t, g, payload)| >= HEADER_BYTES
    ensures Covered(Frame(t, f, payload)) == Covered(Frame(t, g, payload))
  {
    FrameParts(t, f, payload);
    FrameParts(t, g, payload);
  }

  lemma DecodeEncoded(crc: Crc, t: Tags, payload: seq<Byte>)
    requires Encoded(crc, t, payload).Ok?
    ensures Decode(crc, t, Encoded(crc, t, payload).value) == Ok(payload)
  {
    var zero := LeBytes(0, 4);
    CoveredIgnoresField(t, zero, zero, payload);
    var sum := crc(Covered(Frame(t, zero, payload)));
    var b := Frame(t, LeBytes(sum, 4), payload);
    FrameParts(t, LeBytes(sum, 4), payload);
    CoveredIgnoresField(t, zero, LeBytes(sum, 4), payload);
    Le32(t.version, b[8..12]);
    Le64(t.segment, b[12..20]);
    Le32(|t.recipe|, b[20..24]);
    Le32(sum, b[24..28]);
  }

  lemma Join(b: seq<Byte>, i: nat, j: nat)
    requires i <= j <= |b|
    ensures b[..j] == b[..i] + b[i..j]
  {
  }

  /** An envelope is put together from its fields. */
  lemma Reassembled(t: Tags, b: seq<Byte>, payload: seq<Byte>)
    requires |b| == 28 + |t.recipe| + |payload|
    requires b[..8] == t.magic && b[8..12] == LeBytes(t.version, 4) && b[12..20] == LeBytes(t.segment, 8)
    requires b[20..24] == LeBytes(|t.recipe|, 4)
    requires b[28..28 + |t.recipe|] == t.recipe && b[28 + |t.recipe|..] == payload
    ensures b == Frame(t, b[24..28], payload)
  {
    var n := 28 + |t.recipe|;
    Join(b, 8, 12);
    Join(b, 12, 20);
    Join(b, 20, 24);
    Join(b, 24, 28);
    Join(b, 28, n);
    assert b == b[..n] + b[n..];
  }

  lemma EncodeDecoded(crc: Crc, t: Tags, b: seq<Byte>)
    requires Decode(crc, t, b).Ok?
    ensures Encoded(crc, t, Decode(crc, t, b).value) == Ok(b)
  {
    var payload := Decode(crc, t, b).value;
    Le32(t.version, b[8..12]);
    Le64(t.segment, b[12..20]);
    Le32(|t.recipe|, b[20..24]);
    Le32(ReadU32(b[24..28]), b[24..28]);
    Reassembled(t, b, payload);
    CoveredIgnoresField(t, b[24..28], LeBytes(0, 4), payload);
  }

  /** For every byte string, `decode` returns a payload exactly when `encode` prints that
      byte string from it. */
  lemma ExactInverse(crc: Crc, t: Tags, b: seq<Byte>, payload: seq<Byte>)
    ensures Decode(crc, t, b) == Ok(payload) <==> Encoded(crc, t, payload) == Ok(b)
  {
    if Decode(crc, t, b) == Ok(payload) { EncodeDecoded(crc, t, b); }
    if Encoded(crc, t, payload) == Ok(b) { DecodeEncoded(crc, t, payload); }
  }

  /** A file never decodes under other tags than its own: a copied, misnamed or
      recipe-mismatched sidecar is always rejected. */
  lemma OwnTagsOnly(crc: Crc, t: Tags, t': Tags, payload: seq<Byte>)
    requires Encoded(crc, t, payload).Ok?
    ensures Decode(crc, t', Encoded(crc, t, payload).value).Ok? ==> t' == t
  {
    var b := Encoded(crc, t, payload).value;
    DecodeEncoded(crc, t, payload);
    if Decode(crc, t', b).Ok? {
      assert t'.magic == t.magic && t'.version == t.version && t'.segment == t.segment && t'.recipe == t.recipe;
    }
  }

  /** Decoding is the header check of `payload_info` with the CRC check placed before the
      comparison of the recipe. So it succeeds exactly when `payload_info` does and the
      CRC matches, it cuts out the range that `payload_info` names, and otherwise both
      report the same error unless the CRC is wrong. */
  lemma DecodeByInfo(crc: Crc, t: Tags, b: seq<Byte>)
    ensures var info, d := Info(t, b, |b|), Decode(crc, t, b);
            && (d.Ok? <==> info.Ok? && info.value.crc32 == crc(Covered(b)))
            && (d.Ok? ==> info.value.offset + info.value.length == |b|
                          && b[info.value.offset..info.value.offset + info.value.length] == d.value)
            && (d.Err? ==> d.error.CrcMismatch? || info == Err(d.error))
            && (info.Err? && info.error != RecipeMismatch ==> d == Err(info.error))
  {
    if |b| >= HEADER_BYTES {
      var h := b[0..HEADER_BYTES];
      assert h[..8] == b[..8] && h[8..12] == b[8..12] && h[12..20] == b[12..20];
      assert h[20..24] == b[20..24] && h[24..28] == b[24..28];
    }
  }

  /** The CRC covers every byte outside its own field. */
  lemma CoversAll(a: seq<Byte>, b: seq<Byte>)
    requires |a| >= HEADER_BYTES && |b| >= HEADER_BYTES && Covered(a) == Covered(b)
    ensures |a| == |b| && forall i :: 0 <= i < |a| && !(24 <= i < 28) ==> a[i] == b[i]
  {
    forall i | 0 <= i < |a| && !(24 <= i < 28) ensures a[i] == b[i] {
      var j := if i < 24 then i else i - 4;
      assert Covered(a)[j] == a[i] && Covered(b)[j] == b[i];
    }
  }

  /** Two different files that decode under the same tags differ in bytes the CRC covers.
      So an accepted file whose CRC field alone is altered is refused, and one that is
      altered elsewhere is refused unless two byte strings have the same CRC. */
  lemma Altered(crc: Crc, t: Tags, a: seq<Byte>, b: seq<Byte>)
    requires Decode(crc, t, a).Ok? && Decode(crc, t, b).Ok? && a != b
    ensures Covered(a) != Covered(b)
    ensures a[24..28] == b[24..28] ==> crc(Covered(a)) == crc(Covered(b))
  {
    if Covered(a) == Covered(b) { SameCovered(crc, t, a, b); }
  }

  lemma SameCovered(crc: Crc, t: Tags, a: seq<Byte>, b: seq<Byte>)
    requires Decode(crc, t, a).Ok? && Decode(crc, t, b).Ok? && Covered(a) == Covered(b)
    ensures a == b
  {
    CoversAll(a, b);
    Le32(crc(Covered(a)), a[24..28]);
    Le32(crc(Covered(b)), b[24..28]);
    forall i | 24 <= i < 28 ensures a[i] == b[i] {
      assert a[i] == a[24..28][i - 24] && b[i] == b[24..28][i - 24];
    }
  }

  /** An error of `decode` names the first check, in the order of the fields, that fails. */
  lemma DecodeBlames(crc: Crc, t: Tags, b: seq<Byte>)
    ensures var d := Decode(crc, t, b);
            && (d == Err(HeaderTruncated) <==> |b| < 28)
            && (d == Err(MagicMismatch) <==> |b| >= 28 && b[..8] != t.magic)
            && (d.Err? && d.error.VersionMismatch? <==>
                  |b| >= 28 && b[..8] == t.magic && b[8..12] != LeBytes(t.version, 4))
            && (d.Err? && d.error.VersionMismatch? ==> b[8..12] == LeBytes(d.error.version, 4))
            && (d.Err? && d.error.SegmentMismatch? <==>
                  |b| >= 28 && b[..8] == t.magic && b[8..12] == LeBytes(t.version, 4)
                  && b[12..20] != LeBytes(t.segment, 8))
            && (d.Err? && d.error.SegmentMismatch? ==> b[12..20] == LeBytes(d.error.segment, 8))
  {
    if |b| >= HEADER_BYTES {
      Le32(t.version, b[8..12]);
      Le32(ReadU32(b[8..12]), b[8..12]);
      Le64(t.segment, b[12..20]);
      Le64(ReadU64(b[12..20]), b[12..20]);
    }
  }

  /** Whatever length is claimed for the file, `payload_info` accepts exactly a header and
      recipe of these tags that are there in full, and names everything after them. */
  lemma InfoExactly(t: Tags, b: seq<Byte>, sidecarLen: nat)
    requires |t.recipe| < 0x1_0000_0000
    ensures var r, n := Info(t, b, sidecarLen), 28 + |t.recipe|;
            && (r.Ok? <==> sidecarLen >= n && |b| >= n && b[28..n] == t.recipe
                           && b[..24] == t.magic + LeBytes(t.version, 4) + LeBytes(t.segment, 8)
                                         + LeBytes(|t.recipe|, 4))
            && (r.Ok? ==> r.value.offset == n && r.value.offset + r.value.length == sidecarLen
                          && b[24..28] == LeBytes(r.value.crc32, 4))
  {
    if |b| >= HEADER_BYTES {
      var h := b[0..HEADER_BYTES];
      assert h[..8] == b[..8] && h[8..12] == b[8..12] && h[12..20] == b[12..20];
      assert h[20..24] == b[20..24] && h[24..28] == b[24..28];
      Le32(t.version, b[8..12]);
      Le64(t.segment, b[12..20]);
      Le32(|t.recipe|, b[20..24]);
      Le32(ReadU32(b[24..28]), b[24..28]);
      HeaderSplit(t, b);
    }
  }

  lemma HeaderSplit(t: Tags, b: seq<Byte>)
    requires |b| >= HEADER_BYTES
    ensures b[..24] == t.magic + LeBytes(t.version, 4) + LeBytes(t.segment, 8) + LeBytes(|t.recipe|, 4) <==>
            b[..8] == t.magic && b[8..12] == LeBytes(t.version, 4) && b[12..20] == LeBytes(t.segment, 8)
            && b[20..24] == LeBytes(|t.recipe|, 4)
  {
    var h := t.magic + LeBytes(t.version, 4) + LeBytes(t.segment, 8) + LeBytes(|t.recipe|, 4);
    assert h[..8] == t.magic && h[8..12] == LeBytes(t.version, 4) && h[12..20] == LeBytes(t.segment, 8)
           && h[20..24] == LeBytes(|t.recipe|, 4);
    var c := b[..24];
    assert c[..8] == b[..8] && c[8..12] == b[8..12] && c[12..20] == b[12..20] && c[20..24] == b[20..24];
    Join(b, 8, 12);
    Join(b, 12, 20);
    Join(b, 20, 24);
  }
}
