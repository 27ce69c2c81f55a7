/** The share formats of the command-line tool: file extensions, the classification of a
  * share file's text, and the `ShareData` record with its conversions to and from shares and
  * bytes. Hex and base64 encodings are not part of this model; `is_base64` is a parameter. */
module Formats {
  import opened Results
  import opened GF256Tables
  import opened GF256
  import opened Shares

  datatype OutputFormat = Json | Hex | Base64 | Binary

  datatype InputFormat = JsonInput | HexInput | Base64Input | BinaryInput

  /** `OutputFormat::extension`. */
  function Extension(f: OutputFormat): (e: string) {
    match f
    case Json => "json"
    case Hex => "hex"
    case Base64 => "b64"
    case Binary => "bin"
  }

  /** Each format has its own extension, so a file name tells its format. */
  lemma ExtensionsDistinct(f: OutputFormat, g: OutputFormat)
    ensures Extension(f) == Extension(g) <==> f == g
  {
    if f != g {
      assert Extension(f)[0] != Extension(g)[0] || Extension(f)[1] != Extension(g)[1];
    }
  }

  // ---------------------------------------------------------------------------------------
  // Classifying text

  /** `char::is_whitespace`: the characters with the Unicode White_Space property. */
  predicate IsWhitespace(c: char) {
    '\t' <= c <= '\r' || c == ' ' || c == '\U{0085}' || c == '\U{00A0}' || c == '\U{1680}' ||
    '\U{2000}' <= c <= '\U{200A}' || c == '\U{2028}' || c == '\U{2029}' || c == '\U{202F}' ||
    c == '\U{205F}' || c == '\U{3000}'
  }

  /** `char::is_ascii_hexdigit`. */
  predicate IsAsciiHexDigit(c: char) {
    '0' <= c <= '9' || 'a' <= c <= 'f' || 'A' <= c <= 'F'
  }

  /** The number of whitespace characters `s` starts with. */
  function LeadingSpace(s: string): (k: nat)
    ensures k <= |s| && (forall i | 0 <= i < k :: IsWhitespace(s[i]))
    ensures k < |s| ==> !IsWhitespace(s[k])
  {
    if |s| == 0 || !IsWhitespace(s[0]) then 0
    else
      var k := LeadingSpace(s[1..]);
      assert forall i | 1 <= i < k + 1 :: s[i] == s[1..][i - 1];
      k + 1
  }

  /** The number of whitespace characters `s` ends with. */
  function TrailingSpace(s: string): (k: nat)
    ensures k <= |s| && (forall i | |s| - k <= i < |s| :: IsWhitespace(s[i]))
    ensures k < |s| ==> !IsWhitespace(s[|s| - k - 1])
  {
    if |s| == 0 || !IsWhitespace(s[|s| - 1]) then 0
    else TrailingSpace(s[..|s| - 1]) + 1
  }

  /** Where the trimmed text starts and ends: whitespace only before and after, and none at
    * either end of what lies between. */
  function TrimBounds(s: string): (b: (nat, nat))
    ensures b.0 <= b.1 <= |s|
    ensures forall k | 0 <= k < b.0 :: IsWhitespace(s[k])
    ensures forall k | b.1 <= k < |s| :: IsWhitespace(s[k])
    ensures b.0 < b.1 ==> !IsWhitespace(s[b.0]) && !IsWhitespace(s[b.1 - 1])
  {
    var i := LeadingSpace(s);
    var j := TrailingSpace(s[i..]);
    assert forall k | i + (|s| - i - j) <= k < |s| :: s[k] == s[i..][k - i];
    (i, |s| - j)
  }

  /** `str::trim`: `s` without its leading and trailing whitespace. */
  function Trim(s: string): (t: string)
    ensures |t| == 0 || (!IsWhitespace(t[0]) && !IsWhitespace(t[|t| - 1]))
  {
    s[TrimBounds(s).0..TrimBounds(s).1]
  }

  /** Trimming what has no whitespace at its ends and padding it with whitespace gives it back. */
  lemma TrimPadded(front: string, t: string, back: string)
    requires forall k | 0 <= k < |front| :: IsWhitespace(front[k])
    requires forall k | 0 <= k < |back| :: IsWhitespace(back[k])
    requires |t| == 0 || (!IsWhitespace(t[0]) && !IsWhitespace(t[|t| - 1]))
    ensures Trim(front + t + back) == t
  {
    var s := front + t + back;
    var n := |front| + |t|;
    assert forall k | 0 <= k < |front| :: s[k] == front[k];
    assert forall k | n <= k < |s| :: s[k] == back[k - n];
    if |t| > 0 {
      assert s[|front|] == t[0] && s[n - 1] == t[|t| - 1];
      assert s[|front|..n] == t;
    }
  }

  /** Trimming twice is trimming once. */
  lemma TrimIdempotent(s: string)
    ensures Trim(Trim(s)) == Trim(s)
  {
    TrimPadded([], Trim(s), []);
    assert [] + Trim(s) + [] == Trim(s);
  }

  const UNDETECTED: string := "Cannot detect format from content"

  /** Braces at both ends of the trimmed text. */
  predicate LooksLikeJson(t: string) {
    |t| > 0 && t[0] == '{' && t[|t| - 1] == '}'
  }

  /** Only hex digits and whitespace, nothing at all included. */
  predicate LooksLikeHex(t: string) {
    forall k | 0 <= k < |t| :: IsAsciiHexDigit(t[k]) || IsWhitespace(t[k])
  }

  /** `InputFormat::detect`: after trimming, braces at both ends mean JSON; only hex digits and
    * whitespace (nothing at all included) mean hex; then base64 if `isBase64` accepts the
    * text; otherwise an error. Each outcome holds exactly when the earlier tests fail and its
    * own succeeds. */
  function Detect(content: string, isBase64: string -> bool): (r: Result<InputFormat, string>)
    ensures r.Ok? ==> r.value != BinaryInput
    ensures r == Ok(JsonInput) <==> LooksLikeJson(Trim(content))
    ensures r == Ok(HexInput) <==> !LooksLikeJson(Trim(content)) && LooksLikeHex(Trim(content))
    ensures r == Ok(Base64Input) <==>
      !LooksLikeJson(Trim(content)) && !LooksLikeHex(Trim(content)) && isBase64(Trim(content))
    ensures r.Err? <==>
      !LooksLikeJson(Trim(content)) && !LooksLikeHex(Trim(content)) && !isBase64(Trim(content))
    ensures r.Err? ==> r.error == UNDETECTED
  {
    var t := Trim(content);
    if LooksLikeJson(t) then Ok(JsonInput)
    else if LooksLikeHex(t) then Ok(HexInput)
    else if isBase64(t) then Ok(Base64Input)
    else Err(UNDETECTED)
  }

  /** Text that is whitespace only, empty included, is taken for hex. */
  lemma BlankIsHex(content: string, isBase64: string -> bool)
    requires forall k | 0 <= k < |content| :: IsWhitespace(content[k])
    ensures Detect(content, isBase64) == Ok(HexInput)
  {
    TrimPadded(content, [], []);
    assert content + [] + [] == content;
  }

  /** Hex digits, with whitespace between and around them, are taken for hex whatever
    * `is_base64` says. */
  lemma HexDigitsDetected(front: string, digits: string, back: string, isBase64: string -> bool)
    requires forall k | 0 <= k < |front| :: IsWhitespace(front[k])
    requires forall k | 0 <= k < |back| :: IsWhitespace(back[k])
    requires 0 < |digits| && IsAsciiHexDigit(digits[0]) && IsAsciiHexDigit(digits[|digits| - 1])
    requires LooksLikeHex(digits)
    ensures Detect(front + digits + back, isBase64) == Ok(HexInput)
  {
    TrimPadded(front, digits, back);
  }

  /** A JSON object, padded with whitespace, is taken for JSON. */
  lemma ObjectDetected(front: string, body: string, back: string, isBase64: string -> bool)
    requires forall k | 0 <= k < |front| :: IsWhitespace(front[k])
    requires forall k | 0 <= k < |back| :: IsWhitespace(back[k])
    ensures Detect(front + ("{" + body + "}") + back, isBase64) == Ok(JsonInput)
  {
    TrimPadded(front, "{" + body + "}", back);
  }

  /** Detection depends only on the trimmed text. */
  lemma DetectTrimmed(content: string, isBase64: string -> bool)
    ensures Detect(Trim(content), isBase64) == Detect(content, isBase64)
  {
    TrimIdempotent(content);
  }

  // ---------------------------------------------------------------------------------------
  // ShareData

  /** A share as the tool stores it, with optional metadata. */
  datatype ShareData = ShareData(
    id: Option<uint8>,
    x: bv8,
    y: seq<bv8>,
    threshold: Option<uint8>,
    totalShares: Option<uint8>,
    createdAt: Option<string>,
    description: Option<string>)

  /** `ShareData::new`: the share's bytes, and metadata only when asked for; the id is cast to
    * a byte and `now` stands for the creation time. */
  function NewShareData(share: Share, id: nat, totalShares: uint8, threshold: uint8,
                        includeMetadata: bool, now: string): (d: ShareData)
    ensures d.x == share.x.value && d.y == Bytes(share.y) && d.description.None?
    ensures d.id.Some? <==> includeMetadata
    ensures d.threshold.Some? <==> includeMetadata
    ensures d.totalShares.Some? <==> includeMetadata
    ensures d.createdAt.Some? <==> includeMetadata
    ensures includeMetadata ==>
      d.id.value as int == id % 256 &&
      d.threshold.value == threshold && d.totalShares.value == totalShares
  {
    ShareData(
      if includeMetadata then Some((id % 256) as uint8) else None,
      share.x.value,
      Bytes(share.y),
      if includeMetadata then Some(threshold) else None,
      if includeMetadata then Some(totalShares) else None,
      if includeMetadata then Some(now) else None,
      None)
  }

  /** `into_share`: every byte becomes the field element it names. */
  function IntoShare(d: ShareData): (s: Share)
    ensures s.x.value == d.x && Bytes(s.y) == d.y
  {
    BytesOfElements(d.y);
    Shares.New(GF256(d.x), Elements(d.y))
  }

  /** Storing a share and reading it back gives the share, with or without metadata. */
  lemma IntoShareOfNew(share: Share, id: nat, totalShares: uint8, threshold: uint8,
                       includeMetadata: bool, now: string)
    ensures IntoShare(NewShareData(share, id, totalShares, threshold, includeMetadata, now)) == share
  {
    ElementsOfBytes(share.y);
  }

  /** `to_bytes`: the encoding of the share. */
  function ToBytes(d: ShareData): (bytes: seq<bv8>)
    ensures bytes == [d.x] + d.y
  {
    Encoding(IntoShare(d))
  }

  const PARSE_PREFIX: string := "Failed to parse share from bytes: "

  /** `from_bytes`: the share decoded from the bytes, without metadata. */
  function FromBytes(bytes: seq<bv8>): (r: Result<ShareData, string>)
    ensures r.Err? <==> |bytes| < 2
    ensures r.Err? ==> r.error == PARSE_PREFIX + TOO_SHORT
    ensures r.Ok? ==>
      r.value.x == bytes[0] && r.value.y == bytes[1..] &&
      r.value.id.None? && r.value.threshold.None? && r.value.totalShares.None? &&
      r.value.createdAt.None? && r.value.description.None?
  {
    match Shares.FromBytes(bytes)
    case Err(e) => Err(PARSE_PREFIX + e)
    case Ok(share) =>
      assert Encoding(share) == bytes;
      Ok(ShareData(None, share.x.value, Bytes(share.y), None, None, None, None))
  }

  /** Bytes of at least two make a record whose bytes they are. */
  lemma ToBytesOfFromBytes(bytes: seq<bv8>)
    requires |bytes| >= 2
    ensures ToBytes(FromBytes(bytes).value) == bytes
  {
  }

  /** A record with some y-bytes comes back from its bytes with its x and y, and the metadata
    * dropped. */
  lemma FromBytesOfToBytes(d: ShareData)
    requires |d.y| > 0
    ensures FromBytes(ToBytes(d)) == Ok(ShareData(None, d.x, d.y, None, None, None, None))
  {
    assert ([d.x] + d.y)[1..] == d.y;
  }

  /** A record without y-bytes encodes to one byte, which does not decode. */
  lemma EmptyRecordLost(d: ShareData)
    requires |d.y| == 0
    ensures FromBytes(ToBytes(d)).Err?
  {
  }
}
