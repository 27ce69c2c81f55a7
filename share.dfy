/** A share of the secret and its byte encoding (crates/shamir/src/share.rs): an x-coordinate and
  * one y-value per byte of the shared data, written out as the byte of x followed by the bytes
  * of y. */
module Shares {
  import opened Results
  import opened GF256

  /** The x-coordinate (evaluation point) and the y-values, one per byte. */
  datatype Share = Share(x: GF256, y: seq<GF256>)

  /** The message `from_bytes` fails with. */
  const TOO_SHORT: string := "A Share must be at least 2 bytes long"

  /** The bytes of a sequence of field elements. */
  function Bytes(s: seq<GF256>): (b: seq<bv8>)
    ensures |b| == |s| && forall i | 0 <= i < |s| :: b[i] == s[i].value
  {
    seq(|s|, i requires 0 <= i < |s| => s[i].value)
  }

  /** The field elements of a sequence of bytes. */
  function Elements(b: seq<bv8>): (s: seq<GF256>)
    ensures |s| == |b| && forall i | 0 <= i < |b| :: s[i].value == b[i]
  {
    seq(|b|, i requires 0 <= i < |b| => GF256(b[i]))
  }

  lemma ElementsOfBytes(s: seq<GF256>)
    ensures Elements(Bytes(s)) == s
  {
  }

  lemma BytesOfElements(b: seq<bv8>)
    ensures Bytes(Elements(b)) == b
  {
  }

  function New(x: GF256, y: seq<GF256>): Share {
    Share(x, y)
  }

  function X(s: Share): GF256 {
    s.x
  }

  function Y(s: Share): seq<GF256> {
    s.y
  }

  /** The accessors give back what `new` stored. */
  lemma AccessorsOfNew(x: GF256, y: seq<GF256>)
    ensures X(New(x, y)) == x && Y(New(x, y)) == y
  {
  }

  /** The length of a share: one byte for x plus one per y-value, the length of its encoding. */
  function Len(s: Share): (n: nat)
    ensures n >= 1
  {
    |s.y| + 1
  }

  /** A share is empty when it carries no y-values, that is when its encoding is the x byte
    * alone. */
  function IsEmpty(s: Share): (b: bool)
    ensures b <==> Len(s) == 1
  {
    |s.y| == 0
  }

  /** The encoding of a share: the byte of x followed by the bytes of y. */
  function Encoding(s: Share): seq<bv8> {
    [s.x.value] + Bytes(s.y)
  }

  /** `to_bytes`: pushes x, then extends with the y-values one at a time. */
  method ToBytes(s: Share) returns (bytes: seq<bv8>)
    ensures bytes == Encoding(s)
    ensures |bytes| == Len(s) && bytes[0] == s.x.value
  {
    bytes := [s.x.value];
    var i := 0;
    while i < |s.y|
      invariant 0 <= i <= |s.y|
      invariant bytes == [s.x.value] + Bytes(s.y[..i])
    {
      bytes := bytes + [s.y[i].value];
      i := i + 1;
    }
    assert s.y[..i] == s.y;
  }

  /** `from_bytes`: fails on fewer than two bytes, otherwise x is the first byte and y the
    * rest. */
  function FromBytes(bytes: seq<bv8>): (r: Result<Share, string>)
    ensures r.Err? <==> |bytes| < 2
    ensures r.Err? ==> r.error == TOO_SHORT
    ensures r.Ok? ==> Encoding(r.value) == bytes && !IsEmpty(r.value)
  {
    if |bytes| < 2 then
      Err(TOO_SHORT)
    else
      BytesOfElements(bytes[1..]);
      assert bytes == [bytes[0]] + bytes[1..];
      Ok(Share(GF256(bytes[0]), Elements(bytes[1..])))
  }

  /** `try_from` on a byte slice is `from_bytes`. */
  function TryFrom(bytes: seq<bv8>): (r: Result<Share, string>)
    ensures r.Err? <==> |bytes| < 2
    ensures r.Ok? ==> Encoding(r.value) == bytes
  {
    FromBytes(bytes)
  }

  /** Decoding an encoding gives the share back when it has y-values; a share without y-values
    * encodes to a single byte, which does not decode. */
  lemma DecodeEncode(s: Share)
    ensures !IsEmpty(s) ==> FromBytes(Encoding(s)) == Ok(s)
    ensures IsEmpty(s) ==> FromBytes(Encoding(s)).Err?
  {
    var e := Encoding(s);
    if |s.y| > 0 {
      assert e[1..] == Bytes(s.y);
      ElementsOfBytes(s.y);
    }
  }

  /** Encoding what was decoded gives the bytes back. */
  lemma EncodeDecode(bytes: seq<bv8>)
    requires |bytes| >= 2
    ensures Encoding(FromBytes(bytes).value) == bytes
  {
  }

  /** The examples of the source's tests. */
  lemma ShareExamples()
    ensures Len(New(GF256(5), [GF256(10), GF256(20), GF256(30)])) == 4
    ensures !IsEmpty(New(GF256(5), [GF256(10), GF256(20), GF256(30)]))
    ensures FromBytes([]).Err? && FromBytes([42]).Err? && FromBytes([42, 100]).Ok?
  {
  }
}
