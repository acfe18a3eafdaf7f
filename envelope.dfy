/**
 * The text envelope of a share code: the hexadecimal version tag "8"
 * followed by the base64 text of the snappy-compressed record image.
 *
 * The compressor and the base64 codec are library code outside this model;
 * they are parameters (`Codecs`), and the facts about them that the lemmas
 * need are hypotheses (`SnappyInverse`, `Base64Inverse`, `SnappyNilOnError`).
 */
module Envelope {
  import opened FieldCodecs
  import opened Layout

  const ShareCodeVersion: nat := 8

  /** What a library decoder returns: the bytes it produced and whether it reported an error. */
  datatype Decoded = Decoded(data: seq<byte>, failed: bool)

  /** The library codecs the envelope is built from. */
  datatype Codecs = Codecs(
    compress: seq<byte> -> seq<byte>,
    decompress: seq<byte> -> Decoded,
    encodeToString: seq<byte> -> string,
    decodeString: string -> Decoded)

  /** Snappy decoding undoes snappy encoding without error. */
  ghost predicate SnappyInverse(c: Codecs)
  {
    forall b :: c.decompress(c.compress(b)) == Decoded(b, false)
  }

  /** Base64 decoding undoes base64 encoding without error. */
  ghost predicate Base64Inverse(c: Codecs)
  {
    forall b :: c.decodeString(c.encodeToString(b)) == Decoded(b, false)
  }

  /** On a decoding error snappy returns no bytes. */
  ghost predicate SnappyNilOnError(c: Codecs)
  {
    forall b :: c.decompress(b).failed ==> c.decompress(b).data == []
  }

  /** Digit d of base 16, lower case as Go's formatter writes it. */
  function HexDigit(d: nat): char
    requires d < 16
  {
    if d < 10 then ('0' as int + d) as char else ('a' as int + d - 10) as char
  }

  /** The characters Go's base-16 formatter writes. */
  predicate IsHexDigit(ch: char)
  {
    '0' <= ch <= '9' || 'a' <= ch <= 'f'
  }

  /** The value of one base-16 digit. */
  function DigitValue(ch: char): nat
    requires IsHexDigit(ch)
  {
    if ch <= '9' then ch as int - '0' as int else ch as int - 'a' as int + 10
  }

  /** The number a text of base-16 digits denotes, most significant digit first. */
  function HexValue(s: string): nat
    requires forall j | 0 <= j < |s| :: IsHexDigit(s[j])
  {
    if |s| == 0 then 0 else HexValue(s[..|s| - 1]) * 16 + DigitValue(s[|s| - 1])
  }

  /**
   * The base-16 text of n as Go's integer formatter writes it: lower-case
   * digits, no leading zero, and read back in base 16 it is n again.
   */
  function FormatHex(n: nat): (s: string)
    ensures 1 <= |s| && forall j | 0 <= j < |s| :: IsHexDigit(s[j])
    ensures HexValue(s) == n
    ensures s[0] == '0' ==> s == "0"
  {
    if n < 16 then [HexDigit(n)]
    else
      var high := FormatHex(n / 16);
      var s := high + [HexDigit(n % 16)];
      assert s[..|s| - 1] == high;
      s
  }

  /** The leading version tag of every encoded share code. */
  function VersionTag(): (tag: string)
    ensures tag == "8"
  {
    FormatHex(ShareCodeVersion)
  }

  /** The text of a record: "8" followed by base64(snappy(image)). */
  function ToBase64String(c: Codecs, sc: V8): (s: string)
    requires WellFormed(sc)
    ensures |s| >= 1 && s[0] == '8'
    ensures s[1..] == c.encodeToString(c.compress(Image(sc)))
  {
    VersionTag() + c.encodeToString(c.compress(Image(sc)))
  }

  /** The same text under its second name. */
  function ToString(c: Codecs, sc: V8): (s: string)
    requires WellFormed(sc)
    ensures s == ToBase64String(c, sc)
  {
    ToBase64String(c, sc)
  }

  /** Decoding drops one leading '8' if there is one and keeps the text as is otherwise. */
  function StripVersionTag(text: string): (body: string)
    requires |text| > 0
    ensures text[0] == '8' ==> VersionTag() + body == text
    ensures text[0] != '8' ==> body == text
  {
    if text[0] == '8' then text[1..] else text
  }

  /**
   * The bytes decoding produces before they are copied into the record: one
   * leading '8' is dropped, and the data of both decoders is taken whatever
   * error they report.
   */
  function Uncompressed(c: Codecs, text: string): (u: seq<byte>)
    requires |text| > 0
    ensures text[0] == '8' ==> u == c.decompress(c.decodeString(text[1..]).data).data
    ensures text[0] != '8' ==> u == c.decompress(c.decodeString(text).data).data
  {
    c.decompress(c.decodeString(StripVersionTag(text)).data).data
  }

  /** u followed by zeros up to the size of the image. */
  function ZeroExtended(u: seq<byte>): (img: seq<byte>)
    requires |u| <= Size
    ensures |img| == Size
    ensures img[..|u|] == u && forall j | |u| <= j < Size :: img[j] == 0
  {
    u + Zeros(Size - |u|)
  }

  /** A decoding either returns a record or panics with an index out of range. */
  datatype Outcome = Returned(code: V8) | Panicked

  /** Reference definition of decoding: copy the uncompressed bytes over a zero record, panicking past byte 424. */
  function FromBase64(c: Codecs, text: string): (r: Outcome)
    requires |text| > 0
    ensures |Uncompressed(c, text)| <= Size ==>
              r.Returned? && WellFormed(r.code) && Image(r.code) == ClearPad(ZeroExtended(Uncompressed(c, text)))
  {
    var u := Uncompressed(c, text);
    if |u| > Size then Panicked
    else
      ImageParse(ZeroExtended(u));
      Returned(Parse(ZeroExtended(u)))
  }

  /** Decodes a share code text, writing the uncompressed bytes one by one into a zeroed 424-byte image. */
  method V8FromBase64(c: Codecs, sBase64: string) returns (out: Outcome)
    requires |sBase64| > 0
    ensures out == FromBase64(c, sBase64)
  {
    var text := sBase64;
    if text[0] == '8' {
      text := text[1..];
    }
    var decodedShareCode := c.decodeString(text).data;
    var uncompressed := c.decompress(decodedShareCode).data;
    var image := new byte[Size](_ => 0);
    for i := 0 to |uncompressed|
      invariant i <= Size
      invariant image[..i] == uncompressed[..i]
      invariant forall j | i <= j < Size :: image[j] == 0
    {
      if i >= image.Length {
        return Panicked;
      }
      image[i] := uncompressed[i];
    }
    assert image[..] == ZeroExtended(uncompressed) by {
      assert image[..] == image[..|uncompressed|] + image[|uncompressed|..];
    }
    return Returned(Parse(image[..]));
  }

  /** Under the inverse laws, decoding the text of a well-formed record gives the record back. */
  lemma DecodeRoundTrip(c: Codecs, sc: V8)
    requires SnappyInverse(c) && Base64Inverse(c) && WellFormed(sc)
    ensures FromBase64(c, ToBase64String(c, sc)) == Returned(sc)
  {
    var text := ToBase64String(c, sc);
    var img := Image(sc);
    assert StripVersionTag(text) == c.encodeToString(c.compress(img));
    assert c.decodeString(c.encodeToString(c.compress(img))) == Decoded(c.compress(img), false);
    assert c.decompress(c.compress(img)) == Decoded(img, false);
    ParseImage(sc);
    assert ZeroExtended(img) == img;
  }

  /** The text of a record decodes to a record whose text is the same again. */
  lemma TextRoundTrip(c: Codecs, sc: V8)
    requires SnappyInverse(c) && Base64Inverse(c) && WellFormed(sc)
    ensures FromBase64(c, ToBase64String(c, sc)).Returned?
    ensures ToBase64String(c, FromBase64(c, ToBase64String(c, sc)).code) == ToBase64String(c, sc)
  {
    DecodeRoundTrip(c, sc);
  }

  /**
   * Whatever the codecs return, a decoding that does not panic yields the record
   * whose image holds uncompressed byte j at offset j and zero past the data,
   * except the alignment pad, which a record cannot hold.
   */
  lemma DecodedImage(c: Codecs, text: string)
    requires |text| > 0 && |Uncompressed(c, text)| <= Size
    ensures FromBase64(c, text).Returned?
    ensures var img := Image(FromBase64(c, text).code);
      && |img| == Size
      && (forall j | 0 <= j < |Uncompressed(c, text)| && !(PadOffset <= j < PackedUnitRanksOffset) ::
            img[j] == Uncompressed(c, text)[j])
      && (forall j | |Uncompressed(c, text)| <= j < Size :: img[j] == 0)
      && (forall j | PadOffset <= j < PackedUnitRanksOffset :: img[j] == 0)
  {
    var u := Uncompressed(c, text);
    var z := ZeroExtended(u);
    ImageParse(z);
    forall j | 0 <= j < |u| ensures z[j] == u[j] {
      assert z[..|u|][j] == z[j];
    }
  }

  /** More than 424 uncompressed bytes make the copy loop index past the record, and decoding panics. */
  lemma OverlongPanics(c: Codecs, text: string)
    requires |text| > 0
    ensures FromBase64(c, text) == Panicked <==> |Uncompressed(c, text)| > Size
  {
  }

  /** When snappy reports an error its discarded result leaves the zero record. */
  lemma DecodeFailureYieldsZero(c: Codecs, text: string)
    requires SnappyNilOnError(c) && |text| > 0
    requires c.decompress(c.decodeString(StripVersionTag(text)).data).failed
    ensures FromBase64(c, text) == Returned(ZeroV8())
  {
    var d := c.decodeString(StripVersionTag(text)).data;
    assert c.decompress(d).data == [];
    assert ZeroExtended([]) == Zeros(Size);
  }

  /** A text without the version tag decodes as the same text with the tag put in front. */
  lemma TagOptional(c: Codecs, text: string)
    requires |text| > 0 && text[0] != '8'
    ensures FromBase64(c, text) == FromBase64(c, VersionTag() + text)
  {
    assert (VersionTag() + text)[1..] == text;
  }

  /** Exactly one tag is dropped: the text after a leading '8' is decoded as is, even when it starts with '8' itself. */
  lemma OneTagStripped(c: Codecs, text: string)
    ensures Uncompressed(c, VersionTag() + text) == c.decompress(c.decodeString(text).data).data
  {
    assert (VersionTag() + text)[1..] == text;
  }
}
