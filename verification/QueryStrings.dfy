/** Percent decoding and the splitting of a query string by its category parameters. */
module QueryStrings {
  import opened Wrappers

  newtype Byte = x: int | 0 <= x < 256

  /** Strings are the bytes of their UTF-8 form. */
  type Bytes = seq<Byte>

  const PERCENT: Byte := 37
  const AMPERSAND: Byte := 38
  const EQUALS: Byte := 61

  // ----- UTF-8 -----

  predicate Within(bytes: Bytes, i: nat, lo: Byte, hi: Byte) {
    i < |bytes| && lo <= bytes[i] <= hi
  }

  /** Length of the well-formed sequence at the front, or 0 when there is none (section 4 of RFC 3629). */
  function ScalarLength(bytes: Bytes): (n: nat)
    ensures n <= |bytes|
  {
    if bytes == [] then 0
    else
      var b := bytes[0];
      if b < 0x80 then 1
      else if 0xC2 <= b <= 0xDF && Within(bytes, 1, 0x80, 0xBF) then 2
      else if Within(bytes, 2, 0x80, 0xBF) &&
        ((b == 0xE0 && Within(bytes, 1, 0xA0, 0xBF)) || (b == 0xED && Within(bytes, 1, 0x80, 0x9F))
         || (0xE1 <= b <= 0xEF && b != 0xED && Within(bytes, 1, 0x80, 0xBF))) then 3
      else if Within(bytes, 2, 0x80, 0xBF) && Within(bytes, 3, 0x80, 0xBF) &&
        ((b == 0xF0 && Within(bytes, 1, 0x90, 0xBF)) || (b == 0xF4 && Within(bytes, 1, 0x80, 0x8F))
         || (0xF1 <= b <= 0xF3 && Within(bytes, 1, 0x80, 0xBF))) then 4
      else 0
  }

  predicate IsUtf8(bytes: Bytes)
    decreases |bytes|
  {
    bytes == [] || (ScalarLength(bytes) > 0 && IsUtf8(bytes[ScalarLength(bytes)..]))
  }

  predicate IsScalar(c: int) {
    0 <= c < 0xD800 || 0xE000 <= c < 0x11_0000
  }

  /** The UTF-8 form of a Unicode scalar value (section 3 of RFC 3629). */
  function EncodeScalar(c: int): (bytes: Bytes)
    requires IsScalar(c)
    ensures bytes != []
  {
    if c < 0x80 then [c as Byte]
    else if c < 0x800 then [(0xC0 + c / 64) as Byte, (0x80 + c % 64) as Byte]
    else if c < 0x1_0000 then [(0xE0 + c / 4096) as Byte, (0x80 + c / 64 % 64) as Byte, (0x80 + c % 64) as Byte]
    else [(0xF0 + c / 262144) as Byte, (0x80 + c / 4096 % 64) as Byte, (0x80 + c / 64 % 64) as Byte,
          (0x80 + c % 64) as Byte]
  }

  predicate AllScalars(cs: seq<int>) {
    forall i :: 0 <= i < |cs| ==> IsScalar(cs[i])
  }

  function EncodeText(cs: seq<int>): Bytes
    requires AllScalars(cs)
  {
    if cs == [] then [] else EncodeScalar(cs[0]) + EncodeText(cs[1..])
  }

  lemma ScalarLengthOfEncoded(c: int, rest: Bytes)
    requires IsScalar(c)
    ensures ScalarLength(EncodeScalar(c) + rest) == |EncodeScalar(c)|
  {
    var bytes := EncodeScalar(c) + rest;
    assert forall i :: 0 <= i < |EncodeScalar(c)| ==> bytes[i] == EncodeScalar(c)[i];
  }

  /** A well-formed sequence is the form of some scalar value. */
  lemma ScalarOf(bytes: Bytes) returns (c: int)
    requires ScalarLength(bytes) > 0
    ensures IsScalar(c) && EncodeScalar(c) == bytes[..ScalarLength(bytes)]
  {
    var n, b := ScalarLength(bytes), bytes[0] as int;
    if n == 1 {
      c := b;
    } else if n == 2 {
      c := (b - 0xC0) * 64 + (bytes[1] as int - 0x80);
    } else if n == 3 {
      c := ThreeBytes(bytes);
    } else {
      c := FourBytes(bytes);
    }
  }

  lemma SixBits(high: int, low: int)
    requires 0 <= high && 0 <= low < 64
    ensures (high * 64 + low) / 64 == high && (high * 64 + low) % 64 == low
  {
  }

  lemma ThreeBytes(bytes: Bytes) returns (c: int)
    requires ScalarLength(bytes) == 3
    ensures IsScalar(c) && EncodeScalar(c) == bytes[..3]
  {
    var x, y, z := bytes[0] as int - 0xE0, bytes[1] as int - 0x80, bytes[2] as int - 0x80;
    c := (x * 64 + y) * 64 + z;
    SixBits(x * 64 + y, z);
    SixBits(x, y);
    assert c / 4096 == c / 64 / 64;
  }

  lemma FourBytes(bytes: Bytes) returns (c: int)
    requires ScalarLength(bytes) == 4
    ensures IsScalar(c) && EncodeScalar(c) == bytes[..4]
  {
    var w, x, y, z := bytes[0] as int - 0xF0, bytes[1] as int - 0x80, bytes[2] as int - 0x80, bytes[3] as int - 0x80;
    c := ((w * 64 + x) * 64 + y) * 64 + z;
    SixBits((w * 64 + x) * 64 + y, z);
    SixBits(w * 64 + x, y);
    SixBits(w, x);
    assert c / 4096 == c / 64 / 64 && c / 262144 == c / 64 / 64 / 64;
  }

  lemma {:induction false} EncodedIsUtf8(cs: seq<int>)
    requires AllScalars(cs)
    ensures IsUtf8(EncodeText(cs))
    decreases |cs|
  {
    if cs != [] {
      var rest := EncodeText(cs[1..]);
      EncodedIsUtf8(cs[1..]);
      ScalarLengthOfEncoded(cs[0], rest);
      assert (EncodeScalar(cs[0]) + rest)[|EncodeScalar(cs[0])|..] == rest;
    }
  }

  lemma {:induction false} TextOf(bytes: Bytes) returns (cs: seq<int>)
    requires IsUtf8(bytes)
    ensures AllScalars(cs) && EncodeText(cs) == bytes
    decreases |bytes|
  {
    cs := [];
    if bytes != [] {
      var n := ScalarLength(bytes);
      var c := ScalarOf(bytes);
      var rest := TextOf(bytes[n..]);
      cs := [c] + rest;
      assert cs[1..] == rest && bytes == bytes[..n] + bytes[n..];
    }
  }

  /** The test accepts exactly the forms of sequences of scalar values. */
  lemma Utf8Iff(bytes: Bytes)
    ensures IsUtf8(bytes) <==> exists cs: seq<int> :: AllScalars(cs) && EncodeText(cs) == bytes
  {
    if IsUtf8(bytes) {
      var cs := TextOf(bytes);
    } else if exists cs: seq<int> :: AllScalars(cs) && EncodeText(cs) == bytes {
      var cs: seq<int> :| AllScalars(cs) && EncodeText(cs) == bytes;
      EncodedIsUtf8(cs);
    }
  }

  // ----- Percent decoding -----

  function HexValue(byte: Byte): Option<Byte> {
    if 48 <= byte <= 57 then Some(byte - 48)
    else if 97 <= byte <= 102 then Some(byte - 97 + 10)
    else if 65 <= byte <= 70 then Some(byte - 65 + 10)
    else None
  }

  predicate StartsEscape(s: Bytes) {
    |s| > 2 && s[0] == PERCENT && HexValue(s[1]).Some? && HexValue(s[2]).Some?
  }

  function EscapedByte(s: Bytes): Byte
    requires StartsEscape(s)
  {
    (HexValue(s[1]).value as int * 16 + HexValue(s[2]).value as int) as Byte
  }

  function Decoded(s: Bytes): Bytes
    decreases |s|
  {
    if s == [] then []
    else if StartsEscape(s) then [EscapedByte(s)] + Decoded(s[3..])
    else [s[0]] + Decoded(s[1..])
  }

  function PercentDecoded(s: Bytes): Bytes {
    if IsUtf8(Decoded(s)) then Decoded(s) else s
  }

  /** `out` is what the first `index` bytes decode to, when the rest is decoded on its own. */
  ghost predicate DecodedTo(input: Bytes, index: nat, out: Bytes) {
    index <= |input| && out + Decoded(input[index..]) == Decoded(input)
  }

  lemma DecodedStep(input: Bytes, index: nat, out: Bytes)
    requires index < |input| && DecodedTo(input, index, out)
    ensures StartsEscape(input[index..]) ==> DecodedTo(input, index + 3, out + [EscapedByte(input[index..])])
    ensures !StartsEscape(input[index..]) ==> DecodedTo(input, index + 1, out + [input[index]])
  {
    var rest := input[index..];
    if StartsEscape(rest) {
      assert rest[3..] == input[index + 3..];
      assert out + ([EscapedByte(rest)] + Decoded(rest[3..])) == (out + [EscapedByte(rest)]) + Decoded(rest[3..]);
    } else {
      assert rest[1..] == input[index + 1..];
      assert out + ([rest[0]] + Decoded(rest[1..])) == (out + [rest[0]]) + Decoded(rest[1..]);
    }
  }

  method PercentDecode(input: Bytes) returns (text: Bytes)
    ensures text == PercentDecoded(input)
  {
    var out: Bytes := [];
    var index := 0;
    assert input[0..] == input;
    while index < |input|
      invariant 0 <= index <= |input| && DecodedTo(input, index, out)
    {
      DecodedStep(input, index, out);
      if input[index] == PERCENT && index + 2 < |input|
        && HexValue(input[index + 1]).Some? && HexValue(input[index + 2]).Some?
      {
        assert StartsEscape(input[index..]);
        out := out + [EscapedByte(input[index..])];
        index := index + 3;
        continue;
      }
      assert !StartsEscape(input[index..]);
      out := out + [input[index]];
      index := index + 1;
    }
    assert input[index..] == [] && out + [] == out;
    text := if IsUtf8(out) then out else input;
  }

  /** `digit` is the character of a hexadecimal digit of value `value`, in either case. */
  predicate IsHexDigit(digit: Byte, value: int) {
    || (0 <= value < 10 && digit as int == '0' as int + value)
    || (10 <= value < 16 && digit as int in {'a' as int + value - 10, 'A' as int + value - 10})
  }

  lemma HexValueIff(digit: Byte, value: Byte)
    ensures HexValue(digit) == Some(value) <==> IsHexDigit(digit, value as int)
  {
  }

  /** `enc` starts with a percent sign and the two hexadecimal digits of `b`, the higher one first. */
  predicate EscapesByte(enc: Bytes, b: Byte) {
    |enc| > 2 && enc[0] as int == '%' as int
    && IsHexDigit(enc[1], b as int / 16) && IsHexDigit(enc[2], b as int % 16)
  }

  lemma EscapesByteIff(enc: Bytes, b: Byte)
    ensures EscapesByte(enc, b) <==> StartsEscape(enc) && EscapedByte(enc) == b
  {
    if |enc| > 2 {
      HexValueIff(enc[1], b / 16);
      HexValueIff(enc[2], b % 16);
    }
  }

  /** `enc` writes each byte of `plain` as itself, unless it is a percent sign, or as a percent sign and its two
      hexadecimal digits in either case (section 2.1 of RFC 3986). */
  ghost predicate Encodes(enc: Bytes, plain: Bytes)
    decreases |plain|
  {
    if plain == [] then enc == []
    else
      || (enc != [] && enc[0] == plain[0] && enc[0] as int != '%' as int && Encodes(enc[1..], plain[1..]))
      || (EscapesByte(enc, plain[0]) && Encodes(enc[3..], plain[1..]))
  }

  lemma {:induction false} DecodedOfEncoding(enc: Bytes, plain: Bytes)
    requires Encodes(enc, plain)
    ensures Decoded(enc) == plain
    decreases |plain|
  {
    if plain != [] {
      EscapesByteIff(enc, plain[0]);
      if StartsEscape(enc) {
        DecodedOfEncoding(enc[3..], plain[1..]);
      } else {
        DecodedOfEncoding(enc[1..], plain[1..]);
      }
      assert plain == [plain[0]] + plain[1..];
    }
  }

  /** Decoding inverts every percent-encoding of text, and of nothing that is not text. */
  lemma DecodeInvertsIff(enc: Bytes, plain: Bytes)
    requires Encodes(enc, plain)
    ensures PercentDecoded(enc) == plain <==> IsUtf8(plain) || enc == plain
  {
    DecodedOfEncoding(enc, plain);
  }

  /** "%F0" encodes the byte 240, which is no text, and stays as it is. */
  lemma LoneByteStaysEncoded()
    ensures Encodes([37, 70, 48], [240]) && !IsUtf8([240])
    ensures Decoded([37, 70, 48]) == [240] && PercentDecoded([37, 70, 48]) == [37, 70, 48]
  {
    var enc: Bytes := [37, 70, 48];
    assert EscapesByte(enc, 240) && enc[3..] == [];
    assert Encodes(enc[3..], [240][1..]);
    DecodeInvertsIff(enc, [240]);
    DecodedOfEncoding(enc, [240]);
  }

  lemma {:induction false} DecodedShrinks(s: Bytes)
    ensures |Decoded(s)| <= |s|
    ensures |Decoded(s)| == |s| ==> Decoded(s) == s && forall i :: 0 <= i < |s| ==> !StartsEscape(s[i..])
    decreases |s|
  {
    if s != [] {
      if StartsEscape(s) {
        DecodedShrinks(s[3..]);
      } else {
        DecodedShrinks(s[1..]);
        assert s == [s[0]] + s[1..];
        assert forall i :: 0 < i < |s| ==> s[i..] == s[1..][i - 1..];
      }
    }
  }

  /** Malformed escapes are kept as they are: only a complete escape changes the text. */
  lemma {:induction false} DecodedUnchangedIff(s: Bytes)
    ensures Decoded(s) == s <==> forall i :: 0 <= i < |s| ==> !StartsEscape(s[i..])
    decreases |s|
  {
    DecodedShrinks(s);
    if s != [] && forall i :: 0 <= i < |s| ==> !StartsEscape(s[i..]) {
      assert !StartsEscape(s[0..]) && s[0..] == s;
      forall i | 0 <= i < |s| - 1
        ensures !StartsEscape(s[1..][i..])
      {
        assert s[1..][i..] == s[i + 1..];
      }
      DecodedUnchangedIff(s[1..]);
      assert s == [s[0]] + s[1..];
    }
  }

  // ----- Query segments -----

  function IndexOf(s: Bytes, c: Byte): (i: nat)
    ensures i <= |s| && (i < |s| ==> s[i] == c)
    ensures forall k :: 0 <= k < i ==> s[k] != c
  {
    if s == [] || s[0] == c then 0 else 1 + IndexOf(s[1..], c)
  }

  function Split(s: Bytes): (segments: seq<Bytes>)
    ensures segments != []
    decreases |s|
  {
    var i := IndexOf(s, AMPERSAND);
    if i == |s| then [s] else [s[..i]] + Split(s[i + 1..])
  }

  function Join(segments: seq<Bytes>): Bytes {
    if segments == [] then [] else if |segments| == 1 then segments[0]
    else segments[0] + [AMPERSAND] + Join(segments[1..])
  }

  predicate IsSegment(s: Bytes) {
    forall i :: 0 <= i < |s| ==> s[i] != AMPERSAND
  }

  /** The bytes of an ASCII text. */
  function Ascii(text: string): (bytes: Bytes)
    requires forall i :: 0 <= i < |text| ==> text[i] < 128 as char
    ensures |bytes| == |text| && forall i :: 0 <= i < |text| ==> bytes[i] as int == text[i] as int
  {
    seq(|text|, i requires 0 <= i < |text| => text[i] as int as Byte)
  }

  const KEY: Bytes := Ascii("categoryId")

  /** The value of a `categoryId` segment, split at its first equals sign. */
  function CategoryValue(segment: Bytes): Option<Bytes> {
    var i := IndexOf(segment, EQUALS);
    if i < |segment| && segment[..i] == KEY then Some(segment[i + 1..]) else None
  }

  predicate HasCategoryPrefix(segment: Bytes) {
    KEY + [EQUALS] <= segment
  }

  function CategoryValues(segments: seq<Bytes>): seq<Bytes> {
    if segments == [] then []
    else match CategoryValue(segments[0])
      case Some(value) => [PercentDecoded(value)] + CategoryValues(segments[1..])
      case None => CategoryValues(segments[1..])
  }

  function CategoryIdsFromQuery(query: Bytes): seq<Bytes> {
    CategoryValues(Split(query))
  }

  function Others(segments: seq<Bytes>): seq<Bytes> {
    if segments == [] then []
    else if HasCategoryPrefix(segments[0]) then Others(segments[1..])
    else [segments[0]] + Others(segments[1..])
  }

  function QueryWithoutCategoryIds(query: Bytes): Bytes {
    Join(Others(Split(query)))
  }

  /** The two functions test for the same segments. */
  lemma SamePrefixTest(segment: Bytes)
    ensures CategoryValue(segment).Some? <==> HasCategoryPrefix(segment)
    ensures HasCategoryPrefix(segment) <==> Ascii("categoryId=") <= segment
    ensures HasCategoryPrefix(segment) ==> segment == KEY + [EQUALS] + CategoryValue(segment).value
  {
    assert KEY + [EQUALS] == Ascii("categoryId=");
    var i := IndexOf(segment, EQUALS);
    if HasCategoryPrefix(segment) {
      assert segment[|KEY|] == (KEY + [EQUALS])[|KEY|] == EQUALS;
      assert forall k :: 0 <= k < |KEY| ==> segment[k] == (KEY + [EQUALS])[k] != EQUALS;
      assert i == |KEY|;
      assert segment[..i] == KEY;
    }
    if CategoryValue(segment).Some? {
      assert segment == segment[..i] + [EQUALS] + segment[i + 1..];
    }
  }

  lemma {:induction false} JoinOfSplit(s: Bytes)
    ensures Join(Split(s)) == s && forall k :: 0 <= k < |Split(s)| ==> IsSegment(Split(s)[k])
    decreases |s|
  {
    var i := IndexOf(s, AMPERSAND);
    if i < |s| {
      JoinOfSplit(s[i + 1..]);
      assert s == s[..i] + [AMPERSAND] + s[i + 1..];
      assert Split(s)[1..] == Split(s[i + 1..]);
    }
  }

  lemma {:induction false} SplitOfJoin(segments: seq<Bytes>)
    requires segments != [] && forall k :: 0 <= k < |segments| ==> IsSegment(segments[k])
    ensures Split(Join(segments)) == segments
    decreases |segments|
  {
    var s, head := Join(segments), segments[0];
    if |segments| > 1 {
      SplitOfJoin(segments[1..]);
      assert s[|head|] == AMPERSAND && forall k :: 0 <= k < |head| ==> s[k] == head[k];
      assert IndexOf(s, AMPERSAND) == |head|;
      assert s[..|head|] == head && s[|head| + 1..] == Join(segments[1..]);
    } else {
      assert IndexOf(s, AMPERSAND) == |s|;
    }
  }

  /** `whole` is `a` and `b` shuffled together, each in its own order. */
  ghost predicate IsWeave(whole: seq<Bytes>, a: seq<Bytes>, b: seq<Bytes>)
    decreases |whole|
  {
    if whole == [] then a == [] && b == []
    else
      || (a != [] && a[0] == whole[0] && IsWeave(whole[1..], a[1..], b))
      || (b != [] && b[0] == whole[0] && IsWeave(whole[1..], a, b[1..]))
  }

  /** The segments a list of values stands for. */
  ghost predicate AreCategorySegments(segments: seq<Bytes>, ids: seq<Bytes>) {
    |segments| == |ids| && forall i :: 0 <= i < |ids| ==>
      HasCategoryPrefix(segments[i]) && ids[i] == PercentDecoded(segments[i][|KEY| + 1..])
  }

  lemma {:induction false} SegmentsWeave(segments: seq<Bytes>) returns (removed: seq<Bytes>)
    requires forall k :: 0 <= k < |segments| ==> IsSegment(segments[k])
    ensures AreCategorySegments(removed, CategoryValues(segments))
    ensures IsWeave(segments, removed, Others(segments))
    ensures forall k :: 0 <= k < |Others(segments)| ==>
      IsSegment(Others(segments)[k]) && !HasCategoryPrefix(Others(segments)[k])
    decreases |segments|
  {
    removed := [];
    if segments != [] {
      var rest := SegmentsWeave(segments[1..]);
      var head := segments[0];
      SamePrefixTest(head);
      if HasCategoryPrefix(head) {
        removed := [head] + rest;
        assert removed[1..] == rest;
        assert head[|KEY| + 1..] == CategoryValue(head).value;
      } else {
        removed := rest;
        assert Others(segments)[1..] == Others(segments[1..]);
      }
    }
  }

  /** The ids and the filtered query share out the segments of the query: none is lost, duplicated or reordered,
      and the filtered query holds no category segment. */
  lemma SegmentsSharedOut(query: Bytes) returns (removed: seq<Bytes>, kept: seq<Bytes>)
    ensures AreCategorySegments(removed, CategoryIdsFromQuery(query))
    ensures IsWeave(Split(query), removed, kept)
    ensures QueryWithoutCategoryIds(query) == Join(kept)
    ensures kept != [] ==> Split(QueryWithoutCategoryIds(query)) == kept
    ensures CategoryIdsFromQuery(QueryWithoutCategoryIds(query)) == []
  {
    JoinOfSplit(query);
    removed := SegmentsWeave(Split(query));
    kept := Others(Split(query));
    if kept != [] {
      SplitOfJoin(kept);
      NoneLeft(kept);
    } else {
      assert Split([]) == [[]];
      assert CategoryValue([]) == None;
    }
  }

  lemma {:induction false} NoneLeft(segments: seq<Bytes>)
    requires forall k :: 0 <= k < |segments| ==> !HasCategoryPrefix(segments[k])
    ensures CategoryValues(segments) == []
    decreases |segments|
  {
    if segments != [] {
      SamePrefixTest(segments[0]);
      NoneLeft(segments[1..]);
    }
  }
}
