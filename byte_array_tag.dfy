/**
 * The NBT `TAG_Byte_Array` tag of the JNBT library: a named array of
 * bytes with bounds-checked element access, structural equality and a
 * hexadecimal text rendering.
 *
 * The tag is an immutable value: the array it holds is a sequence, so the
 * sharing of the caller's array between the constructor, `getValue` and
 * the caller is not represented.
 */
module ByteArrayTags {
  import opened JavaLang
  import opened JavaStreams

  /** The contents of a Java `byte[]`; no Java array is longer than `INT_MAX`. */
  type ByteArray = s: seq<int8> | |s| <= INT_MAX

  /**
   * `new ByteArrayTag(name, value)`: the name, which the base class `Tag`
   * keeps, and the bytes.
   */
  datatype ByteArrayTag = ByteArrayTag(name: string, value: ByteArray)

  /**
   * What `equals(Object)` can be handed: `null`, a `ByteArrayTag`, or an
   * object of any other class (other tag kinds included).
   */
  datatype Object = Null | ByteArrayTagObject(tag: ByteArrayTag) | OtherObject

  // ---------------------------------------------------------------------
  // Accessors
  // ---------------------------------------------------------------------

  /** `getValue()`: the bytes the tag was built with. */
  function GetValue(t: ByteArrayTag): (r: ByteArray)
  {
    t.value
  }

  /** `size()`: the number of bytes, as an `int`. */
  function Size(t: ByteArrayTag): (r: int32)
    ensures 0 <= r
    ensures r as int == |GetValue(t)|
  {
    |t.value| as int32
  }

  /**
   * `get(index)`: the byte at `index`, or the out-of-bounds exception the
   * array access throws for an index outside `[0, size())`.
   */
  function Get(t: ByteArrayTag, index: int32): (r: Result<int8>)
    ensures r.Ok? <==> 0 <= index < Size(t)
    ensures r.Ok? ==> r.value == GetValue(t)[index]
    ensures r.Throws? ==> r.exception == ArrayIndexOutOfBounds(index)
  {
    ArrayLoad(t.value, index)
  }

  /**
   * A freshly built tag gives back exactly the bytes it was built with,
   * reports their number as its size, and yields each of them by index.
   */
  lemma Constructed(name: string, value: ByteArray)
    ensures GetValue(ByteArrayTag(name, value)) == value
    ensures Size(ByteArrayTag(name, value)) as int == |value|
    ensures forall i :: 0 <= i < |value| ==> Get(ByteArrayTag(name, value), i as int32) == Ok(value[i])
  {
  }

  // ---------------------------------------------------------------------
  // Equality
  // ---------------------------------------------------------------------

  /**
   * `Tag.equals`, the base-class comparison: the base class is not part
   * of this model, and is taken to compare the names.
   */
  predicate TagEquals(t: ByteArrayTag, other: ByteArrayTag): (r: bool)
  {
    t.name == other.name
  }

  /**
   * `equals(obj)`: the same object; otherwise another `ByteArrayTag` that
   * the base class finds equal and whose array is element-wise equal.
   * So a tag equals exactly the `ByteArrayTag` objects with its name and
   * its bytes, and nothing else: not `null`, not an object of another class.
   */
  predicate Equals(t: ByteArrayTag, obj: Object): (r: bool)
    ensures r <==> obj.ByteArrayTagObject? && obj.tag.name == t.name && obj.tag.value == t.value
  {
    if obj == ByteArrayTagObject(t) then true
    else if !obj.ByteArrayTagObject? then false
    else if !TagEquals(t, obj.tag) then false
    else
      ArraysEqualsIsContentEquality(t.value, obj.tag.value);
      ArraysEquals(t.value, obj.tag.value)
  }

  lemma EqualsReflexive(t: ByteArrayTag)
    ensures Equals(t, ByteArrayTagObject(t))
  {
  }

  lemma EqualsSymmetric(t: ByteArrayTag, u: ByteArrayTag)
    ensures Equals(t, ByteArrayTagObject(u)) <==> Equals(u, ByteArrayTagObject(t))
  {
  }

  lemma EqualsTransitive(t: ByteArrayTag, u: ByteArrayTag, v: ByteArrayTag)
    requires Equals(t, ByteArrayTagObject(u)) && Equals(u, ByteArrayTagObject(v))
    ensures Equals(t, ByteArrayTagObject(v))
  {
  }

  // ---------------------------------------------------------------------
  // Text rendering
  // ---------------------------------------------------------------------

  /**
   * `byteArrayStream(value)`: the `IntStream` of the bytes at indices
   * `0 .. value.length - 1`, each widened (sign-extended) to an `int`.
   */
  function ByteArrayStream(value: seq<int8>): (s: seq<int32>)
    ensures |s| == |value|
    ensures forall i :: 0 <= i < |value| ==> s[i] as int == value[i] as int
  {
    if value == [] then [] else [value[0] as int as int32] + ByteArrayStream(value[1..])
  }

  /**
   * `toHexByte(b)`: the hexadecimal digits of `b & 0xFF`, with a `0` in
   * front when there is only one.
   */
  function ToHexByte(b: int32): (r: string)
    ensures |r| == 2 && IsHexDigit(r[0]) && IsHexDigit(r[1])
  {
    AndLowByte(b);
    ToHexStringOfByteValue(And(b, 0xFF));
    var hex := ToHexString(And(b, 0xFF));
    if |hex| == 1 then ['0'] + hex else hex
  }

  /**
   * `toHexByte(b)` is the two-digit, zero-padded, lower-case hexadecimal
   * form of the low byte of `b`.
   */
  lemma ToHexByteDigits(b: int32)
    ensures var m := b as int % 0x100;
      ToHexByte(b) == [ForDigit(m / 16), ForDigit(m % 16)]
  {
    AndLowByte(b);
    ToHexStringOfByteValue(And(b, 0xFF));
  }

  /**
   * `toHexByte(b)` has two hexadecimal digits, denoting `b & 0xFF`; the
   * first is the padding `0` exactly when that value is below 16.
   */
  lemma ToHexByteDenotesMask(b: int32)
    ensures var r := ToHexByte(b);
      && |r| == 2 && IsHexDigit(r[0]) && IsHexDigit(r[1])
      && DigitValue(r[0]) * 16 + DigitValue(r[1]) == And(b, 0xFF) as int
      && (r[0] == '0' <==> And(b, 0xFF) < 16)
  {
    AndLowByte(b);
    ToHexByteDigits(b);
  }

  /**
   * On a widened byte `toHexByte` denotes the byte read as unsigned:
   * a negative byte `b` gives `b + 256`, from `80` to `ff`.
   */
  lemma ToHexByteOfByte(b: int8)
    ensures var r := ToHexByte(b as int as int32);
      && |r| == 2 && IsHexDigit(r[0]) && IsHexDigit(r[1])
      && DigitValue(r[0]) * 16 + DigitValue(r[1]) == (if b < 0 then b as int + 0x100 else b as int)
      && (b < 0 <==> DigitValue(r[0]) >= 8)
  {
    var x := b as int as int32;
    var m := x as int % 0x100;
    assert m == if b < 0 then b as int + 0x100 else b as int;
    ToHexByteDigits(x);
    DigitsOf(m);
  }

  /** The two digits of a byte value read back as that value; the first is 8 or more from `0x80` up. */
  lemma DigitsOf(m: nat)
    requires m < 0x100
    ensures DigitValue(ForDigit(m / 16)) * 16 + DigitValue(ForDigit(m % 16)) == m
    ensures m >= 0x80 <==> DigitValue(ForDigit(m / 16)) >= 8
  {
  }

  /** Two bytes give the same hexadecimal piece exactly when they are the same byte. */
  lemma ToHexByteInjective(a: int8, b: int8)
    ensures ToHexByte(a as int as int32) == ToHexByte(b as int as int32) <==> a == b
  {
    ToHexByteOfByte(a);
    ToHexByteOfByte(b);
  }

  /**
   * The pieces `mapToObj(ByteArrayTag::toHexByte)` delivers: one
   * two-character piece per byte, piece `i` being the form of byte `i`.
   */
  function HexPieces(value: seq<int8>): (r: seq<string>)
    ensures |r| == |value|
    ensures UniformWidth(r, 2)
    ensures forall i :: 0 <= i < |value| ==> r[i] == ToHexByte(value[i] as int as int32)
  {
    MapToObj(ByteArrayStream(value), ToHexByte)
  }

  /**
   * The rendered body `joinedHexValues`: the pieces joined with `", "`
   * inside `[` and `]`. An empty array renders as `[]`; otherwise there are
   * four characters per byte.
   */
  function JoinedHexValues(value: seq<int8>): (r: string)
    ensures value == [] ==> r == "[]"
    ensures |r| == if value == [] then 2 else 4 * |value|
    ensures r[0] == '[' && r[|r| - 1] == ']'
  {
    var pieces := HexPieces(value);
    JoinLength(pieces, ", ", 2);
    StrideOfHexPieces(|value|);
    Joining(pieces, ", ", "[", "]")
  }

  /**
   * `toString()`: the body handed to the base class's
   * `getTagPrefixedToString`, which is not part of this model and is
   * therefore a parameter here, given the tag's name and the body.
   */
  function ToString(t: ByteArrayTag, tagPrefixed: (string, string) -> string): (r: string)
  {
    tagPrefixed(t.name, JoinedHexValues(t.value))
  }

  /** The pieces of a non-empty array: the first byte's, then those of the rest. */
  lemma HexPiecesTail(value: seq<int8>)
    requires value != []
    ensures HexPieces(value) == [ToHexByte(value[0] as int as int32)] + HexPieces(value[1..])
  {
    var s := ByteArrayStream(value);
    assert s == [value[0] as int as int32] + ByteArrayStream(value[1..]);
    assert s[1..] == ByteArrayStream(value[1..]);
  }

  /**
   * The layout of the body: `[` first, `]` last, byte `i`'s two digits at
   * offset `1 + 4 i`, and `", "` after them unless it is the last byte.
   */
  lemma JoinedHexValuesLayout(value: seq<int8>, i: nat)
    requires i < |value|
    ensures var s := JoinedHexValues(value);
      && |s| == 4 * |value|
      && s[0] == '[' && s[|s| - 1] == ']'
      && s[1 + 4 * i .. 3 + 4 * i] == ToHexByte(value[i] as int as int32)
      && (i + 1 < |value| ==> s[3 + 4 * i .. 5 + 4 * i] == ", ")
  {
    HexPieceAt(value, i);
    if i + 1 < |value| {
      DelimiterAt(value, i);
    }
  }

  /** Byte `i`'s two digits lie at offset `1 + 4 i` of the rendering. */
  lemma HexPieceAt(value: seq<int8>, i: nat)
    requires i < |value|
    ensures var s := JoinedHexValues(value);
      3 + 4 * i <= |s| && s[1 + 4 * i .. 3 + 4 * i] == ToHexByte(value[i] as int as int32)
  {
    var pieces := HexPieces(value);
    var body := Join(pieces, ", ");
    assert JoinedHexValues(value) == "[" + body + "]";
    JoinPieceAt(pieces, ", ", 2, i);
    StrideOfHexPieces(i);
    SliceOfWrapped("[", body, "]", 4 * i, 4 * i + 2);
  }

  /** Between byte `i` and byte `i + 1` the rendering has `", "`. */
  lemma DelimiterAt(value: seq<int8>, i: nat)
    requires i + 1 < |value|
    ensures var s := JoinedHexValues(value);
      5 + 4 * i <= |s| && s[3 + 4 * i .. 5 + 4 * i] == ", "
  {
    var pieces := HexPieces(value);
    var body := Join(pieces, ", ");
    assert JoinedHexValues(value) == "[" + body + "]";
    JoinDelimiterAfter(pieces, ", ", 2, i);
    StrideOfHexPieces(i);
    SliceOfWrapped("[", body, "]", 4 * i + 2, 4 * i + 4);
  }

  /** Each piece and its delimiter take four characters. */
  lemma StrideOfHexPieces(i: nat)
    ensures i * (2 + |", "|) == 4 * i
  {
    var stride := 2 + |", "|;
    assert stride == 4;
  }

  // ---------------------------------------------------------------------
  // Reading a rendering back
  // ---------------------------------------------------------------------

  /** The signed byte two hexadecimal digits stand for, as the cast `(byte)` reads it. */
  function ParseHexByte(piece: string): (r: Option<int8>)
    ensures r.Some? <==> |piece| == 2 && IsHexDigit(piece[0]) && IsHexDigit(piece[1])
  {
    if |piece| == 2 && IsHexDigit(piece[0]) && IsHexDigit(piece[1]) then
      var u := DigitValue(piece[0]) * 16 + DigitValue(piece[1]);
      Some((if u < 0x80 then u else u - 0x100) as int8)
    else None
  }

  /** The bytes of a body of two-digit pieces separated by `", "`. */
  function ParseHexBody(body: string): (r: Option<seq<int8>>)
    ensures r.Some? ==> |body| == 4 * |r.value| - 2
    decreases |body|
  {
    if |body| < 2 then None
    else match ParseHexByte(body[..2])
      case None => None
      case Some(b) =>
        if |body| == 2 then Some([b])
        else if |body| >= 4 && body[2..4] == ", " then
          match ParseHexBody(body[4..])
          case None => None
          case Some(rest) => Some([b] + rest)
        else None
  }

  /** The bytes of a whole rendering `[...]`. */
  function ParseJoinedHexValues(s: string): (r: Option<seq<int8>>)
    ensures r.Some? ==> |s| == if r.value == [] then 2 else 4 * |r.value|
  {
    if |s| < 2 || s[0] != '[' || s[|s| - 1] != ']' then None
    else if |s| == 2 then Some([])
    else ParseHexBody(s[1 .. |s| - 1])
  }

  lemma ParseHexByteOfPiece(b: int8)
    ensures ParseHexByte(ToHexByte(b as int as int32)) == Some(b)
  {
    ToHexByteOfByte(b);
  }

  /** One more piece in front of a body adds its byte in front of the bytes read. */
  lemma ParseHexBodyCons(piece: string, b: int8, rest: string, bytes: seq<int8>)
    requires |piece| == 2 && ParseHexByte(piece) == Some(b)
    requires ParseHexBody(rest) == Some(bytes)
    ensures ParseHexBody(piece + ", " + rest) == Some([b] + bytes)
  {
    var body := piece + ", " + rest;
    assert body[..2] == piece;
    assert body[2..4] == ", ";
    assert body[4..] == rest;
  }

  lemma {:induction false} ParseHexBodyOfJoin(value: seq<int8>)
    requires value != []
    ensures ParseHexBody(Join(HexPieces(value), ", ")) == Some(value)
  {
    var piece := ToHexByte(value[0] as int as int32);
    HexPiecesTail(value);
    ParseHexByteOfPiece(value[0]);
    ToHexByteOfByte(value[0]);
    if |value| == 1 {
      assert Join(HexPieces(value), ", ") == piece;
      assert piece[..2] == piece;
      assert [value[0]] == value;
    } else {
      var rest := Join(HexPieces(value[1..]), ", ");
      assert HexPieces(value)[1..] == HexPieces(value[1..]);
      assert Join(HexPieces(value), ", ") == piece + ", " + rest;
      ParseHexBodyOfJoin(value[1..]);
      ParseHexBodyCons(piece, value[0], rest, value[1..]);
      assert [value[0]] + value[1..] == value;
    }
  }

  /**
   * The rendering loses nothing: reading it back gives the bytes, in
   * their order.
   */
  lemma JoinedHexValuesRoundTrip(value: seq<int8>)
    ensures ParseJoinedHexValues(JoinedHexValues(value)) == Some(value)
  {
    var s := JoinedHexValues(value);
    var body := Join(HexPieces(value), ", ");
    assert s == "[" + body + "]";
    if value != [] {
        assert s[1 .. |s| - 1] == body;
      ParseHexBodyOfJoin(value);
    }
  }

  /** Two arrays render the same exactly when they hold the same bytes. */
  lemma JoinedHexValuesInjective(a: seq<int8>, b: seq<int8>)
    ensures JoinedHexValues(a) == JoinedHexValues(b) <==> a == b
  {
    JoinedHexValuesRoundTrip(a);
    JoinedHexValuesRoundTrip(b);
  }

  /** Equal tags render the same body, whatever the base class makes of it. */
  lemma ToStringRespectsEquals(t: ByteArrayTag, u: ByteArrayTag, tagPrefixed: (string, string) -> string)
    requires Equals(t, ByteArrayTagObject(u))
    ensures ToString(t, tagPrefixed) == ToString(u, tagPrefixed)
  {
  }
}
