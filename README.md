# ByteArrayTag of the JNBT library, modelled in Dafny

The skyblock plugin stores island and player state in NBT (Named Binary
Tag) form, using a copy of the JNBT library. This project models one tag
kind of that library, `TAG_Byte_Array` (`org.jnbt.ByteArrayTag`): a named
Java `byte[]`. The model covers:

- the accessors `getValue`, `size` and the bounds-checked `get`;
- structural equality `equals`;
- the text rendering `toString`. Each byte is masked with `& 0xFF` and
  written as two lower-case hexadecimal digits, zero-padded. The pieces are
  joined with `", "` inside `[` and `]`.

The class is immutable and none of its methods has a loop or updates a
field. `getValue`, `size` and `get` are single expressions; `equals` is a
chain of guarded returns; `toString` and `toHexByte` bind one local value
and return an expression over it; the iteration over the bytes happens
inside a stream pipeline. The model is therefore made of values and
functions.

- `java_lang.dfy` (module `JavaLang`) models the parts of the Java
  platform the class relies on:
  - `byte` and `int` as the newtypes `int8` and `int32`;
  - `&` on `int`, as a bit-by-bit AND of the two's-complement bit
    patterns;
  - array loads, which throw `ArrayIndexOutOfBoundsException` outside
    the bounds;
  - `Arrays.equals`;
  - `Integer.toHexString`. Its output digits are described with
    `ForDigit`, the model's own function from a value below 16 to its
    lower-case digit; the class itself does not call `Character.forDigit`.
- `java_streams.dfy` (module `JavaStreams`) models a stream as the
  sequence of its elements, in order. It defines `mapToObj` and
  `Collectors.joining(delimiter, prefix, suffix)`, with lemmas on the
  length and layout of a join.
- `byte_array_tag.dfy` (module `ByteArrayTags`) models the tag itself,
  its operations and the lemmas about them. As a partner for the
  rendering, it has a reader `ParseJoinedHexValues` that turns a rendering
  back into bytes. The reader is not part of the source; it exists to
  state that the rendering loses nothing.

The base class `Tag` is not part of this model. Two assumptions stand in
for it:

- its `equals` (called as `super.equals`) is taken to compare names
  (`TagEquals`);
- its `getTagPrefixedToString` is a parameter of `ToString`. It receives
  the tag's name and the rendered body, so it is assumed to depend on
  nothing else; nothing more is assumed about it.

## Model

| member | source | states |
|---|---|---|
| `ByteArrayTags.GetValue` | skyblock/src/org/jnbt/ByteArrayTag.java:60-62 | `getValue()` gives back the stored bytes; what they are for a constructed tag is stated by `Constructed` |
| `ByteArrayTags.Constructed` | skyblock/src/org/jnbt/ByteArrayTag.java:54-62 | a tag built from a name and a byte array gives back exactly those bytes from `getValue`, reports their number as `size()`, and yields byte `i` from `get(i)` for every index |
| `ByteArrayTags.Size` | skyblock/src/org/jnbt/ByteArrayTag.java:69-71 | `size()` is a non-negative `int` equal to the length of the array `getValue` returns |
| `ByteArrayTags.Get` | skyblock/src/org/jnbt/ByteArrayTag.java:78-80 | `get(index)` succeeds exactly when `0 <= index < size()` and then returns `getValue()[index]`; any other index throws `ArrayIndexOutOfBoundsException` for that index |
| `JavaLang.ArrayLoad` | skyblock/src/org/jnbt/ByteArrayTag.java:79 | the array access `value[index]` yields the element when the index is within bounds and throws `ArrayIndexOutOfBoundsException(index)` when it is not |
| `ByteArrayTags.TagEquals` | skyblock/src/org/jnbt/ByteArrayTag.java:86 | stands for `super.equals`, which is not part of this model; it is assumed to compare the names |
| `ByteArrayTags.Equals` | skyblock/src/org/jnbt/ByteArrayTag.java:83-89 | `equals(obj)` holds exactly when `obj` is a `ByteArrayTag` with the same name and the same bytes; it is false for `null` and for objects of any other class |
| `JavaLang.ArraysEqualsIsContentEquality` | skyblock/src/org/jnbt/ByteArrayTag.java:88 | `Arrays.equals` (same length, equal element at every index) holds exactly when the two arrays have the same contents |
| `ByteArrayTags.EqualsReflexive` | skyblock/src/org/jnbt/ByteArrayTag.java:84 | every tag equals itself |
| `ByteArrayTags.EqualsSymmetric` | skyblock/src/org/jnbt/ByteArrayTag.java:83-89 | `t.equals(u)` holds exactly when `u.equals(t)` holds |
| `ByteArrayTags.EqualsTransitive` | skyblock/src/org/jnbt/ByteArrayTag.java:83-89 | if `t.equals(u)` and `u.equals(v)`, then `t.equals(v)` |
| `ByteArrayTags.ByteArrayStream` | skyblock/src/org/jnbt/ByteArrayTag.java:104-106 | the stream has one element per byte, in index order, and element `i` is byte `i` sign-extended to an `int` |
| `JavaLang.And` | skyblock/src/org/jnbt/ByteArrayTag.java:109 | `x & y` against a non-negative mask `y` lies between 0 and `y` |
| `JavaLang.BitAndLowMask` | skyblock/src/org/jnbt/ByteArrayTag.java:109 | AND with the mask `2^k - 1` keeps exactly the `k` low bits of a number, that is, its remainder modulo `2^k` |
| `JavaLang.AndLowByte` | skyblock/src/org/jnbt/ByteArrayTag.java:109 | `b & 0xFF` on an `int` lies in `0..255` and equals `b` modulo 256, so a negative byte value `b` becomes `b + 256` |
| `JavaLang.HexOf` | skyblock/src/org/jnbt/ByteArrayTag.java:109 | the digits `Integer.toHexString` writes: at least one, all in `0-9a-f`, a single digit exactly for values below 16, and no leading `0` when there are several |
| `JavaLang.HexOfRoundTrip` | skyblock/src/org/jnbt/ByteArrayTag.java:109 | reading back the hexadecimal digits of `n` gives `n` |
| `JavaLang.ToHexString` | skyblock/src/org/jnbt/ByteArrayTag.java:109 | `Integer.toHexString(i)` writes only digits `0-9a-f`, they denote the 32 bits of `i` read as unsigned, and there is no leading `0` when there are several |
| `JavaLang.ToHexStringOfByteValue` | skyblock/src/org/jnbt/ByteArrayTag.java:109-110 | for a value in `0..255`, `Integer.toHexString` gives one digit below 16 and two digits (high, low) from 16 on |
| `ByteArrayTags.ToHexByte` | skyblock/src/org/jnbt/ByteArrayTag.java:108-111 | `toHexByte(b)` always has exactly two characters, both lower-case hexadecimal digits |
| `ByteArrayTags.ToHexByteDigits` | skyblock/src/org/jnbt/ByteArrayTag.java:108-111 | `toHexByte(b)` is exactly the two characters `forDigit(m / 16)`, `forDigit(m % 16)` for the low byte `m` of `b`, so a single digit is left-padded with `0` |
| `ByteArrayTags.ToHexByteDenotesMask` | skyblock/src/org/jnbt/ByteArrayTag.java:108-111 | `toHexByte(b)` has exactly two lower-case hexadecimal digits that denote `b & 0xFF`; the first digit is `0` exactly when `b & 0xFF < 16` |
| `ByteArrayTags.ToHexByteOfByte` | skyblock/src/org/jnbt/ByteArrayTag.java:105-111 | for a byte `b` widened to `int`, the two digits denote `b` read as unsigned (`b + 256` when `b` is negative), and the first digit is `8` or more exactly when `b` is negative (`80` to `ff`) |
| `ByteArrayTags.ToHexByteInjective` | skyblock/src/org/jnbt/ByteArrayTag.java:108-111 | two bytes give the same two-digit piece exactly when they are the same byte |
| `JavaStreams.MapToObj` | skyblock/src/org/jnbt/ByteArrayTag.java:99 | `mapToObj(f)` delivers one element per input element, in order, element `i` being `f` of input `i` |
| `ByteArrayTags.HexPieces` | skyblock/src/org/jnbt/ByteArrayTag.java:98-99 | the mapped stream has one two-character piece per byte, piece `i` being `toHexByte` of byte `i` |
| `JavaStreams.Join` | skyblock/src/org/jnbt/ByteArrayTag.java:100 | joining no pieces gives the empty string, and a join of pieces is at least as long as its first piece |
| `JavaStreams.Joining` | skyblock/src/org/jnbt/ByteArrayTag.java:100 | `joining(delimiter, prefix, suffix)` writes the prefix, then the join of the pieces, then the suffix, and nothing else |
| `JavaStreams.JoinLength` | skyblock/src/org/jnbt/ByteArrayTag.java:100 | joining no pieces gives the empty string; joining `n > 0` pieces of one width gives `n` pieces and `n - 1` delimiters' worth of characters |
| `JavaStreams.JoinPieceAt` | skyblock/src/org/jnbt/ByteArrayTag.java:100 | in a join of pieces of one width, piece `i` stands at offset `i` times the width plus the delimiter length, so the pieces keep their order |
| `JavaStreams.JoinDelimiterAfter` | skyblock/src/org/jnbt/ByteArrayTag.java:100 | in the same join, every piece but the last is followed by exactly the delimiter |
| `ByteArrayTags.JoinedHexValues` | skyblock/src/org/jnbt/ByteArrayTag.java:98-100 | the rendered body of an empty array is `[]`; in general it starts with `[`, ends with `]`, and has 2 characters for an empty array and `4 n` for `n > 0` bytes |
| `ByteArrayTags.JoinedHexValuesLayout` | skyblock/src/org/jnbt/ByteArrayTag.java:98-100 | the body of `n > 0` bytes starts with `[`, ends with `]`, holds byte `i`'s two digits at offset `1 + 4 i`, and has `", "` after every byte but the last |
| `ByteArrayTags.JoinedHexValuesRoundTrip` | skyblock/src/org/jnbt/ByteArrayTag.java:98-100 | reading the rendered body back gives the original bytes, in their order |
| `ByteArrayTags.JoinedHexValuesInjective` | skyblock/src/org/jnbt/ByteArrayTag.java:98-100 | two arrays render to the same body exactly when they hold the same bytes, in the same order |
| `ByteArrayTags.ToString` | skyblock/src/org/jnbt/ByteArrayTag.java:97-102 | `toString()` hands the tag's name and its rendered body to the base class's `getTagPrefixedToString`; the properties of the body are those of `JoinedHexValues` |
| `ByteArrayTags.ToStringRespectsEquals` | skyblock/src/org/jnbt/ByteArrayTag.java:97-102 | two tags that are `equals` produce the same `toString()`, whatever the base class does with the name and the body |

## Left out

- `hashCode` (ByteArrayTag.java:92-94) is not modelled. `Objects.hash(super.hashCode(), value)` hashes the array reference by identity, not by content. This code therefore does not promise that equal tags have equal hashes, and the model does not claim it.
- The base class `Tag` is not part of this model. Its `equals` is assumed to compare names (`TagEquals`). Its `getTagPrefixedToString` is a function passed to `ToString`, so nothing is proved about the header it adds.
- ByteArrayTags.ToString: assumes that `getTagPrefixedToString` depends only on the tag's name and the body it is given, not on any other state of the tag or of the program.
- ByteArrayTags.JoinedHexValues: does not model the limit on the length of a Java `String` (at most `INT_MAX` characters). The body has `4 n` characters for `n` bytes, so for arrays longer than about `INT_MAX / 4` bytes the Java code fails with `OutOfMemoryError`; the model always returns the full string, and so does `ToString`.
- Sharing of the array. The constructor stores the caller's array and `getValue` returns it, both by reference, so an outside writer could change a tag's contents. The model holds the bytes as an immutable sequence and does not cover such changes.
- `null`. A `null` array passed to the constructor, and a `null` name, are not represented; `size`, `get`, `toString` and `equals` would throw or behave differently on them.
- Reference identity. The `this == obj` test in `equals` is modelled as equality of the tag values. The two agree here, because the later tests give `true` for the same object anyway.
- The binary NBT reader and writer, and the other tag kinds, are not part of this model. Round trips through the wire format are therefore not stated.
- The invite event class `PlayerSendIslandInviteEvent` is plain host-framework plumbing with no logic of its own, and is not modelled.
