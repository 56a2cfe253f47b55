/**
 * The stream operations `ByteArrayTag.toString` is built from: a stream
 * is modelled by the finite sequence of the elements it delivers, in
 * order; `mapToObj` maps each element; `Collectors.joining(delimiter,
 * prefix, suffix)` concatenates the pieces with the delimiter between
 * neighbours and wraps the result.
 */
module JavaStreams {

  /** `stream.mapToObj(f)`: `f` applied to every element, order kept. */
  function MapToObj<T, U>(xs: seq<T>, f: T -> U): (r: seq<U>)
    ensures |r| == |xs|
    ensures forall i :: 0 <= i < |xs| ==> r[i] == f(xs[i])
  {
    if xs == [] then [] else [f(xs[0])] + MapToObj(xs[1..], f)
  }

  /**
   * The pieces concatenated with `delimiter` between each two neighbours:
   * empty for no pieces, otherwise at least as long as the first piece.
   */
  function Join(pieces: seq<string>, delimiter: string): (r: string)
    ensures |pieces| == 0 ==> r == ""
    ensures |pieces| > 0 ==> |pieces[0]| <= |r|
  {
    if |pieces| == 0 then ""
    else if |pieces| == 1 then pieces[0]
    else pieces[0] + delimiter + Join(pieces[1..], delimiter)
  }

  /** `Collectors.joining(delimiter, prefix, suffix)` applied to `pieces`. */
  function Joining(pieces: seq<string>, delimiter: string, prefix: string, suffix: string): (r: string)
    ensures |r| == |prefix| + |Join(pieces, delimiter)| + |suffix|
    ensures r[..|prefix|] == prefix && r[|r| - |suffix|..] == suffix
  {
    prefix + Join(pieces, delimiter) + suffix
  }

  /** Every piece has exactly `width` characters. */
  predicate UniformWidth(pieces: seq<string>, width: nat)
  {
    forall i :: 0 <= i < |pieces| ==> |pieces[i]| == width
  }

  /**
   * Joining `n` pieces of one width: `n` pieces and `n - 1` delimiters,
   * so the length plus one delimiter is `n` strides.
   */
  lemma {:induction false} JoinLength(pieces: seq<string>, delimiter: string, width: nat)
    requires UniformWidth(pieces, width)
    ensures |pieces| == 0 ==> Join(pieces, delimiter) == ""
    ensures |pieces| > 0 ==>
      |Join(pieces, delimiter)| + |delimiter| == |pieces| * (width + |delimiter|)
  {
    if |pieces| > 1 {
      JoinLength(pieces[1..], delimiter, width);
      assert |pieces| * (width + |delimiter|)
          == (width + |delimiter|) + (|pieces| - 1) * (width + |delimiter|);
    }
  }

  /**
   * Joining `n` pieces of one width puts piece `i` at offset
   * `i * (width + |delimiter|)`: the pieces appear in order.
   */
  lemma {:induction false} JoinPieceAt(pieces: seq<string>, delimiter: string, width: nat, i: nat)
    requires UniformWidth(pieces, width)
    requires i < |pieces|
    ensures var s, at := Join(pieces, delimiter), i * (width + |delimiter|);
      at + width <= |s| && s[at .. at + width] == pieces[i]
  {
    if |pieces| > 1 {
      var head := pieces[0] + delimiter;
      var rest := Join(pieces[1..], delimiter);
      assert Join(pieces, delimiter) == head + rest;
      if i == 0 {
        assert Join(pieces, delimiter)[..width] == pieces[0];
      } else {
        JoinPieceAt(pieces[1..], delimiter, width, i - 1);
        var at := (i - 1) * (width + |delimiter|);
        NextStride(i, width + |delimiter|);
        SliceAfterPrefix(head, rest, at, at + width);
      }
    }
  }

  /**
   * In the same join, piece `i` is followed by the delimiter unless it
   * is the last piece: exactly one delimiter between neighbours.
   */
  lemma {:induction false} JoinDelimiterAfter(pieces: seq<string>, delimiter: string, width: nat, i: nat)
    requires UniformWidth(pieces, width)
    requires i + 1 < |pieces|
    ensures var s, at := Join(pieces, delimiter), i * (width + |delimiter|) + width;
      at + |delimiter| <= |s| && s[at .. at + |delimiter|] == delimiter
  {
    var head := pieces[0] + delimiter;
    var rest := Join(pieces[1..], delimiter);
    assert Join(pieces, delimiter) == head + rest;
    assert |head| == width + |delimiter|;
    if i == 0 {
      SliceOfWrapped(pieces[0], delimiter, rest, 0, |delimiter|);
      assert delimiter[0 .. |delimiter|] == delimiter;
    } else {
      var stride := width + |delimiter|;
      var at := (i - 1) * stride + width;
      JoinDelimiterAfter(pieces[1..], delimiter, width, i - 1);
      NextStride(i, stride);
      assert |head| + at == i * stride + width;
      SliceAfterPrefix(head, rest, at, at + |delimiter|);
    }
  }

  /** One more stride: the offset of piece `i` is one stride past that of piece `i - 1`. */
  lemma NextStride(i: nat, stride: nat)
    requires i > 0
    ensures i * stride == stride + (i - 1) * stride
  {
  }

  /** A slice of the part after a prefix, read in the whole string. */
  lemma SliceAfterPrefix(head: string, rest: string, lo: nat, hi: nat)
    requires lo <= hi <= |rest|
    ensures (head + rest)[|head| + lo .. |head| + hi] == rest[lo .. hi]
  {
  }

  /** A slice of the middle of a wrapped string, read in the whole string. */
  lemma SliceOfWrapped(prefix: string, mid: string, suffix: string, lo: nat, hi: nat)
    requires lo <= hi <= |mid|
    ensures (prefix + mid + suffix)[|prefix| + lo .. |prefix| + hi] == mid[lo .. hi]
  {
    assert prefix + mid + suffix == prefix + (mid + suffix);
    SliceAfterPrefix(prefix, mid + suffix, lo, hi);
    assert (mid + suffix)[lo .. hi] == mid[lo .. hi];
  }
}
