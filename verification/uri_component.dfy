/**
 Percent-encoding of a URI component (section 2.1 of RFC 3986), as done by
 JavaScript's `encodeURIComponent` and undone by `decodeURIComponent`.

 The encoding itself is not re-implemented: a `Codec` is any pair of
 functions, and `Lawful` collects the laws the two library functions obey.
 Decoding can fail (a malformed `%` escape makes `decodeURIComponent`
 throw), so it returns an `Option`.
 */
module UriComponent {
  import opened Wrappers

  datatype Codec = Codec(encode: string -> string, decode: string -> Option<string>)

  /** Characters `encodeURIComponent` leaves as they are. */
  predicate IsUnreserved(c: char)
  {
    || ('A' <= c <= 'Z') || ('a' <= c <= 'z') || ('0' <= c <= '9')
    || c == '-' || c == '_' || c == '.' || c == '!' || c == '~' || c == '*' || c == '\'' || c == '(' || c == ')'
  }

  /** Characters that can appear in the output of `encodeURIComponent`. */
  predicate IsEncodedChar(c: char)
  {
    IsUnreserved(c) || c == '%'
  }

  predicate AllUnreserved(s: string)
  {
    forall i :: 0 <= i < |s| ==> IsUnreserved(s[i])
  }

  /** The laws of the library pair:
      decoding an encoding gives the text back; an encoding consists of
      unreserved characters and `%` only; text made of unreserved characters
      encodes to itself; and decoding non-empty text never yields the empty string
      (every `%XX` escape stands for at least one character). */
  ghost predicate Lawful(codec: Codec)
  {
    && (forall s :: codec.decode(codec.encode(s)) == Some(s))
    && (forall s, i :: 0 <= i < |codec.encode(s)| ==> IsEncodedChar(codec.encode(s)[i]))
    && (forall s :: AllUnreserved(s) ==> codec.encode(s) == s)
    && (forall s :: s != [] && codec.decode(s).Some? ==> codec.decode(s).value != [])
  }

  /** Only the empty string encodes to the empty string. */
  lemma EncodeNonEmpty(codec: Codec, s: string)
    requires Lawful(codec)
    requires s != []
    ensures codec.encode(s) != []
  {
    assert AllUnreserved([]);
    assert codec.encode([]) == [];
    assert codec.decode(codec.encode(s)) == Some(s);
  }

  /** An encoding contains none of the delimiters a URI gives meaning to. */
  lemma EncodedAvoids(codec: Codec, s: string, c: char)
    requires Lawful(codec)
    requires !IsEncodedChar(c)
    ensures c !in codec.encode(s)
  {
    var e := codec.encode(s);
    assert forall i :: 0 <= i < |e| ==> IsEncodedChar(e[i]);
  }

  /** Text of unreserved characters decodes to itself. */
  lemma DecodeUnreserved(codec: Codec, s: string)
    requires Lawful(codec)
    requires AllUnreserved(s)
    ensures codec.decode(s) == Some(s)
  {
    assert codec.encode(s) == s;
  }
}
