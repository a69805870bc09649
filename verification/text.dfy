/**
 String helpers shared by both scripts: character search, splitting and
 joining on a separator, prefix and substring tests, whitespace trimming,
 the UTF-16 length JavaScript reports, and decimal rendering of naturals.
 */
module Text {
  import opened Wrappers

  /** Position of the first occurrence of `c` in `s` at or after `from`, if any. */
  function IndexFrom(s: string, c: char, from: nat): (r: Option<nat>)
    requires from <= |s|
    ensures r.None? ==> forall j :: from <= j < |s| ==> s[j] != c
    ensures r.Some? ==> from <= r.value < |s| && s[r.value] == c && forall j :: from <= j < r.value ==> s[j] != c
    decreases |s| - from
  {
    if from == |s| then None
    else if s[from] == c then Some(from)
    else IndexFrom(s, c, from + 1)
  }

  /** Position of the first occurrence of `c` in `s`, if any. */
  function IndexOf(s: string, c: char): (r: Option<nat>)
    ensures r.None? <==> c !in s
    ensures r.Some? ==> r.value < |s| && s[r.value] == c && forall j :: 0 <= j < r.value ==> s[j] != c
  {
    IndexFrom(s, c, 0)
  }

  /** The text before the first occurrence does not contain the character. */
  lemma IndexOfBefore(s: string, c: char)
    requires IndexOf(s, c).Some?
    ensures c !in s[..IndexOf(s, c).value]
  {
  }

  /** The first separator of `a + [c] + b` is the one after `a` when `a` has none. */
  lemma IndexOfAfter(a: string, c: char, b: string)
    requires c !in a
    ensures IndexOf(a + [c] + b, c) == Some(|a|)
  {
    var s := a + [c] + b;
    assert s[|a|] == c;
    assert forall j :: 0 <= j < |a| ==> s[j] == a[j];
  }

  /** Joining two strings around a character the first one lacks: the
      character is found again right after the first one. */
  lemma JoinedAt(a: string, c: char, b: string)
    requires c !in a
    ensures var s := a + ([c] + b);
      IndexOf(s, c) == Some(|a|) && s[..|a|] == a && s[|a| + 1..] == b
  {
    assert a + ([c] + b) == a + [c] + b;
    IndexOfAfter(a, c, b);
  }

  /** The text before and after the first occurrence of `c`, if any. */
  function Cut(s: string, c: char): (r: Option<(string, string)>)
    ensures r.None? <==> c !in s
    ensures r.Some? ==> c !in r.value.0 && s == r.value.0 + ([c] + r.value.1)
  {
    match IndexOf(s, c)
    case None => None
    case Some(i) =>
      IndexOfBefore(s, c);
      assert s == s[..i] + ([c] + s[i + 1..]);
      Some((s[..i], s[i + 1..]))
  }

  /** Cutting a join at a character only the middle holds gives back its two sides. */
  lemma CutJoined(a: string, c: char, b: string)
    requires c !in a
    ensures Cut(a + ([c] + b), c) == Some((a, b))
  {
    JoinedAt(a, c, b);
  }

  /** The text after `prefix`, when `s` starts with it. */
  function StripPrefix(s: string, prefix: string): (r: Option<string>)
    ensures r.Some? <==> prefix <= s
    ensures r.Some? ==> s == prefix + r.value
  {
    if prefix <= s then
      assert s == prefix + s[|prefix|..];
      Some(s[|prefix|..])
    else None
  }

  lemma StripPrefixJoined(prefix: string, rest: string)
    ensures StripPrefix(prefix + rest, prefix) == Some(rest)
  {
    assert (prefix + rest)[|prefix|..] == rest;
  }

  /** `String.prototype.join` / `str.join` with a one-character separator. */
  function Join(xs: seq<string>, sep: char): string
  {
    if |xs| == 0 then ""
    else if |xs| == 1 then xs[0]
    else xs[0] + [sep] + Join(xs[1..], sep)
  }

  /** `String.prototype.split` with a one-character separator: the pieces
      between separators, always at least one, and joining them gives back `s`. */
  function Split(s: string, sep: char): (r: seq<string>)
    ensures |r| >= 1
    ensures forall i :: 0 <= i < |r| ==> sep !in r[i]
    ensures Join(r, sep) == s
    decreases |s|
  {
    match IndexOf(s, sep)
    case None => [s]
    case Some(i) =>
      var rest := Split(s[i + 1..], sep);
      assert ([s[..i]] + rest)[1..] == rest;
      assert s == s[..i] + [sep] + s[i + 1..];
      [s[..i]] + rest
  }

  /** Splitting cuts at the first separator. */
  lemma SplitAt(a: string, sep: char, b: string)
    requires sep !in a
    ensures Split(a + ([sep] + b), sep) == [a] + Split(b, sep)
  {
    JoinedAt(a, sep, b);
  }

  /** Splitting a join recovers the pieces when none contains the separator. */
  lemma {:induction false} SplitJoin(xs: seq<string>, sep: char)
    requires |xs| >= 1
    requires forall i :: 0 <= i < |xs| ==> sep !in xs[i]
    ensures Split(Join(xs, sep), sep) == xs
    decreases |xs|
  {
    if |xs| == 1 {
      assert Join(xs, sep) == xs[0];
    } else {
      var head := xs[0];
      var tail := Join(xs[1..], sep);
      var s := head + [sep] + tail;
      assert Join(xs, sep) == s;
      IndexOfAfter(head, sep, tail);
      assert s[..|head|] == head;
      assert s[|head| + 1..] == tail;
      SplitJoin(xs[1..], sep);
      assert Split(s, sep) == [head] + Split(tail, sep);
      assert xs == [head] + xs[1..];
    }
  }

  /** A character other than the separator occurs in a join only if it occurs in a piece. */
  lemma {:induction false} JoinAvoids(xs: seq<string>, sep: char, c: char)
    requires c != sep
    requires forall i :: 0 <= i < |xs| ==> c !in xs[i]
    ensures c !in Join(xs, sep)
    decreases |xs|
  {
    if |xs| > 1 {
      JoinAvoids(xs[1..], sep, c);
    }
  }

  /** A character missing from a join is missing from every piece. */
  lemma {:induction false} PiecesAvoid(xs: seq<string>, sep: char, c: char)
    requires c !in Join(xs, sep)
    ensures forall i :: 0 <= i < |xs| ==> c !in xs[i]
    decreases |xs|
  {
    if |xs| > 1 {
      var rest := Join(xs[1..], sep);
      assert Join(xs, sep) == xs[0] + ([sep] + rest);
      PiecesAvoid(xs[1..], sep, c);
      assert forall i :: 1 <= i < |xs| ==> xs[i] == xs[1..][i - 1];
    }
  }

  /** A character missing from a text is missing from every piece of its split. */
  lemma SplitAvoids(s: string, sep: char, c: char)
    requires c !in s
    ensures forall i :: 0 <= i < |Split(s, sep)| ==> c !in Split(s, sep)[i]
  {
    PiecesAvoid(Split(s, sep), sep, c);
  }

  /** The join of a non-empty list begins with its first piece. */
  lemma JoinStartsWithFirst(xs: seq<string>, sep: char)
    requires |xs| >= 1
    ensures xs[0] <= Join(xs, sep)
  {
  }

  /** `String.prototype.includes` / Python `in` on strings. */
  predicate Contains(s: string, sub: string)
    decreases |s|
  {
    sub <= s || (|s| > 0 && Contains(s[1..], sub))
  }

  /** The substring test finds `sub` exactly when it occurs at some offset. */
  lemma {:induction false} ContainsAtOffset(s: string, sub: string)
    ensures Contains(s, sub) <==> exists i :: 0 <= i <= |s| && sub <= s[i..]
    decreases |s|
  {
    assert s[0..] == s;
    if !(sub <= s) && |s| > 0 {
      ContainsAtOffset(s[1..], sub);
      if Contains(s[1..], sub) {
        var j :| 0 <= j <= |s[1..]| && sub <= s[1..][j..];
        assert s[1..][j..] == s[j + 1..];
      }
      if exists i :: 0 <= i <= |s| && sub <= s[i..] {
        var i :| 0 <= i <= |s| && sub <= s[i..];
        assert s[1..][i - 1..] == s[i..];
      }
    }
  }

  /** End of the run of `space` characters starting at `from`. */
  function SpanFrom(s: string, space: char -> bool, from: nat): (n: nat)
    requires from <= |s|
    ensures from <= n <= |s| && forall j :: from <= j < n ==> space(s[j])
    ensures n < |s| ==> !space(s[n])
    decreases |s| - from
  {
    if from < |s| && space(s[from]) then SpanFrom(s, space, from + 1) else from
  }

  /** Start of the run of `space` characters ending just before `end`. */
  function SpanBack(s: string, space: char -> bool, end: nat): (n: nat)
    requires end <= |s|
    ensures n <= end && forall j :: n <= j < end ==> space(s[j])
    ensures n > 0 ==> !space(s[n - 1])
    decreases end
  {
    if end > 0 && space(s[end - 1]) then SpanBack(s, space, end - 1) else end
  }

  /** Strips the leading run of characters satisfying `space`. */
  function TrimStart(s: string, space: char -> bool): (r: string)
    ensures |r| <= |s| && r == s[|s| - |r|..]
    ensures forall i :: 0 <= i < |s| - |r| ==> space(s[i])
    ensures r == [] || !space(r[0])
  {
    s[SpanFrom(s, space, 0)..]
  }

  /** Strips the trailing run of characters satisfying `space`. */
  function TrimEnd(s: string, space: char -> bool): (r: string)
    ensures |r| <= |s| && r == s[..|r|]
    ensures forall i :: |r| <= i < |s| ==> space(s[i])
    ensures r == [] || !space(r[|r| - 1])
  {
    s[..SpanBack(s, space, |s|)]
  }

  /** Neither end of `s` is a `space` character. */
  predicate IsTrimmed(s: string, space: char -> bool)
  {
    s == [] || (!space(s[0]) && !space(s[|s| - 1]))
  }

  /** Strips both ends: what is left is the part of `s` that starts at
      some `i` and has only `space` characters before and after it, and
      neither of its ends is one. */
  function Trim(s: string, space: char -> bool): (r: string)
    ensures IsTrimmed(r, space)
    ensures exists i ::
              && 0 <= i <= |s| && r <= s[i..]
              && (forall j :: 0 <= j < i ==> space(s[j]))
              && (forall j :: i + |r| <= j < |s| ==> space(s[j]))
  {
    var t := TrimStart(s, space);
    var r := TrimEnd(t, space);
    var i := |s| - |t|;
    assert r <= s[i..];
    assert forall j :: i + |r| <= j < |s| ==> s[j] == t[j - i];
    r
  }

  /** Trimming only removes characters, so it never introduces one. */
  lemma TrimAvoids(s: string, space: char -> bool, c: char)
    requires c !in s
    ensures c !in Trim(s, space)
  {
    var t := TrimStart(s, space);
    assert c !in t by {
      assert forall i :: 0 <= i < |t| ==> t[i] == s[|s| - |t| + i];
    }
    var r := TrimEnd(t, space);
    assert forall i :: 0 <= i < |r| ==> r[i] == t[i];
  }

  /** Trimming leaves an already trimmed string alone. */
  lemma TrimTrimmed(s: string, space: char -> bool)
    requires IsTrimmed(s, space)
    ensures Trim(s, space) == s
  {
  }

  /** WhiteSpace and LineTerminator code points of ECMAScript, which `String.prototype.trim` removes. */
  predicate IsJsSpace(c: char)
  {
    || c == '\t' || c == '\U{000B}' || c == '\U{000C}' || c == '\U{FEFF}'
    || c == ' ' || c == '\U{00A0}' || c == '\U{1680}' || ('\U{2000}' <= c <= '\U{200A}')
    || c == '\U{202F}' || c == '\U{205F}' || c == '\U{3000}'
    || c == '\n' || c == '\r' || c == '\U{2028}' || c == '\U{2029}'
  }

  /** `String.prototype.trim`. */
  function JsTrim(s: string): string
  {
    Trim(s, IsJsSpace)
  }

  /** Characters Python's `str.isspace` accepts, which `str.strip()` removes. */
  predicate IsPySpace(c: char)
  {
    || ('\t' <= c <= '\r') || ('\U{001C}' <= c <= '\U{001F}') || c == ' ' || c == '\U{0085}'
    || c == '\U{00A0}' || c == '\U{1680}' || ('\U{2000}' <= c <= '\U{200A}')
    || c == '\U{2028}' || c == '\U{2029}' || c == '\U{202F}' || c == '\U{205F}' || c == '\U{3000}'
  }

  /** Python `str.strip()` with no argument. */
  function PyStrip(s: string): string
  {
    Trim(s, IsPySpace)
  }

  /** JavaScript `.length`: UTF-16 code units, two for a code point above U+FFFF. */
  function JsLength(s: string): (n: nat)
    ensures |s| <= n <= 2 * |s|
  {
    if |s| == 0 then 0
    else JsLength(s[..|s| - 1]) + (if s[|s| - 1] as int >= 0x1_0000 then 2 else 1)
  }

  /** `.length` of a concatenation is the sum of the lengths of its parts. */
  lemma {:induction false} JsLengthAppend(a: string, b: string)
    ensures JsLength(a + b) == JsLength(a) + JsLength(b)
    decreases |b|
  {
    if |b| == 0 {
      assert a + b == a;
    } else {
      var n := |b|;
      assert (a + b)[..|a + b| - 1] == a + b[..n - 1];
      assert (a + b)[|a + b| - 1] == b[n - 1];
      JsLengthAppend(a, b[..n - 1]);
    }
  }

  /** Text without code points above U+FFFF has one code unit per character. */
  lemma {:induction false} JsLengthBmp(s: string)
    requires forall i :: 0 <= i < |s| ==> s[i] as int < 0x1_0000
    ensures JsLength(s) == |s|
    decreases |s|
  {
    if |s| > 0 {
      var init := s[..|s| - 1];
      assert forall i :: 0 <= i < |init| ==> init[i] == s[i];
      JsLengthBmp(init);
    }
  }

  /** A code point above U+FFFF is a surrogate pair, two code units; any other is one. */
  lemma JsLengthChar(c: char)
    ensures c as int >= 0x1_0000 ==> JsLength([c]) == 2
    ensures c as int < 0x1_0000 ==> JsLength([c]) == 1
  {
    assert [c][..0] == [];
  }

  /** The images under `f` of the elements `keep` accepts, in order:
      `[f(x) for x in xs if keep(x)]`. */
  function KeepMap<A, B>(xs: seq<A>, keep: A -> bool, f: A -> B): seq<B>
    decreases |xs|
  {
    if |xs| == 0 then []
    else
      var last := xs[|xs| - 1];
      KeepMap(xs[..|xs| - 1], keep, f) + if keep(last) then [f(last)] else []
  }

  /** The comprehension over two concatenated sequences is the comprehension
      over the first followed by the comprehension over the second. */
  lemma {:induction false} KeepMapAppend<A, B>(a: seq<A>, b: seq<A>, keep: A -> bool, f: A -> B)
    ensures KeepMap(a + b, keep, f) == KeepMap(a, keep, f) + KeepMap(b, keep, f)
    decreases |b|
  {
    if |b| == 0 {
      assert a + b == a;
    } else {
      var n := |b|;
      assert (a + b)[..|a + b| - 1] == a + b[..n - 1];
      assert (a + b)[|a + b| - 1] == b[n - 1];
      KeepMapAppend(a, b[..n - 1], keep, f);
    }
  }

  /** An element of the comprehension is the image of a kept element, and
      every kept element gives one. */
  lemma {:induction false} KeepMapMembers<A, B>(xs: seq<A>, keep: A -> bool, f: A -> B)
    ensures forall u :: u in KeepMap(xs, keep, f) <==> exists i :: 0 <= i < |xs| && keep(xs[i]) && u == f(xs[i])
    decreases |xs|
  {
    if |xs| > 0 {
      var n := |xs|;
      var init := xs[..n - 1];
      KeepMapMembers(init, keep, f);
      assert forall i :: 0 <= i < n - 1 ==> init[i] == xs[i];
    }
  }

  /** Appending to the second part of a concatenation keeps the first two parts as a prefix. */
  lemma PrefixOfJoin(a: string, b: string, c: string)
    ensures a + b <= a + (b + c)
  {
    assert a + (b + c) == (a + b) + c;
  }

  /** No entry occurs twice: each is absent from the entries after it. */
  predicate Distinct(xs: seq<string>)
    decreases |xs|
  {
    |xs| == 0 || (xs[0] !in xs[1..] && Distinct(xs[1..]))
  }

  /** The same, stated on positions: entries at different places differ. */
  lemma {:induction false} DistinctIndices(xs: seq<string>)
    ensures Distinct(xs) <==> forall i, j :: 0 <= i < j < |xs| ==> xs[i] != xs[j]
    decreases |xs|
  {
    if |xs| > 0 {
      DistinctIndices(xs[1..]);
      if forall i, j :: 0 <= i < j < |xs| ==> xs[i] != xs[j] {
        assert xs[0] !in xs[1..] by {
          forall j | 0 <= j < |xs| - 1
            ensures xs[1..][j] != xs[0]
          {
            assert xs[1..][j] == xs[j + 1];
          }
        }
        forall i, j | 0 <= i < j < |xs| - 1
          ensures xs[1..][i] != xs[1..][j]
        {
          assert xs[1..][i] == xs[i + 1] && xs[1..][j] == xs[j + 1];
        }
      }
      if Distinct(xs) {
        forall i, j | 0 <= i < j < |xs|
          ensures xs[i] != xs[j]
        {
          assert xs[j] == xs[1..][j - 1];
          if i > 0 {
            assert xs[i] == xs[1..][i - 1];
          }
        }
      }
    }
  }

  /** Appending an entry not yet present keeps a list without repeats. */
  lemma {:induction false} DistinctSnoc(xs: seq<string>, x: string)
    requires Distinct(xs) && x !in xs
    ensures Distinct(xs + [x])
    decreases |xs|
  {
    if |xs| > 0 {
      assert (xs + [x])[1..] == xs[1..] + [x];
      DistinctSnoc(xs[1..], x);
    }
  }

  /** Dropping the last entry keeps a list without repeats. */
  lemma {:induction false} DistinctInit(xs: seq<string>)
    requires Distinct(xs) && |xs| > 0
    ensures Distinct(xs[..|xs| - 1])
    decreases |xs|
  {
    if |xs| > 1 {
      assert xs[1..][..|xs| - 2] == xs[..|xs| - 1][1..];
      DistinctInit(xs[1..]);
    }
  }

  /** In a list without repetitions, no entry occurs before its place. */
  lemma {:induction false} DistinctNotBefore(xs: seq<string>, n: nat)
    requires Distinct(xs)
    requires n < |xs|
    ensures xs[n] !in xs[..n]
    decreases n
  {
    if n > 0 {
      assert xs[n] == xs[1..][n - 1];
      DistinctNotBefore(xs[1..], n - 1);
      assert xs[..n] == [xs[0]] + xs[1..][..n - 1];
    }
  }

  predicate IsDigit(c: char)
  {
    '0' <= c <= '9'
  }

  predicate AllDigits(s: string)
  {
    forall i :: 0 <= i < |s| ==> IsDigit(s[i])
  }

  function DigitChar(d: nat): (c: char)
    requires d < 10
    ensures IsDigit(c) && c as int - '0' as int == d
  {
    ('0' as int + d) as char
  }

  /** Python `str(n)` for a natural number: its decimal digits, without leading zeros. */
  function NatToString(n: nat): (r: string)
    ensures |r| >= 1 && AllDigits(r)
    ensures n >= 10 <==> |r| >= 2
  {
    if n < 10 then [DigitChar(n)]
    else NatToString(n / 10) + [DigitChar(n % 10)]
  }

  /** The number a string of decimal digits denotes. */
  function DecimalValue(s: string): nat
    requires AllDigits(s)
    decreases |s|
  {
    if |s| == 0 then 0
    else 10 * DecimalValue(s[..|s| - 1]) + (s[|s| - 1] as int - '0' as int)
  }

  /** A rendering has no leading zero unless it is `0` itself. */
  predicate Canonical(s: string)
  {
    |s| >= 1 && AllDigits(s) && (s[0] != '0' || |s| == 1)
  }

  /** The rendering of `n` is canonical and denotes `n`. */
  lemma {:induction false} NatToStringValue(n: nat)
    ensures Canonical(NatToString(n))
    ensures DecimalValue(NatToString(n)) == n
    decreases n
  {
    if n >= 10 {
      var s := NatToString(n);
      NatToStringValue(n / 10);
      assert s[..|s| - 1] == NatToString(n / 10);
      assert s[0] == NatToString(n / 10)[0];
    }
  }

  /** A canonical digit string with a leading non-zero digit denotes at least 1. */
  lemma {:induction false} DecimalValuePositive(s: string)
    requires Canonical(s) && s[0] != '0'
    ensures DecimalValue(s) >= 1
    decreases |s|
  {
    if |s| > 1 {
      var init := s[..|s| - 1];
      assert init[0] == s[0];
      DecimalValuePositive(init);
    }
  }

  /** Every canonical digit string is the rendering of the number it denotes. */
  lemma {:induction false} NatToStringOfValue(s: string)
    requires Canonical(s)
    ensures NatToString(DecimalValue(s)) == s
    decreases |s|
  {
    var n := DecimalValue(s);
    var d := s[|s| - 1] as int - '0' as int;
    if |s| == 1 {
      assert s[..0] == [];
      assert DigitChar(d) as int == s[0] as int;
    } else {
      var init := s[..|s| - 1];
      assert init[0] == s[0];
      DecimalValuePositive(init);
      NatToStringOfValue(init);
      var m := DecimalValue(init);
      assert n == 10 * m + d && 0 <= d < 10;
      assert n / 10 == m && n % 10 == d;
      assert DigitChar(d) as int == s[|s| - 1] as int;
      assert s == init + [s[|s| - 1]];
    }
  }

  /** Distinct naturals have distinct decimal renderings. */
  lemma {:induction false} NatToStringInjective(a: nat, b: nat)
    requires NatToString(a) == NatToString(b)
    ensures a == b
    decreases a
  {
    var s := NatToString(a);
    if a >= 10 {
      assert b >= 10;
      assert s[|s| - 1] == DigitChar(a % 10) == DigitChar(b % 10);
      assert NatToString(a / 10) == s[..|s| - 1] == NatToString(b / 10);
      NatToStringInjective(a / 10, b / 10);
    } else {
      assert b < 10;
      assert s[0] == DigitChar(a) == DigitChar(b);
    }
  }
}
