/**
 The filter `read_sources` of update_nodes.py applies to the lines of
 node.txt: it keeps the stripped form of every line that is not blank and
 whose raw form, before stripping, starts with `http`.
 */
module NodeSources {
  import opened Text

  const UrlPrefix: string := "http"

  /** `line.strip() and line.startswith('http')`. */
  predicate IsSourceLine(line: string)
  {
    PyStrip(line) != "" && UrlPrefix <= line
  }

  /** `[line.strip() for line in f if line.strip() and line.startswith('http')]`
      over the lines of the file, each with its line end. */
  function SourceUrls(lines: seq<string>): seq<string>
  {
    KeepMap(lines, IsSourceLine, PyStrip)
  }

  /** The sources of a file are those of its first part followed by those of the rest. */
  lemma SourceUrlsAppend(a: seq<string>, b: seq<string>)
    ensures SourceUrls(a + b) == SourceUrls(a) + SourceUrls(b)
  {
    KeepMapAppend(a, b, IsSourceLine, PyStrip);
  }

  /** A source is the stripped form of some kept line, and every kept line gives one. */
  lemma SourceUrlsMembers(lines: seq<string>)
    ensures forall u :: u in SourceUrls(lines) <==>
      exists i :: 0 <= i < |lines| && IsSourceLine(lines[i]) && u == PyStrip(lines[i])
  {
    KeepMapMembers(lines, IsSourceLine, PyStrip);
  }

  /** A line with leading white space never counts, whatever follows it. */
  lemma LeadingSpaceRejected(line: string)
    requires |line| > 0 && IsPySpace(line[0])
    ensures !IsSourceLine(line)
  {
  }

  /** Stripping a line that starts with `http` keeps the `http`. */
  lemma StripKeepsPrefix(line: string)
    requires UrlPrefix <= line
    ensures UrlPrefix <= PyStrip(line)
  {
    assert !IsPySpace(line[0]) && !IsPySpace(line[3]);
    assert TrimStart(line, IsPySpace) == line;
    var n := SpanBack(line, IsPySpace, |line|);
    assert n > 3;
    assert PyStrip(line) == line[..n];
  }

  /** What a source looks like: non-empty, stripped, starting with `http`. */
  predicate IsSource(u: string)
  {
    u != "" && IsTrimmed(u, IsPySpace) && UrlPrefix <= u
  }

  /** Every source is non-empty, stripped and starts with `http`. */
  lemma {:induction false} SourceUrlsShape(lines: seq<string>)
    ensures forall i :: 0 <= i < |SourceUrls(lines)| ==> IsSource(SourceUrls(lines)[i])
    decreases |lines|
  {
    if |lines| > 0 {
      var n := |lines|;
      var init := SourceUrls(lines[..n - 1]);
      SourceUrlsShape(lines[..n - 1]);
      if IsSourceLine(lines[n - 1]) {
        StripKeepsPrefix(lines[n - 1]);
        assert SourceUrls(lines) == init + [PyStrip(lines[n - 1])];
      } else {
        assert SourceUrls(lines) == init;
      }
    }
  }

  /** A source read again as a line of the file is kept as it is. */
  lemma SourceKept(u: string)
    requires IsSource(u)
    ensures IsSourceLine(u) && PyStrip(u) == u
  {
    TrimTrimmed(u, IsPySpace);
  }

  /** Filtering a list of sources again changes nothing. */
  lemma SourceUrlsIdempotent(lines: seq<string>)
    ensures SourceUrls(SourceUrls(lines)) == SourceUrls(lines)
  {
    SourceUrlsShape(lines);
    SourcesFixed(SourceUrls(lines));
  }

  /** Sources are kept as they are. */
  lemma {:induction false} SourcesFixed(us: seq<string>)
    requires forall i :: 0 <= i < |us| ==> IsSource(us[i])
    ensures SourceUrls(us) == us
    decreases |us|
  {
    if |us| > 0 {
      var n := |us|;
      var init := us[..n - 1];
      var u := us[n - 1];
      assert forall i :: 0 <= i < n - 1 ==> init[i] == us[i];
      SourcesFixed(init);
      SourceKept(u);
      assert SourceUrls(us) == SourceUrls(init) + [PyStrip(u)];
      assert us == init + [u];
    }
  }
}
