/**
 The subscription converter's line pass (`processSubscription` and
 `processVlessProxy` in script/youxuan.js) and the handler's choice between
 a base64 and a plain-text subscription.

 A subscription is text with one proxy link per line. Lines of the other
 schemes pass through; a `vless://` line whose parameters the client cannot
 use is either dropped (mode `filter`) or written back without the offending
 parameters (any other mode).
 */
module Subscription {
  import opened Wrappers
  import opened Text
  import opened UriComponent
  import opened Vless

  /** The `mode` value that drops incompatible nodes; every other value cleans them. */
  const FilterMode: string := "filter"

  /** Lines of the schemes the converter never looks into. */
  predicate IsOtherScheme(line: string)
  {
    "ss://" <= line || "ssr://" <= line || "vmess://" <= line || "trojan://" <= line
  }

  /** The link written back in place of an incompatible one. */
  function Cleaned(link: Link): Link
  {
    link.(params := Clean(link.params))
  }

  /** `processVlessProxy`: a line that does not parse, or parses to compatible
      parameters, is returned as it was; an incompatible one is dropped in
      filter mode and otherwise rebuilt from its cleaned parameters. */
  function ProcessVlessProxy(line: string, mode: string, codec: Codec): Option<string>
  {
    match Parse(line, codec)
    case None => Some(line)
    case Some(link) =>
      if !IsIncompatible(link.params) then Some(line)
      else if mode == FilterMode then None
      else Some(Build(Cleaned(link), codec))
  }

  /** One turn of the loop of `processSubscription`: what it pushes, if anything.
      A `vless://` line is pushed only when `processVlessProxy` gives a truthy
      (non-empty) string. */
  function ProcessLine(line: string, mode: string, codec: Codec): Option<string>
  {
    if IsOtherScheme(line) then Some(line)
    else if Scheme <= line then
      match ProcessVlessProxy(line, mode, codec)
      case Some(r) => if r != "" then Some(r) else None
      case None => None
    else Some(line)
  }

  /** `.map(line => line.trim()).filter(line => line)`. */
  function TrimmedLines(pieces: seq<string>): seq<string>
  {
    KeepMap(pieces, TrimsNonEmpty, JsTrim)
  }

  /** The last piece adds its trimmed form when that is not empty. */
  lemma TrimmedLinesLast(pieces: seq<string>)
    requires |pieces| > 0
    ensures var last := pieces[|pieces| - 1];
            TrimmedLines(pieces) == TrimmedLines(pieces[..|pieces| - 1]) + if TrimsNonEmpty(last) then [JsTrim(last)] else []
  {
  }

  /** A piece that is not blank: the `filter(line => line)` after trimming. */
  predicate TrimsNonEmpty(piece: string)
  {
    JsTrim(piece) != ""
  }

  /** The lines `processSubscription` walks through. */
  function SubscriptionLines(content: string): seq<string>
  {
    TrimmedLines(Split(content, '\n'))
  }

  /** The `processed` array after the loop has seen `lines`. */
  function ProcessLines(lines: seq<string>, mode: string, codec: Codec): seq<string>
    decreases |lines|
  {
    if |lines| == 0 then []
    else
      var rest := ProcessLines(lines[..|lines| - 1], mode, codec);
      match ProcessLine(lines[|lines| - 1], mode, codec)
      case Some(r) => rest + [r]
      case None => rest
  }

  /** `processSubscription`: the processed lines joined by newlines. */
  function ProcessSubscription(content: string, mode: string, codec: Codec): string
  {
    Join(ProcessLines(SubscriptionLines(content), mode, codec), '\n')
  }

  // ---------------------------------------------------------------------
  // Which lines are touched

  /** A line that parses as a VLESS link starts with `vless://`. */
  lemma ParseNeedsScheme(line: string, codec: Codec)
    requires Parse(line, codec).Some?
    ensures Scheme <= line
  {
    assert MatchVless(line).Some?;
  }

  /** A `vless://` line is none of the other schemes. */
  lemma SchemesDisjoint(line: string)
    requires Scheme <= line
    ensures !IsOtherScheme(line)
  {
    assert line[0] == 'v' && line[1] == 'l';
  }

  /** A written line starts with `vless://`. */
  lemma BuildHasScheme(link: Link, codec: Codec)
    ensures Scheme <= Build(link, codec)
  {
    var r := Build(link, codec);
    assert r[..|Authority(link)|] == Authority(link);
    assert Authority(link)[..|Scheme|] == Scheme;
  }

  /** Lines of any other form are kept exactly as they are. */
  lemma ProcessLineNotVless(line: string, mode: string, codec: Codec)
    requires !(Scheme <= line)
    ensures ProcessLine(line, mode, codec) == Some(line)
  {
  }

  /** A line that filter mode removes: it parses to incompatible parameters
      (and so starts with `vless://`). */
  predicate Dropped(line: string, codec: Codec)
  {
    Parse(line, codec).Some? && IsIncompatible(Parse(line, codec).value.params)
  }

  /** In filter mode a line is never rewritten: it is dropped exactly when it
      is an incompatible VLESS link and kept verbatim otherwise. */
  lemma ProcessLineFilter(line: string, codec: Codec)
    ensures ProcessLine(line, FilterMode, codec) == if Dropped(line, codec) then None else Some(line)
  {
    ProcessLineCases(line, FilterMode, codec);
  }

  /** In every other mode each line yields exactly one output line. */
  lemma ProcessLineKeeps(line: string, mode: string, codec: Codec)
    requires mode != FilterMode
    ensures ProcessLine(line, mode, codec).Some?
  {
    ProcessLineCases(line, mode, codec);
  }

  /** Whatever the scheme tests, a line is changed only when it parses to
      incompatible parameters: it is then dropped in filter mode and rebuilt
      from its cleaned link in every other mode. */
  lemma ProcessLineCases(line: string, mode: string, codec: Codec)
    ensures ProcessLine(line, mode, codec)
         == if !Dropped(line, codec) then Some(line)
            else if mode == FilterMode then None
            else Some(Build(Cleaned(Parse(line, codec).value), codec))
  {
    if Dropped(line, codec) {
      if mode == FilterMode {
        ProcessLineDrops(line, codec);
      } else {
        ProcessLineRebuilds(line, mode, codec);
      }
    } else if Parse(line, codec).Some? {
      ProcessLineKeepsCompatible(line, mode, codec);
    }
  }

  /** A compatible VLESS line is kept as it is. */
  lemma ProcessLineKeepsCompatible(line: string, mode: string, codec: Codec)
    requires Parse(line, codec).Some? && !IsIncompatible(Parse(line, codec).value.params)
    ensures ProcessLine(line, mode, codec) == Some(line)
  {
    ParseNeedsScheme(line, codec);
    SchemesDisjoint(line);
  }

  /** Filter mode drops an incompatible VLESS line. */
  lemma ProcessLineDrops(line: string, codec: Codec)
    requires Dropped(line, codec)
    ensures ProcessLine(line, FilterMode, codec) == None
  {
    ParseNeedsScheme(line, codec);
    SchemesDisjoint(line);
  }

  /** Every other mode writes an incompatible VLESS line back from its cleaned link. */
  lemma ProcessLineRebuilds(line: string, mode: string, codec: Codec)
    requires Dropped(line, codec)
    requires mode != FilterMode
    ensures ProcessLine(line, mode, codec) == Some(Build(Cleaned(Parse(line, codec).value), codec))
  {
    ParseNeedsScheme(line, codec);
    SchemesDisjoint(line);
    var link := Parse(line, codec).value;
    var r := Build(Cleaned(link), codec);
    BuildHasScheme(Cleaned(link), codec);
    assert |r| >= |Scheme|;
    assert ProcessVlessProxy(line, mode, codec) == Some(r);
  }

  // ---------------------------------------------------------------------
  // Rewritten lines

  /** A rebuilt line reads back as the cleaned link when a parameter is left,
      and no longer parses when none is. */
  lemma RebuiltLine(line: string, codec: Codec)
    requires Lawful(codec)
    requires Parse(line, codec).Some?
    ensures var link := Parse(line, codec).value;
      Parse(Build(Cleaned(link), codec), codec)
      == if |Clean(link.params).order| > 0 then Some(Cleaned(link)) else None
  {
    var link := Parse(line, codec).value;
    ParseWellFormed(line, codec);
    CleanWellFormed(link.params);
    assert WellFormedLink(Cleaned(link));
    if |Clean(link.params).order| > 0 {
      BuildParseRoundTrip(Cleaned(link), codec);
    } else {
      BuildWithoutParamsDoesNotParse(Cleaned(link), codec);
    }
  }

  /** Characters percent-encoding emits are not white space. */
  lemma EncodedNotSpace(c: char)
    requires IsEncodedChar(c)
    ensures !IsJsSpace(c)
  {
  }

  /** A written line with a name ends with an encoded character. */
  lemma BuildEnds(link: Link, codec: Codec)
    requires Lawful(codec)
    requires link.name != ""
    ensures var r := Build(link, codec); |r| > 0 && r[0] == 'v' && IsEncodedChar(r[|r| - 1])
  {
    var r := Build(link, codec);
    var e := codec.encode(link.name);
    EncodeNonEmpty(codec, link.name);
    BuildHasScheme(link, codec);
    assert r == (Authority(link) + QueryPart(link.params, codec) + "#") + e;
    assert r[|r| - 1] == e[|e| - 1];
    assert IsEncodedChar(e[|e| - 1]);
  }

  /** A character outside an encoded value, `?`, `#`, `=`, `&` and the three
      captured pieces never shows up in a written line. */
  lemma BuildAvoids(link: Link, codec: Codec, c: char)
    requires Lawful(codec)
    requires !IsEncodedChar(c) && c !in "?#=&@:/"
    requires c !in link.uuid && c !in link.server && c !in link.port
    ensures c !in Build(link, codec)
  {
    EncodedQueryAvoids(link.params, codec, c);
    EncodedAvoids(codec, link.name, c);
    assert c !in Scheme;
  }

  /** Text that avoids a character has prefixes that avoid it too. */
  lemma PrefixAvoids(p: string, s: string, c: char)
    requires p <= s && c !in s
    ensures c !in p
  {
    assert p == s[..|p|];
  }

  /** What a processed subscription line looks like: non-empty, trimmed, one line. */
  predicate IsLine(x: string)
  {
    x != "" && IsTrimmed(x, IsJsSpace) && '\n' !in x
  }

  predicate AllLines(xs: seq<string>)
  {
    forall i :: 0 <= i < |xs| ==> IsLine(xs[i])
  }

  /** A written line with a name is trimmed. */
  lemma BuildTrimmed(link: Link, codec: Codec)
    requires Lawful(codec)
    requires link.name != ""
    ensures Build(link, codec) != "" && IsTrimmed(Build(link, codec), IsJsSpace)
  {
    var r := Build(link, codec);
    BuildEnds(link, codec);
    EncodedNotSpace(r[|r| - 1]);
  }

  /** The captured uuid, server and port avoid whatever the line avoids. */
  lemma ParsedAvoids(line: string, codec: Codec, c: char)
    requires Parse(line, codec).Some?
    requires c !in line
    ensures var link := Parse(line, codec).value;
      c !in link.uuid && c !in link.server && c !in link.port
  {
    var link := Parse(line, codec).value;
    ParseShape(line, codec);
    PrefixAvoids(Authority(link) + "?", line, c);
  }

  /** Rebuilding a subscription line gives a subscription line. */
  lemma RebuiltLineShape(line: string, codec: Codec)
    requires Lawful(codec)
    requires Parse(line, codec).Some?
    requires IsLine(line)
    ensures IsLine(Build(Cleaned(Parse(line, codec).value), codec))
  {
    var link := Parse(line, codec).value;
    var cleaned := Cleaned(link);
    assert cleaned.name != "" by {
      ParseWellFormed(line, codec);
    }
    assert '\n' !in cleaned.uuid && '\n' !in cleaned.server && '\n' !in cleaned.port by {
      ParsedAvoids(line, codec, '\n');
    }
    NewlineNotEncoded();
    BuildAvoids(cleaned, codec, '\n');
    BuildTrimmed(cleaned, codec);
  }

  lemma NewlineNotEncoded()
    ensures !IsEncodedChar('\n') && '\n' !in "?#=&@:/"
  {
  }

  /** Every line the loop pushes is a subscription line that the loop would
      push again unchanged. */
  lemma ProcessLineSettles(line: string, mode: string, codec: Codec)
    requires Lawful(codec)
    requires IsLine(line)
    requires ProcessLine(line, mode, codec).Some?
    ensures var r := ProcessLine(line, mode, codec).value;
      IsLine(r) && ProcessLine(r, mode, codec) == Some(r)
  {
    ProcessLineCases(line, mode, codec);
    if Dropped(line, codec) && mode != FilterMode {
      RebuiltSettles(line, mode, codec);
    }
  }

  /** A rebuilt line is a subscription line the loop pushes back unchanged. */
  lemma RebuiltSettles(line: string, mode: string, codec: Codec)
    requires Lawful(codec)
    requires Parse(line, codec).Some?
    requires IsLine(line)
    ensures var r := Build(Cleaned(Parse(line, codec).value), codec);
      IsLine(r) && ProcessLine(r, mode, codec) == Some(r)
  {
    var r := Build(Cleaned(Parse(line, codec).value), codec);
    RebuiltLineShape(line, codec);
    RebuiltLine(line, codec);
    ProcessLineCases(r, mode, codec);
  }

  /** No line the converter outputs parses to incompatible parameters. */
  lemma ProcessLineCompatible(line: string, mode: string, codec: Codec)
    requires Lawful(codec)
    requires ProcessLine(line, mode, codec).Some?
    ensures var r := ProcessLine(line, mode, codec).value;
      Parse(r, codec).Some? ==> !IsIncompatible(Parse(r, codec).value.params)
  {
    ProcessLineCases(line, mode, codec);
    if Dropped(line, codec) && mode != FilterMode {
      RebuiltLine(line, codec);
    }
  }

  // ---------------------------------------------------------------------
  // The whole pass

  /** The output never has more lines than the input. */
  lemma {:induction false} ProcessLinesAtMost(lines: seq<string>, mode: string, codec: Codec)
    ensures |ProcessLines(lines, mode, codec)| <= |lines|
    decreases |lines|
  {
    if |lines| > 0 {
      ProcessLinesAtMost(lines[..|lines| - 1], mode, codec);
    }
  }

  /** Outside filter mode the output has one line per input line, each the
      result of processing the line at the same place. */
  lemma {:induction false} ProcessLinesAt(lines: seq<string>, mode: string, codec: Codec)
    requires mode != FilterMode
    ensures |ProcessLines(lines, mode, codec)| == |lines|
    ensures forall i :: 0 <= i < |lines| ==>
      ProcessLine(lines[i], mode, codec) == Some(ProcessLines(lines, mode, codec)[i])
    decreases |lines|
  {
    if |lines| > 0 {
      var n := |lines|;
      var init := lines[..n - 1];
      ProcessLinesAt(init, mode, codec);
      ProcessLineKeeps(lines[n - 1], mode, codec);
      var out := ProcessLines(lines, mode, codec);
      assert out == ProcessLines(init, mode, codec) + [ProcessLine(lines[n - 1], mode, codec).value];
      forall i | 0 <= i < n
        ensures ProcessLine(lines[i], mode, codec) == Some(out[i])
      {
        if i < n - 1 {
          assert lines[i] == init[i];
          assert out[i] == ProcessLines(init, mode, codec)[i];
        }
      }
    }
  }

  /** Filter mode keeps exactly the lines that are not incompatible VLESS links. */
  lemma {:induction false} ProcessLinesFilter(lines: seq<string>, codec: Codec)
    ensures forall x :: x in ProcessLines(lines, FilterMode, codec) <==> x in lines && !Dropped(x, codec)
    decreases |lines|
  {
    if |lines| > 0 {
      var n := |lines|;
      ProcessLinesFilter(lines[..n - 1], codec);
      ProcessLineFilter(lines[n - 1], codec);
      assert lines == lines[..n - 1] + [lines[n - 1]];
    }
  }

  /** The lines filter mode is meant to keep: every line that is not an
      incompatible VLESS link, in input order and with repetitions. */
  function Undropped(lines: seq<string>, codec: Codec): seq<string>
  {
    KeepMap(lines, x => !Dropped(x, codec), x => x)
  }

  /** Filter mode outputs exactly the undropped input lines, verbatim and in order. */
  lemma {:induction false} ProcessLinesFilterOrder(lines: seq<string>, codec: Codec)
    ensures ProcessLines(lines, FilterMode, codec) == Undropped(lines, codec)
    decreases |lines|
  {
    if |lines| > 0 {
      var n := |lines|;
      ProcessLinesFilterOrder(lines[..n - 1], codec);
      ProcessLineFilter(lines[n - 1], codec);
    }
  }

  /** No output line parses to incompatible parameters, in either mode. */
  lemma {:induction false} ProcessLinesCompatible(lines: seq<string>, mode: string, codec: Codec)
    requires Lawful(codec)
    ensures forall x :: x in ProcessLines(lines, mode, codec) && Parse(x, codec).Some? ==>
      !IsIncompatible(Parse(x, codec).value.params)
    decreases |lines|
  {
    if |lines| > 0 {
      var n := |lines|;
      ProcessLinesCompatible(lines[..n - 1], mode, codec);
      if ProcessLine(lines[n - 1], mode, codec).Some? {
        ProcessLineCompatible(lines[n - 1], mode, codec);
      }
    }
  }

  /** Lines the loop pushes back unchanged. */
  predicate Settled(xs: seq<string>, mode: string, codec: Codec)
  {
    forall i :: 0 <= i < |xs| ==> ProcessLine(xs[i], mode, codec) == Some(xs[i])
  }

  /** The output of the pass consists of settled subscription lines. */
  lemma {:induction false} ProcessLinesSettle(lines: seq<string>, mode: string, codec: Codec)
    requires Lawful(codec)
    requires AllLines(lines)
    ensures AllLines(ProcessLines(lines, mode, codec))
    ensures Settled(ProcessLines(lines, mode, codec), mode, codec)
    decreases |lines|
  {
    if |lines| > 0 {
      var n := |lines|;
      var init := lines[..n - 1];
      assert AllLines(init) by {
        assert forall i :: 0 <= i < |init| ==> init[i] == lines[i];
      }
      ProcessLinesSettle(init, mode, codec);
      var prev := ProcessLines(init, mode, codec);
      match ProcessLine(lines[n - 1], mode, codec)
      case None =>
        assert ProcessLines(lines, mode, codec) == prev;
      case Some(r) =>
        ProcessLineSettles(lines[n - 1], mode, codec);
        assert ProcessLines(lines, mode, codec) == prev + [r];
        AllLinesSnoc(prev, r);
        SettledSnoc(prev, r, mode, codec);
    }
  }

  lemma SettledSnoc(xs: seq<string>, x: string, mode: string, codec: Codec)
    requires Settled(xs, mode, codec)
    requires ProcessLine(x, mode, codec) == Some(x)
    ensures Settled(xs + [x], mode, codec)
  {
    assert forall i :: 0 <= i < |xs| ==> (xs + [x])[i] == xs[i];
  }

  /** Settled lines pass through the loop unchanged. */
  lemma {:induction false} ProcessLinesFixed(xs: seq<string>, mode: string, codec: Codec)
    requires Settled(xs, mode, codec)
    ensures ProcessLines(xs, mode, codec) == xs
    decreases |xs|
  {
    if |xs| > 0 {
      var n := |xs|;
      ProcessLinesFixed(xs[..n - 1], mode, codec);
      assert xs == xs[..n - 1] + [xs[n - 1]];
    }
  }

  /** Trimming and dropping empty lines leaves subscription lines alone. */
  lemma {:induction false} TrimmedLinesFixed(xs: seq<string>)
    requires AllLines(xs)
    ensures TrimmedLines(xs) == xs
    decreases |xs|
  {
    if |xs| > 0 {
      var n := |xs|;
      TrimmedLinesFixed(xs[..n - 1]);
      TrimTrimmed(xs[n - 1], IsJsSpace);
      assert xs == xs[..n - 1] + [xs[n - 1]];
    }
  }

  /** Trimming and dropping empty pieces that hold no newline gives subscription lines. */
  lemma {:induction false} TrimmedLinesAreLines(pieces: seq<string>)
    requires forall i :: 0 <= i < |pieces| ==> '\n' !in pieces[i]
    ensures AllLines(TrimmedLines(pieces))
    decreases |pieces|
  {
    if |pieces| > 0 {
      var n := |pieces|;
      var init := pieces[..n - 1];
      assert forall i :: 0 <= i < |init| ==> init[i] == pieces[i];
      TrimmedLinesAreLines(init);
      var t := JsTrim(pieces[n - 1]);
      if t != "" {
        TrimmedLine(pieces[n - 1]);
        AllLinesSnoc(TrimmedLines(init), t);
      }
    }
  }

  /** A trimmed piece without a newline is a subscription line unless it is empty. */
  lemma TrimmedLine(piece: string)
    requires '\n' !in piece
    requires JsTrim(piece) != ""
    ensures IsLine(JsTrim(piece))
  {
    TrimAvoids(piece, IsJsSpace, '\n');
  }

  lemma AllLinesSnoc(xs: seq<string>, x: string)
    requires AllLines(xs) && IsLine(x)
    ensures AllLines(xs + [x])
  {
    assert forall i :: 0 <= i < |xs| ==> (xs + [x])[i] == xs[i];
  }

  /** The lines of any text are subscription lines. */
  lemma SubscriptionLinesShape(content: string)
    ensures AllLines(SubscriptionLines(content))
  {
    TrimmedLinesAreLines(Split(content, '\n'));
  }

  /** Empty text has no lines. */
  lemma SubscriptionLinesEmpty()
    ensures SubscriptionLines("") == []
  {
    var pieces := Split("", '\n');
    assert pieces == [""];
    TrimmedLinesLast(pieces);
    assert pieces[..0] == [];
    assert !TrimsNonEmpty(pieces[0]);
    assert TrimmedLines([]) == [];
  }

  /** Joining subscription lines with newlines and reading them back gives them back. */
  lemma SubscriptionLinesJoin(xs: seq<string>)
    requires AllLines(xs)
    ensures SubscriptionLines(Join(xs, '\n')) == xs
  {
    if |xs| == 0 {
      SubscriptionLinesEmpty();
    } else {
      SplitJoin(xs, '\n');
      TrimmedLinesFixed(xs);
    }
  }

  /** Converting a converted subscription changes nothing more. */
  lemma ProcessSubscriptionIdempotent(content: string, mode: string, codec: Codec)
    requires Lawful(codec)
    ensures ProcessSubscription(ProcessSubscription(content, mode, codec), mode, codec)
         == ProcessSubscription(content, mode, codec)
  {
    var out := ProcessLines(SubscriptionLines(content), mode, codec);
    SubscriptionLinesShape(content);
    ProcessLinesSettle(SubscriptionLines(content), mode, codec);
    SubscriptionLinesJoin(out);
    ProcessLinesFixed(out, mode, codec);
  }

  // ---------------------------------------------------------------------
  // Base64 subscriptions

  /** `atob` and `btoa`, given as functions; `atob` fails on text that is not base64. */
  datatype Base64 = Base64(decode: string -> Option<string>, encode: string -> string)

  /** The handler's test: a body without a newline and longer than 100 UTF-16
      code units is taken for base64. */
  predicate IsBase64Text(text: string)
  {
    '\n' !in text && JsLength(text) > 100
  }

  /** What `btoa` accepts: no code unit above U+00FF. A code point above
      U+FFFF is two surrogate code units, both above U+00FF, so this is the
      same as asking it of every character. `atob` always returns such text. */
  predicate IsLatin1(s: string)
  {
    forall i :: 0 <= i < |s| ==> s[i] <= '\U{00FF}'
  }

  /** The body of the response to a fetched subscription `text`; `None` is the
      error response sent when `atob` or `btoa` throws. */
  function Respond(text: string, mode: string, codec: Codec, b64: Base64): Option<string>
  {
    if IsBase64Text(text) then
      match b64.decode(text)
      case None => None
      case Some(content) =>
        var processed := ProcessSubscription(content, mode, codec);
        if IsLatin1(processed) then Some(b64.encode(processed)) else None
    else Some(ProcessSubscription(text, mode, codec))
  }

  /** A body with several lines, or of at most 100 code units, is converted as plain text. */
  lemma RespondPlain(text: string, mode: string, codec: Codec, b64: Base64)
    requires '\n' in text || JsLength(text) <= 100
    ensures Respond(text, mode, codec, b64) == Some(ProcessSubscription(text, mode, codec))
  {
  }

  /** A base64 body is answered in base64: `btoa` accepts the converted
      text, and decoding the answer gives the conversion of the decoded body. */
  lemma RespondBase64(text: string, mode: string, codec: Codec, b64: Base64)
    requires Lawful(codec)
    requires forall s :: IsLatin1(s) ==> b64.decode(b64.encode(s)) == Some(s)
    requires IsBase64Text(text) && b64.decode(text).Some? && IsLatin1(b64.decode(text).value)
    ensures Respond(text, mode, codec, b64).Some?
    ensures b64.decode(Respond(text, mode, codec, b64).value)
         == Some(ProcessSubscription(b64.decode(text).value, mode, codec))
  {
    ProcessSubscriptionLatin1(b64.decode(text).value, mode, codec);
  }

  /** A character the rebuilt parts cannot hold: neither a character of an
      encoding nor one of the delimiters `buildVlessUrl` and `join` write. */
  predicate Foreign(c: char)
  {
    !IsEncodedChar(c) && c !in "?#=&@:/" && c != '\n'
  }

  /** A foreign character missing from a line is missing from what the loop pushes for it. */
  lemma ProcessLineAvoids(line: string, mode: string, codec: Codec, c: char)
    requires Lawful(codec)
    requires Foreign(c) && c !in line
    requires ProcessLine(line, mode, codec).Some?
    ensures c !in ProcessLine(line, mode, codec).value
  {
    ProcessLineCases(line, mode, codec);
    if Dropped(line, codec) && mode != FilterMode {
      ParsedAvoids(line, codec, c);
      BuildAvoids(Cleaned(Parse(line, codec).value), codec, c);
    }
  }

  /** A foreign character missing from every input line is missing from every output line. */
  lemma {:induction false} ProcessLinesAvoid(lines: seq<string>, mode: string, codec: Codec, c: char)
    requires Lawful(codec)
    requires Foreign(c)
    requires forall i :: 0 <= i < |lines| ==> c !in lines[i]
    ensures forall i :: 0 <= i < |ProcessLines(lines, mode, codec)| ==> c !in ProcessLines(lines, mode, codec)[i]
    decreases |lines|
  {
    if |lines| > 0 {
      var n := |lines|;
      var init := lines[..n - 1];
      assert forall i :: 0 <= i < |init| ==> init[i] == lines[i];
      ProcessLinesAvoid(init, mode, codec, c);
      var rest := ProcessLines(init, mode, codec);
      match ProcessLine(lines[n - 1], mode, codec)
      case Some(r) =>
        ProcessLineAvoids(lines[n - 1], mode, codec, c);
        assert ProcessLines(lines, mode, codec) == rest + [r];
      case None =>
    }
  }

  /** Trimming and dropping empty pieces never introduces a character. */
  lemma {:induction false} TrimmedLinesAvoid(pieces: seq<string>, c: char)
    requires forall i :: 0 <= i < |pieces| ==> c !in pieces[i]
    ensures forall i :: 0 <= i < |TrimmedLines(pieces)| ==> c !in TrimmedLines(pieces)[i]
    decreases |pieces|
  {
    if |pieces| > 0 {
      var n := |pieces|;
      var init := pieces[..n - 1];
      assert forall i :: 0 <= i < |init| ==> init[i] == pieces[i];
      TrimmedLinesAvoid(init, c);
      TrimAvoids(pieces[n - 1], IsJsSpace, c);
      TrimmedLinesLast(pieces);
    }
  }

  /** A foreign character missing from a subscription is missing from its conversion. */
  lemma ProcessSubscriptionAvoids(content: string, mode: string, codec: Codec, c: char)
    requires Lawful(codec)
    requires Foreign(c) && c !in content
    ensures c !in ProcessSubscription(content, mode, codec)
  {
    SplitAvoids(content, '\n', c);
    TrimmedLinesAvoid(Split(content, '\n'), c);
    ProcessLinesAvoid(SubscriptionLines(content), mode, codec, c);
    JoinAvoids(ProcessLines(SubscriptionLines(content), mode, codec), '\n', c);
  }

  /** Converting text `btoa` accepts gives text `btoa` accepts. */
  lemma ProcessSubscriptionLatin1(content: string, mode: string, codec: Codec)
    requires Lawful(codec)
    requires IsLatin1(content)
    ensures IsLatin1(ProcessSubscription(content, mode, codec))
  {
    var out := ProcessSubscription(content, mode, codec);
    forall c | '\U{00FF}' < c
      ensures c !in out
    {
      HighForeign(c);
      assert c !in content;
      ProcessSubscriptionAvoids(content, mode, codec, c);
    }
    Latin1WithoutHigh(out);
  }

  /** Text holding no character above U+00FF is what `btoa` accepts. */
  lemma Latin1WithoutHigh(s: string)
    requires forall c :: '\U{00FF}' < c ==> c !in s
    ensures IsLatin1(s)
  {
    forall i | 0 <= i < |s|
      ensures s[i] <= '\U{00FF}'
    {
      assert s[i] in s;
    }
  }

  /** Every character above U+00FF is foreign. */
  lemma HighForeign(c: char)
    requires '\U{00FF}' < c
    ensures Foreign(c)
  {
    assert forall d :: d in "?#=&@:/" ==> d < '\U{00FF}';
  }

  /** A plain-text subscription made of one `vless://` line longer than 100
      code units is taken for base64 as well; `atob` rejects the `:` of the
      scheme, so the answer is the error response. */
  lemma RespondSingleLongLink(text: string, mode: string, codec: Codec, b64: Base64)
    requires forall t :: ':' in t ==> b64.decode(t).None?
    requires Scheme <= text && '\n' !in text && JsLength(text) > 100
    ensures Respond(text, mode, codec, b64).None?
  {
    assert text[5] == Scheme[5] == ':';
  }
}
