/**
 One `vless://` subscription line: parsing it into its parts, deciding
 whether its query parameters are ones the target client cannot handle,
 removing those parameters, and writing the line back out
 (script/youxuan.js, `parseVlessUrl`, `hasIncompatibleConfig`,
 `cleanVlessParams`, `buildVlessUrl`).
 */
module Vless {
  import opened Wrappers
  import opened Text
  import opened UriComponent

  const Scheme: string := "vless://"

  /** Name used when the line has no (or an empty) `#fragment`. */
  const DefaultName: string := "VLESS"

  /** Assigning this key on a plain JavaScript object sets its prototype
      instead of adding a property; with a string value nothing happens. */
  const ProtoKey: string := "__proto__"

  /** Query parameters as the JavaScript object holds them: the value of
      each key, and the keys in the order they were first assigned. */
  datatype Params = Params(order: seq<string>, table: map<string, string>)

  /** A parsed line: the three pieces the pattern captures verbatim, the
      decoded parameters and the decoded display name. */
  datatype Link = Link(uuid: string, server: string, port: string, params: Params, name: string)

  /** The capture groups of the line pattern
      `^vless://([^@]+)@([^:]+):(\d+)\?([^#]*)#?(.*)$`, with the
      fragment `None` when the line has no `#` after the `?`. */
  datatype RawMatch = RawMatch(uuid: string, server: string, port: string, query: string, fragment: Option<string>)

  // ---------------------------------------------------------------------
  // The parameter object

  const NoParams: Params := Params([], map[])

  /** Every key is listed once in the order, and the order lists only keys. */
  predicate ValidParams(ps: Params)
  {
    && Distinct(ps.order)
    && (forall k :: k in ps.order ==> k in ps.table)
    && (forall k :: k in ps.table ==> k in ps.order)
  }

  /** Property read `params[k]`. */
  function Get(ps: Params, k: string): Option<string>
  {
    if k in ps.table then Some(ps.table[k]) else None
  }

  /** The value `Object.entries` pairs with a listed key. */
  function ValueOf(ps: Params, k: string): string
  {
    if k in ps.table then ps.table[k] else ""
  }

  /** Overwrites the value of an existing key, which keeps its place, or adds a new last key. */
  function Put(ps: Params, k: string, v: string): Params
  {
    Params(if k in ps.table then ps.order else ps.order + [k], ps.table[k := v])
  }

  /** Putting a key keeps the order and the table in step, without repeats,
      and the key reads back as the value put. */
  lemma PutValid(ps: Params, k: string, v: string)
    requires ValidParams(ps)
    ensures ValidParams(Put(ps, k, v))
    ensures Get(Put(ps, k, v), k) == Some(v)
    ensures forall x :: x != k ==> Get(Put(ps, k, v), x) == Get(ps, x)
  {
    if k !in ps.table {
      DistinctSnoc(ps.order, k);
    }
  }

  /** Property assignment `params[k] = v` on a plain JavaScript object. */
  function Assign(ps: Params, k: string, v: string): Params
  {
    if k == ProtoKey then ps else Put(ps, k, v)
  }

  /** The keys of `xs` not in `drop`, in their order. */
  function Filter(xs: seq<string>, drop: set<string>): (r: seq<string>)
    ensures forall x :: x in r <==> x in xs && x !in drop
    ensures |r| <= |xs|
  {
    if |xs| == 0 then []
    else if xs[0] in drop then Filter(xs[1..], drop)
    else [xs[0]] + Filter(xs[1..], drop)
  }

  /** Filtering a list without repetitions gives a list without repetitions. */
  lemma {:induction false} FilterDistinct(xs: seq<string>, drop: set<string>)
    requires Distinct(xs)
    ensures Distinct(Filter(xs, drop))
    decreases |xs|
  {
    if |xs| > 0 {
      FilterDistinct(xs[1..], drop);
      if xs[0] !in drop {
        assert ([xs[0]] + Filter(xs[1..], drop))[1..] == Filter(xs[1..], drop);
      }
    }
  }

  /** Filtering by two key sets one after the other filters by their union. */
  lemma {:induction false} FilterFilter(xs: seq<string>, a: set<string>, b: set<string>)
    ensures Filter(Filter(xs, a), b) == Filter(xs, a + b)
    decreases |xs|
  {
    if |xs| > 0 {
      FilterFilter(xs[1..], a, b);
    }
  }

  /** Filtering out keys that do not occur changes nothing. */
  lemma {:induction false} FilterAbsent(xs: seq<string>, drop: set<string>)
    requires forall x :: x in drop ==> x !in xs
    ensures Filter(xs, drop) == xs
    decreases |xs|
  {
    if |xs| > 0 {
      assert xs[0] in xs;
      FilterAbsent(xs[1..], drop);
    }
  }

  /** `delete params[k]` for every `k` in `drop`. */
  function Without(ps: Params, drop: set<string>): Params
  {
    Params(Filter(ps.order, drop), ps.table - drop)
  }

  lemma WithoutValid(ps: Params, drop: set<string>)
    requires ValidParams(ps)
    ensures ValidParams(Without(ps, drop))
  {
    FilterDistinct(ps.order, drop);
  }

  /** The parameter objects parsing produces: valid, with non-empty keys
      and values, and without the `__proto__` key. */
  predicate WellFormedParams(ps: Params)
  {
    && ValidParams(ps)
    && "" !in ps.table && ProtoKey !in ps.table
    && forall k :: k in ps.table ==> ps.table[k] != ""
  }

  /** All keys but the last, with their values. */
  function Init(ps: Params): Params
    requires |ps.order| > 0
  {
    Params(ps.order[..|ps.order| - 1], ps.table - {ps.order[|ps.order| - 1]})
  }

  /** Dropping the last key keeps parameters well formed, and the last key
      is then absent. */
  lemma InitWellFormed(ps: Params)
    requires WellFormedParams(ps)
    requires |ps.order| > 0
    ensures WellFormedParams(Init(ps))
    ensures ps.order[|ps.order| - 1] !in Init(ps).table
  {
    var n := |ps.order|;
    var last := ps.order[n - 1];
    var init := Init(ps);
    assert ps.order == init.order + [last];
    DistinctNotBefore(ps.order, n - 1);
    DistinctInit(ps.order);
    assert forall x :: x in init.order <==> x in ps.order && x != last;
  }

  /** Well-formed parameters are their `Init` with the last key put back in. */
  lemma InitPut(ps: Params)
    requires WellFormedParams(ps)
    requires |ps.order| > 0
    ensures var last := ps.order[|ps.order| - 1];
      Put(Init(ps), last, ps.table[last]) == ps
  {
    var n := |ps.order|;
    var last := ps.order[n - 1];
    var init := Init(ps);
    InitWellFormed(ps);
    assert ps.order == init.order + [last];
    assert init.table[last := ps.table[last]] == ps.table;
  }

  // ---------------------------------------------------------------------
  // The line pattern

  /** Characters `.` does not match in a JavaScript regular expression. */
  predicate IsLineTerminator(c: char)
  {
    c == '\n' || c == '\r' || c == '\U{2028}' || c == '\U{2029}'
  }

  predicate NoLineTerminator(s: string)
  {
    forall i :: 0 <= i < |s| ==> !IsLineTerminator(s[i])
  }

  /** Length of the longest prefix of ASCII digits (what `\d+` consumes). */
  function DigitRun(s: string): (n: nat)
    ensures n <= |s| && forall j :: 0 <= j < n ==> IsDigit(s[j])
    ensures n < |s| ==> !IsDigit(s[n])
  {
    SpanFrom(s, IsDigit, 0)
  }

  function FragmentSuffix(fragment: Option<string>): string
  {
    match fragment
    case None => ""
    case Some(f) => "#" + f
  }

  function FromQuery(m: RawMatch): string
  {
    m.query + FragmentSuffix(m.fragment)
  }

  function FromPort(m: RawMatch): string
  {
    m.port + ("?" + FromQuery(m))
  }

  function FromServer(m: RawMatch): string
  {
    m.server + (":" + FromPort(m))
  }

  function FromUser(m: RawMatch): string
  {
    m.uuid + ("@" + FromServer(m))
  }

  /** The line a match was taken from. */
  function Render(m: RawMatch): string
  {
    Scheme + FromUser(m)
  }

  /** What each capture group of the pattern can hold. */
  predicate TailShaped(m: RawMatch)
  {
    && '#' !in m.query
    && (m.fragment.Some? ==> NoLineTerminator(m.fragment.value))
  }

  predicate WellShaped(m: RawMatch)
  {
    && m.uuid != "" && '@' !in m.uuid
    && m.server != "" && ':' !in m.server
    && m.port != "" && AllDigits(m.port)
    && TailShaped(m)
  }

  /** `([^#]*)#?(.*)$` on what follows the `?`: the query runs to the
      first `#`, and the fragment after it must not hold a line terminator. */
  function MatchQuery(uuid: string, server: string, port: string, tail: string): Option<RawMatch>
  {
    match Cut(tail, '#')
    case None => Some(RawMatch(uuid, server, port, tail, None))
    case Some((query, fragment)) =>
      if NoLineTerminator(fragment) then Some(RawMatch(uuid, server, port, query, Some(fragment))) else None
  }

  /** `(\d+)\?`: the digits at the start of `s` and what follows the `?` after them. */
  function CutPort(s: string): (r: Option<(string, string)>)
    ensures r.Some? ==> r.value.0 != "" && AllDigits(r.value.0) && s == r.value.0 + ("?" + r.value.1)
  {
    var k := DigitRun(s);
    if k == 0 || k == |s| || s[k] != '?' then None
    else
      assert s == s[..k] + ("?" + s[k + 1..]);
      assert forall j :: 0 <= j < k ==> s[..k][j] == s[j];
      Some((s[..k], s[k + 1..]))
  }

  function MatchPort(uuid: string, server: string, afterColon: string): Option<RawMatch>
  {
    match CutPort(afterColon)
    case None => None
    case Some((port, tail)) => MatchQuery(uuid, server, port, tail)
  }

  /** `([^:]+):` and the rest. */
  function MatchServer(uuid: string, afterAt: string): Option<RawMatch>
  {
    match Cut(afterAt, ':')
    case None => None
    case Some((server, afterColon)) => if server == "" then None else MatchPort(uuid, server, afterColon)
  }

  /** `([^@]+)@` and the rest. */
  function MatchUser(rest: string): Option<RawMatch>
  {
    match Cut(rest, '@')
    case None => None
    case Some((uuid, afterAt)) => if uuid == "" then None else MatchServer(uuid, afterAt)
  }

  /** The regular expression of `parseVlessUrl`, anchored at `^vless://`. */
  function MatchVless(line: string): Option<RawMatch>
  {
    match StripPrefix(line, Scheme)
    case None => None
    case Some(rest) => MatchUser(rest)
  }

  lemma MatchQuerySound(uuid: string, server: string, port: string, tail: string)
    requires MatchQuery(uuid, server, port, tail).Some?
    ensures var m := MatchQuery(uuid, server, port, tail).value;
      m.uuid == uuid && m.server == server && m.port == port && TailShaped(m) && FromQuery(m) == tail
  {
  }

  lemma MatchPortSound(uuid: string, server: string, afterColon: string)
    requires MatchPort(uuid, server, afterColon).Some?
    ensures var m := MatchPort(uuid, server, afterColon).value;
      && m.uuid == uuid && m.server == server && m.port != "" && AllDigits(m.port)
      && TailShaped(m) && FromPort(m) == afterColon
  {
    var (port, tail) := CutPort(afterColon).value;
    MatchQuerySound(uuid, server, port, tail);
  }

  lemma MatchServerSound(uuid: string, afterAt: string)
    requires MatchServer(uuid, afterAt).Some?
    ensures var m := MatchServer(uuid, afterAt).value;
      && m.uuid == uuid && m.server != "" && ':' !in m.server && m.port != "" && AllDigits(m.port)
      && TailShaped(m) && FromServer(m) == afterAt
  {
    var (server, afterColon) := Cut(afterAt, ':').value;
    MatchPortSound(uuid, server, afterColon);
  }

  lemma MatchUserSound(rest: string)
    requires MatchUser(rest).Some?
    ensures var m := MatchUser(rest).value;
      WellShaped(m) && FromUser(m) == rest
  {
    var (uuid, afterAt) := Cut(rest, '@').value;
    MatchServerSound(uuid, afterAt);
  }

  /** A match is well shaped and renders back to the very line it was taken from. */
  lemma MatchSound(line: string)
    requires MatchVless(line).Some?
    ensures WellShaped(MatchVless(line).value) && Render(MatchVless(line).value) == line
  {
    MatchUserSound(StripPrefix(line, Scheme).value);
  }

  lemma DigitRunPrefix(p: string, t: string)
    requires AllDigits(p)
    requires t == [] || !IsDigit(t[0])
    ensures DigitRun(p + t) == |p|
  {
    var s := p + t;
    assert forall j :: 0 <= j < |p| ==> s[j] == p[j];
    assert |p| < |s| ==> s[|p|] == t[0];
  }

  /** Digits followed by something other than a digit: the port is cut
      exactly there, and only when a `?` follows. */
  lemma CutPortAt(port: string, t: string)
    requires port != "" && AllDigits(port)
    requires t == [] || !IsDigit(t[0])
    ensures CutPort(port + t) == if t != [] && t[0] == '?' then Some((port, t[1..])) else None
  {
    var s := port + t;
    DigitRunPrefix(port, t);
    assert s[..|port|] == port;
    if t != [] {
      assert s[|port|] == t[0];
      assert s[|port| + 1..] == t[1..];
    }
  }

  /** Everything up to the port decides the match the same way whatever follows it. */
  lemma MatchAuthority(uuid: string, server: string, port: string, t: string)
    requires uuid != "" && '@' !in uuid
    requires server != "" && ':' !in server
    requires port != "" && AllDigits(port)
    requires t == [] || !IsDigit(t[0])
    ensures MatchVless(Scheme + (uuid + ("@" + (server + (":" + (port + t))))))
         == if t != [] && t[0] == '?' then MatchQuery(uuid, server, port, t[1..]) else None
  {
    var afterAt := server + (":" + (port + t));
    StripPrefixJoined(Scheme, uuid + ("@" + afterAt));
    CutJoined(uuid, '@', afterAt);
    CutJoined(server, ':', port + t);
    CutPortAt(port, t);
  }

  /** The query and fragment groups are found again in what they render to. */
  lemma MatchQueryRender(m: RawMatch)
    requires TailShaped(m)
    ensures MatchQuery(m.uuid, m.server, m.port, FromQuery(m)) == Some(m)
  {
    match m.fragment
    case None =>
      assert FromQuery(m) == m.query;
    case Some(f) =>
      CutJoined(m.query, '#', f);
  }

  /** Conversely, a well-shaped match is found again in its rendering:
      a line matches exactly when it is the rendering of a well-shaped
      match, and then of that one only. */
  lemma MatchRender(m: RawMatch)
    requires WellShaped(m)
    ensures MatchVless(Render(m)) == Some(m)
  {
    var t := "?" + FromQuery(m);
    MatchAuthority(m.uuid, m.server, m.port, t);
    assert t[1..] == FromQuery(m);
    MatchQueryRender(m);
  }

  // ---------------------------------------------------------------------
  // Parsing

  /** `const [key, value] = pair.split('=')`: the text before the first `=`
      and the text between the first and second `=` (empty when there is no `=`). */
  function PairOf(piece: string): (string, string)
  {
    var parts := Split(piece, '=');
    (parts[0], if |parts| > 1 then parts[1] else "")
  }

  /** Without a second `=`, a piece splits into its key and its value. */
  lemma PairOfKeyValue(k: string, v: string)
    requires '=' !in k && '=' !in v
    ensures PairOf(k + "=" + v) == (k, v)
  {
    Text.SplitJoin([k, v], '=');
    assert Text.Join([k, v], '=') == k + "=" + v;
  }

  /** A value is cut at a second `=`: whatever follows it is ignored. */
  lemma PairOfCutsAtSecondEquals(k: string, v: string, rest: string)
    requires '=' !in k && '=' !in v
    ensures PairOf(k + ("=" + (v + ("=" + rest)))) == (k, v)
  {
    Text.SplitAt(k, '=', v + ("=" + rest));
    Text.SplitAt(v, '=', rest);
  }

  /** A piece without `=` has an empty value, so it is skipped. */
  lemma PairOfWithoutEquals(piece: string)
    requires '=' !in piece
    ensures PairOf(piece) == (piece, "")
  {
  }

  /** One step of the loop over `queryString.split('&')`: pairs with an
      empty key or value are skipped; a malformed escape makes the whole
      parse fail, as the thrown error is caught by `parseVlessUrl`. */
  function AddPiece(ps: Params, piece: string, codec: Codec): Option<Params>
  {
    var (k, v) := PairOf(piece);
    if k == "" || v == "" then Some(ps)
    else
      match (codec.decode(k), codec.decode(v))
      case (Some(dk), Some(dv)) => Some(Assign(ps, dk, dv))
      case _ => None
  }

  /** The loop over all pieces, in order; a later assignment to a key overwrites an earlier one. */
  function DecodePieces(pieces: seq<string>, codec: Codec): Option<Params>
    decreases |pieces|
  {
    if |pieces| == 0 then Some(NoParams)
    else
      match DecodePieces(pieces[..|pieces| - 1], codec)
      case None => None
      case Some(ps) => AddPiece(ps, pieces[|pieces| - 1], codec)
  }

  function ParseQuery(query: string, codec: Codec): Option<Params>
  {
    if query == "" then Some(NoParams) else DecodePieces(Split(query, '&'), codec)
  }

  /** The fragment, or `VLESS` when it is missing or empty (`name || 'VLESS'`). */
  function NameText(fragment: Option<string>): (r: string)
    ensures r != ""
  {
    if fragment.Some? && fragment.value != "" then fragment.value else DefaultName
  }

  /** `parseVlessUrl`: the pattern, then the query pairs, then the name;
      a malformed escape anywhere makes it fail. */
  function Parse(line: string, codec: Codec): Option<Link>
  {
    match MatchVless(line)
    case None => None
    case Some(m) =>
      match ParseQuery(m.query, codec)
      case None => None
      case Some(ps) =>
        match codec.decode(NameText(m.fragment))
        case None => None
        case Some(name) => Some(Link(m.uuid, m.server, m.port, ps, name))
  }

  /** `Parse` stage by stage: the match, its query, its name. */
  lemma ParseStages(line: string, codec: Codec, m: RawMatch, ps: Params, name: string)
    requires MatchVless(line) == Some(m)
    requires ParseQuery(m.query, codec) == Some(ps)
    requires codec.decode(NameText(m.fragment)) == Some(name)
    ensures Parse(line, codec) == Some(Link(m.uuid, m.server, m.port, ps, name))
  {
  }

  /** A parsed line starts with `vless://<uuid>@<server>:<port>?`, the
      captured pieces verbatim, so a line without a `?` right after the
      port never parses. */
  lemma ParseShape(line: string, codec: Codec)
    requires Parse(line, codec).Some?
    ensures var link := Parse(line, codec).value;
      && Authority(link) + "?" <= line
      && link.uuid != "" && '@' !in link.uuid && link.server != "" && ':' !in link.server
      && link.port != "" && AllDigits(link.port)
      && ValidParams(link.params) && ProtoKey !in link.params.table
  {
    var m := MatchVless(line).value;
    var link := Parse(line, codec).value;
    assert link.uuid == m.uuid && link.server == m.server && link.port == m.port;
    assert ParseQuery(m.query, codec) == Some(link.params);
    MatchSound(line);
    assert line == Authority(link) + ("?" + FromQuery(m)) by {
      AuthorityThen(link, "?" + FromQuery(m));
    }
    PrefixOfJoin(Authority(link), "?", FromQuery(m));
    if m.query != "" {
      DecodePiecesValid(Split(m.query, '&'), codec);
    }
  }

  /** Parsing yields a consistent parameter object, never holding `__proto__`. */
  lemma {:induction false} DecodePiecesValid(pieces: seq<string>, codec: Codec)
    requires DecodePieces(pieces, codec).Some?
    ensures ValidParams(DecodePieces(pieces, codec).value)
    ensures ProtoKey !in DecodePieces(pieces, codec).value.table
    decreases |pieces|
  {
    if |pieces| > 0 {
      var ps := DecodePieces(pieces[..|pieces| - 1], codec).value;
      DecodePiecesValid(pieces[..|pieces| - 1], codec);
      var (k, v) := PairOf(pieces[|pieces| - 1]);
      if k != "" && v != "" {
        var dk := codec.decode(k).value;
        if dk != ProtoKey {
          PutValid(ps, dk, codec.decode(v).value);
        }
      }
    }
  }

  /** One more piece never moves or removes a key: the keys so far stay
      first, and at most one new key, not assigned before, comes after them. */
  lemma DecodePiecesOrderGrows(pieces: seq<string>, piece: string, codec: Codec)
    requires DecodePieces(pieces + [piece], codec).Some?
    ensures DecodePieces(pieces, codec).Some?
    ensures var before := DecodePieces(pieces, codec).value;
            var after := DecodePieces(pieces + [piece], codec).value;
            || after.order == before.order
            || (after.order == before.order + [after.order[|before.order|]]
                && after.order[|before.order|] !in before.table)
  {
    assert (pieces + [piece])[..|pieces|] == pieces;
  }

  /** The keys of a prefix of the pieces lead the keys of all of them, in
      the same order: each key keeps the place of its first assignment. */
  lemma {:induction false} DecodePiecesOrderPrefix(pieces: seq<string>, n: nat, codec: Codec)
    requires n <= |pieces|
    requires DecodePieces(pieces, codec).Some?
    ensures DecodePieces(pieces[..n], codec).Some?
    ensures DecodePieces(pieces[..n], codec).value.order <= DecodePieces(pieces, codec).value.order
    decreases |pieces| - n
  {
    if n < |pieces| {
      var m := |pieces| - 1;
      var init := pieces[..m];
      assert init + [pieces[m]] == pieces;
      DecodePiecesOrderGrows(init, pieces[m], codec);
      DecodePiecesOrderPrefix(init, n, codec);
      assert init[..n] == pieces[..n];
      var a := DecodePieces(pieces[..n], codec).value.order;
      var b := DecodePieces(init, codec).value.order;
      var c := DecodePieces(pieces, codec).value.order;
      assert a == b[..|a|] && b == c[..|b|];
      assert a == c[..|a|];
    } else {
      assert pieces[..n] == pieces;
    }
  }

  /** Reading one more encoded pair assigns its key: a key already present
      keeps its place and takes the new value, a new key goes last, and
      every other key keeps its value. */
  lemma DecodePiecesAssign(pieces: seq<string>, k: string, v: string, codec: Codec)
    requires Lawful(codec)
    requires k != "" && v != "" && k != ProtoKey
    requires DecodePieces(pieces, codec).Some?
    ensures DecodePieces(pieces + [EncodePair(k, v, codec)], codec).Some?
    ensures var before := DecodePieces(pieces, codec).value;
            var after := DecodePieces(pieces + [EncodePair(k, v, codec)], codec).value;
            && after.order == (if k in before.table then before.order else before.order + [k])
            && Get(after, k) == Some(v)
            && forall x :: x != k ==> Get(after, x) == Get(before, x)
  {
    assert (pieces + [EncodePair(k, v, codec)])[..|pieces|] == pieces;
    AddEncodedPair(DecodePieces(pieces, codec).value, k, v, codec);
  }

  /** Under the codec laws, every pair a parse keeps has a non-empty key and value. */
  lemma {:induction false} DecodePiecesWellFormed(pieces: seq<string>, codec: Codec)
    requires Lawful(codec)
    requires DecodePieces(pieces, codec).Some?
    ensures WellFormedParams(DecodePieces(pieces, codec).value)
    decreases |pieces|
  {
    DecodePiecesValid(pieces, codec);
    if |pieces| > 0 {
      DecodePiecesWellFormed(pieces[..|pieces| - 1], codec);
    }
  }

  /** The links parsing produces: what `buildVlessUrl` can write back. */
  predicate WellFormedLink(link: Link)
  {
    && link.uuid != "" && '@' !in link.uuid
    && link.server != "" && ':' !in link.server
    && link.port != "" && AllDigits(link.port)
    && WellFormedParams(link.params)
    && link.name != ""
  }

  /** Under the codec laws, a parsed link is well formed. */
  lemma ParseWellFormed(line: string, codec: Codec)
    requires Lawful(codec)
    requires Parse(line, codec).Some?
    ensures WellFormedLink(Parse(line, codec).value)
  {
    ParseShape(line, codec);
    var m := MatchVless(line).value;
    if m.query != "" {
      DecodePiecesWellFormed(Split(m.query, '&'), codec);
    }
  }

  // ---------------------------------------------------------------------
  // Incompatible parameters

  /** JavaScript truthiness of a property read: present and non-empty. */
  predicate Truthy(o: Option<string>)
  {
    o.Some? && o.value != ""
  }

  predicate BadEncryption(o: Option<string>)
  {
    Truthy(o) && (Contains(o.value, "mlkem") || Contains(o.value, "plus") || JsLength(o.value) > 100)
  }

  predicate BadFlow(o: Option<string>)
  {
    Truthy(o) && (Contains(o.value, "xtls") || Contains(o.value, "rprx"))
  }

  /** `hasIncompatibleConfig`. */
  predicate IsIncompatible(ps: Params)
  {
    BadEncryption(Get(ps, "encryption")) || BadFlow(Get(ps, "flow")) || Truthy(Get(ps, "reality"))
  }

  /** `{key}` when `cond` holds, nothing otherwise. */
  function Flag(key: string, cond: bool): set<string>
  {
    if cond then {key} else {}
  }

  /** The keys `cleanVlessParams` deletes from `ps`. */
  function Offending(ps: Params): set<string>
  {
    Flag("encryption", BadEncryption(Get(ps, "encryption")))
    + Flag("flow", BadFlow(Get(ps, "flow")))
    + Flag("reality", Truthy(Get(ps, "reality")))
  }

  /** `if (cond) delete params[key]`. */
  function DeleteIf(ps: Params, key: string, cond: bool): Params
  {
    Without(ps, Flag(key, cond))
  }

  /** Deleting some keys leaves the others readable as before. */
  lemma WithoutGet(ps: Params, drop: set<string>, k: string)
    ensures Get(Without(ps, drop), k) == if k in drop then None else Get(ps, k)
  {
  }

  /** Two deletions one after the other are one deletion of both key sets. */
  lemma WithoutWithout(ps: Params, a: set<string>, b: set<string>)
    ensures Without(Without(ps, a), b) == Without(ps, a + b)
  {
    FilterFilter(ps.order, a, b);
    assert ps.table - a - b == ps.table - (a + b);
  }

  /** The three conditional deletions, whatever their conditions. */
  lemma DeleteThree(ps: Params, e: bool, f: bool, g: bool)
    ensures var a := DeleteIf(ps, "encryption", e);
      && Get(a, "flow") == Get(ps, "flow")
      && Get(DeleteIf(a, "flow", f), "reality") == Get(ps, "reality")
      && DeleteIf(DeleteIf(a, "flow", f), "reality", g)
         == Without(ps, Flag("encryption", e) + Flag("flow", f) + Flag("reality", g))
  {
    var a := DeleteIf(ps, "encryption", e);
    WithoutGet(ps, Flag("encryption", e), "flow");
    WithoutGet(a, Flag("flow", f), "reality");
    WithoutGet(ps, Flag("encryption", e), "reality");
    WithoutWithout(ps, Flag("encryption", e), Flag("flow", f));
    WithoutWithout(ps, Flag("encryption", e) + Flag("flow", f), Flag("reality", g));
  }

  /** `cleanVlessParams`: deletes the offending `encryption`, then the
      offending `flow`, then a truthy `reality`. The result is compatible,
      and the three deletions amount to one deletion of the offending keys
      of the input: every other key keeps its value and its place. */
  function Clean(ps: Params): (r: Params)
    ensures !IsIncompatible(r)
    ensures r == Without(ps, Offending(ps))
  {
    var a := DeleteIf(ps, "encryption", BadEncryption(Get(ps, "encryption")));
    var b := DeleteIf(a, "flow", BadFlow(Get(a, "flow")));
    var r := DeleteIf(b, "reality", Truthy(Get(b, "reality")));
    CleanSteps(ps);
    r
  }

  lemma CleanSteps(ps: Params)
    ensures var a := DeleteIf(ps, "encryption", BadEncryption(Get(ps, "encryption")));
      var b := DeleteIf(a, "flow", BadFlow(Get(a, "flow")));
      var r := DeleteIf(b, "reality", Truthy(Get(b, "reality")));
      r == Without(ps, Offending(ps)) && !IsIncompatible(r)
  {
    var e := BadEncryption(Get(ps, "encryption"));
    var f := BadFlow(Get(ps, "flow"));
    var g := Truthy(Get(ps, "reality"));
    DeleteThree(ps, e, f, g);
    var r := Without(ps, Offending(ps));
    WithoutGet(ps, Offending(ps), "encryption");
    WithoutGet(ps, Offending(ps), "flow");
    WithoutGet(ps, Offending(ps), "reality");
  }

  /** Every key other than the three offending ones keeps its value. */
  lemma CleanKeepsOthers(ps: Params, k: string)
    requires k != "encryption" && k != "flow" && k != "reality"
    ensures Get(Clean(ps), k) == Get(ps, k)
  {
  }

  /** Cleaning changes the parameters exactly when they are incompatible. */
  lemma CleanChangesIffIncompatible(ps: Params)
    ensures Clean(ps) == ps <==> !IsIncompatible(ps)
  {
    if !IsIncompatible(ps) {
      assert Offending(ps) == {};
      FilterAbsent(ps.order, {});
      assert ps.table - {} == ps.table;
    }
  }

  /** Cleaning twice is cleaning once. */
  lemma CleanIdempotent(ps: Params)
    ensures Clean(Clean(ps)) == Clean(ps)
  {
    CleanChangesIffIncompatible(Clean(ps));
  }

  lemma CleanWellFormed(ps: Params)
    requires WellFormedParams(ps)
    ensures WellFormedParams(Clean(ps))
  {
    WithoutValid(ps, Offending(ps));
  }

  // ---------------------------------------------------------------------
  // Writing a line back

  function EncodePair(k: string, v: string, codec: Codec): string
  {
    codec.encode(k) + "=" + codec.encode(v)
  }

  /** `Object.entries(params)` mapped to `key=value` pieces. */
  function EncodePairs(ps: Params, codec: Codec): seq<string>
  {
    seq(|ps.order|, i requires 0 <= i < |ps.order| => EncodePair(ps.order[i], ValueOf(ps, ps.order[i]), codec))
  }

  function Authority(link: Link): string
  {
    Scheme + (link.uuid + ("@" + (link.server + (":" + link.port))))
  }

  /** `?` and the encoded pairs joined by `&`, or nothing when no parameter remains. */
  function QueryPart(ps: Params, codec: Codec): string
  {
    if |ps.order| > 0 then "?" + Join(EncodePairs(ps, codec), '&') else ""
  }

  /** `#` and the encoded name, or nothing when the name is empty. */
  function HashPart(name: string, codec: Codec): string
  {
    if name != "" then "#" + codec.encode(name) else ""
  }

  /** `buildVlessUrl`. uuid, server and port are written as they were captured. */
  function Build(link: Link, codec: Codec): (r: string)
    ensures Authority(link) <= r
  {
    Authority(link) + (QueryPart(link.params, codec) + HashPart(link.name, codec))
  }

  /** What follows the authority can be regrouped with the port. */
  lemma AuthorityThen(link: Link, t: string)
    ensures Authority(link) + t == Scheme + (link.uuid + ("@" + (link.server + (":" + (link.port + t)))))
  {
  }

  /** One encoded pair, read back by one step of the parsing loop. */
  lemma AddEncodedPair(ps: Params, k: string, v: string, codec: Codec)
    requires Lawful(codec)
    requires k != "" && v != "" && k != ProtoKey
    ensures AddPiece(ps, EncodePair(k, v, codec), codec) == Some(Put(ps, k, v))
  {
    EncodedAvoids(codec, k, '=');
    EncodedAvoids(codec, v, '=');
    PairOfKeyValue(codec.encode(k), codec.encode(v));
    EncodeNonEmpty(codec, k);
    EncodeNonEmpty(codec, v);
  }

  /** The parsing loop over the first `n` pieces is the loop over the first
      `n - 1` pieces followed by one more step. */
  lemma DecodeLast(pieces: seq<string>, n: nat, codec: Codec)
    requires 0 < n <= |pieces|
    ensures DecodePieces(pieces[..n], codec)
         == match DecodePieces(pieces[..n - 1], codec)
            case None => None
            case Some(ps) => AddPiece(ps, pieces[n - 1], codec)
  {
    assert pieces[..n][..n - 1] == pieces[..n - 1];
  }

  /** The encoded pairs of `Init(ps)` are those of `ps` but the last. */
  lemma EncodePairsInit(ps: Params, codec: Codec)
    requires ValidParams(ps)
    requires |ps.order| > 0
    ensures EncodePairs(ps, codec)[..|ps.order| - 1] == EncodePairs(Init(ps), codec)
  {
    var n := |ps.order|;
    DistinctNotBefore(ps.order, n - 1);
    forall i | 0 <= i < n - 1
      ensures ValueOf(Init(ps), ps.order[i]) == ValueOf(ps, ps.order[i])
    {
      assert ps.order[i] in ps.order[..n - 1];
    }
  }

  /** Reading the last encoded pair after the others puts the last key back. */
  lemma DecodeEncodedLast(ps: Params, codec: Codec)
    requires Lawful(codec)
    requires WellFormedParams(ps)
    requires |ps.order| > 0
    requires DecodePieces(EncodePairs(Init(ps), codec), codec) == Some(Init(ps))
    ensures DecodePieces(EncodePairs(ps, codec), codec) == Some(ps)
  {
    var n := |ps.order|;
    var pieces := EncodePairs(ps, codec);
    var last := ps.order[n - 1];
    EncodePairsInit(ps, codec);
    DecodeLast(pieces, n, codec);
    assert pieces[..n] == pieces;
    assert pieces[n - 1] == EncodePair(last, ps.table[last], codec);
    AddEncodedPair(Init(ps), last, ps.table[last], codec);
    InitPut(ps);
  }

  /** Decoding the encoded pairs of well-formed parameters gives them back. */
  lemma {:induction false} DecodeEncodedPairs(ps: Params, codec: Codec)
    requires Lawful(codec)
    requires WellFormedParams(ps)
    ensures DecodePieces(EncodePairs(ps, codec), codec) == Some(ps)
    decreases |ps.order|
  {
    if |ps.order| == 0 {
      assert ps.table.Keys == {};
      assert ps == NoParams;
    } else {
      InitWellFormed(ps);
      DecodeEncodedPairs(Init(ps), codec);
      DecodeEncodedLast(ps, codec);
    }
  }

  /** The encoded query holds only encoded characters, `=` and `&`. */
  lemma EncodedQueryAvoids(ps: Params, codec: Codec, c: char)
    requires Lawful(codec)
    requires !IsEncodedChar(c) && c != '=' && c != '&'
    ensures c !in Join(EncodePairs(ps, codec), '&')
  {
    var pieces := EncodePairs(ps, codec);
    forall i | 0 <= i < |pieces|
      ensures c !in pieces[i]
    {
      EncodedAvoids(codec, ps.order[i], c);
      EncodedAvoids(codec, ValueOf(ps, ps.order[i]), c);
    }
    JoinAvoids(pieces, '&', c);
  }

  /** The encoded query of well-formed, non-empty parameters reads back as those parameters. */
  lemma EncodedQueryParses(ps: Params, codec: Codec)
    requires Lawful(codec)
    requires WellFormedParams(ps)
    requires |ps.order| > 0
    ensures ParseQuery(Join(EncodePairs(ps, codec), '&'), codec) == Some(ps)
  {
    var pieces := EncodePairs(ps, codec);
    forall i | 0 <= i < |pieces|
      ensures '&' !in pieces[i]
    {
      EncodedAvoids(codec, ps.order[i], '&');
      EncodedAvoids(codec, ValueOf(ps, ps.order[i]), '&');
    }
    SplitJoin(pieces, '&');
    JoinStartsWithFirst(pieces, '&');
    EncodeNonEmpty(codec, ps.order[0]);
    DecodeEncodedPairs(ps, codec);
  }

  /** The capture groups a written line with at least one parameter shows. */
  function BuildMatch(link: Link, codec: Codec): RawMatch
  {
    RawMatch(link.uuid, link.server, link.port, Join(EncodePairs(link.params, codec), '&'),
             if link.name != "" then Some(codec.encode(link.name)) else None)
  }

  lemma BuildRendersMatch(link: Link, codec: Codec)
    requires |link.params.order| > 0
    ensures Build(link, codec) == Render(BuildMatch(link, codec))
  {
    var m := BuildMatch(link, codec);
    assert QueryPart(link.params, codec) + HashPart(link.name, codec) == "?" + FromQuery(m);
    AuthorityThen(link, "?" + FromQuery(m));
  }

  lemma BuildMatchShaped(link: Link, codec: Codec)
    requires Lawful(codec)
    requires link.uuid != "" && '@' !in link.uuid
    requires link.server != "" && ':' !in link.server
    requires link.port != "" && AllDigits(link.port)
    ensures WellShaped(BuildMatch(link, codec))
  {
    EncodedQueryAvoids(link.params, codec, '#');
    var f := codec.encode(link.name);
    forall i | 0 <= i < |f|
      ensures !IsLineTerminator(f[i])
    {
      assert IsEncodedChar(f[i]);
    }
  }

  /** A written line with at least one parameter matches the line pattern. */
  lemma BuildMatches(link: Link, codec: Codec)
    requires Lawful(codec)
    requires link.uuid != "" && '@' !in link.uuid
    requires link.server != "" && ':' !in link.server
    requires link.port != "" && AllDigits(link.port)
    requires |link.params.order| > 0
    ensures MatchVless(Build(link, codec)) == Some(BuildMatch(link, codec))
  {
    BuildRendersMatch(link, codec);
    BuildMatchShaped(link, codec);
    MatchRender(BuildMatch(link, codec));
  }

  /** Round trip: with at least one parameter, parsing a written line gives
      back the same uuid, server, port, parameters and name. */
  lemma BuildParseRoundTrip(link: Link, codec: Codec)
    requires Lawful(codec)
    requires WellFormedLink(link)
    requires |link.params.order| > 0
    ensures Parse(Build(link, codec), codec) == Some(link)
  {
    var m := BuildMatch(link, codec);
    BuildMatches(link, codec);
    EncodedQueryParses(link.params, codec);
    EncodeNonEmpty(codec, link.name);
    assert NameText(m.fragment) == codec.encode(link.name);
    ParseStages(Build(link, codec), codec, m, link.params, link.name);
  }

  /** Without parameters the `?` is omitted, so the written line no longer parses. */
  lemma BuildWithoutParamsDoesNotParse(link: Link, codec: Codec)
    requires Lawful(codec)
    requires WellFormedLink(link)
    requires |link.params.order| == 0
    ensures Parse(Build(link, codec), codec).None?
  {
    var t := "#" + codec.encode(link.name);
    AuthorityThen(link, t);
    assert Build(link, codec) == Authority(link) + t;
    MatchAuthority(link.uuid, link.server, link.port, t);
  }

  lemma DefaultNameUnreserved()
    ensures AllUnreserved(DefaultName)
  {
    forall i | 0 <= i < |DefaultName|
      ensures 'A' <= DefaultName[i] <= 'Z'
    {
    }
  }

  /** A link written with an empty name, so without `#`, reads back with the default name `VLESS`. */
  lemma BuildUnnamedReadsDefault(link: Link, codec: Codec)
    requires Lawful(codec)
    requires WellFormedLink(link.(name := DefaultName))
    requires |link.params.order| > 0
    requires link.name == ""
    ensures Parse(Build(link, codec), codec) == Some(link.(name := DefaultName))
  {
    var m := BuildMatch(link, codec);
    BuildMatches(link, codec);
    EncodedQueryParses(link.params, codec);
    assert NameText(m.fragment) == DefaultName;
    DefaultNameUnreserved();
    DecodeUnreserved(codec, DefaultName);
    ParseStages(Build(link, codec), codec, m, link.params, DefaultName);
  }

  /** Any line that parses without a fragment, or with an empty one, is named `VLESS`. */
  lemma ParseUnnamedReadsDefault(line: string, codec: Codec)
    requires Lawful(codec)
    requires Parse(line, codec).Some?
    requires MatchVless(line).Some? && MatchVless(line).value.fragment in {None, Some("")}
    ensures Parse(line, codec).value.name == DefaultName
  {
    assert NameText(MatchVless(line).value.fragment) == DefaultName;
    DefaultNameUnreserved();
    DecodeUnreserved(codec, DefaultName);
  }
}
