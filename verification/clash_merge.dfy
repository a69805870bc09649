/**
 `merge_clash_configs` of update_nodes.py: the proxies of several parsed
 Clash configurations are concatenated into one configuration, a colliding
 proxy name `n` is renamed to the first free one of `n_1`, `n_2`, …, and two
 fixed proxy groups and one rule are added.

 YAML values the merge only carries along are of an arbitrary type `V`.
 */
module ClashMerge {
  import opened Wrappers
  import opened Text

  /** A proxy entry that is a mapping with a `name` key: the name and everything else. */
  datatype Proxy<V> = Proxy(name: string, fields: V)

  /** An element of a `proxies` list: a named proxy, or anything else
      (a mapping without `name`, a scalar, a list), which the merge skips. */
  datatype Entry<V> = Named(proxy: Proxy<V>) | Unnamed(value: V)

  /** The `proxies` key of a configuration: missing, a list, or some other value. */
  datatype ProxiesField<V> = Missing | ProxyList(entries: seq<Entry<V>>) | NotAList(value: V)

  /** A parsed configuration, as far as the merge looks into it. */
  datatype ClashConfig<V> = ClashConfig(proxies: ProxiesField<V>)

  /** The health check of a `url-test` group. */
  datatype UrlTest = UrlTest(url: string, interval: nat)

  datatype ProxyGroup = ProxyGroup(name: string, kind: string, proxies: seq<string>, test: Option<UrlTest>)

  /** The merged configuration: `proxies`, `proxy-groups` and `rules`. */
  datatype Merged<V> = Merged(proxies: seq<Proxy<V>>, groups: seq<ProxyGroup>, rules: seq<string>)

  const AutoName: string := "auto"
  const SelectName: string := "PROXY"
  const TestUrl: string := "http://www.gstatic.com/generate_204"
  const TestInterval: nat := 300
  const Rules: seq<string> := ["MATCH,PROXY"]

  // ---------------------------------------------------------------------
  // The proxies that take part

  /** The named proxies of a list, in order. */
  function NamedProxies<V>(entries: seq<Entry<V>>): seq<Proxy<V>>
    decreases |entries|
  {
    if |entries| == 0 then []
    else
      NamedProxies(entries[..|entries| - 1])
      + match entries[|entries| - 1]
        case Named(p) => [p]
        case Unnamed(_) => []
  }

  /** The proxies a configuration contributes: none unless `proxies` is a list. */
  function ProxiesOf<V>(config: ClashConfig<V>): seq<Proxy<V>>
  {
    match config.proxies
    case ProxyList(entries) => NamedProxies(entries)
    case _ => []
  }

  /** The images of a sequence under `f`, concatenated in order. */
  function ConcatMap<A, B>(xs: seq<A>, f: A -> seq<B>): seq<B>
    decreases |xs|
  {
    if |xs| == 0 then [] else ConcatMap(xs[..|xs| - 1], f) + f(xs[|xs| - 1])
  }

  /** The proxies of all configurations, configuration by configuration. */
  function Candidates<V>(configs: seq<ClashConfig<V>>): seq<Proxy<V>>
  {
    ConcatMap(configs, ProxiesOf)
  }

  /** A list entry takes part exactly when it is a named proxy. */
  lemma {:induction false} NamedProxiesMembers<V>(entries: seq<Entry<V>>)
    ensures forall p :: p in NamedProxies(entries) <==> Named(p) in entries
    decreases |entries|
  {
    if |entries| > 0 {
      var n := |entries|;
      NamedProxiesMembers(entries[..n - 1]);
      assert entries == entries[..n - 1] + [entries[n - 1]];
    }
  }

  /** One more configuration contributes its proxies at the end. */
  lemma CandidatesSnoc<V>(configs: seq<ClashConfig<V>>, c: ClashConfig<V>)
    ensures Candidates(configs + [c]) == Candidates(configs) + ProxiesOf(c)
  {
    assert (configs + [c])[..|configs|] == configs;
  }

  /** Mapping a concatenation maps its two parts one after the other. */
  lemma {:induction false} ConcatMapAppend<A, B>(a: seq<A>, b: seq<A>, f: A -> seq<B>)
    ensures ConcatMap(a + b, f) == ConcatMap(a, f) + ConcatMap(b, f)
    decreases |b|
  {
    if |b| == 0 {
      assert a + b == a;
    } else {
      var n := |b|;
      assert (a + b)[..|a + b| - 1] == a + b[..n - 1];
      assert (a + b)[|a + b| - 1] == b[n - 1];
      ConcatMapAppend(a, b[..n - 1], f);
    }
  }

  /** Configurations contribute their proxies one after the other. */
  lemma CandidatesAppend<V>(a: seq<ClashConfig<V>>, b: seq<ClashConfig<V>>)
    ensures Candidates(a + b) == Candidates(a) + Candidates(b)
  {
    ConcatMapAppend(a, b, ProxiesOf);
  }

  // ---------------------------------------------------------------------
  // Choosing a free name

  function Names<V>(ps: seq<Proxy<V>>): seq<string>
  {
    seq(|ps|, i requires 0 <= i < |ps| => ps[i].name)
  }

  /** The names the renaming loop tries in turn: `n`, `n_1`, `n_2`, … */
  function Attempt(orig: string, k: nat): string
  {
    if k == 0 then orig else orig + "_" + NatToString(k)
  }

  /** Different attempts give different names. */
  lemma AttemptInjective(orig: string, j: nat, k: nat)
    requires Attempt(orig, j) == Attempt(orig, k)
    ensures j == k
  {
    if j > 0 && k > 0 {
      var prefix := orig + "_";
      assert Attempt(orig, j)[|prefix|..] == NatToString(j);
      assert Attempt(orig, k)[|prefix|..] == NatToString(k);
      NatToStringInjective(j, k);
    }
  }

  function Elements(xs: seq<string>): set<string>
  {
    set x | x in xs
  }

  lemma {:induction false} ElementsBound(xs: seq<string>)
    ensures |Elements(xs)| <= |xs|
    decreases |xs|
  {
    if |xs| > 0 {
      var n := |xs|;
      ElementsBound(xs[..n - 1]);
      assert Elements(xs) == Elements(xs[..n - 1]) + {xs[n - 1]};
    }
  }

  /** Fewer taken names than attempts leave one of the attempts free. */
  lemma {:induction false} Pigeonhole(orig: string, t: set<string>, m: nat)
    requires |t| < m
    ensures exists k :: 0 <= k < m && Attempt(orig, k) !in t
    decreases m
  {
    var a := Attempt(orig, m - 1);
    if a in t {
      Pigeonhole(orig, t - {a}, m - 1);
      var k :| 0 <= k < m - 1 && Attempt(orig, k) !in t - {a};
      if Attempt(orig, k) == a {
        AttemptInjective(orig, k, m - 1);
      }
    }
  }

  /** When the first `|taken|` attempts are all taken, the next one is free. */
  lemma PigeonholeLast(orig: string, taken: seq<string>)
    requires forall j :: 0 <= j < |taken| ==> Attempt(orig, j) in taken
    ensures Attempt(orig, |taken|) !in taken
  {
    ElementsBound(taken);
    Pigeonhole(orig, Elements(taken), |taken| + 1);
    var k :| 0 <= k < |taken| + 1 && Attempt(orig, k) !in Elements(taken);
    assert Attempt(orig, k) !in taken;
  }

  /** The first free attempt at or after `from`, given that the earlier ones are taken. */
  function FirstFreeFrom(orig: string, taken: seq<string>, from: nat): (k: nat)
    requires from <= |taken|
    requires forall j :: 0 <= j < from ==> Attempt(orig, j) in taken
    ensures from <= k <= |taken| && Attempt(orig, k) !in taken
    ensures forall j :: 0 <= j < k ==> Attempt(orig, j) in taken
    decreases |taken| - from
  {
    if from == |taken| then
      PigeonholeLast(orig, taken);
      from
    else if Attempt(orig, from) !in taken then from
    else FirstFreeFrom(orig, taken, from + 1)
  }

  /** The number of the first attempt not yet taken: the smallest, and never
      more than the number of names taken so far. */
  function FirstFree(orig: string, taken: seq<string>): (k: nat)
    ensures k <= |taken| && Attempt(orig, k) !in taken
    ensures forall j :: 0 <= j < k ==> Attempt(orig, j) in taken
  {
    FirstFreeFrom(orig, taken, 0)
  }

  /** A name not yet taken is kept. */
  lemma FirstFreeKeeps(orig: string, taken: seq<string>)
    requires orig !in taken
    ensures FirstFree(orig, taken) == 0
  {
  }

  /** The renaming loop `while name in proxy_names`: returns the first free
      attempt and its number. */
  method UniqueName(orig: string, taken: seq<string>) returns (name: string, k: nat)
    ensures k == FirstFree(orig, taken) && name == Attempt(orig, k)
    ensures name !in taken
  {
    name := orig;
    k := 0;
    var counter: nat := 1;
    while name in taken
      invariant counter == k + 1
      invariant name == Attempt(orig, k)
      invariant k <= FirstFree(orig, taken)
      decreases FirstFree(orig, taken) - k
    {
      name := orig + "_" + NatToString(counter);
      k := counter;
      counter := counter + 1;
    }
  }

  // ---------------------------------------------------------------------
  // Renaming all proxies

  /** The merged proxies: each candidate, in order, under the first attempt
      of its name that no earlier merged proxy carries, its other fields as they were. */
  function Rename<V>(cands: seq<Proxy<V>>): seq<Proxy<V>>
    decreases |cands|
  {
    if |cands| == 0 then []
    else
      var done := Rename(cands[..|cands| - 1]);
      var c := cands[|cands| - 1];
      done + [Proxy(Attempt(c.name, FirstFree(c.name, Names(done))), c.fields)]
  }

  lemma NamesSnoc<V>(ps: seq<Proxy<V>>, p: Proxy<V>)
    ensures Names(ps + [p]) == Names(ps) + [p.name]
  {
  }

  /** Renaming one more candidate appends one proxy. */
  lemma RenameSnoc<V>(cands: seq<Proxy<V>>, c: Proxy<V>)
    ensures Rename(cands + [c])
         == Rename(cands) + [Proxy(Attempt(c.name, FirstFree(c.name, Names(Rename(cands)))), c.fields)]
  {
    assert (cands + [c])[..|cands|] == cands;
  }

  /** The merged proxies of a prefix are the prefix of the merged proxies. */
  lemma {:induction false} RenamePrefix<V>(cands: seq<Proxy<V>>, n: nat)
    requires n <= |cands|
    ensures |Rename(cands)| == |cands|
    ensures Rename(cands[..n]) == Rename(cands)[..n]
    decreases |cands|
  {
    if |cands| > 0 {
      var m := |cands|;
      if n == m {
        assert cands[..n] == cands;
        RenamePrefix(cands[..m - 1], m - 1);
      } else {
        RenamePrefix(cands[..m - 1], n);
        assert cands[..m - 1][..n] == cands[..n];
      }
    }
  }

  /** Each merged proxy is its candidate with the first free attempt of its
      name among the names merged before it; every other field is unchanged. */
  lemma RenameAt<V>(cands: seq<Proxy<V>>, i: nat)
    requires i < |cands|
    ensures |Rename(cands)| == |cands|
    ensures Rename(cands)[i]
         == Proxy(Attempt(cands[i].name, FirstFree(cands[i].name, Names(Rename(cands)[..i]))), cands[i].fields)
  {
    RenamePrefix(cands, i + 1);
    RenamePrefix(cands[..i + 1], i);
    assert cands[..i + 1][..i] == cands[..i];
    RenamePrefix(cands, i);
  }

  /** No two merged proxies share a name. */
  lemma {:induction false} RenameDistinct<V>(cands: seq<Proxy<V>>)
    ensures Distinct(Names(Rename(cands)))
    decreases |cands|
  {
    if |cands| > 0 {
      var m := |cands|;
      var done := Rename(cands[..m - 1]);
      var c := cands[m - 1];
      var p := Proxy(Attempt(c.name, FirstFree(c.name, Names(done))), c.fields);
      RenameDistinct(cands[..m - 1]);
      NamesSnoc(done, p);
      DistinctSnoc(Names(done), p.name);
    }
  }

  /** Candidates whose names are already distinct are merged unchanged. */
  lemma {:induction false} RenameDistinctUnchanged<V>(cands: seq<Proxy<V>>)
    requires Distinct(Names(cands))
    ensures Rename(cands) == cands
    decreases |cands|
  {
    if |cands| > 0 {
      var m := |cands|;
      var init := cands[..m - 1];
      var c := cands[m - 1];
      assert Names(init) == Names(cands)[..m - 1];
      assert Distinct(Names(init)) by {
        DistinctInit(Names(cands));
      }
      RenameDistinctUnchanged(init);
      assert c.name !in Names(init) by {
        DistinctNotBefore(Names(cands), m - 1);
      }
      FirstFreeKeeps(c.name, Names(init));
      assert Rename(cands) == init + [Proxy(c.name, c.fields)];
      assert cands == init + [c];
    }
  }

  // ---------------------------------------------------------------------
  // Groups and the merge

  /** The two groups built from the merged names: `auto` tests all of them;
      `PROXY` selects among `auto` and all of them, and lists `auto` twice
      when there is any, since `auto` is inserted in front of the initial `['auto']`. */
  function Groups(names: seq<string>): seq<ProxyGroup>
  {
    [ ProxyGroup(AutoName, "url-test", names, Some(UrlTest(TestUrl, TestInterval))),
      ProxyGroup(SelectName, "select", if |names| == 0 then [AutoName] else [AutoName, AutoName] + names, None) ]
  }

  /** Every merged name is in both groups, and `PROXY` holds nothing else but `auto`. */
  lemma GroupsCover(names: seq<string>)
    ensures var g := Groups(names);
      && |g| == 2
      && (forall n :: n in g[0].proxies <==> n in names)
      && (forall n :: n in g[1].proxies <==> n == AutoName || n in names)
  {
  }

  /** Named proxies of a list one entry further on. */
  lemma NamedProxiesStep<V>(entries: seq<Entry<V>>, j: nat)
    requires j < |entries|
    ensures NamedProxies(entries[..j + 1])
         == NamedProxies(entries[..j]) + match entries[j] case Named(p) => [p] case Unnamed(_) => []
  {
    assert entries[..j + 1][..j] == entries[..j];
  }

  /** A named proxy of the list is merged under its first free name. */
  lemma MergeNamedStep<V>(seen: seq<Proxy<V>>, entries: seq<Entry<V>>, j: nat, proxies: seq<Proxy<V>>, name: string)
    requires j < |entries| && entries[j].Named?
    requires proxies == Rename(seen + NamedProxies(entries[..j]))
    requires name == Attempt(entries[j].proxy.name, FirstFree(entries[j].proxy.name, Names(proxies)))
    ensures proxies + [Proxy(name, entries[j].proxy.fields)] == Rename(seen + NamedProxies(entries[..j + 1]))
  {
    var p := entries[j].proxy;
    var x := seen + NamedProxies(entries[..j]);
    NamedProxiesStep(entries, j);
    assert seen + NamedProxies(entries[..j + 1]) == x + [p];
    RenameSnoc(x, p);
  }

  /** Any other entry is skipped. */
  lemma MergeUnnamedStep<V>(seen: seq<Proxy<V>>, entries: seq<Entry<V>>, j: nat)
    requires j < |entries| && entries[j].Unnamed?
    ensures seen + NamedProxies(entries[..j + 1]) == seen + NamedProxies(entries[..j])
  {
    NamedProxiesStep(entries, j);
  }

  /** The inner loop of `merge_clash_configs` over one `proxies` list: after
      the proxies merged from `seen`, merges the named proxies of `entries`. */
  method MergeEntries<V>(seen: seq<Proxy<V>>, entries: seq<Entry<V>>, proxies: seq<Proxy<V>>, names: seq<string>)
    returns (proxies': seq<Proxy<V>>, names': seq<string>)
    requires proxies == Rename(seen) && names == Names(proxies)
    ensures proxies' == Rename(seen + NamedProxies(entries))
    ensures names' == Names(proxies')
  {
    proxies', names' := proxies, names;
    var j := 0;
    assert seen + NamedProxies(entries[..0]) == seen by {
      assert entries[..0] == [];
    }
    while j < |entries|
      invariant 0 <= j <= |entries|
      invariant proxies' == Rename(seen + NamedProxies(entries[..j]))
      invariant names' == Names(proxies')
    {
      match entries[j] {
        case Named(p) =>
          var name, _ := UniqueName(p.name, names');
          MergeNamedStep(seen, entries, j, proxies', name);
          NamesSnoc(proxies', Proxy(name, p.fields));
          proxies' := proxies' + [Proxy(name, p.fields)];
          names' := names' + [name];
        case Unnamed(_) =>
          MergeUnnamedStep(seen, entries, j);
      }
      j := j + 1;
    }
    assert entries[..j] == entries;
  }

  /** The group literal of `merge_clash_configs`, then the updates made
      when some proxy was merged. */
  method BuildGroups(names: seq<string>) returns (groups: seq<ProxyGroup>)
    ensures groups == Groups(names)
  {
    groups := [ ProxyGroup(AutoName, "url-test", [], Some(UrlTest(TestUrl, TestInterval))),
                ProxyGroup(SelectName, "select", [AutoName], None) ];
    if |names| > 0 {
      groups := groups[0 := groups[0].(proxies := names)];
      groups := groups[1 := groups[1].(proxies := [AutoName] + groups[1].proxies + names)];
      assert [AutoName] + [AutoName] + names == [AutoName, AutoName] + names;
    }
  }

  /** After the last entry of a configuration, its proxies have all been seen. */
  lemma CandidatesNext<V>(configs: seq<ClashConfig<V>>, i: nat)
    requires i < |configs|
    ensures Candidates(configs[..i + 1]) == Candidates(configs[..i]) + ProxiesOf(configs[i])
  {
    assert configs[..i + 1][..i] == configs[..i];
  }

  /** `merge_clash_configs`: `None` for no configurations; otherwise the
      renamed proxies of all configurations, the two groups and the single rule. */
  method MergeClashConfigs<V>(configs: seq<ClashConfig<V>>) returns (r: Option<Merged<V>>)
    ensures r.None? <==> |configs| == 0
    ensures r.Some? ==> r.value.proxies == Rename(Candidates(configs))
    ensures r.Some? ==> Distinct(Names(r.value.proxies))
    ensures r.Some? ==> r.value.groups == Groups(Names(r.value.proxies))
    ensures r.Some? ==> r.value.rules == Rules
  {
    if |configs| == 0 {
      return None;
    }
    var proxies: seq<Proxy<V>> := [];
    var names: seq<string> := [];
    var i := 0;
    while i < |configs|
      invariant 0 <= i <= |configs|
      invariant proxies == Rename(Candidates(configs[..i]))
      invariant names == Names(proxies)
    {
      CandidatesNext(configs, i);
      match configs[i].proxies {
        case ProxyList(entries) =>
          proxies, names := MergeEntries(Candidates(configs[..i]), entries, proxies, names);
        case _ =>
          assert Candidates(configs[..i + 1]) == Candidates(configs[..i]);
      }
      i := i + 1;
    }
    assert configs[..i] == configs;
    RenameDistinct(Candidates(configs));
    var groups := BuildGroups(names);
    r := Some(Merged(proxies, groups, Rules));
  }
}
