# Subscription sanitiser and Clash merge, modelled in Dafny

This project models two pure transformation cores of a proxy-subscription
tool set and proves properties of them.

**1. The VLESS subscription converter (`script/youxuan.js`).** A subscription
is text with one proxy link per line. The converter:

- trims every line and drops the empty ones;
- passes `ss://`, `ssr://`, `vmess://`, `trojan://` and unknown lines through unchanged;
- parses each `vless://` line with a fixed regular expression into uuid,
  server, port, query parameters and a display name.

A parsed line is *incompatible* when one of these holds:

- its `encryption` mentions `mlkem` or `plus`, or is longer than 100 UTF-16 code units;
- its `flow` mentions `xtls` or `rprx`;
- it has a non-empty `reality`.

In mode `filter` an incompatible line is dropped. In any other mode the
offending parameters are deleted and the line is written back.

The handler also guesses whether the fetched body is base64. Its test is a
single line longer than 100 UTF-16 code units. When the guess is yes, it
decodes the body with `atob` before converting and encodes the answer with
`btoa` after. Either call can throw, and then the answer is an error.

**2. The Clash merge of `update_nodes.py`.** `merge_clash_configs` works as follows:

- it concatenates the named proxies of several parsed Clash configurations;
- it renames a name that is already taken to the first free one of `n_1`, `n_2`, …;
- it adds a `url-test` group `auto`, a `select` group `PROXY` and the single rule `MATCH,PROXY`.

The line filter of `read_sources` is modelled too. It picks the source URLs out of `node.txt`.

Modules:

- `wrappers.dfy`: `Option`.
- `text.dfy`: string helpers with JavaScript and Python semantics. These are
  `split`/`join`, `trim`/`strip` (each with its own white-space set),
  `includes`, UTF-16 `.length` and `str(n)`.
- `uri_component.dfy`: percent-encoding (section 2.1 of RFC 3986).
  - `encodeURIComponent`/`decodeURIComponent` are a parameter `Codec`.
  - The ghost predicate `Lawful` states the laws the pair obeys: decode
    inverts encode; encoded text uses only unreserved characters and `%`;
    unreserved text encodes to itself.
  - Every property that needs these laws takes `Lawful(codec)` as a precondition.
- `vless.dfy`: the line pattern, the parameter object, `parseVlessUrl`,
  `hasIncompatibleConfig`, `cleanVlessParams` and `buildVlessUrl`.
- `subscription.dfy`: `processVlessProxy`, `processSubscription` and the
  base64 choice of the handler.
- `clash_merge.dfy`: `merge_clash_configs`. The name search and the loops are
  executable methods, and each is proved equal to a functional definition.
- `node_sources.dfy`: the `read_sources` filter.

Three details of the converter that the model keeps:

- `reality` makes a line incompatible only when its value is non-empty,
  which is JavaScript truthiness (script/youxuan.js:191).
- Every mode other than `filter` cleans (script/youxuan.js:116).
- Only a parameter whose key is `reality` counts. A `security=reality`
  parameter is kept (script/youxuan.js:191, 221).

## Model

| member | source | states |
|---|---|---|
| Text.Split | script/youxuan.js:73 | `split` gives at least one piece, no piece holds the separator, and joining the pieces gives the text back |
| Text.SplitJoin | script/youxuan.js:73 | splitting a `join` recovers the pieces when none of them holds the separator |
| Text.SplitAvoids | script/youxuan.js:73 | no piece of a split holds a character the text lacks |
| Text.Cut | script/youxuan.js:140 | the text before and after the first occurrence of a character: absent exactly when the character is missing, and the two sides around it rebuild the text |
| Text.Trim | script/youxuan.js:73 | the result is the part of the text left after removing white space from both ends only, and neither of its ends is white space |
| Text.TrimTrimmed | script/youxuan.js:73 | trimming text that is already trimmed changes nothing |
| Text.TrimAvoids | script/youxuan.js:73 | trimming never introduces a character |
| Text.ContainsAtOffset | script/youxuan.js:176-177 | `includes` holds exactly when the substring occurs at some offset |
| Text.JsLength | script/youxuan.js:178 | `.length` counts UTF-16 code units: at least one and at most two per code point |
| Text.JsLengthAppend | script/youxuan.js:178 | the length of a concatenation is the sum of the lengths of its parts |
| Text.JsLengthBmp | script/youxuan.js:39 | text without code points above U+FFFF has exactly one code unit per character |
| Text.JsLengthChar | script/youxuan.js:39 | a code point above U+FFFF counts two code units (a surrogate pair), any other counts one |
| Text.NatToString | update_nodes.py:125 | `str(counter)` is a non-empty run of decimal digits, with two or more digits exactly from 10 on |
| Text.NatToStringInjective | update_nodes.py:125 | different counters give different decimal renderings |
| Text.NatToStringValue | update_nodes.py:125 | `str(counter)` is the decimal numeral of the counter, without leading zeros |
| Text.NatToStringOfValue | update_nodes.py:125 | every decimal numeral without leading zeros is `str` of the number it denotes |
| UriComponent.EncodeNonEmpty | script/youxuan.js:238 | only the empty name encodes to the empty string |
| UriComponent.EncodedAvoids | script/youxuan.js:234 | an encoded key or value holds none of the URI delimiters |
| UriComponent.DecodeUnreserved | script/youxuan.js:163 | the default name `VLESS`, like any unreserved text, decodes to itself |
| Vless.PutValid | script/youxuan.js:153 | assigning a key keeps the key order and the table in step; the key reads back as the new value and every other key reads as before |
| Vless.MatchSound | script/youxuan.js:140-142 | a line the pattern matches is exactly `vless://uuid@server:port?query[#fragment]`, and each capture has the shape its group allows |
| Vless.MatchRender | script/youxuan.js:140-142 | conversely, every well-shaped set of captures is matched again in the line it renders, so the pattern accepts exactly these lines |
| Vless.MatchAuthority | script/youxuan.js:140 | after the port digits a `?` must follow, otherwise the line does not match |
| Vless.CutPortAt | script/youxuan.js:140 | `(\d+)\?` takes all the leading digits and needs a `?` right after them |
| Vless.PairOfKeyValue | script/youxuan.js:151 | `key=value` without another `=` splits into that key and that value |
| Vless.PairOfCutsAtSecondEquals | script/youxuan.js:151 | a value is cut at a second `=`, and what follows it is lost |
| Vless.PairOfWithoutEquals | script/youxuan.js:151-152 | a piece without `=` has an empty value, so the pair is skipped |
| Vless.DecodePiecesValid | script/youxuan.js:145-156 | the parsed parameter object is consistent: each key is listed once, the list holds exactly the keys, and `__proto__` is never one of them |
| Vless.DecodePiecesOrderGrows | script/youxuan.js:150-153 | one more pair never moves or removes a key; at most one new, unassigned key is added last |
| Vless.DecodePiecesOrderPrefix | script/youxuan.js:150-155 | the keys of the first pairs lead the keys of all pairs, in the same order, so each key keeps the place of its first assignment |
| Vless.DecodePiecesAssign | script/youxuan.js:153 | a later pair for a present key overwrites its value and keeps its place; a new key goes last; other keys keep their values |
| Vless.DecodePiecesWellFormed | script/youxuan.js:148-156 | under the codec laws every kept pair has a non-empty key and value |
| Vless.ParseShape | script/youxuan.js:137-168 | a parsed line starts with `vless://uuid@server:port?`, with these three captured verbatim, and its parameters are consistent |
| Vless.ParseWellFormed | script/youxuan.js:137-168 | under the codec laws a parsed link is well formed, and its name is never empty |
| Vless.WithoutGet | script/youxuan.js:207 | deleting keys leaves every other key readable as before |
| Vless.DeleteThree | script/youxuan.js:201-225 | the three conditional deletions in sequence equal one deletion of the flagged keys |
| Vless.CleanSteps | script/youxuan.js:201-225 | the three checks, each made after the previous deletion, together delete exactly the offending keys of the input and leave no incompatibility |
| Vless.Clean | script/youxuan.js:201-225 | after cleaning, the parameters are compatible, and the result is the input minus its offending keys |
| Vless.CleanKeepsOthers | script/youxuan.js:201-225 | every key other than `encryption`, `flow` and `reality` keeps its value |
| Vless.CleanChangesIffIncompatible | script/youxuan.js:173-225 | cleaning changes the parameters if and only if `hasIncompatibleConfig` holds |
| Vless.CleanIdempotent | script/youxuan.js:201-225 | cleaning twice is cleaning once |
| Vless.CleanWellFormed | script/youxuan.js:201-225 | cleaning well-formed parameters keeps them well formed |
| Vless.Build | script/youxuan.js:240 | a written line starts with `vless://uuid@server:port` |
| Vless.DecodeEncodedPairs | script/youxuan.js:233-235 | the parsing loop reads the encoded pairs of well-formed parameters back as those same parameters, in the same key order |
| Vless.EncodedQueryAvoids | script/youxuan.js:232-237 | the written query holds only encoded characters, `=` and `&` |
| Vless.EncodedQueryParses | script/youxuan.js:148-156 | the written query of non-empty well-formed parameters parses back as those parameters |
| Vless.BuildMatches | script/youxuan.js:230-241 | a written line with a parameter matches the line pattern, with the encoded query and name as captures |
| Vless.BuildParseRoundTrip | script/youxuan.js:230-241 | with at least one parameter, parsing a written line gives back the same uuid, server, port, parameters and name |
| Vless.BuildWithoutParamsDoesNotParse | script/youxuan.js:237 | without parameters the `?` is omitted, so the written line no longer parses |
| Vless.BuildUnnamedReadsDefault | script/youxuan.js:238 | a link written with an empty name has no `#`, and it reads back with the name `VLESS` |
| Vless.ParseUnnamedReadsDefault | script/youxuan.js:162-163 | any line that parses with a missing or empty fragment gets the name `VLESS` |
| Subscription.ParseNeedsScheme | script/youxuan.js:140 | a line that parses starts with `vless://` |
| Subscription.SchemesDisjoint | script/youxuan.js:77-84 | a `vless://` line is none of the four pass-through schemes |
| Subscription.BuildHasScheme | script/youxuan.js:240 | a rebuilt line starts with `vless://` |
| Subscription.ProcessLineNotVless | script/youxuan.js:77-93 | a line not starting with `vless://` is pushed verbatim |
| Subscription.ProcessLineCases | script/youxuan.js:102-132 | a line comes out unchanged unless it parses to incompatible parameters; such a line is dropped in filter mode and rebuilt from its cleaned link otherwise |
| Subscription.ProcessLineKeepsCompatible | script/youxuan.js:107-114 | a VLESS line that parses to compatible parameters is returned byte for byte |
| Subscription.ProcessLineDrops | script/youxuan.js:116-120 | filter mode drops an incompatible VLESS line |
| Subscription.ProcessLineRebuilds | script/youxuan.js:122-126 | any other mode replaces an incompatible VLESS line by the rebuilt URL of its cleaned link |
| Subscription.ProcessLineFilter | script/youxuan.js:84-89 | in filter mode a line is never rewritten: it is dropped exactly when it parses to incompatible parameters |
| Subscription.ProcessLineKeeps | script/youxuan.js:84-89 | in any other mode every line yields one output line |
| Subscription.RebuiltLine | script/youxuan.js:122-126 | a rebuilt line parses back as the cleaned link when a parameter is left, and does not parse otherwise |
| Subscription.RebuiltLineShape | script/youxuan.js:73 | a rebuilt line is again non-empty, trimmed and free of newlines |
| Subscription.ProcessLineSettles | script/youxuan.js:76-94 | every output line is one that the loop would push unchanged |
| Subscription.ProcessLineCompatible | script/youxuan.js:76-94 | no output line parses to incompatible parameters |
| Subscription.ProcessLinesAtMost | script/youxuan.js:76-94 | the output never has more lines than the trimmed non-empty input |
| Subscription.ProcessLinesAt | script/youxuan.js:76-94 | outside filter mode there is one output line per input line, in order, each the result for its own input line |
| Subscription.ProcessLinesFilter | script/youxuan.js:76-94 | filter mode keeps exactly the input lines that are not incompatible VLESS links |
| Subscription.ProcessLinesFilterOrder | script/youxuan.js:76-96 | filter mode outputs the input lines that are not incompatible VLESS links, verbatim, in their order and with their repetitions |
| Subscription.ProcessLinesCompatible | script/youxuan.js:76-94 | in either mode no output line parses to incompatible parameters |
| Subscription.ProcessLinesSettle | script/youxuan.js:76-94 | the output consists of trimmed one-line entries that the loop leaves unchanged |
| Subscription.ProcessLinesFixed | script/youxuan.js:76-94 | lines the loop leaves unchanged pass through the whole pass unchanged |
| Subscription.TrimmedLinesFixed | script/youxuan.js:73 | trimming and dropping empty lines leaves non-empty trimmed lines alone |
| Subscription.TrimmedLinesAreLines | script/youxuan.js:73 | the pieces of the split, once trimmed and with empty ones dropped, are non-empty trimmed lines |
| Subscription.SubscriptionLinesShape | script/youxuan.js:73 | the lines of any text are non-empty, trimmed and free of newlines |
| Subscription.SubscriptionLinesEmpty | script/youxuan.js:73 | empty text has no lines |
| Subscription.SubscriptionLinesJoin | script/youxuan.js:73-96 | lines joined with `\n` are read back as the same lines |
| Subscription.ProcessSubscriptionIdempotent | script/youxuan.js:72-97 | converting a converted subscription again changes nothing |
| Subscription.RespondPlain | script/youxuan.js:38-54 | a body with a newline, or one of at most 100 UTF-16 code units, is converted as plain text |
| Subscription.RespondBase64 | script/youxuan.js:38-54 | a base64 body is answered in base64: `btoa` does not throw, and decoding the answer gives the conversion of the decoded body |
| Subscription.ProcessLineAvoids | script/youxuan.js:76-131 | the line pushed for an input line holds no character the input line lacks, apart from encoded characters and the delimiters a rebuilt URL writes |
| Subscription.ProcessLinesAvoid | script/youxuan.js:76-94 | the same holds for every output line of the loop |
| Subscription.TrimmedLinesAvoid | script/youxuan.js:73 | trimming and dropping empty lines never introduces a character |
| Subscription.ProcessSubscriptionAvoids | script/youxuan.js:72-97 | the converted text holds no character the input lacks, apart from encoded characters, newlines and URL delimiters |
| Subscription.ProcessSubscriptionLatin1 | script/youxuan.js:54 | converting text with no character above U+00FF gives such text again, so `btoa` accepts it |
| Subscription.RespondSingleLongLink | script/youxuan.js:39-44 | a plain subscription of one `vless://` line longer than 100 code units is taken for base64; `atob` then rejects the `:` and the answer is the error response |
| ClashMerge.NamedProxiesMembers | update_nodes.py:117-119 | exactly the entries that are mappings with `name` take part |
| ClashMerge.CandidatesSnoc | update_nodes.py:116-130 | one more configuration appends its named proxies at the end |
| ClashMerge.CandidatesAppend | update_nodes.py:116-130 | configurations contribute their proxies one after another, in encounter order |
| ClashMerge.AttemptInjective | update_nodes.py:125 | different counters give different candidate names |
| ClashMerge.Pigeonhole | update_nodes.py:121-126 | fewer taken names than attempts leave one attempt free |
| ClashMerge.PigeonholeLast | update_nodes.py:124-126 | when the first `len(proxy_names)` attempts are all taken, the next one is free, which bounds the `while` loop |
| ClashMerge.FirstFree | update_nodes.py:121-126 | the chosen attempt is free, every earlier one is taken, and its counter is at most the number of names so far |
| ClashMerge.FirstFreeKeeps | update_nodes.py:122-124 | a name not yet taken is kept as it is |
| ClashMerge.UniqueName | update_nodes.py:121-126 | the `while` loop returns the first free attempt `n`, `n_1`, `n_2`, …, which is not among the names so far |
| ClashMerge.RenamePrefix | update_nodes.py:116-130 | merging a prefix of the candidates gives a prefix of the merged proxies, one proxy per candidate |
| ClashMerge.RenameAt | update_nodes.py:121-130 | each merged proxy is its candidate under the first free name among the earlier merged names, with its other fields unchanged |
| ClashMerge.RenameDistinct | update_nodes.py:119-129 | no two merged proxies share a name |
| ClashMerge.RenameDistinctUnchanged | update_nodes.py:121-129 | candidates whose names are already distinct are merged unchanged |
| ClashMerge.GroupsCover | update_nodes.py:133-136 | every merged name is in both groups, and `PROXY` holds nothing else but `auto` |
| ClashMerge.MergeEntries | update_nodes.py:118-130 | the inner loop over one `proxies` list extends the merged proxies and names by that list's renamed named proxies |
| ClashMerge.BuildGroups | update_nodes.py:92-136 | the group literal and its updates give `auto` all merged names, and `PROXY` `['auto']` or `['auto', 'auto']` plus the names |
| ClashMerge.MergeClashConfigs | update_nodes.py:86-138 | `None` exactly for an empty list; otherwise the renamed candidates, in encounter order, with pairwise distinct names, the two groups built from them and the single rule `MATCH,PROXY` |
| NodeSources.SourceUrlsAppend | update_nodes.py:29 | the sources of a file are those of its first part followed by those of the rest |
| NodeSources.SourceUrlsMembers | update_nodes.py:29 | a source is the stripped form of a kept line, and every kept line gives one |
| NodeSources.LeadingSpaceRejected | update_nodes.py:29 | a line with leading white space is never a source |
| NodeSources.StripKeepsPrefix | update_nodes.py:29 | stripping a line that starts with `http` keeps the `http` |
| NodeSources.SourceUrlsShape | update_nodes.py:29 | every source is non-empty, stripped and starts with `http` |
| NodeSources.SourceUrlsIdempotent | update_nodes.py:29 | filtering a list of sources again changes nothing |
| NodeSources.SourcesFixed | update_nodes.py:29 | a list of sources is kept as it is |

## Left out

- The `fetch` handler's HTTP work (script/youxuan.js:16-36, 56-65):
  reading the query, fetching the upstream, status codes and headers.
  - `Subscription.Respond` models only the body of the answer, from line 38 on.
  - `None` stands for the error response sent when `atob` throws.
  - `mode` is a parameter; its `|| 'remove'` default makes no difference, since every mode other than `filter` cleans.
- `atob`/`btoa` (base64, section 4 of RFC 4648) are the parameter `Base64`.
  - The properties that need them take the needed law as a precondition.
  - `btoa` throwing on a character above U+00FF is modelled in `Respond`.
  - `atob` throwing is `decode` returning `None`.
- `encodeURIComponent`/`decodeURIComponent` are the parameter `Codec` with
  the laws of `UriComponent.Lawful`; percent-encoding is not re-implemented.
  - `encodeURIComponent` throws on a lone surrogate. `Codec.encode` is total and does not model that case.
  - The `try`/`catch` of `processVlessProxy` (script/youxuan.js:128-131) therefore has no exception to catch, except an encoding failure, which is left out.
- `Object.entries` lists integer-like keys first, in numeric order. The
  model keeps all keys in first-assignment order.
- The `__proto__` key is modelled: assigning a string to it is ignored. No
  other effect of the object prototype is modelled.
- Logging (`console.log`, `console.error`, `print`) has no effect on results and is left out.
- `read_sources` opens a file and iterates its lines. `SourceUrls` takes the
  lines, each with its line end, as a sequence, and leaves out:
  - splitting the file into lines;
  - universal-newline translation;
  - the missing-file branch.
- `download_config`, `extract_content`, `is_clash_config`, `main` and all file
  and network I/O of update_nodes.py. The YAML parse is not modelled; `ClashMerge` starts from parsed configurations.
- `ClashMerge.Proxy` assumes a string `name`. A YAML name that is a number or
  another non-string value would reach `f"{original_name}_{counter}"` and the
  list membership test with Python's equality of mixed types; that is not modelled.
- `merge_clash_configs` mutates the proxy mappings in place. When YAML aliases
  make one mapping appear twice, the second rename also changes the first
  entry. The model treats every entry as its own value.
- `cf/tg_worker.js` is an HTTP relay and is not part of this model.
- The `PROXY` group lists `auto` twice once a proxy is merged. This comes from
  the `insert(0, 'auto')` in front of the initial `['auto']`, and it is modelled as written.
