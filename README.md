# zotero4rst citation core in Dafny

zotero4rst is a reStructuredText (docutils) extension. It lets a document
cite items of a Zotero library with the `:zc:` role. It also inserts a
bibliography with the `zotero-bibliography` directive. The formatting is
done by the citation processor inside Zotero, which the Python side reaches
over a network bridge, through the functions exported by `export.js`.

This project models the citation core of that extension and proves
properties of the model:

- `CiteParser.dfy` models the pandoc-like citation-string parser
  (`zot_parse_cite_string`). It has two tokenisers: the split-and-filter
  one as the source writes it, and a left-to-right reference tokeniser.
  It also models the start-anchored key pattern, the two error cases and
  the split into prefix, locator and suffix. It works through the two
  examples of the parser's own documentation (`see @Doe2008`, `also c.f.
  @Doe2010`), one with a suppressed author, a locator and a suffix, and the
  two failures.
- `Registry.dfy` models the connection object (`ZoteroConnection`) as a
  class. It covers the occurrence list, the latch flag that is never set,
  the key alias table, the citation request built for each occurrence and
  the bibliography text. It also models the citation record
  (`ZoteroCitationInfo`), with its alias step.
- `Placement.dfy` models the role `zot_cite_role` over an abstract document
  tree of numbered nodes with parent pointers. The role makes a three-way
  choice: an in-text style, text already inside a footnote, or a new
  footnote. When it makes a footnote, it walks up to the nearest structural
  ancestor. The file also models the note-index step of the citation
  transform (`ZoteroTransform.apply`) and the two transform priorities.
- `ExportJs.dfy` models the normalisers of `export.js`: the library prefix
  of item keys, the style-id defaulting and prefixing, the recursive
  `escapeStringValues` walk and `isInTextStyle`.
- `Common.dfy` holds `Option`/`Result` and the Python list idioms the
  parser uses: `" ".join`, `takewhile`, `dropwhile` and `islice(…, 1, None)`.

The Zotero and processor calls are not modelled as code. What the Python
side would send to them is returned (for example, the id set and the
citation request). What they answer is passed in (for example, the item
library, the style class and the bibliography data).

Three behaviours of the code are worth stating plainly:

- `register_items` never sets `items_registered`. So every call to
  `get_citation` or `generate_rest_bibliography` sends the whole id set
  again. Nothing in the model says the ids are sent at most once.
- `random_label` draws twenty random digits and never checks them against
  labels already in use. So footnote labels are not unique by
  construction; `EveryLabelCanBeDrawn` says any label can come up.
- `get_index` compares by object identity (`list.index` on objects without
  an `__eq__`). So `CitationInfo` is a class, and positions are found by
  reference.

## Model

| member | source | states |
|---|---|---|
| CiteParser.RegexSplit | python/zotero4rst/__init__.py:205 | `re.split` with the captured separator group yields an odd number of pieces: fields at even positions, separators between them |
| CiteParser.Tokens | python/zotero4rst/__init__.py:205 | no word of the comprehension is empty or a single space |
| CiteParser.RegexSplitShape | python/zotero4rst/__init__.py:205 | splitting at each space or pipe, keeping the separators, alternates separator-free fields with single separator characters |
| CiteParser.RegexSplitConcat | python/zotero4rst/__init__.py:205 | joining the split pieces gives back the citation text |
| CiteParser.TokensAreLex | python/zotero4rst/__init__.py:205 | the split-and-filter words are exactly the reference tokens: spaces skipped, `\|` a token of its own, every other run up to a separator one word |
| CiteParser.LexShape | python/zotero4rst/__init__.py:205 | every word is `\|` or a non-empty run without spaces and pipes |
| CiteParser.LexConcat | python/zotero4rst/__init__.py:205 | the words, in order, spell out the text minus its spaces: only spaces are lost, and every other character survives unchanged |
| CiteParser.BlankHasNoTokens | python/zotero4rst/__init__.py:205 | empty or all-space text has no words |
| CiteParser.KeyRun | python/zotero4rst/__init__.py:200 | the greedy `[A-Za-z0-9_-]` run: a prefix of the input made of key characters, not followed by another key character |
| CiteParser.MatchKey | python/zotero4rst/__init__.py:200-201 | a match yields a non-empty key of key characters, and suppress-author holds iff the word starts with `-` |
| CiteParser.IsKey | python/zotero4rst/__init__.py:201 | a key word starts with `@` or `-@` and has at least two characters |
| CiteParser.MatchKeyShape | python/zotero4rst/__init__.py:200-201 | every matching word is `@` (or `-@` when the author is suppressed), then the key, then a rest that does not start with a key character |
| CiteParser.MatchKeyIff | python/zotero4rst/__init__.py:212-214 | `@key…` or `-@key…` yields exactly `key` and the `-` flag iff `key` is a non-empty key-character run not followed by another key character; what follows is ignored |
| CiteParser.KeyWithTrailingComma | python/zotero4rst/__init__.py:200 | a trailing comma after the key is matched and dropped |
| CiteParser.Parse | python/zotero4rst/__init__.py:195-226 | a successful parse has a non-empty key made of key characters |
| CiteParser.ParseFailsIff | python/zotero4rst/__init__.py:206-210 | "no key found" iff no word matches the key pattern, "too many keys" iff two or more do, success iff exactly one does |
| CiteParser.BlankTextHasNoKey | python/zotero4rst/__init__.py:205-208 | empty or all-space text fails with "no key found" |
| CiteParser.ParseOfDecomposition | python/zotero4rst/__init__.py:215-221 | with exactly one key word: prefix = words before it joined by single spaces, locator = words after it up to the first `\|`, suffix = words after that `\|` (later pipes kept as text), empty suffix without a pipe |
| CiteParser.ExampleSee | python/zotero4rst/__init__.py:197 | `see @Doe2008` gives key `Doe2008`, prefix `see`, empty locator and suffix |
| CiteParser.ExampleAlsoCf | python/zotero4rst/__init__.py:197 | `also c.f. @Doe2010` gives key `Doe2010`, prefix `also c.f.` (the two words joined by one space), empty locator and suffix |
| CiteParser.ExampleSuppressWithPipe | python/zotero4rst/__init__.py:212-221 | `-@Doe2010, p.5 \| cited favorably` gives key `Doe2010`, suppress-author, locator `p.5`, suffix `cited favorably` |
| CiteParser.ExampleTwoKeys | python/zotero4rst/__init__.py:209-210 | `@A @B` fails with "too many keys" |
| CiteParser.ExampleNoKey | python/zotero4rst/__init__.py:207-208 | `just text` fails with "no key found" |
| ExportJs.HasLibraryPrefixIff | extension/resource/csl/export.js:7 | the greedy digit test agrees with `/^[0-9]+_/`: some non-empty all-digit prefix is followed by `_` |
| ExportJs.HasLibraryPrefix | extension/resource/csl/export.js:7 | an id with a library prefix starts with a digit and holds a `_` |
| ExportJs.PrefixItemKey | extension/resource/csl/export.js:7-9 | an id with a library prefix is unchanged, any other gets `0_` prepended, and the result always has a library prefix |
| ExportJs.PrefixItemKeyIdempotent | extension/resource/csl/export.js:7-9 | prefixing twice is prefixing once |
| ExportJs.GetItemId | extension/resource/csl/export.js:6-13 | an item is found iff the prefixed key is in the library, and then it is that item's id |
| ExportJs.GetItemIdOfPrefixed | extension/resource/csl/export.js:6-13 | looking up an already prefixed key finds the same item |
| ExportJs.NormaliseStyleId | extension/resource/csl/export.js:21-26 | an absent or empty id is first replaced by `chicago-author-date`; the id is then kept if it starts with `http://` and otherwise gets the style repository URL in front; the result always starts with `http://` |
| ExportJs.NormaliseStyleName | extension/resource/csl/export.js:24-26 | an ordinary style name becomes the repository URL followed by that very name |
| ExportJs.NormaliseStyleIdFixedIff | extension/resource/csl/export.js:24-26 | an id is left unchanged iff it already starts with `http://` |
| ExportJs.NormaliseStyleIdIdempotent | extension/resource/csl/export.js:21-26 | normalising twice is normalising once |
| ExportJs.HttpsIdIsPrefixed | extension/resource/csl/export.js:24-26 | an `https://` id is prefixed with the style repository like a bare style name |
| ExportJs.NormaliseEmptyStyleId | extension/resource/csl/export.js:21-23 | an absent or empty id becomes the repository URL of `chicago-author-date` |
| ExportJs.EscapeStringValuesAsWritten | extension/resource/csl/export.js:55-69 | as written, `null` comes back as an empty object, and no value comes back as `null` |
| ExportJs.EscapeWalk | extension/resource/csl/export.js:55-69 | arrays come back as arrays of the same length, objects as objects with the same member names in order, strings escaped |
| ExportJs.EscapeStringValues | extension/resource/csl/export.js:55-69 | the corrected walk gives `null` exactly for `null`, while the walk as written never gives `null` |
| ExportJs.NullMemberLosesShape | extension/resource/csl/export.js:60-65 | as written, `{"note": null}` becomes `{"note": {}}`, which does not have the input's shape |
| ExportJs.AsWrittenAgreesWithoutNull | extension/resource/csl/export.js:55-69 | on values containing no `null`, the code as written and the corrected walk agree |
| ExportJs.EscapeStringValuesKeepsShape | extension/resource/csl/export.js:55-69 | the corrected walk keeps the shape: arrays of the same length element-wise, objects with the same member names in order, strings stay strings, every other value unchanged |
| ExportJs.EscapeWithIdentity | extension/resource/csl/export.js:55-69 | with the identity as `escape`, the corrected walk returns its input |
| ExportJs.EscapeAsWrittenWithIdentity | extension/resource/csl/export.js:55-69 | with the identity as `escape`, the walk as written returns a value without `null` unchanged |
| ExportJs.EscapeTwice | extension/resource/csl/export.js:55-69 | with the corrected walk, escaping with `f` then with `g` is escaping once with `g ∘ f` |
| ExportJs.EscapeTwiceAsWritten | extension/resource/csl/export.js:55-69 | with the walk as written, too, escaping with `f` then with `g` is escaping once with `g ∘ f`, on every value (a `null` becomes `{}` and stays `{}`) |
| ExportJs.GetBibliographyData | extension/resource/csl/export.js:78-81 | a falsy processor reply is passed on unchanged; a truthy reply goes through the walk as written, which on a reply without `null` is the corrected walk and keeps the reply's shape |
| ExportJs.Truthy | extension/resource/csl/export.js:78 | `if (ret)`: arrays and objects, even empty ones, are truthy; `null` and `undefined` are not |
| ExportJs.BibliographyDataNullMember | extension/resource/csl/export.js:78-81 | a reply `{"note": null}` comes back as `{"note": {}}`, losing its shape |
| ExportJs.IsInTextStyle | extension/resource/csl/export.js:91-97 | true iff the style class is exactly `in-text` |
| Registry.DefaultFormatAgrees | extension/resource/csl/export.js:21-26 | an absent or empty style id normalises to the Python default `DEFAULT_CITATION_FORMAT`, and that default is left unchanged |
| Registry.ResolveAlias | python/zotero4rst/__init__.py:182-186 | an original key is recorded iff an alias was found, and it is the written key |
| Registry.AliasStep | python/zotero4rst/__init__.py:99-103 | a key listed in the `keys` table (exact, case-sensitive) is replaced by its alias and remembered as the original; any other key is kept with no original |
| Registry.CitationInfo.constructor | python/zotero4rst/__init__.py:181-193 | the record carries the resolved key and original key, the item id, the parsed locator, prefix, suffix and suppress-author flag, no label, and note index 0 |
| Registry.IndexOf | python/zotero4rst/__init__.py:80-81 | found iff the occurrence is in the list; the position holds that very object and no earlier position does |
| Registry.IndexOfAppend | python/zotero4rst/__init__.py:65-66 | appending an occurrence moves no earlier one, and a new occurrence is found at the end |
| Registry.IdsIff | python/zotero4rst/__init__.py:77 | an id is in the registered set iff some tracked occurrence cites that item |
| Registry.Ids | python/zotero4rst/__init__.py:77 | every tracked occurrence's id is in the set, and every id in it is some tracked occurrence's |
| Registry.IdsAppend | python/zotero4rst/__init__.py:77 | tracking one more occurrence adds its id to the set and removes none |
| Registry.BuildCitationRequest | python/zotero4rst/__init__.py:107-109 | a request exists iff the occurrence is tracked; it holds exactly that occurrence, its first position in the list and its note index |
| Registry.BibliographyHoldsEntries | python/zotero4rst/__init__.py:97 | the bibliography text opens with `bibstart`, closes with `bibend`, and holds every entry unchanged, in order, at its own offset between them |
| Registry.BibliographyText | python/zotero4rst/__init__.py:97 | the text's length is that of `bibstart`, the entries and `bibend` together |
| Registry.Connection.constructor | python/zotero4rst/__init__.py:52-60 | a new connection has the given style (or the default), no tracked items, an empty alias table, and the flag unset |
| Registry.Connection.LoadKeys | python/zotero4rst/__init__.py:62-63 | reading the key file adds or replaces aliases and changes nothing else |
| Registry.Connection.TrackItem | python/zotero4rst/__init__.py:65-66 | the occurrence list grows by exactly this occurrence at the end, with no deduplication; nothing else changes |
| Registry.Connection.LookupKey | python/zotero4rst/__init__.py:99-103 | an alias is found iff the key is in the table, and it is the table's value |
| Registry.Connection.RegisterItems | python/zotero4rst/__init__.py:75-78 | with the flag unset, the distinct ids of all tracked occurrences are sent; since the flag is never set, every call sends them, covering every tracked occurrence |
| Registry.Connection.GetIndex | python/zotero4rst/__init__.py:80-81 | the scan returns the first position of this very occurrence, or none |
| Registry.Connection.GetCitation | python/zotero4rst/__init__.py:105-109 | registers first (sending every tracked id), then builds the request for the occurrence |
| Registry.Connection.GenerateBibliography | python/zotero4rst/__init__.py:83-97 | registers first, then the text is `bibstart`, the entries and `bibend` concatenated |
| Placement.RandomLabel | python/zotero4rst/__init__.py:228-229 | a label is twenty decimal digits |
| Placement.EveryLabelCanBeDrawn | python/zotero4rst/__init__.py:228-229 | every twenty-digit string can be drawn, so labels can collide |
| Placement.Priority | python/zotero4rst/__init__.py:134 | citation transforms have priority 650, bibliography transforms 700 |
| Placement.CitationsBeforeBibliography | python/zotero4rst/__init__.py:172 | in any schedule ordered by priority, every citation transform runs before every bibliography transform |
| Placement.Document.NearestStructural | python/zotero4rst/__init__.py:270-273 | the node found, if any, is structural |
| Placement.Document.FootnoteTarget | python/zotero4rst/__init__.py:270-274 | the node the footnote goes to is always structural, falling back to the document |
| Placement.Document.NearestStructuralNone | python/zotero4rst/__init__.py:271-274 | the walk finds nothing iff no node on the chain of ancestors is structural |
| Placement.Document.NearestStructuralFirst | python/zotero4rst/__init__.py:271-273 | the node found is on the chain, and no node before it on the chain is structural |
| Placement.Document.AttachedFindsStructural | python/zotero4rst/__init__.py:274 | a chain reaching the document always finds a structural node, so the fallback is only for detached nodes |
| Placement.Document.FindFootnoteTarget | python/zotero4rst/__init__.py:270-274 | the `while` loop returns exactly the nearest structural ancestor, or the document |
| Placement.Document.Grandparent | python/zotero4rst/__init__.py:148 | the grandparent, when there is one, is a node of the document |
| Placement.Document.InFootnote | python/zotero4rst/__init__.py:238 | the inliner's parent is a footnote; the document itself is never inside one |
| Placement.Document.AddPending | python/zotero4rst/__init__.py:278-280 | one pending node is added as the last child of the host, carrying the citation, and noted as pending; names, numbers and every other child list are unchanged |
| Placement.Document.AddFootnoteReference | python/zotero4rst/__init__.py:256-260 | one footnote reference named by the label, as the last child of the host; every other child list, the citations, the pending list and the numbers are unchanged |
| Placement.Document.AddFootnote | python/zotero4rst/__init__.py:262-275 | a footnote named by the label as the last child of the target, holding a paragraph holding one pending node that carries the citation and is noted as pending; the whole new list of children is given |
| Placement.Document.AddFootnoteCitation | python/zotero4rst/__init__.py:256-275 | a footnote reference as the last child of the host, then a footnote with the same label as the last child of the target, holding a paragraph holding the pending node; the whole new list of children is given, and nothing else changes |
| Placement.Document.PlaceCitation | python/zotero4rst/__init__.py:237-281 | in-text style or inside a footnote: one pending node as the last child of the host; otherwise one footnote reference there, and a new labelled footnote with the pending node as the last child of the nearest structural ancestor of the parent, or of the document; in both cases kinds, parents, children, names, citations, pending list and numbers are given in full |
| Placement.Document.ResolvePending | python/zotero4rst/__init__.py:145-152 | the note index changes only when the pending node's grandparent is a footnote, and then takes that footnote's number; the request is that of `get_citation`, and the pending node is replaced by citation text iff the occurrence is tracked; with the registration flag unset, every tracked id is sent; a footnote without a number fails and sends nothing |
| Placement.TrackAndPlace | python/zotero4rst/__init__.py:236-281 | the new record is tracked at the end of the occurrence list before it is placed, then placed by the three-way choice, with the document's new state given in full; the alias table, the flag and the position counter are unchanged |
| Placement.CiteRole | python/zotero4rst/__init__.py:231-281 | no connection, a parse error or an unknown item fails and changes nothing; otherwise the record built from the parse, the alias and the item id is tracked and placed, with a twenty-digit label on the footnote and the document's new state given in full; the connection's alias table, flag and position counter never change |

## Left out

- The network bridge (`firefox_connect`, `zotero_resource`, the timeouts) is I/O. The processor calls (`registerItemIds`, `getCitationBlock`, `getBibliographyData`'s `makeBibliography`, `instantiateCiteProc`'s style set-up) become a returned value (what is sent) or a parameter (what comes back). The `try`/`catch` debug logging is left out.
- `getCitationBlock` is not modelled: it only reads the processor's reply and passes it to the `escape` builtin.
- `parseLibraryKeyHash` and `getByLibraryAndKey` are modelled as one lookup, a map from the prefixed key to the item id. A missing item, where the source fails (in `getItemId` when the lookup returns `null` or `undefined`, or in Python's `int(...)` when the returned id is not a number), is an `UnknownItem` error.
- `escape`, `html2rst`, `unquote`, `json.loads` and `JSON.stringify` are foreign. `escape` is a function parameter. The conversion of the citation and bibliography text to reST is not modelled, and the text is left as the processor's markup.
- JavaScript numbers are modelled as integers. Object members are kept in enumeration order.
- The docutils machinery (directives, role registration, `note_pending`, `note_footnote_ref`, `note_autofootnote`, `replace_self`, the transform scheduler) is modelled only as an abstract tree of numbered nodes with kinds and parent pointers. It keeps the list of pending nodes, the footnote names and the node kinds. Replacing a pending node is a change of its kind to `CitationText`.
- Footnote numbers come from docutils auto-numbering. They are a map on the document (`Document.NumberFootnote`). The transform reads the number from the footnote's label text, and in the model it reads it from that map.
- Placement.Document.PlaceCitation (and through it `TrackAndPlace` and `CiteRole`): the role's returned nodes (the pending node, or the footnote reference) are modelled as appended at once to `host`, an element already attached under the inliner's parent. In docutils the role only returns them, and the paragraph holding them is attached to the inliner's parent after the role returns, while the footnote is attached during the call. So when the footnote goes to the inliner's parent itself, the source ends with the footnote before the citing paragraph, and the model with the citing element before the footnote. No property of the model depends on this order.
- ExportJs.GetBibliographyData: follows the code, so a `null` inside the processor's reply comes back as `{}`. Keeping the reply's shape is promised only for replies without `null` (see Findings).
- Configuration-file reading and `SafeConfigParser` `%` interpolation are left out. The `keys` section is a map, and `LoadKeys` merges it in.
- The randomness of `random_label` is the parameter `draw`; only the shape of a label is modelled.
- The setup and bibliography directives, the global connection variable, the verbose flag and stderr diagnostics are left out. The missing-connection check is the `NoConnection` error of `CiteRole`.
- The `smallcaps` role is outside the citation core.
- `Registry.Connection` keeps `cite_pos` only to state that it stays 0; the source never uses it.

## Findings

| source | as written | input that shows it | evidently intended | confidence | as-written member | corrected member |
|---|---|---|---|---|---|---|
| extension/resource/csl/export.js:60-65 | `typeof null === "object"`, so a `null` takes the object branch and comes back as `{}` | `{"note": null}` becomes `{"note": {}}` | every non-string scalar, `null` included, is returned unchanged, so the escaped data has the shape of the processor's data | medium, not executed | ExportJs.NullMemberLosesShape | ExportJs.EscapeStringValuesKeepsShape |
