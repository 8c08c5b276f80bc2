# apidoc-postman converter, modelled in Dafny

This project models the converter in `src/parseAPIDoc.js`. The converter turns a list of apiDoc endpoint descriptors into a Postman collection (schema v2.1.0). For each descriptor it:

- rewrites the URL's `:name` parameters to `{name}`;
- upper-cases the HTTP verb;
- merges the declared headers into the default `Content-Type` and `Accept` pair;
- takes the request body from the first parameter example;
- renders a Markdown description.

The descriptors are then grouped into one folder per `group`. The collection gets an `info` block built from the project's `title` or `name`.

Modules, one per component:

- `Wrappers` (`wrappers.dfy`): `Option`, for the optional parts of the documentation tree.
- `Sequences` (`sequences.dfy`): the `Subsequence` relation, used for the field tables and the grouping.
- `Text` (`text.dfy`): the JavaScript string operations the converter calls: `replace` with a string pattern (first occurrence only, found by the first-occurrence search `IndexOf`), `split('/')`, `join`, and ASCII upper-casing.
- `UrlTemplate` (`url_template.dfy`): the URL loop. `Parse` is a tokenizer that stands in for path-to-regexp. It cuts a URL into literal text and `:name` holes, and the model takes the holes' `:name` texts, in order, as the captures of `exec`. This agrees with path-to-regexp except for holes that follow each other directly (see Left out). `RewriteUrl` runs the source's loop, which replaces the first occurrence of each capture. It is proved equal to `Braced`, which rewrites each hole in place.
- `Headers` (`headers.dfy`): the header loop as methods over a sequence.
  - `OverwriteMatching` is the `forEach`.
  - `SynthesizeHeaders` is the outer loop with `push`.
  - Both are proved against the fold `MergeAll`, about which the lemmas are stated.
- `ApiDoc` (`api_doc.dfy`): the input descriptor. Every optional section is an `Option`. The HTML table renderer is a function-typed parameter `Table`.
- `Description` (`description.dfy`): `_formatParams`, `_formatResponse` and `_formatAPIDescription` as string functions.
- `Endpoint` (`endpoint.dfy`): the output request entry. `EntryOf` says what `_formatAPI` builds. The method `FormatApi` builds it step by step, like the source.
- `Collection` (`collection.dfy`): `addInfo`, `_groupItemByGroup` and `toPostman` as functions. `toPostman` returns a fresh `Document`.
- `Scenarios` (`scenarios.dfy`): worked examples for grouping order, a declared header, the project name and the `/users/:id` endpoint.

The output field `request.method` is called `httpMethod` in the model, because `method` is a Dafny keyword.

Where the intended design of the converter and its code differ, the model follows the code:

- A declared header that overrides an existing key stores its `defaultValue` raw. Only an appended header has its first `_` turned into a space.
- The URL rewrite is not anchored to the match position: each capture's first occurrence is replaced. `UrlTemplate.RewriteIsAnchored` shows that, for the tokens the modelled tokenizer yields, this gives the same result as an anchored rewrite.
- There is no "invalid descriptor" check. The code trusts its input, and so does the model.

## Model

| member | source | states |
|---|---|---|
| `Text.IndexOf` | src/parseAPIDoc.js:49 | the result is the position of the first occurrence of the pattern; no earlier position matches; absent only when the pattern occurs nowhere |
| `Text.ReplaceFirst` | src/parseAPIDoc.js:99 | `replace` with a string pattern leaves the string unchanged when the pattern does not occur; otherwise the length changes by `|rep| - |p|` |
| `Text.ReplaceFirstAt` | src/parseAPIDoc.js:49 | when the pattern occurs at `k` and nowhere before, exactly that occurrence is replaced |
| `Text.Split` | src/parseAPIDoc.js:70 | `split('/')` yields at least one part, and no part contains the separator |
| `Text.JoinSplit` | src/parseAPIDoc.js:70 | joining the split parts with the separator gives back the string |
| `Text.SplitJoin` | src/parseAPIDoc.js:70 | splitting a join of separator-free parts gives back the parts |
| `Text.JoinHoldsPart` | src/parseAPIDoc.js:168 | every part occurs in the joined string |
| `Text.Upper` | src/parseAPIDoc.js:53 | upper-casing keeps the length, leaves no lower-case ASCII letter, maps each lower-case letter to its capital and keeps every other character |
| `Text.UpperIdempotent` | src/parseAPIDoc.js:53 | upper-casing twice is the same as once |
| `UrlTemplate.WordRun` | src/parseAPIDoc.js:45-46 | a parameter name is the longest run of word characters after the `:` |
| `UrlTemplate.ParseLeadParam` | src/parseAPIDoc.js:45-46 | a URL made of text holding no `:name` token and one trailing `:name` parses as that text followed by a single hole |
| `UrlTemplate.ParseSource` | src/parseAPIDoc.js:45-46 | the tokenizer inverts `Source` on well-formed templates, so every URL has exactly one cut into literal text and maximal `:name` holes |
| `UrlTemplate.Parse` | src/parseAPIDoc.js:45-46 | the tokenizer loses nothing: the URL is its leading text followed by each `:name` and its tail; the names are maximal `\w+` runs and the literal text holds no `:name` |
| `UrlTemplate.ReplaceAfterPlain` | src/parseAPIDoc.js:49 | after literal text with no `:name` in it, the first occurrence of `:name` is the parameter itself |
| `UrlTemplate.RewriteAll` | src/parseAPIDoc.js:47-50 | the source's loop: `replace` of the first occurrence of each capture by its braced name, in capture order; its effect is stated by `RewriteHoles` and `RewriteIsAnchored` |
| `UrlTemplate.RewriteHoles` | src/parseAPIDoc.js:47-50 | the replace-first loop over the holes' captures rewrites each hole in place and changes no literal text |
| `UrlTemplate.RewriteIsAnchored` | src/parseAPIDoc.js:44-50 | for every URL, the replace-first loop over the captures the modelled tokenizer yields equals the anchored rewrite `Braced` |
| `UrlTemplate.NoTokensIffPlain` | src/parseAPIDoc.js:45-50 | the pattern yields no capture exactly when no `:` in the URL is followed by a word character |
| `UrlTemplate.PlainUrlUnchanged` | src/parseAPIDoc.js:47-50 | a URL without parameters comes out unchanged |
| `UrlTemplate.RewriteIdempotent` | src/parseAPIDoc.js:44-50 | the rewritten URL has no `:name` left, so rewriting it again changes nothing |
| `UrlTemplate.RewriteUrl` | src/parseAPIDoc.js:44-50 | the loop's result equals the anchored rewrite and contains no `:name` |
| `Headers.Defaults` | src/parseAPIDoc.js:59-65 | the list starts as `Content-Type` then `Accept`, with distinct keys |
| `Headers.MergeExisting` | src/parseAPIDoc.js:83-93 | overriding an existing key keeps the length and every key at its position, changes only entries with that key, and gives them the raw `defaultValue` |
| `Headers.MergeNew` | src/parseAPIDoc.js:95-100 | a new key is appended after the unchanged entries, with only its first `_` turned into a space |
| `Headers.MergeKeepsDistinct` | src/parseAPIDoc.js:80-101 | one iteration keeps the header keys pairwise distinct |
| `Headers.MergeKeys` | src/parseAPIDoc.js:80-101 | after one iteration the keys are the old keys plus the declared field |
| `Headers.MergeAllKeepsPositions` | src/parseAPIDoc.js:77-102 | after all iterations every earlier entry keeps its key and position; `Content-Type` stays at 0 and `Accept` at 1 |
| `Headers.MergeAllKeepsDistinct` | src/parseAPIDoc.js:77-102 | after all iterations the keys are still pairwise distinct |
| `Headers.Unescape` | src/parseAPIDoc.js:99 | `replace('_', ' ')` keeps the length and leaves a value without `_` unchanged |
| `Headers.UnescapeFirst` | src/parseAPIDoc.js:99 | decoding turns only the first `_` into a space; every later `_` is kept |
| `Headers.LookupMerge` | src/parseAPIDoc.js:83-100 | after one declared header, its key holds the raw value if the key existed and the unescaped value if not; other keys keep theirs |
| `Headers.MergeAllValue` | src/parseAPIDoc.js:77-102 | each key ends with the value of its last declaration: raw if the key existed before that declaration, unescaped otherwise; undeclared keys keep their starting value |
| `Headers.OverwriteMatching` | src/parseAPIDoc.js:83-90 | the `forEach` gives every entry with the declared key its `defaultValue`, and `isKey` is true exactly when such an entry exists |
| `Headers.SynthesizeHeaders` | src/parseAPIDoc.js:59-102 | the in-place loop yields the declared headers merged in order into the defaults; keys are distinct and `Content-Type`, `Accept` are at 0 and 1 |
| `Description.Omit` | src/parseAPIDoc.js:138-140 | `_.omit(param, ['group'])` keeps exactly the columns not named `group` |
| `Description.OmitKeepsOrder` | src/parseAPIDoc.js:138-140 | a row in which no column is named `group` is unchanged, and omitting twice is the same as once |
| `Description.OmitAppend` | src/parseAPIDoc.js:138-140 | omitting from two joined rows is omitting from each and joining the results |
| `Description.OmitSubsequence` | src/parseAPIDoc.js:138-140 | the kept columns are a subsequence of the row: they keep their order |
| `Description.ParamsBlock` | src/parseAPIDoc.js:132-143 | `_formatParams`: the block is empty exactly when `parameter` is absent; otherwise it is the `Params` heading, then the table rendered from the rows with their `group` column dropped, then a blank line |
| `Description.ResponseBlock` | src/parseAPIDoc.js:145-179 | `_formatResponse`: the block is empty exactly when `success` is absent or has neither fields nor a non-empty example list; otherwise it is the `Response` heading, then the field sections joined by blank lines (only when `fields` is present), then the first example's block (only when there is one) |
| `Description.FieldSections` | src/parseAPIDoc.js:161-167 | one section per `success.fields` group, in order, each the group's key as a heading and its table with the `group` column dropped |
| `Description.ResponseShowsEveryGroup` | src/parseAPIDoc.js:159-169 | with `fields` present, every group's section occurs in the response block |
| `Description.ResponseUsesFirstExample` | src/parseAPIDoc.js:171-176 | later success examples do not change the block, which ends with the first example in a fenced JSON block |
| `Description.DescriptionText` | src/parseAPIDoc.js:181-187 | `_formatAPIDescription`: the URL and the method appear at fixed places of the heading; after the heading come the params block, then the response block; without both sections the description is the heading alone |
| `Endpoint.UrlOf` | src/parseAPIDoc.js:66-71 | `path` joined with `/` is the rewritten URL, and no segment contains `/`; `raw` is `http://{{host}}` followed by that URL; `protocol` is `http` and `host` is `["{{host}}"]` |
| `Endpoint.UrlPathDetermined` | src/parseAPIDoc.js:70 | `path` is the only list of `/`-free segments, at least one, that joins to the URL |
| `Endpoint.EntryOf` | src/parseAPIDoc.js:43-72 | `_formatAPI`'s entry is named by the descriptor's title; the `Entry` lemmas below state its method, URL, description, headers and body |
| `Endpoint.BodyOf` | src/parseAPIDoc.js:105-109 | the body exists exactly when `parameter.examples` does; it is then in raw mode and holds the first example's content |
| `Endpoint.BodyIgnoresLaterExamples` | src/parseAPIDoc.js:105-109 | examples after the first never reach the body |
| `Endpoint.FormatApi` | src/parseAPIDoc.js:43-112 | the step-by-step formatter builds exactly the entry `EntryOf` describes |
| `Endpoint.EntryUrl` | src/parseAPIDoc.js:44-71 | an entry's path consists of `/`-free segments that join back to the anchored rewrite of the URL, which has no `:name` left; `raw`, `protocol` and `host` are as fixed |
| `Endpoint.EntryUrlWithoutParameters` | src/parseAPIDoc.js:44-71 | a URL without parameters appears unchanged in the entry |
| `Endpoint.EntryMethod` | src/parseAPIDoc.js:53-58 | the method is the upper-cased verb and is left unchanged by upper-casing again |
| `Endpoint.EntryDescription` | src/parseAPIDoc.js:52-72 | the description is built from the entry's own rewritten URL and upper-cased method, not the descriptor's originals |
| `Endpoint.EntryHeaders` | src/parseAPIDoc.js:59-102 | an entry's header keys are distinct, with `Content-Type` at 0 and `Accept` at 1 |
| `Endpoint.EntryHeaderValues` | src/parseAPIDoc.js:77-102 | each header in an entry has the value its last declaration gives it, or its default |
| `Endpoint.EntryBody` | src/parseAPIDoc.js:104-109 | an entry has a body exactly when parameter examples are declared, and it is the first example in raw mode |
| `Collection.InfoOf` | src/parseAPIDoc.js:18-23 | `info.name` is the title when it is truthy and the name otherwise (absent if both are); `info.schema` is the v2.1.0 URL |
| `Collection.GroupKeys` | src/parseAPIDoc.js:32-33 | the folder keys are pairwise distinct and are exactly the groups that occur in the input |
| `Collection.Members` | src/parseAPIDoc.js:32-34 | a folder's descriptors come from the input and all belong to its group |
| `Collection.MembersInOrder` | src/parseAPIDoc.js:32-34 | a folder's descriptors are a subsequence of the input, in input order, and include every descriptor of that group |
| `Collection.GroupingIsPermutation` | src/parseAPIDoc.js:30-41 | the folders' descriptors, one folder after another, are a permutation of the input: each descriptor lands exactly once |
| `Collection.GroupsInFirstSeenOrder` | src/parseAPIDoc.js:32-33 | folders come in order of first appearance: every descriptor of a later folder is preceded by one of each earlier folder |
| `Collection.EntriesOf` | src/parseAPIDoc.js:34 | a folder's items are its descriptors' entries, one for one and in order |
| `Collection.GroupItems` | src/parseAPIDoc.js:30-41 | `_groupItemByGroup`: one folder per group key, in key order; folder names are distinct groups of the input, each folder has description `''` and holds exactly its group's entries |
| `Collection.EveryDescriptorFiled` | src/parseAPIDoc.js:30-41 | every descriptor's entry is in the folder named after its group |
| `Collection.ToPostman` | src/parseAPIDoc.js:12-16 | `toPostman`: `info` carries the schema URL and the title-or-name; `item` is the grouping `GroupItems`, so every descriptor's entry is filed in the folder of its group |
| `Scenarios.GroupOrder` | src/parseAPIDoc.js:30-41 | `[a1, u1, a2]`, with `a1`, `a2` in one group and `u1` in another, gives `a1`'s folder then `u1`'s, the first holding `a1`, `a2` in that order |
| `Scenarios.UnescapeToken` | src/parseAPIDoc.js:99 | `abc_123` is decoded as `abc 123` |
| `Scenarios.TokenHeader` | src/parseAPIDoc.js:59-101 | declaring `X-Token: abc_123` gives `Content-Type`, `Accept`, then `X-Token: abc 123` |
| `Scenarios.UsersById` | src/parseAPIDoc.js:44-71 | a `get` descriptor for `/users/:id` gives method `GET`, raw URL `http://{{host}}/users/{id}` and path `['', 'users', '{id}']` |
| `Scenarios.UntitledProject` | src/parseAPIDoc.js:18-23 | a missing or empty title falls back to the project name; a non-empty title wins |

## Left out

- path-to-regexp (src/parseAPIDoc.js:2, 45-46) is a foreign library. It is replaced by the tokenizer `Parse`, which recognises `:` followed by `\w+`. The model does not cover:
  - unnamed groups `(…)`, `*`, the `?`, `+` and `*` modifiers, custom parameter patterns and escapes;
  - the `exec` failure (`matches` null) that some of those produce.
- JavaScript's `$` patterns in replacement strings are not modelled. The converter's replacement strings (`{name}` and a space) never contain `$`.
- upper-case (src/parseAPIDoc.js:3, 53) is modelled as ASCII upper-casing. Unicode and locale case mapping are not.
- html-tableify (src/parseAPIDoc.js:4, 142, 166) is a foreign HTML renderer. It is the function-typed parameter `Table`, so every property holds for any renderer.
- A cell of a documented field is modelled as text. The JSON types of field values (booleans, nested objects) are not.
- lodash `groupBy` key order (src/parseAPIDoc.js:32-33): JavaScript lists integer-like object keys before the other keys. The model orders groups by first appearance, which is the order for all other keys. `success.fields` groups are likewise taken in the order given.
- The module-level `apiDoc` object and the shared instance (src/parseAPIDoc.js:6, 13-15, 190) are not modelled. `ToPostman` returns a fresh value on each call.
- The source overwrites `api.url` and `api.type` in the caller's descriptor (src/parseAPIDoc.js:52-53). The model passes the rewritten URL and the upper-cased verb as values and leaves the descriptor unchanged.
- `_formatMethodColor` (src/parseAPIDoc.js:114-130) is dead code, never called.
- `addItem` (src/parseAPIDoc.js:25-28) only forwards to `_groupItemByGroup`. It is folded into `ToPostman`.
- An empty `parameter.examples` array makes `examples[0].content` throw (src/parseAPIDoc.js:108). The model states this as the precondition `Convertible` and does not model the exception.
- A `parameter` section without `fields` makes `fields.Parameter` throw (src/parseAPIDoc.js:137). This is not modelled. The model's `rows` is `fields.Parameter`, and an absent `rows` gives an empty table, as `_.map(undefined)` does.
- Descriptor strings that JavaScript might find `undefined` are not modelled:
  - a missing `defaultValue` of a declared header (where `replace` would throw);
  - a missing `description` (rendered as `undefined`) or `title`.

  Every descriptor string is modelled as present.
- `UrlTemplate.Parse`: a hole with an empty tail followed directly by another hole (as in `/:a:b`) is not captured as path-to-regexp does it. Its non-greedy groups capture `:` and `a:b` there, and the source yields `/{}{:b}`, while the model yields `/{a}{b}`.
- A `header` section without `fields` makes `api.header.fields.Header` throw (src/parseAPIDoc.js:77). This is not modelled: `HeaderSection.declared` stands for `fields.Header`, and an absent `declared` means no declared headers, so a missing `fields` object cannot be expressed.
