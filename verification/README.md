# URL truncation variants — a verified Dafny model

This project models the string-processing core of a command-line tool that turns URLs into
truncated variants. It covers three parts:

- **Variation generator** (`generateVariations`). A breadth-first worklist splits a URL at
  every configured delimiter. It records each prefix that ends at a delimiter and expands
  every new prefix again, until nothing new appears.
- **Append expander and pipeline** (`applyAppends`, `processURLs`).
  - The delimiter specification is cleaned into a list.
  - Every URL is expanded into its variations.
  - Every variation is extended with the requested suffixes. A list of suffixes takes
    precedence over a single suffix.
  - With de-duplication on, only the first occurrence of each output is kept.
- **Keyword matcher** (`parseKeywords`, `processFind`, `processFindX`,
  `generateOutputFileName`).
  - Comma-separated keywords are parsed.
  - URLs are kept if they contain any keyword (`Find`) or every keyword (`FindX`).
  - The output file name is built from the mode and the sanitized keywords.

Modules:

- `GoStrings` (gostrings.dfy) models the parts of Go's `strings` package that the code uses:
  `Index`, `Contains`, `Split` for a non-empty separator, `Join`, `ReplaceAll` and
  `TrimSpace`. `TrimSpace` uses the white-space table of `unicode.IsSpace`. The module also
  proves `Join(Split(s, d), d) == s`.
- `Collections` (collections.dfy) holds element sets, duplicate-freedom, the empty-string
  filter, and first-occurrence de-duplication.
- `Variations` (variations.dfy) models the worklist.
  - Its result is characterised as the *variation set*: the least set that contains the URL
    and is closed under taking a delimiter-terminated truncation (`IsVariationSet`).
  - The worklist's loop invariant is `Sound`.
  - Termination follows from the queue holding distinct prefixes of the URL, so it never
    holds more than `|url| + 1` strings.
- `Appends` (appends.dfy) models `applyAppends`.
- `Pipeline` (pipeline.dfy) models the pure part of `processURLs`. `ExpandAll` is the
  reference definition of its output before de-duplication: URL by URL, variation by
  variation, suffix by suffix.
- `Find` (find.dfy) models the keyword matcher.
- `Scenarios` (scenarios.dfy) works through two examples:
  - `"a=b=c"` split at `=`;
  - a keyword string that holds no keyword.

Two behaviours of the code are easy to miss:

- The delimiter pieces of `processURLs` are **not** trimmed (main.go:221-228 only drops
  empty pieces).
- A non-empty keyword string that parses to no keyword, such as `" , "`, makes `FindX`
  match every URL. The guard at find.go:34 only tests for the literal empty string, and the
  loop at find.go:41-50 then keeps `allMatch` true. `Find.NoKeywordsParsed` and
  `Scenarios.BlankKeywordsExample` state this behaviour.

## Model

| member | source | states |
|---|---|---|
| GoStrings.IndexFirst | main.go:305 | `Index` returns the first occurrence of the separator, and -1 exactly when there is none |
| GoStrings.Contains | find.go:22 | substring containment holds exactly when the keyword occurs at some position of the URL |
| GoStrings.SplitSingle | main.go:305-308 | a split has a single part exactly when the delimiter does not occur, and that part is the whole string |
| GoStrings.SplitPartsFree | main.go:305 | no part that `Split` returns contains the separator |
| GoStrings.SplitPiecesFreeOf | find.go:57 | no piece of a split at a single character contains that character |
| GoStrings.JoinAt | main.go:312 | joining the first i parts, the separator, and the join of the remaining parts gives the join of all parts |
| GoStrings.JoinSplit | main.go:326 | `Join` of the parts that `Split` returns, with the same separator, gives the original string back |
| GoStrings.ReplaceChar | find.go:73-75 | replacing one character by another keeps the length and acts position by position |
| GoStrings.TrimSpace | find.go:60 | the result is the slice of the input between its leading and trailing white space, and it neither starts nor ends with white space |
| GoStrings.TrimSpaceIdempotent | find.go:60 | trimming a trimmed keyword changes nothing |
| GoStrings.TrimSpaceKeeps | find.go:60 | trimming never introduces a character that was not in the piece |
| Collections.DropEmpty | main.go:223-228 | the filtered list holds exactly the non-empty strings of the input and is no longer than it |
| Collections.DropEmptyAppend | main.go:223-228 | filtering a concatenation filters each part and keeps the parts in their order, so the filter never reorders the strings it keeps |
| Collections.DropEmptyNone | find.go:59-64 | filtering a list without empty strings returns it unchanged |
| Collections.DedupSpec | main.go:263-267 | `Dedup`, the `seen`-set filter, keeps every element exactly once, with no repetition, in order of first occurrence |
| Collections.DedupSeen | main.go:263-264 | a string already seen leaves the filtered list as it was, and it still has every property of the filter's output |
| Collections.DedupFresh | main.go:263-267 | a string not seen before is appended, and the filtered list keeps every property of the filter's output |
| Collections.DistinctCard | main.go:338-341 | a list without repetitions has as many distinct elements as entries |
| Variations.TruncationIsPrefix | main.go:311-315 | `Truncation`, the re-joined prefix plus delimiter, is a prefix of the string it was cut from |
| Variations.TruncationEndsWith | main.go:315 | every re-joined prefix plus delimiter ends with the delimiter |
| Variations.FirstTruncation | main.go:312-315 | the first truncation is the text before the first occurrence of the delimiter, then the delimiter |
| Variations.LaterTruncation | main.go:312-315 | a later truncation is the text before the first occurrence, the delimiter, and the previous-numbered truncation of the text after it |
| Variations.ChildrenBelowMembers | main.go:311-315 | the truncations produced before round i of the prefix loop are exactly those numbered 1 to i - 1 |
| Variations.ChildrenMembers | main.go:305-315 | the children of a string at a non-empty delimiter are exactly its truncations 1 to (number of parts - 1) |
| Variations.TruncationIsChild | main.go:311-315 | every truncation the prefix loop builds is a child of the current string |
| Variations.ChildrenArePrefixes | main.go:311-315 | every truncation of a string at a delimiter is a prefix of it ending with that (non-empty) delimiter |
| Variations.PrefixQueueBound | main.go:295-296 | a queue of distinct prefixes of the URL holds at most `|url| + 1` strings, which bounds the worklist |
| Variations.PrefixesCard | main.go:295-296 | a string of length n has exactly n + 1 prefixes |
| Variations.Visit | main.go:317-323 | recording an unseen truncation adds exactly it to the visited set, appends it to the queue, and keeps the worklist sound |
| Variations.AddVisited | main.go:317-322 | a fresh truncation of a visited string is a prefix of the URL ending with a delimiter and lies in every closed set holding the URL |
| Variations.VisitNext | main.go:311-323 | one round of the prefix loop adds the i-th truncation and keeps the queue's existing entries |
| Variations.VisitAll | main.go:311-324 | the prefix loop adds exactly the truncations of the current string at the delimiter |
| Variations.NewChildrenShorter | main.go:311-324 | every child of a visited string that was not visited before is strictly shorter than that string |
| Variations.ExpandWith | main.go:300-334 | one delimiter pass adds exactly the children of the current string, each strictly shorter than it; the re-join step adds nothing |
| Variations.ExpandCurrent | main.go:300-334 | expanding the current string with every delimiter keeps the worklist sound, only grows the visited set and the queue, and leaves every child of the string visited |
| Variations.Finished | main.go:296-335 | once every queued string has been expanded with every delimiter, the queued strings form the variation set of the URL |
| Variations.VariationsArePrefixes | main.go:311-323 | every variation is a prefix of the URL, and every variation other than the URL itself ends with one of the delimiters |
| Variations.GenerateVariations | main.go:280-344 | the result has no repetitions; it is the least set holding the URL closed under truncation; every element is a prefix of the URL that is the URL or ends with a delimiter; there are at most `|url| + 1` elements; the result is exactly `[url]` when no delimiter occurs |
| Variations.VariationSetUnique | main.go:280-344 | a URL has only one variation set |
| Variations.NoDelimiterSingleton | main.go:305-308 | when no delimiter occurs in the URL, its variation set is the URL alone |
| Variations.VariationsClosed | main.go:296-323 | for every variation and delimiter, every re-joined prefix plus delimiter is again a variation |
| Variations.VariationsIdempotent | main.go:296-323 | generating the variations of a variation yields a subset of the original variations |
| Appends.PrefixEach | main.go:356-360 | each output is the base followed by the corresponding suffix of the list, one output per suffix |
| Appends.ApplyAppends | main.go:348-375 | one output per effective suffix; every output starts with the base and continues with that suffix |
| Appends.ApplyAppendsIsConcat | main.go:348-375 | the i-th output is the base concatenated with the i-th effective suffix |
| Appends.ApplyAppendsMembers | main.go:348-375 | the outputs are exactly the base followed by one of the effective suffixes |
| Appends.ApplyAppendsPrecedence | main.go:350-372 | the effective suffixes `Suffixes`: a non-empty suffix list wins and the single suffix is ignored; otherwise a non-empty single suffix gives `[base + s]`; otherwise the output is `[base]` |
| Pipeline.ParseDelimitersSpec | main.go:221-242 | the delimiters `ParseDelimiters` returns are exactly the non-empty comma pieces, in order, plus `"/"` when path splitting is on; `"/"` is added only when absent; none is empty and none other than `"/"` holds a comma |
| Pipeline.ParseDelimitersRoundTrip | main.go:221-228 | without empty pieces and path splitting, joining the delimiter list with commas gives the specification back |
| Pipeline.ProductLength | main.go:257-259 | each variation contributes exactly one output per effective suffix |
| Pipeline.ProductAppend | main.go:257-272 | the outputs of two lists of variations are the outputs of the first followed by those of the second |
| Pipeline.ProductLast | main.go:257-259 | the outputs of a variation list end with those of its last variation |
| Pipeline.ProductAppendLast | main.go:257-259 | the outputs of a concatenation end with the appended forms of its last variation |
| Pipeline.ProductAt | main.go:257-272 | the appended forms of variation j come after those of all earlier variations and before those of all later ones |
| Pipeline.ProductMembers | main.go:257-259 | an output is exactly an appended form of some variation |
| Pipeline.ExpandAllMembers | main.go:253-273 | an output is exactly an appended form of some variation of some URL |
| Pipeline.DedupSnoc | main.go:263-267 | a new string is emitted exactly when it has not been seen before |
| Pipeline.EmitOne | main.go:262-270 | after one generated string, the result is still the stream (or its first occurrences) and `seen` is still the set of strings met |
| Pipeline.Emit | main.go:262-271 | after the appended forms of one variation, the result is the extended stream, de-duplicated when asked |
| Pipeline.EmitUrl | main.go:257-272 | after all variations of one URL, the result covers all their appended forms in variation order |
| Pipeline.ProcessUrl | main.go:253-273 | one URL's variations are its variation set without repetitions, and the result and `seen` set are extended by all their appended forms |
| Pipeline.ProcessUrls | main.go:219-276 | every URL's variations form its variation set without repetitions; the result is every appended form in URL, variation, suffix order; with de-duplication it has no repetitions and the same elements; its members are exactly the appended forms of the variations; every URL followed by every suffix is among them; every member is a prefix of some URL (the URL itself or ending with a delimiter) followed by a suffix |
| Pipeline.EmitAll | main.go:250-273 | after the URL loop, each URL's list is its variation set without repetitions, and the result is the stream of their appended forms (de-duplicated when asked) with `seen` the set of strings met |
| Pipeline.UrlsInResult | main.go:253-272 | since every URL is among its own variations, every URL followed by every effective suffix is an output |
| Pipeline.OutputsFromUrls | main.go:253-272 | every output is a variation-shaped prefix of some URL followed by one of the effective suffixes |
| Pipeline.OutputFromVariation | main.go:257-259 | an appended form of a variation is a prefix of the URL (the URL itself or ending with a delimiter) followed by one of the suffixes |
| Find.TrimEach | find.go:59-60 | each piece is replaced by its trimmed form, position by position |
| Find.ParseKeywords | find.go:56-65 | keywords are non-empty, comma-free and already trimmed, and are exactly the non-empty trimmed comma pieces |
| Find.ParseKeywordsInOrder | find.go:56-65 | when no piece is blank, the i-th keyword is the i-th trimmed piece |
| Find.ContainsAny | find.go:21-26 | true exactly when some keyword occurs in the URL |
| Find.ContainsAll | find.go:41-47 | true exactly when every keyword occurs in the URL |
| Find.ProcessFind | find.go:13-29 | the matches are exactly the input URLs holding some parsed keyword; none for an empty keyword string |
| Find.ProcessFindX | find.go:33-53 | the matches are exactly the input URLs holding every parsed keyword; none for an empty keyword string |
| Find.FindXWithinFind | find.go:13-53 | both match sets are subsets of the input, and `FindX`'s lies within `Find`'s when some keyword was parsed |
| Find.NoKeywordsParsed | find.go:33-53 | a non-empty string without keywords matches nothing under `Find` and every URL under `FindX` |
| Find.Sanitize | find.go:72-75 | the result has the same length and replaces exactly `/`, `\` and `:` by `_` |
| Find.SanitizeSafe | find.go:72-75 | a sanitized string holds none of `/`, `\`, `:`, and sanitizing again changes nothing |
| Find.GenerateOutputFileName | find.go:69-79 | the name is the mode, a dash, the dash-joined keywords with unsafe characters replaced by `_`, then `.txt` |
| Find.OutputFileNameSafe | find.go:69-79 | the keyword part of the name holds no `/`, `\` or `:` |
| Scenarios.SplitStep | main.go:305 | a string that starts with a character other than the separator and then the separator splits into that character and the split of the rest |
| Scenarios.TruncationStep | main.go:311-315 | for such a string, the first truncation is its first two characters and the second puts them in front of the first truncation of the rest |
| Scenarios.ThreePartChildren | main.go:311-315 | a string split into three parts has exactly its first two truncations as children |
| Scenarios.SplitExample | main.go:305-315 | `"a=b=c"` splits at `=` into `a`, `b`, `c`, and its truncations are `"a="` and `"a=b="` |
| Scenarios.TrailingDelimiterExample | main.go:311-323 | `"a="` truncates only to itself, which the visited set absorbs |
| Scenarios.TwoDelimiterExample | main.go:311-315 | `"a=b="` truncates to `"a="` and to itself |
| Scenarios.ExampleClosed | main.go:296-335 | `"a=b=c"`, `"a="` and `"a=b="` together are closed under expansion at `=` |
| Scenarios.VariationsExample | main.go:280-344 | the variations of `"a=b=c"` at `=` are exactly the string, `"a="` and `"a=b="` |
| Scenarios.BlankKeywordsExample | find.go:33-53 | `" , "` parses to no keyword; `Find` then matches nothing and `FindX` matches every URL |

## Left out

- `main` (main.go:25-119) is left out: flag parsing, exit codes and console output are command-line plumbing.
- `showBanner` and `showHelp` (main.go:122-177) are left out: presentation only.
- `readLines`, `writeLines` (main.go:181-216) and `saveUrlsToFile` (find.go:83-116) are left out: file I/O. URLs and suffixes are taken as already-read sequences of strings.
- The warning printed at main.go:243-246 for an empty delimiter list is left out: a side effect only. The model proceeds as the code does.
- setup.go is not part of this model: it handles installation, OS detection and privileges.
- Variations.GenerateVariations returns the queue, which lists the variations in order of first discovery. The Go code returns the keys of a map, whose iteration order is unspecified. The contract therefore speaks only of the element set and the absence of repetitions.
- Variations.GenerateVariations keeps one visited set where the code keeps two maps (`variations` and `processed`). The code updates both maps together, so they always hold the same keys, and the inner `!processed[...]` test never fails.
- Variations.ExpandWith proves that the re-join step of main.go:326-334 finds the string already visited instead of executing its branch. By `GoStrings.JoinSplit` the re-joined string is the current string, which is always visited.
- Pipeline.ProcessUrls characterises each URL's variation list only up to order (it is the variation set, without repetitions), for the same reason. The order of the final result follows the order of those lists.
- Find.ProcessFind and Find.ProcessFindX return sets; the Go maps' iteration order is not modelled.
- Find.ParseKeywords states the order of keywords position by position only when no piece is blank (`Find.ParseKeywordsInOrder`). Otherwise order follows from the definition as the filtered list of trimmed pieces.
- Strings are sequences of code points. Go's byte-oriented string indexing is not modelled, and neither are invalid UTF-8 bytes.
