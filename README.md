# XssUrl in Dafny

A model of the XssUrl blacklist scanner, in both of its versions, with
proofs about it.

- **The current version** (`dist/XssUrl.php`, module `DistXssUrl`) keeps three fields: a URL, a list of
  PCRE pattern texts and an `xss` flag.
  - A new object holds seven groups of patterns, one per dangerous character:
    `<`, `>`, `'`, `"`, `(`, `)` and `;`.
  - `setUrl` stores a URL and runs `detect`. `detect` sets the flag when the
    URL is a true PHP value and some pattern matches it caselessly.
  - `include` appends patterns. `exclude` removes, as `array_diff` does,
    every entry equal to a given text. Neither re-runs detection, so the
    flag can be stale until the next `setUrl`, and the model keeps it so.
  - `getFiltered` runs `preg_replace` with each pattern in list order.
- **The legacy version** (`XssUrl.php`, module `LegacyXssUrl`) keeps the
  same state with four groups of literal texts. It detects by case-sensitive
  `strpos`.

The other modules:

- `Php` models the PHP built-ins the classes call: string truthiness, `strpos` and `array_diff`.
- `Preg` models the part of PCRE that the default patterns use:
  - a pattern is literal characters, the escapes `\(`, `\)` and `\;`, and `0*` (any run of zeros);
  - matching is caseless over ASCII;
  - `Parse` accepts exactly that sublanguage and turns the text into atoms `Lit(c) | ZeroStar`.

  In every accepted pattern, the literal right after a `0*` is not a zero.
  So the greedy matcher `MatchEnd` agrees with the reference semantics
  `Matches`, in which `0*` may end anywhere. This is proved both ways. The
  leftmost-first search `FirstMatch` and replace-all `ReplaceAll` are built on
  that matcher. `ReplaceAll` reads its replacement as preg_replace does (`Expand`):
  `\0`, `$0` and `${0}` put the match back, the other group references insert nothing,
  `\\` is one backslash and `\$` a dollar sign.
- `Subsequence` holds the subsequence relation used for "filtering only deletes".
- `Versions` compares the two versions' detection on one input.
- `Examples` states the outcomes that the repository's tests expect for some of their URLs. It also works through these cases:
  - the order of the list matters to filtering;
  - one preg_replace pass can leave a new match, and so can one getFiltered pass with the default list: `%3%3CC` filters to `%3C`, which is flagged;
  - the forms of group reference and escape in the replacement argument.

Both classes are imperative, as in the source:

- The loops of `detect` and `getFiltered` are `for` loops with invariants.
- Each method is proved against a function of the state: `Flagged` for
  detection and `Filter` for filtering.
- The lemmas are stated about those functions.

## Model

| member | source | states |
|---|---|---|
| `Preg.Fold` | dist/XssUrl.php:98 | the `i` modifier: the folded character is never an upper-case ASCII letter, and is the character itself or its lower-case form |
| `Preg.Parse` | dist/XssUrl.php:17-77 | a parsed pattern has a literal and never needs backtracking: a `0*` is always followed by a non-zero literal |
| `Preg.Atoms` | dist/XssUrl.php:98 | the atoms of an admitted text are its parse, and are well formed |
| `Preg.ScanFacts` | dist/XssUrl.php:17-77 | every scanned atom sequence has no `0*` that could backtrack, and only literals that can be written back |
| `Preg.ParseRender` | dist/XssUrl.php:17-77 | writing the atoms of a parsed text back and parsing again gives the same atoms |
| `Preg.RenderParse` | dist/XssUrl.php:17-77 | every well-formed, expressible atom sequence is the parse of its rendering |
| `Preg.ScanRender` | dist/XssUrl.php:17-77 | the rendering of an atom sequence is accepted by the scanner and scans back to that sequence |
| `Preg.ScanSuffix` | dist/XssUrl.php:17-77 | acceptance and scanning from a position depend only on the text from that position on |
| `Preg.ZeroEnd` | dist/XssUrl.php:98 | the greedy run of zeros ends at a non-zero character or at the end |
| `Preg.ZeroEndAt` | dist/XssUrl.php:98 | any run of zeros followed by a non-zero character is where the greedy run ends |
| `Preg.Matches` | dist/XssUrl.php:98 | the reference semantics of a caseless pattern, with no ensures of its own: a literal matches one character equal to it up to ASCII case, and `0*` a run of zeros of any length; the matcher lemmas below are proved against it |
| `Preg.MatchEnd` | dist/XssUrl.php:98 | a match ends inside the subject, and strictly after its start when a literal remains |
| `Preg.MatchEndSound` | dist/XssUrl.php:98 | whatever the greedy matcher finds is a match under the reference semantics |
| `Preg.MatchEndComplete` | dist/XssUrl.php:98 | every reference-semantics match is found by the greedy matcher, with the same end |
| `Preg.MatchEndIff` | dist/XssUrl.php:98 | the greedy matcher ends at `e` exactly when the reference semantics has a match ending at `e` |
| `Preg.FirstMatch` | dist/XssUrl.php:171 | the hit is at or after the search start and is a match of the pattern there |
| `Preg.FirstMatchNoneBefore` | dist/XssUrl.php:171 | no match starts before the first hit |
| `Preg.FirstMatchFinds` | dist/XssUrl.php:171 | a match at any position means a hit at or before it |
| `Preg.FirstMatchIsLeftmost` | dist/XssUrl.php:171 | the hit is the leftmost match, and its greedy end is the only match at that start |
| `Preg.LeftmostIsFirstMatch` | dist/XssUrl.php:171 | a leftmost match is exactly the hit that the search returns |
| `Preg.FirstMatchIff` | dist/XssUrl.php:171 | the search returns a hit exactly when that hit is the leftmost match |
| `Preg.Search` | dist/XssUrl.php:98 | the result of preg_match, with no ensures of its own: the leftmost-first scan finds a hit; `SearchIff` proves it equal to some substring matching under the reference semantics |
| `Preg.SearchIff` | dist/XssUrl.php:98 | preg_match succeeds exactly when some substring is in the pattern's language |
| `Preg.MatchesShift` | dist/XssUrl.php:98 | a match is still a match after being moved by an offset into a string holding the same characters there |
| `Preg.SearchMonotone` | dist/XssUrl.php:98 | a pattern that matches a string matches every string containing it |
| `Preg.MatchEndPrefix` | dist/XssUrl.php:98 | where a pattern matches, every prefix of it matches too |
| `Preg.SearchPrefix` | dist/XssUrl.php:98 | a string matched by a pattern is matched by each prefix of the pattern |
| `Preg.SearchNeedsLead` | dist/XssUrl.php:98 | a pattern matches only a string that holds its first literal in some case |
| `Preg.SearchLit` | dist/XssUrl.php:98 | a one-character pattern matches every string holding that character |
| `Preg.GroupRef` | dist/XssUrl.php:171 | a group reference in the replacement starts with `\` or `$` and ends with its last digit or, after `${`, a closing brace; a digit right after the `\` or `$` always starts one, any other first character never does |
| `Preg.Template` | dist/XssUrl.php:171 | the replacement read piece by piece as preg_replace reads it: no more pieces than characters, and every copied character is one of the replacement's |
| `Preg.Expand` | dist/XssUrl.php:171 | what preg_replace inserts for one match, with no ensures of its own: the pieces with group 0 as the match and every other group empty, since the patterns have no capture groups |
| `Preg.ExpandChars` | dist/XssUrl.php:171 | every character of the expansion comes from the replacement or, when the replacement refers to group 0, from the match |
| `Preg.ExpandLiteral` | dist/XssUrl.php:171 | a replacement without `\` and `$` is inserted as it is and never refers to the match |
| `Preg.ReplaceFrom` | dist/XssUrl.php:171 | preg_replace from a position on, with no ensures of its own: each leftmost match, taken in turn after where the previous one ended, replaced by the expansion of the replacement |
| `Preg.ReplaceAll` | dist/XssUrl.php:171 | preg_replace with no limit, with no ensures of its own: ReplaceFrom from the start of the subject |
| `Preg.ReplaceFromLeftmost` | dist/XssUrl.php:171 | preg_replace keeps the text before the leftmost match, inserts the expansion of the replacement for that match, and goes on after the match |
| `Preg.ReplaceFromNone` | dist/XssUrl.php:171 | with no match left, the rest of the subject is kept as is |
| `Preg.ReplaceFromDeletes` | dist/XssUrl.php:171 | replacing with the empty string yields a subsequence of the subject |
| `Preg.ReplaceAllDeletes` | dist/XssUrl.php:171 | a full replacement with the empty string yields a subsequence of the subject |
| `Preg.ReplaceAllShrinks` | dist/XssUrl.php:171 | deleting the matches of a matching pattern makes the string strictly shorter |
| `Preg.ReplaceAllIdentity` | dist/XssUrl.php:171 | deleting matches leaves the subject unchanged exactly when the pattern does not match it |
| `Preg.ReplaceAllChars` | dist/XssUrl.php:171 | every character of the result comes from the subject or from the replacement |
| `Preg.ReplaceAllClearsChar` | dist/XssUrl.php:171 | after replacing a one-character pattern, that character (in either case) is left only where the replacement brings it or, when the replacement refers to the match, where the subject had it |
| `Php.Truthy` | dist/XssUrl.php:96 | PHP's truth value of a string, with no ensures of its own: every string but `''` and `'0'` is true |
| `Php.TruthyWithin` | dist/XssUrl.php:96 | a true string stays true with anything put around it |
| `Php.StrPos` | XssUrl.php:76 | the result is the first occurrence of the needle, and none is returned exactly when the needle is not a substring |
| `Php.StrPosLeadAbsent` | XssUrl.php:76 | a needle whose first character is not in the haystack is not found |
| `Php.StrPosSameLength` | XssUrl.php:76 | against a haystack of its own length, a needle is found exactly when the two are equal |
| `Php.ArrayDiff` | dist/XssUrl.php:143 | array_diff on lists of strings, with no ensures of its own: `ArrayDiffOrder` and `ArrayDiffCount` state what it keeps |
| `Php.ArrayDiffOrder` | dist/XssUrl.php:143 | array_diff keeps the surviving entries in their original order |
| `Php.ArrayDiffCount` | dist/XssUrl.php:143 | array_diff drops every copy of a removed value and keeps every copy of the others |
| `DistXssUrl.XssUrl.constructor` | dist/XssUrl.php:110-121 | a new object has the seven groups merged in order as its list, an empty URL, and no detection |
| `DistXssUrl.XssUrl.Detect` | dist/XssUrl.php:93-103 | the flag becomes true exactly when the URL is a true value and some pattern of the list matches it |
| `DistXssUrl.XssUrl.Include` | dist/XssUrl.php:129-133 | the list becomes the old list followed by the given patterns; URL and flag are untouched |
| `DistXssUrl.XssUrl.Exclude` | dist/XssUrl.php:141-145 | the list becomes the array_diff of the old list and the given texts; URL and flag are untouched |
| `DistXssUrl.XssUrl.SetUrl` | dist/XssUrl.php:153-158 | the URL is the argument, and the flag is detection on it with the current list |
| `DistXssUrl.XssUrl.GetFiltered` | dist/XssUrl.php:167-174 | the result is the fold of preg_replace over the list in order, starting from the URL, each match replaced by the expansion of the replacement; nothing changes |
| `DistXssUrl.XssUrl.GetSource` | dist/XssUrl.php:179-182 | returns the URL last stored |
| `DistXssUrl.XssUrl.IsXss` | dist/XssUrl.php:187-190 | returns the flag last computed |
| `DistXssUrl.DefaultGroups` | dist/XssUrl.php:110-121 | the default list is the seven groups back to back, in constructor order, 35 entries in all |
| `DistXssUrl.DefaultListValid` | dist/XssUrl.php:17-77 | every default pattern is in the modelled sublanguage |
| `DistXssUrl.DefaultLeads` | dist/XssUrl.php:17-77 | every default pattern starts with a literal from `<>'"();&%` |
| `DistXssUrl.RawPattern` | dist/XssUrl.php:17-77 | each of the seven characters has a default pattern that is that single literal |
| `DistXssUrl.ScanEncoded` | dist/XssUrl.php:20 | a `%0*` pattern followed by two digits scans to `%`, a run of zeros and the two digits |
| `DistXssUrl.AtomsEncodedLessThan` | dist/XssUrl.php:20 | the pattern `%0*3C` is the atoms `%`, zeros, `3`, `C` |
| `DistXssUrl.AtomsEncodedPercent` | dist/XssUrl.php:21 | the pattern `%0*25` is the atoms `%`, zeros, `2`, `5` |
| `DistXssUrl.ScanDoubleEncoded` | dist/XssUrl.php:22 | the pattern `%0*253C` scans to `%`, zeros, `2`, `5`, `3`, `C` |
| `DistXssUrl.AtomsDoubleEncoded` | dist/XssUrl.php:22 | the pattern `%0*253C` is the atoms `%`, zeros, `2`, `5`, `3`, `C` |
| `DistXssUrl.Flagged` | dist/XssUrl.php:93-103 | the flag detect computes, with no ensures of its own: the URL is true and preg_match finds some pattern of the list in it; `FlaggedIff` states it by the reference semantics |
| `DistXssUrl.FlaggedIff` | dist/XssUrl.php:93-103 | detection holds exactly when the URL is true and some pattern's language holds one of its substrings |
| `DistXssUrl.FlaggedMonotoneList` | dist/XssUrl.php:129-133 | a URL flagged by either part of a list is flagged by the merged list, so include never clears a detection |
| `DistXssUrl.FlaggedMonotoneUrl` | dist/XssUrl.php:93-103 | a flagged URL stays flagged with anything put before or after it |
| `DistXssUrl.BenignNotFlagged` | dist/XssUrl.php:17-77 | a URL with none of the characters `<>'"();&%` is never flagged by the default list |
| `DistXssUrl.RawCharFlagged` | dist/XssUrl.php:17-77 | a URL holding any of `<>'"();` is flagged by the default list |
| `DistXssUrl.EncodedLessThanMatches` | dist/XssUrl.php:20 | `%`, any number of zeros, `3`, then `c` or `C` is matched by `%0*3C` |
| `DistXssUrl.EncodedLessThanFlagged` | dist/XssUrl.php:20 | such a URL is flagged by the default list |
| `DistXssUrl.DoubleEncodedRedundant` | dist/XssUrl.php:21-22 | wherever `%0*253C` matches, `%0*25` matches too |
| `DistXssUrl.ZeroUrlNeverFlagged` | dist/XssUrl.php:96 | the URL `0` is false in PHP and never flagged, although a pattern `0` would match it |
| `DistXssUrl.Filter` | dist/XssUrl.php:167-174 | what getFiltered returns, with no ensures of its own: preg_replace with each pattern in list order; the lemmas below state its properties |
| `DistXssUrl.FilterEmptyUrl` | dist/XssUrl.php:167-174 | an empty URL filters to the empty string for any list and replacement |
| `DistXssUrl.FilterAppend` | dist/XssUrl.php:170-172 | filtering with two lists back to back is filtering with the first, then the second |
| `DistXssUrl.FilterDeletes` | dist/XssUrl.php:167-174 | with an empty replacement, the filtered URL is a subsequence of the URL |
| `DistXssUrl.FilterChars` | dist/XssUrl.php:167-174 | every character of the filtered URL comes from the URL or from the replacement |
| `DistXssUrl.FilterIdentity` | dist/XssUrl.php:167-174 | filtering with the empty replacement leaves the URL unchanged exactly when no pattern matches it |
| `DistXssUrl.FlaggedIffFilterChanges` | dist/XssUrl.php:93-103 | a true URL is flagged exactly when filtering with the empty replacement would change it |
| `DistXssUrl.LiteralCleared` | dist/XssUrl.php:170-172 | a one-literal pattern anywhere in the list leaves none of its character in the result, when the replacement neither holds it nor refers to the match |
| `DistXssUrl.NoRawCharLeft` | dist/XssUrl.php:167-174 | the default list leaves none of `<>'"();` in the result, unless the replacement holds it or refers to the match |
| `LegacyXssUrl.XssUrl.constructor` | XssUrl.php:87-90 | a new object holds the four groups merged in order, with the state that setUrl leaves for the given string |
| `LegacyXssUrl.XssUrl.Detect` | XssUrl.php:66-81 | the flag becomes true exactly when the string is true and strpos finds some text of the list |
| `LegacyXssUrl.XssUrl.SetUrl` | XssUrl.php:96-100 | the string is the argument, and the flag is detection on it |
| `LegacyXssUrl.XssUrl.GetOriginal` | XssUrl.php:112-114 | returns the string last stored |
| `LegacyXssUrl.XssUrl.IsXss` | XssUrl.php:119-121 | returns the flag last computed |
| `LegacyXssUrl.Flagged` | XssUrl.php:66-81 | the flag _detect computes, with no ensures of its own: the string is true and strpos finds some text of the list; `FlaggedIff` states it by substring occurrence |
| `LegacyXssUrl.FlaggedIff` | XssUrl.php:66-81 | detection holds exactly when the string is true and some text of the list is its substring |
| `LegacyXssUrl.FalsyNeverFlagged` | XssUrl.php:69-72 | `''` and `'0'` are never flagged, whatever the list |
| `LegacyXssUrl.FlaggedMonotone` | XssUrl.php:75-79 | a flagged string stays flagged with anything put around it |
| `LegacyXssUrl.BenignNotFlagged` | XssUrl.php:17-52 | a string with none of `<>'"&%` is never flagged |
| `LegacyXssUrl.RawCharFlagged` | XssUrl.php:17-52 | a string with any of `<>'"` is flagged |
| `Versions.LegacyMissesLowerCase` | XssUrl.php:17-52 | no legacy text occurs in `%3c` |
| `Versions.LowerCaseEncoding` | XssUrl.php:76 | `%3c` is flagged by the current version and not by the legacy one, because strpos is case-sensitive |
| `Examples.LeadAbsentKeeps` | dist/XssUrl.php:171 | a pattern whose leading literal does not occur in the URL, in either case, leaves it unchanged |
| `Examples.FilterOrderMatters` | dist/XssUrl.php:21-22 | filtering `%253C` with `%0*25` before `%0*253C` leaves `3C`; the other order leaves nothing |
| `Examples.DoubleEncodedLessThanFiltered` | tests/XssUrlTest.php:136 | the default list filters the double-encoded `%253C` down to `3C`, as in the test's expected output |
| `Examples.ReplaceLeavesNewMatch` | dist/XssUrl.php:171 | one `preg_replace` pass on `%3%3CC` leaves `%3C`, which the same pattern matches again |
| `Examples.TailMisses` | dist/XssUrl.php:17-77 | every default pattern after `%0*3C` starts with a character of `<>'"();&`, or is `%0*` followed by a non-zero digit and a character, the two not being `3` and `C` |
| `Examples.RestKeepsEncoded` | dist/XssUrl.php:17-77 | no default pattern after `%0*3C` changes `%3C` |
| `Examples.FilterLeavesFlagged` | dist/XssUrl.php:167-174 | getFiltered with the default list and the empty replacement turns `%3%3CC` into `%3C`, which detect flags |
| `Examples.PlainUrlsPass` | tests/XssUrlTest.php:19-54 | all seven URLs that the test expects to pass (six plain ones and the empty URL) are flagged by neither version and come out of filtering unchanged |
| `Examples.ParenUrlsFlagged` | tests/XssUrlTest.php:28-51 | the six script URLs of the test that hold a parenthesis are flagged |
| `Examples.DataUriFlagged` | tests/XssUrlTest.php:42 | the base64 `data:` URL is flagged for its semicolon |
| `Examples.EncodedMarkupFlagged` | tests/XssUrlTest.php:105 | a URL with percent-encoded `<b>` markup is flagged |
| `Examples.WholeMatchForms` | dist/XssUrl.php:171 | `$0`, `\0` and `${0}` in the replacement all expand to the match |
| `Examples.OtherGroupEmpty` | dist/XssUrl.php:171 | `$1` expands to nothing, as the patterns have no capture group |
| `Examples.UnclosedBraceCopied` | dist/XssUrl.php:171 | `${1` without its closing brace is no reference and is copied as it is |
| `Examples.EscapeForms` | dist/XssUrl.php:171 | `\\` expands to one backslash, and `\$0` to the text `$0` |
| `Examples.WholeMatchKeepsChar` | dist/XssUrl.php:171 | with the replacement `$0`, replacing the pattern `<` leaves `<` as it was: the clause on the match in `LiteralCleared` is needed |

## Left out

- The legacy `getFiltered` (XssUrl.php:105-107) is `htmlspecialchars` with
  UTF-8 validation rules that are not visible here.
- Full PCRE is left out: classes, alternation, backtracking, patterns that match the empty string,
  malformed patterns and the backtick delimiter.
  - `Include` accepts only texts of the modelled sublanguage (type `PatternText`).
  - A `0*` must be followed by a non-zero literal.
  - Every default pattern meets both conditions, as `DefaultListValid` proves.
- `preg_match` warnings and `null` results for invalid patterns are not modelled, since such patterns cannot be included.
- Case folding is ASCII only. Locale-dependent folding is not modelled.
- Pattern text and atoms are not one-to-one: `;` and `\;` parse to the same
  literal. So the round trip is stated from text to text through atoms
  (`ParseRender`) and from atoms to atoms (`RenderParse`), not text to text.
- The fluent `return $this` of `include`, `exclude` and `setUrl` is dropped.
- Default arguments are passed explicitly: the `''` of `setUrl` and `getFiltered`, and the legacy constructor's `''`.
- The legacy `(string)` cast is dropped. The model takes strings only.
- `array_diff` keeps the original keys. The model renumbers the survivors,
  which is what `foreach` sees.
- PHP strings are byte strings, while the model's strings are sequences of
  Unicode characters. The two agree on valid UTF-8, but a URL holding bytes
  that are not valid UTF-8 cannot be written in the model.
- `include` merges with `array_merge`, which keeps a single entry for any
  string key that two lists share. The model's list is a sequence without
  keys, so `include` always appends every given pattern.
- In the replacement, references to groups 1 to 99 insert nothing, because
  no admitted pattern has a capture group. Patterns with groups are outside
  the modelled sublanguage.
- `strpos` with an empty needle is not relevant: the legacy list has no empty text.
  The model returns position 0 in that case.
