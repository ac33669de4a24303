# glob_to_regex in Dafny

A model of the header-only C++ library `glob_to_regex`, with proofs about it.
The library turns a shell glob pattern (`?`, `*`, `**`, `[...]`, `[!...]`,
`\X`) into an ECMAScript regular expression, or into an error code.
Its directory walker builds on that translation.
The model also covers the configuration side of the pseudo-gitattributes example.

The model is organised as follows:

- `bytes.dfy` (module `Bytes`): octets, and the C-string view `CStr` of a byte string.
  `CStr` is what a `const char*` built from the string denotes: everything before the first NUL.
- `glob_to_regex.dfy` (module `GlobToRegex`): the error enumeration, the escape tests and the translator.
  - The translator's loop is the method `TranslateGlobPatternToRegex`, with its two inner loops.
  - It is proved against the functions `Scan` and `ClassBody`.
  - Those functions state what the loop appends for the part of the pattern it has not yet read, or which error it stops with.
- `glob_tokens.dfy` (module `GlobTokens`): an independent description of the glob constructs, used as the translator's partner.
  - `Token` is the construct datatype; `Unparse` gives its canonical glob spelling and `Render` the regex it stands for.
  - The main result is a round trip: for every non-empty well-formed token sequence, `Translate(Unparse(toks)) == Success(Render(toks))`; the empty sequence is `Empty`.
  - Further lemmas show that each malformed construct, placed after a well-formed prefix, fails with exactly the error the code reports for it.
- `glob_examples.dfy` (module `GlobExamples`): translations of patterns from the repository's test table and of error cases of the code.
- `dir_walk.dfy` (module `DirWalk`): the decisions `dirWalk_` takes before visiting any entry.
  - It translates the pattern text first and propagates any error.
  - It then finds the base path: the nearest ancestor without `* ? [ ]`.
  - It fails with `BadBasePath` when the base path is empty or does not exist.
  - It traverses recursively exactly when the part below the base contains `**`.
- `pseudo_gitattributes.dfy` (module `PseudoGitattributes`), covering the example program's configuration side:
  - `splitLine`, a two-state scanner with a backslash escape and `#`/CR/LF/NUL as end of line;
  - `readConfigStream`;
  - the rewriting of each rule's pattern (`*.txt` becomes `**/*.txt`; `/x` becomes `x`);
  - the choice of the last matching rule.

Two facts about the code shape the model:

- The walker translates the pattern before it looks for the base path (`glob_to_regex.hpp:263-272` comes before `:312-316`).
  A pattern that is malformed *and* has a missing base therefore reports the translation error.
- `isBadEscapeChar` (`glob_to_regex.hpp:92-100`) rejects ASCII letters, digits and every octet from 0x80 to 0xff after a backslash.
  So only punctuation and space may be escaped.

The translator never produces `BadTerm`; `Translate` promises so.

## Model

| member | source | states |
|---|---|---|
| GlobToRegex.Code | glob_to_regex.hpp:67-75 | the enumerators' integer values: 0 exactly for `Ok`, every other value between -6 and -1 |
| GlobToRegex.CodeInjective | glob_to_regex.hpp:67-75 | distinct enumerators have distinct integer values |
| GlobToRegex.Any | glob_to_regex.hpp:77-79 | `any(e)` holds exactly when the value of `e` is non-zero, i.e. when `e` is not `Ok` |
| GlobToRegex.IsSpecialRegexChar | glob_to_regex.hpp:82-90 | the linear search of `specialChars` answers true exactly for the fourteen regex metacharacters and for NUL, the array terminator the range-for also visits |
| GlobToRegex.IsBadEscapeChar | glob_to_regex.hpp:92-100 | the end-of-pattern marker is a bad escape, and an octet is accepted after a backslash exactly when it is printable ASCII (space included) other than a letter or digit |
| GlobToRegex.Peek | glob_to_regex.hpp:142-147 | the lookahead returns the end marker exactly past the end of the pattern, and otherwise an octet, so the marker never collides with an octet |
| GlobToRegex.PutCharWithRegexEscape | glob_to_regex.hpp:129-136 | appends the octet itself, preceded by one backslash exactly when it is special; the last character appended is always the octet |
| GlobToRegex.ClassBody | glob_to_regex.hpp:209-230 | a class body either ends at a `]` (the octet just before the returned rest is `]`), leaving a strictly shorter rest of the pattern, or fails with only `BadEscape` or `BadBracket` |
| GlobToRegex.AppendClassBody | glob_to_regex.hpp:209-230 | the `for(;;)` loop of a bracket class returns exactly `ClassBody`'s error, or appends exactly the class body and leaves the index just after the closing `]` |
| GlobToRegex.AppendBracket | glob_to_regex.hpp:202-233 | the `[` branch emits `[` (and `^` for a leading `!`), the body and `]`, and continues with the scan of the rest; a failing body fails the whole scan with its error |
| GlobToRegex.Scan | glob_to_regex.hpp:116-236 | a scan fails only with `BadEscape`, `BadDoubleStar` or `BadBracket`, and a successful scan yields empty output exactly for an empty input |
| GlobToRegex.Translate | glob_to_regex.hpp:103-240 | `Empty` is reported exactly for the empty pattern; every failure is a real error and never `BadTerm` or `BadBasePath` |
| GlobToRegex.AppendConstruct | glob_to_regex.hpp:157-235 | one pass of the outer loop appends the regex of the construct at `i`: escape, `?`, `*`, `**` at the end (which breaks), `**/`, bracket class or plain octet; or it returns the scan's error |
| GlobToRegex.ScanEscape | glob_to_regex.hpp:164-171 | outside a class, a backslash before an accepted octet stands for that octet, regex-escaped, followed by the translation of the rest |
| GlobToRegex.ClassBodyEscape | glob_to_regex.hpp:221-227 | inside a class, a backslash before an accepted octet adds that octet, regex-escaped, to the body, which then goes on as before |
| GlobToRegex.TranslateGlobPatternToRegex | glob_to_regex.hpp:103-240 | the loop returns `Ok` with the regex `Translate` defines, or that function's error with an empty string; no partial output escapes |
| GlobToRegex.TranslateGlobPatternToRegexString | glob_to_regex.hpp:242-245 | the one-argument overload returns the empty string exactly when translation fails; this is sound because no successful translation is empty |
| GlobTokens.ClassBodyMembers | glob_to_regex.hpp:209-230 | a class body spelled member by member (with `]`, `\` and `!` escaped) is read back as those members, each regex-escaped |
| GlobTokens.ClassBodyClosed | glob_to_regex.hpp:209-216 | a spelled class body followed by `]` ends exactly there and hands back the rest of the pattern |
| GlobTokens.ScanClassToken | glob_to_regex.hpp:202-233 | a spelled class `[...]` or `[!...]` translates to `[...]` or `[^...]` with its members, followed by the translation of what comes after |
| GlobTokens.ScanToken | glob_to_regex.hpp:164-235 | each construct, followed by text it cannot merge with, translates to its own regex followed by the translation of that text |
| GlobTokens.ScanTokens | glob_to_regex.hpp:116-236 | the spelling of a well-formed token sequence translates construct by construct |
| GlobTokens.TranslateUnparse | glob_to_regex.hpp:103-240 | round trip: the spelling of any well-formed token sequence translates to the regex the tokens stand for, and the empty sequence to `Empty` |
| GlobTokens.TranslateBadEscape | glob_to_regex.hpp:164-167 | a backslash before a forbidden octet, or at the end of the pattern, is `BadEscape` after any well-formed prefix that does not end in a final `**` (after which the octet would make a `BadDoubleStar`) |
| GlobTokens.TranslateBadDoubleStar | glob_to_regex.hpp:185-196 | `**` followed by anything but `/` or the end (a third `*` included), after any well-formed prefix (one ending in `*`, `**` or `**/` included), is `BadDoubleStar` |
| GlobTokens.ClassBodyUnterminated | glob_to_regex.hpp:209-230 | a class body of raw octets other than `]` and `\` and of valid escapes, which reaches the end of the pattern, is `BadBracket` |
| GlobTokens.UnterminatedIsAtoms | glob_to_regex.hpp:209-230 | conversely, every class body that ends in `BadBracket` is such a run of raw octets and valid escapes |
| GlobTokens.TranslateBadBracket | glob_to_regex.hpp:202-230 | a `[` (or `[!`) whose class reaches the end of the pattern without its `]` is `BadBracket` after any well-formed prefix that does not end in a final `**` |
| GlobTokens.ClassBodyAtoms | glob_to_regex.hpp:209-230 | raw octets and valid escapes in front of a class body that fails leave its error unchanged |
| GlobTokens.ScanUnclosed | glob_to_regex.hpp:202-230 | a `[`, then raw octets and valid escapes, then a failing class body: the scan fails with that body's error, whether or not the class is negated |
| GlobTokens.TranslateBadClassEscape | glob_to_regex.hpp:202-230 | in a class that is still open after any raw octets and valid escapes, a backslash before a forbidden octet, or at the end, is `BadEscape` after any well-formed prefix that does not end in a final `**` |
| GlobTokens.ScanPlainText | glob_to_regex.hpp:235 | octets that are neither glob nor regex metacharacters are copied to the regex unchanged |
| GlobTokens.TranslatePlainText | glob_to_regex.hpp:103-240 | a non-empty pattern made of such octets translates to exactly itself |
| GlobExamples.NegatedClassExample | tests/test-0.cpp:85-86 | `[!c]at` translates to `[^c]at` |
| GlobExamples.NegatedRangeExample | tests/test-0.cpp:88-94 | `a[!3-5]` translates to `a[^3-5]`: the `-` is kept as the regex range operator |
| GlobExamples.DotStarExample | tests/test-0.cpp:37-41 | `a.*` translates to `a\.[^/]*` |
| GlobExamples.AnyDirsExample | tests/test-0.cpp:81-83 | `**/a.txt` translates to `([^/]+/)*a\.txt` |
| GlobExamples.EscapedDotExample | glob_to_regex.hpp:164-171 | `\.` translates to `\.`: the escaped octet is a regex metacharacter, so it stays escaped |
| GlobExamples.EscapedSpaceExample | glob_to_regex.hpp:164-171 | `a\ b` translates to `a b`: the escaped space needs no escape in the regex |
| GlobExamples.BadDoubleStarExample | glob_to_regex.hpp:193-196 | `**x` fails with `BadDoubleStar` |
| GlobExamples.BadBracketExample | glob_to_regex.hpp:210-213 | `a[b` fails with `BadBracket` |
| GlobExamples.BadEscapeExample | glob_to_regex.hpp:164-167 | `\5` fails with `BadEscape` |
| Bytes.CStr | glob_to_regex.hpp:264-267 | the `const char*` view of a string is its prefix before the first NUL: it holds no NUL, and when it is shorter than the string the next octet is NUL |
| Bytes.CStrAppend | glob_to_regex.hpp:264-267 | a NUL-free prefix survives the `const char*` view whole |
| DirWalk.ContainsSpecialGlobChar | glob_to_regex.hpp:288-298 | true exactly when one of `* ? [ ]` occurs before the first NUL |
| DirWalk.ContainsSpecialRecursiveGlobChar | glob_to_regex.hpp:274-284 | true exactly when two adjacent `*` occur before the first NUL |
| DirWalk.BasePath | glob_to_regex.hpp:300-310 | the base path is an ancestor of the pattern path (a prefix of its components) |
| DirWalk.BasePathNearest | glob_to_regex.hpp:300-310 | the base path is empty or free of glob characters, and every longer ancestor has one, so it is the nearest glob-free ancestor |
| DirWalk.BasePathEmpty | glob_to_regex.hpp:300-310 | the base path is empty exactly when the first component of the pattern path has a glob character, so such a pattern, if it translates, always gets `BadBasePath` (the empty path never exists) |
| DirWalk.FindBasePath | glob_to_regex.hpp:300-310 | the climbing loop returns exactly `BasePath` |
| DirWalk.RecursiveIffDoubleStar | glob_to_regex.hpp:312-323 | for a NUL-free pattern, the part below the base contains `**` exactly when the whole pattern does, because the base contributes no `*` |
| DirWalk.RootPattern | glob_to_regex.hpp:264-303 | the pattern `/` alone has the text `/`, which translates to the regex `/`, and is its own base path |
| DirWalk.PrepareWalk | glob_to_regex.hpp:263-323 | a translation error is returned as it is; otherwise an empty or missing base is `BadBasePath`; otherwise the result is `Ok`, the regex, the base path, and recursive traversal exactly when `**` occurs below the base |
| PseudoGitattributes.SplitLine | examples/2-pseudo-gitattributes.cpp:40-85 | the scanner loop returns exactly `Split`, the fold of its step function over the C string |
| PseudoGitattributes.IsBlank | examples/2-pseudo-gitattributes.cpp:43 | a blank (tab or space) is neither an end of line nor the escape |
| PseudoGitattributes.IsEol | examples/2-pseudo-gitattributes.cpp:44 | the C-string terminator ends a line, and no end-of-line byte is the escape |
| PseudoGitattributes.IsEscape | examples/2-pseudo-gitattributes.cpp:45 | the escape is not the C-string terminator |
| PseudoGitattributes.RunStopped | examples/2-pseudo-gitattributes.cpp:62-64 | after the end-of-line `break`, later bytes change nothing |
| PseudoGitattributes.SplitElementsNonEmpty | examples/2-pseudo-gitattributes.cpp:65-83 | every element returned is non-empty and NUL-free |
| PseudoGitattributes.StopAtEol | examples/2-pseudo-gitattributes.cpp:44-64 | an unescaped `#`, CR, LF or NUL ends the line: nothing after it contributes |
| PseudoGitattributes.TrailingBackslash | examples/2-pseudo-gitattributes.cpp:58-61 | a backslash at the very end of a line is dropped |
| PseudoGitattributes.EscapeAppends | examples/2-pseudo-gitattributes.cpp:53-61 | a backslash and the byte after it append that byte to the element being built, whatever the byte is |
| PseudoGitattributes.RunSkipBlank | examples/2-pseudo-gitattributes.cpp:65-70 | in the blank-skipping state, a backslash-free rest yields its words, with already collected bytes glued to the first word |
| PseudoGitattributes.RunInString | examples/2-pseudo-gitattributes.cpp:71-79 | inside an element, a backslash-free rest first extends the element up to the next blank, then yields its words |
| PseudoGitattributes.SplitPlainLine | examples/2-pseudo-gitattributes.cpp:40-85 | a backslash-free line splits into the maximal blank-free runs of its text before the first end-of-line byte, so it agrees with an independent splitter |
| PseudoGitattributes.EscapedLead | examples/2-pseudo-gitattributes.cpp:53-70 | an escaped byte before the first element starts no element by itself: it is glued to the next word, or dropped when none follows |
| PseudoGitattributes.WordsAreWords | examples/2-pseudo-gitattributes.cpp:65-79 | the independent splitter yields only non-empty, blank-free words |
| PseudoGitattributes.RunSkipBlankMarked | examples/2-pseudo-gitattributes.cpp:51-83 | between elements, with bytes already collected from escapes, any rest of a line yields the words of its marked bytes, the collected bytes in front of the first word |
| PseudoGitattributes.RunInStringMarked | examples/2-pseudo-gitattributes.cpp:51-83 | inside an element, any rest of a line first completes the element up to the next unescaped blank, then yields the words after it |
| PseudoGitattributes.SplitMarked | examples/2-pseudo-gitattributes.cpp:40-85 | every line, escapes included, splits like an independent description: unescaped blanks separate words, the line ends at its first unescaped `#`, CR, LF or NUL, and escaped bytes between words go to the front of the next word or are lost |
| PseudoGitattributes.ReadConfigStream | examples/2-pseudo-gitattributes.cpp:88-98 | the loop returns exactly `Config`: the non-empty splits of the lines, in order |
| PseudoGitattributes.ConfigAppend | examples/2-pseudo-gitattributes.cpp:88-98 | reading two runs of lines in turn concatenates their rows |
| PseudoGitattributes.ConfigLine | examples/2-pseudo-gitattributes.cpp:92-95 | one line gives one row exactly when its split is non-empty |
| PseudoGitattributes.ConfigRows | examples/2-pseudo-gitattributes.cpp:88-98 | every row is non-empty and is the split of one of the lines, so `config[i][0]` exists |
| PseudoGitattributes.NormalizePattern | examples/2-pseudo-gitattributes.cpp:127-136 | `**/` is prepended exactly when the pattern has no `/`; otherwise the pattern can only get shorter |
| PseudoGitattributes.NormalizeCases | examples/2-pseudo-gitattributes.cpp:127-136 | for a NUL-free pattern, the three outcomes: `**/` prepended, the leading `/` removed, or the pattern unchanged |
| PseudoGitattributes.NormalizeAnyDepth | examples/2-pseudo-gitattributes.cpp:133-136 | a pattern without `/` is rewritten so that any number of leading directories is allowed: its regex is `([^/]+/)*` followed by the original regex (or the original error) |
| PseudoGitattributes.NormalizeAnchored | examples/2-pseudo-gitattributes.cpp:129-132 | removing a leading `/` only drops the anchor: the original pattern's regex is `/` followed by the rewritten pattern's regex |
| PseudoGitattributes.NormalizeRootOnly | examples/2-pseudo-gitattributes.cpp:129-132 | the rule pattern `/` alone becomes the empty pattern, which fails to translate with `Empty` |
| PseudoGitattributes.BuildRules | examples/2-pseudo-gitattributes.cpp:125-142 | one rule per row, in order, holding the row index and the rewritten first element |
| PseudoGitattributes.LastMatchedRuleIndex | examples/2-pseudo-gitattributes.cpp:157-163 | -1 exactly when no rule matches; otherwise a matching rule after which no rule matches, so later rules win |

## Left out

- Directory traversal: the iteration over `recursive_directory_iterator` and `directory_iterator`, the callback and its early stop, and the directory options (symlinks, permission-denied entries) are not modelled, because they are file-system I/O.
  The model ends at the traversal decision `PrepareWalk` returns.
- `std::filesystem::exists` is the parameter `baseExists` of `PrepareWalk`, which is asked only about non-empty paths: the empty path never exists, so `PrepareWalk` never asks about it.
- PrepareWalk: constructing `std::regex` (`glob_to_regex.hpp:271`) throws `regex_error` for a translation the regex engine rejects. For example `[z-a]` becomes the out-of-order range `[z-a]`, so `dirWalk_` throws where `PrepareWalk` reports `Ok`.
- Paths are sequences of components, and "parent" drops the last one.
  The root alone is `[""]`, whose text is `/`; it is its own base, as `/` holds no glob character.
  Root names (a Windows drive or `\\?\` prefix), trailing separators, `.` and `..`, and `generic_u8string` conversion are not modelled.
- Path components are any byte strings. A component holding `/` or NUL has no counterpart in `std::filesystem::path`, and for such a path the model's parent is not `parent_path`.
- Root names are not modelled, so neither is a climb that never ends. `parent_path` of a root is that root, so `findBasePath`'s `while(! p.empty())` (`glob_to_regex.hpp:303-308`) would loop forever if a root name held one of `* ? [ ]`. The model's climb always ends, at the empty path at the latest.
- PrepareWalk: the part below the base is the lexical drop of the base's components, not `std::filesystem::relative`. Where `relative` would return `.` (base equal to the path), the model has the empty path; neither contains `**`, so the traversal decision is the same.
- Regex compilation and matching (`std::regex`, `regex_match`, the `icase` flag, `weakly_canonical`) are not modelled, because the regex engine is outside the library.
  The rule matcher of the gitattributes example is the parameter `isMatch` of `LastMatchedRuleIndex`.
- `readConfigStream` takes the lines `std::getline` would yield; the stream and its splitting into lines are not modelled.
- `procConfig`'s case-sensitivity and symlink flags, the `setPathPatternIndex` callback, `main` and all printing are not modelled, because they are I/O and glue.
- The example programs `0-glob-to-regex.cpp`, `1-glob-dirwalk.cpp` and `2-glob-rules.cpp` are not modelled; they are callers only.
- Integer widths: `n = static_cast<int>(globPattern.size())` and the `int` rule indices are unbounded integers here, so patterns or configurations longer than `INT_MAX` are not modelled.
- `BadTerm` is declared but never produced, so no member produces it.
