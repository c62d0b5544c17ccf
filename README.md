# Surveyor: counting layout patterns in a PHP code base

The survey tool reports how often certain layout patterns occur in the PHP
files of a project: for instance a call whose last argument is a nested call
that starts on a new, indented line. The `Surveyor` class in `common.php` does
this in three steps.

- **Pattern compilation.** The constructor turns each template (`S(S(n`,
  `S(nS(n`) into a case-insensitive PCRE regex. The template is escaped with
  `preg_quote` and wrapped as `/…/i`. Each element letter (`S` for an
  identifier with optional blanks, `n` for a line break followed by
  indentation) is then replaced with its regex fragment by `str_replace`, one
  element at a time, in table order.
- **Counter lifecycle.** `survey` resets every template's counter to zero and
  walks the tree. `analyze` adds each compiled regex's match count on one
  file's content to that template's counter.
- **Tree walk.** `browse` skips `.` and `..`, descends into every
  subdirectory, and analyses a regular file only when its extension, once
  lowercased, is `php`.

The Dafny project has four modules:

- `PhpString` (`php_string.dfy`) models `strtolower` and the extension part of
  `pathinfo`.
- `PatternCompiler` (`pattern_compiler.dfy`) models the built-in templates and
  elements, `preg_quote`, `str_replace` and template compilation. It proves
  that the substitution order is safe.
- `FileTree` (`file_tree.dfy`) models the directory tree as an inductive
  datatype. It defines the total a walk should produce and proves the total
  is a sum over the eligible files and does not depend on listing order.
- `Survey` (`surveyor.dfy`) models the class `Surveyor`. Its four fields are
  class fields: the template list and element table are constants set by the
  constructor, and the two maps are variables. Its methods are written with the
  source's loops and recursion. Each method is proved against the functions
  above.

`preg_match_all` is not modelled. Every method that counts matches takes a
parameter `matchCount: (string, string) -> nat`, the number of matches of a
compiled regex on a file's content. Every result is stated for an arbitrary
such function.

## Model

| member | source | states |
|---|---|---|
| PhpString.LowerChar | common.php:99 | `strtolower` on one character never returns a capital letter, changes only capital letters, and turns a capital into a small letter |
| PhpString.ToLowerChars | common.php:99 | `strtolower` keeps the length, folds each character on its own, and leaves no capital letter |
| PhpString.ExtensionAfterLastDot | common.php:99 | the extension holds no `.`; it is empty when the name has no `.`; otherwise it is the suffix of the name that directly follows a `.` (hence the last one) |
| PhpString.LowerIsPhp | common.php:99 | `strtolower(e) == 'php'` holds exactly for the eight spellings of `php` in any mix of cases |
| PhpString.LowerCharIs | common.php:99 | exactly a small letter and its own capital lowercase to that small letter |
| PhpString.PhpExtensionIff | common.php:99 | the extension of a name lowercases to `php` if and only if the name ends in `.` followed by `php` in any mix of cases |
| PhpString.PhpExtensionEndsWithDotPhp | common.php:99 | forward direction: an extension lowercasing to `php` means the name ends in `.php` in some case |
| PhpString.DotPhpHasPhpExtension | common.php:99 | backward direction: a name ending in `.php` in any case has an extension lowercasing to `php` |
| PatternCompiler.UnquotePregQuote | common.php:143 | `preg_quote` loses nothing: reading its escapes back yields the original template |
| PatternCompiler.UnquoteQuoteChar | common.php:143 | the escape of one character reads back as that character, whatever follows it |
| PatternCompiler.StrReplaceFacts | common.php:146 | `str_replace` leaves a subject without the search letter unchanged, and leaves no search letter behind when the replacement holds none |
| PatternCompiler.SubstituteAppend | common.php:145-147 | replacing every element letter at once works piecewise over a concatenation |
| PatternCompiler.SubstituteIdentity | common.php:145-147 | text containing no element letter is left unchanged by substitution |
| PatternCompiler.ReplaceThenSubstitute | common.php:145-147 | when the first fragment holds no later key, its `str_replace` followed by substituting the rest at once equals substituting everything at once |
| PatternCompiler.OrderSafe | common.php:145-147 | when no fragment contains the key of an element replaced after it, the sequence of `str_replace` calls equals replacing every element letter of the escaped text at once: no replacement rewrites text an earlier one introduced |
| PatternCompiler.ElementsSafeOrder | common.php:37-40 | the `S` fragment contains no `n` and the `n` fragment contains no `S`, so the built-in element table is in a safe order |
| PatternCompiler.SubstitutePregQuote | common.php:143-146 | substituting the built-in elements into an escaped template expands each character on its own: `S` and `n` become their fragments and all other characters keep their `preg_quote` escape |
| PatternCompiler.CompileElements | common.php:143-147 | every template compiles to `/`, then its characters expanded one by one, then `/i` |
| PatternCompiler.NoSInExpand | common.php:38-39 | no expanded template contains an `S` |
| PatternCompiler.NoSInCompiled | common.php:143-147 | no `S` is left in any regex compiled with the built-in table |
| PatternCompiler.CompiledFromExpansion | common.php:143-147 | proof step for the two example lemmas: `CompileElements` restated for a template whose expansion is already known |
| PatternCompiler.ExpandFirstPattern | common.php:27 | the template `S(S(n` expands to S fragment, `\(`, S fragment, `\(`, n fragment |
| PatternCompiler.ExpandSecondPattern | common.php:28 | the template `S(nS(n` expands to S fragment, `\(`, n fragment, S fragment, `\(`, n fragment |
| PatternCompiler.CompiledFirstPattern | common.php:143-147 | `S(S(n` compiles to `/` S-fragment `\(` S-fragment `\(` n-fragment `/i` |
| PatternCompiler.CompiledSecondPattern | common.php:143-147 | `S(nS(n` compiles to `/` S-fragment `\(` n-fragment S-fragment `\(` n-fragment `/i` |
| FileTree.NodeCountIsSum | common.php:87-105 | the total a walk adds for a node equals the sum of the match counts over exactly the eligible files under it, in walk order |
| FileTree.ChildrenCountIsSum | common.php:91-104 | the same for a directory listing |
| FileTree.SumCountsAppend | common.php:117-120 | summing match counts over two lists of files in turn gives the sum of the two sums |
| FileTree.ChildrenCountAppend | common.php:91-104 | the total of a listing is the sum of the totals of its two halves |
| FileTree.ChildrenCountSnoc | common.php:91-104 | walking one more entry adds exactly that entry's count; a dot entry adds nothing |
| FileTree.ChildrenCountSingle | common.php:93-101 | proof step: a listing of one entry adds that entry's count |
| FileTree.ChildrenCountPermutation | common.php:91-104 | two listings holding the same entries in any order have the same total |
| FileTree.ChildrenCountReplace | common.php:91-104 | replacing one entry of a listing, at any position, by an entry that adds the same count keeps the listing's total; applied level by level, a reordering at any depth keeps every total |
| FileTree.SumCountsPermutation | common.php:117-120 | the same file contents summed in any order give the same sum |
| FileTree.SumCountsRemove | common.php:117-120 | proof step: taking one file out of a list takes its match count out of the sum |
| FileTree.DotsCountZero | common.php:93 | a listing made only of `.` and `..` entries adds nothing |
| FileTree.EmptyDirCount | common.php:91-104 | an empty directory, or one holding only `.` and `..`, has total zero |
| FileTree.EligibilityExamples | common.php:99 | `a.php` and `a.PHP` are analysed; `a.txt` and `a` are not |
| FileTree.ExtensionFilterExample | common.php:93-101 | in a directory holding `a.php`, `a.PHP`, `a.txt`, `a`, a socket and an empty subdirectory, only the two PHP files contribute |
| FileTree.SixEntries | common.php:91-104 | proof step for `ExtensionFilterExample`: a six-entry listing's total is the sum of its six entries' counts |
| Survey.BuiltinPatternsDistinct | common.php:26-29 | no built-in template is listed twice |
| Survey.CompiledTableKeys | common.php:142-149 | the compiled table has exactly one entry per template, keyed by the template |
| Survey.CompiledTableSnoc | common.php:142-150 | compiling one more template adds exactly that template's entry |
| Survey.CompiledTableStep | common.php:143-149 | proof step for `BuildRegexPatterns`: one turn of the outer loop records the template under its fully substituted regex |
| Survey.ApplyElementsStep | common.php:145-147 | proof step for `BuildRegexPatterns`: one turn of the inner loop performs the next element's `str_replace` |
| Survey.ZeroTableSnoc | common.php:130-132 | proof step for `ResetPatternCount`: resetting one more template sets exactly that counter to zero |
| Survey.ResetTable | common.php:128-133 | after the reset the counters' keys are exactly the templates and every value is 0 |
| Survey.WalkTotals | common.php:75-78 | counters that hold every template's walk total, keyed like the compiled table, are the survey's result |
| Survey.SurveyResultKeys | common.php:73-79 | a survey's result has exactly the templates as keys |
| Survey.SurveyResultIsSum | common.php:96-119 | each template's count in a survey's result is the sum, over the eligible files, of its regex's match counts |
| Survey.SurveyOrderIndependent | common.php:89-104 | the order in which the root directory lists its entries does not change a survey's result |
| Survey.SurveySubdirReorder | common.php:89-104 | reordering the listing of any subdirectory of the root, wherever it stands in the root's listing, does not change a survey's result |
| Survey.SurveyDependsOnFilesOnly | common.php:96-119 | two trees whose eligible files hold the same contents, the same number of times, give the same survey result, whatever the directories and the order of the walk |
| Survey.SurveyEmptyDir | common.php:75-78 | surveying an empty directory, or one holding only `.` and `..`, maps every template to 0 |
| Survey.Surveyor.constructor | common.php:61-64 | the object holds the built-in templates and elements with no template listed twice; `regexPatterns` maps every template, and nothing else, to its compiled regex; there are no counters yet |
| Survey.Surveyor.BuildRegexPatterns | common.php:140-151 | the regex table gains every template, keyed by itself, mapped to `'/' . preg_quote(template) . '/i'` with every element substituted in table order; on an empty table the result is exactly the compiled table |
| Survey.Surveyor.ResetPatternCount | common.php:128-133 | every template's counter is set to 0 and every other entry is kept |
| Survey.Surveyor.Survey | common.php:73-79 | the result is the counter map, with exactly one entry per template: each template's walk total over the tree. It depends only on the tree, the compiled table and the match counts, never on an earlier survey |
| Survey.Surveyor.Browse | common.php:87-105 | each counter grows by exactly its regex's total over the directory: dot entries skipped, subdirectories descended, only regular files with a `php` extension analysed. The key set is kept and no counter decreases |
| Survey.Surveyor.Analyze | common.php:113-121 | each template's counter grows by exactly its regex's match count on the content (a natural number, so counters never decrease), and the key set is kept |

## Left out

- `preg_match_all` and the PCRE engine (common.php:118) are replaced by the `matchCount` parameter. It gives the number of matches, which is what `count($matches)` with `PREG_SET_ORDER` reports. No claim is made about what PCRE matches.
- The filesystem (`DirectoryIterator`, `isDot`, `isDir`, `isFile`, `file_get_contents`) is replaced by the `FileTree.Node` datatype. A node is a directory with its listing in iteration order, a regular file with its content, or anything else. Symbolic links stand for what they point to. Cycles cannot be written in an inductive tree, so the source's missing cycle guard is not modelled.
- Survey.Surveyor.Survey: requires the root to be a directory. The source lets `DirectoryIterator` throw on any other root, and that exception is not modelled.
- An unreadable or vanished subdirectory is not modelled. In the source, `new \DirectoryIterator($path)` throws on it (common.php:89, reached through :97), which aborts the whole survey with no result. In the model every directory can be listed.
- The order of the result's keys is not modelled. `survey` returns a PHP array whose keys are in template order (common.php:78), and the callers print it in that order. The model returns a `map`, which has no order; its keys and values are stated exactly.
- An unreadable file is not modelled. `file_get_contents` would return `false` and be matched as an empty string.
- Paths: the model tests the entry's own name rather than `$dir . DIRECTORY_SEPARATOR . name`. `pathinfo` takes the extension from the last path component, so the result is the same.
- Counters are natural numbers with unbounded range. A PHP integer that passes `PHP_INT_MAX` turns into a float; that is not modelled.
- Survey.Surveyor.Analyze: iterates over the template list rather than over the keys of `regexPatterns`. The constructor fills that map in template order with no duplicate template, so both orders coincide.
- Survey.Surveyor.Analyze: requires every template to already have a counter. In the source, an unreset counter would start from null with a warning; `survey` always resets first.
- `preg_quote` follows PHP 7.3 and later, which also escapes `#`, with NUL written as `\000`. `strtolower` folds ASCII letters only, which is its behaviour from PHP 8.2 on; older versions depend on the locale.
- `getTemporaryFileName` (common.php:8-11) is not modelled: it depends on the temporary directory and on `uniqid`.
- zip.php and git.php are not part of this model. They are command-line glue that downloads or clones a project, prints the survey and removes the copy.
- Concurrency: there is none in the source.
