# Japanese comment translation, and the letter statistics of one sketch

This project models two pieces of a repository of generative-design sketches.

The main piece is `scripts/translate-comments_02M.js`, a batch tool that runs in six steps:

1. It walks the `01_P` tree and keeps every `sketch.js` file.
2. In each file it finds the first documentation block (`/** … */`).
3. It leaves the block alone if the block already holds Japanese script.
4. Otherwise it splits the block into lines. It passes every line that starts with optional whitespace and a star through a fixed table of 60 search-and-replace rules.
5. It writes the file back when the block changed.
6. It counts the updated and the skipped files.

The second piece is the character statistics of `01_P/P_3_1_3_03/sketch.js`:

- `getUniqCharacters` builds the sorted set of distinct upper-cased characters of a text.
- `countCharacters` counts how often each of them occurs.
- `setup` wires the two together.

The modules follow the program:

| module | file | what it holds |
|---|---|---|
| `Wrappers` | `wrappers.dfy` | `Option` and `Result` |
| `Text` | `text.dfy` | character classes of JavaScript regular expressions (`\s`, `\w`, `\b`), ASCII case folding, literal search (`indexOf`) and character counting |
| `Rules` | `rules.dfy` | the rule engine of `translateLine`: global rules (`/\bWORD\b/g`, `/…/gi`), the leading verb rules (`/^\s*\*\s*VERB\s+(.+)/i`), the fold, and the 60-rule table in declaration order |
| `RuleFacts` | `rule_facts.dfy` | what one global replace can and cannot do, and what follows for the concrete table: two of its rules can never fire, and the table keeps comment lines comment lines |
| `Block` | `block.dfy` | `hasJapanese` and `translateBlock`: the split on `\r?\n`, the per-line classification, the rejoin with `\n` |
| `Rewrite` | `rewrite.dfy` | `processFile`: the lazy block match, the decision, the write-back. The file system is a value: a map from paths to contents, plus the set of paths that refuse writing |
| `Walk` | `walk.dfy` | `walk` over a directory tree value |
| `Batch` | `batch.dfy` | `main`: the per-file loop with its error reports, and the counts |
| `Letters` | `letters.dfy` | `getUniqCharacters`, `countCharacters` and the part of `setup` that uses them |

Each regular expression of the rule table is written out by hand as a `Rule` value:

- A `/gi` pattern with an optional group or an alternation becomes the list of literals it can match, in the order a backtracking matcher tries them. For example, `/space( bar)?/gi` is tried as `"space bar"` first and then `"space"`.
- Every pattern is ASCII. In a non-Unicode JavaScript pattern, `/i` folds only ASCII letters onto ASCII letters, so ASCII case folding is exact.
- A global replace never rescans the text it has inserted. Word boundaries are judged on the string as it was before the replace.

## Model

| member | source | states |
|---|---|---|
| Walk.WalkDir | scripts/translate-comments_02M.js:10-22 | every path the walk yields is accepted by the filter |
| Walk.WalkIsFilteredListing | scripts/translate-comments_02M.js:10-22 | the walk equals the filtered depth-first listing of every file in the tree, in entry order: filtering during the descent is filtering the full listing |
| Walk.WalkMembership | scripts/translate-comments_02M.js:10-22 | a path is listed exactly when it names a file (not a directory) of the tree and the filter accepts it |
| Walk.AllFilesCount | scripts/translate-comments_02M.js:10-22 | the unfiltered listing holds one path per non-directory entry at any depth |
| Walk.AllFiles | scripts/translate-comments_02M.js:10-22 | the depth-first listing of every file of a tree in entry order; `Walk.WalkIsFilteredListing` and `Walk.AllFilesCount` state what it holds |
| Walk.IsSketch | scripts/translate-comments_02M.js:139 | `/sketch\.js$/`: the path ends with `sketch.js` |
| Walk.SketchFiles | scripts/translate-comments_02M.js:139 | every file `main` processes ends with `sketch.js` |
| Block.HasJapanese | scripts/translate-comments_02M.js:24-27 | true exactly when some character lies in U+3040..U+30FF or U+4E00..U+9FFF |
| Rules.FirstFold | scripts/translate-comments_02M.js:39-100 | a case-insensitive pattern matches at a position exactly when one of its literals occurs there under ASCII folding, and the match has the length of such a literal |
| Rules.MatchAt | scripts/translate-comments_02M.js:35-100 | a `\b…\b` pattern matches exactly where the literal occurs with word boundaries on both sides; a folded pattern fails exactly where none of its literals occurs; a match is non-empty and inside the text |
| Rules.SkipSpaces | scripts/translate-comments_02M.js:103-108 | `\s*` consumes the longest run of JavaScript whitespace |
| Rules.GroupStart | scripts/translate-comments_02M.js:103-108 | the backtracking point of `\s+(.+)`: the last non-line-terminator within the whitespace run, with only line terminators after it |
| Rules.LineEnd | scripts/translate-comments_02M.js:103-108 | `.+` stops at the first line terminator |
| Rules.VerbCapture | scripts/translate-comments_02M.js:103-108 | a verb rule matches exactly when one of its verb forms follows the bullet and is followed by whitespace and a non-empty rest; the capture is that rest, up to the first line terminator |
| Rules.LeadCapture | scripts/translate-comments_02M.js:103-108 | a verb rule matches only a line that starts with optional whitespace, a star and optional whitespace, followed by a verb form, whitespace and a rest |
| Rules.ReplaceFrom | scripts/translate-comments_02M.js:35-100 | one `s.replace(/…/g, rep)` from a position: at each position the first match is replaced and scanning resumes after it, otherwise the character is copied; what it keeps and inserts is stated by the `RuleFacts.Replace…` lemmas below |
| Rules.ApplyRule | scripts/translate-comments_02M.js:35-108 | a verb rule that does not match leaves the line alone; one that matches writes ` * `, the capture `$1`, the suffix, and then the rest of the text after the capture |
| Rules.ApplyRules | scripts/translate-comments_02M.js:29-111 | the rules in order, each applied to the previous rule's output; `RuleFacts.ApplyRulesAppend` splits the fold |
| Rules.TranslateLine | scripts/translate-comments_02M.js:29-111 | the fold of the 60-rule table over one line; `RuleFacts.TranslateLineKeepsShape`, `Closers.TranslateLineKeepsCloser` and `RuleFacts.DeadRulesAreRedundant` state what it keeps |
| RuleFacts.TableLayout | scripts/translate-comments_02M.js:34-108 | the table has 60 rules in declaration order: the `MOUSE` header first, and the `space( bar)?`, `backspace`, `position`, later attribute and `random position` rules at the places the source lists them |
| Rules.IsStarLine | scripts/translate-comments_02M.js:117 | `/^\s*\*/`: optional whitespace, then a star; `Block.PlainLedIsNotStarLine` and `RuleFacts.BulletIsStar` state which lines pass |
| RuleFacts.ReplaceIntroducesOnly | scripts/translate-comments_02M.js:35-100 | a global replace emits only characters of its input and of its replacement text |
| RuleFacts.ReplaceKeepsUnmatchedPrefix | scripts/translate-comments_02M.js:35-100 | where no match starts, the replace copies the input unchanged |
| RuleFacts.ReplaceWithoutMatchIsIdentity | scripts/translate-comments_02M.js:35-100 | a replace that finds no match returns its input |
| RuleFacts.CopiedPrefix | scripts/translate-comments_02M.js:35-100 | output characters that are none of the replacement's were copied from the input, and no match started there |
| RuleFacts.OutputOccurrenceWasInInput | scripts/translate-comments_02M.js:35-100 | when the replacement shares no letter with a word, every occurrence of the word in the output was already in the input, at a position the pattern did not match |
| RuleFacts.ReplaceExhausts | scripts/translate-comments_02M.js:35-100 | after a global case-insensitive replace of a word by foreign text, the word occurs nowhere in the result, in any case |
| RuleFacts.ReplaceKeepsAbsent | scripts/translate-comments_02M.js:35-100 | a replace whose replacement is foreign to a word cannot create that word |
| RuleFacts.ApplyRulesAppend | scripts/translate-comments_02M.js:29-111 | the fold over two rule lists in sequence is the fold over their concatenation |
| RuleFacts.RulesKeepAbsent | scripts/translate-comments_02M.js:29-111 | rules that insert only text foreign to a word keep that word absent |
| RuleFacts.WordStaysGone | scripts/translate-comments_02M.js:29-111 | once a rule has replaced every case of a word by foreign text, no later rule with foreign replacements brings it back |
| RuleFacts.BackspaceRuleNeverFires | scripts/translate-comments_02M.js:60-61 | the `backspace` rule never changes a line: the earlier `space( bar)?` rule has already replaced the `space` inside every `backspace` |
| RuleFacts.SpaceRuleDisablesBackspace | scripts/translate-comments_02M.js:60-61 | after the `space` rule, the `backspace` rule is the identity on any text |
| RuleFacts.PositionStaysGone | scripts/translate-comments_02M.js:87-93 | after the `position` rule and the six attribute rules that follow it, no `position` is left in any case |
| RuleFacts.RandomPositionRuleNeverFires | scripts/translate-comments_02M.js:87-96 | the `random position` rule never changes a line, because the `position` rule ran first |
| RuleFacts.DropIdleRules | scripts/translate-comments_02M.js:29-111 | rules that leave their input unchanged can be dropped from the fold |
| RuleFacts.DeadRulesAreRedundant | scripts/translate-comments_02M.js:29-111 | the table without the `backspace` and `random position` rules translates every line exactly as the full table does |
| RuleFacts.TableIsTame | scripts/translate-comments_02M.js:35-108 | every rule matches only text that starts with an ASCII letter, and inserts no line feed |
| RuleFacts.NoMatchAtNonLetter | scripts/translate-comments_02M.js:35-100 | no vocabulary pattern matches at a character that is not an ASCII letter |
| RuleFacts.GlobalKeepsStar | scripts/translate-comments_02M.js:35-100 | a vocabulary replace keeps a `^\s*\*` line a `^\s*\*` line |
| RuleFacts.ApplyRuleKeepsStar | scripts/translate-comments_02M.js:35-108 | every rule of the table keeps a `^\s*\*` line a `^\s*\*` line |
| RuleFacts.BulletIsStar | scripts/translate-comments_02M.js:103-108 | the text a verb rule writes, a space, a star and a space followed by anything, is a comment line |
| RuleFacts.ApplyRuleKeepsLineFeedFree | scripts/translate-comments_02M.js:35-108 | a rule never introduces a line feed into a line |
| RuleFacts.ApplyRulesKeepsShape | scripts/translate-comments_02M.js:29-111 | any fold over such rules keeps comment lines comment lines and single lines single lines |
| RuleFacts.TranslateLineKeepsShape | scripts/translate-comments_02M.js:29-111 | `translateLine` keeps a `^\s*\*` line a `^\s*\*` line and adds no line feed |
| RuleFacts.FoldedMatchesInsideWords | scripts/translate-comments_02M.js:39-100 | a case-insensitive vocabulary pattern matches in any case and inside longer words, since it has no word boundaries |
| RuleFacts.BoundedNeedsBoundaryBefore | scripts/translate-comments_02M.js:35-36 | `\bMOUSE\b` does not match right after a word character |
| RuleFacts.BoundedNeedsBoundaryAfter | scripts/translate-comments_02M.js:35-36 | `\bMOUSE\b` does not match right before a word character |
| LineExamples.MouseHeaderExamples | scripts/translate-comments_02M.js:35 | `MOUSE` becomes マウス; `mouse` and `MOUSEY` are left alone |
| LineExamples.LegendRuleOnSample | scripts/translate-comments_02M.js:40 | the case-insensitive `position x` legend rule turns `Position X` into `位置 x`, lower-casing the matched `X` |
| LineExamples.AttributeRuleOnSample | scripts/translate-comments_02M.js:87 | the `position` rule alone turns `Position X` into `位置 X`: only the word is replaced and the `X` is kept |
| LineExamples.LegendRuleRunsFirst | scripts/translate-comments_02M.js:29-111 | rule order matters on the whole table: `translateLine` turns ` * Position X` into ` * 位置 x`, because the `position x` legend rule (line 40) runs before the `position` rule (line 87), which alone would give ` * 位置 X` |
| LineExamples.OnlyVerbsAct | scripts/translate-comments_02M.js:29-111 | on a line made only of spaces, stars, slashes and the letters of the sample words, every vocabulary rule is idle and `translateLine` is the fold of the six verb rules |
| LineExamples.DrawChangeLine | scripts/translate-comments_02M.js:102-110 | `translateLine` turns ` * draw change x */` into ` * change x */を描画します。`: the `draws?` rule captures the rest of the line, closer included, and appends its suffix after it |
| LineExamples.ChangeLine | scripts/translate-comments_02M.js:102-110 | `translateLine` turns ` * change x */` into ` * x */を変化させます。` |
| LineExamples.DrawingLineUntouched | scripts/translate-comments_02M.js:106 | ` * drawing the letters` is not a `draws?` verb line: `draw` followed by `ing` lacks the required whitespace |
| Closers.TableKeepsClosers | scripts/translate-comments_02M.js:35-108 | every vocabulary pattern starts with a letter and holds no star, and no verb form holds a slash |
| Closers.ReplaceKeepsCloser | scripts/translate-comments_02M.js:35-100 | a global replace whose pattern starts with a letter and holds no star keeps a `*/` of its input somewhere in its output |
| Closers.LeadingKeepsCloser | scripts/translate-comments_02M.js:102-108 | a verb rule whose verb forms hold no slash keeps a `*/` of its input, inside the capture it writes back or after it |
| Closers.TranslateLineKeepsCloser | scripts/translate-comments_02M.js:29-111 | a line that holds `*/` still holds one after `translateLine` |
| Closers.TranslationKeepsCloser | scripts/translate-comments_02M.js:113-121 | the translation of a block still holds a closer at least three characters after its start |
| Block.SplitLines | scripts/translate-comments_02M.js:115 | the split yields one line more than there are line feeds, and no line holds a line feed |
| Block.JoinLinesCount | scripts/translate-comments_02M.js:120 | joining with `\n` puts back exactly one line feed between lines |
| Block.JoinLines | scripts/translate-comments_02M.js:120 | `join('\n')`; `Block.JoinLinesCount` and `Block.JoinSplitNormalizes` state its count and its inverse |
| Block.Normalize | scripts/translate-comments_02M.js:115-120 | each carriage return right before a line feed removed; `Block.JoinSplitNormalizes` states it is what the split and rejoin do |
| Block.JoinSplitNormalizes | scripts/translate-comments_02M.js:115-120 | splitting on `\r?\n` and joining with `\n` turns each carriage return before a line feed into nothing and changes nothing else |
| Block.NormalizeWithoutCarriageReturn | scripts/translate-comments_02M.js:115-120 | a block without carriage returns is split and rejoined unchanged |
| Block.TranslateComment | scripts/translate-comments_02M.js:116-119 | non-star lines pass unchanged; star lines go through `translateLine` and stay star lines; no line feed is introduced |
| Block.TranslateLines | scripts/translate-comments_02M.js:116-119 | the map keeps the number of lines and treats each line on its own |
| Block.TranslateBlock | scripts/translate-comments_02M.js:113-121 | no translation exactly when the block holds Japanese; otherwise the same number of lines and of line feeds |
| Block.UnchangedLinesOnlyNormalize | scripts/translate-comments_02M.js:113-121 | when no star line changes, the translation is the block with its line endings normalised |
| Block.PlainLedIsNotStarLine | scripts/translate-comments_02M.js:117 | a line that starts with neither whitespace nor a star is kept as it is |
| Block.TranslationKeepsOpener | scripts/translate-comments_02M.js:113-121 | the translation of a block still starts with the block opener |
| Rewrite.FindDocBlock | scripts/translate-comments_02M.js:125-127 | the lazy match: the first opener that has a closer after it (not sharing its star), up to the nearest closer; no match exactly when no opener has a closer after it |
| Rewrite.BlockIsFirstOccurrence | scripts/translate-comments_02M.js:126-133 | the first occurrence of the matched block text is the match itself, so the string replace targets the block |
| Rewrite.Substitute | scripts/translate-comments_02M.js:133 | the `$$`, `$&`, `` $` `` and `$'` patterns of a string replace; `Rewrite.SubstituteWithoutDollar` states when it is the identity |
| Rewrite.ReplaceFirst | scripts/translate-comments_02M.js:133 | `src.replace(pattern, rep)` with a string pattern: only the first occurrence is replaced, with the dollar patterns expanded |
| Rewrite.Splice | scripts/translate-comments_02M.js:133 | the text before the block, the translation, and the text after the block, each in place and with the lengths adding up |
| Rewrite.RewrittenAsWritten | scripts/translate-comments_02M.js:133 | the source's replace writes a file exactly when the decision is a change |
| Rewrite.SubstituteWithoutDollar | scripts/translate-comments_02M.js:133 | a replacement text without a dollar sign is inserted literally |
| Rewrite.ReplaceFirstIsSpliceWithoutDollar | scripts/translate-comments_02M.js:133 | without a dollar sign in the translation, the string replace is a splice of the translation over the block |
| Rewrite.Decide | scripts/translate-comments_02M.js:126-132 | no block: no javadoc; a missing, empty or identical translation: skip; otherwise a change to a different text that is the block's translation |
| Rewrite.Rewritten | scripts/translate-comments_02M.js:133 | a file is rewritten exactly when the decision is a change |
| Rewrite.JapaneseBlockIsKept | scripts/translate-comments_02M.js:129-131 | a block that already holds Japanese is never rewritten |
| Rewrite.RewriteKeepsSurroundings | scripts/translate-comments_02M.js:133 | a rewrite puts the translation literally where the block was, keeps the text before and after the block, and changes the length by exactly the growth of the block |
| Rewrite.AsWrittenAgreesWithoutDollar | scripts/translate-comments_02M.js:133 | without a dollar sign in the translation, the source's replace and the corrected splice write the same file |
| Rewrite.ProcessFile | scripts/translate-comments_02M.js:123-136 | a missing file is an error, and only a missing file gives `NotFound`; no block gives `no-javadoc`; a block whose translation would not change the file gives `skip-or-nochange`; a changed block of a read-only file gives `NotWritable`; otherwise the file is written, and only that file; every outcome but an update leaves the file system as it was, and every error names the path |
| Rewrite.TranslatedFileIsSkipped | scripts/translate-comments_02M.js:123-136 | a file whose first block holds Japanese is reported as skipped and left alone |
| Rewrite.SpliceKeepsOpener | scripts/translate-comments_02M.js:125-133 | the rewritten file has its first opener where the old block started |
| Rewrite.RewriteKeepsBlockStart | scripts/translate-comments_02M.js:113-133 | a rewritten file always has a first block, and it starts where the old one did: the translation keeps the opener in front and a closer after it |
| Rewrite.RewriteIsIdempotentOnJapanese | scripts/translate-comments_02M.js:113-136 | when the translation puts Japanese inside the new block, rewriting the result again changes nothing |
| Rewrite.SecondRunIsNoOp | scripts/translate-comments_02M.js:123-136 | then a second `processFile` on the same path writes nothing and reports no update |
| Rewrite.TwoLineFile | scripts/translate-comments_02M.js:113-136 | a two-line block whose lines are not comment lines is rewritten only to turn its CRLF into LF |
| Rewrite.DoubledCarriageReturnChangesTwice | scripts/translate-comments_02M.js:115-120 | a block with a `\r\r\n` line ending changes on two successive runs, because `\r?\n` leaves one carriage return on the line |
| RewriteExamples.OpenerLineRewrite | scripts/translate-comments_02M.js:123-136 | a file made of the opener line and one bulleted ASCII line holding the closer is rewritten to the opener line, the translated line and the text after the closer |
| RewriteExamples.VerbOnClosingLineRewritesTwice | scripts/translate-comments_02M.js:102-136 | `/**\n * draw change x */` is rewritten to `/**\n * change x */を描画します。` and that again to `/**\n * x */を変化させます。を描画します。`: the suffix lands after the closer, so the block stays free of Japanese |
| Rewrite.DollarAmpersandDuplicatesBlock | scripts/translate-comments_02M.js:133 | for a block holding `$&`, the source's replace writes the whole block into its own translation, where the literal splice writes the translation |
| Batch.ErrorMessage | scripts/translate-comments_02M.js:145 | the `message` of the two file errors, in Node's format |
| Batch.Record | scripts/translate-comments_02M.js:127-146 | the report names the file and says it changed exactly when `processFile` updated it; its reason is none for an update, `no-javadoc`, `skip-or-nochange`, or `error:` followed by the error's message |
| Batch.FoldFiles | scripts/translate-comments_02M.js:141-147 | the per-file step applied in file order, each on the file system the previous one left, one report per file |
| Batch.ProcessAll | scripts/translate-comments_02M.js:139-147 | one report per file, for that file, in walk order |
| Batch.CountsPartition | scripts/translate-comments_02M.js:148-149 | every report is counted exactly once, as updated or as skipped |
| Batch.RunSteps | scripts/translate-comments_02M.js:141-147 | the loop computes the fold of the per-file step over the files, threading the file system through |
| Batch.ProcessFiles | scripts/translate-comments_02M.js:140-147 | the `for` loop of `main` equals the fold of `Record` over the files |
| Batch.CountChanged | scripts/translate-comments_02M.js:148 | `results.filter(r => r.changed).length`; `Batch.CountsPartition` and `Batch.Tally` state how it splits the reports |
| Batch.Tally | scripts/translate-comments_02M.js:148-149 | the two counts are the updated and the other reports, and they add up to the number of reports |
| Batch.RunBatch | scripts/translate-comments_02M.js:138-151 | `main` processes every sketch file once, in walk order, and its counts add up to the total |
| Batch.OnlyListedFilesChange | scripts/translate-comments_02M.js:141-147 | files outside the list keep their contents |
| Batch.NothingToRewriteChangesNothing | scripts/translate-comments_02M.js:138-151 | when no listed file has a block that would change, a run writes nothing and counts no update |
| Text.IndexOf | 01_P/P_3_1_3_03/sketch.js:140 | `indexOf` finds the first occurrence at or after the start position, and −1 exactly when there is none |
| Letters.UpperText | 01_P/P_3_1_3_03/sketch.js:130 | `toUpperCase` of a text, one character at a time; `Letters.InUpperText` states which characters it holds |
| Letters.InUpperText | 01_P/P_3_1_3_03/sketch.js:130 | the upper-cased text holds exactly the characters of the upper-cased forms of the text's characters |
| Letters.KeepFirst | 01_P/P_3_1_3_03/sketch.js:131-133 | the first-occurrence filter keeps each distinct character once and drops none |
| Letters.Insert | 01_P/P_3_1_3_03/sketch.js:133 | inserting into an ascending string keeps it ascending and adds exactly that character |
| Letters.Sort | 01_P/P_3_1_3_03/sketch.js:133 | `sort()` yields an ascending permutation |
| Letters.GetUniqCharacters | 01_P/P_3_1_3_03/sketch.js:129-135 | the result is strictly ascending and holds exactly the characters of the upper-cased text |
| Letters.StrictlyAscendingIsUnique | 01_P/P_3_1_3_03/sketch.js:129-135 | two strictly ascending strings with the same characters are equal, so the character set is determined by the text |
| Letters.Zeros | 01_P/P_3_1_3_03/sketch.js:65-67 | one zero counter per character of the set |
| Letters.Slot | 01_P/P_3_1_3_03/sketch.js:140 | the counter a character feeds: the `indexOf` of its upper-cased form in the set |
| Letters.Hits | 01_P/P_3_1_3_03/sketch.js:137-144 | how many characters of a text feed one counter; `Letters.HitsCountOccurrences` states its value |
| Letters.CountCharacters | 01_P/P_3_1_3_03/sketch.js:137-144 | each counter is the number of text characters whose upper-cased form is found at its position; the total is at most the text length, and equal to it when every character is found |
| Letters.HitsCountOccurrences | 01_P/P_3_1_3_03/sketch.js:137-144 | with one-character upper-casing, a counter is the number of occurrences of its character in the upper-cased text |
| Letters.EveryCharacterCounted | 01_P/P_3_1_3_03/sketch.js:137-144 | with one-character upper-casing, every character of the text finds its counter in the set built from that text |
| Letters.Setup | 01_P/P_3_1_3_03/sketch.js:64-69 | the set is strictly ascending and holds exactly the upper-cased characters; with one-character upper-casing every character is counted once, under its own character |

## Left out

- File contents are read and written as values. UTF-8 decoding and encoding are not modelled.
- `readFileSync` and `writeFileSync` raise only two errors in the model: a missing file and a file that refuses writing. Other failures are not modelled, such as a path that is a directory or a full disk.
- The error messages follow Node's format for these two errors.
- `walk` takes the tree as a value and lists entries in the order the directory gives them.
  - A `readdirSync` failure, which would end the whole run, is not modelled.
  - Any entry that is not a directory (a symbolic link included) is offered to the filter, as `isDirectory()` is false for it.
  - `path.join` is a plain join with `/`. Entry names need no normalisation.
- `path.resolve(__dirname, '..')`, the `require.main` guard and the `console.log` line of `main` are left out: the root is a parameter, and `RunBatch` returns the counts the line prints.
- The regular expression engine is not modelled in general. Each pattern of the table is encoded by hand as described above.
- A `char` is a Unicode scalar value and stands for one UTF-16 code unit of a JavaScript string. Surrogate code units are not `char`s, so surrogate pairs are not modelled. The Japanese ranges and every pattern lie in the Basic Multilingual Plane.
- `toUpperCase` is a parameter: a function from a character to its non-empty upper-case form, applied one character at a time. The Unicode case tables are not modelled.
- In `01_P/P_3_1_3_03/sketch.js` the model covers `getUniqCharacters`, `countCharacters` and lines 64-69 of `setup`. Left out: `joinedText.join(' ')` on line 63 (the text is given already joined), canvas and font set-up, `draw`, `keyReleased`, and every p5 call.
- `sort()` compares UTF-16 code units. The model compares characters, which agrees for the characters modelled.
- Behaviour of the code that the model keeps as it is:
  - the verb rules carry `/i` and are case-insensitive;
  - lines are rejoined with `\n`, not with their original terminators;
  - the walk keeps directory order and does not sort;
  - `processFile` reports three outcomes plus an error.
- A second run over the tool's own output is not always a no-op. Two cases change a file again:
  - A block with a `\r\r\n` line ending. `\r?\n` leaves one carriage return on the line, and the next run removes it. `Rewrite.DoubledCarriageReturnChangesTwice` shows this.
  - A verb rule on the line that holds the closer. `(.+)` captures the closer, and the Japanese suffix lands after it, outside the block. The next run sees a block without Japanese and may translate a second verb. `RewriteExamples.VerbOnClosingLineRewritesTwice` shows this.
  - `Rewrite.SecondRunIsNoOp` states when a second run is a no-op: the translation holds Japanese before its first closer.
- Rewrite.ProcessFile: writes the corrected literal splice `Rewrite.Rewritten` (see Findings), not the source's `$`-expanding replace. `Rewrite.RewrittenAsWritten` models the replace as written, and `Rewrite.AsWrittenAgreesWithoutDollar` shows the two agree whenever the translation holds no dollar sign.

## Findings

| source | as written | input that shows it | evidently intended | confidence | as-written member | corrected member |
|---|---|---|---|---|---|---|
| scripts/translate-comments_02M.js:133 | `src.replace(original, translated)` with a string pattern expands `$&`, `$$`, `` $` `` and `$'` in the translation | a file whose whole content is `/**\r\n$&*/`: the translation is `/**\n$&*/`, but the replace writes `/**\n/**\r\n$&*/*/`, with the original block pasted in place of `$&` | the translated block replaces the original block literally, giving `/**\n$&*/` | not executed | Rewrite.DollarAmpersandDuplicatesBlock | Rewrite.RewriteKeepsSurroundings |
