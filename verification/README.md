# Gates, scanners and step systems of bathy: a Dafny model

The repository guards itself with hand-written checkers: small lexers for Rust source, a brace
matcher and a call closure that measure what runs while a privilege is held, a scanner for
duplicate JSON keys, a parser and a rule for compiler floors, rule engines over the workspace, the
benchmark's scoring, a cancel protocol between processes, and a monitor of the privileged daemon's
session. Each makes a claim about every input or every run. This project models that code and
proves the claims. Where one is false, it gives an input that shows it and proves when the code
does keep it: exactly, but for one corner of the two lexers that is named under "Left out".

Text is a sequence of characters, as the scanners index it; offsets count characters even where
the repository's comments say bytes. Loops are methods with invariants, each proved against a
specification function or a declarative predicate; the laws are lemmas about those.

| module | models |
|---|---|
| `DuplicateKeys` | the one-pass duplicate-key scanner, against JSON texts as RFC 8259 derives them (sections 2 to 7) |
| `RustNoise`, `RustNoiseLaws`, `RustTokens` | the blanking lexer of the privileged-window analyser, its laws on every text, and its meaning on tokenised source |
| `SourceComments`, `SourceCommentsLaws`, `StringLiterals` | the comment stripper, line numbers and the string-literal reader |
| `RustBlocks`, `RustFunctions`, `TokenBlocks` | `impl` blocks, functions and their owners, by counting brackets, and why brackets are counted in stripped source |
| `CallClosure`, `PrivilegedWindow` | the call closure, and the report made of it |
| `WholeWords` | whole-word search over non-overlapping matches |
| `MsrvJobs`, `MsrvLines`, `MsrvRule`, `MsrvMembership` | the workflow parser, what it reads in terms of the text, the compiler-floor rule, and that rule in terms of positions |
| `Layers`, `SchemaTree`, `PortRanking` | layer order, schema directories, port ranking |
| `XmlEntities`, `Splice`, `Decimals`, `Scoring`, `Losses` | the benchmark core |
| `CancelMarker`, `IpcMonitor`, `IpcRules` | the two step systems, and what the second accepts in terms of observed fields |
| `Blanking`, `Lines`, `TextSearch`, `Options` | what the others share |

Where code and documentation disagree, the model follows the code:

- `strip_rust_noise` promises that every offset and line still refers to the same place. An
  unclosed string adds one or two characters, and a character literal that spans a line break
  loses the break. The length is kept exactly when every string is closed
  (`RustNoiseLaws.LengthKept`), the lines exactly when no literal spans a break
  (`RustNoiseLaws.LinesKeptExactly`).
- It blanks character literals, but looks for the closing quote only at offsets 2 to 7: `'\u{FFFD}'`
  is left as code, and `'\''` closes early. Sources without these two come out right; sources with
  them do not, unless the last quote of a `'\''` opens a literal of its own
  (`RustTokens.StripBlanksNoise`, `RustTokens.QuoteLiteralIsLeft`). `strip_comments` shares the early
  close and is right whenever that quote opens nothing (`SourceCommentsLaws.StripBlanksComments`,
  `SourceCommentsLaws.QuoteLiteralHidesComment`).
- `string_literals` promises every string literal in the text. A double quote in a character
  literal, a raw string or a comment opens one too; the literals are the strings of the source
  exactly when there is none (`StringLiterals.StringsFoundExactly`).
- `impl_blocks` promises the `impl` blocks, and that generic arguments are discarded, so that `T<R>`
  reads as `T`. An `impl` in type position counts as well (`RustBlocks.TypePositionImplIsReported`,
  `RustBlocks.OnlyItemsExactly`), and the last name among the arguments is taken, `T` only when they
  name nothing (`RustBlocks.GenericArgumentIsTaken`, `RustBlocks.ImplOfGenericType`).
- `functions_in` promises every function of a file. After the parameter list it stops at the first
  brace or semicolon, so a function that returns an array such as `[u8; 4]` is not reported, and
  its lines and calls can be missing from the privileged window. A function is read exactly when no
  semicolon stands between its list and its brace (`RustFunctions.SignedIsRead`,
  `RustFunctions.ArrayReturnHidesFunction`).
- `parse_msrv_jobs` says a job counts exactly when it pins a toolchain other than `stable`. A job
  that pins none is kept when it runs a check (`MsrvJobs.UnpinnedJobIsKept`,
  `MsrvJobs.DocumentedExactlyWhenPinnedJobsCheck`).
- `msrv_violations` says a declared exception is checked at the disposition of each tier; only the
  first job of a tier is looked at (`MsrvRule.SecondTierJobIsNotLookedAt`), so all of a tier is
  checked exactly when it has one such job (`MsrvRule.TierVouchedForExactlyWhenOnce`).
- The session monitor says the scope is fixed, but compares only the allow set from line to line
  (`IpcMonitor.DenyListMayShrink`): a denial lasts exactly as long as the deny list in force covers it
  (`IpcMonitor.DenialLastsExactly`). It does not look at packets after the first `Fatal`, and looks
  at all packets before (`IpcMonitor.UncheckedExactlyAfterFatal`).
- The duplicate-key scanner says a lone surrogate is folded to the replacement character. That holds
  exactly unless a high one stands directly before an escape, where the subtraction can underflow
  (`DuplicateKeys.LoneSurrogateFaults`, `DuplicateKeys.HighSurrogateOutcome`,
  `DuplicateKeys.NameUnderflowsExactly`,
  `DuplicateKeys.ReadsBrokenExactly`). The scanner's only caller parses its input first
  (fuzz/fuzz_targets/canonical_json.rs:96-113), and that parser rejects every lone surrogate, so no
  such text arrives there.

## Model

| member | source | states |
|---|---|---|
| DuplicateKeys.HasDuplicateKeys | fuzz/src/lib.rs:200-288 | For every JSON text that RFC 8259 derives, unless a lone high surrogate stands directly before an escape, the answer is true exactly when some object at some depth has two members with equal decoded names; on any text the loop computes `Scan`. |
| DuplicateKeys.ScanDecidesDuplication | fuzz/src/lib.rs:193-288 | On such a text the scan never underflows and answers exactly whether some object repeats a name, whatever the white space and the spelling; other lone surrogates are folded to the replacement character. |
| DuplicateKeys.ScanValue | fuzz/src/lib.rs:205-287 | Scanning a value where no key is due ends with true if a name repeats inside it, and otherwise goes on after it with the stack as it was. |
| DuplicateKeys.ScanMembers | fuzz/src/lib.rs:207-282 | From any point inside an object, with its earlier names recorded, the scan answers true exactly when a name repeats among all of them or deeper, and otherwise pops the frame. |
| DuplicateKeys.ScanItems | fuzz/src/lib.rs:211-218 | Strings in an array are never keys, though a comma raises the flag; the frame is popped at the bracket. |
| DuplicateKeys.ReadName | fuzz/src/lib.rs:226-275 | A string in any mixture of spellings is read as the characters it stands for, up to its closing quote. |
| DuplicateKeys.ReadPiece | fuzz/src/lib.rs:228-273 | A plain character, a short escape, a code unit escape, a surrogate pair and a lone surrogate (a high one not directly before an escape) each add exactly their code point. |
| DuplicateKeys.Piece.CodePoint | fuzz/src/lib.rs:254-263 | A spelled character is never a surrogate and at most 0x10FFFF; a pair is at least 0x10000. |
| DuplicateKeys.HexIsHexValue | fuzz/src/lib.rs:232-238 | Four hexadecimal digits parse to the sum of their digits at powers of 16; which digits these are is `DuplicateKeys.HexDigits`. |
| DuplicateKeys.HexDigits | fuzz/src/lib.rs:238 | A digit is worth its place in `0123456789abcdef` or in `0123456789ABCDEF`, and no other character is a digit. |
| DuplicateKeys.HexDigitsAddUp | fuzz/src/lib.rs:232-238 | Four characters at known places among the digits, of either case, parse to the number they write in base 16. |
| DuplicateKeys.ParsesExactlyDigits | fuzz/src/lib.rs:238 | Parsing succeeds exactly on one digit or more, after one plus sign or none; on anything else the replacement character stands in. |
| DuplicateKeys.DecodeString | fuzz/src/lib.rs:226-275 | The inner loop reads what `ReadString` reads and stops after the closing quote, or faults exactly when that does. |
| DuplicateKeys.DecodeUnicode | fuzz/src/lib.rs:231-263 | The `\u` branch, pair arithmetic included, as `ReadUnicode` has it; no value exactly when the subtraction underflows. |
| DuplicateKeys.ReadFour | fuzz/src/lib.rs:232-237 | At most four characters are taken, fewer at the end of the text. |
| DuplicateKeys.LoneSurrogateFaults | fuzz/src/lib.rs:239-259 | The documented folding fails: a string that begins with the unpaired `\ud800` and `\u0041` underflows at any point of a scan. |
| DuplicateKeys.HighSurrogateOutcome | fuzz/src/lib.rs:238-263 | A high surrogate underflows exactly when a backslash follows and the four characters after the next two read below 0xDC00; it is folded, and what follows it left alone, exactly when no backslash follows. |
| DuplicateKeys.NameUnderflowsExactly | fuzz/src/lib.rs:226-275 | A string of any pieces, with no lone high surrogate before a two-character escape, underflows exactly when some lone high surrogate stands directly before a code unit escape below 0xDC00. |
| DuplicateKeys.ReadsBrokenExactly | fuzz/src/lib.rs:226-275 | Of any text: reading a string underflows exactly when the reader, character by character, reaches a place where a high surrogate does. |
| RustNoise.StripRustNoise | xtask/src/gates.rs:3180-3290 | The outer loop computes `Strip`, about which the laws below are proved. |
| RustNoise.SkipLine | xtask/src/gates.rs:3187-3193 | A line comment is spaces up to its newline or the end. |
| RustNoise.SkipRaw | xtask/src/gates.rs:3225-3246 | A raw string is blanked to where `RawEnd` says, which is the first quote with its hashes or the end (`RustTokens.RawEndsAtFirstClosing`). |
| RustNoise.SkipString | xtask/src/gates.rs:3249-3263 | An ordinary string is blanked with its escapes; a missing quote or escaped character is pushed all the same. |
| RustNoise.FindClose | xtask/src/gates.rs:3266-3277 | The closing quote of a character literal: the first among offsets 2 to 7 after a backslash, otherwise offset 2 or none. |
| RustNoiseLaws.StripTwice | xtask/src/gates.rs:3180-3290 | Stripping twice is stripping once, on every text. |
| RustNoiseLaws.StrippedIsClean | xtask/src/gates.rs:3180-3290 | At no position of stripped text can a comment, string, raw string or character literal begin. |
| RustNoiseLaws.FixedExactlyWhenClean | xtask/src/gates.rs:3180-3290 | A text is left alone exactly when no noise begins anywhere in it. |
| RustNoiseLaws.Positions | xtask/src/gates.rs:3172-3179 | Output position k holds input character k or a space, at most two characters are added at the end, and no double quote survives. |
| RustNoiseLaws.LengthKept | xtask/src/gates.rs:3172-3263 | The length is kept exactly when every ordinary string met is closed. |
| RustNoiseLaws.LinesKeptExactly | xtask/src/gates.rs:3172-3285 | Every newline stays where it was exactly when no character literal spans one. |
| RustNoiseLaws.SurvivorsStayCode | xtask/src/gates.rs:3286-3287 | A character kept as code begins no token in front of what survives after it. |
| RustNoiseLaws.UnclosedStringsGrow | xtask/src/gates.rs:3249-3263 | The documented offsets fail: a lone quote comes out one character longer, a quote and a backslash two. |
| RustNoiseLaws.BrokenLiteralMovesLines | xtask/src/gates.rs:3278-3283 | The documented line numbers fail: a quoted line break is blanked. |
| RustTokens.StripBlanksNoise | xtask/src/gates.rs:3180-3290 | For every source written as tokens, where a raw string's body is any text with no suffix that begins with its closing quote and hashes, exactly the code and the lifetimes are kept and every other token is blanked in place, when no character literal is `'\''` or has an escape longer than five characters; and, provided the last quote of each `'\''` opens no literal, only then. |
| RustTokens.TokenPasses | xtask/src/gates.rs:3187-3287 | Any one token but those two kinds of literal, in front of any text, is blanked or kept as its kind demands, and stripping goes on after it. |
| RustTokens.InsideEnds | xtask/src/gates.rs:3198-3213 | However deeply comments nest, each ends at its own closing delimiter. |
| RustTokens.RawReads | xtask/src/gates.rs:3229-3244 | A raw string ends at its own closing sequence and not inside its body, for any number of hashes. |
| RustTokens.RawEndsAtFirstClosing | xtask/src/gates.rs:3229-3244 | Of any text after an opening quote: the raw string ends with the first quote that is followed by its hashes, or with the text when there is none. |
| RustTokens.RawOpenerIsOpening | xtask/src/gates.rs:3216-3228 | A raw string is opened exactly by hashes, or none, and a quote. |
| RustTokens.StartsLiteralIsClosed | xtask/src/gates.rs:3266-3277 | A quote is taken for the start of a literal exactly when a quote stands two places on, or two to seven places on after a backslash. |
| RustTokens.StringReads | xtask/src/gates.rs:3252-3261 | A string of plain and escaped characters is read whole and ends at its own quote. |
| RustTokens.EscapedLiteralRead | xtask/src/gates.rs:3266-3277 | An escaped literal is recognised whole exactly when its escape has at most five characters and no quote. |
| RustTokens.LongEscapeIsLeft | xtask/src/gates.rs:3268-3272 | A longer escape is not recognised: its opening quote is left as code. |
| RustTokens.QuoteLiteralClosesEarly | xtask/src/gates.rs:3268-3284 | Of `'\''` the first three characters are blanked, and the last quote is read with the text after it. |
| RustTokens.QuoteLiteralIsLeft | xtask/src/gates.rs:3268-3287 | The documented blanking fails: of `'\''` alone the last quote is left. |
| RustTokens.UnrecognisedShows | xtask/src/gates.rs:3268-3287 | A literal with a long escape, or `'\''` when its last quote opens nothing, always leaves something else than blanks. |
| RustTokens.RightByAccident | xtask/src/gates.rs:3249-3285 | The proviso is needed: a source with `'\''` whose last quote does open a literal can come out right. |
| TokenBlocks.StrippedLevelIsCodeLevel | xtask/src/gates.rs:3172-3179 | The bracket count of stripped source is that of its code tokens: no bracket in a comment, a string or a literal counts. |
| TokenBlocks.CodeBlockIsFound | xtask/src/gates.rs:3458-3472 | A balanced block of code tokens is exactly the block that counting brackets in the stripped source finds, whatever its comments and literals hold. |
| SourceComments.StripComments | xtask/src/fixtures.rs:119-229 | The outer loop computes `Strip`, about which the laws below are proved. |
| SourceComments.CopyRaw | xtask/src/fixtures.rs:137-152 | A raw string is copied to its closing quote and hashes, or to the end; at the end of the text fewer hashes close it. |
| SourceComments.CopyString | xtask/src/fixtures.rs:156-172 | A string is copied through its first unescaped quote. |
| SourceComments.CopyEscapedLiteral | xtask/src/fixtures.rs:176-185 | An escaped literal is copied through the next quote, or to the end. |
| Blanking.BlankBlock | xtask/src/fixtures.rs:200-223 | Of both scanners: a nested block comment is blanked up to where its depth returns to zero, newlines kept. |
| SourceCommentsLaws.Positions | xtask/src/fixtures.rs:109-119 | On every text the length is kept, and a position keeps its character or turns a non-newline into a space. |
| SourceCommentsLaws.LinesUnmoved | xtask/src/fixtures.rs:119-233 | `line_of` a position of stripped text is `line_of` the same position of the original. |
| SourceCommentsLaws.StripTwice | xtask/src/fixtures.rs:119-229 | Stripping twice is stripping once, on every text. |
| SourceCommentsLaws.FixedExactlyWhenCommentFree | xtask/src/fixtures.rs:119-229 | A text is left alone exactly when, read token by token, it has no comment. |
| SourceCommentsLaws.LexStable | xtask/src/fixtures.rs:124-192 | A copied literal is read the same way after anything behind it has been blanked. |
| SourceCommentsLaws.RawEndStable | xtask/src/fixtures.rs:137-152 | Where a raw string ends depends only on the characters up to its end. |
| SourceCommentsLaws.RawEndsAtFirstClosing | xtask/src/fixtures.rs:137-152 | Of any text after an opening quote: the raw string ends with the first quote that is followed by its hashes, or by fewer that end the text; otherwise with the text. |
| SourceCommentsLaws.StripBlanksComments | xtask/src/fixtures.rs:119-229 | For every source written as tokens in which the last quote of each `'\''` opens no literal, exactly the comments are blanked: an opener inside a literal opens nothing, a quote inside a comment closes nothing. |
| SourceCommentsLaws.QuoteLiteralHidesComment | xtask/src/fixtures.rs:174-192 | When it does open one, a comment can be taken for a string and be left. |
| SourceCommentsLaws.QuoteLiteralSplits | xtask/src/fixtures.rs:176-185 | `'\''` is copied up to its escaped quote, and its last quote is read with the text after it. |
| StringLiterals.FindLiterals | xtask/src/fixtures.rs:236-282 | Each literal is reported with its text and with one plus the newlines before its opening quote, line continuations included. |
| StringLiterals.ReadBody | xtask/src/fixtures.rs:251-275 | The inner loop reads a body to its closing quote or the end and keeps the line count right. |
| Lines.LineCounts | xtask/src/fixtures.rs:231-233 | The line of a position is one more than the number of places before it that hold a newline. |
| StringLiterals.LiteralsInOrder | xtask/src/fixtures.rs:241-281 | The literals are in order and apart; each is the text between a quote and another quote, or the end. |
| StringLiterals.EveryQuoteIsFound | xtask/src/fixtures.rs:241-281 | Every quote of the text opens, closes or stands inside some reported literal. |
| SourceCommentsLaws.BodyReads | xtask/src/fixtures.rs:251-275 | A body written as plain and escaped characters is read whole: no escaped quote ends it and the first bare one does. |
| StringLiterals.StringsFoundExactly | xtask/src/fixtures.rs:235-282 | For every source written as tokens, the literals reported are its strings, at their offsets, exactly when no other token has a double quote in it. |
| StringLiterals.QuoteCharacterOpensString | xtask/src/fixtures.rs:247-249 | The character literal of a double quote is taken for the start of a string. |
| RustBlocks.ImplBlocks | xtask/src/gates.rs:3436-3499 | The blocks found are those of `Impls`; starts strictly increase, each is a balanced brace block or runs to the end, and any two are nested or apart. |
| RustBlocks.ImplsAreLaminar | xtask/src/gates.rs:3436-3499 | The same for the specification, on every text. |
| RustBlocks.BlocksAreLaminar | xtask/src/gates.rs:3459-3472 | Any two bracketed blocks of one text are nested or apart. |
| RustBlocks.EveryImplIsFound | xtask/src/gates.rs:3441-3495 | Every `impl` keyword followed by a brace has its block reported, through the first `impl` of the same header, unless the header names nothing. |
| RustBlocks.OnlyImplsAreFound | xtask/src/gates.rs:3441-3495 | Every reported block is that of an `impl` keyword, the first of its header, under the name of its header. |
| RustBlocks.ImplReads | xtask/src/gates.rs:3441-3490 | An `impl` is that word with a brace somewhere behind it; its block runs from the first such brace to where the braces balance, under the name the text between gives. |
| RustBlocks.HeaderNameIsLastWord | xtask/src/gates.rs:3473-3487 | The name of a header is its last maximal run of letters, digits and underscores that is neither `for` nor `where`, and empty without one. |
| RustBlocks.KeywordIsWord | xtask/src/gates.rs:3441-3449 | A keyword is met exactly where it is a maximal run of letters, digits and underscores. |
| RustBlocks.OnlyItemsExactly | xtask/src/gates.rs:3429-3495 | For any notion of where an item can begin, only blocks of items are reported exactly when every `impl` that leads a header with a name stands at such a place. |
| RustBlocks.TypePositionImplIsReported | xtask/src/gates.rs:3429-3495 | An `impl` in the type of a parameter makes the function's body an `impl` block of the last name in its return type. |
| RustBlocks.MatchBracket | xtask/src/gates.rs:3460-3472 | The counting loop ends at the matching bracket, or at the end of the text when there is none. |
| RustBlocks.EndOfIsBlock | xtask/src/gates.rs:3460-3472 | The position counted to makes a block: never closed before, and closed there unless the text ran out. |
| RustBlocks.BlockEndIsUnique | xtask/src/gates.rs:3460-3472 | Only one end makes a block of a given start. |
| RustBlocks.ClosedBlockEndsWithBracket | xtask/src/gates.rs:3464-3470 | A block whose count returns to zero ends with its closing bracket. |
| RustBlocks.GenericArgumentIsTaken | xtask/src/gates.rs:3432-3487 | For a header ending in a type with generic arguments, the name taken is the last one among the arguments, and the type only when they name nothing. |
| RustBlocks.ImplOfGenericType | xtask/src/gates.rs:3432-3487 | The block of `impl Trait for T<R>` is filed under `R`. |
| RustBlocks.DepthFits | xtask/src/gates.rs:3460-3470 | The bracket count never exceeds the length counted over, so on fewer than 2^31 characters the 32-bit counter never saturates. |
| RustFunctions.FunctionsIn | xtask/src/gates.rs:3507-3605 | One report for each function span, in order; what a report says is `RustFunctions.ReportedAs`. |
| RustFunctions.ReadFunction | xtask/src/gates.rs:3520-3568 | The name, the first parenthesised list, and the body if a brace comes before any semicolon after that list. |
| RustFunctions.FunctionsAreApart | xtask/src/gates.rs:3507-3605 | Function spans are in order and disjoint; each body is a balanced brace block or runs to the end. |
| RustFunctions.ApartPair | xtask/src/gates.rs:3597 | Of any two functions the earlier one ends before the later one begins. |
| RustFunctions.EveryFunctionIsFound | xtask/src/gates.rs:3512-3603 | Every `fn` with a name, a closed first list and a brace, and no semicolon between those two, is reported with that brace as its body, or lies within a function that is. |
| RustFunctions.OnlyFunctionsAreFound | xtask/src/gates.rs:3512-3603 | Every reported function has such a signature, and is reported with its name and its brace. |
| RustFunctions.SignedIsRead | xtask/src/gates.rs:3533-3554 | A `fn` with a name, a closed list and a brace is read as a function exactly when no semicolon stands between list and brace. |
| RustFunctions.ReadIsSigned | xtask/src/gates.rs:3520-3554 | Conversely, what is read as a function has a name, a closed list and a brace, and no semicolon between those two. |
| RustFunctions.ListedExactlyWhenNoSemicolon | xtask/src/gates.rs:3501-3506 | A function with a body that no reported function encloses is reported exactly when no semicolon stands before its brace. |
| RustFunctions.ArrayReturnHidesFunction | xtask/src/gates.rs:3550-3554 | A function that returns an array type, as in `[u8;4]`, has a body and is not reported. |
| RustFunctions.Owner | xtask/src/gates.rs:3578-3582 | The owner chosen by least size is the unique innermost block around the function; none is chosen exactly when no block is. |
| RustFunctions.SmallestIsInnermost | xtask/src/gates.rs:3578-3582 | Among nested or disjoint blocks, one of least size is the innermost, and no other is. |
| RustFunctions.Report | xtask/src/gates.rs:3573-3596 | The report of one function by its innermost owner; what that says of name, keys and site is `RustFunctions.ReportedAs`. |
| RustFunctions.ReportedAs | xtask/src/gates.rs:3569-3596 | A function in no block has its own name and answers to that alone. In a shortest block of a type `T` it is named `T::name` and answers to `T::name`, to `.name` and to nothing else. Its site is the file, a colon, and the decimal number of its line, counted from one. |
| RustFunctions.MethodCallsReachMethods | xtask/src/gates.rs:3583-3586 | A running body that calls `.name` makes every reported method of that name run, whatever its type. |
| RustFunctions.FnKeywordIsWord | xtask/src/gates.rs:3513-3519 | A function begins exactly where `fn` is a word of the text. |
| CallClosure.Close | xtask/src/gates.rs:3733-3748 | The worklist terminates, and the functions it collects are exactly those with a key reachable from the seeds by a chain of calls. |
| CallClosure.Visit | xtask/src/gates.rs:3740-3747 | Every definition that answers to the key is collected, and each of its callees is seen or pending. |
| CallClosure.PushUnseen | xtask/src/gates.rs:3742-3746 | Exactly the callees not yet seen join the frontier. |
| CallClosure.ReachableIsLeast | xtask/src/gates.rs:3724-3748 | The reachable keys lie in every set that holds the seeds and is closed under calls. |
| CallClosure.ClosureIsMonotone | xtask/src/gates.rs:3724-3748 | Adding a definition, a key, a call or a seed never takes a key out of the closure. |
| CallClosure.SeenIsClosed | xtask/src/gates.rs:3735-3748 | With an empty frontier the seen keys hold the seeds and everything they call. |
| PrivilegedWindow.Measure | xtask/src/gates.rs:3724-3756 | The report lists, sorted and once each, the name, site and code lines of exactly the functions reachable from the inline calls and the two entry points. The total is the inline lines and the code lines of the running functions, each name, site and size counted once, capped at the largest machine integer. |
| PrivilegedWindow.RepresentsHasTheSum | xtask/src/gates.rs:3629-3636 | Of any choice of one running function for each name, site and size, the code lines add up to those of the report. |
| PrivilegedWindow.ReportHasRepresentatives | xtask/src/gates.rs:3749-3755 | Every report has such a choice. |
| PrivilegedWindow.CalledMethodIsListed | xtask/src/gates.rs:3583-3755 | When a running body makes a method call of its name, a method of `T` is in the report as `T::name`, with its site and the lines of its body. |
| PrivilegedWindow.EntryPointIsNamed | xtask/src/gates.rs:3726-3727 | An entry point written as a name and opening parentheses is seeded as that name. |
| PrivilegedWindow.ReportIsSorted | xtask/src/gates.rs:3754 | Of two entries the earlier one has the name that comes first where the two first differ; or the same name and the earlier site; or both the same and fewer lines. |
| PrivilegedWindow.ReachableFunctions | xtask/src/gates.rs:3733-3756 | Every running function has an entry with its own name, site and code lines, every entry comes from one, and none is listed twice. |
| PrivilegedWindow.Seeds | xtask/src/gates.rs:3726-3732 | The seeds are the inline calls and the two entry points without their parenthesis. |
| PrivilegedWindow.SortDedup | xtask/src/gates.rs:3749-3754 | The result has the same entries, strictly increasing. |
| PrivilegedWindow.TotalLines | xtask/src/gates.rs:3629-3636 | Folding with saturation gives the exact sum, capped at the largest machine integer. |
| PrivilegedWindow.SameSeeds | xtask/src/gates.rs:3724-3748 | The order and repetition of seeds do not matter. |
| PrivilegedWindow.ReportIsUnique | xtask/src/gates.rs:3749-3754 | Two reports of the same functions are the same report, so the total depends only on what is reachable. |
| WholeWords.NamedExactlyWhenAWord | xtask/src/fixtures.rs:443-449 | For a non-empty identifier of name characters the search succeeds exactly when the identifier is one of the text's maximal runs of name characters. |
| WholeWords.WordsAndDependencies | xtask/src/main.rs:288-295 | The same for crate names, whose characters include the hyphen, and for identifiers. |
| WholeWords.NamedSpelled | xtask/src/fixtures.rs:443-449 | A word is named exactly when it stands, all letters, digits and underscores, with none of these before or after it; a crate, when hyphens count among these too. |
| WholeWords.HyphenContinuesCrates | xtask/src/main.rs:288-295 | `bathy` is a word of `bathy-query`, and is no crate named in it. |
| WholeWords.LoneOccurrenceIsMatched | xtask/src/fixtures.rs:443-449 | An occurrence that stands alone is never skipped, though overlapping matches are. |
| WholeWords.OverlapHidesAnOccurrence | xtask/src/fixtures.rs:443-449 | Outside that domain it can be: a lone occurrence of a string with a space in it is missed. |
| MsrvJobs.ParseMsrvJobs | xtask/src/gates.rs:307-374 | The state machine with its two different flushes yields exactly the workflow's sections that run a check and are not pinned to `stable`, in order. |
| MsrvLines.WorkflowReads | xtask/src/gates.rs:307-374 | Of any workflow: there is one job for each key line, in order, it holds what the lines up to the next key say, and those reported are the ones with a check and a toolchain other than `stable`. |
| MsrvLines.SectionReads | xtask/src/gates.rs:333-366 | A job removes the pin exactly when some line of it says so; its toolchain and the number of its line come from the last line with the marker, and are empty and 0 without one; its checks are those of the lines with a command, in order. |
| MsrvLines.CheckReads | xtask/src/gates.rs:348-364 | A line is a check exactly when `cargo check ` stands in it. The crates are read from the words from its first place on; all targets are checked exactly when `--all-targets` stands there too; the number is that of the line. |
| MsrvLines.PackagesRead | xtask/src/gates.rs:349-358 | The crates are exactly the words that follow a `-p` which is not itself the name after another, in order. |
| MsrvLines.SplitReads | xtask/src/gates.rs:350 | Every text is made of words with white space between them, and splitting gives exactly these, however it is laid out. |
| MsrvLines.ToolchainReads | xtask/src/gates.rs:337-344 | A line gives a toolchain exactly when it has the marker: the first word behind its first place, or an empty one. |
| MsrvLines.JobKeyReads | xtask/src/gates.rs:313-319 | A job key is two spaces, a name and a colon, where the name begins with no space, hash or hyphen. |
| MsrvLines.RetainReads | xtask/src/gates.rs:367-373 | The jobs kept are those that run a check and are not pinned to `stable`, in order. |
| MsrvJobs.UnpinnedJobIsKept | xtask/src/gates.rs:305-374 | The documented definition fails: a job that pins nothing and runs a check is kept. |
| MsrvJobs.DocumentedExactlyWhenPinnedJobsCheck | xtask/src/gates.rs:305-374 | It holds exactly when, among jobs not on `stable`, those that pin a toolchain are those that run a check. |
| MsrvRule.MsrvViolations | xtask/src/gates.rs:397-542 | The report holds exactly the violations that are true of the jobs and floors, and is empty exactly when the declarative rule holds. |
| MsrvRule.CheckJob | xtask/src/gates.rs:416-444 | Per job: the pin left in place, the floor nobody declares, and each unknown crate with its line. |
| MsrvRule.CheckCrate | xtask/src/gates.rs:446-539 | Per crate: named nowhere, not once at its floor, in several jobs without exception, a dead exception, and the faults of each tier. |
| MsrvRule.CheckTier | xtask/src/gates.rs:500-529 | Per tier: no job, or each check of its first job at the wrong disposition. |
| MsrvRule.CountsDecide | xtask/src/gates.rs:447-538 | The counts of filtered lists say what the rule says about positions: exactly one job, at least two, the first one. |
| MsrvRule.CleanExactlyWhenNothingToReport | xtask/src/gates.rs:379-396 | The declarative rule holds exactly when no violation is true. |
| MsrvMembership.CleanSpelled | xtask/src/gates.rs:379-396 | By positions of jobs, check lines and names: the rule holds exactly when every job removes the pin, has a declared floor and names declared crates on all its lines; every crate is named in one job at its floor and in no other; except `bathy-query`, named in several, where the first job at 1.88 checks it without all targets and the first at 1.95 with them. |
| MsrvMembership.JobsAreCounted | xtask/src/gates.rs:446-475 | The numbers compared are the numbers of jobs of which some check line names the crate, at any toolchain and at the given one. |
| MsrvRule.CleanMeansOneJob | xtask/src/gates.rs:379-396 | When the rule holds, exactly one job pinned to a crate's floor names it, and any other job that does is another tier of a declared exception. |
| MsrvRule.SecondTierJobIsNotLookedAt | xtask/src/gates.rs:501-528 | The documented disposition of each tier fails: three jobs of which the last checks the exception at the wrong disposition, with an empty report. |
| MsrvRule.TierVouchedForExactlyWhenOnce | xtask/src/gates.rs:500-529 | A clean report vouches for every job of a tier, whatever the dispositions, exactly when one job of that tier names the crate. |
| MsrvRule.OnceMeansAllDisposed | xtask/src/gates.rs:500-529 | With one such job and a clean report, every job of the tier that names the crate checks it as declared. |
| MsrvRule.FlipKeepsClean | xtask/src/gates.rs:505-512 | Turning around every disposition of a later job of a tier leaves a clean list clean. |
| MsrvRule.OwnFloorIsChecked | xtask/src/gates.rs:462-482 | The tier at the crate's own floor always has one job, so it is always checked. |
| XmlEntities.UnescapeInvertsEscape | xtask/src/bench.rs:638-644 | However the five special characters were escaped, the ampersand always, the five replacements give the document back (section 4.6 of XML 1.0). |
| XmlEntities.EntitiesSpelled | xtask/src/bench.rs:638-644 | Which entity stands for which of the five characters. |
| XmlEntities.ReplaceUndoesOne | xtask/src/bench.rs:638-644 | While ampersands are still escaped, a replacement undoes its own entity everywhere, touches nothing else and creates no entity. |
| XmlEntities.EscapingLosesNothing | xtask/src/bench.rs:638-644 | Two documents escaped to one text are the same document. |
| XmlEntities.AmpersandMustBeLast | xtask/src/bench.rs:643 | Undoing the ampersand first would decode twice. |
| Splice.LastWriterWins | xtask/src/bench.rs:1293-1314 | Splicing g and then g' is splicing g', for every g that begins with the begin marker and has the end marker only at its end. |
| Splice.LastComparisonWins | xtask/src/bench.rs:66-67 | So it is for the two markers of the published comparison. |
| Splice.SpliceTwice | xtask/src/bench.rs:1284-1314 | Splicing the same block again changes nothing. |
| Splice.SplicedExactlyWhenMarked | xtask/src/bench.rs:1293-1307 | Splicing succeeds exactly when both markers are there, the begin marker not after the end marker. |
| Splice.OutcomeSpelled | xtask/src/bench.rs:1293-1314 | Which outcome a document has, by where the markers first stand: one is missing, they are in the wrong order, or all from the one through the other is replaced and the rest kept. |
| Splice.UnchangedExactlyWhenCurrent | xtask/src/bench.rs:1405-1414 | The gate's comparison holds exactly when the delimited block is the generated one. |
| Splice.MarkersAfterSplice | xtask/src/bench.rs:1293-1314 | After a splice the markers are found at the two ends of the new block, around the same prose. |
| Decimals.ShowIsInjective | xtask/src/bench.rs:745 | Two endpoints shown alike are the same endpoint, even for addresses with colons. |
| Decimals.DecimalIsInjective | xtask/src/bench.rs:745 | Two numbers written alike are equal. |
| Decimals.OnlyDecimalWrites | xtask/src/bench.rs:745 | A number is written as the one row of digits, without a leading zero, whose value in base 10 it is. |
| Scoring.Score | xtask/src/bench.rs:725-791 | Every field against its set: found, missed and invented ports in scope, each listed once, products named and missed with what was reported, versions. |
| Scoring.MatchesSpelled | xtask/src/bench.rs:710-723 | Products agree exactly when either name, in lower case, stands somewhere in the other and neither is empty; versions, when the reported one begins with the expected one, which is not empty. |
| Scoring.PortsSpelled | xtask/src/bench.rs:725-747 | Expected and found ports are counted, missed and invented ones shown as address, colon and port, among those whose address is a target and whose port was asked for. |
| Scoring.ProductsSpelled | xtask/src/bench.rs:754-788 | Named products and versions are counted, and the named ones shown, over every product of the lab. |
| Scoring.MissedSpelled | xtask/src/bench.rs:754-777 | A product is listed as missed exactly when it was not named, with what was expected and what was reported. |
| Scoring.CountProducts | xtask/src/bench.rs:754-777 | The loop lists each product's endpoint once, among the named or the missed. |
| Scoring.ScoresBalance | xtask/src/bench.rs:725-791 | Found and missed make the expected ports, found and invented the reported ones, named and missed the expected products. |
| Scoring.OutOfScopeIsIgnored | xtask/src/bench.rs:735-743 | Reporting ports nobody asked about changes no part of the score. |
| Losses.FindLosses | xtask/src/bench.rs:886-1007 | The losses listed are exactly those some scored pair of runs shows, and the gaps the lab recorded; a pair is listed for wall clock, with both medians, exactly when the other median is strictly smaller. |
| Losses.PairLosses | xtask/src/bench.rs:908-992 | What one pair shows, of each of the five kinds and no other. |
| Losses.EndpointLossSpelled | xtask/src/bench.rs:950-966 | A loss by endpoint is shown exactly when both runs identify services and the other names a product where ours does not; it lists these places and no others. |
| Losses.OtherLossesSpelled | xtask/src/bench.rs:932-992 | Open ports are compared always, products and versions in total when both runs identify services; only a strictly larger number is a loss. |
| Losses.MedianSplitsTheTimes | xtask/src/bench.rs:856-863 | The median is the one recorded time with at most half of the times, rounded down, below it and more than half not above it. |
| Losses.ScoresAreConsistent | xtask/src/bench.rs:749-790 | Every score lists each named endpoint once and counts exactly those. |
| Losses.TotalLossHasAnEndpoint | xtask/src/bench.rs:950-979 | For runs with consistent scores, by the pigeonhole principle, a loss in total comes with a non-empty loss per endpoint for the same pair. |
| CancelMarker.Host.Carry | crates/bathy-engine/src/cancel.rs:33-70 | Any interleaving of requests, clears, starts, looks and aborts, carried out on the shared files, reaches the state of the specification. |
| CancelMarker.Host.PollOnce | crates/bathy-engine/src/cancel.rs:62-68 | One look of a watcher cancels its token and ends when the marker of its scan is there, and changes nothing otherwise. |
| CancelMarker.CancelledExactlyWhenFound | crates/bathy-engine/src/cancel.rs:33-70 | Over every run, a token is cancelled exactly when a watcher started for it looked, undisturbed, while a request for its own scan stood. |
| CancelMarker.MarkersShowStanding | crates/bathy-engine/src/cancel.rs:33-49 | A marker is there exactly when a request for that scan has not been cleared since. |
| CancelMarker.StaleRequestsCancelNothing | crates/bathy-engine/src/cancel.rs:8-45 | A token whose start cleared its marker is cancelled only by a request for the same scan made after that clear. |
| CancelMarker.RequestIsSeen | crates/bathy-engine/src/cancel.rs:62-68 | A request not cleared before the watcher's next look cancels at that look. |
| CancelMarker.CancellationIsPermanent | crates/bathy-engine/src/cancel.rs:64-65 | Once cancelled, a token stays so, whatever happens. |
| IpcMonitor.Monitor.Watch | fuzz/fuzz_targets/ipc.rs:140-302 | The loop accepts a run exactly when every line of it obeys its rule. |
| IpcMonitor.Monitor.Observe | fuzz/fuzz_targets/ipc.rs:204-301 | One turn of the loop takes the step of the specification, or some assertion of it fails. |
| IpcMonitor.Monitor.CheckEmissions | fuzz/fuzz_targets/ipc.rs:282-289 | Every packet of the line is judged. |
| IpcMonitor.AcceptedExactlyWhenObeyed | fuzz/fuzz_targets/ipc.rs:140-302 | The monitor with its four variables accepts exactly the runs that satisfy a rule stated of the run alone, and its variables are fixed by the first line. |
| IpcRules.AcceptedExactlyWhenLegal | fuzz/fuzz_targets/ipc.rs:140-302 | The same by observed fields alone: what the first line, a later one and one after a `Fatal` must show, and that each packet up to the first `Fatal` goes outside the reserved intervals, inside some allowed range of the first line and inside no denied one of its own. |
| IpcRules.ContainsIsInside | fuzz/fuzz_targets/ipc.rs:72-82 | A range holds exactly the addresses that agree with its base in the leading bits its prefix counts. |
| IpcRules.ReservedIsRanges | fuzz/fuzz_targets/ipc.rs:72-81 | The reserved addresses are 0.0.0.0/8, 127.0.0.0/8, 169.254.0.0/16 and everything from 224.0.0.0 on. |
| IpcMonitor.AcceptedEmissionsAreAuthorized | fuzz/fuzz_targets/ipc.rs:269-290 | In an accepted run every packet up to and including the first `Fatal` lies outside the reserved ranges and inside the allow set the first line fixed. |
| IpcMonitor.AcceptedScopesAreFixed | fuzz/fuzz_targets/ipc.rs:206-262 | In an accepted run the allow set never changes, a second `Init` is refused, and after the first `Fatal` all is `Fatal` without a scope. |
| IpcMonitor.EmissionsAfterFatalAreNotChecked | fuzz/fuzz_targets/ipc.rs:206-219 | A run that emits to any address after a `Fatal` is accepted. |
| IpcMonitor.UncheckedExactlyAfterFatal | fuzz/fuzz_targets/ipc.rs:206-290 | An accepted run stays accepted with any packets whatever on a line exactly when that line comes after a `Fatal`. |
| IpcMonitor.DenyListMayShrink | fuzz/fuzz_targets/ipc.rs:251-281 | A run whose deny list shrinks while the session is running is accepted. |
| IpcMonitor.RefusedExactlyWhenDeniedNow | fuzz/fuzz_targets/ipc.rs:269-289 | Up to the first `Fatal`, a packet to an address the start allows is refused exactly when the deny list in force on its own line covers it. |
| IpcMonitor.DenialLastsExactly | fuzz/fuzz_targets/ipc.rs:269-289 | Everything the start denies is still refused on a line exactly when the deny list in force there covers each such address that is allowed and not reserved. |
| SchemaTree.EmitSchemasInto | xtask/src/main.rs:1111-1160 | A check run, or a run with a leaking source schema, leaves the directory as it was; a write run renders every schema and changes no other file; success means current, parsed and free of leaks. |
| SchemaTree.PublishedSpelled | xtask/src/main.rs:1111-1160 | Which texts make it succeed: each schema has its name and `.json` for a file, which holds the pretty form and a newline; some file ends so, and each that does parses and holds no maintainer prose. |
| SchemaTree.WroteSpelled | xtask/src/main.rs:1214-1219 | What writing leaves: in the prefix, the name and `.json`, the pretty form and a newline; every other file as it was. |
| SchemaTree.MirrorSchemaSeeds | xtask/src/main.rs:1038-1092 | It passes exactly when the prefixed files are precisely the rendered schemas; a write changes only those files. |
| SchemaTree.MirrorSpelled | xtask/src/main.rs:1038-1092 | Which texts make it pass: each schema is in `schema-`, its name and `.json`, and every file whose name begins so is one of these. |
| SchemaTree.EmitSchemas | xtask/src/main.rs:880-923 | Both halves always run, and both must succeed: seeds are written even after a refused write. |
| SchemaTree.WriteThenCheck | xtask/src/main.rs:880-923 | The check after a write run succeeds exactly when that write run did. |
| SchemaTree.WriteAll | xtask/src/main.rs:1214-1219 | After write mode every schema's file is its rendering and every other file is untouched. |
| SchemaTree.Differing | xtask/src/main.rs:1220-1230 | Check mode finds exactly the schemas whose file is missing or differs. |
| SchemaTree.UnionSchemas | xtask/src/main.rs:1184-1198 | The merge succeeds exactly when no two crates publish one name, and then holds exactly what they published. |
| SchemaTree.FileOfIsInjective | xtask/src/main.rs:1046 | Different schemas have different files. |
| Layers.FindViolations | xtask/src/main.rs:755-783 | The report holds exactly the direct dependencies that do not fall in the layer order and those that look like an inference client. |
| Layers.RankSpelled | xtask/src/main.rs:19-32 | The twelve layers have ranks 0 to 11 in their order, and nothing else has a rank. |
| Layers.ForbiddenSpelled | xtask/src/main.rs:36-43 | A dependency is forbidden exactly when one of the six words stands somewhere in its name in lower case. |
| Layers.EmptyReportDecides | xtask/src/main.rs:755-783 | It is empty exactly when rank strictly falls along every direct dependency between ranked packages and no dependency is forbidden. |
| Layers.RankFalls | xtask/src/main.rs:19-32 | Without a layer violation rank falls by at least one a step along every dependency path through ranked packages. |
| Layers.LayeredMeansAcyclic | xtask/src/main.rs:19-32 | So no such path returns to a package, and none has more packages than there are layers. |
| PortRanking.RankPorts | xtask/src/main.rs:1329-1375 | It succeeds exactly when at least 1000 distinct named TCP ports lie in 1 to 49151, and returns the first 1000 of their ascending enumeration, and the first 100. |
| PortRanking.RankableSpelled | xtask/src/main.rs:1332-1361 | A port is ranked exactly when it is from 1 to 49151 and a TCP row with a service name gives it, alone or in a range with both ends. |
| PortRanking.Collect | xtask/src/main.rs:1332-1361 | The two sets hold exactly the assigned ports of their ranges. |
| PortRanking.ExpandPortField | xtask/src/main.rs:1387-1401 | A field names exactly the ports of its number or range; a reversed range names none. |
| PortRanking.RangeIsInclusive | xtask/src/main.rs:1394-1399 | A range names its ports from the first to the last, in ascending order. |
| PortRanking.EnumerationIsUnique | xtask/src/main.rs:1363 | A set has only one ascending enumeration, so the ranking is determined by which ports are assigned. |
| PortRanking.RankingIgnoresOrder | xtask/src/main.rs:1332-1375 | Two rankings of the same rows, in any order and with any repetition, are the same ranking. |

## Left out

- RustNoise.SkipString: where a string is unclosed the source's index runs past the end of the text; here it stops at the end, which the outer loop cannot tell apart.
- RustTokens.StripBlanksNoise: nothing is said of a source with `'\''` when its last quote opens a literal: then the result is sometimes right and sometimes not, as what that literal uncovers decides.
- SourceCommentsLaws.StripBlanksComments: the same corner is left open here.
- RustBlocks.MatchBracket: the bracket depth is unbounded here; the source's saturates at the largest 32-bit integer, which no text of fewer than 2^31 characters reaches.
- RustFunctions.FunctionsIn: counting code lines and extracting call keys are parameters, any functions of the body; so are Unicode's classes of characters here and in WholeWords and MsrvJobs.
- PrivilegedWindow.Measure: finding the two entry points, the bounds of the window in the text and the count before the acquisition are not modelled; the inline calls and lines are given.
- PrivilegedWindow.SortDedup: sorting and removing neighbours is modelled as ordered insertion, which has the same result.
- MsrvJobs.ParseMsrvJobs: the workflow is given as its lines.
- DuplicateKeys.HasDuplicateKeys: nothing is said of the answer when a lone high surrogate stands directly before an escape and the subtraction does not underflow; in a build without overflow checks it wraps instead of failing.
- DuplicateKeys.NameUnderflowsExactly: before an escape of two characters the reader loses its place in the string, and only `DuplicateKeys.ReadsBrokenExactly` speaks of that.
- Scoring.Score: sets are unordered here, so the order within a list of endpoints is left open; folding to lower case is a parameter.
- Losses.FindLosses: the order of the report, repetitions in it and the ratio of two times are not modelled, nor is the wording of any message in any module.
- SchemaTree.EmitSchemasInto: rendering, parsing and the search for maintainer prose are parameters; reading or writing an existing file does not fail, and the order of the names is left open.
- PortRanking.RankPorts: rows and numbers are given as parsed; the CSV format, a missing column and number parsing are not modelled.
- CancelMarker.Host.Carry: file operations do not fail; a request that fails is a step that does not happen.
- CancelMarker.CancelledExactlyWhenFound: a token is cancelled by its watchers only, file operations do not fail, and the time between looks is any number of other steps.
- IpcMonitor.Monitor.Watch: the line reader and its buffer bound are not modelled; the lines are given.
- IpcMonitor.AcceptedExactlyWhenObeyed: the session, the line reader with its buffer bound, and the counters are not part of this model; a run is any sequence of observed lines.
- Splice.LastWriterWins: the renderer is not modelled; the shape it gives a block is a hypothesis.
- The daemon's session, the scheduler, the evidence log, the scope manifest and the probes are not part of this model.
- Running cargo, containers and scanners, reading the kernel's counters and walking directories are inputs or absent.
- The documentation gates, the wording rules and the presence checks of xtask: one branch settles each of them.
