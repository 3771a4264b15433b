# Puppet tree-sitter grammar: external scanner and operator layer

A Dafny model of the lexical core of the tree-sitter grammar for the Puppet
language. It has two parts.

**The external scanner** (`src/scanner.c`) is modelled as pure functions over
the remaining input `seq<char>`. Each call returns a `Scan`: whether it
accepted, how many characters it advanced over, the symbol it reports and
the new scanner state.

- The state is `State(heredocTag, interpolationAllowed, checkSelbrace)`.
- The valid symbols are a `set<Symbol>`.
- Skipped whitespace counts as consumed.
- A sub-scan that fails keeps the characters it advanced over. The
  dispatcher continues from there, as the C code does with a shared lexer.

The modules follow the C functions:

- `SelectorBrace`: `scan_selbrace`.
- `QuotedStrings`: `skip_quoted_string`, `scan_sq_string`, `scan_dq_string` and `scan_dq_escape_sequence`.
- `Interpolations`: `scan_interpolation`.
- `Heredocs`: `scan_heredoc_start` and `scan_heredoc_body`.
- `Dispatch`: `tree_sitter_puppet_external_scanner_scan`, plus `Session`, a series of calls, each given the input at the lexer's position when it is made.

Character classes (`Chars`) are ASCII: `is_variable_name` is `IsVariableNameChar`.

**The operator layer of `grammar.js`**:

- `Precedence`: the `PREC` table and the operators with their levels.
- `Expressions`: tokens, expression trees, how a tree is written, and which trees the table allows (`WF`).
- `ExprParser`: a precedence-climbing parser.
- `ExprRoundTrip`: proof that every allowed tree parses back to itself from its tokens. Hence no token sequence has two allowed trees.
- `ExprExamples`: the groupings the table promises.
- `Identifiers` and `Numbers`: the token regexes as structured values with a renderer and a recogniser, proved to be inverses.

Where the code and its documentation disagree, the model follows the code:

- **Quoted heredoc tags.** A heredoc header allows interpolation only when it contains a `"`. The `@(END)` form without quotes does not.
- **End-tag matching.** The end-tag check compares only alphanumeric characters, in order. A line `E N D` therefore closes a heredoc whose tag is `END`. The comparison is also reset at the start of every body scan, not only at a newline: it covers the text since the later of the last newline and the position where the current call started. After `${x}`, an escape sequence, or any other token that ends a body scan in the middle of a line, the rest of that line alone can spell the tag and close the heredoc (`Heredocs.RestOfLineCloses`).
- **A `$` before the closing quote.** A `$` that starts no interpolation stays consumed, and the double-quoted content scan continues after it. That scan reports content only if it advanced itself, so on `$` followed directly by the closing `"` (as at the end of `"5$"`) the whole call fails (`Dispatch.DollarBeforeCloseRejects`).
- **Interpolation stays on.** `interpolation_allowed` is only ever set to true. Ending a heredoc clears the tag but not this flag.
- **Headers append to the tag.** A heredoc header appends to any tag already stored.

## Model

| member | source | states |
|---|---|---|
| SelectorBrace.ScanSelbrace | src/scanner.c:91-121 | after leading whitespace: `?` is accepted as QMARK and sets the flag; `{` is accepted as SELBRACE only when the flag is set, and then clears it; `{` without the flag fails and keeps the state; any other character clears the flag and fails; end of input fails; a failure consumes only the whitespace |
| SelectorBrace.QmarkThenBrace | src/scanner.c:91-121 | `?` then `{`, each after any whitespace, give QMARK then SELBRACE, and the flag ends cleared |
| QuotedStrings.SkipQuotedString | src/scanner.c:130-149 | it succeeds in front of the first matching quote that follows escaped text (a backslash takes the next character) and leaves that quote unconsumed; otherwise it fails at the end of input |
| QuotedStrings.QuotedRunFindsClose | src/scanner.c:135-148 | the quoted run stops at the first closing quote after escaped text: any such position is exactly where it stops |
| QuotedStrings.ScanSqString | src/scanner.c:256-272 | it succeeds only in front of a `'`, after a non-empty escaped run; `\'` does not end the run; it fails at end of input or on an empty run |
| QuotedStrings.SqLoopIsQuotedRun | src/scanner.c:259-271 | the single-quoted loop stops where the generic quoted-string skip stops, and succeeds exactly when that skip succeeds after at least one character |
| QuotedStrings.SqStringAccepts | src/scanner.c:256-272 | a non-empty escaped run followed by `'` is accepted, with exactly that run consumed |
| QuotedStrings.ScanDqString | src/scanner.c:281-301 | it consumes the maximal run free of `"`, `$` and `\`; it succeeds iff that run is non-empty and some character follows it |
| QuotedStrings.ScanDqEscapeSequence | src/scanner.c:231-248 | it accepts iff the input starts with `\` and has a second character, and then consumes exactly two; a lone `\` at the end fails after consuming it |
| Interpolations.NameLoop | src/scanner.c:214-222 | it consumes the maximal run of variable-name characters; it succeeds iff another character follows |
| Interpolations.BraceLoop | src/scanner.c:200-212 | on success, what it consumed is brace text closed by `}`, where brace text has no `}` outside quoted strings; on failure, it consumed everything |
| Interpolations.BraceLoopFindsClose | src/scanner.c:200-212 | the loop closes at the first `}` after brace text: any such position is exactly where it succeeds |
| Interpolations.ScanInterpolation | src/scanner.c:168-224 | with no leading `$` it fails without consuming anything; `$` followed by neither `{` nor a name character fails after consuming the `$`; `$name` consumes the maximal name run and succeeds iff a character follows; `${` succeeds just after the closing `}` of brace text, and otherwise fails having consumed everything |
| Interpolations.BraceInterpolationAccepts | src/scanner.c:168-224 | `${`, then brace text, then `}` is accepted with exactly that consumed |
| Heredocs.HeaderStep | src/scanner.c:323-354 | one step of the header loop: it keeps the selector flag; afterwards interpolation is allowed iff it was allowed before or the step read a `"`; it extends the tag only with alphanumerics |
| Heredocs.HeredocStartStops | src/scanner.c:311-361 | the header loop stops at the first character it cannot advance over; it succeeds iff that character is `)` and the tag is non-empty; it clears the tag when it stops anywhere else before the end |
| Heredocs.HeredocStartTag | src/scanner.c:323-361 | unless the scan cleared it, the new tag is exactly the old tag followed by the alphanumerics the scan passed over outside `:syntax` and `/escapes` runs (`TagChars`); it is not cleared when the scan stops at `)` or at the end of input |
| Heredocs.HeredocStartInterpolation | src/scanner.c:323-327 | interpolation is allowed afterwards iff it was allowed before or the scanned header contained `"` |
| Heredocs.ScanHeredocStart | src/scanner.c:311-361 | combines the three lemmas above: where the header scan stops, when it succeeds, that the tag becomes exactly the old tag followed by the header's tag characters (or is cleared when the scan stops anywhere but `)` or the end of input), and when interpolation is allowed |
| Heredocs.HeaderRoundTrip | src/scanner.c:305-361 | a well-formed header `TAG`, `"TAG"`, with an optional `:syntax` and `/escapes`, followed by `)`, is accepted; the scan consumes the whole header, appends exactly TAG to the stored tag, and allows interpolation iff the tag was quoted |
| Heredocs.TracksAtEnd | src/scanner.c:388-397 | the match flag and index the loop keeps say "this text matches" exactly when the alphanumerics since the last reset equal the tag |
| Heredocs.MatchNextTracks | src/scanner.c:414-429 | one character's update of the match flag and index keeps them tracking the alphanumerics since the last reset |
| Heredocs.BodyLoop | src/scanner.c:372-434 | HEREDOC_END is reported at a newline or at the end of input, and it clears only the tag; HEREDOC_BODY is reported elsewhere and changes nothing; a stop before the end of input is always a success |
| Heredocs.BodyLoopStops | src/scanner.c:372-434 | the body loop stops at the first stopping point: a `\`; a `$` when interpolation is allowed; or a newline or the end of input where the alphanumerics since the later of the last newline and the start of the scan equal the tag |
| Heredocs.ScanHeredocBody | src/scanner.c:372-434 | nothing before the stop is a stopping point; a stop before the end of input is accepted; at the end of input it accepts iff the alphanumerics since the later of the last newline and the start of the scan equal the tag |
| Heredocs.RestOfLineCloses | src/scanner.c:372-397 | input without a newline, `\` or `$` whose alphanumerics spell the tag closes the heredoc, consumed whole, whatever preceded the scan on its line |
| Dispatch.ScanText | src/scanner.c:535-553 | the first valid kind wins, in the order double-quoted content, single-quoted content, heredoc header, heredoc body (only with a stored tag): the call answers with that recogniser's verdict, advance and state; with none of them valid it rejects without advancing; accepted symbols are reportable, the selector flag is kept, interpolation permission is never withdrawn |
| Dispatch.ScanString | src/scanner.c:522-553 | an escape sequence, when valid and ahead, is reported first; otherwise an accepted interpolation (`${…}` or `$name`) is reported with the state unchanged; a failed interpolation's advance is kept and the string and heredoc stage answers from there; with interpolation not valid that stage answers directly |
| Dispatch.Dispatch | src/scanner.c:515-554 | in selector mode the call answers with `scan_selbrace`'s verdict, advance and state, and the tag and interpolation permission are untouched; outside it the call is the string scan, so the escape and then an accepted interpolation win; with no symbol valid it rejects without advancing; every accepted symbol is reportable |
| Dispatch.SelbraceWhenOnlyQmarkValid | src/scanner.c:518-520 | with only QMARK valid and the selector flag set, a `{` after whitespace is reported as SELBRACE, consuming through the brace and clearing the flag |
| Dispatch.HeredocEndWhenOnlyBodyValid | src/scanner.c:547-551 | with only HEREDOC_BODY valid, input with no newline, `\` or `$` that spells the stored tag is reported as HEREDOC_END, consumed whole, and clears the tag |
| Dispatch.InterpolationBeforeContent | src/scanner.c:527-533 | with interpolation valid, `${…}` is reported as an interpolation before any string content is tried |
| Dispatch.DollarJoinsContent | src/scanner.c:191-196 | a `$` followed by neither `{` nor a name character stays consumed, and the call's answer is the double-quoted content scan after it, shifted by one |
| Dispatch.DollarBeforeCloseRejects | src/scanner.c:284-300 | a `$` directly before the closing `"` makes the call fail, with the `$` consumed |
| Dispatch.Session | src/scanner.c:515-554 | a series of calls reports at most one token per call; when no call was accepted the state is the starting state |
| Dispatch.InterpolationSticky | src/scanner.c:325 | over any series of calls, each on its own input, once interpolation is allowed it stays allowed |
| Dispatch.SelectorFlagUntouched | src/scanner.c:518-520 | over any series of calls none of which is in selector mode, each on its own input, the selector flag keeps its value |
| Precedence.Table | grammar.js:31-51 | the nineteen levels in declaration order strictly increase, from LOW to HIGH |
| Precedence.BinaryLevel | grammar.js:200-219 | every binary level lies between OR and IN, never equals QMARK, and is above EQUALS and below UMINUS |
| Precedence.UnaryLevel | grammar.js:194-198 | an operator has a prefix level iff it is `!`, `-` or `*`, and that level is above IN and below HIGH |
| Precedence.UnaryAboveBinary | grammar.js:194-219 | every prefix operator binds tighter than every binary operator |
| Precedence.OperatorClasses | grammar.js:106-139 | arrows, assignment operators and binary operators are disjoint; `-` and `*` are the only operators that are both prefix and binary |
| ExprParser.Parse | grammar.js:184-219 | any tree it returns is written exactly as the given tokens and is allowed by the table |
| ExprRoundTrip.ParseRoundTrip | grammar.js:106-219 | every tree the table allows is what its own tokens parse to |
| ExprRoundTrip.Unambiguous | grammar.js:106-219 | two allowed trees with the same tokens are equal |
| ExprExamples.TighterOperatorGroupsFirst | grammar.js:200-219 | `x b1 y b2 z` with b2 tighter groups as `x b1 (y b2 z)`, and the other grouping is not allowed |
| ExprExamples.LeftAssociative | grammar.js:200-219 | with b1 at least as tight as b2, `x b1 y b2 z` groups as `(x b1 y) b2 z`, and the other grouping is not allowed |
| ExprExamples.PrefixBindsFirst | grammar.js:194-198 | `u x b y` with u prefix and b binary groups as `(u x) b y` |
| ExprExamples.ArrowsChainLeft | grammar.js:134-139 | two chaining arrows group to the left |
| ExprExamples.ArrowTakesExpression | grammar.js:134-145 | an arrow's right side is a whole binary expression |
| ExprExamples.AssignmentAssociatesRight | grammar.js:106-113 | two assignments group to the right |
| ExprExamples.AssignmentTakesRelationship | grammar.js:106-113 | an assignment's value is a whole relationship |
| ExprExamples.SelectorTakesTighter | grammar.js:191 | a selector takes a left operand built from tighter operators, and an operator after its `}` applies to the whole selector |
| ExprExamples.SelectorInsideLooser | grammar.js:191 | under `and` or `or` the selector takes only the nearest operand |
| Identifiers.Recognise | grammar.js:658-661 | a recognised identifier is a valid path of that kind whose rendering is the input |
| Identifiers.RoundTrip | grammar.js:658-661 | every valid path of each kind, rendered, is recognised as itself |
| Identifiers.MatchesIff | grammar.js:658-661 | a string matches a kind iff it is the rendering of a valid path of that kind |
| Identifiers.Inclusions | grammar.js:564 | every `name` is also a `word` and a `_variable_name`; every `classref` is a `_variable_name` |
| Identifiers.ClassrefDisjoint | grammar.js:658-661 | no string is both a `classref` and a `name`, or both a `classref` and a `word` |
| Identifiers.Keywords | grammar.js:652-656 | the twenty keywords, all lower-case letters |
| Identifiers.ReservedWords | grammar.js:568 | the reserved words are among the keywords |
| Identifiers.KeywordsAreNames | grammar.js:652-660 | every keyword matches `name` and does not match `classref` |
| Identifiers.InterpolatedNameIsVariableName | grammar.js:564 | a non-empty run of the scanner's variable-name characters is a one-segment `_variable_name`; `Foo` is a `_variable_name` although the scanner's `$name` form cannot start with `F` |
| Numbers.RecogniseNumber | grammar.js:666 | a recognised number is valid and its rendering is the input |
| Numbers.NumberRoundTrip | grammar.js:666 | every valid hexadecimal or decimal number, rendered, is recognised as itself |
| Numbers.NumberMatchesIff | grammar.js:666 | a string is recognised iff it is the rendering of a valid number |

## Left out

- Serialization and deserialization (`src/scanner.c:462-513`) copy a C struct, including a heap pointer, byte for byte. There is nothing to state about them beyond the state they restore. Deserializing first resets to the initial state, which is `ScannerState.Initial`.
- Scanner creation and destruction are allocation only.
- Token-start marking: an `advance` with `skip` set moves the start of the token. `consumed` counts skipped whitespace like any other character.
- Dispatch.Session: each call is given its own input, the text at the lexer's position when the parser makes the call; which internal tokens the parser lexes between calls is decided by the generated parse tables and is not modelled.
- Dispatch.Session: a rejected call leaves the state as it was before the call. This models the runtime restoring its saved state after a rejected call. It is not the scan functions' own in-place writes, which `Dispatch` returns as they are.
- Dispatch.Dispatch: the valid symbols are a set, and `DqEscapeSequence` may be in it. The enum has nine tokens but the grammar's `externals` list has eight, so the index correspondence between them is not modelled.
- Character classes are ASCII. The locale-dependent `isalpha`, `isalnum` and `isspace` on code points are not modelled.
- The statement and declaration grammar, the conflicts resolved by the generated parse tables, comments and other extras, and regular expression literals are not modelled.
- Expressions: operands are abstracted to one operand token. Parentheses, the prefix operators and selectors are modelled. Function calls, access brackets and collections are left out.
- Identifiers.Recognise and Numbers.RecogniseNumber decide whether a whole string matches a token regex. Tree-sitter's longest-match lexing across competing tokens is left out.
- `word`: the spelling `[a-z_](?:[\w-]*\w)?` is modelled per segment. The regex's repetition of whole units without `::` between them gives the same language, as the module comment explains.
