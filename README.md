# nxml markup parser — a Dafny model

This project models the parser of nxml, a small markup notation made of text runs and bracketed tags.
It covers two parts of the code.
The first is the parser in `src/main.rs`: the text scanner `text::parse_text` and the top-level `parse_sequential_nodes` with its nested `process_error`.
The second is the string-slicing helpers in `src/lib.rs`.

The text scanner reads one maximal run of text.
It decodes the escapes `\:`, `\[`, `\]` and `\\`.
It stops in front of the first unescaped `:`, `[` or `]`, and reports in `next_error` what stopped it.
`parse_sequential_nodes` pushes a `Text` node for each run and passes the stopping reason to `process_error`.
After a `[`, `process_error` reads a tag name and then either `]` (a tag without contents) or `:` (a tag with contents).

The model follows the code as written.
The `]` or `:` that ends a tag name is never consumed.
A `]` left behind is then met by the outer loop as an unpaired closing bracket.
The contents after `name:` are parsed from input that still starts with `:`, which fails at once.
So no tag is ever returned.
Every successful parse is either empty or a single `Text` node holding the decoded input.
`Markup.SequentialOutcome` states the result in closed form, and the methods are proved to compute exactly it.

`src/lib.rs` points at a different notation.
It has a `Node::Sequence` variant (src/lib.rs:1-5), it counts `|` as a control char in `special_character::parse` (src/lib.rs:68), and its tests write text ended by `|` (src/lib.rs:128-167).
No parser for that notation exists in the code, so this model follows the parser of `src/main.rs`.

Modules:
- `Wrappers`: Rust's `Option` and `Result`.
- `Text`: `mod text` of `src/main.rs`, plus the crate-level `ParsingResult`.
  `Scan` is the recursive decoder that specifies the loop of `ParseText`.
  `Encode` is its inverse: it puts `\` before every control char.
- `Markup`: the crate root of `src/main.rs`.
  It holds `Node`, `ParsingError`, `ProcessingResult`, the mutually recursive methods `ProcessError` and `ParseSequentialNodes`, and the lemmas about `SequentialOutcome`.
- `Slicing`, `SpecialCharacter`, `TextCharacter`: the helpers of `src/lib.rs`.

Strings are `seq<char>`.
The source's byte offsets become char indices.
The `&mut &str` cursor of `process_error` becomes an input parameter plus a returned `remaining` suffix.

## Model

| member | source | states |
|---|---|---|
| `Text.FromChar` | src/main.rs:33-55 | converting the classified char back gives the char again; only `:`, `[`, `]`, `\` classify as something other than `Other` |
| `Text.ToChar` | src/main.rs:45-55 | each of the four named variants becomes a control char, and `Other` gives back the char it holds; that it inverts `FromChar` is proved through `Text.FromChar` and `Text.CharacterRoundTrip` |
| `Text.CharacterRoundTrip` | src/main.rs:45-55 | classifying a converted `Character` gives it back, except for an `Other` that holds a control char |
| `Text.Parsed` | src/main.rs:84-135 | `Err(StringIsEmpty)` iff the input is empty; `Err(StringStartsWith…)` iff the input starts with that `[`, `]` or `:`; on `Ok` the value is non-empty, the rest is a proper suffix, the input is the encoding of the value followed by the rest, the rest is empty or starts with the delimiter `next_error` names, and `next_error` is never an escape error; any other `Err` is an escape error |
| `Text.ParseText` | src/main.rs:67-156 | the scanning loop returns exactly `Parsed(input)` |
| `Text.ScanAfterEscaped` | src/main.rs:116-154 | scanning the encoding of a text followed by more input decodes that text, then goes on as scanning the rest does |
| `Text.ScanDecomposes` | src/main.rs:116-135 | a successful scan consumed exactly the encoding of its value and stopped at the end of the input or in front of an unconsumed delimiter that its stop names |
| `Text.ScanFailure` | src/main.rs:96-152 | a scan fails only with one of the two escape errors |
| `Text.ScanEmptyRun` | src/main.rs:84-95 | a run is empty iff the input is empty or starts with a delimiter, and then nothing is consumed |
| `Text.ParsedEscaped` | src/main.rs:116-135 | round trip: a non-empty text, encoded and followed by the end or a delimiter, is read back as that text; the delimiter stays in the rest and is named by `next_error` |
| `Text.EscapedControl` | src/main.rs:96-152 | `\` followed by a control char appends that literal char, after any prefix of text, so for the first char and inside the loop alike |
| `Text.UnknownEscape` | src/main.rs:96-152 | `\` followed by any other char gives `Err(UnknownCharacterEscaped)` after any prefix of text, with no partial text |
| `Text.TrailingEscape` | src/main.rs:96-152 | a trailing `\` gives `Err(EscapeCharacterIsAtTheEndOfTheString)` after any prefix of text, with no partial text |
| `Text.EncodePlain` | src/main.rs:112-153 | text without control chars is its own encoding, since ordinary chars are copied unchanged |
| `Markup.ProcessError` | src/main.rs:177-274 | end of input means done; a `:`, a `]` or an escape error becomes its top-level error with the cursor unchanged; after `[` the bracket is consumed, the result is never done, an error is the one `TagError` names, and a node is returned iff the name ends at `]`; that node is a contents-less `Tag` of the name read, and the cursor is left, now shorter, at that `]`: it is the rest of the name scan, or the input just after the `[` when the name is empty |
| `Markup.ParseSequentialNodes` | src/main.rs:169-299 | the loop, with the mutual recursion through `ProcessError`, returns exactly `SequentialOutcome(input)` |
| `Markup.PlainText` | src/main.rs:276-293 | `""` parses to `Ok([])`; the encoding of any non-empty text parses to `Ok([Text(text)])` |
| `Markup.OnlyPlainTextSucceeds` | src/main.rs:276-298 | the parse succeeds iff the input is the encoding of some text; every success is `[]` or one `Text` node holding the input's decoding, so no tag is ever returned |
| `Markup.DelimiterOutsideTag` | src/main.rs:180-188 | an unescaped `:` reached by the top-level loop gives `AColonIsNotPlacedImmediatelyAfterTagName`; an unescaped `]` gives `UnpairedClosingBracket` |
| `Markup.EscapeErrorsPassThrough` | src/main.rs:189-194 | escape errors in the first text run are reported unchanged |
| `Markup.OpeningBracketConsumed` | src/main.rs:195-199 | after some text and a `[`, the outcome is decided by what follows the consumed `[` |
| `Markup.TagErrorAfterName` | src/main.rs:199-270 | after the `[`, a name (possibly empty) followed by the end, `[`, `]` or `:` gives `UnclosedBracket`, `TagInsideTagName`, `UnpairedClosingBracket` or `AColonIsNotPlacedImmediatelyAfterTagName` |
| `Markup.AfterOpeningBracket` | src/main.rs:195-270 | for a whole input: `text[name` is unclosed, `text[name[` is a tag inside a tag name, `text[name]` and `[]` end in an unpaired bracket, `text[name:` and `[:` in a misplaced colon |
| `Markup.EscapeErrorInTagName` | src/main.rs:259-266 | escape errors inside a tag name are reported unchanged |
| `Markup.ExampleEscapedColon` | src/main.rs:136-148 | `a\:b` parses to `Ok([Text("a:b")])` |
| `Slicing.FirstRejected` | src/lib.rs:19-21 | the index of the first char the checker rejects: every char before it is accepted, and the char there, if any, is rejected |
| `Slicing.SplitUntil` | src/lib.rs:15-28 | `prefix + rest == input`; every prefix char is accepted; `(input, "")` when every char is accepted, which includes the empty input; otherwise the cut is one char short of the first rejected char |
| `Slicing.SplitPointFallsShort` | src/lib.rs:17-23 | the as-written prefix is not maximal: when the first rejected char is not the first char, the char just after the prefix is accepted too |
| `Slicing.SplitUntilCounterexample` | src/lib.rs:17-23 | on `"ab"` with a checker accepting only `a`, the as-written cut is 0 although the first rejected char is at index 1 |
| `Slicing.SplitUntilMaximal` | src/lib.rs:15-28 | corrected `split_until`: `prefix + rest == input`, the prefix is the longest accepted run, and the rest is empty or starts with a rejected char |
| `Slicing.TakeFirstCharacter` | src/lib.rs:30-37 | `None` iff the input is empty; otherwise `[c] + rest == input` |
| `Slicing.TakeLastCharacter` | src/lib.rs:39-46 | `None` iff the input is empty; otherwise `rest + [c] == input` |
| `Slicing.TakeMatching` | src/lib.rs:48-54 | `Some` iff `sample` is a prefix of the input; then the matched part equals `sample` and matched `+` rest `== input` |
| `SpecialCharacter.Parse` | src/lib.rs:64-74 | `Err(InputEnded)` iff the input is empty; `Ok((input[0], input[1..]))` iff the first char is `[`, `]`, the vertical bar or `\`; `Err(WrongCharacter)` otherwise |
| `TextCharacter.Escaped` | src/lib.rs:88-95 | for a non-empty sample: success iff the input starts with it, with the sample's last char and the input after it; otherwise `Err(InputEnded)` |
| `TextCharacter.EscapedSample` | src/lib.rs:112-115 | for the samples `\\`, `\[`, `\]` and a backslash before a vertical bar, the char read is the literal control char |

## Left out

- `main` (src/main.rs:301-312): an interactive stdin/stdout loop, pure I/O.
- The debug `println!` in `process_error` (src/main.rs:178): a side effect that does not change any result.
- `String::shrink_to_fit` in the `ok` helper of `parse_text` (src/main.rs:73): it changes only capacity. `ok` is therefore the `Ok` constructor itself.
- Rust lifetimes and byte-offset slicing: strings are `seq<char>` and offsets are char indices.
- Markup.ProcessError: does not say where the cursor is left when it returns an error. The only caller returns that error at once and never reads the cursor again.
- Markup.ProcessError: the two arms for escape errors after a tag name (src/main.rs:210-217) are written as `assert false`. They are proved unreachable, because `Text.Parsed` never reports an escape error as `next_error`.
- TextCharacter.Escaped: an empty sample panics in the source (`take_last_character(s).unwrap()`, src/lib.rs:93), and the model requires a non-empty sample instead; every call site (src/lib.rs:112-115) passes a two-char sample.
- The rest of `text_character::parse` (src/lib.rs:97-124): it does not compile, so it has no definite behaviour. It has an empty char literal, an `ok_or_else` with a tuple-pattern closure, an `if` without `else` used as a value, and no return value. The error variants other than `InputEnded` are declared but used only there.
- The `Node` and `ParsingError` enums of `src/lib.rs` (src/lib.rs:1-11): no modelled helper uses them.
- The `lib.rs` test module (src/lib.rs:128-167): it calls a `parse_sequential_nodes` that `lib.rs` does not define, and it contains `todo!()`.
- The `FnMut` checker of `split_until` is modelled as a pure `char -> bool` function, so a stateful checker is not covered.
- The `Rest` wrapper of `src/lib.rs` is a plain `seq<char>`.

## Findings

| source | as written | input that shows it | evidently intended | confidence | as-written member | corrected member |
|---|---|---|---|---|---|---|
| src/lib.rs:23 | `old_index = new_index` moves the cut to the start of each accepted char, so when the char at index k is rejected the prefix has max(k−1, 0) chars | `"ab"` with a checker that accepts only `a` gives `("", "ab")` (`Slicing.SplitUntilCounterexample`) | the cut moves past each accepted char, giving `("a", "b")` | high; not executed | `Slicing.SplitUntil` | `Slicing.SplitUntilMaximal` |

Nothing else in the model calls `split_until`, so the correction changes no other result.
