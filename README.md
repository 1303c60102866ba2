# tmux-quick-copy: a verified model of match extraction and selection

tmux-quick-copy reads the text of a terminal pane and finds copyable
tokens in it: URLs, file paths, git SHAs, IP addresses, PIDs, file names
in `git status` and `ls -l` output. Each token gets a one-key hint. The
user presses a hint to copy the token. An upper-case key means copy and
paste. In stdin mode the program prints the choice on stdout, after a
`PASTE:` prefix when a paste was asked for.

This project models the core of `src/main.rs` in Dafny:

- `Text`: Rust's `str::lines` on the bytes of the content.
- `Patterns`: the pattern table, as an abstract recogniser. `scan(p, line)`
  gives the captures of pattern `p` in a line. Each capture has a whole
  span and an optional group-1 span.
- `Extractor`: `find_matches`. There is one method per loop level
  (`FindMatches` over lines, `ScanLine` over patterns, `AcceptCaptures`
  over captures). Each method is proved equal to `Extract`, a one-candidate
  fold over the flattened candidate stream. `Extract` covers the cap, the
  exclusion of the working directory, deduplication, hinting and the
  panic when the hint alphabet runs out.
- `ExtractorProperties`: `Extract` is proved equal to a reference
  pipeline. It keeps the first occurrence of every non-excluded text,
  cuts the list at the cap and hints it with the alphabet in order. The
  promised properties follow from that: unique hints and texts, the
  exclusion, first occurrence wins, nothing missed below the cap, matches
  are slices of their lines in line order, and when exactly it panics.
- `Selection`: the key loop of `run_selector` (`AwaitSelection`), proved
  against the function `Select` over a sequence of key events.
- `Session`: `run_selector` as a whole, and the line that `main` prints
  for a selection.

Text is a sequence of bytes, because the regex offsets the program
stores are byte offsets. Hints and keys are characters.

## Model

| member | source | states |
|---|---|---|
| Text.Lines | src/main.rs:47 | no line that `lines()` yields contains a line feed |
| Text.LinesAtLF | src/main.rs:47 | the text before the first `\n` (less one trailing `\r`) is the first line, and the lines after it are the lines of the rest |
| Text.LinesOfUnbroken | src/main.rs:47 | empty content has no lines; content without `\n` is a single line |
| Text.LinesRoundTrip | src/main.rs:47 | for content without `\r`, putting a `\n` after each line gives the content back, with a `\n` added only if it did not end with one |
| Text.LinesOfTerminated | src/main.rs:47 | lines that hold no `\n` or `\r`, each ended by a `\n`, are split back into exactly those lines |
| Text.LinesCount | src/main.rs:47 | there is one line per `\n`, plus one for text after the last `\n` |
| ExtractorProperties.FromLineSpans | src/main.rs:53-79 | every candidate of the scan from line `i` on has, as offsets, the span chosen from some capture of some pattern in its own line (group 1 when present, else the whole match) |
| ExtractorProperties.MatchesAreCapturedSpans | src/main.rs:59-79 | every returned match's `start` and `end` are the span that some pattern's capture chose in the match's line: group 1 when it took part, the whole match otherwise |
| Extractor.Extract | src/main.rs:55-83 | one candidate at a time: the matches accepted so far are never dropped, and the result never grows past the cap or past the 17 hint characters |
| Extractor.AcceptCaptures | src/main.rs:54-84 | the capture loop over one pattern's captures equals `Extract` over those captures' candidates, starting from the matches accepted so far (cap break, exclude and duplicate `continue`, push with the next hint, panic when hints run out) |
| Extractor.ScanLine | src/main.rs:53-85 | the pattern loop over one line equals `Extract` over that line's candidates, taken pattern by pattern in table order |
| Extractor.FindMatches | src/main.rs:43-89 | `find_matches` (with the cap as a parameter) equals `Extract` over the whole candidate stream of the content, line by line, from no matches |
| Extractor.ExtractAppend | src/main.rs:47-85 | scanning two stretches of candidates one after the other is scanning the first, then going on from its matches, unless the first panicked |
| ExtractorProperties.ExtractResumed | src/main.rs:47-84 | starting from hinted matches `done`, the scan keeps the first occurrence of each text that is neither excluded nor in `done`, up to the cap, and panics iff that needs more than 17 hints |
| ExtractorProperties.ExtractIsExpected | src/main.rs:43-89 | the result is the first occurrence of each distinct non-excluded text, in scanning order, cut at the cap and hinted `HintChars[0]`, `HintChars[1]`, ...; it panics exactly when the cut list is longer than the alphabet |
| ExtractorProperties.FoundIsLabelled | src/main.rs:43-89 | a result that does not panic is the labelled cut of the first occurrences, and that cut fits the alphabet |
| ExtractorProperties.FirstOfEachFresh | src/main.rs:63-73 | the reference first-occurrence list holds no excluded or already-seen text and no text twice |
| ExtractorProperties.FirstOfEachComplete | src/main.rs:63-73 | every candidate's text is excluded or already seen, or is on the first-occurrence list |
| ExtractorProperties.FirstOfEachEarliest | src/main.rs:63-73 | each entry of the first-occurrence list is the earliest candidate with its text, and the entries are in stream order |
| ExtractorProperties.FirstOfEachOfDistinct | src/main.rs:70-73 | candidates with distinct, unseen texts are all kept |
| ExtractorProperties.TakenIffInTexts | src/main.rs:71 | the duplicate test on hinted matches is membership of the text among the matches' texts |
| ExtractorProperties.LabelFacts | src/main.rs:75-83 | the `i`-th labelled match carries the `i`-th candidate's text and position and the hint `HintChars[i]` |
| ExtractorProperties.HintsFollowAlphabet | src/main.rs:75-83 | a result has at most `cap` and at most 17 matches; match `i` has hint `HintChars[i]`; all hints differ |
| ExtractorProperties.TextsUnique | src/main.rs:70-73 | no two matches of a result have the same text |
| ExtractorProperties.ExcludeNeverReturned | src/main.rs:63-68 | no match of a result has the excluded text |
| ExtractorProperties.FirstOccurrenceWins | src/main.rs:47-84 | each match is the earliest candidate with its text (same line and offsets), and matches come in stream order |
| ExtractorProperties.NothingMissedBelowCap | src/main.rs:47-84 | when a result is below the cap, every candidate's text is excluded or is among the matches |
| ExtractorProperties.OutOfHintsExactly | src/main.rs:55-80 | the scan panics iff the cap exceeds 17 and there are more than 17 distinct non-excluded texts |
| ExtractorProperties.MaxMatchesPanics | src/main.rs:55-80 | as written (cap 26), more than 17 distinct non-excluded texts make `nth(hint_idx).unwrap()` panic |
| ExtractorProperties.FromLineWholeLine | src/main.rs:47-85 | with one pattern that takes each non-empty line whole, the candidate stream is one candidate per line, in line order |
| ExtractorProperties.EighteenLinesPanic | src/main.rs:55-80 | concrete content, the eighteen lines `a` to `r`, with a recogniser that takes each line whole, panics under the cap of 26 |
| ExtractorProperties.FindMatchesOnEighteenLines | src/main.rs:43-89 | `find_matches` with the cap of 26 on that content ends in the panic |
| ExtractorProperties.AlphabetCapNeverPanics | src/main.rs:43-89 | with the cap at the alphabet's length the scan never panics and returns the first 17 (or all) distinct non-excluded texts |
| ExtractorProperties.FromLineSlices | src/main.rs:59-79 | every candidate of a line stretch is the slice `line[start..end]` of its line, and candidates come in line order |
| ExtractorProperties.StreamOfLines | src/main.rs:47-79 | every candidate of the content is a slice of its line of `lines()`, in line order |
| ExtractorProperties.MatchesAreSlices | src/main.rs:59-79 | every match's text is `line[start..end]` of the line it names, and matches are in line order |
| Selection.ToAsciiLowercase | src/main.rs:166 | the result is never an upper-case ASCII letter, and a character is left unchanged exactly when it is not one |
| Selection.SameLowercase | src/main.rs:166 | two characters look up the same hint exactly when they are equal or one is the upper-case form of the other |
| Selection.FindHint | src/main.rs:166 | the first match whose hint is the key, or none when no match has that hint |
| Selection.Select | src/main.rs:161-175 | a selection names a match of the list whose hint is the lower case of a character key among the events, and the paste flag is that key being upper case |
| Selection.AwaitSelection | src/main.rs:158-175 | the key loop with `selected` and `should_paste` ends as `Select` says: a read error, a cancel by `q` or Escape, a selection, or the end of input |
| Selection.SelectIsFirstDecisive | src/main.rs:161-175 | the loop's outcome is decided by the first key that is `q`, Escape, a hint (in either case) or a read error; skipped keys have no effect |
| Selection.CancelKeysWin | src/main.rs:163 | `q` and Escape cancel whatever the matches are |
| Selection.CaseSelectsSameMatch | src/main.rs:166-169 | a lower-case letter other than `q` and its upper case pick the same match; only the upper case asks for a paste |
| Selection.FindHintInAlphabet | src/main.rs:166 | with hints in alphabet order, the key `HintChars[i]` finds match `i` |
| Selection.QHintNeedsShift | src/main.rs:163-169 | the 11th match, hinted `q`, can be selected only with `Q`, so only for pasting, because `q` cancels first |
| Selection.ShiftQPicksQHint | src/main.rs:163-169 | `Q` selects the 11th match (hinted `q`) with the paste flag set, because only lower-case `q` cancels |
| Selection.SemicolonHintNeverPastes | src/main.rs:166-169 | the 8th match, hinted `;`, is never selected for pasting, because `;` has no upper case |
| Session.Report | src/main.rs:183 | a selection that `run_selector` hands back is the text of one of the matches |
| Session.RunSelector | src/main.rs:134-184 | with no matches the result is `Ok(None)` whatever the terminal and keys; otherwise a terminal that fails to open gives an error; otherwise the result is the key loop's outcome over the matches on screen (text and paste flag, `None` on cancel or end of input, an error on a read error) |
| Session.SelectionIsShownText | src/main.rs:166-183 | a returned selection is always the text of one of the matches on screen |
| Session.Stdout | src/main.rs:270-275 | nothing is printed without a selection; a selection prints one line ending in `\n`, with no other `\n` when the text has none |
| Session.StdoutRoundTrip | src/main.rs:270-275 | the printed line gives the selection back exactly, unless a copied (not pasted) text itself starts with `PASTE:` |

## Left out

- The seven regular expressions (src/main.rs:16-31) are not modelled. A parameter `scan` stands in for them. It returns each pattern's captures in a line, left to right, with an optional group-1 span. The only thing assumed is that the chosen span lies within the line.
- `render_overlay` (src/main.rs:91-132) only draws. It puts each hint at column `end + 1`, row `line + 1`, through `as u16` casts that silently truncate past 65535. None of this is modelled.
- Terminal handling is reduced to one flag for whether `/dev/tty` opens, plus a sequence of key events. This covers the alternate screen, raw mode, the `flush` calls and the cleanup writes. Failures of the writes and of `try_clone` are not modelled. An error from `key?` returns early: dropping the raw terminal restores the terminal mode, but line 178 is skipped, so the cursor stays hidden and the alternate screen stays up. The model does not capture that screen state.
- termion's key variants other than `Char` and `Esc` (arrows, function keys, Alt and Ctrl chords) are collapsed into one `Other` key. The loop ignores all of them.
- tmux mode (`run_tmux_mode`, `tmux_cmd`, src/main.rs:186-244) runs external commands and is not part of this model.
- The glue in `main` is not modelled: argument parsing, reading stdin, the `trim().is_empty()` check and reading `PWD` (src/main.rs:247-264). The model starts from content and an exclude value. The printed line for a selection is modelled (`Session.Stdout`).
- The messages on the error stream are not modelled: "No matches found" (src/main.rs:139) and "No content received" (src/main.rs:259). Only the returned values are.
- `Text.Lines` follows current Rust `str::lines`. It drops one `\r` before each `\n`. A last line without `\n` keeps a trailing `\r`. Older toolchains also dropped that one; that behaviour is not modelled.
- `Session.RunSelector` runs the extraction with the cap at the alphabet's length (17), the corrected behaviour below. The code passes `MAX_MATCHES` (26). `Extractor.FindMatches` takes the cap as a parameter, so the written behaviour is modelled too, down to the panic.
- The constant `MAX_MATCHES` (src/main.rs:13) suggests up to 26 matches. The code can hint at most 17, because that is the length of the alphabet. The model follows the code.

## Findings

| source | as written | input that shows it | evidently intended | confidence | as-written member | corrected member |
|---|---|---|---|---|---|---|
| src/main.rs:12-13 | the cap `MAX_MATCHES` is 26 but `HINT_CHARS` has 17 characters; accepting an 18th distinct text runs `HINT_CHARS.chars().nth(17).unwrap()` (line 80), which panics | any content with 18 distinct non-excluded tokens, e.g. eighteen lines of `git log --oneline` (eighteen different SHAs); in the model, the eighteen lines `a` to `r` with one pattern that takes each line whole | stop at the alphabet's length, so the cap never exceeds the number of hint characters | high, not executed | ExtractorProperties.EighteenLinesPanic | ExtractorProperties.AlphabetCapNeverPanics |
