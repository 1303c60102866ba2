/**
 * `run_selector` around the extractor and the key loop, and the line
 * `main` prints for a selection in stdin mode.
 */
module Session {
  import opened Wrappers
  import opened Text
  import opened Patterns
  import opened Extractor
  import opened ExtractorProperties
  import opened Selection

  /** `run_selector`'s `io::Result<Option<(String, bool)>>`. */
  datatype RunResult = Done(selection: Option<(Bytes, bool)>) | IoError

  /**
   * The matches put on screen, with the cap at the alphabet's length:
   * the first 17 distinct non-excluded texts of the content.
   */
  ghost function Shown(content: Bytes, exclude: Option<Bytes>, scan: Recogniser): seq<Match>
    requires Sound(scan)
  {
    var firsts := FirstOfEach(Stream(content, scan), Excluded(exclude));
    Label(firsts[..Min(|HintChars|, |firsts|)])
  }

  /** What `run_selector` hands back once the key loop has ended. */
  function Report(ms: seq<Match>, outcome: Outcome): (r: RunResult)
    requires outcome.Selected? ==> outcome.index < |ms|
    ensures r.Done? && r.selection.Some? ==> exists i :: 0 <= i < |ms| && ms[i].text == r.selection.value.0
  {
    match outcome
    case Selected(i, paste) => Done(Some((ms[i].text, paste)))
    case Cancelled => Done(None)
    case Exhausted => Done(None)
    case Failed => IoError
  }

  /**
   * `run_selector`: find the matches; with none, return `Ok(None)` before
   * the terminal is touched; otherwise open the terminal (which may
   * fail: `ttyOpens`) and run the key loop over `events`.
   */
  method RunSelector(content: Bytes, exclude: Option<Bytes>, scan: Recogniser, ttyOpens: bool, events: seq<KeyEvent>)
    returns (r: RunResult)
    requires Sound(scan)
    ensures Shown(content, exclude, scan) == [] ==> r == Done(None)
    ensures Shown(content, exclude, scan) != [] && !ttyOpens ==> r == IoError
    ensures Shown(content, exclude, scan) != [] && ttyOpens ==>
      r == Report(Shown(content, exclude, scan), Select(Shown(content, exclude, scan), events))
  {
    var found := FindMatches(content, exclude, scan, |HintChars|);
    AlphabetCapNeverPanics(Stream(content, scan), exclude);
    var matches := found.matches;
    if |matches| == 0 {
      return Done(None);
    }
    if !ttyOpens {
      return IoError;
    }
    var outcome := AwaitSelection(matches, events);
    match outcome {
      case Selected(i, paste) =>
        return Done(Some((matches[i].text, paste)));
      case Cancelled =>
        return Done(None);
      case Exhausted =>
        return Done(None);
      case Failed =>
        return IoError;
    }
  }

  /**
   * Whatever the keys, a selection is the text of one of the matches on
   * screen.
   */
  lemma SelectionIsShownText(content: Bytes, exclude: Option<Bytes>, scan: Recogniser, events: seq<KeyEvent>, text: Bytes, paste: bool)
    requires Sound(scan)
    requires var ms := Shown(content, exclude, scan); Report(ms, Select(ms, events)) == Done(Some((text, paste)))
    ensures exists i :: 0 <= i < |Shown(content, exclude, scan)| && Shown(content, exclude, scan)[i].text == text
  {
    var ms := Shown(content, exclude, scan);
    var o := Select(ms, events);
    assert ms[o.index].text == text;
  }

  /** "PASTE:" */
  const PastePrefix: Bytes := [0x50, 0x41, 0x53, 0x54, 0x45, 0x3A]

  /** What stdin mode prints: nothing, or the text (after `PASTE:` for a paste) and a newline. */
  function Stdout(selection: Option<(Bytes, bool)>): (out: Bytes)
    ensures out == [] <==> selection.None?
    ensures out != [] ==> out[|out| - 1] == LF && (LF !in selection.value.0 ==> LF !in out[..|out| - 1])
  {
    match selection
    case None => []
    case Some((text, paste)) => (if paste then PastePrefix + text else text) + [LF]
  }

  predicate HasPastePrefix(line: Bytes)
  {
    |line| >= |PastePrefix| && line[..|PastePrefix|] == PastePrefix
  }

  /** How a reader of that output tells a paste from a copy. */
  function ReadStdout(out: Bytes): Option<(Bytes, bool)>
  {
    if out == [] then None
    else
      var line := if out[|out| - 1] == LF then out[..|out| - 1] else out;
      if HasPastePrefix(line) then Some((line[|PastePrefix|..], true)) else Some((line, false))
  }

  /**
   * The printed line gives the selection back, except for a copied (not
   * pasted) text that itself starts with `PASTE:`, which reads as a paste.
   */
  lemma StdoutRoundTrip(selection: Option<(Bytes, bool)>)
    ensures ReadStdout(Stdout(selection)) == selection <==>
      selection.None? || selection.value.1 || !HasPastePrefix(selection.value.0)
  {
    match selection {
      case None =>
      case Some((text, paste)) =>
        var out := Stdout(selection);
        if paste {
          assert out[..|out| - 1] == PastePrefix + text;
          assert (PastePrefix + text)[..|PastePrefix|] == PastePrefix;
          assert (PastePrefix + text)[|PastePrefix|..] == text;
        } else {
          assert out[..|out| - 1] == text;
        }
    }
  }
}
