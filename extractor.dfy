/**
 * `find_matches`: scan every line, every pattern, every capture, and keep
 * each new, non-excluded text with the next hint character.
 */
module Extractor {
  import opened Wrappers
  import opened Text
  import opened Patterns

  /** Hint alphabet, home row first: 17 characters. */
  const HintChars: string := "asdfjkl;ghqweruio"

  /** The cap the program puts on accepted matches. */
  const MaxMatches: nat := 26

  datatype Match = Match(text: Bytes, line: nat, start: nat, end: nat, hint: char)

  /** A capture resolved against its line, before exclusion, deduplication and hinting. */
  datatype Candidate = Candidate(text: Bytes, line: nat, start: nat, end: nat)

  /**
   * What `find_matches` produces: its vector of matches, or the panic of
   * `HINT_CHARS.chars().nth(hint_idx).unwrap()` once the alphabet is spent.
   */
  datatype Extraction = Found(matches: seq<Match>) | OutOfHints

  /** The candidate a capture gives: the text of its chosen span, with that span's offsets. */
  function Resolve(line: Bytes, n: nat, c: Capture): Candidate
    requires Within(Chosen(c), line)
  {
    var s := Chosen(c);
    Candidate(line[s.start..s.end], n, s.start, s.end)
  }

  /** Candidates of line `n` from captures `k..` of one pattern. */
  function FromCapture(line: Bytes, n: nat, caps: seq<Capture>, k: nat): seq<Candidate>
    requires forall j :: k <= j < |caps| ==> Within(Chosen(caps[j]), line)
    decreases |caps| - k
  {
    if k >= |caps| then [] else [Resolve(line, n, caps[k])] + FromCapture(line, n, caps, k + 1)
  }

  /** Candidates of line `n` from patterns `p..`, in table order. */
  function FromPattern(line: Bytes, n: nat, scan: Recogniser, p: nat): seq<Candidate>
    requires Sound(scan)
    decreases PatternCount - p
  {
    if p >= PatternCount then [] else FromCapture(line, n, scan(p, line), 0) + FromPattern(line, n, scan, p + 1)
  }

  /** Candidates of lines `i..`. */
  function FromLine(lines: seq<Bytes>, scan: Recogniser, i: nat): seq<Candidate>
    requires Sound(scan)
    decreases |lines| - i
  {
    if i >= |lines| then [] else FromPattern(lines[i], i, scan, 0) + FromLine(lines, scan, i + 1)
  }

  /** Every candidate of `content`: by line, then pattern, then capture. */
  function Stream(content: Bytes, scan: Recogniser): seq<Candidate>
    requires Sound(scan)
  {
    FromLine(Lines(content), scan, 0)
  }

  predicate TextTaken(t: Bytes, ms: seq<Match>)
  {
    exists j :: 0 <= j < |ms| && ms[j].text == t
  }

  /**
   * The extraction, one candidate at a time, onto the matches `acc`
   * accepted so far: stop at the cap, skip the excluded text and texts
   * already taken, and hint the next one with `HintChars[|acc|]`.
   */
  function Extract(cands: seq<Candidate>, exclude: Option<Bytes>, cap: nat, acc: seq<Match>): (r: Extraction)
    ensures r.Found? ==> acc <= r.matches
    ensures r.Found? && |acc| <= cap ==> |r.matches| <= cap
    ensures r.Found? && |acc| < |r.matches| ==> |r.matches| <= |HintChars|
    decreases |cands|
  {
    if cands == [] || |acc| >= cap then Found(acc)
    else
      var c := cands[0];
      if exclude == Some(c.text) || TextTaken(c.text, acc) then Extract(cands[1..], exclude, cap, acc)
      else if |acc| >= |HintChars| then OutOfHints
      else Extract(cands[1..], exclude, cap, acc + [Match(c.text, c.line, c.start, c.end, HintChars[|acc|])])
  }

  /** The match a candidate becomes as the `i`-th accepted one. */
  function Hinted(c: Candidate, i: nat): Match
    requires i < |HintChars|
  {
    Match(c.text, c.line, c.start, c.end, HintChars[i])
  }

  lemma ExtractCons(c: Candidate, tail: seq<Candidate>, exclude: Option<Bytes>, cap: nat, acc: seq<Match>)
    ensures Extract([c] + tail, exclude, cap, acc) ==
      if |acc| >= cap then Found(acc)
      else if exclude == Some(c.text) || TextTaken(c.text, acc) then Extract(tail, exclude, cap, acc)
      else if |acc| >= |HintChars| then OutOfHints
      else Extract(tail, exclude, cap, acc + [Hinted(c, |acc|)])
  {
    assert ([c] + tail)[1..] == tail;
  }

  lemma FromCaptureStep(line: Bytes, n: nat, caps: seq<Capture>, k: nat)
    requires k < |caps|
    requires forall j :: k <= j < |caps| ==> Within(Chosen(caps[j]), line)
    ensures FromCapture(line, n, caps, k) == [Resolve(line, n, caps[k])] + FromCapture(line, n, caps, k + 1)
  {
  }

  lemma FromPatternStep(line: Bytes, n: nat, scan: Recogniser, p: nat)
    requires Sound(scan) && p < PatternCount
    ensures FromPattern(line, n, scan, p) == FromCapture(line, n, scan(p, line), 0) + FromPattern(line, n, scan, p + 1)
  {
  }

  lemma ExtractCapped(cands: seq<Candidate>, exclude: Option<Bytes>, cap: nat, acc: seq<Match>)
    requires |acc| >= cap
    ensures Extract(cands, exclude, cap, acc) == Found(acc)
  {
  }

  /**
   * Scanning two stretches of candidates one after the other is scanning
   * the first, then carrying on from its matches (unless it panicked).
   */
  lemma {:induction false} ExtractAppend(xs: seq<Candidate>, ys: seq<Candidate>, exclude: Option<Bytes>, cap: nat, acc: seq<Match>)
    ensures Extract(xs + ys, exclude, cap, acc) ==
      match Extract(xs, exclude, cap, acc)
      case Found(ms) => Extract(ys, exclude, cap, ms)
      case OutOfHints => OutOfHints
    decreases |xs|
  {
    if xs == [] {
      assert xs + ys == ys;
    } else if |acc| >= cap {
      ExtractCapped(ys, exclude, cap, acc);
    } else {
      var c := xs[0];
      ExtractCons(c, xs[1..] + ys, exclude, cap, acc);
      assert xs + ys == [c] + (xs[1..] + ys);
      ExtractCons(c, xs[1..], exclude, cap, acc);
      assert xs == [c] + xs[1..];
      if exclude == Some(c.text) || TextTaken(c.text, acc) {
        ExtractAppend(xs[1..], ys, exclude, cap, acc);
      } else if |acc| < |HintChars| {
        ExtractAppend(xs[1..], ys, exclude, cap, acc + [Hinted(c, |acc|)]);
      }
    }
  }

  /** Scanning from pattern `p` is scanning its captures, then going on from pattern `p + 1`. */
  lemma PatternStep(line: Bytes, lineNum: nat, scan: Recogniser, p: nat, exclude: Option<Bytes>, cap: nat, acc: seq<Match>)
    requires Sound(scan) && p < PatternCount
    ensures Extract(FromPattern(line, lineNum, scan, p), exclude, cap, acc) ==
      match Extract(FromCapture(line, lineNum, scan(p, line), 0), exclude, cap, acc)
      case Found(ms) => Extract(FromPattern(line, lineNum, scan, p + 1), exclude, cap, ms)
      case OutOfHints => OutOfHints
  {
    FromPatternStep(line, lineNum, scan, p);
    ExtractAppend(FromCapture(line, lineNum, scan(p, line), 0), FromPattern(line, lineNum, scan, p + 1), exclude, cap, acc);
  }

  /**
   * The innermost loop of `find_matches`: the captures of one pattern in
   * one line, left to right, onto the matches accepted so far.
   */
  method AcceptCaptures(line: Bytes, lineNum: nat, caps: seq<Capture>, exclude: Option<Bytes>, cap: nat, acc: seq<Match>)
    returns (r: Extraction)
    requires forall j :: 0 <= j < |caps| ==> Within(Chosen(caps[j]), line)
    ensures r == Extract(FromCapture(line, lineNum, caps, 0), exclude, cap, acc)
  {
    var matches := acc;
    var hintIdx: nat := |acc|;
    for k := 0 to |caps|
      invariant hintIdx == |matches|
      invariant Extract(FromCapture(line, lineNum, caps, k), exclude, cap, matches) == Extract(FromCapture(line, lineNum, caps, 0), exclude, cap, acc)
    {
      if hintIdx >= cap {
        break;
      }
      var chosen := Chosen(caps[k]);
      var text := line[chosen.start..chosen.end];
      FromCaptureStep(line, lineNum, caps, k);
      ExtractCons(Candidate(text, lineNum, chosen.start, chosen.end), FromCapture(line, lineNum, caps, k + 1), exclude, cap, matches);
      if exclude.Some? && text == exclude.value {
        continue;
      }
      if TextTaken(text, matches) {
        continue;
      }
      if hintIdx >= |HintChars| {
        return OutOfHints;
      }
      matches := matches + [Match(text, lineNum, chosen.start, chosen.end, HintChars[hintIdx])];
      hintIdx := hintIdx + 1;
    }
    return Found(matches);
  }

  /**
   * The middle loop of `find_matches`: every pattern of the table, in
   * order, over one line.
   */
  method ScanLine(line: Bytes, lineNum: nat, scan: Recogniser, exclude: Option<Bytes>, cap: nat, acc: seq<Match>)
    returns (r: Extraction)
    requires Sound(scan)
    ensures r == Extract(FromPattern(line, lineNum, scan, 0), exclude, cap, acc)
  {
    var matches := acc;
    for p := 0 to PatternCount
      invariant Extract(FromPattern(line, lineNum, scan, p), exclude, cap, matches) == Extract(FromPattern(line, lineNum, scan, 0), exclude, cap, acc)
    {
      var caps := scan(p, line);
      PatternStep(line, lineNum, scan, p, exclude, cap, matches);
      var found := AcceptCaptures(line, lineNum, caps, exclude, cap, matches);
      if found.OutOfHints? {
        return OutOfHints;
      }
      matches := found.matches;
    }
    return Found(matches);
  }

  /**
   * `find_matches`, with its cap as a parameter (the program passes
   * `MaxMatches`): the outer loop over the lines of the content.
   */
  method FindMatches(content: Bytes, exclude: Option<Bytes>, scan: Recogniser, cap: nat) returns (r: Extraction)
    requires Sound(scan)
    ensures r == Extract(Stream(content, scan), exclude, cap, [])
  {
    var lines := Lines(content);
    var matches: seq<Match> := [];
    var hintIdx: nat := 0;
    for lineNum := 0 to |lines|
      invariant hintIdx == |matches|
      invariant Extract(FromLine(lines, scan, lineNum), exclude, cap, matches) == Extract(Stream(content, scan), exclude, cap, [])
    {
      if hintIdx >= cap {
        ExtractCapped(FromLine(lines, scan, lineNum), exclude, cap, matches);
        break;
      }
      ExtractAppend(FromPattern(lines[lineNum], lineNum, scan, 0), FromLine(lines, scan, lineNum + 1), exclude, cap, matches);
      var found := ScanLine(lines[lineNum], lineNum, scan, exclude, cap, matches);
      if found.OutOfHints? {
        return OutOfHints;
      }
      matches := found.matches;
      hintIdx := |matches|;
    }
    return Found(matches);
  }
}
