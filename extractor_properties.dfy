/**
 * What `find_matches` promises, proved of the scan `Extract` (and so of
 * `FindMatches`, which computes it): the result is the first occurrence
 * of every non-excluded text, in scanning order, cut at the cap and
 * hinted with the alphabet in order; it panics exactly when that needs
 * more hints than the alphabet has.
 */
module ExtractorProperties {
  import opened Wrappers
  import opened Text
  import opened Patterns
  import opened Extractor

  function Min(a: int, b: int): int
  {
    if a <= b then a else b
  }

  /** The texts an exclude value rules out: none, or the one given. */
  function Excluded(exclude: Option<Bytes>): set<Bytes>
  {
    match exclude
    case None => {}
    case Some(e) => {e}
  }

  function TextsOf(cs: seq<Candidate>): set<Bytes>
  {
    set c | c in cs :: c.text
  }

  /** The first candidate of every text not in `seen`, in order. */
  function FirstOfEach(cands: seq<Candidate>, seen: set<Bytes>): seq<Candidate>
    decreases |cands|
  {
    if cands == [] then []
    else if cands[0].text in seen then FirstOfEach(cands[1..], seen)
    else [cands[0]] + FirstOfEach(cands[1..], seen + {cands[0].text})
  }

  /** Candidates hinted in order: the `i`-th gets `HintChars[i]`. */
  function Label(cs: seq<Candidate>): (ms: seq<Match>)
    requires |cs| <= |HintChars|
  {
    seq(|cs|, i requires 0 <= i < |cs| => Hinted(cs[i], i))
  }

  /** The candidate a match was made from. */
  function Unhinted(m: Match): Candidate
  {
    Candidate(m.text, m.line, m.start, m.end)
  }

  /** The result the scan must produce, written without the scan. */
  function Expected(cands: seq<Candidate>, exclude: Option<Bytes>, cap: nat): Extraction
  {
    var firsts := FirstOfEach(cands, Excluded(exclude));
    var n := Min(cap, |firsts|);
    if n > |HintChars| then OutOfHints else Found(Label(firsts[..n]))
  }

  lemma LabelSnoc(done: seq<Candidate>, c: Candidate)
    requires |done| < |HintChars|
    ensures Label(done) + [Hinted(c, |done|)] == Label(done + [c])
  {
  }

  lemma TakenIffInTexts(t: Bytes, done: seq<Candidate>)
    requires |done| <= |HintChars|
    ensures TextTaken(t, Label(done)) <==> t in TextsOf(done)
  {
    if t in TextsOf(done) {
      var c :| c in done && c.text == t;
      var j :| 0 <= j < |done| && done[j] == c;
      assert Label(done)[j].text == t;
    }
  }

  /** `done`, then as many of `firsts` as the cap leaves room for, hinted. */
  function Continue(done: seq<Candidate>, firsts: seq<Candidate>, cap: nat): Extraction
    requires |done| <= cap
  {
    var n := Min(cap - |done|, |firsts|);
    if |done| + n > |HintChars| then OutOfHints else Found(Label(done + firsts[..n]))
  }

  lemma ContinueShift(done: seq<Candidate>, c: Candidate, firsts: seq<Candidate>, cap: nat)
    requires |done| < cap
    ensures Continue(done + [c], firsts, cap) == Continue(done, [c] + firsts, cap)
  {
    var n := Min(cap - |done| - 1, |firsts|);
    assert done + [c] + firsts[..n] == done + ([c] + firsts)[..n + 1];
  }

  /**
   * The scan, resumed after accepting `done`, yields `done` followed by
   * the first occurrences of the texts still free.
   */
  lemma {:induction false} ExtractResumed(cands: seq<Candidate>, exclude: Option<Bytes>, cap: nat, done: seq<Candidate>)
    requires |done| <= cap && |done| <= |HintChars|
    ensures Extract(cands, exclude, cap, Label(done)) == Continue(done, FirstOfEach(cands, Excluded(exclude) + TextsOf(done)), cap)
    decreases |cands|
  {
    var seen := Excluded(exclude) + TextsOf(done);
    if cands == [] {
      assert done + [] == done;
    } else if |done| >= cap {
      assert done + FirstOfEach(cands, seen)[..0] == done;
    } else {
      var c, rest := cands[0], cands[1..];
      TakenIffInTexts(c.text, done);
      if c.text in seen {
        ExtractResumed(rest, exclude, cap, done);
      } else if |done| < |HintChars| {
        var done' := done + [c];
        LabelSnoc(done, c);
        assert TextsOf(done') == TextsOf(done) + {c.text};
        assert seen + {c.text} == Excluded(exclude) + TextsOf(done');
        ExtractResumed(rest, exclude, cap, done');
        ContinueShift(done, c, FirstOfEach(rest, seen + {c.text}), cap);
      }
    }
  }

  /** The scan computes `Expected`: the spec of `find_matches` as one formula. */
  lemma ExtractIsExpected(cands: seq<Candidate>, exclude: Option<Bytes>, cap: nat)
    ensures Extract(cands, exclude, cap, []) == Expected(cands, exclude, cap)
  {
    assert Label([]) == [];
    assert TextsOf([]) == {};
    assert Excluded(exclude) + {} == Excluded(exclude);
    ExtractResumed(cands, exclude, cap, []);
    assert [] + FirstOfEach(cands, Excluded(exclude))[..Min(cap, |FirstOfEach(cands, Excluded(exclude))|)]
        == FirstOfEach(cands, Excluded(exclude))[..Min(cap, |FirstOfEach(cands, Excluded(exclude))|)];
  }

  /** Where text `t` first turns up in `cands`, or `|cands|` when it never does. */
  function FirstIndex(cands: seq<Candidate>, t: Bytes): (j: nat)
    ensures j <= |cands|
    ensures j < |cands| ==> cands[j].text == t
    ensures forall k :: 0 <= k < j ==> cands[k].text != t
  {
    if cands == [] then 0
    else if cands[0].text == t then 0
    else 1 + FirstIndex(cands[1..], t)
  }

  /** No kept text was seen before, and no text is kept twice. */
  lemma {:induction false} FirstOfEachFresh(cands: seq<Candidate>, seen: set<Bytes>)
    ensures forall i :: 0 <= i < |FirstOfEach(cands, seen)| ==> FirstOfEach(cands, seen)[i].text !in seen
    ensures forall i, j :: 0 <= i < j < |FirstOfEach(cands, seen)| ==> FirstOfEach(cands, seen)[i].text != FirstOfEach(cands, seen)[j].text
    decreases |cands|
  {
    if cands != [] {
      var c, rest := cands[0], cands[1..];
      var firsts := FirstOfEach(cands, seen);
      if c.text in seen {
        FirstOfEachFresh(rest, seen);
        assert firsts == FirstOfEach(rest, seen);
      } else {
        var seen' := seen + {c.text};
        FirstOfEachFresh(rest, seen');
        var later := FirstOfEach(rest, seen');
        assert firsts == [c] + later;
        forall i | 1 <= i < |firsts|
          ensures firsts[i] == later[i - 1] && firsts[i].text !in seen'
        {
        }
      }
    }
  }

  /** Every text of the input was either seen already or is kept. */
  lemma {:induction false} FirstOfEachComplete(cands: seq<Candidate>, seen: set<Bytes>)
    ensures forall j :: 0 <= j < |cands| ==> cands[j].text in seen || cands[j].text in TextsOf(FirstOfEach(cands, seen))
    decreases |cands|
  {
    if cands != [] {
      var c, rest := cands[0], cands[1..];
      var seen' := if c.text in seen then seen else seen + {c.text};
      FirstOfEachComplete(rest, seen');
      forall j | 0 <= j < |cands|
        ensures cands[j].text in seen || cands[j].text in TextsOf(FirstOfEach(cands, seen))
      {
        if j > 0 {
          assert cands[j] == rest[j - 1];
        }
      }
    }
  }

  /** Every entry of `firsts` is the earliest candidate with its text, and entries keep stream order. */
  ghost predicate EarliestIn(cands: seq<Candidate>, firsts: seq<Candidate>)
  {
    && (forall i :: 0 <= i < |firsts| ==>
         FirstIndex(cands, firsts[i].text) < |cands| && cands[FirstIndex(cands, firsts[i].text)] == firsts[i])
    && (forall i, j :: 0 <= i < j < |firsts| ==> FirstIndex(cands, firsts[i].text) < FirstIndex(cands, firsts[j].text))
  }

  lemma FirstIndexCons(c: Candidate, rest: seq<Candidate>, t: Bytes)
    ensures FirstIndex([c] + rest, t) == if c.text == t then 0 else 1 + FirstIndex(rest, t)
  {
    assert ([c] + rest)[1..] == rest;
  }

  /** Putting a candidate with a new text in front keeps the entries earliest, shifted by one. */
  lemma EarliestSkip(c: Candidate, rest: seq<Candidate>, later: seq<Candidate>)
    requires EarliestIn(rest, later)
    requires forall i :: 0 <= i < |later| ==> later[i].text != c.text
    ensures EarliestIn([c] + rest, later)
    ensures forall i :: 0 <= i < |later| ==> FirstIndex([c] + rest, later[i].text) == 1 + FirstIndex(rest, later[i].text)
  {
    forall i | 0 <= i < |later|
      ensures FirstIndex([c] + rest, later[i].text) == 1 + FirstIndex(rest, later[i].text)
    {
      FirstIndexCons(c, rest, later[i].text);
    }
  }

  /** ... and keeps them earliest with that candidate in front of them too. */
  lemma EarliestKeep(c: Candidate, rest: seq<Candidate>, later: seq<Candidate>)
    requires EarliestIn(rest, later)
    requires forall i :: 0 <= i < |later| ==> later[i].text != c.text
    ensures EarliestIn([c] + rest, [c] + later)
  {
    EarliestSkip(c, rest, later);
    var cands, firsts := [c] + rest, [c] + later;
    FirstIndexCons(c, rest, c.text);
    forall i | 0 < i < |firsts|
      ensures firsts[i] == later[i - 1]
    {
    }
  }

  /**
   * Each kept candidate is the first one with its text, and the kept
   * candidates keep the order in which their texts first turn up.
   */
  lemma {:induction false} FirstOfEachEarliest(cands: seq<Candidate>, seen: set<Bytes>)
    ensures forall i :: 0 <= i < |FirstOfEach(cands, seen)| ==>
      FirstIndex(cands, FirstOfEach(cands, seen)[i].text) < |cands| &&
      cands[FirstIndex(cands, FirstOfEach(cands, seen)[i].text)] == FirstOfEach(cands, seen)[i]
    ensures forall i, j :: 0 <= i < j < |FirstOfEach(cands, seen)| ==>
      FirstIndex(cands, FirstOfEach(cands, seen)[i].text) < FirstIndex(cands, FirstOfEach(cands, seen)[j].text)
    decreases |cands|
  {
    if cands != [] {
      var c, rest := cands[0], cands[1..];
      var seen' := if c.text in seen then seen else seen + {c.text};
      FirstOfEachEarliest(rest, seen');
      FirstOfEachFresh(rest, seen');
      var later := FirstOfEach(rest, seen');
      assert EarliestIn(rest, later);
      assert c.text in seen';
      assert cands == [c] + rest;
      EarliestSkip(c, rest, later);
      EarliestKeep(c, rest, later);
      if c.text in seen {
        assert FirstOfEach(cands, seen) == later;
      } else {
        assert FirstOfEach(cands, seen) == [c] + later;
      }
      assert EarliestIn(cands, FirstOfEach(cands, seen));
    }
  }

  /** Every candidate of `cands`, in `Label` order: the texts in a list of matches. */
  lemma LabelFacts(cs: seq<Candidate>)
    requires |cs| <= |HintChars|
    ensures |Label(cs)| == |cs|
    ensures forall i :: 0 <= i < |cs| ==> Unhinted(Label(cs)[i]) == cs[i] && Label(cs)[i].hint == HintChars[i]
  {
  }

  lemma HintCharsDistinct()
    ensures forall i, j :: 0 <= i < j < |HintChars| ==> HintChars[i] != HintChars[j]
  {
  }

  /** A successful scan is `Expected`'s list: the kept first occurrences, cut at the cap, hinted. */
  lemma FoundIsLabelled(cands: seq<Candidate>, exclude: Option<Bytes>, cap: nat, ms: seq<Match>)
    requires Extract(cands, exclude, cap, []) == Found(ms)
    ensures var firsts := FirstOfEach(cands, Excluded(exclude));
      && Min(cap, |firsts|) <= |HintChars|
      && ms == Label(firsts[..Min(cap, |firsts|)])
  {
    ExtractIsExpected(cands, exclude, cap);
  }

  /**
   * The i-th match gets the i-th character of the alphabet, so hints are
   * distinct and follow acceptance order; there are no more matches than
   * the cap or the alphabet allows.
   */
  lemma HintsFollowAlphabet(cands: seq<Candidate>, exclude: Option<Bytes>, cap: nat, ms: seq<Match>)
    requires Extract(cands, exclude, cap, []) == Found(ms)
    ensures |ms| <= cap && |ms| <= |HintChars|
    ensures forall i :: 0 <= i < |ms| ==> ms[i].hint == HintChars[i]
    ensures forall i, j :: 0 <= i < j < |ms| ==> ms[i].hint != ms[j].hint
  {
    FoundIsLabelled(cands, exclude, cap, ms);
    var firsts := FirstOfEach(cands, Excluded(exclude));
    LabelFacts(firsts[..Min(cap, |firsts|)]);
    HintCharsDistinct();
  }

  /** No two matches share a text. */
  lemma TextsUnique(cands: seq<Candidate>, exclude: Option<Bytes>, cap: nat, ms: seq<Match>)
    requires Extract(cands, exclude, cap, []) == Found(ms)
    ensures forall i, j :: 0 <= i < j < |ms| ==> ms[i].text != ms[j].text
  {
    FoundIsLabelled(cands, exclude, cap, ms);
    var firsts := FirstOfEach(cands, Excluded(exclude));
    var kept := firsts[..Min(cap, |firsts|)];
    LabelFacts(kept);
    FirstOfEachFresh(cands, Excluded(exclude));
    forall i, j | 0 <= i < j < |ms| ensures ms[i].text != ms[j].text {
      assert ms[i].text == firsts[i].text && ms[j].text == firsts[j].text;
    }
  }

  /** No match has the excluded text. */
  lemma ExcludeNeverReturned(cands: seq<Candidate>, exclude: Option<Bytes>, cap: nat, ms: seq<Match>)
    requires Extract(cands, exclude, cap, []) == Found(ms)
    ensures forall i :: 0 <= i < |ms| ==> exclude != Some(ms[i].text)
  {
    FoundIsLabelled(cands, exclude, cap, ms);
    var firsts := FirstOfEach(cands, Excluded(exclude));
    LabelFacts(firsts[..Min(cap, |firsts|)]);
    FirstOfEachFresh(cands, Excluded(exclude));
    forall i | 0 <= i < |ms| ensures exclude != Some(ms[i].text) {
      assert ms[i].text == firsts[i].text;
    }
  }

  /**
   * Each match is the first candidate with its text (a later duplicate
   * never replaces it), and matches come in the order their texts first
   * turn up in the scan.
   */
  lemma FirstOccurrenceWins(cands: seq<Candidate>, exclude: Option<Bytes>, cap: nat, ms: seq<Match>)
    requires Extract(cands, exclude, cap, []) == Found(ms)
    ensures forall i :: 0 <= i < |ms| ==>
      FirstIndex(cands, ms[i].text) < |cands| && cands[FirstIndex(cands, ms[i].text)] == Unhinted(ms[i])
    ensures forall i, j :: 0 <= i < j < |ms| ==> FirstIndex(cands, ms[i].text) < FirstIndex(cands, ms[j].text)
  {
    FoundIsLabelled(cands, exclude, cap, ms);
    var firsts := FirstOfEach(cands, Excluded(exclude));
    LabelFacts(firsts[..Min(cap, |firsts|)]);
    FirstOfEachEarliest(cands, Excluded(exclude));
    forall i | 0 <= i < |ms| ensures Unhinted(ms[i]) == firsts[i] {
    }
  }

  /** Below the cap nothing is lost: every candidate text is excluded or among the matches. */
  lemma NothingMissedBelowCap(cands: seq<Candidate>, exclude: Option<Bytes>, cap: nat, ms: seq<Match>)
    requires Extract(cands, exclude, cap, []) == Found(ms)
    requires |ms| < cap
    ensures forall j :: 0 <= j < |cands| ==> exclude == Some(cands[j].text) || TextTaken(cands[j].text, ms)
  {
    FoundIsLabelled(cands, exclude, cap, ms);
    var firsts := FirstOfEach(cands, Excluded(exclude));
    assert ms == Label(firsts);
    FirstOfEachComplete(cands, Excluded(exclude));
    forall j | 0 <= j < |cands| && exclude != Some(cands[j].text)
      ensures TextTaken(cands[j].text, ms)
    {
      TakenIffInTexts(cands[j].text, firsts);
    }
  }

  /**
   * The scan panics exactly when the cap lets through more distinct,
   * non-excluded texts than the alphabet has characters.
   */
  lemma OutOfHintsExactly(cands: seq<Candidate>, exclude: Option<Bytes>, cap: nat)
    ensures Extract(cands, exclude, cap, []) == OutOfHints <==>
      cap > |HintChars| && |FirstOfEach(cands, Excluded(exclude))| > |HintChars|
  {
    ExtractIsExpected(cands, exclude, cap);
  }

  /**
   * As written, with the cap at 26 and 17 hint characters: the 18th
   * distinct text panics instead of being hinted.
   */
  lemma MaxMatchesPanics(cands: seq<Candidate>, exclude: Option<Bytes>)
    requires |FirstOfEach(cands, Excluded(exclude))| > |HintChars|
    ensures Extract(cands, exclude, MaxMatches, []) == OutOfHints
  {
    OutOfHintsExactly(cands, exclude, MaxMatches);
  }

  /** Candidates whose texts are all new and all different are each the first of their text. */
  lemma {:induction false} FirstOfEachOfDistinct(cands: seq<Candidate>, seen: set<Bytes>)
    requires forall i :: 0 <= i < |cands| ==> cands[i].text !in seen
    requires forall i, j :: 0 <= i < j < |cands| ==> cands[i].text != cands[j].text
    ensures FirstOfEach(cands, seen) == cands
    decreases |cands|
  {
    if cands != [] {
      FirstOfEachOfDistinct(cands[1..], seen + {cands[0].text});
    }
  }

  /** A recogniser with one pattern that takes every non-empty line whole, like `^.+$`. */
  function WholeLine(p: nat, line: Bytes): seq<Capture>
  {
    if p == 0 && line != [] then [Capture(Span(0, |line|), None)] else []
  }

  lemma WholeLineSound()
    ensures Sound(WholeLine)
  {
  }

  lemma {:induction false} FromPatternWholeLine(line: Bytes, n: nat, p: nat)
    requires Sound(WholeLine)
    ensures FromPattern(line, n, WholeLine, p) == if p == 0 && line != [] then [Candidate(line, n, 0, |line|)] else []
    decreases PatternCount - p
  {
    if p < PatternCount {
      FromPatternWholeLine(line, n, p + 1);
      var caps := WholeLine(p, line);
      if p == 0 && line != [] {
        assert line[0..|line|] == line;
        assert FromCapture(line, n, caps, 1) == [];
        assert FromCapture(line, n, caps, 0) == [Candidate(line, n, 0, |line|)];
      } else {
        assert FromCapture(line, n, caps, 0) == [];
      }
    }
  }

  /** One candidate per line, each the whole line, numbered from `i`. */
  function WholeLines(lines: seq<Bytes>, i: nat): seq<Candidate>
    requires i <= |lines|
  {
    seq(|lines| - i, k requires 0 <= k < |lines| - i => Candidate(lines[i + k], i + k, 0, |lines[i + k]|))
  }

  lemma {:induction false} FromLineWholeLine(lines: seq<Bytes>, i: nat)
    requires Sound(WholeLine) && i <= |lines|
    requires forall k :: 0 <= k < |lines| ==> lines[k] != []
    ensures FromLine(lines, WholeLine, i) == WholeLines(lines, i)
    decreases |lines| - i
  {
    if i < |lines| {
      FromPatternWholeLine(lines[i], i, 0);
      FromLineWholeLine(lines, i + 1);
      WholeLinesCons(lines, i);
    }
  }

  lemma WholeLinesCons(lines: seq<Bytes>, i: nat)
    requires i < |lines|
    ensures WholeLines(lines, i) == [Candidate(lines[i], i, 0, |lines[i]|)] + WholeLines(lines, i + 1)
  {
    var head, tail := Candidate(lines[i], i, 0, |lines[i]|), WholeLines(lines, i + 1);
    forall k | 0 <= k < |lines| - i
      ensures WholeLines(lines, i)[k] == ([head] + tail)[k]
    {
      if k > 0 {
        assert ([head] + tail)[k] == tail[k - 1];
      }
    }
  }

  /** The lines `a` to `r`, one letter each. */
  function Letters(): seq<Bytes>
  {
    seq(18, i requires 0 <= i < 18 => [(0x61 + i) as Byte])
  }

  /** Those lines, each ended by a `\n`. */
  function EighteenLines(): Bytes
  {
    Terminated(Letters())
  }

  lemma LettersPlain()
    ensures forall i :: 0 <= i < |Letters()| ==> Letters()[i] != [] && LF !in Letters()[i] && CR !in Letters()[i]
  {
    forall i | 0 <= i < |Letters()|
      ensures Letters()[i] != [] && LF !in Letters()[i] && CR !in Letters()[i]
    {
      assert Letters()[i] == [(0x61 + i) as Byte];
    }
  }

  lemma LettersDistinct()
    ensures forall i, j :: 0 <= i < j < |WholeLines(Letters(), 0)| ==> WholeLines(Letters(), 0)[i].text != WholeLines(Letters(), 0)[j].text
  {
    forall i, j | 0 <= i < j < |WholeLines(Letters(), 0)|
      ensures WholeLines(Letters(), 0)[i].text != WholeLines(Letters(), 0)[j].text
    {
      assert WholeLines(Letters(), 0)[i].text == [(0x61 + i) as Byte];
      assert WholeLines(Letters(), 0)[j].text == [(0x61 + j) as Byte];
    }
  }

  /**
   * A concrete input for the panic: eighteen different lines, each found
   * whole by one pattern, with nothing excluded, make the scan with the
   * cap of 26 run out of hints.
   */
  lemma EighteenLinesPanic()
    ensures Sound(WholeLine)
    ensures Extract(Stream(EighteenLines(), WholeLine), None, MaxMatches, []) == OutOfHints
  {
    WholeLineSound();
    LettersPlain();
    LinesOfTerminated(Letters());
    FromLineWholeLine(Letters(), 0);
    var cands := WholeLines(Letters(), 0);
    LettersDistinct();
    FirstOfEachOfDistinct(cands, {});
    MaxMatchesPanics(cands, None);
  }

  /** `find_matches` as written, on those eighteen lines: it panics. */
  method FindMatchesOnEighteenLines() returns (r: Extraction)
    ensures r == OutOfHints
  {
    WholeLineSound();
    r := FindMatches(EighteenLines(), None, WholeLine, MaxMatches);
    EighteenLinesPanic();
  }

  /**
   * With the cap at the alphabet's length the scan never panics: it
   * returns the first 17 distinct non-excluded texts, or all of them.
   */
  lemma AlphabetCapNeverPanics(cands: seq<Candidate>, exclude: Option<Bytes>)
    ensures var firsts := FirstOfEach(cands, Excluded(exclude));
      Extract(cands, exclude, |HintChars|, []) == Found(Label(firsts[..Min(|HintChars|, |firsts|)]))
  {
    ExtractIsExpected(cands, exclude, |HintChars|);
  }

  /** A candidate of line `n` is the slice of that line between its offsets. */
  ghost predicate SliceOf(c: Candidate, lines: seq<Bytes>)
  {
    c.line < |lines| && c.start <= c.end <= |lines[c.line]| && c.text == lines[c.line][c.start..c.end]
  }

  lemma {:induction false} FromCaptureSlices(lines: seq<Bytes>, n: nat, caps: seq<Capture>, k: nat)
    requires n < |lines|
    requires forall j :: k <= j < |caps| ==> Within(Chosen(caps[j]), lines[n])
    ensures forall c :: c in FromCapture(lines[n], n, caps, k) ==> c.line == n && SliceOf(c, lines)
    decreases |caps| - k
  {
    if k < |caps| {
      FromCaptureSlices(lines, n, caps, k + 1);
    }
  }

  lemma {:induction false} FromPatternSlices(lines: seq<Bytes>, n: nat, scan: Recogniser, p: nat)
    requires Sound(scan) && n < |lines|
    ensures forall c :: c in FromPattern(lines[n], n, scan, p) ==> c.line == n && SliceOf(c, lines)
    decreases PatternCount - p
  {
    if p < PatternCount {
      FromCaptureSlices(lines, n, scan(p, lines[n]), 0);
      FromPatternSlices(lines, n, scan, p + 1);
    }
  }

  lemma {:induction false} FromLineSlices(lines: seq<Bytes>, scan: Recogniser, i: nat)
    requires Sound(scan)
    ensures forall c :: c in FromLine(lines, scan, i) ==> i <= c.line && SliceOf(c, lines)
    ensures forall a, b :: 0 <= a < b < |FromLine(lines, scan, i)| ==> FromLine(lines, scan, i)[a].line <= FromLine(lines, scan, i)[b].line
    decreases |lines| - i
  {
    if i < |lines| {
      var here, later := FromPattern(lines[i], i, scan, 0), FromLine(lines, scan, i + 1);
      FromPatternSlices(lines, i, scan, 0);
      FromLineSlices(lines, scan, i + 1);
      var all := FromLine(lines, scan, i);
      assert all == here + later;
      forall a, b | 0 <= a < b < |all| ensures all[a].line <= all[b].line {
        if a < |here| {
          assert all[a] in here;
          if b < |here| { assert all[b] in here; } else { assert all[b] == later[b - |here|]; assert all[b] in later; }
        } else {
          assert all[a] == later[a - |here|] && all[b] == later[b - |here|];
        }
      }
    }
  }

  /**
   * Every candidate of the content is the slice `[start, end)` of line
   * `line` of `str::lines`, and the scan goes through the lines in order.
   */
  lemma StreamOfLines(content: Bytes, scan: Recogniser)
    requires Sound(scan)
    ensures forall c :: c in Stream(content, scan) ==> SliceOf(c, Lines(content))
    ensures forall a, b :: 0 <= a < b < |Stream(content, scan)| ==> Stream(content, scan)[a].line <= Stream(content, scan)[b].line
  {
    FromLineSlices(Lines(content), scan, 0);
  }

  /**
   * What `find_matches` returns: each match is the slice of its line
   * between its offsets (`line` is the zero-based line number), and the
   * matches are ordered by line.
   */
  lemma MatchesAreSlices(content: Bytes, exclude: Option<Bytes>, scan: Recogniser, cap: nat, ms: seq<Match>)
    requires Sound(scan)
    requires Extract(Stream(content, scan), exclude, cap, []) == Found(ms)
    ensures forall i :: 0 <= i < |ms| ==> SliceOf(Unhinted(ms[i]), Lines(content))
    ensures forall i, j :: 0 <= i < j < |ms| ==> ms[i].line <= ms[j].line
  {
    var cands := Stream(content, scan);
    StreamOfLines(content, scan);
    FirstOccurrenceWins(cands, exclude, cap, ms);
    forall i | 0 <= i < |ms| ensures SliceOf(Unhinted(ms[i]), Lines(content)) {
      assert cands[FirstIndex(cands, ms[i].text)] in cands;
    }
    forall i, j | 0 <= i < j < |ms| ensures ms[i].line <= ms[j].line {
      assert Unhinted(ms[i]).line == ms[i].line && Unhinted(ms[j]).line == ms[j].line;
    }
  }

  /** `[start, end)` is the chosen span (group 1, else the whole match) of some capture of some pattern in `line`. */
  ghost predicate CapturedSpan(scan: Recogniser, line: Bytes, start: nat, end: nat)
  {
    exists p: nat, k: nat :: p < PatternCount && k < |scan(p, line)| && Chosen(scan(p, line)[k]) == Span(start, end)
  }

  lemma {:induction false} FromCaptureSpans(line: Bytes, n: nat, scan: Recogniser, p: nat, k: nat)
    requires Sound(scan) && p < PatternCount
    ensures forall c :: c in FromCapture(line, n, scan(p, line), k) ==> CapturedSpan(scan, line, c.start, c.end)
    decreases |scan(p, line)| - k
  {
    var caps := scan(p, line);
    if k < |caps| {
      FromCaptureSpans(line, n, scan, p, k + 1);
      var head := Resolve(line, n, caps[k]);
      assert Chosen(caps[k]) == Span(head.start, head.end);
      assert CapturedSpan(scan, line, head.start, head.end);
      assert FromCapture(line, n, caps, k) == [head] + FromCapture(line, n, caps, k + 1);
    }
  }

  lemma {:induction false} FromPatternSpans(line: Bytes, n: nat, scan: Recogniser, p: nat)
    requires Sound(scan)
    ensures forall c :: c in FromPattern(line, n, scan, p) ==> CapturedSpan(scan, line, c.start, c.end)
    decreases PatternCount - p
  {
    if p < PatternCount {
      FromCaptureSpans(line, n, scan, p, 0);
      FromPatternSpans(line, n, scan, p + 1);
    }
  }

  lemma {:induction false} FromLineSpans(lines: seq<Bytes>, scan: Recogniser, i: nat)
    requires Sound(scan)
    ensures forall c :: c in FromLine(lines, scan, i) ==> c.line < |lines| && CapturedSpan(scan, lines[c.line], c.start, c.end)
    decreases |lines| - i
  {
    if i < |lines| {
      FromPatternSlices(lines, i, scan, 0);
      FromPatternSpans(lines[i], i, scan, 0);
      FromLineSpans(lines, scan, i + 1);
    }
  }

  /**
   * What `find_matches` returns: each match's offsets are the span a
   * capture of some pattern chose in the match's line, group 1 when it
   * took part and the whole match otherwise.
   */
  lemma MatchesAreCapturedSpans(content: Bytes, exclude: Option<Bytes>, scan: Recogniser, cap: nat, ms: seq<Match>)
    requires Sound(scan)
    requires Extract(Stream(content, scan), exclude, cap, []) == Found(ms)
    ensures forall i :: 0 <= i < |ms| ==>
      ms[i].line < |Lines(content)| && CapturedSpan(scan, Lines(content)[ms[i].line], ms[i].start, ms[i].end)
  {
    var cands := Stream(content, scan);
    FromLineSpans(Lines(content), scan, 0);
    FirstOccurrenceWins(cands, exclude, cap, ms);
    forall i | 0 <= i < |ms|
      ensures ms[i].line < |Lines(content)| && CapturedSpan(scan, Lines(content)[ms[i].line], ms[i].start, ms[i].end)
    {
      var c := cands[FirstIndex(cands, ms[i].text)];
      assert c in cands;
      assert c == Unhinted(ms[i]);
    }
  }
}
