/**
 * The key loop of `run_selector`: read key events from the terminal
 * until one cancels or picks a match by its hint.
 */
module Selection {
  import opened Wrappers
  import opened Extractor

  /**
   * termion's key events as far as the loop tells them apart: a
   * character, Escape, and every other key (arrows, function keys,
   * Alt/Ctrl chords, ...).
   */
  datatype Key = Char(ch: char) | Esc | Other

  /** One item of `tty_input.keys()`: a key, or a read error (`key?` returns it). */
  datatype KeyEvent = Pressed(key: Key) | ReadFailed

  /**
   * How the loop ends: a match picked (index into the match list, paste
   * flag), cancelled by `q` or Escape, out of input, or a read error.
   */
  datatype Outcome = Selected(index: nat, paste: bool) | Cancelled | Exhausted | Failed

  /** `char::to_ascii_lowercase`. */
  function ToAsciiLowercase(c: char): (r: char)
    ensures !IsAsciiUppercase(r)
    ensures r == c <==> !IsAsciiUppercase(c)
  {
    if 'A' <= c <= 'Z' then (c as int + ('a' as int - 'A' as int)) as char else c
  }

  /** `char::is_ascii_uppercase`. */
  predicate IsAsciiUppercase(c: char)
  {
    'A' <= c <= 'Z'
  }

  /**
   * Two characters fold to the same lower case exactly when they are
   * equal or one is the upper-case form of the other.
   */
  lemma SameLowercase(a: char, b: char)
    ensures ToAsciiLowercase(a) == ToAsciiLowercase(b) <==>
      a == b || (IsAsciiUppercase(a) && b as int == a as int + 32) || (IsAsciiUppercase(b) && a as int == b as int + 32)
  {
  }

  /** `matches.iter().find(|m| m.hint == h)`, as a position. */
  function FindHint(ms: seq<Match>, h: char): (r: Option<nat>)
    ensures r.Some? ==> r.value < |ms| && ms[r.value].hint == h && forall j :: 0 <= j < r.value ==> ms[j].hint != h
    ensures r.None? ==> forall j :: 0 <= j < |ms| ==> ms[j].hint != h
  {
    if ms == [] then None
    else if ms[0].hint == h then Some(0)
    else match FindHint(ms[1..], h)
      case Some(i) => Some(i + 1)
      case None => None
  }

  /** The loop, one event at a time. */
  function Select(ms: seq<Match>, events: seq<KeyEvent>): (o: Outcome)
    ensures o.Selected? ==> o.index < |ms|
    ensures o.Selected? ==>
      exists k :: 0 <= k < |events| && events[k].Pressed? && events[k].key.Char? &&
        ToAsciiLowercase(events[k].key.ch) == ms[o.index].hint && o.paste == IsAsciiUppercase(events[k].key.ch)
    decreases |events|
  {
    if events == [] then Exhausted
    else match events[0]
      case ReadFailed => Failed
      case Pressed(Esc) => Cancelled
      case Pressed(Other) => Select(ms, events[1..])
      case Pressed(Char(c)) =>
        if c == 'q' then Cancelled
        else match FindHint(ms, ToAsciiLowercase(c))
          case Some(i) => Selected(i, IsAsciiUppercase(c))
          case None => Select(ms, events[1..])
  }

  /**
   * The loop of `run_selector` over the key events: `q` and Escape stop
   * it, a character whose lower case is a hint selects that match (paste
   * if the character was upper case), anything else is skipped.
   */
  method AwaitSelection(ms: seq<Match>, events: seq<KeyEvent>) returns (outcome: Outcome)
    ensures outcome == Select(ms, events)
  {
    var selected: Option<nat> := None;
    var shouldPaste := false;
    var i := 0;
    while i < |events|
      invariant 0 <= i <= |events|
      invariant selected == None
      invariant Select(ms, events[i..]) == Select(ms, events)
    {
      assert events[i..][1..] == events[i + 1..];
      match events[i] {
        case ReadFailed =>
          return Failed;
        case Pressed(Esc) =>
          break;
        case Pressed(Char(c)) =>
          if c == 'q' {
            break;
          }
          var found := FindHint(ms, ToAsciiLowercase(c));
          if found.Some? {
            selected := found;
            shouldPaste := IsAsciiUppercase(c);
            break;
          }
        case Pressed(Other) =>
      }
      i := i + 1;
    }
    if selected.Some? {
      return Selected(selected.value, shouldPaste);
    } else if i < |events| {
      return Cancelled;
    } else {
      return Exhausted;
    }
  }

  /** An event the loop reads past: a non-character key, or a character that is neither `q` nor a hint. */
  predicate Skipped(ms: seq<Match>, e: KeyEvent)
  {
    match e
    case Pressed(Other) => true
    case Pressed(Char(c)) => c != 'q' && FindHint(ms, ToAsciiLowercase(c)).None?
    case Pressed(Esc) => false
    case ReadFailed => false
  }

  /** How an event the loop does not skip ends it. */
  function Decide(ms: seq<Match>, e: KeyEvent): Outcome
    requires !Skipped(ms, e)
  {
    match e
    case ReadFailed => Failed
    case Pressed(Esc) => Cancelled
    case Pressed(Char(c)) =>
      if c == 'q' then Cancelled else Selected(FindHint(ms, ToAsciiLowercase(c)).value, IsAsciiUppercase(c))
  }

  /** Position of the first event the loop does not skip, or `|events|`. */
  function FirstDecisive(ms: seq<Match>, events: seq<KeyEvent>): (k: nat)
    ensures k <= |events|
    ensures k < |events| ==> !Skipped(ms, events[k])
    ensures forall j :: 0 <= j < k ==> Skipped(ms, events[j])
  {
    if events == [] then 0
    else if !Skipped(ms, events[0]) then 0
    else 1 + FirstDecisive(ms, events[1..])
  }

  /**
   * The loop's outcome is decided by the first event it does not skip;
   * when every event is skipped it runs out of input.
   */
  lemma {:induction false} SelectIsFirstDecisive(ms: seq<Match>, events: seq<KeyEvent>)
    ensures Select(ms, events) ==
      if FirstDecisive(ms, events) == |events| then Exhausted else Decide(ms, events[FirstDecisive(ms, events)])
    decreases |events|
  {
    if events != [] && Skipped(ms, events[0]) {
      SelectIsFirstDecisive(ms, events[1..]);
    }
  }

  /** `q` and Escape end the loop before any hint is looked up, whatever the matches. */
  lemma CancelKeysWin(ms: seq<Match>, rest: seq<KeyEvent>)
    ensures Select(ms, [Pressed(Char('q'))] + rest) == Cancelled
    ensures Select(ms, [Pressed(Esc)] + rest) == Cancelled
  {
  }

  /**
   * A lower-case letter and its upper case pick the same match; only the
   * upper case asks for a paste.
   */
  lemma CaseSelectsSameMatch(ms: seq<Match>, c: char, rest: seq<KeyEvent>)
    requires 'a' <= c <= 'z' && c != 'q'
    requires FindHint(ms, c).Some?
    ensures Select(ms, [Pressed(Char(c))] + rest) == Selected(FindHint(ms, c).value, false)
    ensures Select(ms, [Pressed(Char((c as int - ('a' as int - 'A' as int)) as char))] + rest) == Selected(FindHint(ms, c).value, true)
  {
  }

  /** Hints assigned as `find_matches` assigns them. */
  ghost predicate HintedInOrder(ms: seq<Match>)
  {
    forall i :: 0 <= i < |ms| ==> i < |HintChars| && ms[i].hint == HintChars[i]
  }

  /** With hints in alphabet order, the match found for a hint is the one at that hint's position. */
  lemma FindHintInAlphabet(ms: seq<Match>, h: char, i: nat)
    requires HintedInOrder(ms)
    requires i < |ms| && i < |HintChars| && HintChars[i] == h
    ensures FindHint(ms, h) == Some(i)
  {
    assert forall a, b :: 0 <= a < b < |HintChars| ==> HintChars[a] != HintChars[b];
  }

  /**
   * The match hinted `q` (the 11th) can be picked only with `Q`, so only
   * with the paste flag: a lower-case `q` cancels first.
   */
  lemma QHintNeedsShift(ms: seq<Match>, events: seq<KeyEvent>, paste: bool)
    requires HintedInOrder(ms)
    requires Select(ms, events) == Selected(10, paste)
    ensures paste
  {
  }

  /**
   * `Q` does pick the match hinted `q`, for pasting (a `q` cancels
   * instead: `CancelKeysWin`).
   */
  lemma ShiftQPicksQHint(ms: seq<Match>, rest: seq<KeyEvent>)
    requires HintedInOrder(ms) && |ms| > 10
    ensures Select(ms, [Pressed(Char('Q'))] + rest) == Selected(10, true)
  {
    FindHintInAlphabet(ms, 'q', 10);
  }

  /** The match hinted `;` (the 8th) has no upper-case key, so it is never picked for pasting. */
  lemma SemicolonHintNeverPastes(ms: seq<Match>, events: seq<KeyEvent>, paste: bool)
    requires HintedInOrder(ms)
    requires Select(ms, events) == Selected(7, paste)
    ensures !paste
  {
    SelectIsFirstDecisive(ms, events);
    var k := FirstDecisive(ms, events);
    var c := events[k].key.ch;
    assert ms[7].hint == ToAsciiLowercase(c) == ';';
  }
}
