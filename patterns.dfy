/**
 * The pattern table, seen from the extractor: seven line-scoped
 * recognisers, asked in table order for all their non-overlapping
 * captures in a line, left to right.  The regular expressions themselves
 * are not modelled; a `Recogniser` stands for "run pattern `p` over this
 * line" and the only thing assumed of it is what the regex engine
 * guarantees: every reported span lies inside the line.
 */
module Patterns {
  import opened Wrappers
  import opened Text

  /** URL, path, git-status file, `ls -l` file, ps PID, hex hash, IPv4. */
  const PatternCount: nat := 7

  /** Byte offsets into a line, end exclusive. */
  datatype Span = Span(start: nat, end: nat)

  /** One regex capture: the whole match and, when the pattern has one, group 1. */
  datatype Capture = Capture(whole: Span, group1: Option<Span>)

  /** The span a match is built from: group 1 if it took part, else the whole match. */
  function Chosen(c: Capture): Span
  {
    match c.group1
    case Some(g) => g
    case None => c.whole
  }

  predicate Within(s: Span, line: Bytes)
  {
    s.start <= s.end <= |line|
  }

  /** `scan(p, line)`: the captures of pattern `p` in `line`, in the order `captures_iter` yields them. */
  type Recogniser = (nat, Bytes) -> seq<Capture>

  /** What the regex engine guarantees of the spans it reports. */
  ghost predicate Sound(scan: Recogniser)
  {
    forall p: nat, line: Bytes, k: nat :: p < PatternCount && k < |scan(p, line)| ==> Within(Chosen(scan(p, line)[k]), line)
  }
}
