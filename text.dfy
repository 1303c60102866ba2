/**
 * Text as the program sees it: the UTF-8 bytes of a Rust `String`, and
 * the standard library's `str::lines`, which every scan of the input
 * goes through.  Regex offsets are byte offsets, so the model keeps bytes.
 */
module Text {

  newtype Byte = b: int | 0 <= b < 0x100

  type Bytes = seq<Byte>

  const LF: Byte := 0x0A
  const CR: Byte := 0x0D

  /** Position of the first line feed in `s`, or `|s|` when there is none. */
  function NextLF(s: Bytes): (k: nat)
    ensures k <= |s|
    ensures k < |s| ==> s[k] == LF
    ensures forall j :: 0 <= j < k ==> s[j] != LF
  {
    if s == [] then 0
    else if s[0] == LF then 0
    else 1 + NextLF(s[1..])
  }

  /** A line taken off before its `\n` loses one `\r` that ends it. */
  function DropCR(piece: Bytes): Bytes
  {
    if |piece| > 0 && piece[|piece| - 1] == CR then piece[..|piece| - 1] else piece
  }

  /**
   * `str::lines`: split after every `\n`, remove the `\n` and a `\r` just
   * before it, and yield no empty line after a final `\n`.  A last line
   * with no `\n` is kept as it is, even when it ends with `\r`.
   */
  function Lines(s: Bytes): (ls: seq<Bytes>)
    ensures forall i :: 0 <= i < |ls| ==> LF !in ls[i]
    decreases |s|
  {
    if s == [] then []
    else
      var k := NextLF(s);
      if k == |s| then [s]
      else [DropCR(s[..k])] + Lines(s[k + 1..])
  }

  /** The bytes of `ls`, each line followed by a `\n`. */
  function Terminated(ls: seq<Bytes>): Bytes
  {
    if ls == [] then [] else ls[0] + [LF] + Terminated(ls[1..])
  }

  function CountLF(s: Bytes): nat
  {
    if s == [] then 0 else (if s[0] == LF then 1 else 0) + CountLF(s[1..])
  }

  /** The text before the first `\n` is the first line; the rest are the lines after it. */
  lemma {:induction false} LinesAtLF(a: Bytes, b: Bytes)
    requires LF !in a
    ensures Lines(a + [LF] + b) == [DropCR(a)] + Lines(b)
  {
    var s := a + [LF] + b;
    var k := NextLF(s);
    assert s[|a|] == LF;
    assert k == |a|;
    assert s[..k] == a;
    assert s[k + 1..] == b;
  }

  /** Empty input has no lines; a text with no `\n` at all is a single line. */
  lemma LinesOfUnbroken(s: Bytes)
    requires LF !in s
    ensures Lines(s) == if s == [] then [] else [s]
  {
  }

  /**
   * Splitting lines that were each ended with a `\n` gives them back,
   * as long as no line holds a `\n` or a `\r`.
   */
  lemma {:induction false} LinesOfTerminated(ls: seq<Bytes>)
    requires forall i :: 0 <= i < |ls| ==> LF !in ls[i] && CR !in ls[i]
    ensures Lines(Terminated(ls)) == ls
    decreases |ls|
  {
    if ls != [] {
      var a := ls[0];
      LinesAtLF(a, Terminated(ls[1..]));
      assert DropCR(a) == a by {
        if |a| > 0 { assert a[|a| - 1] in a; }
      }
      LinesOfTerminated(ls[1..]);
      assert [a] + ls[1..] == ls;
    }
  }

  /**
   * Without carriage returns, putting a `\n` after every line gives the
   * input back, with a `\n` added only when the input did not end with one.
   */
  lemma {:induction false} LinesRoundTrip(s: Bytes)
    requires CR !in s
    ensures Terminated(Lines(s)) == if s == [] || s[|s| - 1] == LF then s else s + [LF]
    decreases |s|
  {
    if s != [] {
      var k := NextLF(s);
      if k == |s| {
        assert Terminated([s]) == s + [LF] + Terminated([]);
      } else {
        var a, b := s[..k], s[k + 1..];
        SplitAtLF(s, k);
        LinesAtLF(a, b);
        LinesRoundTrip(b);
        RoundTripStep(a, b);
      }
    }
  }

  /** Cutting a text without `\r` at its first `\n`. */
  lemma SplitAtLF(s: Bytes, k: nat)
    requires CR !in s && k < |s| && s[k] == LF
    requires forall j :: 0 <= j < k ==> s[j] != LF
    ensures s == s[..k] + [LF] + s[k + 1..]
    ensures LF !in s[..k] && CR !in s[..k] && CR !in s[k + 1..]
    ensures DropCR(s[..k]) == s[..k]
  {
    var a, b := s[..k], s[k + 1..];
    assert s == a + [LF] + b;
    forall j | 0 <= j < |a| ensures a[j] != LF && a[j] != CR { assert a[j] == s[j]; }
    forall j | 0 <= j < |b| ensures b[j] != CR { assert b[j] == s[k + 1 + j]; }
    if |a| > 0 { assert a[|a| - 1] in a; }
  }

  /** The round trip of `a + [LF] + b` from that of `b`. */
  lemma RoundTripStep(a: Bytes, b: Bytes)
    requires Lines(a + [LF] + b) == [a] + Lines(b)
    requires Terminated(Lines(b)) == if b == [] || b[|b| - 1] == LF then b else b + [LF]
    ensures var s := a + [LF] + b; Terminated(Lines(s)) == if s == [] || s[|s| - 1] == LF then s else s + [LF]
  {
    var s := a + [LF] + b;
    var ls := Lines(s);
    assert ls[1..] == Lines(b);
    assert Terminated(ls) == a + [LF] + Terminated(Lines(b));
    if b == [] {
      assert s[|s| - 1] == LF;
    } else {
      assert s[|s| - 1] == b[|b| - 1];
      if b[|b| - 1] != LF {
        assert a + [LF] + (b + [LF]) == s + [LF];
      }
    }
  }

  /**
   * There is one line per `\n`, plus one for text after the last `\n`.
   */
  lemma {:induction false} LinesCount(s: Bytes)
    ensures |Lines(s)| == CountLF(s) + (if s != [] && s[|s| - 1] != LF then 1 else 0)
    decreases |s|
  {
    if s != [] {
      var k := NextLF(s);
      var a := s[..k];
      assert LF !in a by {
        forall j | 0 <= j < |a| ensures a[j] != LF { assert a[j] == s[j]; }
      }
      CountLFNone(a);
      if k == |s| {
        assert s == a;
        assert s[|s| - 1] in a;
      } else {
        var b := s[k + 1..];
        assert s == a + ([LF] + b);
        CountLFAppend(a, [LF] + b);
        assert ([LF] + b)[1..] == b;
        assert CountLF(s) == 1 + CountLF(b);
        assert Lines(s) == [DropCR(a)] + Lines(b);
        LinesCount(b);
        assert b != [] ==> s[|s| - 1] == b[|b| - 1];
      }
    }
  }

  lemma {:induction false} CountLFAppend(a: Bytes, b: Bytes)
    ensures CountLF(a + b) == CountLF(a) + CountLF(b)
    decreases |a|
  {
    if a != [] {
      assert (a + b)[1..] == a[1..] + b;
      CountLFAppend(a[1..], b);
    } else {
      assert a + b == b;
    }
  }

  lemma {:induction false} CountLFNone(a: Bytes)
    requires LF !in a
    ensures CountLF(a) == 0
    decreases |a|
  {
    if a != [] {
      assert a[0] in a;
      assert LF !in a[1..] by {
        forall j | 0 <= j < |a| - 1 ensures a[1..][j] != LF { assert a[1..][j] == a[j + 1]; }
      }
      CountLFNone(a[1..]);
    }
  }
}
