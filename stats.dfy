/** The clean-up `run` (trace_poc/server.py) applies to the sampled
    `docker stats` log: the terminal's clear-screen and cursor-home sequence
    is deleted from every line before the log is kept. */
module Stats {
  import opened Strings

  /** `\x1b[2J\x1b[H`: clear the screen, then move the cursor home. */
  const ClearScreen: string := "\U{1B}[2J\U{1B}[H"

  /** The loop over `infp.readlines()` writing `re.sub(..., "", line)` for each line. */
  method CleanStatsLines(lines: seq<string>) returns (out: seq<string>)
    ensures |out| == |lines|
    ensures forall k :: 0 <= k < |lines| ==> out[k] == RemoveAll(lines[k], ClearScreen)
  {
    out := [];
    for i := 0 to |lines|
      invariant |out| == i
      invariant forall k :: 0 <= k < i ==> out[k] == RemoveAll(lines[k], ClearScreen)
    {
      out := out + [RemoveAll(lines[i], ClearScreen)];
    }
  }

  /** A line without the sequence is written as it was read. */
  lemma CleanLineUntouched(line: string)
    requires Free(line, ClearScreen)
    ensures RemoveAll(line, ClearScreen) == line
  {
    RemoveAllFree(line, ClearScreen);
  }

  predicate NoNewline(s: string) {
    forall k :: 0 <= k < |s| ==> s[k] != '\n'
  }

  /** A pattern without a newline cannot start a line that ends in the
      newline and run past it. */
  lemma PatternInsideLine(a: string, b: string, pat: string)
    requires |pat| > 0 && NoNewline(pat)
    requires |a| > 0 && a[|a| - 1] == '\n'
    requires |a + b| >= |pat| && (a + b)[..|pat|] == pat
    ensures |pat| < |a| && a[..|pat|] == pat && (a + b)[|pat|..] == a[|pat|..] + b
  {
    assert (a + b)[|a| - 1] == '\n';
    if |pat| >= |a| {
      assert false;
    }
    assert a[..|pat|] == (a + b)[..|pat|];
  }

  /** Text that does not start with the pattern keeps its first character. */
  lemma RemoveAllKeepsFirst(s: string, pat: string)
    requires |pat| > 0 && |s| > 0
    requires |s| >= |pat| ==> s[..|pat|] != pat
    ensures RemoveAll(s, pat) == [s[0]] + RemoveAll(s[1..], pat)
  {
    if |s| < |pat| {
      assert RemoveAll(s[1..], pat) == s[1..];
      assert s == [s[0]] + s[1..];
    }
  }

  /** No occurrence of a pattern without a newline can run across the end
      of a line, so cleaning the text after a whole line is the same as
      cleaning the two parts separately. */
  lemma {:induction false} RemoveAllAfterLine(a: string, b: string, pat: string)
    requires |pat| > 0 && NoNewline(pat)
    requires |a| > 0 && a[|a| - 1] == '\n'
    ensures RemoveAll(a + b, pat) == RemoveAll(a, pat) + RemoveAll(b, pat)
    decreases |a|, 2
  {
    var s := a + b;
    if |s| < |pat| {
      assert RemoveAll(s, pat) == s && RemoveAll(a, pat) == a && RemoveAll(b, pat) == b;
    } else if s[..|pat|] == pat {
      RemoveAllAfterLineMatch(a, b, pat);
    } else {
      RemoveAllAfterLineSkip(a, b, pat);
    }
  }

  /** The step of RemoveAllAfterLine where the text starts with the pattern. */
  lemma {:induction false} RemoveAllAfterLineMatch(a: string, b: string, pat: string)
    requires |pat| > 0 && NoNewline(pat)
    requires |a| > 0 && a[|a| - 1] == '\n'
    requires |a + b| >= |pat| && (a + b)[..|pat|] == pat
    ensures RemoveAll(a + b, pat) == RemoveAll(a, pat) + RemoveAll(b, pat)
    decreases |a|, 1
  {
    PatternInsideLine(a, b, pat);
    assert RemoveAll(a + b, pat) == RemoveAll(a[|pat|..] + b, pat);
    assert RemoveAll(a, pat) == RemoveAll(a[|pat|..], pat);
    RemoveAllAfterLine(a[|pat|..], b, pat);
  }

  /** The step of RemoveAllAfterLine where the first character is kept. */
  lemma {:induction false} RemoveAllAfterLineSkip(a: string, b: string, pat: string)
    requires |pat| > 0 && NoNewline(pat)
    requires |a| > 0 && a[|a| - 1] == '\n'
    requires |a + b| >= |pat| && (a + b)[..|pat|] != pat
    ensures RemoveAll(a + b, pat) == RemoveAll(a, pat) + RemoveAll(b, pat)
    decreases |a|, 1
  {
    RemoveAllKeepsFirst(a + b, pat);
    if |a| >= |pat| {
      assert a[..|pat|] == (a + b)[..|pat|];
    }
    RemoveAllKeepsFirst(a, pat);
    RemoveAllAfterLineTail(a, b, pat);
  }

  /** What is left of the line after its first character, followed by the
      rest of the text, is cleaned part by part. */
  lemma {:induction false} RemoveAllAfterLineTail(a: string, b: string, pat: string)
    requires |pat| > 0 && NoNewline(pat)
    requires |a| > 0 && a[|a| - 1] == '\n'
    ensures RemoveAll((a + b)[1..], pat) == RemoveAll(a[1..], pat) + RemoveAll(b, pat)
    decreases |a|, 0
  {
    if |a| == 1 {
      assert (a + b)[1..] == b && a[1..] == [];
    } else {
      assert (a + b)[1..] == a[1..] + b;
      RemoveAllAfterLine(a[1..], b, pat);
    }
  }

  /** Every line as `readlines()` returns it, except possibly the last, ends in a newline. */
  predicate LinesOfFile(lines: seq<string>) {
    forall k :: 0 <= k < |lines| - 1 ==> |lines[k]| > 0 && lines[k][|lines[k]| - 1] == '\n'
  }

  /** Cleaning line by line writes the same file as cleaning the whole file at once. */
  lemma {:induction false} CleanPerLineIsCleanWhole(lines: seq<string>, out: seq<string>)
    requires LinesOfFile(lines)
    requires |out| == |lines| && forall k :: 0 <= k < |lines| ==> out[k] == RemoveAll(lines[k], ClearScreen)
    ensures Join(out, "") == RemoveAll(Join(lines, ""), ClearScreen)
    decreases |lines|
  {
    assert |ClearScreen| == 7;
    assert NoNewline(ClearScreen) by {
      forall k | 0 <= k < 7 ensures ClearScreen[k] != '\n' { }
    }
    if |lines| == 0 {
    } else if |lines| == 1 {
      assert Join(out, "") == out[0] && Join(lines, "") == lines[0];
    } else {
      CleanPerLineIsCleanWhole(lines[1..], out[1..]);
      assert lines == [lines[0]] + lines[1..] && out == [out[0]] + out[1..];
      JoinCons(lines[0], lines[1..], "");
      JoinCons(out[0], out[1..], "");
      assert lines[0] + "" == lines[0] && out[0] + "" == out[0];
      assert |lines[0]| > 0 && lines[0][|lines[0]| - 1] == '\n';
      RemoveAllAfterLine(lines[0], Join(lines[1..], ""), ClearScreen);
    }
  }
}
