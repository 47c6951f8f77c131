/** The bag manifest line format `<digest><two spaces><path>` and how
    `_generate_declaration` reads it: `digest, path = line.strip().split("  ")`. */
module Manifest {
  import opened Wrappers
  import opened Strings

  const Separator: string := "  "

  /** One manifest line: (content digest, path inside the bag). */
  type Entry = (string, string)

  /** The ValueError raised when a stripped line does not split into
      exactly two pieces. */
  datatype LineError = Malformed(line: string, pieces: nat)

  /** Parse one line as the code does. */
  function ParseLine(line: string): (r: Result<Entry, LineError>)
  {
    var parts := Split(Strip(line), Separator);
    if |parts| == 2 then Ok((parts[0], parts[1])) else Err(Malformed(line, |parts|))
  }

  /** A parsed line is digest, double space, path, both free of the
      separator; a rejected line did not split into exactly two pieces. */
  lemma ParseLineSound(line: string)
    ensures ParseLine(line).Ok? ==>
      var (digest, path) := ParseLine(line).value;
      digest + Separator + path == Strip(line) && Free(digest, Separator) && Free(path, Separator)
    ensures ParseLine(line).Err? ==> ParseLine(line).error.pieces != 2
  {
    var parts := Split(Strip(line), Separator);
    JoinSplit(Strip(line), Separator);
    SplitPiecesFree(Strip(line), Separator);
    if |parts| == 2 {
      assert parts[1..] == [parts[1]];
    }
  }

  /** The line bagit writes for a file. */
  function FormatLine(digest: string, path: string): string {
    digest + Separator + path + "\n"
  }

  predicate NoSpace(s: string) {
    forall k :: 0 <= k < |s| ==> !IsSpace(s[k])
  }

  lemma StripFormatted(digest: string, path: string)
    requires digest != [] && !IsSpace(digest[0])
    requires path != [] && !IsSpace(path[|path| - 1])
    ensures Strip(FormatLine(digest, path)) == digest + Separator + path
  {
    var body := digest + Separator + path;
    assert FormatLine(digest, path) == body + "\n";
    assert TrimLeft(body + "\n") == body + "\n";
    assert (body + "\n")[..|body|] == body;
    assert TrimRight(body) == body;
  }

  /** Reading back a line written for a hex digest and a path recovers
      both, as long as the path has no double space and does not end in
      whitespace (strip() would eat it). */
  lemma ParseFormatLine(digest: string, path: string)
    requires digest != [] && NoSpace(digest)
    requires path != [] && !IsSpace(path[|path| - 1]) && Free(path, Separator)
    ensures ParseLine(FormatLine(digest, path)) == Ok((digest, path))
  {
    StripFormatted(digest, path);
    SplitAfterWord(digest, path);
    SplitFree(path, Separator);
  }

  /** The first double space in `x + "  " + rest` is the one after `x`
      when `x` has no whitespace. */
  lemma SplitAfterWord(x: string, rest: string)
    requires x != [] && NoSpace(x)
    ensures Split(x + Separator + rest, Separator) == [x] + Split(rest, Separator)
  {
    var body := x + Separator + rest;
    assert OccursAt(body, Separator, |x|) by {
      assert body[|x|..|x| + 2] == Separator;
    }
    forall j: nat | j < |x| ensures !OccursAt(body, Separator, j) {
      assert body[j] == x[j];
    }
    SplitAt(body, Separator, |x|);
    assert body[|x| + 2..] == rest;
    assert body[..|x|] == x;
  }

  /** A path holding a double space between two words splits into three
      or more pieces, so the code raises on the line and the whole
      declaration fails. */
  lemma DoubleSpacePathRejected(digest: string, x: string, y: string)
    requires digest != [] && NoSpace(digest) && x != [] && NoSpace(x)
    requires y != [] && !IsSpace(y[|y| - 1])
    ensures ParseLine(FormatLine(digest, x + Separator + y)).Err?
  {
    var path := x + Separator + y;
    StripFormatted(digest, path);
    assert digest + Separator + path == digest + Separator + (x + Separator + y);
    SplitAfterWord(digest, path);
    SplitAfterWord(x, y);
  }

  /** The outcome of parsing every line of a manifest, in file order. */
  function ParseAll(lines: seq<string>): (rs: seq<Result<Entry, LineError>>)
    ensures |rs| == |lines| && forall k :: 0 <= k < |lines| ==> rs[k] == ParseLine(lines[k])
  {
    seq(|lines|, k requires 0 <= k < |lines| => ParseLine(lines[k]))
  }

  /** Every line parsed. */
  predicate AllOk(rs: seq<Result<Entry, LineError>>) {
    forall k :: 0 <= k < |rs| ==> rs[k].Ok?
  }

  /** The index of the first line that did not parse: the line at which
      the code raises. */
  function FirstErr(rs: seq<Result<Entry, LineError>>): (r: Option<nat>)
    ensures r.None? <==> AllOk(rs)
    ensures r.Some? ==> r.value < |rs| && rs[r.value].Err? && AllOk(rs[..r.value])
    decreases |rs|
  {
    if rs == [] then None
    else
      var init := rs[..|rs| - 1];
      assert forall k :: 0 <= k < |init| ==> init[k] == rs[k];
      match FirstErr(init)
      case Some(i) =>
        assert rs[..i] == init[..i];
        Some(i)
      case None =>
        if rs[|rs| - 1].Err? then Some(|rs| - 1) else None
  }

  /** The (digest, path) pairs of a manifest whose lines all parsed, in file order. */
  function Values(rs: seq<Result<Entry, LineError>>): (es: seq<Entry>)
    requires AllOk(rs)
    ensures |es| == |rs| && forall k :: 0 <= k < |rs| ==> rs[k] == Ok(es[k])
  {
    seq(|rs|, k requires 0 <= k < |rs| => rs[k].value)
  }

  /** The digest column of a list of entries. */
  function Digests(es: seq<Entry>): (ds: seq<string>)
    ensures |ds| == |es| && forall k :: 0 <= k < |es| ==> ds[k] == es[k].0
  {
    seq(|es|, k requires 0 <= k < |es| => es[k].0)
  }
}
