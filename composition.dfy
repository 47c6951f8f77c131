/** The artifact table of `_generate_declaration` (trace_poc/server.py):
    both sha256 manifests, the initial bag's first, read into one dict keyed
    by content digest that remembers, per digest, its path in each
    arrangement; and the composition fingerprint computed from its keys. */
module Composition {
  import opened Wrappers
  import opened Strings
  import opened Sorting
  import opened Manifest

  /** `artifacts[digest]`: the path a digest has in the initial arrangement
      (key 0) and in the final arrangement (key 1). */
  datatype Locations = Locations(initial: Option<string>, final: Option<string>) {

    function At(arrangement: nat): Option<string> {
      if arrangement == 0 then initial else if arrangement == 1 then final else None
    }

    /** `artifacts[digest][arrangement] = path`. */
    function With(arrangement: nat, path: string): (l: Locations)
      requires arrangement < 2
      ensures l.At(arrangement) == Some(path) && l.At(1 - arrangement) == At(1 - arrangement)
    {
      if arrangement == 0 then this.(initial := Some(path)) else this.(final := Some(path))
    }

    predicate NonEmpty() {
      initial.Some? || final.Some?
    }

    /** `list(artifacts[digest].values())[0]`: key 0 is always inserted
        before key 1, so this is the initial path when there is one. */
    function FirstPath(): string
      requires NonEmpty()
    {
      if initial.Some? then initial.value else final.value
    }
  }

  /** The `artifacts` dict: its keys in insertion order and its values. */
  datatype Table = Table(digests: seq<string>, entries: map<string, Locations>)

  const EmptyTable := Table([], map[])

  predicate NoDup(s: seq<string>) {
    forall i, j :: 0 <= i < j < |s| ==> s[i] != s[j]
  }

  /** What a dict with ordered keys guarantees: the key order lists every
      key once, and every digest was recorded in at least one arrangement. */
  ghost predicate WellFormed(t: Table) {
    && NoDup(t.digests)
    && (forall d :: d in t.entries <==> d in t.digests)
    && (forall d :: d in t.entries ==> t.entries[d].NonEmpty())
  }

  /** One parsed manifest line recorded in the dict. */
  function Record(t: Table, arrangement: nat, e: Entry): Table
    requires arrangement < 2
  {
    if e.0 in t.entries then
      Table(t.digests, t.entries[e.0 := t.entries[e.0].With(arrangement, e.1)])
    else
      Table(t.digests + [e.0], t.entries[e.0 := Locations(None, None).With(arrangement, e.1)])
  }

  /** The lines of one manifest recorded in order. */
  function RecordAll(t: Table, arrangement: nat, es: seq<Entry>): Table
    requires arrangement < 2
    decreases |es|
  {
    if es == [] then t
    else Record(RecordAll(t, arrangement, es[..|es| - 1]), arrangement, es[|es| - 1])
  }

  /** The ValueError of the first bad line: which manifest, which line. */
  datatype ManifestError = ManifestError(arrangement: nat, index: nat, cause: LineError)

  /** The table after the first `k` manifests have been read, when all
      their lines parse. */
  function ReadUpTo(before: seq<string>, after: seq<string>, k: nat): Table
    requires k <= 2
    requires k >= 1 ==> AllOk(ParseAll(before))
    requires k == 2 ==> AllOk(ParseAll(after))
  {
    if k == 0 then EmptyTable
    else if k == 1 then RecordAll(EmptyTable, 0, Values(ParseAll(before)))
    else RecordAll(ReadUpTo(before, after, 1), 1, Values(ParseAll(after)))
  }

  /** The dict the code builds from the initial manifest `before` and the
      final manifest `after`, or the error of the first line that does not
      parse (the initial manifest is read first). */
  function Collect(before: seq<string>, after: seq<string>): Result<Table, ManifestError>
  {
    var rb, ra := ParseAll(before), ParseAll(after);
    match FirstErr(rb)
    case Some(i) => Err(ManifestError(0, i, rb[i].error))
    case None =>
      match FirstErr(ra)
      case Some(i) => Err(ManifestError(1, i, ra[i].error))
      case None => Ok(ReadUpTo(before, after, 2))
  }

  /** The first line that fails, after `i` lines that parsed as `es`. */
  lemma FirstErrAt(rs: seq<Result<Entry, LineError>>, es: seq<Entry>, i: nat)
    requires i < |rs| && rs[i].Err? && |es| == i
    requires forall k :: 0 <= k < i ==> rs[k] == Ok(es[k])
    ensures FirstErr(rs) == Some(i)
  {
    assert !AllOk(rs);
    var v := FirstErr(rs).value;
    assert forall j :: 0 <= j < v ==> rs[..v][j] == rs[j];
  }

  lemma LinesErrAt(lines: seq<string>, es: seq<Entry>, i: nat)
    requires i < |lines| && ParseLine(lines[i]).Err? && |es| == i
    requires forall k :: 0 <= k < i ==> ParseLine(lines[k]) == Ok(es[k])
    ensures FirstErr(ParseAll(lines)) == Some(i)
  {
    FirstErrAt(ParseAll(lines), es, i);
  }

  lemma LinesOk(lines: seq<string>, es: seq<Entry>)
    requires |es| == |lines| && forall k :: 0 <= k < |lines| ==> ParseLine(lines[k]) == Ok(es[k])
    ensures FirstErr(ParseAll(lines)).None? && Values(ParseAll(lines)) == es
  {
    ValuesOf(ParseAll(lines), es);
  }

  /** Lines that all parsed, as `es`. */
  lemma ValuesOf(rs: seq<Result<Entry, LineError>>, es: seq<Entry>)
    requires |es| == |rs| && forall k :: 0 <= k < |rs| ==> rs[k] == Ok(es[k])
    ensures AllOk(rs) && FirstErr(rs).None? && Values(rs) == es
  {
  }

  lemma RecordAllSnoc(t: Table, arrangement: nat, es: seq<Entry>, e: Entry)
    requires arrangement < 2
    ensures RecordAll(t, arrangement, es + [e]) == Record(RecordAll(t, arrangement, es), arrangement, e)
  {
    assert (es + [e])[..|es|] == es;
  }

  /** The two dict assignments of one loop step leave the table Record describes. */
  lemma RecordStep(t: Table, arrangement: nat, e: Entry, digests: seq<string>, entries: map<string, Locations>)
    requires arrangement < 2
    requires digests == if e.0 in t.entries then t.digests else t.digests + [e.0]
    requires var prior := if e.0 in t.entries then t.entries else t.entries[e.0 := Locations(None, None)];
      entries == prior[e.0 := prior[e.0].With(arrangement, e.1)]
    ensures Table(digests, entries) == Record(t, arrangement, e)
  {
  }

  /** One pass of the loop body keeps the dict equal to the lines recorded so far. */
  lemma RecordLine(t: Table, arrangement: nat, es: seq<Entry>, e: Entry,
                   digests0: seq<string>, entries0: map<string, Locations>,
                   digests: seq<string>, entries: map<string, Locations>)
    requires arrangement < 2
    requires Table(digests0, entries0) == RecordAll(t, arrangement, es)
    requires digests == if e.0 in entries0 then digests0 else digests0 + [e.0]
    requires var prior := if e.0 in entries0 then entries0 else entries0[e.0 := Locations(None, None)];
      entries == prior[e.0 := prior[e.0].With(arrangement, e.1)]
    ensures Table(digests, entries) == RecordAll(t, arrangement, es + [e])
  {
    RecordStep(Table(digests0, entries0), arrangement, e, digests, entries);
    RecordAllSnoc(t, arrangement, es, e);
  }

  /** What reading one manifest into `t` yields: the error of its first bad
      line, or the table with all its lines recorded. */
  predicate ReadManifestPost(lines: seq<string>, arrangement: nat, t: Table, r: Result<Table, ManifestError>)
    requires arrangement < 2
  {
    var rs := ParseAll(lines);
    match FirstErr(rs)
    case Some(i) => r == Err(ManifestError(arrangement, i, rs[i].error))
    case None => r == Ok(RecordAll(t, arrangement, Values(rs)))
  }

  /** The inner loop of `_generate_declaration`: the lines of one manifest
      recorded into the dict `t`, or the ValueError of its first bad line. */
  method ReadManifest(lines: seq<string>, arrangement: nat, t: Table) returns (r: Result<Table, ManifestError>)
    requires arrangement < 2
    ensures ReadManifestPost(lines, arrangement, t, r)
  {
    ghost var es: seq<Entry> := [];
    var digests, entries := t.digests, t.entries;
    var i := 0;
    while i < |lines|
      invariant 0 <= i <= |lines| && |es| == i
      invariant forall k :: 0 <= k < i ==> ParseLine(lines[k]) == Ok(es[k])
      invariant Table(digests, entries) == RecordAll(t, arrangement, es)
    {
      var parsed := ParseLine(lines[i]);
      if parsed.Err? {
        LinesErrAt(lines, es, i);
        return Err(ManifestError(arrangement, i, parsed.error));
      }
      var digest, path := parsed.value.0, parsed.value.1;
      ghost var digests0, entries0 := digests, entries;
      if digest !in entries {
        digests := digests + [digest];
        entries := entries[digest := Locations(None, None)];
      }
      entries := entries[digest := entries[digest].With(arrangement, path)];
      RecordLine(t, arrangement, es, parsed.value, digests0, entries0, digests, entries);
      es := es + [parsed.value];
      i := i + 1;
    }
    LinesOk(lines, es);
    return Ok(Table(digests, entries));
  }

  /** The outer loop of `_generate_declaration`: the initial manifest, then
      the final one, into one dict. */
  method CollectArtifacts(before: seq<string>, after: seq<string>) returns (r: Result<Table, ManifestError>)
    ensures r == Collect(before, after)
  {
    var manifests := [before, after];
    var table := EmptyTable;
    var arrangementSeq := 0;
    while arrangementSeq < 2
      invariant 0 <= arrangementSeq <= 2
      invariant arrangementSeq >= 1 ==> AllOk(ParseAll(before))
      invariant arrangementSeq == 2 ==> AllOk(ParseAll(after))
      invariant table == ReadUpTo(before, after, arrangementSeq)
    {
      var read := ReadManifest(manifests[arrangementSeq], arrangementSeq, table);
      if read.Err? {
        return read;
      }
      table := read.value;
      arrangementSeq := arrangementSeq + 1;
    }
    return Ok(table);
  }

  // ---------------------------------------------------------------------
  // The reference semantics: first appearances and last paths.

  /** The distinct elements of `s` in order of first appearance. */
  function Dedup(s: seq<string>): (r: seq<string>)
    ensures NoDup(r) && forall x :: x in r <==> x in s
    decreases |s|
  {
    if s == [] then []
    else
      var init := s[..|s| - 1];
      var last := s[|s| - 1];
      assert s == init + [last];
      if last in init then Dedup(init) else Dedup(init) + [last]
  }

  /** The position of the first occurrence of `x` in `s`. */
  function FirstIndex(s: seq<string>, x: string): (k: nat)
    requires x in s
    ensures k < |s| && s[k] == x && x !in s[..k]
    decreases |s|
  {
    if s[0] == x then 0
    else
      var k := 1 + FirstIndex(s[1..], x);
      assert s[..k] == [s[0]] + s[1..][..k - 1];
      k
  }

  lemma {:induction false} FirstIndexSnoc(s: seq<string>, y: string, x: string)
    requires x in s + [y]
    ensures x in s ==> FirstIndex(s + [y], x) == FirstIndex(s, x)
    ensures x !in s ==> FirstIndex(s + [y], x) == |s|
    decreases |s|
  {
    if s != [] && s[0] != x {
      assert (s + [y])[1..] == s[1..] + [y];
      assert x in s <==> x in s[1..];
      FirstIndexSnoc(s[1..], y, x);
    }
  }

  /** Dedup keeps first-appearance order: an earlier element of Dedup(s)
      first appears earlier in s. */
  lemma {:induction false} DedupFirstAppearanceOrder(s: seq<string>, i: nat, j: nat)
    requires i < j < |Dedup(s)|
    ensures FirstIndex(s, Dedup(s)[i]) < FirstIndex(s, Dedup(s)[j])
    decreases |s|
  {
    var init := s[..|s| - 1];
    var last := s[|s| - 1];
    assert s == init + [last];
    var a, b := Dedup(s)[i], Dedup(s)[j];
    if last in init || j < |Dedup(init)| {
      assert a == Dedup(init)[i] && b == Dedup(init)[j];
      DedupFirstAppearanceOrder(init, i, j);
      FirstIndexSnoc(init, last, a);
      FirstIndexSnoc(init, last, b);
    } else {
      assert b == last && a == Dedup(init)[i];
      assert a in init;
      FirstIndexSnoc(init, last, a);
      FirstIndexSnoc(init, last, b);
    }
  }

  /** The path of the last entry for `digest`, if any. */
  function LastPath(es: seq<Entry>, digest: string): (r: Option<string>)
    ensures r.None? <==> forall k :: 0 <= k < |es| ==> es[k].0 != digest
    decreases |es|
  {
    if es == [] then None
    else if es[|es| - 1].0 == digest then Some(es[|es| - 1].1)
    else
      var init := es[..|es| - 1];
      assert forall k :: 0 <= k < |init| ==> init[k] == es[k];
      LastPath(init, digest)
  }

  /** The last path is that of a line carrying the digest with no later
      line carrying it: a later line overwrites an earlier one. */
  lemma {:induction false} LastPathIsLast(es: seq<Entry>, digest: string)
    requires LastPath(es, digest).Some?
    ensures exists k ::
      (0 <= k < |es| && es[k] == (digest, LastPath(es, digest).value)
       && (forall j :: k < j < |es| ==> es[j].0 != digest))
    decreases |es|
  {
    var n := |es| - 1;
    if es[n].0 == digest {
      assert es[n] == (digest, LastPath(es, digest).value);
    } else {
      var init := es[..n];
      LastPathIsLast(init, digest);
      var k :| 0 <= k < |init| && init[k] == (digest, LastPath(init, digest).value)
        && (forall j :: k < j < |init| ==> init[j].0 != digest);
      assert es[k] == init[k];
      assert forall j :: k < j < n ==> es[j] == init[j];
    }
  }

  lemma DigestsSnoc(es: seq<Entry>, e: Entry)
    ensures Digests(es + [e]) == Digests(es) + [e.0]
  {
  }

  // ---------------------------------------------------------------------
  // What the dict ends up holding.

  lemma RecordWellFormed(t: Table, arrangement: nat, e: Entry)
    requires arrangement < 2 && WellFormed(t)
    ensures WellFormed(Record(t, arrangement, e))
  {
    var t' := Record(t, arrangement, e);
    if e.0 !in t.entries {
      assert e.0 !in t.digests;
      forall i, j | 0 <= i < j < |t'.digests| ensures t'.digests[i] != t'.digests[j] {
        if j == |t.digests| { assert t'.digests[i] == t.digests[i] && t.digests[i] in t.digests; }
      }
    }
  }

  lemma {:induction false} RecordAllWellFormed(t: Table, arrangement: nat, es: seq<Entry>)
    requires arrangement < 2 && WellFormed(t)
    ensures WellFormed(RecordAll(t, arrangement, es))
    decreases |es|
  {
    if es != [] {
      RecordAllWellFormed(t, arrangement, es[..|es| - 1]);
      RecordWellFormed(RecordAll(t, arrangement, es[..|es| - 1]), arrangement, es[|es| - 1]);
    }
  }

  /** Reading more lines extends the key order by the digests seen for the
      first time, in the order they are first seen. */
  lemma {:induction false} RecordAllDigests(t: Table, arrangement: nat, es: seq<Entry>, seen: seq<string>)
    requires arrangement < 2 && WellFormed(t) && t.digests == Dedup(seen)
    ensures RecordAll(t, arrangement, es).digests == Dedup(seen + Digests(es))
    decreases |es|
  {
    if es == [] {
      assert seen + Digests(es) == seen;
    } else {
      var init, e := es[..|es| - 1], es[|es| - 1];
      assert es == init + [e];
      RecordAllDigests(t, arrangement, init, seen);
      RecordAllWellFormed(t, arrangement, init);
      var x := seen + Digests(init);
      DigestsSnoc(init, e);
      assert seen + Digests(es) == x + [e.0];
      assert (x + [e.0])[..|x|] == x;
    }
  }

  /** For every digest: it is in the table after reading `es` exactly when
      it was before or occurs in `es`; its path in the arrangement being read
      is its last path in `es` (a later line overwrites an earlier one), or
      what it was; its path in the other arrangement is untouched. */
  lemma {:induction false} RecordAllLocations(t: Table, arrangement: nat, es: seq<Entry>, d: string)
    requires arrangement < 2
    ensures var t' := RecordAll(t, arrangement, es);
      && (d in t'.entries <==> d in t.entries || d in Digests(es))
      && (d in t'.entries ==>
            && t'.entries[d].At(arrangement) ==
                 (if LastPath(es, d).Some? then LastPath(es, d)
                  else if d in t.entries then t.entries[d].At(arrangement) else None)
            && t'.entries[d].At(1 - arrangement) ==
                 (if d in t.entries then t.entries[d].At(1 - arrangement) else None))
    decreases |es|
  {
    if es != [] {
      var init, e := es[..|es| - 1], es[|es| - 1];
      assert es == init + [e];
      DigestsSnoc(init, e);
      RecordAllLocations(t, arrangement, init, d);
    }
  }

  /** The table `_generate_declaration` builds, described without reference
      to how it is built: one entry per distinct digest of the two
      manifests, keyed in order of first appearance with the initial manifest
      scanned first; each entry's initial and final path are the paths of the
      last line carrying that digest in the initial and the final manifest. */
  lemma CollectTable(before: seq<string>, after: seq<string>)
    requires Collect(before, after).Ok?
    ensures var t := Collect(before, after).value;
      var e0, e1 := Values(ParseAll(before)), Values(ParseAll(after));
      && WellFormed(t)
      && t.digests == Dedup(Digests(e0) + Digests(e1))
      && (forall d :: d in t.entries ==>
            t.entries[d].initial == LastPath(e0, d) && t.entries[d].final == LastPath(e1, d))
  {
    CollectOk(before, after);
    var e0, e1 := Values(ParseAll(before)), Values(ParseAll(after));
    var t0 := RecordAll(EmptyTable, 0, e0);
    var t := RecordAll(t0, 1, e1);
    RecordAllWellFormed(EmptyTable, 0, e0);
    RecordAllWellFormed(t0, 1, e1);
    RecordAllDigests(EmptyTable, 0, e0, []);
    assert [] + Digests(e0) == Digests(e0);
    RecordAllDigests(t0, 1, e1, Digests(e0));
    forall d | d in t.entries
      ensures t.entries[d].initial == LastPath(e0, d) && t.entries[d].final == LastPath(e1, d)
    {
      BothLocations(e0, e1, d);
    }
  }

  lemma CollectOk(before: seq<string>, after: seq<string>)
    requires Collect(before, after).Ok?
    ensures AllOk(ParseAll(before)) && AllOk(ParseAll(after))
    ensures Collect(before, after).value
         == RecordAll(RecordAll(EmptyTable, 0, Values(ParseAll(before))), 1, Values(ParseAll(after)))
  {
    var rb, ra := ParseAll(before), ParseAll(after);
    assert FirstErr(rb).None? && FirstErr(ra).None?;
    assert ReadUpTo(before, after, 1) == RecordAll(EmptyTable, 0, Values(rb));
  }

  /** One digest's paths after both manifests were read. */
  lemma BothLocations(e0: seq<Entry>, e1: seq<Entry>, d: string)
    requires d in RecordAll(RecordAll(EmptyTable, 0, e0), 1, e1).entries
    ensures var l := RecordAll(RecordAll(EmptyTable, 0, e0), 1, e1).entries[d];
      l.initial == LastPath(e0, d) && l.final == LastPath(e1, d)
  {
    var t0 := RecordAll(EmptyTable, 0, e0);
    RecordAllLocations(EmptyTable, 0, e0, d);
    RecordAllLocations(t0, 1, e1, d);
    if d !in t0.entries {
      assert d !in Digests(e0);
    }
  }

  /** The code raises exactly when some line of either manifest does not
      split into digest and path. */
  lemma CollectFails(before: seq<string>, after: seq<string>)
    ensures Collect(before, after).Err? <==>
      exists line :: (line in before || line in after) && ParseLine(line).Err?
  {
    if Collect(before, after).Err? {
      var rb, ra := ParseAll(before), ParseAll(after);
      if FirstErr(rb).Some? {
        var i := FirstErr(rb).value;
        assert before[i] in before && ParseLine(before[i]).Err?;
      } else {
        var i := FirstErr(ra).value;
        assert after[i] in after && ParseLine(after[i]).Err?;
      }
    } else {
      forall line | line in before || line in after ensures ParseLine(line).Ok? {
        if line in before {
          var k :| 0 <= k < |before| && before[k] == line;
          assert ParseAll(before)[k].Ok?;
        } else {
          var k :| 0 <= k < |after| && after[k] == line;
          assert ParseAll(after)[k].Ok?;
        }
      }
    }
  }

  // ---------------------------------------------------------------------
  // The composition fingerprint.

  /** `sha256("".join(sorted(digests)))`, the hash given as a parameter. */
  function Fingerprint(sha256: string -> string, digests: seq<string>): string {
    sha256(Join(Sort(digests), ""))
  }

  lemma {:induction false} NoDupCount(s: seq<string>, x: string)
    requires NoDup(s)
    ensures multiset(s)[x] == if x in s then 1 else 0
    decreases |s|
  {
    if s != [] {
      assert s == [s[0]] + s[1..];
      assert NoDup(s[1..]) by {
        forall i, j | 0 <= i < j < |s[1..]| ensures s[1..][i] != s[1..][j] {
          assert s[1..][i] == s[i + 1] && s[1..][j] == s[j + 1];
        }
      }
      NoDupCount(s[1..], x);
      if x == s[0] {
        forall k | 0 <= k < |s[1..]| ensures s[1..][k] != x { assert s[1..][k] == s[k + 1]; }
      }
    }
  }

  /** The fingerprint of a duplicate-free digest list depends only on the
      set of digests in it, not on their order. */
  lemma FingerprintDependsOnlyOnSet(sha256: string -> string, a: seq<string>, b: seq<string>)
    requires NoDup(a) && NoDup(b) && forall x :: x in a <==> x in b
    ensures Fingerprint(sha256, a) == Fingerprint(sha256, b)
  {
    forall x ensures multiset(a)[x] == multiset(b)[x] {
      NoDupCount(a, x);
      NoDupCount(b, x);
    }
    assert multiset(a) == multiset(b);
    SortDependsOnlyOnMultiset(a, b);
  }

  /** Some line of `lines` parses and carries digest `d`. */
  ghost predicate CarriedBy(lines: seq<string>, d: string) {
    exists line :: line in lines && ParseLine(line).Ok? && ParseLine(line).value.0 == d
  }

  /** The digests that some line of the two manifests carries. */
  ghost predicate Carries(before: seq<string>, after: seq<string>, d: string) {
    CarriedBy(before, d) || CarriedBy(after, d)
  }

  /** The digest column of a manifest that parses lists exactly the digests
      its lines carry. */
  lemma DigestsCarried(lines: seq<string>, d: string)
    requires AllOk(ParseAll(lines))
    ensures d in Digests(Values(ParseAll(lines))) <==> CarriedBy(lines, d)
  {
    var rs := ParseAll(lines);
    var ds := Digests(Values(rs));
    if d in ds {
      var k :| 0 <= k < |ds| && ds[k] == d;
      assert rs[k] == ParseLine(lines[k]);
      assert lines[k] in lines;
    }
    if CarriedBy(lines, d) {
      var line :| line in lines && ParseLine(line).Ok? && ParseLine(line).value.0 == d;
      var k :| 0 <= k < |lines| && lines[k] == line;
      assert rs[k] == ParseLine(line);
      assert ds[k] == d;
    }
  }

  lemma CarriesDigests(before: seq<string>, after: seq<string>, d: string)
    requires AllOk(ParseAll(before)) && AllOk(ParseAll(after))
    ensures d in Digests(Values(ParseAll(before))) + Digests(Values(ParseAll(after)))
      <==> Carries(before, after, d)
  {
    DigestsCarried(before, d);
    DigestsCarried(after, d);
  }

  /** Two pairs of manifests carrying the same digests yield the same
      fingerprint, whatever the order of their lines and whichever
      arrangement each digest belongs to. */
  lemma FingerprintDependsOnlyOnDigests(sha256: string -> string,
                                        before: seq<string>, after: seq<string>,
                                        before': seq<string>, after': seq<string>)
    requires Collect(before, after).Ok? && Collect(before', after').Ok?
    requires forall d :: Carries(before, after, d) <==> Carries(before', after', d)
    ensures Fingerprint(sha256, Collect(before, after).value.digests)
         == Fingerprint(sha256, Collect(before', after').value.digests)
  {
    CollectTable(before, after);
    CollectTable(before', after');
    forall d ensures d in Collect(before, after).value.digests <==> d in Collect(before', after').value.digests {
      CarriesDigests(before, after, d);
      CarriesDigests(before', after', d);
    }
    FingerprintDependsOnlyOnSet(sha256, Collect(before, after).value.digests, Collect(before', after').value.digests);
  }

  lemma CarriedByPermutation(lines: seq<string>, lines': seq<string>, d: string)
    requires multiset(lines) == multiset(lines')
    ensures CarriedBy(lines, d) <==> CarriedBy(lines', d)
  {
    if CarriedBy(lines, d) {
      var line :| line in lines && ParseLine(line).Ok? && ParseLine(line).value.0 == d;
      assert line in multiset(lines');
    }
    if CarriedBy(lines', d) {
      var line :| line in lines' && ParseLine(line).Ok? && ParseLine(line).value.0 == d;
      assert line in multiset(lines);
    }
  }

  /** In particular the fingerprint is unchanged by any reordering of the
      lines of either manifest, which is what makes it independent of the
      order in which the file system lists the files. */
  lemma FingerprintIgnoresLineOrder(sha256: string -> string,
                                    before: seq<string>, after: seq<string>,
                                    before': seq<string>, after': seq<string>)
    requires multiset(before) == multiset(before') && multiset(after) == multiset(after')
    requires Collect(before, after).Ok?
    ensures Collect(before', after').Ok?
    ensures Fingerprint(sha256, Collect(before, after).value.digests)
         == Fingerprint(sha256, Collect(before', after').value.digests)
  {
    CollectFails(before, after);
    CollectFails(before', after');
    forall line | line in before' || line in after' ensures ParseLine(line).Ok? {
      assert line in multiset(before') || line in multiset(after');
    }
    forall d ensures Carries(before, after, d) <==> Carries(before', after', d) {
      CarriedByPermutation(before, before', d);
      CarriedByPermutation(after, after', d);
    }
    FingerprintDependsOnlyOnDigests(sha256, before, after, before', after');
  }
}
