/** `_generate_declaration` (trace_poc/server.py): the TRO declaration built
    from the artifact table. The artifact list (`hasArtifacts`), the
    composition fingerprint over its digests, one locus list per
    arrangement, and the fixed references of the performance node. */
module Declaration {
  import opened Wrappers
  import opened Strings
  import opened Manifest
  import opened Composition

  const ServerId: string := "https://server.trace-poc.xyz/"
  const DefaultMimeType: string := "application/octet-stream"
  /** The bag's payload directory, which every manifest path starts with. */
  const DataPrefix: string := "data/"

  /** The collaborators the declaration is computed with, none of whose
      bit-level behaviour matters here: hashlib.sha256 of a UTF-8 string as a
      hex digest, uuid.uuid5(NAMESPACE_URL, url) as text, python-magic's mime
      sniffing of a file (None or "" when it has no answer), and the armoured
      public key gpg exports. */
  datatype Oracles = Oracles(
    sha256: string -> string,
    uuid5Url: string -> string,
    mimeOf: string -> Option<string>,
    publicKey: string)

  datatype Artifact = Artifact(id: string, mimeType: string, sha256: string)

  /** One `trov:ArtifactLocus`: its id, the id of the artifact it holds, and
      the artifact's location relative to the bag's payload directory. */
  datatype Locus = Locus(id: string, artifact: string, location: string)

  datatype Arrangement = Arrangement(id: string, comment: string, loci: seq<Locus>)

  /** The parts of the declaration that vary from run to run; the fixed
      nodes (capability, attributes, types, comments) are not represented. */
  datatype Declaration = Declaration(
    base: string,
    publicKey: string,
    fingerprint: string,
    artifacts: seq<Artifact>,
    arrangements: seq<Arrangement>,
    startedAt: string,
    endedAt: string,
    accessedArrangement: string,
    modifiedArrangement: string)

  function ArtifactId(n: nat): string {
    "composition/1/artifact/" + NatToString(n)
  }

  function ArrangementId(n: nat): string {
    "arrangement/" + NatToString(n)
  }

  function LocusId(arrangement: nat, n: nat): string {
    ArrangementId(arrangement) + "/locus/" + NatToString(n)
  }

  lemma ArtifactIdInjective(a: nat, b: nat)
    requires ArtifactId(a) == ArtifactId(b)
    ensures a == b
  {
    var p := "composition/1/artifact/";
    assert ArtifactId(a)[|p|..] == NatToString(a);
    assert ArtifactId(b)[|p|..] == NatToString(b);
    NatToStringInjective(a, b);
  }

  /** The `@base` of the declaration's context: a name-based uuid of the
      URL the result archive will have. */
  function Base(uuid5Url: string -> string, zipname: string): string {
    "arcp://uuid," + uuid5Url(ServerId + zipname + "_run.zip") + "/"
  }

  /** `path[5:]`: the recorded path without the bag's `data/` prefix. */
  function Location(path: string): (loc: string)
    ensures |path| >= |DataPrefix| ==> path == path[..|DataPrefix|] + loc
    ensures |path| < |DataPrefix| ==> loc == ""
  {
    if |path| >= |DataPrefix| then path[|DataPrefix|..] else ""
  }

  /** For a path under the payload directory, the prefix is all that is dropped. */
  lemma LocationUnderData(rel: string)
    ensures Location(DataPrefix + rel) == rel
  {
    assert (DataPrefix + rel)[|DataPrefix|..] == rel;
  }

  /** `magic_wrapper.from_file(...) or "application/octet-stream"`. */
  function MimeOrDefault(answer: Option<string>): (m: string)
    ensures m != ""
    ensures answer.Some? && answer.value != "" ==> m == answer.value
    ensures !(answer.Some? && answer.value != "") ==> m == DefaultMimeType
  {
    if answer.Some? && answer.value != "" then answer.value else DefaultMimeType
  }

  // ---------------------------------------------------------------------
  // Which file is sniffed for an artifact's mime type.

  /** As written: `f"{root}/{list(artifacts[digest].values())[0]}"`, where
      `root` is the loop variable left over from reading the manifests,
      which is always the final bag. */
  function MimeLookupAsWritten(bagAfter: string, l: Locations): string
    requires l.NonEmpty()
  {
    bagAfter + "/" + l.FirstPath()
  }


  /** Corrected: the file sniffed is the first recorded path, in the bag of
      the arrangement that recorded it. */
  function MimeLookup(bagBefore: string, bagAfter: string, l: Locations): (file: string)
    requires l.NonEmpty()
    ensures (l.initial.Some? && file == bagBefore + "/" + l.initial.value)
         || (l.final.Some? && file == bagAfter + "/" + l.final.value)
  {
    if l.initial.Some? then bagBefore + "/" + l.initial.value else bagAfter + "/" + l.final.value
  }

  // ---------------------------------------------------------------------
  // The artifact list.

  /** `hasArtifacts`: one artifact per key of the table, numbered in key
      order, its mime type sniffed as written, under the final bag. */
  function Artifacts(o: Oracles, bagBefore: string, bagAfter: string, t: Table): (arts: seq<Artifact>)
    requires WellFormed(t)
    ensures |arts| == |t.digests|
  {
    seq(|t.digests|, i requires 0 <= i < |t.digests| =>
      Artifact(ArtifactId(i),
               MimeOrDefault(o.mimeOf(MimeLookupAsWritten(bagAfter, t.entries[t.digests[i]]))),
               t.digests[i]))
  }

  /** The artifact list with the corrected lookup: each file is sniffed in
      the bag of the arrangement whose path is used. */
  function ArtifactsFixed(o: Oracles, bagBefore: string, bagAfter: string, t: Table): (arts: seq<Artifact>)
    requires WellFormed(t)
    ensures |arts| == |t.digests|
  {
    seq(|t.digests|, i requires 0 <= i < |t.digests| =>
      Artifact(ArtifactId(i),
               MimeOrDefault(o.mimeOf(MimeLookup(bagBefore, bagAfter, t.entries[t.digests[i]]))),
               t.digests[i]))
  }

  /** `[art["trov:sha256"] for art in hasArtifacts]`. */
  function DigestsOf(arts: seq<Artifact>): (ds: seq<string>)
    ensures |ds| == |arts| && forall k :: 0 <= k < |arts| ==> ds[k] == arts[k].sha256
  {
    seq(|arts|, k requires 0 <= k < |arts| => arts[k].sha256)
  }

  /** The list holds the table's keys in order under consecutive ids, so no
      two artifacts share an id or a digest. */
  lemma ArtifactsNumbered(o: Oracles, bagBefore: string, bagAfter: string, t: Table)
    requires WellFormed(t)
    ensures var arts := Artifacts(o, bagBefore, bagAfter, t);
      && DigestsOf(arts) == t.digests
      && (forall k :: 0 <= k < |arts| ==> arts[k].id == ArtifactId(k))
      && (forall i, j :: 0 <= i < j < |arts| ==> arts[i].id != arts[j].id && arts[i].sha256 != arts[j].sha256)
  {
    var arts := Artifacts(o, bagBefore, bagAfter, t);
    forall i, j | 0 <= i < j < |arts| ensures arts[i].id != arts[j].id {
      if arts[i].id == arts[j].id { ArtifactIdInjective(i, j); }
    }
  }

  // ---------------------------------------------------------------------
  // The locus lists.

  /** Every artifact of the list has an entry in the table. */
  predicate Covered(t: Table, arts: seq<Artifact>) {
    forall k :: 0 <= k < |arts| ==> arts[k].sha256 in t.entries
  }

  /** `iarr in artifacts[artifact["trov:sha256"]]`. */
  predicate Present(t: Table, a: Artifact, arrangement: nat) {
    a.sha256 in t.entries && t.entries[a.sha256].At(arrangement).Some?
  }

  /** How many artifacts of the list the arrangement holds. */
  function CountPresent(t: Table, arts: seq<Artifact>, arrangement: nat): (n: nat)
    ensures n <= |arts|
    decreases |arts|
  {
    if arts == [] then 0
    else CountPresent(t, arts[..|arts| - 1], arrangement)
         + (if Present(t, arts[|arts| - 1], arrangement) then 1 else 0)
  }

  /** The locus list of one arrangement: the artifacts it holds, in
      artifact order, numbered from 0. */
  function Loci(t: Table, arts: seq<Artifact>, arrangement: nat): seq<Locus>
    requires Covered(t, arts)
    decreases |arts|
  {
    if arts == [] then []
    else
      var prev := Loci(t, arts[..|arts| - 1], arrangement);
      var a := arts[|arts| - 1];
      match t.entries[a.sha256].At(arrangement)
      case None => prev
      case Some(path) => prev + [Locus(LocusId(arrangement, |prev|), a.id, Location(path))]
  }

  /** The list has one locus per held artifact. */
  lemma {:induction false} LociCount(t: Table, arts: seq<Artifact>, arrangement: nat)
    requires Covered(t, arts)
    ensures |Loci(t, arts, arrangement)| == CountPresent(t, arts, arrangement)
    decreases |arts|
  {
    if arts != [] {
      LociCount(t, arts[..|arts| - 1], arrangement);
    }
  }

  /** The k-th locus has id `arrangement/<i>/locus/<k>`. */
  lemma {:induction false} LociNumbered(t: Table, arts: seq<Artifact>, arrangement: nat)
    requires Covered(t, arts)
    ensures forall k :: 0 <= k < |Loci(t, arts, arrangement)| ==>
      Loci(t, arts, arrangement)[k].id == LocusId(arrangement, k)
    decreases |arts|
  {
    if arts != [] {
      var init, a := arts[..|arts| - 1], arts[|arts| - 1];
      LociNumbered(t, init, arrangement);
      var prev := Loci(t, init, arrangement);
      if t.entries[a.sha256].At(arrangement).Some? {
        var l := Locus(LocusId(arrangement, |prev|), a.id, Location(t.entries[a.sha256].At(arrangement).value));
        assert Loci(t, arts, arrangement) == prev + [l];
        forall k | 0 <= k < |prev| + 1
          ensures (prev + [l])[k].id == LocusId(arrangement, k)
        {
          if k < |prev| {
            assert (prev + [l])[k] == prev[k];
          }
        }
      } else {
        assert Loci(t, arts, arrangement) == prev;
      }
    }
  }

  /** Each artifact the arrangement holds has its locus, at the position
      given by how many held artifacts precede it, pointing at the artifact's
      id and at its recorded path without the `data/` prefix. */
  lemma {:induction false} LociHoldEveryPresent(t: Table, arts: seq<Artifact>, arrangement: nat, j: nat)
    requires Covered(t, arts) && j < |arts| && Present(t, arts[j], arrangement)
    ensures var k := CountPresent(t, arts[..j], arrangement);
      && k < |Loci(t, arts, arrangement)|
      && Loci(t, arts, arrangement)[k] == Locus(LocusId(arrangement, k), arts[j].id,
                                                 Location(t.entries[arts[j].sha256].At(arrangement).value))
    decreases |arts|
  {
    var init := arts[..|arts| - 1];
    LociCount(t, init, arrangement);
    if j < |init| {
      assert init[..j] == arts[..j] && init[j] == arts[j];
      LociHoldEveryPresent(t, init, arrangement, j);
    } else {
      assert arts[..j] == init;
    }
  }

  /** Each locus comes from an artifact the arrangement holds. */
  lemma {:induction false} LociOnlyPresent(t: Table, arts: seq<Artifact>, arrangement: nat, k: nat)
    requires Covered(t, arts) && k < |Loci(t, arts, arrangement)|
    ensures exists j :: 0 <= j < |arts| && Present(t, arts[j], arrangement)
                        && CountPresent(t, arts[..j], arrangement) == k
    decreases |arts|
  {
    var init := arts[..|arts| - 1];
    var prev := Loci(t, init, arrangement);
    LociCount(t, init, arrangement);
    assert |Loci(t, arts, arrangement)| <= |prev| + 1;
    if k < |prev| {
      LociOnlyPresent(t, init, arrangement, k);
      var j :| 0 <= j < |init| && Present(t, init[j], arrangement)
               && CountPresent(t, init[..j], arrangement) == k;
      assert init[..j] == arts[..j] && init[j] == arts[j];
    } else {
      var j := |arts| - 1;
      assert arts[..j] == init;
      assert Present(t, arts[j], arrangement);
    }
  }

  /** Held artifacts further down the list get loci further down: the
      locus list keeps artifact order. */
  lemma {:induction false} CountPresentMonotone(t: Table, arts: seq<Artifact>, arrangement: nat, i: nat, j: nat)
    requires i < j <= |arts| && Present(t, arts[i], arrangement)
    ensures CountPresent(t, arts[..i], arrangement) < CountPresent(t, arts[..j], arrangement)
    decreases j
  {
    var pre := arts[..j];
    assert pre[..j - 1] == arts[..j - 1];
    if i < j - 1 {
      CountPresentMonotone(t, arts, arrangement, i, j - 1);
    }
  }

  /** The loop of `_generate_declaration` that fills one arrangement's
      locus list, counting loci with `iseq`. */
  method BuildLoci(t: Table, arts: seq<Artifact>, arrangement: nat) returns (locus: seq<Locus>)
    requires Covered(t, arts)
    ensures locus == Loci(t, arts, arrangement)
  {
    locus := [];
    var iseq := 0;
    var i := 0;
    while i < |arts|
      invariant 0 <= i <= |arts|
      invariant locus == Loci(t, arts[..i], arrangement) && iseq == |locus|
    {
      var artifact := arts[i];
      assert arts[..i + 1][..i] == arts[..i];
      if t.entries[artifact.sha256].At(arrangement).Some? {
        locus := locus + [Locus(LocusId(arrangement, iseq), artifact.id,
                                Location(t.entries[artifact.sha256].At(arrangement).value))];
        iseq := iseq + 1;
      }
      i := i + 1;
    }
    assert arts[..i] == arts;
  }

  // ---------------------------------------------------------------------
  // The declaration.

  const Comments: seq<string> := ["Initial arrangement", "Final arrangement"]

  /** The declaration for the initial bag's sha256 manifest `before` and the
      final bag's `after`, or the ValueError of the first malformed line. */
  function Declare(o: Oracles, bagAfter: string, bagBefore: string,
                   after: seq<string>, before: seq<string>,
                   zipname: string, startTime: string, endTime: string): Result<Declaration, ManifestError>
  {
    match Collect(before, after)
    case Err(e) => Err(e)
    case Ok(t) =>
      CollectTable(before, after);
      Ok(Assemble(o, bagAfter, bagBefore, t, zipname, startTime, endTime))
  }

  /** Arrangement `k` of the declaration: 0 the initial bag, 1 the final one. */
  function ArrangementOf(t: Table, arts: seq<Artifact>, k: nat): Arrangement
    requires Covered(t, arts) && k < 2
  {
    Arrangement(ArrangementId(k), Comments[k], Loci(t, arts, k))
  }

  /** The declaration built from a table that was read successfully. */
  function Assemble(o: Oracles, bagAfter: string, bagBefore: string, t: Table,
                    zipname: string, startTime: string, endTime: string): Declaration
    requires WellFormed(t)
  {
    var arts := Artifacts(o, bagBefore, bagAfter, t);
    Declaration(
      Base(o.uuid5Url, zipname),
      o.publicKey,
      Fingerprint(o.sha256, DigestsOf(arts)),
      arts,
      [ArrangementOf(t, arts, 0), ArrangementOf(t, arts, 1)],
      startTime, endTime,
      ArrangementId(0), ArrangementId(1))
  }

  /** A declaration that was produced is the one assembled from the table. */
  lemma DeclareOk(o: Oracles, bagAfter: string, bagBefore: string,
                  after: seq<string>, before: seq<string>,
                  zipname: string, startTime: string, endTime: string)
    requires Declare(o, bagAfter, bagBefore, after, before, zipname, startTime, endTime).Ok?
    ensures Collect(before, after).Ok? && WellFormed(Collect(before, after).value)
    ensures AllOk(ParseAll(before)) && AllOk(ParseAll(after))
    ensures Declare(o, bagAfter, bagBefore, after, before, zipname, startTime, endTime).value
         == Assemble(o, bagAfter, bagBefore, Collect(before, after).value, zipname, startTime, endTime)
  {
    CollectOk(before, after);
    CollectTable(before, after);
  }

  /** `_generate_declaration`: read both manifests into the table, then
      assemble the declaration from it. */
  method GenerateDeclaration(o: Oracles, bagAfter: string, bagBefore: string,
                             after: seq<string>, before: seq<string>,
                             zipname: string, startTime: string, endTime: string)
    returns (r: Result<Declaration, ManifestError>)
    ensures r == Declare(o, bagAfter, bagBefore, after, before, zipname, startTime, endTime)
  {
    var collected := CollectArtifacts(before, after);
    if collected.Err? {
      return Err(collected.error);
    }
    CollectTable(before, after);
    var declaration := AssembleDeclaration(o, bagAfter, bagBefore, collected.value, zipname, startTime, endTime);
    return Ok(declaration);
  }

  /** The rest of `_generate_declaration`: list the artifacts, fingerprint
      them, then build the two locus lists one after the other. */
  method AssembleDeclaration(o: Oracles, bagAfter: string, bagBefore: string, t: Table,
                             zipname: string, startTime: string, endTime: string)
    returns (d: Declaration)
    requires WellFormed(t)
    ensures d == Assemble(o, bagAfter, bagBefore, t, zipname, startTime, endTime)
  {
    var base := Base(o.uuid5Url, zipname);
    var hasArtifacts := Artifacts(o, bagBefore, bagAfter, t);
    var fingerprint := Fingerprint(o.sha256, DigestsOf(hasArtifacts));
    var arrangements: seq<Arrangement> := [];
    var iarr := 0;
    while iarr < 2
      invariant 0 <= iarr <= 2 && |arrangements| == iarr
      invariant forall k :: 0 <= k < iarr ==> arrangements[k] == ArrangementOf(t, hasArtifacts, k)
    {
      var locus := BuildLoci(t, hasArtifacts, iarr);
      arrangements := arrangements + [Arrangement(ArrangementId(iarr), Comments[iarr], locus)];
      iarr := iarr + 1;
    }
    assert arrangements == [ArrangementOf(t, hasArtifacts, 0), ArrangementOf(t, hasArtifacts, 1)];
    d := Declaration(base, o.publicKey, fingerprint, hasArtifacts, arrangements,
                     startTime, endTime, ArrangementId(0), ArrangementId(1));
  }

  /** The `@base` names the result archive only: two declarations produced
      under the same archive name share it, whatever their manifests. */
  lemma DeclareBaseNamesArchive(o: Oracles, bagAfter: string, bagBefore: string,
                                after: seq<string>, before: seq<string>,
                                after': seq<string>, before': seq<string>,
                                zipname: string, startTime: string, endTime: string)
    requires Declare(o, bagAfter, bagBefore, after, before, zipname, startTime, endTime).Ok?
    requires Declare(o, bagAfter, bagBefore, after', before', zipname, startTime, endTime).Ok?
    ensures Declare(o, bagAfter, bagBefore, after, before, zipname, startTime, endTime).value.base
         == Declare(o, bagAfter, bagBefore, after', before', zipname, startTime, endTime).value.base
         == Base(o.uuid5Url, zipname)
  {
  }

  /** No declaration is produced exactly when some line of either manifest
      does not split into a digest and a path. */
  lemma DeclareFails(o: Oracles, bagAfter: string, bagBefore: string,
                     after: seq<string>, before: seq<string>,
                     zipname: string, startTime: string, endTime: string)
    ensures Declare(o, bagAfter, bagBefore, after, before, zipname, startTime, endTime).Err? <==>
      exists line :: (line in before || line in after) && ParseLine(line).Err?
  {
    CollectFails(before, after);
  }

  /** The (digest, path) pairs of a manifest that parses. */
  function Entries(lines: seq<string>): seq<Entry>
    requires AllOk(ParseAll(lines))
  {
    Values(ParseAll(lines))
  }

  /** The composition lists each distinct digest of the two manifests once,
      in order of first appearance (initial manifest first), under the ids
      composition/1/artifact/0, 1, ... */
  lemma DeclareArtifacts(o: Oracles, bagAfter: string, bagBefore: string,
                         after: seq<string>, before: seq<string>,
                         zipname: string, startTime: string, endTime: string)
    requires Declare(o, bagAfter, bagBefore, after, before, zipname, startTime, endTime).Ok?
    ensures AllOk(ParseAll(before)) && AllOk(ParseAll(after))
    ensures var d := Declare(o, bagAfter, bagBefore, after, before, zipname, startTime, endTime).value;
      && DigestsOf(d.artifacts) == Dedup(Digests(Entries(before)) + Digests(Entries(after)))
      && (forall k :: 0 <= k < |d.artifacts| ==> d.artifacts[k].id == ArtifactId(k))
      && (forall i, j :: 0 <= i < j < |d.artifacts| ==>
            d.artifacts[i].id != d.artifacts[j].id && d.artifacts[i].sha256 != d.artifacts[j].sha256)
      && d.fingerprint == Fingerprint(o.sha256, DigestsOf(d.artifacts))
  {
    DeclareOk(o, bagAfter, bagBefore, after, before, zipname, startTime, endTime);
    CollectTable(before, after);
    ArtifactsNumbered(o, bagBefore, bagAfter, Collect(before, after).value);
  }

  /** Reordering the lines of either manifest leaves the composition
      fingerprint unchanged. */
  lemma DeclareFingerprintIgnoresLineOrder(o: Oracles, bagAfter: string, bagBefore: string,
                                           after: seq<string>, before: seq<string>,
                                           after': seq<string>, before': seq<string>,
                                           zipname: string, startTime: string, endTime: string)
    requires multiset(before) == multiset(before') && multiset(after) == multiset(after')
    requires Declare(o, bagAfter, bagBefore, after, before, zipname, startTime, endTime).Ok?
    ensures Declare(o, bagAfter, bagBefore, after', before', zipname, startTime, endTime).Ok?
    ensures Declare(o, bagAfter, bagBefore, after, before, zipname, startTime, endTime).value.fingerprint
         == Declare(o, bagAfter, bagBefore, after', before', zipname, startTime, endTime).value.fingerprint
  {
    FingerprintIgnoresLineOrder(o.sha256, before, after, before', after');
    DeclareOk(o, bagAfter, bagBefore, after, before, zipname, startTime, endTime);
    CollectTable(before', after');
    DeclareOk(o, bagAfter, bagBefore, after', before', zipname, startTime, endTime);
    ArtifactsNumbered(o, bagBefore, bagAfter, Collect(before, after).value);
    ArtifactsNumbered(o, bagBefore, bagAfter, Collect(before', after').value);
  }

  /** The path the table holds for digest `d` in arrangement `a`: that of the
      last line of that arrangement's manifest carrying `d`. */
  function RecordedPath(before: seq<string>, after: seq<string>, a: nat, d: string): Option<string>
    requires AllOk(ParseAll(before)) && AllOk(ParseAll(after))
  {
    if a == 0 then LastPath(Entries(before), d) else LastPath(Entries(after), d)
  }

  /** The table behind a declaration holds, for each digest and arrangement,
      the recorded path. */
  lemma TablePaths(before: seq<string>, after: seq<string>, a: nat, d: string)
    requires a < 2 && Collect(before, after).Ok?
    ensures AllOk(ParseAll(before)) && AllOk(ParseAll(after))
    ensures d in Collect(before, after).value.entries ==>
      Collect(before, after).value.entries[d].At(a) == RecordedPath(before, after, a, d)
  {
    CollectOk(before, after);
    CollectTable(before, after);
  }

  /** The k-th locus of arrangement `a` of an assembled declaration has id
      arrangement/a/locus/k and points at an artifact the arrangement holds,
      at its path without `data/`. */
  lemma AssembleLociRefer(o: Oracles, bagAfter: string, bagBefore: string, t: Table,
                          zipname: string, startTime: string, endTime: string, a: nat, k: nat)
    requires WellFormed(t) && a < 2
    requires k < |Assemble(o, bagAfter, bagBefore, t, zipname, startTime, endTime).arrangements[a].loci|
    ensures var d := Assemble(o, bagAfter, bagBefore, t, zipname, startTime, endTime);
      var l := d.arrangements[a].loci[k];
      && l.id == LocusId(a, k)
      && exists j :: 0 <= j < |d.artifacts| && l.artifact == d.artifacts[j].id
           && d.artifacts[j].sha256 in t.entries && t.entries[d.artifacts[j].sha256].At(a).Some?
           && l.location == Location(t.entries[d.artifacts[j].sha256].At(a).value)
  {
    var arts := Artifacts(o, bagBefore, bagAfter, t);
    var loci := Loci(t, arts, a);
    assert Assemble(o, bagAfter, bagBefore, t, zipname, startTime, endTime).arrangements[a].loci == loci;
    LociNumbered(t, arts, a);
    LociOnlyPresent(t, arts, a, k);
    var j :| 0 <= j < |arts| && Present(t, arts[j], a) && CountPresent(t, arts[..j], a) == k;
    LociHoldEveryPresent(t, arts, a, j);
  }

  /** Referential integrity: the k-th locus of arrangement `a` has id
      arrangement/a/locus/k and points at an artifact of the composition that
      the arrangement holds, at that artifact's recorded path without `data/`. */
  lemma DeclareLociRefer(o: Oracles, bagAfter: string, bagBefore: string,
                         after: seq<string>, before: seq<string>,
                         zipname: string, startTime: string, endTime: string, a: nat, k: nat)
    requires a < 2
    requires Declare(o, bagAfter, bagBefore, after, before, zipname, startTime, endTime).Ok?
    requires k < |Declare(o, bagAfter, bagBefore, after, before, zipname, startTime, endTime).value.arrangements[a].loci|
    ensures AllOk(ParseAll(before)) && AllOk(ParseAll(after))
    ensures var d := Declare(o, bagAfter, bagBefore, after, before, zipname, startTime, endTime).value;
      var l := d.arrangements[a].loci[k];
      && l.id == LocusId(a, k)
      && exists j :: 0 <= j < |d.artifacts| && l.artifact == d.artifacts[j].id
           && RecordedPath(before, after, a, d.artifacts[j].sha256).Some?
           && l.location == Location(RecordedPath(before, after, a, d.artifacts[j].sha256).value)
  {
    DeclareOk(o, bagAfter, bagBefore, after, before, zipname, startTime, endTime);
    var t := Collect(before, after).value;
    var d := Assemble(o, bagAfter, bagBefore, t, zipname, startTime, endTime);
    AssembleLociRefer(o, bagAfter, bagBefore, t, zipname, startTime, endTime, a, k);
    var l := d.arrangements[a].loci[k];
    var j :| 0 <= j < |d.artifacts| && l.artifact == d.artifacts[j].id
             && d.artifacts[j].sha256 in t.entries && t.entries[d.artifacts[j].sha256].At(a).Some?
             && l.location == Location(t.entries[d.artifacts[j].sha256].At(a).value);
    TablePaths(before, after, a, d.artifacts[j].sha256);
  }

  /** Every artifact that arrangement `a` of an assembled declaration holds
      has a locus in it, at its path without `data/`. */
  lemma AssembleLociComplete(o: Oracles, bagAfter: string, bagBefore: string, t: Table,
                             zipname: string, startTime: string, endTime: string, a: nat, i: nat)
    requires WellFormed(t) && a < 2
    requires i < |Assemble(o, bagAfter, bagBefore, t, zipname, startTime, endTime).artifacts|
    ensures var d := Assemble(o, bagAfter, bagBefore, t, zipname, startTime, endTime);
      var loci := d.arrangements[a].loci;
      var p := t.entries[d.artifacts[i].sha256].At(a);
      p.Some? ==>
        exists k :: 0 <= k < |loci| && loci[k].artifact == d.artifacts[i].id && loci[k].location == Location(p.value)
  {
    var arts := Artifacts(o, bagBefore, bagAfter, t);
    var loci := Loci(t, arts, a);
    assert Assemble(o, bagAfter, bagBefore, t, zipname, startTime, endTime).arrangements[a].loci == loci;
    if Present(t, arts[i], a) {
      LociHoldEveryPresent(t, arts, a, i);
      var k := CountPresent(t, arts[..i], a);
      assert loci[k].artifact == arts[i].id;
    }
  }

  /** Of two artifacts that arrangement `a` of an assembled declaration
      holds, the earlier one has the earlier locus. */
  lemma AssembleLociOrdered(o: Oracles, bagAfter: string, bagBefore: string, t: Table,
                            zipname: string, startTime: string, endTime: string, a: nat, i: nat, j: nat)
    requires WellFormed(t) && a < 2
    requires i < j < |Assemble(o, bagAfter, bagBefore, t, zipname, startTime, endTime).artifacts|
    ensures var d := Assemble(o, bagAfter, bagBefore, t, zipname, startTime, endTime);
      var loci := d.arrangements[a].loci;
      t.entries[d.artifacts[i].sha256].At(a).Some? && t.entries[d.artifacts[j].sha256].At(a).Some? ==>
        exists k, k' :: 0 <= k < k' < |loci| && loci[k].artifact == d.artifacts[i].id
                        && loci[k'].artifact == d.artifacts[j].id
  {
    var arts := Artifacts(o, bagBefore, bagAfter, t);
    var loci := Loci(t, arts, a);
    assert Assemble(o, bagAfter, bagBefore, t, zipname, startTime, endTime).arrangements[a].loci == loci;
    if Present(t, arts[i], a) && Present(t, arts[j], a) {
      LociHoldEveryPresent(t, arts, a, i);
      LociHoldEveryPresent(t, arts, a, j);
      CountPresentMonotone(t, arts, a, i, j);
      var k, k' := CountPresent(t, arts[..i], a), CountPresent(t, arts[..j], a);
      assert k < k' < |loci| && loci[k].artifact == arts[i].id && loci[k'].artifact == arts[j].id;
    }
  }

  /** Completeness: every artifact that arrangement `a` holds has a locus in
      it, at the path its manifest recorded without `data/`. */
  lemma DeclareLociComplete(o: Oracles, bagAfter: string, bagBefore: string,
                            after: seq<string>, before: seq<string>,
                            zipname: string, startTime: string, endTime: string, a: nat, i: nat)
    requires a < 2
    requires Declare(o, bagAfter, bagBefore, after, before, zipname, startTime, endTime).Ok?
    requires i < |Declare(o, bagAfter, bagBefore, after, before, zipname, startTime, endTime).value.artifacts|
    ensures AllOk(ParseAll(before)) && AllOk(ParseAll(after))
    ensures var d := Declare(o, bagAfter, bagBefore, after, before, zipname, startTime, endTime).value;
      var loci := d.arrangements[a].loci;
      var p := RecordedPath(before, after, a, d.artifacts[i].sha256);
      p.Some? ==>
        exists k :: 0 <= k < |loci| && loci[k].artifact == d.artifacts[i].id && loci[k].location == Location(p.value)
  {
    DeclareOk(o, bagAfter, bagBefore, after, before, zipname, startTime, endTime);
    var t := Collect(before, after).value;
    var d := Assemble(o, bagAfter, bagBefore, t, zipname, startTime, endTime);
    TablePaths(before, after, a, d.artifacts[i].sha256);
    AssembleLociComplete(o, bagAfter, bagBefore, t, zipname, startTime, endTime, a, i);
  }

  /** Loci follow artifact order: of two artifacts arrangement `a` holds,
      the earlier one has the earlier locus. */
  lemma DeclareLociOrdered(o: Oracles, bagAfter: string, bagBefore: string,
                           after: seq<string>, before: seq<string>,
                           zipname: string, startTime: string, endTime: string, a: nat, i: nat, j: nat)
    requires a < 2
    requires Declare(o, bagAfter, bagBefore, after, before, zipname, startTime, endTime).Ok?
    requires i < j < |Declare(o, bagAfter, bagBefore, after, before, zipname, startTime, endTime).value.artifacts|
    ensures AllOk(ParseAll(before)) && AllOk(ParseAll(after))
    ensures var d := Declare(o, bagAfter, bagBefore, after, before, zipname, startTime, endTime).value;
      var loci := d.arrangements[a].loci;
      RecordedPath(before, after, a, d.artifacts[i].sha256).Some?
        && RecordedPath(before, after, a, d.artifacts[j].sha256).Some? ==>
        exists k, k' :: 0 <= k < k' < |loci| && loci[k].artifact == d.artifacts[i].id
                        && loci[k'].artifact == d.artifacts[j].id
  {
    DeclareOk(o, bagAfter, bagBefore, after, before, zipname, startTime, endTime);
    var t := Collect(before, after).value;
    var d := Assemble(o, bagAfter, bagBefore, t, zipname, startTime, endTime);
    TablePaths(before, after, a, d.artifacts[i].sha256);
    TablePaths(before, after, a, d.artifacts[j].sha256);
    AssembleLociOrdered(o, bagAfter, bagBefore, t, zipname, startTime, endTime, a, i, j);
  }

  // ---------------------------------------------------------------------
  // Which bag the mime type is sniffed in.

  /** As written, every artifact is sniffed in the final bag, at its initial
      path when it has one: a file the run deleted or moved is looked up
      where the final manifest does not record it. */
  lemma DeclareSniffsFinalBag(o: Oracles, bagAfter: string, bagBefore: string,
                              after: seq<string>, before: seq<string>,
                              zipname: string, startTime: string, endTime: string, k: nat)
    requires Declare(o, bagAfter, bagBefore, after, before, zipname, startTime, endTime).Ok?
    requires k < |Declare(o, bagAfter, bagBefore, after, before, zipname, startTime, endTime).value.artifacts|
    ensures AllOk(ParseAll(before)) && AllOk(ParseAll(after))
    ensures var a := Declare(o, bagAfter, bagBefore, after, before, zipname, startTime, endTime).value.artifacts[k];
      var p0, p1 := RecordedPath(before, after, 0, a.sha256), RecordedPath(before, after, 1, a.sha256);
      && (p0.Some? || p1.Some?)
      && a.mimeType == MimeOrDefault(o.mimeOf(bagAfter + "/" + (if p0.Some? then p0.value else p1.value)))
  {
    DeclareOk(o, bagAfter, bagBefore, after, before, zipname, startTime, endTime);
    var t := Collect(before, after).value;
    var a := Artifacts(o, bagBefore, bagAfter, t)[k];
    assert a == Declare(o, bagAfter, bagBefore, after, before, zipname, startTime, endTime).value.artifacts[k];
    TableSniff(t, k);
    var l := t.entries[t.digests[k]];
    assert a.sha256 == t.digests[k];
    assert a.mimeType == MimeOrDefault(o.mimeOf(MimeLookupAsWritten(bagAfter, l)));
    assert MimeLookupAsWritten(bagAfter, l) == bagAfter + "/" + l.FirstPath();
    TablePaths(before, after, 0, a.sha256);
    TablePaths(before, after, 1, a.sha256);
    assert l.At(0) == RecordedPath(before, after, 0, a.sha256);
    assert l.At(1) == RecordedPath(before, after, 1, a.sha256);
  }

  /** An artifact that only the initial manifest carries (a file the run
      deleted) is sniffed at its initial path under the final bag, although
      no line of the final manifest carries its digest. */
  lemma MimeLookupAsWrittenMissesDeleted(o: Oracles, bagAfter: string, bagBefore: string,
                                         after: seq<string>, before: seq<string>,
                                         zipname: string, startTime: string, endTime: string, k: nat)
    requires Declare(o, bagAfter, bagBefore, after, before, zipname, startTime, endTime).Ok?
    requires k < |Declare(o, bagAfter, bagBefore, after, before, zipname, startTime, endTime).value.artifacts|
    ensures AllOk(ParseAll(before)) && AllOk(ParseAll(after))
    ensures var a := Declare(o, bagAfter, bagBefore, after, before, zipname, startTime, endTime).value.artifacts[k];
      var p := LastPath(Entries(before), a.sha256);
      p.Some? && (forall j :: 0 <= j < |Entries(after)| ==> Entries(after)[j].0 != a.sha256) ==>
        a.mimeType == MimeOrDefault(o.mimeOf(bagAfter + "/" + p.value))
  {
    DeclareSniffsFinalBag(o, bagAfter, bagBefore, after, before, zipname, startTime, endTime, k);
  }

  /** The k-th key of a well-formed table has a path, the first one the dict
      recorded for it. */
  lemma TableSniff(t: Table, k: nat)
    requires WellFormed(t) && k < |t.digests|
    ensures t.digests[k] in t.entries && t.entries[t.digests[k]].NonEmpty()
    ensures var l := t.entries[t.digests[k]];
      l.FirstPath() == if l.At(0).Some? then l.At(0).value else l.At(1).value
  {
  }

  /** `_generate_declaration` with the corrected lookup: the same
      declaration, with the mime types of `ArtifactsFixed`. */
  function DeclareFixed(o: Oracles, bagAfter: string, bagBefore: string,
                        after: seq<string>, before: seq<string>,
                        zipname: string, startTime: string, endTime: string): Result<Declaration, ManifestError>
  {
    match Collect(before, after)
    case Err(e) => Err(e)
    case Ok(t) =>
      CollectTable(before, after);
      var d := Assemble(o, bagAfter, bagBefore, t, zipname, startTime, endTime);
      Ok(d.(artifacts := ArtifactsFixed(o, bagBefore, bagAfter, t)))
  }

  /** The correction changes nothing but mime types: it fails exactly when
      the declaration as written fails, and otherwise differs from it only
      in the artifacts' mime types, with the same ids and digests. */
  lemma DeclareFixedAgrees(o: Oracles, bagAfter: string, bagBefore: string,
                           after: seq<string>, before: seq<string>,
                           zipname: string, startTime: string, endTime: string)
    ensures DeclareFixed(o, bagAfter, bagBefore, after, before, zipname, startTime, endTime).Ok?
        <==> Declare(o, bagAfter, bagBefore, after, before, zipname, startTime, endTime).Ok?
    ensures Declare(o, bagAfter, bagBefore, after, before, zipname, startTime, endTime).Ok? ==>
      var d := Declare(o, bagAfter, bagBefore, after, before, zipname, startTime, endTime).value;
      var f := DeclareFixed(o, bagAfter, bagBefore, after, before, zipname, startTime, endTime).value;
      && f.(artifacts := d.artifacts) == d
      && |f.artifacts| == |d.artifacts|
      && forall k :: 0 <= k < |d.artifacts| ==>
           f.artifacts[k].id == d.artifacts[k].id && f.artifacts[k].sha256 == d.artifacts[k].sha256
  {
  }

  /** Corrected: each artifact is sniffed at a path its manifest recorded,
      in the bag of that manifest (the initial one when both record it). */
  lemma DeclareFixedSniffsRecordingBag(o: Oracles, bagAfter: string, bagBefore: string,
                                       after: seq<string>, before: seq<string>,
                                       zipname: string, startTime: string, endTime: string, k: nat)
    requires DeclareFixed(o, bagAfter, bagBefore, after, before, zipname, startTime, endTime).Ok?
    requires k < |DeclareFixed(o, bagAfter, bagBefore, after, before, zipname, startTime, endTime).value.artifacts|
    ensures AllOk(ParseAll(before)) && AllOk(ParseAll(after))
    ensures var a := DeclareFixed(o, bagAfter, bagBefore, after, before, zipname, startTime, endTime).value.artifacts[k];
      var p0, p1 := RecordedPath(before, after, 0, a.sha256), RecordedPath(before, after, 1, a.sha256);
      && (p0.Some? || p1.Some?)
      && a.mimeType == MimeOrDefault(o.mimeOf(if p0.Some? then bagBefore + "/" + p0.value else bagAfter + "/" + p1.value))
  {
    CollectOk(before, after);
    CollectTable(before, after);
    var t := Collect(before, after).value;
    var a := ArtifactsFixed(o, bagBefore, bagAfter, t)[k];
    assert a == DeclareFixed(o, bagAfter, bagBefore, after, before, zipname, startTime, endTime).value.artifacts[k];
    TableSniff(t, k);
    var l := t.entries[t.digests[k]];
    assert a.sha256 == t.digests[k];
    assert a.mimeType == MimeOrDefault(o.mimeOf(MimeLookup(bagBefore, bagAfter, l)));
    TablePaths(before, after, 0, a.sha256);
    TablePaths(before, after, 1, a.sha256);
    assert l.At(0) == RecordedPath(before, after, 0, a.sha256);
    assert l.At(1) == RecordedPath(before, after, 1, a.sha256);
  }
}
