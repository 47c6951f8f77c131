/** The string logic of the command-line client trace_poc/cli.py: the
    report `inspect` prints from a result's bag-info.txt, the run id and
    timestamp payload of `verify`, the request `submit` sends, and the four
    files `download` fetches. HTTP, zip files and openssl are left out. */
module Cli {
  import opened Wrappers
  import opened Strings
  import Environment
  import Workflow

  // ---------------------------------------------------------------------
  // inspect

  type Pair = (string, string)

  /** `key, value = line.split(":", 1)`: None when the line has no colon,
      where unpacking the single piece raises ValueError. */
  function SplitKeyValue(line: string): Option<Pair> {
    var parts := Split(line, ":");
    if |parts| == 1 then None else Some((parts[0], Join(parts[1..], ":")))
  }

  /** The line is cut at its first colon: the key holds none, and key,
      colon and value give back the line; only a line without a colon fails. */
  lemma SplitKeyValueSound(line: string)
    ensures SplitKeyValue(line).None? <==> Free(line, ":")
    ensures SplitKeyValue(line).Some? ==>
      var kv := SplitKeyValue(line).value;
      kv.0 + ":" + kv.1 == line && Free(kv.0, ":")
  {
    var parts := Split(line, ":");
    JoinSplit(line, ":");
    SplitPiecesFree(line, ":");
    if Free(line, ":") {
      SplitFree(line, ":");
    }
    if |parts| > 1 {
      assert parts == [parts[0]] + parts[1..];
      JoinCons(parts[0], parts[1..], ":");
    }
  }

  /** A line made of a colon-free key, a colon and any value splits into
      exactly that key and value, colons in the value included. */
  lemma SplitKeyValueAtFirstColon(key: string, value: string)
    requires Free(key, ":")
    ensures SplitKeyValue(key + ":" + value) == Some((key, value))
  {
    var line := key + ":" + value;
    assert OccursAt(line, ":", |key|) by {
      assert line[|key|..|key| + 1] == ":";
    }
    forall j: nat | j < |key| ensures !OccursAt(line, ":", j) {
      assert !OccursAt(key, ":", j);
      assert line[j..j + 1] == key[j..j + 1];
    }
    SplitAt(line, ":", |key|);
    assert line[..|key|] == key && line[|key| + 1..] == value;
    JoinSplit(value, ":");
  }

  /** The bag-info keys `inspect` does not show. */
  predicate Boilerplate(key: string) {
    key == "Bag-Software-Agent" || key == "BagIt-Profile-Identifier" || key == "Payload-Oxum"
  }

  /** What `inspect` prints: the key-value pairs shown, in line order, and
      the line without a colon it stopped at, if any. */
  datatype Report = Report(shown: seq<Pair>, stoppedAt: Option<string>)

  /** What one line adds in front of the report of the lines after it. */
  function ReportLine(line: string, rest: Report): Report {
    match SplitKeyValue(line)
    case None => Report([], Some(line))
    case Some(kv) =>
      if Boilerplate(kv.0) then rest else Report([(kv.0, Strip(kv.1))] + rest.shown, rest.stoppedAt)
  }

  function Inspected(lines: seq<string>): Report
    decreases |lines|
  {
    if lines == [] then Report([], None) else ReportLine(lines[0], Inspected(lines[1..]))
  }

  /** The report of one block of lines followed by another's. */
  function Then(first: Report, second: Report): Report {
    if first.stoppedAt.Some? then first else Report(first.shown + second.shown, second.stoppedAt)
  }

  /** `metadata.decode().strip().split("\n")`. */
  function MetadataLines(metadata: string): seq<string> {
    Split(Strip(metadata), "\n")
  }

  /** `inspect`: report the lines of the stripped bag-info.txt. */
  method Inspect(metadata: string) returns (r: Report)
    ensures r == Inspected(MetadataLines(metadata))
  {
    r := InspectLines(MetadataLines(metadata));
  }

  /** One turn of the loop after the printed pairs so far: a line with a
      colon either is skipped or adds its pair. */
  lemma ReportStep(shown: seq<Pair>, line: string, rest: Report)
    requires SplitKeyValue(line).Some?
    ensures var kv := SplitKeyValue(line).value;
      Then(Report(shown, None), ReportLine(line, rest)) ==
      Then(Report(if Boilerplate(kv.0) then shown else shown + [(kv.0, Strip(kv.1))], None), rest)
  {
    var kv := SplitKeyValue(line).value;
    if !Boilerplate(kv.0) {
      var p := [(kv.0, Strip(kv.1))];
      assert shown + (p + rest.shown) == (shown + p) + rest.shown;
    }
  }

  /** The loop of `inspect`: split each line at its first colon, skip the
      boilerplate keys, print the key with the stripped value. */
  method InspectLines(lines: seq<string>) returns (r: Report)
    ensures r == Inspected(lines)
  {
    var shown: seq<Pair> := [];
    var i := 0;
    while i < |lines|
      invariant 0 <= i <= |lines|
      invariant Inspected(lines) == Then(Report(shown, None), Inspected(lines[i..]))
    {
      assert Inspected(lines[i..]) == ReportLine(lines[i], Inspected(lines[i + 1..])) by {
        assert lines[i..][0] == lines[i] && lines[i..][1..] == lines[i + 1..];
      }
      var kv := SplitKeyValue(lines[i]);
      if kv.None? {
        return Report(shown, Some(lines[i]));
      }
      ReportStep(shown, lines[i], Inspected(lines[i + 1..]));
      var key, value := kv.value.0, kv.value.1;
      i := i + 1;
      if Boilerplate(key) {
        continue;
      }
      shown := shown + [(key, Strip(value))];
    }
    assert lines[i..] == [];
    r := Report(shown, None);
  }

  /** One line of bag-info.txt: a boilerplate key prints nothing, any other
      key prints with its stripped value, and a line without a colon stops
      the command. */
  lemma InspectedLine(key: string, value: string)
    requires Free(key, ":")
    ensures Inspected([key + ":" + value]) ==
      if Boilerplate(key) then Report([], None) else Report([(key, Strip(value))], None)
  {
    SplitKeyValueAtFirstColon(key, value);
    assert [key + ":" + value][1..] == [];
  }

  lemma ReportLineThen(line: string, first: Report, second: Report)
    ensures ReportLine(line, Then(first, second)) == Then(ReportLine(line, first), second)
  {
    match SplitKeyValue(line) {
      case None =>
      case Some(kv) =>
        if !Boilerplate(kv.0) && first.stoppedAt.None? {
          var shown := [(kv.0, Strip(kv.1))];
          assert shown + (first.shown + second.shown) == (shown + first.shown) + second.shown;
        }
    }
  }

  /** The report of two blocks of lines is the first block's, followed by the
      second's unless the first already stopped: lines print in order. */
  lemma {:induction false} InspectedAppend(a: seq<string>, b: seq<string>)
    ensures Inspected(a + b) == Then(Inspected(a), Inspected(b))
    decreases |a|
  {
    if a == [] {
      assert a + b == b;
    } else {
      assert (a + b)[0] == a[0] && (a + b)[1..] == a[1..] + b;
      InspectedAppend(a[1..], b);
      ReportLineThen(a[0], Inspected(a[1..]), Inspected(b));
    }
  }

  /** The command stops exactly at the first line without a colon, and
      reports every line when each has one. */
  lemma {:induction false} InspectedStops(lines: seq<string>)
    ensures Inspected(lines).stoppedAt.None? <==> forall k :: 0 <= k < |lines| ==> !Free(lines[k], ":")
    ensures Inspected(lines).stoppedAt.Some? ==>
      exists k :: 0 <= k < |lines| && lines[k] == Inspected(lines).stoppedAt.value && Free(lines[k], ":")
        && forall j :: 0 <= j < k ==> !Free(lines[j], ":")
    decreases |lines|
  {
    if lines != [] {
      SplitKeyValueSound(lines[0]);
      InspectedStops(lines[1..]);
      if !Free(lines[0], ":") {
        var rest := Inspected(lines[1..]);
        assert Inspected(lines).stoppedAt == rest.stoppedAt;
        if rest.stoppedAt.Some? {
          var k :| 0 <= k < |lines[1..]| && lines[1..][k] == rest.stoppedAt.value && Free(lines[1..][k], ":")
                   && forall j :: 0 <= j < k ==> !Free(lines[1..][j], ":");
          assert lines[k + 1] == lines[1..][k];
          forall j | 0 <= j < k + 1 ensures !Free(lines[j], ":") {
            if j > 0 {
              assert lines[j] == lines[1..][j - 1];
            }
          }
        } else {
          forall k | 0 <= k < |lines| ensures !Free(lines[k], ":") {
            if k > 0 {
              assert lines[k] == lines[1..][k - 1];
            }
          }
        }
      }
    }
  }

  // ---------------------------------------------------------------------
  // verify

  /** `os.path.basename`: what follows the last '/'. */
  function Basename(path: string): string
    decreases |path|
  {
    if path == [] || path[|path| - 1] == '/' then []
    else Basename(path[..|path| - 1]) + [path[|path| - 1]]
  }

  /** The base name is the end of the path after its last '/', or the whole
      path when there is none. */
  lemma {:induction false} BasenameIsLastComponent(path: string)
    ensures var b := Basename(path);
      && |b| <= |path| && b == path[|path| - |b|..] && Free(b, "/")
      && (|b| == |path| || path[|path| - |b| - 1] == '/')
    decreases |path|
  {
    if path != [] && path[|path| - 1] != '/' {
      var init := path[..|path| - 1];
      BasenameIsLastComponent(init);
      var b0 := Basename(init);
      var b := b0 + [path[|path| - 1]];
      assert path == init + [path[|path| - 1]];
      assert b == path[|path| - |b|..];
      FreeOfChar(b0, '/');
      FreeOfChar(b, '/');
      assert forall k :: 0 <= k < |b0| ==> b[k] == b0[k];
      if |b| < |path| {
        assert path[|path| - |b| - 1] == init[|init| - |b0| - 1];
      }
    }
  }

  /** A name without '/' after a directory is its own base name. */
  lemma {:induction false} BasenameAfterSlash(dir: string, name: string)
    requires Free(name, "/")
    ensures Basename(dir + "/" + name) == name
    decreases |name|
  {
    var path := dir + "/" + name;
    if name != [] {
      var init := name[..|name| - 1];
      assert !OccursAt(name, "/", |name| - 1);
      assert name[|name| - 1..] == [name[|name| - 1]];
      forall j: nat | j < |init| ensures !OccursAt(init, "/", j) {
        assert !OccursAt(name, "/", j);
        assert init[j..j + 1] == name[j..j + 1];
      }
      BasenameAfterSlash(dir, init);
      assert path[..|path| - 1] == dir + "/" + init;
      assert name == init + [name[|name| - 1]];
    }
  }

  /** `os.path.basename(path).split("_")[0]`. */
  function RunId(path: string): string {
    Split(Basename(path), "_")[0]
  }

  /** The run id is the base name up to its first '_', or the whole base
      name when it has none. */
  lemma RunIdIsPrefix(path: string)
    ensures var b, r := Basename(path), RunId(path);
      && |r| <= |b| && r == b[..|r|] && Free(r, "_")
      && (|r| == |b| || b[|r|] == '_')
  {
    var b := Basename(path);
    var parts := Split(b, "_");
    SplitHeadPrefix(b, "_");
    SplitPiecesFree(b, "_");
    JoinSplit(b, "_");
    if |parts| > 1 {
      assert parts == [parts[0]] + parts[1..];
      JoinCons(parts[0], parts[1..], "_");
      assert b[|parts[0]|] == (parts[0] + "_" + Join(parts[1..], "_"))[|parts[0]|];
    }
  }

  /** The run archive the server names `<base>_run.zip`, wherever the
      client keeps it, gives back `<base>` as run id when the base name
      has neither '_' nor '/'; the three files `verify` then opens are
      among those the server stores for the run. */
  lemma RunIdOfArchive(dir: string, base: string)
    requires Free(base, "_") && Free(base, "/")
    ensures RunId(dir + "/" + base + "_run.zip") == base
    ensures base + ".jsonld" in Workflow.ResultFiles(base)
    ensures base + ".sig" in Workflow.ResultFiles(base)
    ensures base + ".tsr" in Workflow.ResultFiles(base)
  {
    var name := base + "_run.zip";
    forall j: nat | j < |name| ensures !OccursAt(name, "/", j) {
      if j < |base| {
        assert !OccursAt(base, "/", j);
        assert name[j..j + 1] == base[j..j + 1];
      } else {
        assert name[j] == "_run.zip"[j - |base|];
      }
    }
    assert dir + "/" + base + "_run.zip" == dir + "/" + name;
    BasenameAfterSlash(dir, name);
    assert OccursAt(name, "_", |base|) by {
      assert name[|base|..|base| + 1] == "_";
    }
    forall j: nat | j < |base| ensures !OccursAt(name, "_", j) {
      assert !OccursAt(base, "_", j);
      assert name[j..j + 1] == base[j..j + 1];
    }
    SplitAt(name, "_", |base|);
    assert name[..|base|] == base;
  }

  predicate IsHexDigit(c: char) {
    '0' <= c <= '9' || 'a' <= c <= 'f'
  }

  /** What `hexdigest()` of sha512 returns: 128 lower-case hex digits. */
  predicate HexDigest(s: string) {
    |s| == 128 && forall k :: 0 <= k < |s| ==> IsHexDigit(s[k])
  }

  /** `json.dumps(ts_data)` on the server: keys in insertion order, ", "
      and ": " as separators; hex digits need no escaping. */
  function ServerPayload(declaration: string, signature: string): string
    requires HexDigest(declaration) && HexDigest(signature)
  {
    "{\"tro_declaration\": \"" + declaration + "\", \"trs_signature\": \"" + signature + "\"}"
  }

  /** `json.dumps(ts_data, indent=2, sort_keys=True)` in `verify`: one key
      per line, indented by two spaces, in sorted order. */
  function CanonicalPayload(declaration: string, signature: string): string
    requires HexDigest(declaration) && HexDigest(signature)
  {
    "{\n  \"tro_declaration\": \"" + declaration + "\",\n  \"trs_signature\": \"" + signature + "\"\n}"
  }

  /** The bytes the server has timestamped never equal the bytes `verify`
      checks the timestamp against, whatever the digests. */
  lemma ServerPayloadNeverCanonical(d: string, s: string, d': string, s': string)
    requires HexDigest(d) && HexDigest(s) && HexDigest(d') && HexDigest(s')
    ensures ServerPayload(d, s) != CanonicalPayload(d', s')
  {
    assert ServerPayload(d, s)[1] == '"';
    assert CanonicalPayload(d', s')[1] == '\n';
  }

  /** The payload the server should timestamp: the same canonical form the
      client rebuilds. */
  function TimestampedPayload(declaration: string, signature: string): (p: string)
    requires HexDigest(declaration) && HexDigest(signature)
    ensures |p| == 306 && p[24..152] == declaration && p[175..303] == signature
  {
    var p := CanonicalPayload(declaration, signature);
    assert p == "{\n  \"tro_declaration\": \"" + declaration + "\",\n  \"trs_signature\": \"" + signature + "\"\n}";
    assert |"{\n  \"tro_declaration\": \""| == 24;
    assert |"\",\n  \"trs_signature\": \""| == 23;
    p
  }

  /** With the corrected server, the client's rebuilt payload matches the
      timestamped one exactly when both digests match. */
  lemma TimestampedPayloadMatches(d: string, s: string, d': string, s': string)
    requires HexDigest(d) && HexDigest(s) && HexDigest(d') && HexDigest(s')
    ensures TimestampedPayload(d, s) == CanonicalPayload(d', s') <==> d == d' && s == s'
  {
    var p := TimestampedPayload(d', s');
    assert p == CanonicalPayload(d', s');
    if TimestampedPayload(d, s) == p {
      assert d == p[24..152] == d';
      assert s == p[175..303] == s';
    }
  }

  // ---------------------------------------------------------------------
  // submit

  /** A request the client posts to the server. */
  datatype Request = Request(server: string, params: map<string, string>, uploadsArchive: bool)

  /** How `requests` renders a boolean query parameter. */
  function FlagText(b: bool): string {
    if b then "True" else "False"
  }

  /** `submit`: a path that is not a directory returns 1 and sends nothing;
      otherwise the settings go as query parameters, with the path itself
      when `--direct` is given and the zipped directory otherwise. */
  function Submit(isDirectory: bool, path: string, direct: bool, entrypoint: string,
                  containerUser: string, targetRepoDir: string, traceServer: string,
                  enableNetwork: bool): (r: (int, Option<Request>))
    ensures r.0 == 1 <==> !isDirectory
    ensures r.1.Some? <==> isDirectory
    ensures r.1.Some? ==>
      && r.1.value.server == traceServer
      && ("path" in r.1.value.params <==> direct)
      && (direct ==> r.1.value.params["path"] == path)
      && (r.1.value.uploadsArchive <==> !direct)
  {
    if !isDirectory then (1, None)
    else
      var params := map[
        "entrypoint" := entrypoint,
        "containerUser" := containerUser,
        "targetRepoDir" := targetRepoDir,
        "networkEnabled" := FlagText(enableNetwork)];
      if direct then (0, Some(Request(traceServer, params["path" := path], false)))
      else
        assert "path" !in params;
        (0, Some(Request(traceServer, params, true)))
  }

  /** The settings given to `submit` are the ones the server's container
      runs with, and the container is isolated whether or not the network
      was asked for. */
  lemma SubmittedSettingsReachContainer(path: string, direct: bool, entrypoint: string,
                                        containerUser: string, targetRepoDir: string,
                                        traceServer: string, enableNetwork: bool, letters: string)
    requires |letters| == 8 && forall k :: 0 <= k < 8 ==> Environment.IsLowerLetter(letters[k])
    ensures var req := Submit(true, path, direct, entrypoint, containerUser, targetRepoDir,
                              traceServer, enableNetwork).1.value;
      var image := Environment.WithDefaults(Environment.ImageFromRequest(req.params))["tag" := Environment.Tag(letters)];
      var c := Environment.RunContainer(image);
      && c.command == "sh " + entrypoint && c.user == containerUser
      && c.workingDir == targetRepoDir && c.networkDisabled
  {
    var req := Submit(true, path, direct, entrypoint, containerUser, targetRepoDir,
                      traceServer, enableNetwork).1.value;
    var image := Environment.ImageFromRequest(req.params);
    assert req.params["entrypoint"] == entrypoint;
    assert req.params["containerUser"] == containerUser;
    assert req.params["targetRepoDir"] == targetRepoDir;
    Environment.RequestImageNeedsNoDefaults(req.params);
  }

  // ---------------------------------------------------------------------
  // download

  /** The files `download` fetches for a run, in order. */
  const Suffixes: seq<string> := [".sig", ".jsonld", "_run.zip", ".tsr"]

  function RunUrl(traceServer: string, name: string): string {
    traceServer + "/run/" + name
  }

  /** `download`: fetch each file in turn; `raise_for_status` stops at the
      first request that fails. `fetched(url)` says whether a GET succeeds. */
  method Download(traceServer: string, path: string, fetched: string -> bool)
    returns (saved: seq<string>, failed: Option<string>)
    ensures |saved| <= |Suffixes|
    ensures forall k :: 0 <= k < |saved| ==>
      saved[k] == path + Suffixes[k] && fetched(RunUrl(traceServer, saved[k]))
    ensures failed.None? <==> |saved| == |Suffixes|
    ensures failed.Some? ==>
      failed.value == RunUrl(traceServer, path + Suffixes[|saved|]) && !fetched(failed.value)
  {
    saved := [];
    failed := None;
    var i := 0;
    while i < |Suffixes|
      invariant 0 <= i <= |Suffixes| && |saved| == i
      invariant forall k :: 0 <= k < i ==> saved[k] == path + Suffixes[k] && fetched(RunUrl(traceServer, saved[k]))
    {
      var name := path + Suffixes[i];
      var url := RunUrl(traceServer, name);
      if !fetched(url) {
        failed := Some(url);
        return;
      }
      saved := saved + [name];
      i := i + 1;
    }
  }

  /** A complete download saves exactly the files the server stores for
      the run. */
  lemma DownloadedAreResultFiles(base: string)
    ensures (set k | 0 <= k < |Suffixes| :: base + Suffixes[k]) == set f | f in Workflow.ResultFiles(base)
  {
    var fetched := set k | 0 <= k < |Suffixes| :: base + Suffixes[k];
    var stored := Workflow.ResultFiles(base);
    assert base + Suffixes[0] == stored[1];
    assert base + Suffixes[1] == stored[0];
    assert base + Suffixes[2] == stored[3];
    assert base + Suffixes[3] == stored[2];
    forall f | f in fetched ensures f in stored {
      var k :| 0 <= k < |Suffixes| && f == base + Suffixes[k];
    }
  }
}
