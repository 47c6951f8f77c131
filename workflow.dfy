/** The stage order of `magic_workflow` (trace_poc/server.py): the progress
    events its generators yield, one stage after the other, and where the
    stream stops when a stage fails. Docker, bagit, GPG and the timestamp
    authority are left out; what they report back is an input. */
module Workflow {

  /** One progress event of the stream, in the order the stages yield them. */
  datatype Event =
    | SettingOwnership(dir: string)
    | BaggingInitialState
    | StartBuilding
    | BuildLog(line: string)
    | FinishedBuilding
    | StartRunning
    | RunLog(line: string)
    | FinishedRunning
    | BaggingResult
    | ComputingDigests
    | SigningManifest
    | WritingManifest
    | Timestamping
    | ZippingBag
    | Available(archive: string)
    | Done

  /** The text the stream carries for each event. */
  function Message(e: Event): string {
    match e
    case SettingOwnership(dir) => "\U{1F45B} Setting ownership of the " + dir + "\n"
    case BaggingInitialState => "\U{1F45B} Bagging initial state\n"
    case StartBuilding => "\U{1F64F} Start building\n"
    case BuildLog(line) => line
    case FinishedBuilding => "\U{1F64C} Finished building\n"
    case StartRunning => "\U{1F44A} Start running\n"
    case RunLog(line) => line
    case FinishedRunning => "\U{1F918} Finished running\n"
    case BaggingResult => "\U{1F45B} Bagging result\n"
    case ComputingDigests => "\U{1F4C2} Computing digests\n"
    case SigningManifest => "\U{1F4C2} Signing the manifest\n"
    case WritingManifest => "\U{1F4C2} Writing the manifest\n"
    case Timestamping => "\U{1F553} Timestamping the TRO Declaration and TRS Signature\n"
    case ZippingBag => "\U{1F4C2} Zipping the bag\n"
    case Available(archive) => "\U{1F4E9} Your magic bag is available as: " + archive + "!\n"
    case Done => "\U{1F4A3} Done!!!"
  }

  /** The position of an event's kind in the sequential stage order. */
  function Rank(e: Event): nat {
    match e
    case SettingOwnership(_) => 0
    case BaggingInitialState => 1
    case StartBuilding => 2
    case BuildLog(_) => 3
    case FinishedBuilding => 4
    case StartRunning => 5
    case RunLog(_) => 6
    case FinishedRunning => 7
    case BaggingResult => 8
    case ComputingDigests => 9
    case SigningManifest => 10
    case WritingManifest => 11
    case Timestamping => 12
    case ZippingBag => 13
    case Available(_) => 14
    case Done => 15
  }

  /** Events never go back to an earlier stage. */
  predicate Ordered(events: seq<Event>) {
    forall i, j :: 0 <= i < j < |events| ==> Rank(events[i]) <= Rank(events[j])
  }

  /** Every event lies between two points of the stage order. */
  predicate Within(events: seq<Event>, lo: nat, hi: nat) {
    forall i :: 0 <= i < |events| ==> lo <= Rank(events[i]) <= hi
  }

  lemma OrderedAppend(a: seq<Event>, b: seq<Event>, m: nat)
    requires Ordered(a) && Ordered(b)
    requires forall i :: 0 <= i < |a| ==> Rank(a[i]) <= m
    requires forall j :: 0 <= j < |b| ==> m <= Rank(b[j])
    ensures Ordered(a + b)
  {
    forall i, j | 0 <= i < j < |a + b| ensures Rank((a + b)[i]) <= Rank((a + b)[j]) {
      if j < |a| {
        assert (a + b)[i] == a[i] && (a + b)[j] == a[j];
      } else if i >= |a| {
        assert (a + b)[i] == b[i - |a|] && (a + b)[j] == b[j - |a|];
      } else {
        assert (a + b)[i] == a[i] && (a + b)[j] == b[j - |a|];
      }
    }
  }

  /** Order between neighbours is order throughout. */
  lemma {:induction false} OrderedByNeighbours(events: seq<Event>)
    requires forall i :: 0 <= i < |events| - 1 ==> Rank(events[i]) <= Rank(events[i + 1])
    ensures Ordered(events)
    decreases |events|
  {
    if |events| > 1 {
      var tail := events[1..];
      OrderedByNeighbours(tail);
      forall j | 0 < j < |events| ensures Rank(events[0]) <= Rank(events[j]) {
        if j > 1 {
          assert Rank(tail[0]) <= Rank(tail[j - 1]);
        }
      }
    }
  }

  lemma WithinAppend(a: seq<Event>, b: seq<Event>, lo: nat, hi: nat)
    requires Within(a, lo, hi) && Within(b, lo, hi)
    ensures Within(a + b, lo, hi)
  {
    forall i | 0 <= i < |a + b| ensures lo <= Rank((a + b)[i]) <= hi {
      if i < |a| {
        assert (a + b)[i] == a[i];
      } else {
        assert (a + b)[i] == b[i - |a|];
      }
    }
  }

  /** Where a stage raised. */
  datatype Stage = Building | Running | Declaring

  /** How the stream ends: after its last event, or with an exception. */
  datatype Outcome = Completed | Raised(stage: Stage)

  /** The events a stream yields and how it ends. */
  datatype Trace = Trace(events: seq<Event>, outcome: Outcome)

  /** What the outside world reports during one run: the work directory, the
      builder's log and exit status, the container's log and exit status,
      whether both bag manifests parse, and the archive's base name. */
  datatype Conditions = Conditions(
    workDir: string,
    buildLog: seq<string>, buildStatus: int,
    runLog: seq<string>, runStatus: int,
    manifestsParse: bool,
    basename: string)

  function BuildLogs(lines: seq<string>): (events: seq<Event>)
    ensures |events| == |lines|
    ensures forall k :: 0 <= k < |lines| ==> events[k] == BuildLog(lines[k])
  {
    seq(|lines|, k requires 0 <= k < |lines| => BuildLog(lines[k]))
  }

  function RunLogs(lines: seq<string>): (events: seq<Event>)
    ensures |events| == |lines|
    ensures forall k :: 0 <= k < |lines| ==> events[k] == RunLog(lines[k])
  {
    seq(|lines|, k requires 0 <= k < |lines| => RunLog(lines[k]))
  }

  /** `_set_workdir_ownership` then `bag_initial_state`. */
  function Prepare(c: Conditions): (events: seq<Event>)
    ensures Ordered(events) && Within(events, 0, 1)
    ensures |events| == 2 && events[0] == SettingOwnership(c.workDir) && events[1] == BaggingInitialState
  {
    [SettingOwnership(c.workDir), BaggingInitialState]
  }

  /** `build_image`: a non-zero status of the builder raises after its log. */
  function BuildImage(c: Conditions): (t: Trace)
    ensures t.outcome == (if c.buildStatus == 0 then Completed else Raised(Building))
    ensures FinishedBuilding in t.events <==> c.buildStatus == 0
    ensures Ordered(t.events) && Within(t.events, 2, 4)
    ensures c.buildStatus != 0 ==> Within(t.events, 2, 3)
  {
    var events := [StartBuilding] + BuildLogs(c.buildLog);
    assert Ordered(events) && Within(events, 2, 3);
    if c.buildStatus != 0 then Trace(events, Raised(Building))
    else
      OrderedAppend(events, [FinishedBuilding], 4);
      WithinAppend(events, [FinishedBuilding], 2, 4);
      Trace(events + [FinishedBuilding], Completed)
  }

  /** `run` as written: a non-zero status `return`s from the generator, which
      only drops "Finished running"; the value returned is discarded. */
  function RunAsWritten(c: Conditions): (events: seq<Event>)
    ensures FinishedRunning in events <==> c.runStatus == 0
    ensures Ordered(events) && Within(events, 5, 7)
    ensures c.runStatus != 0 ==> Within(events, 5, 6)
  {
    var events := [StartRunning] + RunLogs(c.runLog);
    assert Ordered(events) && Within(events, 5, 6);
    if c.runStatus != 0 then events
    else
      OrderedAppend(events, [FinishedRunning], 7);
      WithinAppend(events, [FinishedRunning], 5, 7);
      events + [FinishedRunning]
  }

  /** `run` as intended: a non-zero status ends the stream with a failure. */
  function Run(c: Conditions): (t: Trace)
    ensures t.outcome == Completed <==> c.runStatus == 0
    ensures t.outcome != Completed ==> t.outcome == Raised(Running)
    ensures FinishedRunning in t.events <==> t.outcome == Completed
    ensures Ordered(t.events) && Within(t.events, 5, 7)
    ensures t.outcome != Completed ==> Within(t.events, 5, 6)
    ensures t.events == RunAsWritten(c)
  {
    Trace(RunAsWritten(c), if c.runStatus == 0 then Completed else Raised(Running))
  }

  /** `generate_tro`: a manifest line that does not parse raises while the
      declaration is computed; otherwise the declaration is signed, written,
      timestamped and the bag zipped. */
  function GenerateTro(c: Conditions): (t: Trace)
    ensures t.outcome == (if c.manifestsParse then Completed else Raised(Declaring))
    ensures SigningManifest in t.events <==> c.manifestsParse
  {
    var events := [BaggingResult, ComputingDigests];
    if !c.manifestsParse then Trace(events, Raised(Declaring))
    else
      var attested := events + [SigningManifest, WritingManifest, Timestamping, ZippingBag,
                                 Available(c.basename + "_run.zip")];
      assert attested[2] == SigningManifest;
      Trace(attested, Completed)
  }

  /** Declaring and attesting yield their events in stage order. */
  lemma GenerateTroOrdered(c: Conditions)
    ensures Ordered(GenerateTro(c).events) && Within(GenerateTro(c).events, 8, 14)
  {
    var e := GenerateTro(c).events;
    forall i | 0 <= i < |e| ensures Rank(e[i]) == 8 + i {
      if i == 0 {
      } else if i == 1 {
      } else if i == 2 {
      } else if i == 3 {
      } else if i == 4 {
      } else if i == 5 {
      } else {
        assert e[i] == Available(c.basename + "_run.zip");
      }
    }
    OrderedByNeighbours(e);
  }

  /** The files `generate_tro` stores for a run: the declaration, its
      signature, the timestamp response and the zipped final bag. */
  function ResultFiles(basename: string): seq<string> {
    [basename + ".jsonld", basename + ".sig", basename + ".tsr", basename + "_run.zip"]
  }

  /** The closing "Done!!!", yielded only after every stage completed. */
  function Finish(t: Trace): seq<Event> {
    if t.outcome == Completed then [Done] else []
  }

  /** `magic_workflow` as written: once the image is built, the run's status
      has no effect on whether the result is declared and attested. */
  function MagicWorkflow(c: Conditions): Trace {
    var build := BuildImage(c);
    if build.outcome != Completed then Trace(Prepare(c) + build.events, build.outcome)
    else
      var tro := GenerateTro(c);
      Trace(Prepare(c) + build.events + RunAsWritten(c) + tro.events + Finish(tro), tro.outcome)
  }

  /** `magic_workflow` as intended: a failed run ends the stream there, so
      nothing is declared, signed or timestamped for it. */
  function MagicWorkflowFixed(c: Conditions): Trace {
    var build := BuildImage(c);
    if build.outcome != Completed then Trace(Prepare(c) + build.events, build.outcome)
    else
      var run := Run(c);
      if run.outcome != Completed then Trace(Prepare(c) + build.events + run.events, run.outcome)
      else
        var tro := GenerateTro(c);
        Trace(Prepare(c) + build.events + run.events + tro.events + Finish(tro), tro.outcome)
  }

  lemma FinishOrdered(t: Trace)
    ensures Ordered(Finish(t)) && Within(Finish(t), 15, 15)
  {
  }

  /** Both workflows yield their events in stage order: ownership, initial
      bag, build, run, declaration and attestation, then "Done". */
  lemma WorkflowOrdered(c: Conditions)
    ensures Ordered(MagicWorkflow(c).events)
    ensures Ordered(MagicWorkflowFixed(c).events)
  {
    var prep, build := Prepare(c), BuildImage(c);
    OrderedAppend(prep, build.events, 1);
    WithinAppend(prep, build.events, 0, 4);
    if build.outcome == Completed {
      var run, tro := RunAsWritten(c), GenerateTro(c);
      GenerateTroOrdered(c);
      OrderedAppend(prep + build.events, run, 4);
      WithinAppend(prep + build.events, run, 0, 7);
      OrderedAppend(prep + build.events + run, tro.events, 7);
      WithinAppend(prep + build.events + run, tro.events, 0, 14);
      FinishOrdered(tro);
      OrderedAppend(prep + build.events + run + tro.events, Finish(tro), 14);
    }
  }

  /** A failed build raises: nothing from "Finished building" on is yielded,
      so the image is never run and no declaration is made. */
  lemma BuildFailureStops(c: Conditions)
    requires c.buildStatus != 0
    ensures MagicWorkflow(c).outcome == Raised(Building)
    ensures Within(MagicWorkflow(c).events, 0, 3)
    ensures MagicWorkflowFixed(c) == MagicWorkflow(c)
  {
    var build := BuildImage(c);
    WithinAppend(Prepare(c), build.events, 0, 3);
  }

  /** An event whose stage lies outside the range cannot be in the list. */
  lemma NotWithin(events: seq<Event>, lo: nat, hi: nat, e: Event)
    requires Within(events, lo, hi) && !(lo <= Rank(e) <= hi)
    ensures e !in events
  {
    forall i | 0 <= i < |events| ensures events[i] != e {
    }
  }

  /** The stream reaches "Done" exactly when it completes, and the workflow
      as written completes whenever the image builds and the manifests
      parse, whatever the run's status. */
  lemma MagicWorkflowCompletes(c: Conditions)
    ensures Done in MagicWorkflow(c).events <==> MagicWorkflow(c).outcome == Completed
    ensures MagicWorkflow(c).outcome == Completed <==> c.buildStatus == 0 && c.manifestsParse
  {
    var t := MagicWorkflow(c);
    var build := BuildImage(c);
    if build.outcome != Completed {
      BuildFailureStops(c);
      NotWithin(t.events, 0, 3, Done);
    } else {
      var run, tro := RunAsWritten(c), GenerateTro(c);
      GenerateTroOrdered(c);
      var body := Prepare(c) + build.events + run + tro.events;
      WithinAppend(Prepare(c), build.events, 0, 14);
      WithinAppend(Prepare(c) + build.events, run, 0, 14);
      WithinAppend(Prepare(c) + build.events + run, tro.events, 0, 14);
      assert t.events == body + Finish(tro);
      if c.manifestsParse {
        assert t.events[|t.events| - 1] == Done;
      } else {
        assert t.events == body;
        NotWithin(body, 0, 14, Done);
      }
    }
  }

  /** The stream with every occurrence of `e` removed. */
  function Without(events: seq<Event>, e: Event): (r: seq<Event>)
    ensures e !in r
    ensures forall x :: x != e ==> (x in r <==> x in events)
    decreases |events|
  {
    if events == [] then []
    else (if events[0] == e then [] else [events[0]]) + Without(events[1..], e)
  }

  lemma {:induction false} WithoutAppend(a: seq<Event>, b: seq<Event>, e: Event)
    ensures Without(a + b, e) == Without(a, e) + Without(b, e)
    decreases |a|
  {
    if a == [] {
      assert a + b == b;
    } else {
      assert (a + b)[0] == a[0] && (a + b)[1..] == a[1..] + b;
      WithoutAppend(a[1..], b, e);
    }
  }

  lemma {:induction false} WithoutAbsent(a: seq<Event>, e: Event)
    requires e !in a
    ensures Without(a, e) == a
    decreases |a|
  {
    if a != [] {
      WithoutAbsent(a[1..], e);
      assert a == [a[0]] + a[1..];
    }
  }

  /** A failed run changes the stream as written in one way only: it lacks
      "Finished running", and everything else, the outcome included, is what
      the same run would have produced had it succeeded. */
  lemma FailedRunOnlyDropsFinishedRunning(c: Conditions)
    requires c.buildStatus == 0 && c.runStatus != 0
    ensures MagicWorkflow(c).outcome == MagicWorkflow(c.(runStatus := 0)).outcome
    ensures MagicWorkflow(c).events == Without(MagicWorkflow(c.(runStatus := 0)).events, FinishedRunning)
  {
    var ok := c.(runStatus := 0);
    var head := Prepare(c) + BuildImage(c).events;
    var run, tro := RunAsWritten(c), GenerateTro(c);
    var tail := tro.events + Finish(tro);
    assert BuildImage(ok) == BuildImage(c) && GenerateTro(ok) == tro && Prepare(ok) == Prepare(c);
    assert RunAsWritten(ok) == run + [FinishedRunning];
    assert MagicWorkflow(ok).events == (head + (run + [FinishedRunning])) + tail;
    assert MagicWorkflow(c).events == (head + run) + tail;
    WithinAppend(Prepare(c), BuildImage(c).events, 0, 4);
    NotWithin(head, 0, 4, FinishedRunning);
    NotWithin(run, 5, 6, FinishedRunning);
    GenerateTroOrdered(c);
    FinishOrdered(tro);
    WithinAppend(tro.events, Finish(tro), 8, 15);
    NotWithin(tail, 8, 15, FinishedRunning);
    WithoutBetween(head, run, tail, FinishedRunning);
  }

  /** Removing an event that occurs once, between parts that lack it. */
  lemma WithoutBetween(head: seq<Event>, run: seq<Event>, tail: seq<Event>, e: Event)
    requires e !in head && e !in run && e !in tail
    ensures Without((head + (run + [e])) + tail, e) == (head + run) + tail
  {
    WithoutAbsent(head, e);
    WithoutAbsent(run, e);
    WithoutAbsent(tail, e);
    assert Without(run + [e], e) == run by {
      assert Without([e], e) == [] by {
        assert [e][1..] == [];
      }
      WithoutAppend(run, [e], e);
      assert run + [] == run;
    }
    assert Without(head + (run + [e]), e) == head + run by {
      WithoutAppend(head, run + [e], e);
    }
    WithoutAppend(head + (run + [e]), tail, e);
  }

  /** The run's exit status decides nothing beyond "Finished running": a
      failed run is still declared, signed, timestamped and ends in "Done",
      and its stream is the successful run's without "Finished running". */
  lemma FailedRunStillAttested(c: Conditions)
    requires c.buildStatus == 0 && c.runStatus != 0 && c.manifestsParse
    ensures MagicWorkflow(c).outcome == Completed
    ensures MagicWorkflow(c).events == Without(MagicWorkflow(c.(runStatus := 0)).events, FinishedRunning)
    ensures FinishedRunning !in MagicWorkflow(c).events
    ensures SigningManifest in MagicWorkflow(c).events && Timestamping in MagicWorkflow(c).events
    ensures MagicWorkflow(c).events[|MagicWorkflow(c).events| - 1] == Done
  {
    var t := MagicWorkflow(c);
    var build, run, tro := BuildImage(c), RunAsWritten(c), GenerateTro(c);
    GenerateTroOrdered(c);
    var head := Prepare(c) + build.events;
    assert t.events == head + run + tro.events + [Done];
    WithinAppend(Prepare(c), build.events, 0, 4);
    NotWithin(head, 0, 4, FinishedRunning);
    NotWithin(tro.events, 8, 14, FinishedRunning);
    assert tro.events[2] == SigningManifest && tro.events[4] == Timestamping;
    assert t.events[|head| + |run| + 2] == SigningManifest;
    assert t.events[|head| + |run| + 4] == Timestamping;
    FailedRunOnlyDropsFinishedRunning(c);
  }

  /** As intended, a failed run ends the stream with a failure right after
      the run's log: nothing is declared, signed or timestamped. */
  lemma FailedRunAborts(c: Conditions)
    requires c.buildStatus == 0 && c.runStatus != 0
    ensures MagicWorkflowFixed(c).outcome == Raised(Running)
    ensures Within(MagicWorkflowFixed(c).events, 0, 6)
  {
    var build, run := BuildImage(c), RunAsWritten(c);
    WithinAppend(Prepare(c), build.events, 0, 6);
    WithinAppend(Prepare(c) + build.events, run, 0, 6);
  }

  /** When the run succeeds, the two workflows yield the same stream. */
  lemma FixedAgreesOnSuccessfulRun(c: Conditions)
    requires c.runStatus == 0
    ensures MagicWorkflowFixed(c) == MagicWorkflow(c)
  {
  }

  /** `build_image` as a generator: the builder's log is relayed line by
      line, then its status decides between raising and "Finished building". */
  method BuildImageStream(c: Conditions) returns (t: Trace)
    ensures t == BuildImage(c)
  {
    var events := [StartBuilding];
    for i := 0 to |c.buildLog|
      invariant events == [StartBuilding] + BuildLogs(c.buildLog[..i])
    {
      assert BuildLogs(c.buildLog[..i + 1]) == BuildLogs(c.buildLog[..i]) + [BuildLog(c.buildLog[i])];
      events := events + [BuildLog(c.buildLog[i])];
    }
    assert c.buildLog[..|c.buildLog|] == c.buildLog;
    if c.buildStatus != 0 {
      return Trace(events, Raised(Building));
    }
    t := Trace(events + [FinishedBuilding], Completed);
  }

  /** `run` as a generator, with a failed run ending the stream. */
  method RunStream(c: Conditions) returns (t: Trace)
    ensures t == Run(c)
  {
    var events := [StartRunning];
    for i := 0 to |c.runLog|
      invariant events == [StartRunning] + RunLogs(c.runLog[..i])
    {
      assert RunLogs(c.runLog[..i + 1]) == RunLogs(c.runLog[..i]) + [RunLog(c.runLog[i])];
      events := events + [RunLog(c.runLog[i])];
    }
    assert c.runLog[..|c.runLog|] == c.runLog;
    if c.runStatus != 0 {
      return Trace(events, Raised(Running));
    }
    t := Trace(events + [FinishedRunning], Completed);
  }

  /** The stream the corrected workflow yields, stage after stage: each
      stage's events are relayed as they come, and a failed stage ends it. */
  method StreamWorkflow(c: Conditions) returns (events: seq<Event>, outcome: Outcome)
    ensures Trace(events, outcome) == MagicWorkflowFixed(c)
  {
    events := Prepare(c);
    var build := BuildImageStream(c);
    events := events + build.events;
    if build.outcome != Completed {
      return events, build.outcome;
    }
    var run := RunStream(c);
    events := events + run.events;
    if run.outcome != Completed {
      return events, run.outcome;
    }
    var tro := GenerateTro(c);
    events := events + tro.events + Finish(tro);
    outcome := tro.outcome;
  }
}
