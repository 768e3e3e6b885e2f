/**
 The init wizard: run all stages, and when one needs the user, ask, update the state and run
 everything again. The loop has no counter; whatever the host and the user answer each round, it
 ends, because each handled question settles something for good.
 */
module Wizard {
  import opened Options

  datatype Code = SudoRequired | ConfirmDownload | ConfirmGuestfs | OtherCode

  /** A question to the user, with the parts of its context that handlers read. */
  datatype Ask = Ask(code: Code, latest: string, sessionHasGroup: bool)

  datatype Step = Step(name: string, success: bool)

  datatype Result = Result(steps: seq<Step>, hostReady: bool, ask: Option<Ask>)

  /** What an attempt to initialise the host answers. */
  datatype HostAnswer = HostOk | HostError | HostAsks(ask: Ask)

  datatype Reply = Yes | No | PromptError | Canceled

  /** Everything outside the wizard, in one round: host, files, network, and the user. */
  datatype Round = Round(
    migrated: bool, host: HostAnswer, guestfish: bool, networkOk: bool, cacheOk: bool,
    listed: bool, hasBinary: bool, remoteLatest: string, pullOk: bool,
    critical: bool, continueAnyway: Reply, inGroup: bool, runSudo: Reply, sudoOk: bool,
    download: Reply, enableGuestfs: Reply)

  datatype State = State(
    nonInteractive: bool, skipHost: bool, skipNetwork: bool,
    sudoCompleted: bool, downloadVersion: string, guestfs: Option<bool>)

  const STAGES := ["local_state", "host", "guestfs", "network_setup", "cache", "binary"]

  // --- one run of all stages ---

  datatype Stage = Stage(success: bool, ask: Option<Ask>)

  function HostStage(s: State, r: Round): Stage {
    if s.skipHost || s.sudoCompleted then Stage(true, None)
    else
      match r.host
      case HostOk => Stage(true, None)
      case HostError => Stage(false, None)
      case HostAsks(ask) => Stage(false, Some(ask))
  }

  function GuestfsStage(s: State, r: Round): Stage {
    if s.guestfs.Some? || !r.guestfish then Stage(true, None)
    else Stage(false, Some(Ask(ConfirmGuestfs, "", false)))
  }

  function BinaryStage(s: State, r: Round): Stage {
    if !r.listed then Stage(false, None)
    else if r.hasBinary then Stage(true, None)
    else if s.downloadVersion != "" then Stage(r.pullOk, None)
    else if s.nonInteractive then Stage(r.remoteLatest != "" && r.pullOk, None)
    else Stage(false, Some(Ask(ConfirmDownload, r.remoteLatest, false)))
  }

  /** The steps taken: the stages in order, up to the first that asks. */
  function Names(steps: seq<Step>): seq<string> {
    seq(|steps|, i requires 0 <= i < |steps| => steps[i].name)
  }

  /** The question the run stops at, if any: of the host, then of guestfs, then of the binary. */
  function Question(s: State, r: Round): Option<Ask> {
    if HostStage(s, r).ask.Some? then HostStage(s, r).ask
    else if GuestfsStage(s, r).ask.Some? then GuestfsStage(s, r).ask
    else BinaryStage(s, r).ask
  }

  // --- handling a question ---

  datatype Handling = Continue(state: State) | Abort | Cancel

  function Refusal(reply: Reply): Handling { if reply.Canceled? then Cancel else Abort }

  function HandleSudo(s: State, ask: Ask, r: Round): Handling {
    if s.nonInteractive then Continue(s.(sudoCompleted := true))
    else if r.critical && !r.continueAnyway.Yes? then Refusal(r.continueAnyway)
    else if r.inGroup && !ask.sessionHasGroup then Continue(s.(skipHost := true))
    else if !r.runSudo.Yes? then Refusal(r.runSudo)
    else if !r.sudoOk then Abort
    else Continue(s.(sudoCompleted := true, downloadVersion := ""))
  }

  function HandleDownload(s: State, ask: Ask, r: Round): Handling {
    if ask.latest == "" then Abort
    else if !s.nonInteractive && !r.download.Yes? then Refusal(r.download)
    else Continue(s.(downloadVersion := ask.latest))
  }

  function HandleGuestfs(s: State, r: Round): Handling {
    if s.nonInteractive then Continue(s.(guestfs := Some(false)))
    else
      match r.enableGuestfs
      case Yes => Continue(s.(guestfs := Some(true)))
      case No => Continue(s.(guestfs := Some(false)))
      case _ => Refusal(r.enableGuestfs)
  }

  function Handle(s: State, ask: Ask, r: Round): Handling {
    match ask.code
    case SudoRequired => HandleSudo(s, ask, r)
    case ConfirmDownload => HandleDownload(s, ask, r)
    case ConfirmGuestfs => HandleGuestfs(s, r)
    case OtherCode => Abort
  }

  // --- why it ends ---

  function Bit(b: bool): nat { if b then 1 else 0 }

  predicate HostPending(s: State) { !s.skipHost && !s.sudoCompleted }

  /** Host counts twice: settling it may set the download choice back. */
  function Measure(s: State): nat {
    2 * Bit(HostPending(s)) + Bit(s.guestfs.None?) + Bit(s.downloadVersion == "")
  }

  /** The codes a host may ask with: its own, not the wizard's other questions. */
  predicate HostCodes(r: Round) {
    r.host.HostAsks? ==> r.host.ask.code == SudoRequired || r.host.ask.code == OtherCode
  }

  /** Every handled question settles something: the host, guestfs, or the download. */
  lemma HandlingSettles(s: State, r: Round)
    requires HostCodes(r) && Question(s, r).Some?
    requires Handle(s, Question(s, r).value, r).Continue?
    ensures Measure(Handle(s, Question(s, r).value, r).state) < Measure(s)
    ensures Handle(s, Question(s, r).value, r).state.nonInteractive == s.nonInteractive
  {
  }

  /** How it ended, after how many runs of the stages, and in which state the last run was made. */
  datatype Ending =
    | Finished(runs: nat, state: State)
    | Aborted(runs: nat, state: State)
    | Cancelled(runs: nat, state: State)

  /** The loop, from round `k` on. */
  function Flow(s: State, rounds: nat -> Round, k: nat): Ending
    requires forall i: nat :: HostCodes(rounds(i))
    decreases Measure(s)
  {
    var r := rounds(k);
    match Question(s, r)
    case None => Finished(k + 1, s)
    case Some(ask) =>
      match Handle(s, ask, r)
      case Abort => Aborted(k + 1, s)
      case Cancel => Cancelled(k + 1, s)
      case Continue(next) =>
        HandlingSettles(s, r);
        Flow(next, rounds, k + 1)
  }

  function Begin(nonInteractive: bool, skipHost: bool, skipNetwork: bool): State {
    State(nonInteractive, skipHost, skipNetwork, false, "", None)
  }

  lemma {:induction false} RunsAreBounded(s: State, rounds: nat -> Round, k: nat)
    requires forall i: nat :: HostCodes(rounds(i))
    ensures k + 1 <= Flow(s, rounds, k).runs <= k + 1 + Measure(s)
    decreases Measure(s)
  {
    var r := rounds(k);
    if Question(s, r).Some? && Handle(s, Question(s, r).value, r).Continue? {
      HandlingSettles(s, r);
      RunsAreBounded(Handle(s, Question(s, r).value, r).state, rounds, k + 1);
    }
  }

  /** Without a user, the download is never asked about: host and guestfs are all. */
  lemma {:induction false} UnattendedRunsAreBounded(s: State, rounds: nat -> Round, k: nat)
    requires forall i: nat :: HostCodes(rounds(i))
    requires s.nonInteractive
    ensures Flow(s, rounds, k).runs <= k + 1 + Bit(HostPending(s)) + Bit(s.guestfs.None?)
    ensures !Flow(s, rounds, k).Cancelled?
    decreases Measure(s)
  {
    var r := rounds(k);
    if Question(s, r).Some? && Handle(s, Question(s, r).value, r).Continue? {
      HandlingSettles(s, r);
      UnattendedRunsAreBounded(Handle(s, Question(s, r).value, r).state, rounds, k + 1);
    }
  }

  /** At most five runs of the stages, three if the host is skipped, three unattended. */
  lemma WizardEnds(rounds: nat -> Round, nonInteractive: bool, skipHost: bool, skipNetwork: bool)
    requires forall i: nat :: HostCodes(rounds(i))
    ensures var runs := Flow(Begin(nonInteractive, skipHost, skipNetwork), rounds, 0).runs;
      1 <= runs <= (if skipHost then 3 else 5) && (nonInteractive ==> runs <= (if skipHost then 2 else 3))
  {
    var s := Begin(nonInteractive, skipHost, skipNetwork);
    RunsAreBounded(s, rounds, 0);
    if nonInteractive { UnattendedRunsAreBounded(s, rounds, 0); }
  }

  // --- the bound is reached ---

  const CALM := Round(true, HostOk, false, true, true, true, true, "1.16", true,
                      false, Yes, false, Yes, true, Yes, No)

  /** guestfs, download, sudo (which forgets the download), download again. */
  function Restless(i: nat): Round {
    if i == 0 then CALM.(guestfish := true)
    else if i == 1 then CALM.(hasBinary := false)
    else if i == 2 then CALM.(host := HostAsks(Ask(SudoRequired, "", false)))
    else if i == 3 then CALM.(hasBinary := false)
    else CALM
  }

  lemma BoundIsReached()
    ensures exists rounds: nat -> Round ::
      && (forall i: nat :: HostCodes(rounds(i)))
      && Flow(Begin(false, false, false), rounds, 0).Finished? && Flow(Begin(false, false, false), rounds, 0).runs == 5
  {
    var s0 := Begin(false, false, false);
    var s1 := s0.(guestfs := Some(false));
    var s2 := s1.(downloadVersion := "1.16");
    var s3 := s1.(sudoCompleted := true);
    var s4 := s3.(downloadVersion := "1.16");
    assert forall i: nat :: HostCodes(Restless(i));
    assert Flow(s4, Restless, 4) == Finished(5, s4);
    assert Flow(s3, Restless, 3) == Flow(s4, Restless, 4);
    assert Flow(s2, Restless, 2) == Flow(s3, Restless, 3);
    assert Flow(s1, Restless, 1) == Flow(s2, Restless, 2);
    assert Flow(s0, Restless, 0) == Flow(s1, Restless, 1);
  }

  // --- the program ---

  /** All six steps, as far as they are reached. */
  function AllSteps(s: State, r: Round): (steps: seq<Step>)
    ensures Names(steps) == STAGES
  {
    [Step("local_state", r.migrated), Step("host", HostStage(s, r).success), Step("guestfs", GuestfsStage(s, r).success),
     Step("network_setup", s.skipNetwork || r.networkOk), Step("cache", r.cacheOk), Step("binary", BinaryStage(s, r).success)]
  }

  /** How many steps are reached: up to the stage that asks, or all. */
  function Reached(s: State, r: Round): (n: nat)
    ensures n <= 6
  {
    if HostStage(s, r).ask.Some? then 2 else if GuestfsStage(s, r).ask.Some? then 3 else 6
  }

  /** One run of the stages: what it reports. */
  predicate Reports(s: State, r: Round, result: Result) {
    && result.ask == Question(s, r)
    && result.steps == AllSteps(s, r)[..Reached(s, r)]
    && (result.hostReady <==> result.ask.None? && HostStage(s, r).success && BinaryStage(s, r).success)
  }

  /** The steps are a prefix of the stages, all of them when nothing is asked; the one that asks has failed. */
  lemma ReportedSteps(s: State, r: Round, result: Result)
    requires Reports(s, r, result)
    ensures Names(result.steps) == STAGES[..Reached(s, r)]
    ensures result.ask.None? ==> Names(result.steps) == STAGES
    ensures result.ask.Some? ==> |result.steps| > 0 && !result.steps[|result.steps| - 1].success && !result.hostReady
  {
    hide AllSteps, HostStage, GuestfsStage, BinaryStage, Question;
    var all := AllSteps(s, r);
    assert |all| == 6 && Names(all) == STAGES;
    assert Names(all[..Reached(s, r)]) == Names(all)[..Reached(s, r)];
    LastStepAsks(s, r);
  }

  lemma LastStepAsks(s: State, r: Round)
    ensures Reached(s, r) > 0
    ensures |AllSteps(s, r)| == 6
    ensures Question(s, r).Some? ==> !AllSteps(s, r)[Reached(s, r) - 1].success
    ensures Question(s, r).None? ==> Reached(s, r) == 6
  {
  }

  predicate Succeeded(steps: seq<Step>, name: string) {
    exists s :: s in steps && s.name == name && s.success
  }

  /** `hostReady` is computed by scanning the steps for the two that count. */
  method HostReady(steps: seq<Step>) returns (ready: bool)
    ensures ready <==> Succeeded(steps, "host") && Succeeded(steps, "binary")
  {
    var host, binary := false, false;
    for i := 0 to |steps|
      invariant host == Succeeded(steps[..i], "host")
      invariant binary == Succeeded(steps[..i], "binary")
    {
      assert steps[..i + 1] == steps[..i] + [steps[i]];
      if steps[i].name == "host" && steps[i].success {
        host := true;
      }
      if steps[i].name == "binary" && steps[i].success {
        binary := true;
      }
    }
    assert steps[..|steps|] == steps;
    ready := host && binary;
  }

  method InitRunFull(s: State, r: Round) returns (result: Result)
    ensures Reports(s, r, result)
  {
    hide HostStage, GuestfsStage, BinaryStage, Succeeded, Names;
    var steps := [Step("local_state", r.migrated)];
    var host := HostStage(s, r);
    steps := steps + [Step("host", host.success)];
    if host.ask.Some? {
      return Result(steps, false, host.ask);
    }
    var guestfs := GuestfsStage(s, r);
    steps := steps + [Step("guestfs", guestfs.success)];
    if guestfs.ask.Some? {
      return Result(steps, false, guestfs.ask);
    }
    steps := steps + [Step("network_setup", s.skipNetwork || r.networkOk)];
    steps := steps + [Step("cache", r.cacheOk)];
    var binary := BinaryStage(s, r);
    steps := steps + [Step("binary", binary.success)];
    assert steps == AllSteps(s, r);
    if binary.ask.Some? {
      return Result(steps, false, binary.ask);
    }
    AllSix(steps);
    var ready := HostReady(steps);
    result := Result(steps, ready, None);
  }

  lemma AllSix(steps: seq<Step>)
    requires Names(steps) == STAGES
    ensures Succeeded(steps, "host") <==> steps[1].success
    ensures Succeeded(steps, "binary") <==> steps[5].success
  {
    assert steps[1].name == STAGES[1] && steps[5].name == STAGES[5] && steps[1] in steps && steps[5] in steps;
    forall s | s in steps
      ensures s.name == "host" ==> s == steps[1]
      ensures s.name == "binary" ==> s == steps[5]
    {
      var i :| 0 <= i < |steps| && steps[i] == s;
      assert s.name == STAGES[i];
      StageNamesDiffer(i);
    }
  }

  lemma StageNamesDiffer(i: nat)
    requires i < 6
    ensures STAGES[i] == "host" ==> i == 1
    ensures STAGES[i] == "binary" ==> i == 5
  {
    if i == 0 { assert |STAGES[i]| == 11; }
    else if i == 2 { assert |STAGES[i]| == 7; }
    else if i == 3 { assert |STAGES[i]| == 13; }
    else if i == 4 { assert |STAGES[i]| == 5; }
  }

  class InitState {
    const nonInteractive: bool
    const skipNetwork: bool
    var skipHost: bool
    var sudoCompleted: bool
    var downloadVersion: string
    var guestfsEnabled: Option<bool>

    constructor (nonInteractive: bool, skipHost: bool, skipNetwork: bool)
      ensures Value() == Begin(nonInteractive, skipHost, skipNetwork)
    {
      this.nonInteractive, this.skipHost, this.skipNetwork := nonInteractive, skipHost, skipNetwork;
      sudoCompleted, downloadVersion, guestfsEnabled := false, "", None;
    }

    function Value(): State
      reads this
    {
      State(nonInteractive, skipHost, skipNetwork, sudoCompleted, downloadVersion, guestfsEnabled)
    }

    method HandleSudoRequired(ask: Ask, r: Round) returns (h: Handling)
      modifies this`sudoCompleted, this`skipHost, this`downloadVersion
      ensures h == HandleSudo(old(Value()), ask, r)
      ensures Value() == if h.Continue? then h.state else old(Value())
    {
      if nonInteractive {
        sudoCompleted := true;
        return Continue(Value());
      }
      if r.critical {
        if r.continueAnyway.PromptError? || r.continueAnyway.Canceled? { return Refusal(r.continueAnyway); }
        if !r.continueAnyway.Yes? { return Abort; }
      }
      if r.inGroup && !ask.sessionHasGroup {
        skipHost := true;
        return Continue(Value());
      }
      if r.runSudo.PromptError? || r.runSudo.Canceled? { return Refusal(r.runSudo); }
      if !r.runSudo.Yes? { return Abort; }
      if !r.sudoOk { return Abort; }
      sudoCompleted := true;
      downloadVersion := "";
      h := Continue(Value());
    }

    method HandleBinaryDownload(ask: Ask, r: Round) returns (h: Handling)
      modifies this`downloadVersion
      ensures h == HandleDownload(old(Value()), ask, r)
      ensures Value() == if h.Continue? then h.state else old(Value())
    {
      if ask.latest == "" { return Abort; }
      if !nonInteractive {
        if r.download.PromptError? || r.download.Canceled? { return Refusal(r.download); }
        if !r.download.Yes? { return Abort; }
      }
      downloadVersion := ask.latest;
      h := Continue(Value());
    }

    method HandleGuestfsChoice(r: Round) returns (h: Handling)
      modifies this`guestfsEnabled
      ensures h == HandleGuestfs(old(Value()), r)
      ensures Value() == if h.Continue? then h.state else old(Value())
    {
      if nonInteractive {
        guestfsEnabled := Some(false);
        return Continue(Value());
      }
      if r.enableGuestfs.PromptError? || r.enableGuestfs.Canceled? { return Refusal(r.enableGuestfs); }
      guestfsEnabled := Some(r.enableGuestfs.Yes?);
      h := Continue(Value());
    }

    method Dispatch(ask: Ask, r: Round) returns (h: Handling)
      modifies this
      ensures h == Handle(old(Value()), ask, r)
      ensures Value() == if h.Continue? then h.state else old(Value())
    {
      match ask.code
      case SudoRequired => h := HandleSudoRequired(ask, r);
      case ConfirmDownload => h := HandleBinaryDownload(ask, r);
      case ConfirmGuestfs => h := HandleGuestfsChoice(r);
      case OtherCode => h := Abort;
    }
  }

  /**
   The wizard's loop. It ends for every sequence of answers, within the bound; the result of the
   last run is returned unless the user cancelled, and asks nothing exactly when the flow finished.
   */
  method HandleInteractiveFlow(rounds: nat -> Round, nonInteractive: bool, skipHost: bool, skipNetwork: bool)
    returns (last: Option<Result>, ending: Ending)
    requires forall i: nat :: HostCodes(rounds(i))
    ensures ending == Flow(Begin(nonInteractive, skipHost, skipNetwork), rounds, 0)
    ensures ending.runs <= 5
    ensures last.None? <==> ending.Cancelled?
    ensures ending.runs >= 1
    ensures last.Some? ==> Reports(ending.state, rounds(ending.runs - 1), last.value)
    ensures last.Some? ==> (ending.Finished? <==> last.value.ask.None?)
  {
    hide AllSteps, Reached, HostStage, GuestfsStage, BinaryStage, Handle, Question;
    var state := new InitState(nonInteractive, skipHost, skipNetwork);
    var k := 0;
    WizardEnds(rounds, nonInteractive, skipHost, skipNetwork);
    while true
      invariant fresh(state)
      invariant Flow(Begin(nonInteractive, skipHost, skipNetwork), rounds, 0) == Flow(state.Value(), rounds, k)
      decreases Measure(state.Value())
    {
      var result := InitRunFull(state.Value(), rounds(k));
      if result.ask.None? {
        return Some(result), Finished(k + 1, state.Value());
      }
      var before := state.Value();
      var handling := state.Dispatch(result.ask.value, rounds(k));
      if handling.Cancel? {
        return None, Cancelled(k + 1, before);
      }
      if handling.Abort? {
        return Some(result), Aborted(k + 1, before);
      }
      HandlingSettles(before, rounds(k));
      k := k + 1;
    }
  }
}
