/**
 The relay between a target VM and the agent that asked for a remote command: frames are read
 until the result, output is passed on, and the command's fate is reported in one last frame.
 */
module Relay {
  import opened Options

  /** The frame types the relay knows; any other is ignored. */
  datatype Kind = Stdout | Stderr | Finished | Unknown

  datatype Frame = Frame(kind: Kind, data: string, status: int, error: string)

  /** What is sent on to the source. */
  datatype Out = Output(kind: Kind, data: string) | RemoteVM(status: int, error: string)

  datatype Verdict = Ok | TargetError(error: string) | ReadFailed | ForwardFailed

  const LOST := "connection to target VM lost"

  predicate IsOutput(f: Frame) { f.kind.Stdout? || f.kind.Stderr? }
  predicate IsResult(f: Frame) { f.kind.Finished? }

  /** The frames before the first result, and that result; none if the stream ends first. */
  function BeforeResult(frames: seq<Frame>): seq<Frame> {
    if frames == [] || IsResult(frames[0]) then [] else [frames[0]] + BeforeResult(frames[1..])
  }

  function FirstResult(frames: seq<Frame>): Option<Frame> {
    if frames == [] then None else if IsResult(frames[0]) then Some(frames[0]) else FirstResult(frames[1..])
  }

  /** The non-empty output frames, in order. */
  function Outputs(frames: seq<Frame>): seq<Out> {
    if frames == [] then []
    else (if IsOutput(frames[0]) && frames[0].data != "" then [Output(frames[0].kind, frames[0].data)] else [])
         + Outputs(frames[1..])
  }

  /** The report: the result's status, its error, or the lost connection. */
  function Report(result: Option<Frame>): Out {
    match result
    case None => RemoteVM(1, LOST)
    case Some(f) => if f.error != "" then RemoteVM(1, f.error) else RemoteVM(f.status, "")
  }

  function Fate(result: Option<Frame>): Verdict {
    match result
    case None => ReadFailed
    case Some(f) => if f.error != "" then TargetError(f.error) else Ok
  }

  /** Whether the first `n` sends all arrive. */
  predicate AllArrive(arrives: nat -> bool, n: nat) { forall k: nat :: k < n ==> arrives(k) }

  /**
   The relay over a stream of frames; after the last one reading fails. If every output arrives,
   exactly the non-empty outputs before the first result are sent, then one report; the report's
   own loss is not noticed. An output that does not arrive ends the relay, without a report.
   */
  method Relay(frames: seq<Frame>, arrives: nat -> bool) returns (sent: seq<Out>, verdict: Verdict)
    ensures var outputs, result := Outputs(BeforeResult(frames)), FirstResult(frames);
      if AllArrive(arrives, |outputs|) then
        && sent == outputs + (if arrives(|outputs|) then [Report(result)] else [])
        && verdict == Fate(result)
      else
        && verdict == ForwardFailed
        && |sent| < |outputs| && sent == outputs[..|sent|]
        && AllArrive(arrives, |sent|) && !arrives(|sent|)
  {
    sent := [];
    ghost var outputs := Outputs(BeforeResult(frames));
    var i := 0;
    while true
      invariant 0 <= i <= |frames|
      invariant outputs == sent + Outputs(BeforeResult(frames[i..]))
      invariant FirstResult(frames) == FirstResult(frames[i..])
      invariant AllArrive(arrives, |sent|)
      decreases |frames| - i
    {
      if i == |frames| {
        assert frames[i..] == [] && outputs == sent;
        if arrives(|sent|) { return sent + [RemoteVM(1, LOST)], ReadFailed; }
        return sent, ReadFailed;
      }
      var f := frames[i];
      ghost var rest := frames[i + 1..];
      assert frames[i..] == [f] + rest;
      hide BeforeResult, Outputs, FirstResult;
      RestOfStream(f, rest);
      if f.kind.Stdout? || f.kind.Stderr? {
        if f.data != "" {
          if !arrives(|sent|) {
            assert outputs[|sent|] == Output(f.kind, f.data);
            return sent, ForwardFailed;
          }
          sent := sent + [Output(f.kind, f.data)];
        }
      } else if f.kind.Finished? {
        if f.error != "" {
          if arrives(|sent|) { return sent + [RemoteVM(1, f.error)], TargetError(f.error); }
          return sent, TargetError(f.error);
        }
        if arrives(|sent|) { return sent + [RemoteVM(f.status, "")], Ok; }
        return sent, Ok;
      }
      i := i + 1;
    }
  }

  /** What the first frame contributes. */
  lemma RestOfStream(f: Frame, rest: seq<Frame>)
    ensures IsResult(f) ==> Outputs(BeforeResult([f] + rest)) == [] && FirstResult([f] + rest) == Some(f)
    ensures !IsResult(f) ==> FirstResult([f] + rest) == FirstResult(rest)
    ensures !IsResult(f) && IsOutput(f) && f.data != "" ==>
      Outputs(BeforeResult([f] + rest)) == [Output(f.kind, f.data)] + Outputs(BeforeResult(rest))
    ensures !IsResult(f) && !(IsOutput(f) && f.data != "") ==>
      Outputs(BeforeResult([f] + rest)) == Outputs(BeforeResult(rest))
  {
    assert ([f] + rest)[1..] == rest;
    if !IsResult(f) {
      OutputsOfFirst(f, BeforeResult(rest));
      assert [] + Outputs(BeforeResult(rest)) == Outputs(BeforeResult(rest));
    }
  }

  lemma OutputsOfFirst(f: Frame, rest: seq<Frame>)
    ensures Outputs([f] + rest)
         == (if IsOutput(f) && f.data != "" then [Output(f.kind, f.data)] else []) + Outputs(rest)
  {
    assert ([f] + rest)[1..] == rest;
  }

  // --- nothing lost, nothing reordered ---

  /** The bytes of one stream, as the target wrote them. */
  function Written(frames: seq<Frame>, kind: Kind): string {
    if frames == [] then "" else (if frames[0].kind == kind then frames[0].data else "") + Written(frames[1..], kind)
  }

  /** The bytes of one stream, as the source receives them. */
  function Received(sent: seq<Out>, kind: Kind): string {
    if sent == [] then ""
    else (if sent[0].Output? && sent[0].kind == kind then sent[0].data else "") + Received(sent[1..], kind)
  }

  /** Each stream arrives byte for byte, although empty frames are dropped. */
  lemma {:induction false} StreamsArriveWhole(frames: seq<Frame>, kind: Kind)
    requires kind.Stdout? || kind.Stderr?
    ensures Received(Outputs(frames), kind) == Written(frames, kind)
  {
    if frames != [] {
      StreamsArriveWhole(frames[1..], kind);
      var f, rest := frames[0], Outputs(frames[1..]);
      if IsOutput(f) && f.data != "" {
        assert ([Output(f.kind, f.data)] + rest)[1..] == rest;
      } else {
        assert Outputs(frames) == rest;
      }
    }
  }

  /** An error-free result is reached exactly when the relay over a working connection returns no error. */
  lemma {:induction false} FateIsOkIffResultReached(frames: seq<Frame>)
    ensures Fate(FirstResult(frames)) == Ok
      <==> exists i :: 0 <= i < |frames| && IsResult(frames[i]) && frames[i].error == ""
             && forall j :: 0 <= j < i ==> !IsResult(frames[j])
  {
    if frames != [] && !IsResult(frames[0]) {
      var rest := frames[1..];
      FateIsOkIffResultReached(rest);
      if i :| 0 <= i < |frames| && IsResult(frames[i]) && frames[i].error == "" && forall j :: 0 <= j < i ==> !IsResult(frames[j]) {
        assert rest[i - 1] == frames[i] && forall j :: 0 <= j < i - 1 ==> rest[j] == frames[j + 1];
      }
      if i :| 0 <= i < |rest| && IsResult(rest[i]) && rest[i].error == "" && forall j :: 0 <= j < i ==> !IsResult(rest[j]) {
        assert frames[i + 1] == rest[i];
        forall j | 0 <= j < i + 1 ensures !IsResult(frames[j]) { assert j > 0 ==> frames[j] == rest[j - 1]; }
      }
    } else if frames != [] {
      assert IsResult(frames[0]);
    }
  }
}
