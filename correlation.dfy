/** `filter_for_message`, which waits for the reply to a sent message
    (eiscp/core.py:271-296). The getter and the wall clock are replaced by a
    finite trace of observations: what the getter returned on each poll, and
    the seconds elapsed since the wait began when that poll's deadline check
    runs. */
module Correlation {
  import opened Wrappers
  import opened Text

  /** A reply arriving later than this many seconds after the start ends the
      wait. */
  const TIMEOUT: real := 5.0

  /** The command group of HDMI-CEC control, whose messages get no reply. */
  const CTV: string := "CTV"

  /** One poll: what `getter_func(0.05)` returned (`None` or a message), and
      `time.time() - start` at the check that follows it. */
  datatype Poll = Poll(candidate: Option<string>, elapsed: real)

  /** How a wait over a trace ends: with a message, with a `ValueError` on
      timeout, or not at all within the trace. */
  datatype Wait = Done(outcome: Result<string>) | Waiting

  /** `candidate and ...`: `None` and the empty string are both false. */
  predicate IsPresent(candidate: Option<string>)
  {
    candidate.Some? && candidate.value != ""
  }

  /** A reply to `msg`: same three-character command group, or an MDI reply
      to an MGS (multiroom grouping) message. */
  predicate Matches(candidate: Option<string>, msg: string)
  {
    && IsPresent(candidate)
    && (|| Take(candidate.value, 3) == Take(msg, 3)
        || (Take(candidate.value, 3) == "MDI" && Take(msg, 3) == "MGS"))
  }

  /** `"CTV" in msg[:3]`: a substring of length three of a string of at most
      three characters is the whole string. */
  predicate IsCtv(msg: string)
  {
    Take(msg, 3) == CTV
  }

  /** Whether the wait ends right after this poll. */
  predicate Decides(p: Poll, msg: string)
  {
    Matches(p.candidate, msg) || IsCtv(msg) || p.elapsed > TIMEOUT
  }

  /** How the wait ends at a deciding poll: the matching candidate, else the
      sent message itself for CTV, else a timeout. */
  function Verdict(p: Poll, msg: string): (r: Result<string>)
    requires Decides(p, msg)
    ensures r.Ok? <==> Matches(p.candidate, msg) || IsCtv(msg)
    ensures Matches(p.candidate, msg) ==> r == Ok(p.candidate.value)
    ensures !Matches(p.candidate, msg) && IsCtv(msg) ==> r == Ok(msg)
    ensures r.Err? ==> r.error == ValueError(ResponseTimeout) && p.elapsed > TIMEOUT
  {
    if Matches(p.candidate, msg) then Ok(p.candidate.value)
    else if IsCtv(msg) then Ok(msg)
    else Err(ValueError(ResponseTimeout))
  }

  /** The wait as a recursion over the trace: the first deciding poll gives
      the verdict. */
  function Filter(trace: seq<Poll>, msg: string): (w: Wait)
    ensures w.Waiting? <==> forall i :: 0 <= i < |trace| ==> !Decides(trace[i], msg)
    ensures w.Done? && w.outcome.Ok? ==>
      w.outcome.value == msg || exists i :: 0 <= i < |trace| && trace[i].candidate == Some(w.outcome.value)
    ensures w.Done? && w.outcome.Err? ==> w.outcome.error == ValueError(ResponseTimeout)
  {
    if |trace| == 0 then Waiting
    else if Decides(trace[0], msg) then Done(Verdict(trace[0], msg))
    else Filter(trace[1..], msg)
  }

  /** The `while True` loop of `filter_for_message`, run over the trace. */
  method FilterForMessage(trace: seq<Poll>, msg: string) returns (w: Wait)
    ensures w == Filter(trace, msg)
    ensures w.Waiting? <==> forall i :: 0 <= i < |trace| ==> !Decides(trace[i], msg)
  {
    var i := 0;
    while i < |trace|
      invariant 0 <= i <= |trace|
      invariant forall j :: 0 <= j < i ==> !Decides(trace[j], msg)
      invariant Filter(trace, msg) == Filter(trace[i..], msg)
    {
      var p := trace[i];
      if Matches(p.candidate, msg) {
        return Done(Ok(p.candidate.value));
      }
      if IsCtv(msg) {
        return Done(Ok(msg));
      }
      if p.elapsed > TIMEOUT {
        return Done(Err(ValueError(ResponseTimeout)));
      }
      assert trace[i..][1..] == trace[i + 1..];
      i := i + 1;
    }
    assert forall j :: 0 <= j < |trace| ==> !Decides(trace[j], msg);
    return Waiting;
  }

  /** The wait ends exactly at the first deciding poll: the polls before it
      are discarded, and its verdict is the result. */
  lemma {:induction false} FilterFirstDecisive(trace: seq<Poll>, msg: string, k: nat)
    requires k < |trace| && Decides(trace[k], msg)
    requires forall j :: 0 <= j < k ==> !Decides(trace[j], msg)
    ensures Filter(trace, msg) == Done(Verdict(trace[k], msg))
    decreases k
  {
    if k > 0 {
      FilterFirstDecisive(trace[1..], msg, k - 1);
    }
  }

  /** Conversely, a finished wait came from some first deciding poll. */
  lemma {:induction false} FilterDoneHasDecisive(trace: seq<Poll>, msg: string)
    requires Filter(trace, msg).Done?
    ensures exists k ::
      && 0 <= k < |trace| && Decides(trace[k], msg)
      && (forall j :: 0 <= j < k ==> !Decides(trace[j], msg))
      && Filter(trace, msg) == Done(Verdict(trace[k], msg))
  {
    if !Decides(trace[0], msg) {
      FilterDoneHasDecisive(trace[1..], msg);
      var k :| 0 <= k < |trace[1..]| && Decides(trace[1..][k], msg)
        && (forall j :: 0 <= j < k ==> !Decides(trace[1..][j], msg))
        && Filter(trace[1..], msg) == Done(Verdict(trace[1..][k], msg));
      assert Decides(trace[k + 1], msg);
    } else {
      assert Decides(trace[0], msg);
    }
  }

  /** A CTV message never waits: one poll settles it, with the candidate if
      it matches and the sent message otherwise, whatever the clock says. */
  lemma CtvAfterOnePoll(trace: seq<Poll>, msg: string)
    requires IsCtv(msg) && |trace| >= 1
    ensures Filter(trace, msg)
         == Done(Ok(if Matches(trace[0].candidate, msg) then trace[0].candidate.value else msg))
  {
  }

  /** A reply that matches before the deadline is returned, whatever came
      before it that did not match. */
  lemma ReplyBeforeDeadline(trace: seq<Poll>, msg: string, k: nat)
    requires !IsCtv(msg) && k < |trace| && Matches(trace[k].candidate, msg)
    requires forall j :: 0 <= j < k ==> !Matches(trace[j].candidate, msg) && trace[j].elapsed <= TIMEOUT
    ensures Filter(trace, msg) == Done(Ok(trace[k].candidate.value))
  {
    FilterFirstDecisive(trace, msg, k);
  }

  /** Without a matching reply, a non-CTV wait fails with a timeout at the
      first check past five seconds. */
  lemma TimeoutWithoutReply(trace: seq<Poll>, msg: string, k: nat)
    requires !IsCtv(msg) && k < |trace| && trace[k].elapsed > TIMEOUT
    requires forall j :: 0 <= j <= k ==> !Matches(trace[j].candidate, msg)
    requires forall j :: 0 <= j < k ==> trace[j].elapsed <= TIMEOUT
    ensures Filter(trace, msg) == Done(Err(ValueError(ResponseTimeout)))
  {
    FilterFirstDecisive(trace, msg, k);
  }

  /** Sending PVR00 while the receiver answers PVR01 before any other
      traffic: the wait returns PVR01. */
  lemma PowerQueryExample(elapsed: real)
    ensures Filter([Poll(Some("PVR01"), elapsed)], "PVR00") == Done(Ok("PVR01"))
  {
    assert Take("PVR01", 3) == "PVR" == Take("PVR00", 3);
  }
}
