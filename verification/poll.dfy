/**
 The wait for an install job: after the upload, the deployer polls the job's
 status link, sleeping after every answer that is not done, and stops at the
 first answer that is done. There is no bound on the number of polls.
 */
module Poll {
  import opened Records

  /** The answer to one status poll; a body without `done` counts as not done. */
  datatype StatusReply = StatusError | Status(done: bool)

  /** The wait as a state machine; `polls` counts the status requests made. */
  datatype PollState =
    | Pending(polls: nat)
    | Done(polls: nat)
    | PollFailed(polls: nat)

  /** One poll from a pending state. */
  function Step(s: PollState, reply: StatusReply): (t: PollState)
    requires s.Pending?
    ensures t.polls == s.polls + 1
    ensures t.Done? <==> reply == Status(true)
    ensures t.PollFailed? <==> reply == StatusError
  {
    match reply
    case StatusError => PollFailed(s.polls + 1)
    case Status(done) => if done then Done(s.polls + 1) else Pending(s.polls + 1)
  }

  /** The poll answered by `statuses[k]` is the first that reports done. */
  ghost predicate FirstDone(statuses: seq<StatusReply>, k: int)
  {
    && 0 <= k < |statuses|
    && statuses[k] == Status(true)
    && forall j :: 0 <= j < k ==> statuses[j] == Status(false)
  }

  /** The first `n` answers all report not done. */
  ghost predicate AllPending(statuses: seq<StatusReply>, n: int)
    requires 0 <= n <= |statuses|
  {
    forall j :: 0 <= j < n ==> statuses[j] == Status(false)
  }

  /** A wait so far: the state it reached and the remote effects it performed. */
  datatype Waiting = Waiting(state: PollState, effects: seq<Effect>)

  /** The effects of the poll that moved the wait to `t`: the status request,
      then the pause when the answer was not done. */
  function StepEffects(t: PollState): seq<Effect>
  {
    if t.Pending? then [PollStatus, Sleep(PollDelay)] else [PollStatus]
  }

  /** Runs the machine from `s` on the answers `statuses`, one per poll, until
      it leaves the pending state or the answers run out, logging each poll
      and each pause. */
  function Drive(s: PollState, statuses: seq<StatusReply>): (r: Waiting)
    ensures !s.Pending? ==> r == Waiting(s, [])
    ensures s.Pending? && r.state.Done? ==>
              s.polls < r.state.polls <= s.polls + |statuses| && FirstDone(statuses, r.state.polls - s.polls - 1)
    ensures s.Pending? && r.state.PollFailed? ==>
              s.polls < r.state.polls <= s.polls + |statuses| && statuses[r.state.polls - s.polls - 1] == StatusError
              && AllPending(statuses, r.state.polls - s.polls - 1)
    ensures s.Pending? && r.state.Pending? ==> r.state.polls == s.polls + |statuses| && AllPending(statuses, |statuses|)
    decreases |statuses|
  {
    if !s.Pending? || |statuses| == 0 then Waiting(s, [])
    else
      var t := Step(s, statuses[0]);
      var rest := Drive(t, statuses[1..]);
      Waiting(rest.state, StepEffects(t) + rest.effects)
  }

  /** The counts of one poll's effects: one request, and one pause exactly
      when the wait goes on. */
  lemma StepCounts(t: PollState)
    ensures Count(StepEffects(t), IsPoll) == 1
    ensures Count(StepEffects(t), IsSleep) == if t.Pending? then 1 else 0
    ensures Count(StepEffects(t), IsDownload) == 0 && Count(StepEffects(t), IsUpload) == 0
    ensures Count(StepEffects(t), IsFetchInventory) == 0
  {
    assert [PollStatus, Sleep(PollDelay)][1..] == [Sleep(PollDelay)];
  }

  /** A wait from a pending state logs one request per poll and one pause per
      not-done answer, so one pause fewer than polls once it stopped; a wait
      that stopped ends with the poll that stopped it. It touches nothing but
      the status link. */
  lemma {:induction false} DriveEffects(s: PollState, statuses: seq<StatusReply>)
    requires s.Pending?
    ensures Count(Drive(s, statuses).effects, IsPoll) == Drive(s, statuses).state.polls - s.polls
    ensures Count(Drive(s, statuses).effects, IsSleep)
              == if Drive(s, statuses).state.Pending? then Drive(s, statuses).state.polls - s.polls
                 else Drive(s, statuses).state.polls - s.polls - 1
    ensures Count(Drive(s, statuses).effects, IsDownload) == 0 && Count(Drive(s, statuses).effects, IsUpload) == 0
    ensures Count(Drive(s, statuses).effects, IsFetchInventory) == 0
    ensures !Drive(s, statuses).state.Pending? ==>
              |Drive(s, statuses).effects| > 0 && Drive(s, statuses).effects[|Drive(s, statuses).effects| - 1] == PollStatus
    decreases |statuses|
  {
    if |statuses| > 0 {
      var t := Step(s, statuses[0]);
      var rest := Drive(t, statuses[1..]);
      var es := StepEffects(t);
      StepCounts(t);
      if t.Pending? {
        DriveEffects(t, statuses[1..]);
      } else {
        assert rest == Waiting(t, []);
      }
      assert Drive(s, statuses) == Waiting(rest.state, es + rest.effects);
      CountAppend(es, rest.effects, IsPoll);
      CountAppend(es, rest.effects, IsSleep);
      CountAppend(es, rest.effects, IsDownload);
      CountAppend(es, rest.effects, IsUpload);
      CountAppend(es, rest.effects, IsFetchInventory);
    }
  }

  /** The wait of `install` from the first poll on: it ends done exactly at
      the first answer that reports done, after one poll per answer up to
      that one and one pause per answer before it, and the poll that saw
      done is its last effect. */
  function Wait(statuses: seq<StatusReply>): (r: Waiting)
    ensures r.state.polls <= |statuses|
    ensures forall k :: FirstDone(statuses, k) ==> r.state == Done(k + 1)
    ensures r.state.Done? ==> FirstDone(statuses, r.state.polls - 1)
    ensures r.state.PollFailed? ==>
              0 < r.state.polls && statuses[r.state.polls - 1] == StatusError && AllPending(statuses, r.state.polls - 1)
    ensures r.state.Pending? ==> r.state.polls == |statuses| && AllPending(statuses, |statuses|)
    ensures Count(r.effects, IsPoll) == r.state.polls
    ensures Count(r.effects, IsSleep) == if r.state.Pending? then r.state.polls else r.state.polls - 1
    ensures Count(r.effects, IsDownload) == 0 && Count(r.effects, IsUpload) == 0
    ensures Count(r.effects, IsFetchInventory) == 0
    ensures r.state.Done? ==> |r.effects| > 0 && r.effects[|r.effects| - 1] == PollStatus
  {
    DriveEffects(Pending(0), statuses);
    Drive(Pending(0), statuses)
  }
}
