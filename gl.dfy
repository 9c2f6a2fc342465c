/** The OpenGL driver as the mask-fill path sees it: fence handles, the answers of
    glClientWaitSync, and a log of the calls made into the driver and back into Java. */
module Gl {
  import opened Seqs

  /** A GLsync handle; the driver names each new fence with a number it has not used before. */
  datatype Sync = Sync(name: nat)

  /** The answers glClientWaitSync can give. */
  datatype WaitStatus = AlreadySignaled | ConditionSatisfied | TimeoutExpired | WaitFailed

  /** The two answers that mean the GPU has passed the fence. */
  predicate Signalled(s: WaitStatus)
  {
    s == AlreadySignaled || s == ConditionSatisfied
  }

  /** One observable call: into the driver, or (SetFenceAvailable) through JNI back into Java. */
  datatype Call =
    | DrawArrays(first: int, count: int)     // glDrawArrays(GL_QUADS, first, count)
    | FenceSync(sync: Sync)                  // glFenceSync(GL_SYNC_GPU_COMMANDS_COMPLETE, 0)
    | ClientWaitSync(sync: Sync, status: WaitStatus)
    | DeleteSync(sync: Sync)
    | GlFlush
    | SetFenceAvailable(region: int)

  /** The driver eventually reports the fence as passed. The polling loop only terminates
      under this assumption; it is how the model states "the GPU makes progress". */
  predicate SignalsEventually(replies: seq<WaitStatus>)
  {
    Eventually(replies, Signalled)
  }

  /** The number of glClientWaitSync calls the polling loop makes. */
  function Attempts(replies: seq<WaitStatus>): (n: nat)
    requires SignalsEventually(replies)
    ensures 1 <= n <= |replies|
  {
    FirstWhere(replies, Signalled) + 1
  }

  /** One ClientWaitSync call per reply, in order. */
  function Polls(sync: Sync, replies: seq<WaitStatus>): seq<Call>
  {
    seq(|replies|, i requires 0 <= i < |replies| => ClientWaitSync(sync, replies[i]))
  }

  /** The calls waitForFence makes against a driver that answers `replies`. */
  function WaitTrace(sync: Sync, replies: seq<WaitStatus>): seq<Call>
    requires SignalsEventually(replies)
  {
    Polls(sync, replies[..Attempts(replies)]) + [DeleteSync(sync)]
  }

  /** How many calls in `t` delete `sync`. */
  function Deletions(t: seq<Call>, sync: Sync): nat
  {
    if t == [] then 0
    else Deletions(t[..|t| - 1], sync) + (if t[|t| - 1] == DeleteSync(sync) then 1 else 0)
  }

  lemma {:induction false} PollsDeleteNothing(sync: Sync, replies: seq<WaitStatus>)
    ensures Deletions(Polls(sync, replies), sync) == 0
  {
    if replies != [] {
      var n := |replies|;
      assert Polls(sync, replies)[..n - 1] == Polls(sync, replies[..n - 1]);
      PollsDeleteNothing(sync, replies[..n - 1]);
    }
  }

  /** waitForFence leaves its loop only on one of the two success answers, retries every other
      answer, and deletes the fence exactly once, after the last poll. */
  lemma {:induction false} WaitTraceShape(sync: Sync, replies: seq<WaitStatus>)
    requires SignalsEventually(replies)
    ensures var t := WaitTrace(sync, replies);
      && |t| >= 2
      && t[|t| - 1] == DeleteSync(sync)
      && t[|t| - 2] == ClientWaitSync(sync, replies[|t| - 2])
      && Signalled(t[|t| - 2].status)
      && (forall i :: 0 <= i < |t| - 2 ==> t[i] == ClientWaitSync(sync, replies[i]) && !Signalled(replies[i]))
      && Deletions(t, sync) == 1
  {
    var t := WaitTrace(sync, replies);
    var polled := replies[..Attempts(replies)];
    assert t[..|t| - 1] == Polls(sync, polled);
    PollsDeleteNothing(sync, polled);
  }
}
