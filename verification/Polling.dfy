/** Polling of an asynchronous task (featurebyte/api/mixin.py). */
module Polling {
  import opened Wrappers

  datatype TaskStatus =
    | Pending | Received | Started | SuccessStatus | FailureStatus | Revoked | Rejected | Retry | Ignored

  /** The answer to a poll; None is any status other than 200. */
  type Poll = Option<(TaskStatus, Option<string>)>

  /** `raised` and `value` are what the caller sees; Waiting: the server has not answered further. */
  datatype Outcome = Returned(outputUrl: Option<string>) | Raised(error: Error) | Waiting

  /** After the answers to `polls` requests, each sent while the last known status was STARTED or
      PENDING, the task has this status. */
  ghost predicate EndsWith(initial: TaskStatus, answers: seq<Poll>, polls: nat, status: TaskStatus) {
    && polls <= |answers|
    && (forall i :: 0 <= i < polls ==> answers[i].Some?)
    && (polls > 0 ==> initial in {Started, Pending})
    && (forall i :: 0 <= i < polls - 1 ==> answers[i].value.0 in {Started, Pending})
    && status == if polls == 0 then initial else answers[polls - 1].value.0
  }

  /** `_poll_async_task`; `fetched` is whether the request for the result is answered with 200. The path
      of the output is the creating response's, else the last poll's. */
  method PollAsyncTask(initial: TaskStatus, created: Option<string>, answers: seq<Poll>,
                       retrieveResult: bool, hasOutputUrl: bool, fetched: bool)
    returns (outcome: Outcome, polls: nat, status: TaskStatus)
    ensures EndsWith(initial, answers, polls, status)
    ensures status == if polls == 0 then initial else answers[polls - 1].value.0
    ensures polls > 0 ==> initial in {Started, Pending}
    ensures forall i :: 0 <= i < polls - 1 ==> answers[i].Some? && answers[i].value.0 in {Started, Pending}
    ensures outcome.Waiting? <==> status in {Started, Pending} && polls == |answers|
    ensures status in {Started, Pending} && polls < |answers| ==>
              answers[polls].None? && outcome == Raised(RecordRetrievalException)
    ensures status !in {Started, Pending, SuccessStatus} ==> outcome == Raised(RecordCreationException)
    ensures status == SuccessStatus ==>
              var url := if created.Some? || polls == 0 then created else answers[polls - 1].value.1;
              outcome == if (url.None? && hasOutputUrl) || (retrieveResult && !fetched)
                         then Raised(RecordRetrievalException) else Returned(url)
  {
    status, polls := initial, 0;
    while status in {Started, Pending}
      invariant EndsWith(initial, answers, polls, status)
      decreases |answers| - polls
    {
      if polls == |answers| {
        return Waiting, polls, status;
      }
      if answers[polls].None? {
        return Raised(RecordRetrievalException), polls, status;
      }
      status := answers[polls].value.0;
      polls := polls + 1;
    }
    if !status.SuccessStatus? {
      return Raised(RecordCreationException), polls, status;
    }
    var url := created;
    if url.None? && polls > 0 {
      url := answers[polls - 1].value.1;
    }
    if url.None? && hasOutputUrl {
      return Raised(RecordRetrievalException), polls, status;
    }
    if retrieveResult && !fetched {
      return Raised(RecordRetrievalException), polls, status;
    }
    outcome := Returned(url);
  }

  /** The loop ends at the first status outside the running ones: no other number of polls does. */
  lemma EndIsUnique(initial: TaskStatus, answers: seq<Poll>, m: nat, s: TaskStatus, n: nat, t: TaskStatus)
    requires EndsWith(initial, answers, m, s) && s !in {Started, Pending}
    requires EndsWith(initial, answers, n, t) && t !in {Started, Pending}
    ensures m == n && s == t
  {
  }
}
