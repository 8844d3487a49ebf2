/** Polling a batch is polling one message at a time until the first failure. */
module Batch {
  import opened Clocks
  import opened EngineModel
  import EngineLaws

  /** The state after k polls in a row, successful or not. */
  function Polls(env: Env, s: Engine, k: nat): Engine {
    if k == 0 then s else PollOnce(env, Polls(env, s, k - 1)).0
  }

  /** Everything proved of runs holds of batches: k polls are a run of k poll events. */
  lemma {:induction false} PollsAreARun(env: Env, s: Engine, k: nat)
    ensures Polls(env, s, k) == Run(env, s, seq(k, _ => CallPoll))
  {
    if k > 0 {
      PollsAreARun(env, s, k - 1);
      assert seq(k, _ => CallPoll)[..k - 1] == seq(k - 1, _ => CallPoll);
      hide PollOnce;
    }
  }

  /** A batch of at most max polls from s may end with n messages processed, in state r. */
  ghost predicate Outcome(env: Env, s: Engine, max: nat, n: nat, r: Engine) {
    && n <= max
    && (forall i :: 0 <= i < n ==> PollOnce(env, Polls(env, s, i)).1)
    && (n < max ==> !PollOnce(env, Polls(env, s, n)).1)
    && r == Polls(env, s, if n < max then n + 1 else n)
  }

  /** The outcome is determined by the state the batch starts in. */
  lemma OutcomeIsUnique(env: Env, s: Engine, max: nat, n: nat, r: Engine, n': nat, r': Engine)
    requires Outcome(env, s, max, n, r) && Outcome(env, s, max, n', r')
    ensures n == n' && r == r'
  {
    hide PollOnce, Polls;
  }

  /** A poll takes one datagram off a non-empty inbox of a running engine, and none otherwise. */
  function TakenBy(s: Engine): nat {
    if IsRunning(s) && s.backend.inbox != [] then 1 else 0
  }

  lemma PollTakes(env: Env, s: Engine)
    ensures PollOnce(env, s).0.backend.inbox == s.backend.inbox[TakenBy(s)..]
    ensures PollOnce(env, s).1 ==> TakenBy(s) == 1
  {
    PollEffect(env, s);
  }

  lemma {:induction false} SuccessfulPollsTakeOneEach(env: Env, s: Engine, n: nat)
    requires forall i :: 0 <= i < n ==> PollOnce(env, Polls(env, s, i)).1
    ensures n <= |s.backend.inbox| && Polls(env, s, n).backend.inbox == s.backend.inbox[n..]
  {
    hide PollOnce;
    if n > 0 {
      SuccessfulPollsTakeOneEach(env, s, n - 1);
      PollTakes(env, Polls(env, s, n - 1));
    }
  }

  /** A batch that processed n messages took n or n + 1 datagrams, all from the front of the inbox. */
  lemma BatchTakesAPrefix(env: Env, s: Engine, max: nat, n: nat, r: Engine)
    requires Outcome(env, s, max, n, r)
    ensures exists taken :: && n <= taken <= n + 1 && taken <= |s.backend.inbox|
                            && r.backend.inbox == s.backend.inbox[taken..]
  {
    hide PollOnce;
    SuccessfulPollsTakeOneEach(env, s, n);
    if n < max {
      PollTakes(env, Polls(env, s, n));
      var taken := n + TakenBy(Polls(env, s, n));
      assert r.backend.inbox == s.backend.inbox[taken..];
    } else {
      assert r.backend.inbox == s.backend.inbox[n..];
    }
  }

  /** The polls a batch makes, as events. */
  function BatchEvents(max: nat, n: nat): seq<Event> {
    seq(if n < max then n + 1 else n, _ => CallPoll)
  }

  /** A batch after a run is a longer run, so the laws of runs hold of its outcome: the engine is consistent and
      timely, and its registry is the history that includes the batch's own polls. */
  lemma BatchesObeyTheLaws(env: Env, s: Engine, events: seq<Event>, max: nat, n: nat, r: Engine)
    requires Initial(s) && Outcome(env, Run(env, s, events), max, n, r)
    ensures var all := events + BatchEvents(max, n);
            && r == Run(env, s, all)
            && EngineLaws.Consistent(env, r)
            && (Nondecreasing(env.at) ==> EngineLaws.Timely(env, r))
            && EngineLaws.StoredAnnouncements(r.peers) == EngineLaws.LastById(EngineLaws.History(env, s, all))
  {
    hide PollOnce, EngineLaws.Consistent, EngineLaws.Timely;
    PollsAreARun(env, Run(env, s, events), |BatchEvents(max, n)|);
    RunConcat(env, s, events, BatchEvents(max, n));
    var all := events + BatchEvents(max, n);
    EngineLaws.AlwaysConsistent(env, s, all);
    if Nondecreasing(env.at) {
      EngineLaws.AlwaysTimely(env, s, all);
    }
    EngineLaws.RegistryIsHistory(env, s, all);
  }

  /** A batch keeps any consistent engine consistent. */
  lemma BatchKeepsConsistent(env: Env, s: Engine, k: nat)
    requires EngineLaws.Consistent(env, s)
    ensures EngineLaws.Consistent(env, Polls(env, s, k))
  {
    PollsAreARun(env, s, k);
    EngineLaws.RunKeepsConsistent(env, s, seq(k, _ => CallPoll));
  }
}
