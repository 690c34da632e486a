/** The job-status watcher of `dwh-monitord`: a worker that, every `period` seconds, asks the
    server for the status of each pending remote job and drops the finished ones from the
    pending-jobs queue. */
module Monitor {
  import opened Wrappers
  import opened Text
  import opened Storage
  import opened PendingJobs
  import opened Process

  // ---------------------------------------------------------------------------------------
  // One poll
  // ---------------------------------------------------------------------------------------

  /** The reply to a status request: a non-ok HTTP response, or the `code` and `status`
      entries of the JSON body (`None` when absent). */
  datatype StatusReply = NotOk(statusCode: int) | Replied(code: Option<int>, status: Option<string>)

  /** A job stays pending after a non-ok response or a positive completion code; code 0
      (completed) and negative codes (failed) end it. */
  predicate Keeps(reply: StatusReply)
    requires reply.Replied? ==> reply.code.Some?
  {
    reply.NotOk? || reply.code.value > 0
  }

  /** A reply whose body has no `code` raises `KeyError`, which ends the worker. */
  predicate Unreadable(reply: StatusReply)
  {
    reply.Replied? && reply.code.None?
  }

  /** The message logged for a failed job: the reply's `status`, or `unknown code`. */
  function CodeMessage(status: Option<string>): (m: string)
    ensures status.Some? ==> m == status.value
    ensures status.None? ==> m == "unknown code"
  {
    match status
    case Some(s) => s
    case None => "unknown code"
  }

  /** The number of snapshot positions, from `i` on, handled before an unreadable reply. */
  function Answered(reply: nat -> StatusReply, i: nat, n: nat): (k: nat)
    requires i <= n
    ensures i <= k <= n
    ensures forall j :: i <= j < k ==> !Unreadable(reply(j))
    ensures k < n ==> Unreadable(reply(k))
    decreases n - i
  {
    if i == n then n else if Unreadable(reply(i)) then i else Answered(reply, i + 1, n)
  }

  predicate AllReadable(reply: nat -> StatusReply, n: nat)
  {
    forall j :: 0 <= j < n ==> !Unreadable(reply(j))
  }

  /** The ids of the snapshot `ids` that stay pending; `reply(i)` answers position `i`. */
  function Kept(ids: seq<string>, reply: nat -> StatusReply): seq<string>
    requires AllReadable(reply, |ids|)
  {
    if ids == [] then []
    else
      var i := |ids| - 1;
      Kept(ids[..i], reply) + (if Keeps(reply(i)) then [ids[i]] else [])
  }

  /** The queue after the loop has handled the snapshot positions of `ids`, starting from
      the queue `q`: each ended job is removed, first occurrence first. */
  function Handled(q: seq<string>, ids: seq<string>, reply: nat -> StatusReply): seq<string>
    requires AllReadable(reply, |ids|)
  {
    if ids == [] then q
    else
      var i := |ids| - 1;
      var q1 := Handled(q, ids[..i], reply);
      if Keeps(reply(i)) then q1 else RemoveFirst(q1, ids[i])
  }

  /** Whether the loop removed some job while handling the first `n` positions. */
  predicate AnyRemoved(n: nat, reply: nat -> StatusReply)
    requires AllReadable(reply, n)
  {
    exists i :: 0 <= i < n && !Keeps(reply(i))
  }

  /** The failures the loop logs: job id, negative code and message. */
  function Failures(ids: seq<string>, reply: nat -> StatusReply): seq<(string, int, string)>
    requires AllReadable(reply, |ids|)
  {
    if ids == [] then []
    else
      var i := |ids| - 1;
      var r := reply(i);
      Failures(ids[..i], reply) +
        (if r.Replied? && r.code.value < 0 then [(ids[i], r.code.value, CodeMessage(r.status))] else [])
  }

  /** The files once `PendingJobsQueue()` has opened the default queue file, creating it
      empty when missing. */
  function Opened(files: map<string, string>): map<string, string>
  {
    if DefaultPath in files then files else files[DefaultPath := ""]
  }

  /** The files after a poll that handled the snapshot positions `ids`: every removal saved
      the queue. */
  function PollFiles(files: map<string, string>, ids: seq<string>, reply: nat -> StatusReply): map<string, string>
    requires AllReadable(reply, |ids|)
  {
    if AnyRemoved(|ids|, reply) then Opened(files)[DefaultPath := SavedContent(Handled(Queued(files), ids, reply))]
    else Opened(files)
  }

  /** Handling a prefix of the snapshot leaves the kept ids plus the unhandled ones. */
  lemma {:induction false} HandledMultiset(ids: seq<string>, k: nat, reply: nat -> StatusReply)
    requires k <= |ids| && AllReadable(reply, k)
    ensures multiset(Handled(ids, ids[..k], reply)) == multiset(Kept(ids[..k], reply)) + multiset(ids[k..])
  {
    if k == 0 {
      assert ids[..0] == [] && ids[0..] == ids;
    } else {
      HandledMultiset(ids, k - 1, reply);
      HandledMultisetStep(ids, k - 1, reply);
    }
  }

  /** The induction step of `HandledMultiset`, from position `i` to `i + 1`. */
  lemma HandledMultisetStep(ids: seq<string>, i: nat, reply: nat -> StatusReply)
    requires i < |ids| && AllReadable(reply, i + 1)
    requires multiset(Handled(ids, ids[..i], reply)) == multiset(Kept(ids[..i], reply)) + multiset(ids[i..])
    ensures multiset(Handled(ids, ids[..i + 1], reply)) == multiset(Kept(ids[..i + 1], reply)) + multiset(ids[i + 1..])
  {
    var x := ids[i];
    var q1 := Handled(ids, ids[..i], reply);
    var k1 := Kept(ids[..i], reply);
    var h := Handled(ids, ids[..i + 1], reply);
    var k := Kept(ids[..i + 1], reply);
    var keeps := Keeps(reply(i));
    assert keeps ==> h == q1 && k == k1 + [x] by {
      HandledStep(ids, i, reply);
    }
    assert !keeps ==> multiset(h) == multiset(q1) - multiset{x} && k == k1 by {
      HandledStep(ids, i, reply);
      RemoveFirstMultiset(q1, x);
    }
    SuffixMultiset(ids, i);
    Compose(multiset(h), multiset(k), multiset(ids[i + 1..]), multiset(q1), multiset(k1), x, keeps);
  }

  /** Handling position `i` extends the queue and the kept ids by that position's effect. */
  lemma HandledStep(ids: seq<string>, i: nat, reply: nat -> StatusReply)
    requires i < |ids| && AllReadable(reply, i + 1)
    ensures var q := Handled(ids, ids[..i], reply);
            Handled(ids, ids[..i + 1], reply) == (if Keeps(reply(i)) then q else RemoveFirst(q, ids[i]))
    ensures Kept(ids[..i + 1], reply) == Kept(ids[..i], reply) + (if Keeps(reply(i)) then [ids[i]] else [])
  {
    assert ids[..i + 1][..i] == ids[..i];
  }

  /** A suffix's multiset is its head plus the rest. */
  lemma SuffixMultiset(ids: seq<string>, i: nat)
    requires i < |ids|
    ensures multiset(ids[i..]) == multiset{ids[i]} + multiset(ids[i + 1..])
  {
    assert ids[i..] == [ids[i]] + ids[i + 1..];
  }

  /** The multiset arithmetic of one step: a kept id moves from the unhandled part to the
      kept part; a removed one leaves both the queue and the unhandled part. */
  lemma Compose(mh: multiset<string>, mk: multiset<string>, rest: multiset<string>,
                mq: multiset<string>, mk1: multiset<string>, x: string, keeps: bool)
    requires mq == mk1 + (multiset{x} + rest)
    requires keeps ==> mh == mq && mk == mk1 + multiset{x}
    requires !keeps ==> mh == mq - multiset{x} && mk == mk1
    ensures mh == mk + rest
  {
  }

  /** A poll never adds ids: the queue it leaves holds, as a multiset, exactly the snapshot's
      ids whose job is still pending. */
  lemma PollLeavesKept(ids: seq<string>, reply: nat -> StatusReply)
    requires AllReadable(reply, |ids|)
    ensures multiset(Handled(ids, ids, reply)) == multiset(Kept(ids, reply))
    ensures multiset(Kept(ids, reply)) <= multiset(ids)
  {
    HandledMultiset(ids, |ids|, reply);
    assert ids[..|ids|] == ids;
    assert ids[|ids|..] == [];
    KeptSubmultiset(ids, reply);
  }

  /** For a snapshot without duplicates, the queue a poll leaves is the kept ids, in the
      order of the snapshot. */
  lemma PollKeepsOrder(ids: seq<string>, reply: nat -> StatusReply)
    requires AllReadable(reply, |ids|)
    requires NoDuplicates(ids)
    ensures Handled(ids, ids, reply) == Kept(ids, reply)
  {
    HandledInOrder(ids, |ids|, reply);
    assert ids[..|ids|] == ids;
    assert ids[|ids|..] == [];
  }

  /** Handling a prefix of a duplicate-free snapshot leaves the kept ids, then the unhandled
      ones, in order. */
  lemma {:induction false} HandledInOrder(ids: seq<string>, k: nat, reply: nat -> StatusReply)
    requires k <= |ids| && AllReadable(reply, k)
    requires NoDuplicates(ids)
    ensures Handled(ids, ids[..k], reply) == Kept(ids[..k], reply) + ids[k..]
  {
    if k == 0 {
      assert ids[..0] == [] && ids[0..] == ids;
    } else {
      HandledInOrder(ids, k - 1, reply);
      HandledInOrderStep(ids, k - 1, reply);
    }
  }

  /** The step of `HandledInOrder` from position `i` to `i + 1`. */
  lemma HandledInOrderStep(ids: seq<string>, i: nat, reply: nat -> StatusReply)
    requires i < |ids| && AllReadable(reply, i + 1)
    requires NoDuplicates(ids)
    requires Handled(ids, ids[..i], reply) == Kept(ids[..i], reply) + ids[i..]
    ensures Handled(ids, ids[..i + 1], reply) == Kept(ids[..i + 1], reply) + ids[i + 1..]
  {
    var x, rest := ids[i], ids[i + 1..];
    var q, k1 := Handled(ids, ids[..i], reply), Kept(ids[..i], reply);
    assert q == k1 + ([x] + rest) by {
      assert ids[i..] == [x] + rest;
    }
    KeptAvoids(ids, i, reply);
    HandledStep(ids, i, reply);
    OrderCompose(Handled(ids, ids[..i + 1], reply), q, Kept(ids[..i + 1], reply), k1, rest, x, Keeps(reply(i)));
  }

  /** The sequence arithmetic of one step: a kept id moves from the unhandled part to the
      end of the kept part; a removed one leaves the queue. */
  lemma OrderCompose(h: seq<string>, q: seq<string>, k: seq<string>, k1: seq<string>,
                     rest: seq<string>, x: string, keeps: bool)
    requires q == k1 + ([x] + rest) && x !in k1
    requires keeps ==> h == q && k == k1 + [x]
    requires !keeps ==> h == RemoveFirst(q, x) && k == k1
    ensures h == k + rest
  {
    if keeps {
      assert k1 + ([x] + rest) == (k1 + [x]) + rest;
    } else {
      RemoveFirstAfter(k1, [x] + rest, x);
      assert RemoveFirst([x] + rest, x) == rest;
    }
  }

  /** The ids kept from a prefix of a duplicate-free snapshot do not include the next one. */
  lemma KeptAvoids(ids: seq<string>, i: nat, reply: nat -> StatusReply)
    requires i < |ids| && AllReadable(reply, i)
    requires NoDuplicates(ids)
    ensures ids[i] !in Kept(ids[..i], reply)
  {
    var pre := ids[..i];
    assert ids[i] !in pre by {
      forall j | 0 <= j < i
        ensures pre[j] != ids[i]
      {
        assert pre[j] == ids[j];
      }
    }
    assert ids[i] !in multiset(pre);
    KeptSubmultiset(pre, reply);
    assert ids[i] !in multiset(Kept(pre, reply));
  }

  /** Removing the first `x` skips a prefix that does not hold `x`. */
  lemma {:induction false} RemoveFirstAfter(a: seq<string>, b: seq<string>, x: string)
    requires x !in a
    ensures RemoveFirst(a + b, x) == a + RemoveFirst(b, x)
  {
    if a == [] {
      assert a + b == b;
    } else {
      assert (a + b)[0] == a[0] != x;
      assert (a + b)[1..] == a[1..] + b;
      RemoveFirstAfter(a[1..], b, x);
      assert [a[0]] + (a[1..] + RemoveFirst(b, x)) == a + RemoveFirst(b, x);
    }
  }

  /** A job id stays exactly when its reply keeps it, for a snapshot without duplicates. */
  lemma {:induction false} KeptSpec(ids: seq<string>, reply: nat -> StatusReply)
    requires AllReadable(reply, |ids|)
    requires NoDuplicates(ids)
    ensures forall i :: 0 <= i < |ids| ==> (ids[i] in Kept(ids, reply) <==> Keeps(reply(i)))
    ensures forall x :: x in Kept(ids, reply) ==> x in ids
  {
    if ids != [] {
      var n := |ids| - 1;
      var pre := ids[..n];
      assert AllReadable(reply, |pre|);
      assert NoDuplicates(pre) by {
        forall i, j | 0 <= i < j < |pre| ensures pre[i] != pre[j] {
          assert pre[i] == ids[i] && pre[j] == ids[j];
        }
      }
      KeptSpec(pre, reply);
      forall i | 0 <= i < |ids| ensures ids[i] in Kept(ids, reply) <==> Keeps(reply(i)) {
        if i < n {
          assert ids[i] == pre[i] && ids[i] != ids[n];
        } else {
          assert ids[n] !in pre by {
            forall j | 0 <= j < n ensures pre[j] != ids[n] {
              assert pre[j] == ids[j];
            }
          }
        }
      }
    }
  }

  /** The multiset of kept ids is part of the snapshot's. */
  lemma {:induction false} KeptSubmultiset(ids: seq<string>, reply: nat -> StatusReply)
    requires AllReadable(reply, |ids|)
    ensures multiset(Kept(ids, reply)) <= multiset(ids)
  {
    if ids != [] {
      var n := |ids| - 1;
      KeptSubmultiset(ids[..n], reply);
      SnocMultiset(ids);
    }
  }

  lemma SnocMultiset(ids: seq<string>)
    requires ids != []
    ensures multiset(ids) == multiset(ids[..|ids| - 1]) + multiset{ids[|ids| - 1]}
  {
    assert ids == ids[..|ids| - 1] + [ids[|ids| - 1]];
  }

  lemma HeadOfSuffix(ids: seq<string>, i: nat)
    requires i < |ids|
    ensures ids[i] in multiset(ids[i..])
  {
    assert ids[i..][0] == ids[i];
  }

  /** The id at the next position is still in the queue. */
  lemma UnhandledIsQueued(ids: seq<string>, i: nat, reply: nat -> StatusReply)
    requires i < |ids| && AllReadable(reply, i)
    ensures ids[i] in Handled(ids, ids[..i], reply)
  {
    HandledMultiset(ids, i, reply);
    HeadOfSuffix(ids, i);
    var h := Handled(ids, ids[..i], reply);
    assert multiset(h)[ids[i]] > 0;
  }

  /** What handling position `i` of the snapshot does to the spec of the loop. */
  lemma PollStep(ids: seq<string>, i: nat, reply: nat -> StatusReply)
    requires i < |ids| && AllReadable(reply, i + 1)
    ensures var pre, post := ids[..i], ids[..i + 1];
            var r := reply(i);
            Handled(ids, post, reply) ==
              (if Keeps(r) then Handled(ids, pre, reply) else RemoveFirst(Handled(ids, pre, reply), ids[i])) &&
            Failures(ids[..i + 1], reply) == Failures(ids[..i], reply) +
              (if r.Replied? && r.code.value < 0 then [(ids[i], r.code.value, CodeMessage(r.status))] else []) &&
            (AnyRemoved(i + 1, reply) <==> AnyRemoved(i, reply) || !Keeps(r)) &&
            (!Keeps(r) ==> ids[i] in Handled(ids, pre, reply))
  {
    var pre, post := ids[..i], ids[..i + 1];
    assert post[..i] == pre;
    assert AllReadable(reply, |pre|);
    if !Keeps(reply(i)) {
      UnhandledIsQueued(ids, i, reply);
    }
  }

  /** Each poll: reload the queue, take a snapshot of its ids, and ask for the status of each
      id in turn (`reply(i)` is the answer about position `i`), removing the ended jobs. An
      unreadable reply raises `KeyError` and stops the poll. Returns the failures logged. */
  method Poll(store: FileStore, reply: nat -> StatusReply) returns (r: Outcome, failures: seq<(string, int, string)>)
    modifies store`files
    ensures var ids := Queued(old(store.files));
            var n := Answered(reply, 0, |ids|);
            r == (if n < |ids| then Fail(KeyError) else Pass) &&
            failures == Failures(ids[..n], reply) &&
            store.files == PollFiles(old(store.files), ids[..n], reply)
  {
    ghost var files0 := store.files;
    var res := Open(DefaultPath, store);
    var queue: PendingJobsQueue := res.value;
    var ids := queue.Items();
    assert ids == Queued(files0);
    assert store.files == Opened(files0);
    ghost var n := Answered(reply, 0, |ids|);
    failures := [];
    var i := 0;
    while i < |ids|
      invariant 0 <= i <= |ids| && i <= n
      invariant AllReadable(reply, i)
      invariant queue.path == DefaultPath && queue.store == store
      invariant queue.jobIds == Handled(ids, ids[..i], reply)
      invariant store.files == PollFiles(files0, ids[..i], reply)
      invariant failures == Failures(ids[..i], reply)
      modifies queue`jobIds, store`files
    {
      if Unreadable(reply(i)) {
        assert n == i;
        return Fail(KeyError), failures;
      }
      assert AllReadable(reply, i + 1);
      var logged := HandleReply(queue, ids, i, reply, files0);
      failures := failures + logged;
      i := i + 1;
    }
    assert n == i && ids[..i] == ids;
    r := Pass;
  }

  /** One iteration of the poll loop: the reply about position `i` removes the job or leaves
      it; returns the failure logged, if any. */
  method HandleReply(queue: PendingJobsQueue, ids: seq<string>, i: nat, reply: nat -> StatusReply, ghost files0: map<string, string>)
    returns (logged: seq<(string, int, string)>)
    requires i < |ids| && AllReadable(reply, i + 1) && ids == Queued(files0)
    requires queue.path == DefaultPath
    requires queue.jobIds == Handled(ids, ids[..i], reply)
    requires queue.store.files == PollFiles(files0, ids[..i], reply)
    modifies queue`jobIds, queue.store`files
    ensures queue.jobIds == Handled(ids, ids[..i + 1], reply)
    ensures queue.store.files == PollFiles(files0, ids[..i + 1], reply)
    ensures Failures(ids[..i + 1], reply) == Failures(ids[..i], reply) + logged
  {
    var id := ids[i];
    var rep := reply(i);
    PollStep(ids, i, reply);
    logged := [];
    if rep.Replied? && rep.code.value <= 0 {
      var removed := queue.Remove(StrId(id));
      if rep.code.value < 0 {
        logged := [(id, rep.code.value, CodeMessage(rep.status))];
      }
    }
  }

  // ---------------------------------------------------------------------------------------
  // The worker
  // ---------------------------------------------------------------------------------------

  /** The constructor's test `cfg.status_monitoring_period <= 0` as written, under Python 2's
      ordering of mixed types: `None` is below every number, a boolean counts as 0 or 1, and a
      string is above every number. */
  predicate PeriodRejectedAsWritten(v: Value)
  {
    match v
    case IntValue(n) => n <= 0
    case BoolValue(b) => !b
    case NoneValue => true
    case StrValue(_) => false
  }

  /** `int(cfg.status_monitoring_period)`, as `run` computes the period. */
  function PeriodAsInt(v: Value): (r: Result<int>)
  {
    match v
    case StrValue(s) => ParseInt(s)
    case IntValue(n) => Ok(n)
    case BoolValue(b) => Ok(if b then 1 else 0)
    case NoneValue => Err(TypeError)
  }

  /** As written, the period `0` read from the configuration file, a string, passes the
      constructor's test; `run` then polls at every tick. */
  lemma ZeroPeriodAcceptedAsWritten()
    ensures !PeriodRejectedAsWritten(StrValue("0"))
    ensures PeriodAsInt(StrValue("0")) == Ok(0)
  {
    assert Strip("0") == "0" by {
      StripKeeps("0");
    }
    assert DigitsValue("0") == 0 by {
      assert "0"[..0] == "";
    }
  }

  /** The check the constructor intends: the period `run` will use is a positive number. */
  function CheckedPeriod(v: Value): (r: Result<int>)
    ensures r.Ok? <==> PeriodAsInt(v).Ok? && PeriodAsInt(v).value > 0
    ensures r.Ok? ==> r.value == PeriodAsInt(v).value
    ensures r.Err? ==> r.error == (if v.NoneValue? then TypeError else ValueError)
  {
    match PeriodAsInt(v)
    case Err(e) => Err(e)
    case Ok(n) => if n > 0 then Ok(n) else Err(ValueError)
  }

  /** The corrected check agrees with the test as written on every non-string value, and
      rejects the periods `run` could not use. */
  lemma CheckedPeriodRefinesAsWritten(v: Value)
    ensures !v.StrValue? ==> (CheckedPeriod(v).Err? <==> PeriodRejectedAsWritten(v))
    ensures v.StrValue? ==> (CheckedPeriod(v).Ok? <==> ParseInt(v.s).Ok? && ParseInt(v.s).value > 0)
  {
  }

  /** The times at which the loop polls, given the tick times and the last check. */
  function PollTimes(times: seq<int>, period: int, last: int): seq<int>
  {
    if times == [] then []
    else if times[0] - last >= period then [times[0]] + PollTimes(times[1..], period, times[0])
    else PollTimes(times[1..], period, last)
  }

  /** Polls are at least `period` apart, the first one `period` after `last`, and every poll
      happens at a tick. */
  lemma {:induction false} PollTimesSpaced(times: seq<int>, period: int, last: int)
    ensures var p := PollTimes(times, period, last);
            (|p| > 0 ==> p[0] - last >= period) &&
            (forall k :: 0 <= k < |p| - 1 ==> p[k + 1] - p[k] >= period) &&
            (forall k :: 0 <= k < |p| ==> p[k] in times)
  {
    if times != [] {
      if times[0] - last >= period {
        PollTimesSpaced(times[1..], period, times[0]);
        var p := PollTimes(times, period, last);
        assert p[1..] == PollTimes(times[1..], period, times[0]);
        forall k | 0 <= k < |p| ensures p[k] in times {
          if k > 0 {
            assert p[k] == p[1..][k - 1];
          }
        }
      } else {
        PollTimesSpaced(times[1..], period, last);
      }
    }
  }

  /** Appending a tick extends the polls by it exactly when it is a period past the last poll. */
  lemma {:induction false} PollTimesSnoc(times: seq<int>, period: int, last: int, t: int)
    ensures var p := PollTimes(times, period, last);
            var l := if p == [] then last else p[|p| - 1];
            PollTimes(times + [t], period, last) == p + (if t - l >= period then [t] else [])
  {
    if times == [] {
      assert [t][1..] == [];
    } else {
      assert (times + [t])[1..] == times[1..] + [t];
      if times[0] - last >= period {
        PollTimesSnoc(times[1..], period, times[0], t);
      } else {
        PollTimesSnoc(times[1..], period, last, t);
      }
    }
  }

  /** As written, a period that is not positive makes the loop poll at every tick, provided
      the clock does not go back. */
  lemma {:induction false} PollTimesEveryTick(times: seq<int>, period: int, last: int)
    requires period <= 0
    requires times != [] ==> last <= times[0]
    requires forall i, j :: 0 <= i < j < |times| ==> times[i] <= times[j]
    ensures PollTimes(times, period, last) == times
  {
    if times != [] {
      PollTimesEveryTick(times[1..], period, times[0]);
      assert [times[0]] + times[1..] == times;
    }
  }

  /** `Worker`: the configured period as the configuration object holds it, and the
      termination flag. */
  class Worker {
    const setting: Value
    var terminated: bool

    /** `__init__` past its test: the worker keeps the configuration and is not terminated. */
    constructor (setting: Value)
      ensures this.setting == setting && !terminated
    {
      this.setting := setting;
      terminated := false;
    }

    /** `terminate`: only raises the flag; the loop sees it at the end of its tick. */
    method Terminate()
      modifies this`terminated
      ensures terminated
    {
      terminated := true;
    }

    /** `run` over the clock readings `times`, one per tick; `stopAt[i]` says whether
        `terminate` is called during tick `i`, before its flag test, and `reply(t, i)` answers
        the status request about position `i` of the poll at tick `t`. The period is
        `int(setting)`, which raises before the loop when the setting is no integer. The loop
        polls when a period has elapsed since the last check, then leaves after the tick if
        terminated. Returns the outcome, the number of ticks run and the times of the polls. */
    method Run(times: seq<int>, stopAt: seq<bool>, reply: (nat, nat) -> StatusReply, store: FileStore)
      returns (r: Outcome, ticks: nat, polls: seq<int>)
      requires |stopAt| == |times|
      modifies this`terminated, store`files
      ensures ticks <= |times|
      ensures PeriodAsInt(setting).Err? ==>
                r == Fail(PeriodAsInt(setting).error) && ticks == 0 && polls == [] &&
                store.files == old(store.files) && terminated == old(terminated)
      ensures r == Pass ==> PeriodAsInt(setting).Ok? && polls == PollTimes(times[..ticks], PeriodAsInt(setting).value, 0)
      ensures r == Pass && ticks < |times| ==> terminated && ticks >= 1
      ensures r == Pass ==> forall j :: 0 <= j < ticks - 1 ==> !stopAt[j]
      ensures r == Pass && ticks > 1 ==> !old(terminated)
      ensures r == Pass && ticks >= 1 && stopAt[ticks - 1] ==> terminated
      ensures r.Fail? && PeriodAsInt(setting).Ok? ==> r == Fail(KeyError) && ticks >= 1
    {
      polls := [];
      ticks := 0;
      var p := PeriodAsInt(setting);
      if p.Err? {
        return Fail(p.error), ticks, polls;
      }
      var period := p.value;
      var lastCheck := 0;
      while ticks < |times|
        invariant 0 <= ticks <= |times|
        invariant polls == PollTimes(times[..ticks], period, 0)
        invariant lastCheck == if polls == [] then 0 else polls[|polls| - 1]
        invariant forall j :: 0 <= j < ticks ==> !stopAt[j]
        invariant ticks > 0 ==> !old(terminated)
        invariant terminated == old(terminated)
      {
        var now := times[ticks];
        PollTimesSnoc(times[..ticks], period, 0, now);
        assert times[..ticks + 1] == times[..ticks] + [now];
        var pr, polled := PollIfDue(now, lastCheck, period, reply, |polls|, store);
        if pr.Fail? {
          return pr, ticks + 1, polls;
        }
        if polled {
          lastCheck := now;
          polls := polls + [now];
        }
        if stopAt[ticks] {
          Terminate();
        }
        ticks := ticks + 1;
        if terminated {
          return Pass, ticks, polls;
        }
      }
      r := Pass;
    }

    /** The test at the head of a tick: poll when a period has elapsed since the last check;
        `k` numbers the poll among those of the run. */
    method PollIfDue(now: int, lastCheck: int, period: int, reply: (nat, nat) -> StatusReply, k: nat, store: FileStore)
      returns (r: Outcome, polled: bool)
      modifies store`files
      ensures polled <==> now - lastCheck >= period
      ensures !polled ==> r == Pass
      ensures r.Fail? ==> r == Fail(KeyError)
    {
      polled := now - lastCheck >= period;
      r := Pass;
      if polled {
        var failures;
        r, failures := Poll(store, (i: nat) => reply(k, i));
      }
    }
  }

  /** `Worker(cfg)` as written: the period attribute (`None` when the configuration has none,
      an `AttributeError`) is refused with `ValueError` when Python 2 orders it at or below 0,
      so any string passes, `"0"` included. */
  method NewWorker(period: Option<Value>) returns (r: Result<Worker>)
    ensures period.None? ==> r == Err(AttributeError)
    ensures period.Some? ==>
              (r.Err? <==> PeriodRejectedAsWritten(period.value)) &&
              (r.Err? ==> r.error == ValueError) &&
              (r.Ok? ==> fresh(r.value) && r.value.setting == period.value && !r.value.terminated)
  {
    if period.None? {
      return Err(AttributeError);
    }
    if PeriodRejectedAsWritten(period.value) {
      return Err(ValueError);
    }
    var w := new Worker(period.value);
    r := Ok(w);
  }

  /** `Worker(cfg)` with the intended check: the period `run` will use must be a positive
      `int`, so a worker that is built polls at most once per period. */
  method NewCheckedWorker(period: Option<Value>) returns (r: Result<Worker>)
    ensures period.None? ==> r == Err(AttributeError)
    ensures period.Some? ==>
              (r.Ok? <==> CheckedPeriod(period.value).Ok?) &&
              (r.Err? ==> r.error == CheckedPeriod(period.value).error) &&
              (r.Ok? ==> fresh(r.value) && r.value.setting == period.value && !r.value.terminated &&
                         PeriodAsInt(r.value.setting).Ok? && PeriodAsInt(r.value.setting).value > 0)
  {
    if period.None? {
      return Err(AttributeError);
    }
    var p := CheckedPeriod(period.value);
    if p.Err? {
      return Err(p.error);
    }
    var w := new Worker(period.value);
    r := Ok(w);
  }
}
