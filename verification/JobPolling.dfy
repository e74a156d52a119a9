/** Waiting for builds to end (Cluster._wait_build_end): the list of jobs is polled, and a completed job is removed
    from the list while the for loop still runs over it, so that the loop skips the job after it. */
module JobPolling {

  /** What the pod listing says of a job: whether it mentions Completed, and whether Error. */
  datatype PodStatus = PodStatus(completed: bool, error: bool)

  /** The answer to query number i of poll number p. */
  type Cluster = (nat, nat) -> PodStatus

  /** list.remove: the first occurrence goes. */
  function Remove(s: seq<string>, x: string): (r: seq<string>)
    requires x in s
    ensures |r| == |s| - 1
  {
    if s[0] == x then s[1..] else [s[0]] + Remove(s[1..], x)
  }

  lemma {:induction false} RemoveKeepsOthers(s: seq<string>, x: string, y: string)
    requires x in s && y in s && x != y
    ensures y in Remove(s, x)
  {
    if s[0] != x && s[0] != y {
      RemoveKeepsOthers(s[1..], x, y);
    }
  }

  /** One run of the for loop from index i: the list it leaves, and whether it met an error. */
  function Pass(jobs: seq<string>, i: nat, p: nat, cluster: Cluster): (seq<string>, bool)
    decreases |jobs| - i
  {
    if i >= |jobs| then (jobs, false)
    else
      var status := cluster(p, i);
      var jobs' := if status.completed then Remove(jobs, jobs[i]) else jobs;
      if status.error then (jobs', true) else Pass(jobs', i + 1, p, cluster)
  }

  /** What is removed: the first occurrence and no other. */
  lemma {:induction false} RemovesFirst(s: seq<string>, x: string, i: nat)
    requires i < |s| && s[i] == x && forall j | 0 <= j < i :: s[j] != x
    ensures Remove(s, x) == s[..i] + s[i + 1..]
  {
    if i > 0 {
      RemovesFirst(s[1..], x, i - 1);
      assert s[..i] == [s[0]] + s[1..][..i - 1];
    }
  }

  /** The list when query k of the loop is about to be made, if none before it shows an error. */
  function ListAt(jobs: seq<string>, k: nat, p: nat, cluster: Cluster): seq<string> {
    if k == 0 then jobs
    else
      var before := ListAt(jobs, k - 1, p, cluster);
      if k - 1 < |before| && cluster(p, k - 1).completed then Remove(before, before[k - 1]) else before
  }

  /** A run of the loop meets an error, exactly: some query that it makes shows one. */
  lemma {:induction false} PassFails(jobs: seq<string>, i: nat, p: nat, cluster: Cluster)
    ensures Pass(ListAt(jobs, i, p, cluster), i, p, cluster).1 <==>
              exists k :: i <= k < |ListAt(jobs, k, p, cluster)| && cluster(p, k).error
    decreases |ListAt(jobs, i, p, cluster)| - i
  {
    var now := ListAt(jobs, i, p, cluster);
    if i >= |now| {
      forall k | i <= k ensures k >= |ListAt(jobs, k, p, cluster)| {
        ListShrinks(jobs, i, k, p, cluster);
      }
    } else {
      assert ListAt(jobs, i + 1, p, cluster) == if cluster(p, i).completed then Remove(now, now[i]) else now;
      if !cluster(p, i).error {
        PassFails(jobs, i + 1, p, cluster);
      }
    }
  }

  lemma {:induction false} ListShrinks(jobs: seq<string>, i: nat, k: nat, p: nat, cluster: Cluster)
    requires i <= k
    ensures |ListAt(jobs, k, p, cluster)| <= |ListAt(jobs, i, p, cluster)|
    decreases k
  {
    if i < k {
      ListShrinks(jobs, i, k - 1, p, cluster);
    }
  }

  /** Job x is asked for in this run of the loop and found Completed. */
  predicate PassSees(jobs: seq<string>, i: nat, p: nat, cluster: Cluster, x: string)
    decreases |jobs| - i
  {
    i < |jobs| &&
    var status := cluster(p, i);
    (status.completed && jobs[i] == x)
    || (!status.error && PassSees(if status.completed then Remove(jobs, jobs[i]) else jobs, i + 1, p, cluster, x))
  }

  /** How a wait ends; Polling when it has not ended yet. time.sleep raises on a negative interval. */
  datatype Outcome = Returned(ok: bool) | Raised | Polling

  /** The wait from poll p on, watched for a number of polls: how it ends, and the list left behind. */
  function Wait(jobs: seq<string>, timeout: int, interval: int, p: nat, cluster: Cluster, polls: nat):
    (Outcome, seq<string>)
    decreases polls
  {
    if timeout <= 0 then (Returned(false), jobs)
    else if polls == 0 then (Polling, jobs)
    else
      var (jobs', error) := Pass(jobs, 0, p, cluster);
      if error then (Returned(false), jobs')
      else if jobs' == [] then (Returned(true), [])
      else if interval < 0 then (Raised, jobs')
      else Wait(jobs', timeout - interval, interval, p + 1, cluster, polls - 1)
  }

  /** Job x is found Completed in some poll of the wait. */
  predicate WaitSees(jobs: seq<string>, timeout: int, interval: int, p: nat, cluster: Cluster, polls: nat, x: string)
    decreases polls
  {
    timeout > 0 && polls > 0 &&
    (PassSees(jobs, 0, p, cluster, x)
     || var (jobs', error) := Pass(jobs, 0, p, cluster);
        !error && jobs' != [] && interval >= 0
        && WaitSees(jobs', timeout - interval, interval, p + 1, cluster, polls - 1, x))
  }

  class JobList {
    var jobs: seq<string>

    /** The for loop over the list. */
    method PollOnce(p: nat, cluster: Cluster) returns (error: bool)
      modifies this
      ensures (jobs, error) == Pass(old(jobs), 0, p, cluster)
    {
      var i := 0;
      while i < |jobs|
        invariant Pass(jobs, i, p, cluster) == Pass(old(jobs), 0, p, cluster)
        decreases |jobs| - i
      {
        var j := jobs[i];
        var status := cluster(p, i);
        if status.completed {
          jobs := Remove(jobs, j);
        }
        if status.error {
          return true;
        }
        i := i + 1;
      }
      return false;
    }

    /** _wait_build_end, watched for a number of polls. */
    method WaitBuildEnd(timeoutSec: int, checkIntervalSec: int, cluster: Cluster, polls: nat)
      returns (outcome: Outcome)
      modifies this
      ensures (outcome, jobs) == Wait(old(jobs), timeoutSec, checkIntervalSec, 0, cluster, polls)
      ensures outcome == Returned(true) ==>
                jobs == [] && forall x | x in old(jobs) ::
                  WaitSees(old(jobs), timeoutSec, checkIntervalSec, 0, cluster, polls, x)
      ensures outcome == Polling ==> checkIntervalSec == 0 || polls * checkIntervalSec < timeoutSec
    {
      var timeout := timeoutSec;
      var p := 0;
      WaitSound(jobs, timeoutSec, checkIntervalSec, 0, cluster, polls);
      WaitEnds(jobs, timeoutSec, checkIntervalSec, 0, cluster, polls);
      while timeout > 0
        invariant p <= polls
        invariant Wait(jobs, timeout, checkIntervalSec, p, cluster, polls - p)
                  == Wait(old(jobs), timeoutSec, checkIntervalSec, 0, cluster, polls)
        decreases polls - p
      {
        if p == polls {
          return Polling;
        }
        var error := PollOnce(p, cluster);
        if error {
          return Returned(false);
        }
        if jobs == [] {
          return Returned(true);
        }
        if checkIntervalSec < 0 {
          return Raised;
        }
        timeout := timeout - checkIntervalSec;
        p := p + 1;
      }
      return Returned(false);
    }
  }

  /** A job that is no longer in the list after a run of the loop was found Completed in it. */
  lemma {:induction false} PassRemovesCompleted(jobs: seq<string>, i: nat, p: nat, cluster: Cluster, x: string)
    requires x in jobs && x !in Pass(jobs, i, p, cluster).0
    ensures PassSees(jobs, i, p, cluster, x)
    decreases |jobs| - i
  {
    if i < |jobs| {
      var status := cluster(p, i);
      var jobs' := if status.completed then Remove(jobs, jobs[i]) else jobs;
      if jobs[i] != x || !status.completed {
        if status.completed { RemoveKeepsOthers(jobs, jobs[i], x); }
        PassRemovesCompleted(jobs', i + 1, p, cluster, x);
      }
    }
  }

  /** The wait reports success only if every job of the list was found Completed in some poll. */
  lemma {:induction false} WaitSound(jobs: seq<string>, timeout: int, interval: int, p: nat, cluster: Cluster,
                                     polls: nat)
    ensures Wait(jobs, timeout, interval, p, cluster, polls).0 == Returned(true) ==>
              Wait(jobs, timeout, interval, p, cluster, polls).1 == []
              && forall x | x in jobs :: WaitSees(jobs, timeout, interval, p, cluster, polls, x)
    decreases polls
  {
    if timeout > 0 && polls > 0 {
      var (jobs', error) := Pass(jobs, 0, p, cluster);
      if !error && jobs' != [] && interval >= 0 {
        WaitSound(jobs', timeout - interval, interval, p + 1, cluster, polls - 1);
      }
      if Wait(jobs, timeout, interval, p, cluster, polls).0 == Returned(true) {
        forall x | x in jobs ensures WaitSees(jobs, timeout, interval, p, cluster, polls, x) {
          if x !in jobs' {
            PassRemovesCompleted(jobs, 0, p, cluster, x);
          }
        }
      }
    }
  }

  /** Unless the interval is zero the wait ends, after as many polls as the timeout has intervals at the latest. */
  lemma {:induction false} WaitEnds(jobs: seq<string>, timeout: int, interval: int, p: nat, cluster: Cluster,
                                    polls: nat)
    ensures Wait(jobs, timeout, interval, p, cluster, polls).0 == Polling ==>
              interval == 0 || polls * interval < timeout
    decreases polls
  {
    if timeout > 0 && polls > 0 {
      var (jobs', error) := Pass(jobs, 0, p, cluster);
      if !error && jobs' != [] && interval >= 0 {
        WaitEnds(jobs', timeout - interval, interval, p + 1, cluster, polls - 1);
        assert polls * interval == (polls - 1) * interval + interval;
      } else if interval < 0 {
        assert polls * interval < 0;
      }
    }
  }

  /** An error ends the wait at once: it returns False in the first poll in which some query shows one. And a
      negative interval raises when that poll leaves jobs and shows none. */
  lemma FirstPoll(jobs: seq<string>, timeout: int, interval: int, p: nat, cluster: Cluster, polls: nat)
    requires timeout > 0 && polls > 0
    ensures (exists k: nat :: k < |ListAt(jobs, k, p, cluster)| && cluster(p, k).error) ==>
              Wait(jobs, timeout, interval, p, cluster, polls).0 == Returned(false)
    ensures !(exists k: nat :: k < |ListAt(jobs, k, p, cluster)| && cluster(p, k).error) ==>
              var jobs' := Pass(jobs, 0, p, cluster).0;
              Wait(jobs, timeout, interval, p, cluster, polls) ==
                if jobs' == [] then (Returned(true), [])
                else if interval < 0 then (Raised, jobs')
                else Wait(jobs', timeout - interval, interval, p + 1, cluster, polls - 1)
  {
    PassFails(jobs, 0, p, cluster);
  }

  lemma {:induction false} PassIdle(jobs: seq<string>, i: nat, p: nat, cluster: Cluster)
    requires forall i :: cluster(p, i) == PodStatus(false, false)
    ensures Pass(jobs, i, p, cluster) == (jobs, false)
    decreases |jobs| - i
  {
    if i < |jobs| {
      PassIdle(jobs, i + 1, p, cluster);
    }
  }

  /** With interval zero it need not end: while no job completes or fails, every number of polls is too small. */
  lemma {:induction false} ZeroInterval(jobs: seq<string>, timeout: int, p: nat, cluster: Cluster, polls: nat)
    requires timeout > 0 && jobs != [] && forall p', i :: cluster(p', i) == PodStatus(false, false)
    ensures Wait(jobs, timeout, 0, p, cluster, polls).0 == Polling
    decreases polls
  {
    if polls > 0 {
      PassIdle(jobs, 0, p, cluster);
      ZeroInterval(jobs, timeout, p + 1, cluster, polls - 1);
    }
  }

  // ---------------------------------------------------------------- how long it takes

  /** From poll p on every query says Completed, none Error. */
  ghost predicate AllCompleted(cluster: Cluster, p: nat) {
    forall p', i | p <= p' :: cluster(p', i) == PodStatus(true, false)
  }

  /** With everything completed, a run of the loop over n jobs leaves n / 2: it skips the one after each removal. */
  lemma {:induction false} PassHalves(jobs: seq<string>, i: nat, p: nat, cluster: Cluster)
    requires AllCompleted(cluster, p) && i <= |jobs|
    ensures !Pass(jobs, i, p, cluster).1 && |Pass(jobs, i, p, cluster).0| == i + (|jobs| - i) / 2
    decreases |jobs| - i
  {
    if i < |jobs| {
      assert cluster(p, i) == PodStatus(true, false);
      var jobs' := Remove(jobs, jobs[i]);
      if i + 1 <= |jobs'| {
        PassHalves(jobs', i + 1, p, cluster);
      }
    }
  }

  /** Polls that a list of n completed jobs takes. */
  function PollsNeeded(n: nat): nat {
    if n <= 1 then 1 else 1 + PollsNeeded(n / 2)
  }

  function Pow2(n: nat): nat { if n == 0 then 1 else 2 * Pow2(n - 1) }

  /** floor(log2 n) + 1 of them. */
  lemma {:induction false} PollsAreLog(n: nat)
    requires n >= 1
    ensures Pow2(PollsNeeded(n) - 1) <= n < Pow2(PollsNeeded(n))
  {
    if n == 1 {
      assert Pow2(1) == 2 * Pow2(0);
    } else {
      PollsAreLog(n / 2);
      assert n / 2 * 2 <= n <= n / 2 * 2 + 1;
    }
  }

  /** Once all remaining jobs are completed, exactly: the wait succeeds if and only if the timeout allows that
      many polls, the last of them starting before it runs out, and sleeping between them does not raise. */
  lemma {:induction false} SucceedsExactly(jobs: seq<string>, timeout: int, interval: int, p: nat, cluster: Cluster,
                                           polls: nat)
    requires AllCompleted(cluster, p)
    ensures Wait(jobs, timeout, interval, p, cluster, polls).0 == Returned(true) <==>
              && polls >= PollsNeeded(|jobs|)
              && timeout > 0 && timeout > (PollsNeeded(|jobs|) - 1) * interval
              && (interval >= 0 || PollsNeeded(|jobs|) == 1)
    decreases polls
  {
    hide Pass, AllCompleted;
    if timeout > 0 && polls > 0 {
      PassHalves(jobs, 0, p, cluster);
      var jobs' := Pass(jobs, 0, p, cluster).0;
      if jobs' == [] {
        assert PollsNeeded(|jobs|) == 1;
      } else {
        assert PollsNeeded(|jobs|) == 1 + PollsNeeded(|jobs'|);
        if interval >= 0 {
          StillCompleted(cluster, p);
          SucceedsExactly(jobs', timeout - interval, interval, p + 1, cluster, polls - 1);
        }
      }
      OnePollMore(timeout, interval, PollsNeeded(|jobs|) - 1);
    }
  }

  lemma StillCompleted(cluster: Cluster, p: nat)
    requires AllCompleted(cluster, p)
    ensures AllCompleted(cluster, p + 1)
  {
  }

  /** A timeout that allows more polls after this one, in terms of the time left then. */
  lemma OnePollMore(timeout: int, interval: int, more: nat)
    requires timeout > 0
    ensures more > 0 && interval >= 0 ==>
              (timeout > more * interval <==>
                 timeout - interval > 0 && timeout - interval > (more - 1) * interval)
    ensures more == 0 ==> timeout > more * interval
  {
    assert more * interval == (more - 1) * interval + interval;
    assert more > 0 && interval >= 0 ==> (more - 1) * interval >= 0;
  }

  /** Skipping costs: two completed jobs are not both removed in one poll. */
  lemma TwoNeedTwoPolls(a: string, b: string, cluster: Cluster)
    requires AllCompleted(cluster, 0)
    ensures Wait([a, b], 5, 5, 0, cluster, 2).0 == Returned(false)
    ensures Wait([a, b], 10, 5, 0, cluster, 2).0 == Returned(true)
  {
    SucceedsExactly([a, b], 5, 5, 0, cluster, 2);
    WaitEnds([a, b], 5, 5, 0, cluster, 2);
    SucceedsExactly([a, b], 10, 5, 0, cluster, 2);
    assert PollsNeeded(2) == 2;
  }
}
