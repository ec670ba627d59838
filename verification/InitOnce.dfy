/** Once-only initialisation by any number of threads, as a system of interleaved steps. */
module InitOnce {
  /** Where a thread is: outside, about to try the exchange, inside the init function, done with it
      but not yet announced, asleep, or back at its caller. */
  datatype Place = Outside | Trying | Initialising | Announcing | Sleeping | Returned

  /** The shared flag, the threads, and how often the init function was started and has ended. */
  datatype State = State(flag: int, threads: seq<Place>, starts: nat, ends: nat)

  function Start(n: nat): State {
    State(0, seq(n, i => Outside), 0, 0)
  }

  /** The next atomic step of thread `t`. */
  function Step(s: State, t: nat): State
    requires t < |s.threads|
  {
    match s.threads[t]
    case Outside => s.(threads := s.threads[t := Trying])
    case Trying =>
      if s.flag == 2 then s.(threads := s.threads[t := Returned])
      else if s.flag == 0 then
        s.(flag := 1, threads := s.threads[t := Initialising], starts := s.starts + 1)
      else s.(threads := s.threads[t := Sleeping])
    case Initialising => s.(threads := s.threads[t := Announcing], ends := s.ends + 1)
    case Announcing => s.(flag := 2, threads := s.threads[t := Returned])
    case Sleeping => s.(threads := s.threads[t := Trying])
    case Returned => s.(threads := s.threads[t := Outside])
  }

  predicate Schedule(n: nat, ts: seq<nat>) {
    forall i :: 0 <= i < |ts| ==> ts[i] < n
  }

  function Run(s: State, ts: seq<nat>): (r: State)
    requires Schedule(|s.threads|, ts)
    ensures |r.threads| == |s.threads|
    decreases |ts|
  {
    if ts == [] then s
    else
      assert Schedule(|s.threads|, ts[1..]);
      Run(Step(s, ts[0]), ts[1..])
  }

  predicate Busy(p: Place) {
    p == Initialising || p == Announcing
  }

  predicate OneBusy(s: State) {
    exists t :: 0 <= t < |s.threads| && Busy(s.threads[t]) &&
                (forall u :: 0 <= u < |s.threads| && Busy(s.threads[u]) ==> u == t) &&
                s.ends == if s.threads[t] == Announcing then 1 else 0
  }

  predicate Quiet(s: State) {
    forall t :: 0 <= t < |s.threads| ==> !Busy(s.threads[t])
  }

  predicate Safe(s: State) {
    && (s.flag == 0 || s.flag == 1 || s.flag == 2)
    && (s.flag == 0 ==> s.starts == 0 && s.ends == 0 && Quiet(s))
    && (s.flag == 1 ==> s.starts == 1 && OneBusy(s))
    && (s.flag == 2 ==> s.starts == 1 && s.ends == 1 && Quiet(s))
    && forall t :: 0 <= t < |s.threads| && s.threads[t] == Returned ==> s.flag == 2
  }

  lemma StepSafe(s: State, t: nat)
    requires t < |s.threads| && Safe(s)
    ensures Safe(Step(s, t))
  {
    var r := Step(s, t);
    if s.flag == 1 {
      var b :| 0 <= b < |s.threads| && Busy(s.threads[b]) &&
               (forall u :: 0 <= u < |s.threads| && Busy(s.threads[u]) ==> u == b) &&
               s.ends == if s.threads[b] == Announcing then 1 else 0;
      if s.threads[t] == Announcing {
        assert Quiet(r);
      } else {
        assert Busy(r.threads[b]);
        assert OneBusy(r);
      }
    } else if s.threads[t] == Trying && s.flag == 0 {
      assert Busy(r.threads[t]);
      assert OneBusy(r);
    }
  }

  lemma {:induction false} RunSafe(s: State, ts: seq<nat>)
    requires Schedule(|s.threads|, ts) && Safe(s)
    ensures Safe(Run(s, ts))
    decreases |ts|
  {
    hide Step, Safe;
    if ts != [] {
      StepSafe(s, ts[0]);
      StepThreads(s, ts[0]);
      assert Schedule(|s.threads|, ts[1..]);
      RunSafe(Step(s, ts[0]), ts[1..]);
    }
  }

  lemma StepThreads(s: State, t: nat)
    requires t < |s.threads|
    ensures |Step(s, t).threads| == |s.threads|
  {
  }

  /** In every interleaving: the init function is started at most once; the flag is 1 exactly while
      one thread is between winning the exchange and announcing; and a call that has returned
      finds the init function ended. */
  lemma OnceOnly(n: nat, ts: seq<nat>)
    requires Schedule(n, ts)
    ensures var s := Run(Start(n), ts);
            && s.starts <= 1
            && (s.flag == 1 <==> exists t :: 0 <= t < n && Busy(s.threads[t]))
            && (forall t, u :: 0 <= t < n && 0 <= u < n && Busy(s.threads[t]) && Busy(s.threads[u]) ==> t == u)
            && (forall t :: 0 <= t < n && s.threads[t] == Returned ==> s.ends == 1 && s.flag == 2)
  {
    RunSafe(Start(n), ts);
  }

  lemma {:induction false} RunConcat(s: State, a: seq<nat>, b: seq<nat>)
    requires Schedule(|s.threads|, a) && Schedule(|s.threads|, b)
    ensures Schedule(|s.threads|, a + b)
    ensures Run(s, a + b) == Run(Run(s, a), b)
    decreases |a|
  {
    hide Step;
    if a == [] {
      assert a + b == b;
    } else {
      assert (a + b)[1..] == a[1..] + b;
      StepThreads(s, a[0]);
      assert Schedule(|s.threads|, a[1..]);
      RunConcat(Step(s, a[0]), a[1..], b);
    }
  }

  lemma RunOne(s: State, t: nat)
    requires t < |s.threads|
    ensures Run(s, [t]) == Step(s, t)
  {
    hide Step;
    assert [t][1..] == [];
  }

  /** A busy thread comes back, and its flag lets everybody else pass. */
  lemma Finish(s: State, t: nat) returns (ts: seq<nat>)
    requires t < |s.threads| && Busy(s.threads[t])
    ensures 1 <= |ts| <= 2 && Schedule(|s.threads|, ts)
    ensures var r := Run(s, ts);
            r.flag == 2 && r.threads == s.threads[t := Returned]
  {
    if s.threads[t] == Announcing {
      RunOne(s, t);
      ts := [t];
    } else {
      var s1 := Step(s, t);
      RunOne(s, t);
      RunOne(s1, t);
      RunConcat(s, [t], [t]);
      assert s1.threads[t := Returned] == s.threads[t := Returned];
      ts := [t] + [t];
    }
  }

  lemma Enter(s: State, t: nat) returns (ts: seq<nat>)
    requires t < |s.threads| && s.threads[t] == Trying && s.flag != 1 && (s.flag == 0 || s.flag == 2)
    ensures |ts| <= 3 && (s.flag == 2 ==> |ts| == 1) && Schedule(|s.threads|, ts)
    ensures Run(s, ts).threads[t] == Returned
  {
    RunOne(s, t);
    ts := [t];
    if s.flag == 0 {
      var s1 := Step(s, t);
      var more := Finish(s1, t);
      RunConcat(s, [t], more);
      ts := [t] + more;
    }
  }

  lemma Wake(s: State, t: nat) returns (ts: seq<nat>)
    requires t < |s.threads| && (s.threads[t] == Trying || s.threads[t] == Sleeping)
    requires s.flag == 0 || s.flag == 2
    ensures |ts| <= 4 && (s.flag == 2 ==> |ts| <= 2) && Schedule(|s.threads|, ts)
    ensures Run(s, ts).threads[t] == Returned
  {
    if s.threads[t] == Trying {
      ts := Enter(s, t);
    } else {
      RunOne(s, t);
      var more := Enter(Step(s, t), t);
      RunConcat(s, [t], more);
      ts := [t] + more;
    }
  }

  /** No thread is locked out: from every safe state in which it is inside a call there is a
      continuation of at most four steps that brings it back to its caller. */
  lemma Progress(s: State, t: nat) returns (ts: seq<nat>)
    requires Safe(s) && t < |s.threads| && s.threads[t] != Outside && s.threads[t] != Returned
    ensures |ts| <= 4 && Schedule(|s.threads|, ts) && Run(s, ts).threads[t] == Returned
  {
    if Busy(s.threads[t]) {
      ts := Finish(s, t);
    } else {
      var front: seq<nat> := [];
      var s1 := s;
      if s.flag == 1 {
        var b :| 0 <= b < |s.threads| && Busy(s.threads[b]);
        front := Finish(s, b);
        s1 := Run(s, front);
      }
      var back := Wake(s1, t);
      RunConcat(s, front, back);
      ts := front + back;
    }
  }
}
