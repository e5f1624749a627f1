/** A run of calls of the join route, one after another, against the one
    module-level `rateBuckets` map: the sliding-window guarantee of
    `enforceRateLimit` lifted from a single key to the route. */
module JoinRun {
  import opened Json
  import opened RateLimit
  import opened JoinRoute

  /** One call: the parsed body (or `None` when it could not be read) and
      `Date.now()` at the call. */
  datatype Call = Call(req: Option<Body>, now: int)

  /** The state after the calls, made in order from `s`. */
  function Run(s: State, calls: seq<Call>): State
    decreases |calls|
  {
    if calls == [] then s
    else
      var last := calls[|calls| - 1];
      Join(Run(s, calls[..|calls| - 1]), last.req, last.now).1
  }

  /** The times of the calls that reach `enforceRateLimit("global", ...)`:
      those past the honeypot and validation. */
  function Attempts(calls: seq<Call>): seq<int>
    decreases |calls|
  {
    if calls == [] then [] else Attempts(calls[..|calls| - 1]) + Attempt(calls[|calls| - 1])
  }

  /** The call's time when it reaches the global bucket, nothing otherwise. */
  function Attempt(c: Call): seq<int>
  {
    if Admission(c.req, c.now).Some? then [c.now] else []
  }

  /** The times of the calls the global bucket let through, each decided on
      the buckets the earlier calls left. */
  function Passed(s: State, calls: seq<Call>): seq<int>
    decreases |calls|
  {
    if calls == [] then []
    else
      var init := calls[..|calls| - 1];
      var last := calls[|calls| - 1];
      Passed(s, init) +
        (if Admission(last.req, last.now).Some? &&
            Decide(Bucket(Run(s, init).buckets, GlobalKey), GlobalLimit, last.now).Allowed?
         then [last.now] else [])
  }

  /** The clock of the calls does not go backwards. */
  predicate ClockForward(calls: seq<Call>) {
    forall i, j :: 0 <= i < j < |calls| ==> calls[i].now <= calls[j].now
  }

  /** From an empty global bucket, the route's global bucket is the bucket of
      the single key `global` after the attempts, and the calls it lets
      through are that key's admitted run. */
  lemma {:induction false} RunGlobalBucket(s: State, calls: seq<Call>)
    requires Bucket(s.buckets, GlobalKey) == []
    ensures Bucket(Run(s, calls).buckets, GlobalKey) == Stored(GlobalLimit, Attempts(calls))
    ensures Passed(s, calls) == Admitted(GlobalLimit, Attempts(calls))
    decreases |calls|
  {
    if calls != [] {
      var init := calls[..|calls| - 1];
      var last := calls[|calls| - 1];
      RunGlobalBucket(s, init);
      var a := Attempts(init);
      var before := Run(s, init);
      if Admission(last.req, last.now).Some? {
        JoinOfAdmitted(before, last.req, last.now);
        AdmitGlobalBucketIs(before, Admission(last.req, last.now).value, last.now);
        var x := a + [last.now];
        assert Attempts(calls) == x;
        assert x[..|x| - 1] == a && x[|x| - 1] == last.now;
      } else {
        assert Run(s, calls) == before;
        assert Attempts(calls) == a;
      }
    }
  }

  /** Every attempt is at some call's time, so a bound on the calls' clock
      bounds the attempts. */
  lemma {:induction false} AttemptsBounded(calls: seq<Call>, bound: int)
    requires forall i :: 0 <= i < |calls| ==> calls[i].now <= bound
    ensures forall i :: 0 <= i < |Attempts(calls)| ==> Attempts(calls)[i] <= bound
    decreases |calls|
  {
    if calls != [] {
      var init := calls[..|calls| - 1];
      assert forall i :: 0 <= i < |init| ==> init[i] == calls[i];
      AttemptsBounded(init, bound);
    }
  }

  /** With a clock that does not go backwards, the attempts are in order. */
  lemma {:induction false} AttemptsInOrder(calls: seq<Call>)
    requires ClockForward(calls)
    ensures NonDecreasing(Attempts(calls))
    decreases |calls|
  {
    if calls != [] {
      var init := calls[..|calls| - 1];
      var last := calls[|calls| - 1];
      ClockForwardOfInit(calls, init);
      AttemptsInOrder(init);
      AttemptsInOrderStep(calls, init, last);
    }
  }

  lemma AttemptsInOrderStep(calls: seq<Call>, init: seq<Call>, last: Call)
    requires calls != [] && init == calls[..|calls| - 1] && last == calls[|calls| - 1]
    requires NonDecreasing(Attempts(init))
    requires forall i :: 0 <= i < |init| ==> init[i].now <= last.now
    ensures NonDecreasing(Attempts(calls))
  {
    AttemptsOfLast(calls, init, last);
    if Attempts(calls) != Attempts(init) {
      AttemptsBounded(init, last.now);
      InOrderAppend(Attempts(init), last.now);
    }
  }

  /** The last call adds its time to the attempts, or nothing. */
  lemma AttemptsOfLast(calls: seq<Call>, init: seq<Call>, last: Call)
    requires calls != [] && init == calls[..|calls| - 1] && last == calls[|calls| - 1]
    ensures Attempt(last) == [] ==> Attempts(calls) == Attempts(init)
    ensures Attempt(last) != [] ==> Attempts(calls) == Attempts(init) + [last.now]
  {
    if Attempt(last) == [] {
      assert Attempts(init) + [] == Attempts(init);
    }
  }

  lemma ClockForwardOfInit(calls: seq<Call>, init: seq<Call>)
    requires calls != [] && ClockForward(calls)
    requires init == calls[..|calls| - 1]
    ensures ClockForward(init)
    ensures forall i :: 0 <= i < |init| ==> init[i].now <= calls[|calls| - 1].now
  {
    assert forall i :: 0 <= i < |init| ==> init[i] == calls[i];
  }

  lemma InOrderAppend(a: seq<int>, x: int)
    requires NonDecreasing(a)
    requires forall i :: 0 <= i < |a| ==> a[i] <= x
    ensures NonDecreasing(a + [x])
  {
    var y := a + [x];
    forall i, j | 0 <= i < j < |y| ensures y[i] <= y[j] {
      assert y[i] == a[i];
    }
  }

  /** The global limit of the route: from an empty global bucket and with a
      clock that does not go backwards, at most 10 calls in any closed
      60-second window get past the global bucket. */
  lemma GlobalLimitOfRun(s: State, calls: seq<Call>, t: int)
    requires Bucket(s.buckets, GlobalKey) == []
    requires ClockForward(calls)
    ensures InWindow(Passed(s, calls), t) <= GlobalLimit
  {
    RunGlobalBucket(s, calls);
    AttemptsInOrder(calls);
    AdmittedRespectsLimit(GlobalLimit, Attempts(calls), t);
  }

  /** A call past validation that the route answers with success got past the
      global bucket, so `Passed` counts every real sign-up. */
  lemma ListedCallPassed(s: State, calls: seq<Call>)
    requires calls != []
    requires Admission(calls[|calls| - 1].req, calls[|calls| - 1].now).Some?
    requires Join(Run(s, calls[..|calls| - 1]), calls[|calls| - 1].req, calls[|calls| - 1].now).0.Listed?
    ensures Passed(s, calls) == Passed(s, calls[..|calls| - 1]) + [calls[|calls| - 1].now]
  {
    var init := calls[..|calls| - 1];
    var last := calls[|calls| - 1];
    var c := Admission(last.req, last.now).value;
    JoinOfAdmitted(Run(s, init), last.req, last.now);
    AdmitListedIff(Run(s, init), c, last.now);
  }
}
