/** The data plane request protocol as a state machine: the steps of the client, the driver and the device. */
module DataPlane {
  import opened Types

  datatype Request = Request(session: nat, op: nat, wellFormed: bool)

  /**
   * What has happened so far. Requests are numbered in the order they were accepted; `answered` lists the numbers
   * in the order the device wrote the responses, and the first `called` of them have had their callback. `polled`
   * counts the callbacks of a poll in progress, whose share of `inFlight` is given back when it ends.
   */
  datatype State = State(
    max: nat, log: seq<Request>, submitted: nat, fetched: nat,
    answered: seq<nat>, called: nat, polled: nat, inFlight: nat, live: set<nat>)

  datatype Event =
    | Init(session: nat)
    | Remove(session: nat)
    | Enqueue(request: Request)
    | Submit
    | Fetch
    | Answer(which: nat)
    | Callback
    | PollEnd

  function Start(max: nat): State {
    State(max, [], 0, 0, [], 0, 0, 0, {})
  }

  ghost predicate Done(st: State, i: nat) {
    st.called <= |st.answered| && i in st.answered[..st.called]
  }

  /** The requests of a session still owed a callback. */
  ghost function Outstanding(st: State, session: nat): set<nat> {
    set i: nat | i < |st.log| && st.log[i].session == session && !Done(st, i)
  }

  /** The device answers a session's requests in order; across sessions it is free. */
  predicate NextOfSession(st: State, i: nat) {
    && i < st.fetched <= |st.log|
    && i !in st.answered
    && forall j: nat :: j < i && st.log[j].session == st.log[i].session ==> j in st.answered
  }

  ghost predicate Enabled(st: State, e: Event) {
    match e
    case Init(s) => Outstanding(st, s) == {}
    case Remove(s) => s in st.live && Outstanding(st, s) == {}
    case Enqueue(r) => r.session in st.live && st.inFlight + 1 < st.max
    case Submit => true
    case Fetch => st.fetched < st.submitted
    case Answer(i) => NextOfSession(st, i)
    case Callback => st.called < |st.answered|
    case PollEnd => st.polled <= st.inFlight
  }

  ghost function Step(st: State, e: Event): State
    requires Enabled(st, e)
  {
    match e
    case Init(s) => st.(live := st.live + {s})
    case Remove(s) => st.(live := st.live - {s})
    case Enqueue(r) => st.(log := st.log + [r], inFlight := st.inFlight + 1)
    case Submit => st.(submitted := |st.log|)
    case Fetch => st.(fetched := st.fetched + 1)
    case Answer(i) => st.(answered := st.answered + [i])
    case Callback => st.(called := st.called + 1, polled := st.polled + 1)
    case PollEnd => st.(inFlight := st.inFlight - st.polled, polled := 0)
  }

  /** The state after a run, if every step of it was enabled when it was taken. */
  ghost function After(max: nat, run: seq<Event>): Option<State> {
    if run == [] then Some(Start(max)) else
      var before := After(max, run[..|run| - 1]);
      if before.Some? && Enabled(before.value, run[|run| - 1])
      then Some(Step(before.value, run[|run| - 1]))
      else None
  }

  ghost predicate Reaches(max: nat, run: seq<Event>, st: State) {
    After(max, run) == Some(st)
  }

  lemma Extend(max: nat, run: seq<Event>, st: State, e: Event)
    requires Reaches(max, run, st) && Enabled(st, e)
    ensures Reaches(max, run + [e], Step(st, e))
  {
    assert (run + [e])[..|run|] == run;
  }

  // What every step keeps

  ghost predicate Distinct(s: seq<nat>) {
    forall a, b :: 0 <= a < b < |s| ==> s[a] != s[b]
  }

  ghost predicate Counts(st: State) {
    && st.called <= |st.answered| <= st.fetched <= st.submitted <= |st.log|
    && st.polled <= st.called
    && st.inFlight == |st.log| - st.called + st.polled
    && (st.inFlight == 0 || st.inFlight < st.max)
  }

  ghost predicate AnswersKnown(st: State) {
    Distinct(st.answered) && forall k :: 0 <= k < |st.answered| ==> st.answered[k] < st.fetched
  }

  ghost predicate Known(log: seq<Request>, numbers: seq<nat>) {
    forall k :: 0 <= k < |numbers| ==> numbers[k] < |log|
  }

  /** Whatever precedes an answered request in its own session was answered before it. */
  ghost predicate Ordered(log: seq<Request>, answered: seq<nat>) {
    && Known(log, answered)
    && forall k, j: nat :: 0 <= k < |answered| && j < answered[k] && log[j].session == log[answered[k]].session ==>
                             j in answered[..k]
  }

  ghost predicate OutstandingLive(st: State) {
    forall i: nat :: i < |st.log| && !Done(st, i) ==> st.log[i].session in st.live
  }

  ghost predicate Inv(st: State) {
    Counts(st) && AnswersKnown(st) && Ordered(st.log, st.answered) && OutstandingLive(st)
  }

  ghost function Below(n: nat): (s: set<nat>)
    ensures |s| == n
    ensures forall i: nat :: i in s <==> i < n
  {
    if n == 0 then {} else Below(n - 1) + {n - 1}
  }

  ghost function Elements(s: seq<nat>): (e: set<nat>)
    ensures forall i: nat :: i in e <==> i in s
    ensures Distinct(s) ==> |e| == |s|
  {
    if s == [] then {} else
      var e := Elements(s[..|s| - 1]);
      assert s == s[..|s| - 1] + [s[|s| - 1]];
      e + {s[|s| - 1]}
  }

  lemma SubsetSize(a: set<nat>, b: set<nat>)
    requires a <= b
    ensures |a| <= |b|
  {
    assert b == a + (b - a);
  }

  lemma Pigeonhole(s: seq<nat>, n: nat)
    requires Distinct(s) && forall k :: 0 <= k < |s| ==> s[k] < n
    ensures |s| <= n
  {
    SubsetSize(Elements(s), Below(n));
  }

  lemma AnswerKeeps(st: State, i: nat)
    requires Inv(st) && NextOfSession(st, i)
    ensures Inv(Step(st, Answer(i)))
  {
    var after := Step(st, Answer(i));
    Pigeonhole(after.answered, st.fetched);
    assert after.answered[..|st.answered|] == st.answered;
    forall k, j: nat | 0 <= k < |after.answered| && j < after.answered[k] &&
                         st.log[j].session == st.log[after.answered[k]].session
      ensures j in after.answered[..k]
    {
      if k < |st.answered| {
        assert after.answered[..k] == st.answered[..k];
      }
    }
    assert after.answered[..after.called] == st.answered[..st.called];
    assert forall x: nat :: Done(after, x) == Done(st, x);
  }

  lemma CallbackKeeps(st: State)
    requires Inv(st) && st.called < |st.answered|
    ensures Inv(Step(st, Callback))
    ensures forall x: nat :: Done(Step(st, Callback), x) <==> Done(st, x) || x == st.answered[st.called]
  {
    assert st.answered[..st.called + 1] == st.answered[..st.called] + [st.answered[st.called]];
  }

  /** Every step of the client, the driver or the device keeps the books. */
  lemma StepKeeps(st: State, e: Event)
    requires Inv(st) && Enabled(st, e)
    ensures Inv(Step(st, e))
  {
    var after := Step(st, e);
    match e
    case Answer(i) => AnswerKeeps(st, i);
    case Callback => CallbackKeeps(st);
    case Enqueue(r) =>
      assert forall i: nat :: Done(after, i) == Done(st, i);
    case Remove(s) =>
      forall i: nat | i < |st.log| && !Done(st, i)
        ensures st.log[i].session in after.live
      {
        assert st.log[i].session == s ==> i in Outstanding(st, s);
      }
    case _ =>
      assert forall i: nat :: Done(after, i) == Done(st, i);
  }

  lemma {:induction false} RunKeeps(max: nat, run: seq<Event>, st: State)
    requires Reaches(max, run, st)
    ensures Inv(st) && st.max == max
    decreases run
  {
    if run != [] {
      var last := |run| - 1;
      var before := After(max, run[..last]).value;
      RunKeeps(max, run[..last], before);
      StepKeeps(before, run[last]);
    }
  }

  // What that means for the client

  ghost function Waiting(st: State): set<nat> {
    Below(|st.log|) - Below(st.submitted)
  }

  ghost function InDevice(st: State): set<nat> {
    set i | i in Below(st.submitted) && !Done(st, i)
  }

  ghost function CalledBack(st: State): set<nat> {
    if st.called <= |st.answered| then Elements(st.answered[..st.called]) else {}
  }

  /**
   * In every run each accepted request is in exactly one place: enqueued, submitted, or called back; no request is
   * called back twice; and the ring's in-flight counter, once a poll has ended, counts those not called back.
   */
  lemma ExactlyOnePlace(max: nat, run: seq<Event>, st: State)
    requires Reaches(max, run, st)
    ensures Waiting(st) !! InDevice(st) !! CalledBack(st)
    ensures Waiting(st) + InDevice(st) + CalledBack(st) == Below(|st.log|)
    ensures |CalledBack(st)| == st.called
    ensures |Waiting(st)| + |InDevice(st)| + st.polled == st.inFlight <= max
    ensures forall i: nat :: i in Waiting(st) <==> st.submitted <= i < |st.log|
    ensures Inv(st) && forall i: nat :: i in CalledBack(st) <==> i in st.answered[..st.called]
  {
    RunKeeps(max, run, st);
    assert Distinct(st.answered[..st.called]);
    DoneSubmitted(st);
    ThreeParts(Waiting(st), InDevice(st), CalledBack(st), st.submitted, |st.log|);
  }

  lemma DoneSubmitted(st: State)
    requires Counts(st) && AnswersKnown(st)
    ensures forall i: nat :: i in CalledBack(st) ==> i < st.submitted
    ensures forall i: nat :: i in CalledBack(st) <==> Done(st, i)
  {
    forall i: nat | i in st.answered[..st.called]
      ensures i < st.submitted
    {
      assert i in st.answered;
    }
  }

  lemma ThreeParts(a: set<nat>, b: set<nat>, c: set<nat>, m: nat, n: nat)
    requires m <= n
    requires forall i: nat :: i in a <==> m <= i < n
    requires forall i: nat :: i in b <==> i < m && i !in c
    requires forall i: nat :: i in c ==> i < m
    ensures a !! b !! c
    ensures a + b + c == Below(n)
    ensures |a| + |b| + |c| == n
  {
    assert a + b + c == Below(n);
    assert |a + b| == |a| + |b|;
    assert |(a + b) + c| == |a + b| + |c|;
  }

  ghost function Of(log: seq<Request>, numbers: seq<nat>, session: nat): seq<nat>
    requires Known(log, numbers)
  {
    if numbers == [] then [] else
      var last := numbers[|numbers| - 1];
      Of(log, numbers[..|numbers| - 1], session) + if log[last].session == session then [last] else []
  }

  function Numbers(log: seq<Request>, session: nat): seq<nat> {
    if log == [] then [] else
      Numbers(log[..|log| - 1], session) + if log[|log| - 1].session == session then [|log| - 1] else []
  }

  lemma {:induction false} OfMembers(log: seq<Request>, numbers: seq<nat>, session: nat)
    requires Known(log, numbers)
    ensures forall i: nat :: i in Of(log, numbers, session) <==>
                             i in numbers && i < |log| && log[i].session == session
  {
    if numbers != [] {
      OfMembers(log, numbers[..|numbers| - 1], session);
      assert numbers == numbers[..|numbers| - 1] + [numbers[|numbers| - 1]];
    }
  }

  lemma {:induction false} NumbersMembers(log: seq<Request>, session: nat)
    ensures forall i: nat :: i in Numbers(log, session) <==> i < |log| && log[i].session == session
    ensures var s := Numbers(log, session); forall a, b :: 0 <= a < b < |s| ==> s[a] < s[b]
  {
    if log != [] {
      var shorter := log[..|log| - 1];
      NumbersMembers(shorter, session);
      forall a | 0 <= a < |Numbers(shorter, session)|
        ensures Numbers(shorter, session)[a] < |log| - 1
      {
        assert Numbers(shorter, session)[a] in Numbers(shorter, session);
      }
    }
  }

  lemma NextNumber(all: seq<nat>, some: seq<nat>, i: nat)
    requires forall a, b :: 0 <= a < b < |all| ==> all[a] < all[b]
    requires some <= all && i in all && i !in some
    requires forall j: nat :: j in all && j < i ==> j in some
    ensures some + [i] <= all
  {
    var n := |some|;
    assert forall k :: 0 <= k < n ==> some[k] == all[k];
    var p :| 0 <= p < |all| && all[p] == i;
    assert n <= p < |all|;
    assert all[n] !in some;
    assert all[n] == i;
  }

  lemma {:induction false} PrefixOfSession(log: seq<Request>, done: seq<nat>, session: nat)
    requires Ordered(log, done) && Distinct(done)
    ensures Of(log, done, session) <= Numbers(log, session)
  {
    if done != [] {
      var shorter, i := done[..|done| - 1], done[|done| - 1];
      assert forall k :: 0 <= k < |shorter| ==> shorter[..k] == done[..k];
      PrefixOfSession(log, shorter, session);
      if log[i].session == session {
        OfMembers(log, shorter, session);
        NumbersMembers(log, session);
        NextNumber(Numbers(log, session), Of(log, shorter, session), i);
      }
    }
  }

  /** In every run a session's callbacks come in the order its requests were accepted, with none skipped. */
  lemma CallbacksInOrder(max: nat, run: seq<Event>, st: State, session: nat)
    requires Reaches(max, run, st)
    ensures Inv(st)
    ensures Of(st.log, st.answered[..st.called], session) <= Numbers(st.log, session)
  {
    RunKeeps(max, run, st);
    var done := st.answered[..st.called];
    assert forall k :: 0 <= k < |done| ==> done[..k] == st.answered[..k];
    PrefixOfSession(st.log, done, session);
  }

  /** In no run does a callback arrive for a session that has been removed and not initialised again. */
  lemma NoCallbackAfterRemoval(max: nat, run: seq<Event>, st: State)
    requires Reaches(max, run, st) && Enabled(st, Callback)
    ensures Inv(st)
    ensures st.log[st.answered[st.called]].session in st.live
  {
    RunKeeps(max, run, st);
    var i := st.answered[st.called];
    assert !Done(st, i) by {
      forall k | 0 <= k < st.called
        ensures st.answered[..st.called][k] != i
      {
      }
    }
  }

  /** Once the device has answered everything submitted, polling can go on until nothing is owed. */
  lemma DrainedOwesNothing(max: nat, run: seq<Event>, st: State, session: nat)
    requires Reaches(max, run, st) && st.submitted == |st.log| && |st.answered| == st.submitted && st.called == |st.answered|
    ensures Outstanding(st, session) == {}
  {
    RunKeeps(max, run, st);
    assert st.answered[..st.called] == st.answered;
    forall i: nat | i < |st.log|
      ensures Done(st, i)
    {
      AllTaken(st.answered, |st.log|, i);
    }
  }

  lemma AllTaken(s: seq<nat>, n: nat, i: nat)
    requires Distinct(s) && |s| == n && i < n
    requires forall k :: 0 <= k < |s| ==> s[k] < n
    ensures i in s
  {
    if i !in s {
      Pigeonhole(s + [i], n);
    }
  }

  // Progress, and how far behind the client can fall

  /** The least unanswered request of a session is next in it. */
  lemma {:induction false} LeastUnanswered(st: State, i: nat) returns (j: nat)
    requires i < st.fetched <= |st.log| && i !in st.answered
    ensures NextOfSession(st, j)
  {
    j := i;
    if j0: nat :| j0 < i && st.log[j0].session == st.log[i].session && j0 !in st.answered {
      j := LeastUnanswered(st, j0);
    }
  }

  /** In every run the device is never stuck: if it has fetched what it has not answered, there is one it may answer. */
  lemma DeviceCanAnswer(max: nat, run: seq<Event>, st: State)
    requires Reaches(max, run, st) && |st.answered| < st.fetched
    ensures exists i :: NextOfSession(st, i)
  {
    RunKeeps(max, run, st);
    if forall i: nat :: i < st.fetched ==> i in st.answered {
      assert Below(st.fetched) <= Elements(st.answered);
      SubsetSize(Below(st.fetched), Elements(st.answered));
    } else {
      var i: nat :| i < st.fetched && i !in st.answered;
      var j := LeastUnanswered(st, i);
    }
  }

  /** The client of one session has enqueued and submitted n requests, and the device has fetched the first f. */
  function Behind(max: nat, n: nat, submitted: nat, f: nat, a: nat): State {
    State(max, seq(n, _ => Request(0, 0, true)), submitted, f, seq(a, k => k), 0, 0, n, {0})
  }

  lemma {:induction false} ReachEnqueued(max: nat, n: nat) returns (run: seq<Event>)
    requires n < max
    ensures Reaches(max, run, Behind(max, n, 0, 0, 0))
  {
    if n == 0 {
      run := [Init(0)];
      assert run[..0] == [];
      assert Outstanding(Start(max), 0) == {};
      assert Step(Start(max), Init(0)) == Behind(max, 0, 0, 0, 0);
    } else {
      var shorter := ReachEnqueued(max, n - 1);
      var before, e := Behind(max, n - 1, 0, 0, 0), Enqueue(Request(0, 0, true));
      assert Step(before, e) == Behind(max, n, 0, 0, 0);
      Extend(max, shorter, before, e);
      run := shorter + [e];
    }
  }

  lemma {:induction false} ReachFetched(max: nat, n: nat, f: nat) returns (run: seq<Event>)
    requires f <= n < max
    ensures Reaches(max, run, Behind(max, n, n, f, 0))
    decreases f
  {
    if f == 0 {
      var shorter := ReachEnqueued(max, n);
      Extend(max, shorter, Behind(max, n, 0, 0, 0), Submit);
      assert Step(Behind(max, n, 0, 0, 0), Submit) == Behind(max, n, n, 0, 0);
      run := shorter + [Submit];
    } else {
      var shorter := ReachFetched(max, n, f - 1);
      assert Step(Behind(max, n, n, f - 1, 0), Fetch) == Behind(max, n, n, f, 0);
      Extend(max, shorter, Behind(max, n, n, f - 1, 0), Fetch);
      run := shorter + [Fetch];
    }
  }

  /** For every number below the ring's limit, a run after which that many responses wait and none was called back. */
  lemma {:induction false} ReachBacklog(max: nat, n: nat, a: nat) returns (run: seq<Event>)
    requires a <= n < max
    ensures Reaches(max, run, Behind(max, n, n, n, a))
    decreases a
  {
    if a == 0 {
      run := ReachFetched(max, n, n);
    } else {
      var shorter := ReachBacklog(max, n, a - 1);
      var before, e := Behind(max, n, n, n, a - 1), Answer(a - 1);
      forall j: nat | j < a - 1
        ensures j in before.answered
      {
        assert before.answered[j] == j;
      }
      assert Enabled(before, e);
      assert Step(before, e) == Behind(max, n, n, n, a);
      Extend(max, shorter, before, e);
      run := shorter + [e];
    }
  }

  /** What the device has not fetched fits a ring of n slots, and what it was told of can be told from nothing. */
  ghost predicate FitsRing(st: State, n: nat) {
    |st.log| <= st.fetched + n && st.submitted < st.fetched + n
  }

  lemma FitsBelow(st: State, n: nat)
    requires Inv(st) && 0 < n && st.max <= n
    ensures FitsRing(st, n)
  {
  }

  /**
   * A ring works for every run if and only if the limit on requests in flight is within its slots; with one slot fewer
   * nothing is overwritten yet, but a full ring handed over looks empty to the device.
   */
  lemma RingHoldsIff(max: nat, slots: nat)
    requires slots > 0
    ensures (forall run, st :: Reaches(max, run, st) ==> FitsRing(st, slots)) <==> max <= slots
    ensures (forall run, st :: Reaches(max, run, st) ==> |st.log| <= st.fetched + slots) <==> max <= slots + 1
  {
    if max <= slots {
      forall run, st | Reaches(max, run, st)
        ensures FitsRing(st, slots)
      {
        RunKeeps(max, run, st);
        FitsBelow(st, slots);
      }
    } else {
      var run := ReachFetched(max, slots, 0);
      assert !FitsRing(Behind(max, slots, slots, 0, 0), slots);
    }
    if max <= slots + 1 {
      forall run, st | Reaches(max, run, st)
        ensures |st.log| <= st.fetched + slots
      {
        RunKeeps(max, run, st);
      }
    } else {
      var run := ReachEnqueued(max, slots + 1);
      assert |Behind(max, slots + 1, 0, 0, 0).log| > 0 + slots;
    }
  }

  // Enqueueing one by one, in batches, and when to submit

  datatype Status = Success | Retry | InvalidParam

  function Append(st: State, rs: seq<Request>): State {
    st.(log := st.log + rs, inFlight := st.inFlight + |rs|)
  }

  function Flush(st: State, performOpNow: bool): State {
    if performOpNow then st.(submitted := |st.log|) else st
  }

  predicate AllWellFormed(rs: seq<Request>) {
    forall k :: 0 <= k < |rs| ==> rs[k].wellFormed
  }

  function EnqueueOne(st: State, r: Request, performOpNow: bool): (Status, State) {
    if !r.wellFormed then (InvalidParam, st)
    else if st.inFlight + 1 >= st.max then (Retry, st)
    else (Success, Flush(Append(st, [r]), performOpNow))
  }

  function EnqueueBatch(st: State, rs: seq<Request>, performOpNow: bool, maxBatch: nat): (Status, State) {
    if |rs| == 0 || |rs| > maxBatch || !AllWellFormed(rs) then (InvalidParam, st)
    else if st.inFlight + |rs| >= st.max then (Retry, st)
    else (Success, Flush(Append(st, rs), performOpNow))
  }

  /** A single enqueue per request, each with its own flag, whatever each one reports. */
  function Singles(st: State, rs: seq<Request>, flags: seq<bool>): State
    requires |flags| == |rs|
  {
    if rs == [] then st else
      var last := |rs| - 1;
      EnqueueOne(Singles(st, rs[..last], flags[..last]), rs[last], flags[last]).1
  }

  /** Submit nothing until the last one, which carries the flag. */
  function LastOnly(n: nat, performOpNow: bool): seq<bool> {
    seq(n, k => performOpNow && k == n - 1)
  }

  /** How many of the next `n` requests still fit. */
  function Room(st: State, n: nat): (k: nat)
    ensures k <= n
  {
    if st.inFlight + 1 >= st.max then 0 else if st.inFlight + n < st.max then n else st.max - 1 - st.inFlight
  }

  lemma AppendAppend(st: State, rs: seq<Request>, more: seq<Request>)
    ensures Append(Append(st, rs), more) == Append(st, rs + more)
  {
    assert st.log + rs + more == st.log + (rs + more);
  }

  lemma {:induction false} SinglesDeferred(st: State, rs: seq<Request>, flags: seq<bool>)
    requires |flags| == |rs| && AllWellFormed(rs) && true !in flags
    ensures Singles(st, rs, flags) == Append(st, rs[..Room(st, |rs|)])
    decreases rs
  {
    if rs == [] {
      assert st.log + [] == st.log;
    } else {
      var last := |rs| - 1;
      SinglesDeferred(st, rs[..last], flags[..last]);
      assert rs[..last][..Room(st, last)] == rs[..Room(st, last)];
      AppendAppend(st, rs[..last], [rs[last]]);
      assert rs == rs[..last] + [rs[last]] == rs[..|rs|];
      assert flags[last] in flags;
    }
  }

  /**
   * A batch that is not malformed reaches the state of as many single enqueues, the last carrying the flag, exactly
   * when the whole batch fits or not even one request does: singles fill what room there is, a batch takes all or none.
   */
  lemma BatchIsSinglesIff(st: State, rs: seq<Request>, performOpNow: bool, maxBatch: nat)
    requires 0 < |rs| <= maxBatch && AllWellFormed(rs)
    ensures EnqueueBatch(st, rs, performOpNow, maxBatch).1 == Singles(st, rs, LastOnly(|rs|, performOpNow)) <==>
            st.inFlight + |rs| < st.max || st.inFlight + 1 >= st.max
    ensures EnqueueBatch(st, rs, performOpNow, maxBatch).0.Success? <==> st.inFlight + |rs| < st.max
  {
    var last := |rs| - 1;
    var flags := LastOnly(|rs|, performOpNow);
    SinglesDeferred(st, rs[..last], flags[..last]);
    assert rs[..last][..Room(st, last)] == rs[..Room(st, last)];
    AppendAppend(st, rs[..last], [rs[last]]);
    assert rs == rs[..last] + [rs[last]];
    assert Room(st, last) > 0 ==> |Append(st, rs[..Room(st, last)]).log| > |st.log|;
  }

  /** On a ring of 64 messages with room for one, a batch of two is refused where the first of two singles is accepted. */
  lemma BatchDiffers(r: Request) returns (run: seq<Event>, st: State)
    requires r.wellFormed && r.session == 0
    ensures Reaches(63, run, st) && st == Behind(63, 61, 0, 0, 0)
    ensures EnqueueBatch(st, [r, r], true, 62) == (Retry, st)
    ensures Singles(st, [r, r], LastOnly(2, true)).log == st.log + [r]
  {
    run := ReachEnqueued(63, 61);
    st := Behind(63, 61, 0, 0, 0);
    SinglesDeferred(st, [r], [false]);
    var flags := LastOnly(2, true);
    assert [r, r][..1] == [r] && flags[..1] == [false];
    assert [r][..Room(st, 1)] == [r];
  }

  lemma {:induction false} FlagsOnlyMoveTheTail(st: State, rs: seq<Request>, flags: seq<bool>, flags': seq<bool>)
    requires |flags| == |rs| == |flags'|
    ensures Flush(Singles(st, rs, flags), true) == Flush(Singles(st, rs, flags'), true)
    decreases rs
  {
    if rs != [] {
      var last := |rs| - 1;
      FlagsOnlyMoveTheTail(st, rs[..last], flags[..last], flags'[..last]);
    }
  }

  /** Wherever requests are submitted along the way, one last submission leaves the same requests submitted, in order. */
  lemma PlacementIrrelevant(st: State, rs: seq<Request>, flags: seq<bool>, flags': seq<bool>)
    requires |flags| == |rs| == |flags'|
    ensures var one, other := Flush(Singles(st, rs, flags), true), Flush(Singles(st, rs, flags'), true);
            one == other && one.log[..one.submitted] == other.log[..other.submitted] == one.log
  {
    FlagsOnlyMoveTheTail(st, rs, flags, flags');
  }

  /** The requests a run accepted, in order. */
  function Accepted(run: seq<Event>): seq<Request> {
    if run == [] then [] else
      Accepted(run[..|run| - 1]) + if run[|run| - 1].Enqueue? then [run[|run| - 1].request] else []
  }

  lemma {:induction false} LogIsAccepted(max: nat, run: seq<Event>, st: State)
    requires Reaches(max, run, st)
    ensures st.log == Accepted(run)
    decreases run
  {
    if run != [] {
      LogIsAccepted(max, run[..|run| - 1], After(max, run[..|run| - 1]).value);
    }
  }

  /**
   * The same for whole runs: whatever polls, device steps, removals and submissions lie between, two runs that accept
   * the same requests and end with nothing left to submit have submitted the same requests in the same order.
   */
  lemma SubmittedByAnyRun(max: nat, run: seq<Event>, st: State, max': nat, run': seq<Event>, st': State)
    requires Reaches(max, run, st) && Reaches(max', run', st') && Accepted(run) == Accepted(run')
    requires st.submitted == |st.log| && st'.submitted == |st'.log|
    ensures st.log[..st.submitted] == Accepted(run) == st'.log[..st'.submitted]
  {
    LogIsAccepted(max, run, st);
    LogIsAccepted(max', run', st');
  }
}
