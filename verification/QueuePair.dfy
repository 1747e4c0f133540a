/** A request ring and a response ring in memory shared with the device, and the data plane calls that drive them. */
module QueuePair {
  import opened Types
  import opened DataPlane
  import NumberTheory
  import RingSize

  const NO_RESPONSE_QUOTA := 10000
  const MIN_RESPONSES_PER_HEAD_WRITE := 32
  const REQUEST_SIZE := 128
  const RESPONSE_SIZE := 32

  // Slots of a ring, addressed by how many messages came before

  function Slot(position: nat, length: nat): (s: nat)
    requires length > 0
    ensures s < length
  {
    position % length
  }

  lemma SlotNext(p: nat, n: nat)
    requires n > 0
    ensures (Slot(p, n) + 1) % n == Slot(p + 1, n)
  {
    var q, r := p / n, p % n;
    if r + 1 < n {
      NumberTheory.ModUnique(0, r + 1, n);
      NumberTheory.ModUnique(q, r + 1, n);
      assert q * n + (r + 1) == p + 1;
    } else {
      NumberTheory.ModUnique(1, 0, n);
      NumberTheory.ModUnique(q + 1, 0, n);
      assert (q + 1) * n + 0 == p + 1;
    }
  }

  lemma SlotsDiffer(p: nat, q: nat, n: nat)
    requires n > 0 && p < q < p + n
    ensures Slot(p, n) != Slot(q, n)
  {
    var d := q / n - p / n;
    assert d * n == q - p + (p % n - q % n);
    assert d >= 1 ==> d * n >= n;
    assert d <= 0 ==> d * n <= 0;
  }

  /** Two positions share a slot exactly when they lie a whole number of rings apart. */
  lemma SlotsDifferIff(p: nat, q: nat, n: nat)
    requires n > 0 && p <= q
    ensures Slot(p, n) != Slot(q, n) <==> (q - p) % n != 0
  {
    NumberTheory.ModEqIff(q, p, n);
  }

  lemma SlotsMeet(p: nat, n: nat)
    requires n > 0
    ensures Slot(p + n, n) == Slot(p, n)
  {
    NumberTheory.ModUnique(p / n + 1, p % n, n);
    assert (p / n + 1) * n + p % n == p + n;
  }

  /** The ring holds the messages from number `lo` on, each in its own slot. */
  ghost predicate Window(ring: seq<Option<Request>>, lo: nat, messages: seq<Request>) {
    && lo <= |messages| <= lo + |ring|
    && |ring| > 0
    && forall p {:trigger messages[p]} :: lo <= p < |messages| ==> ring[Slot(p, |ring|)] == Some(messages[p])
  }

  /** All other slots carry the empty mark. */
  ghost predicate Clear(ring: seq<Option<Request>>, lo: nat, hi: nat) {
    |ring| > 0 && forall p: nat {:trigger Slot(p, |ring|)} :: hi <= p < lo + |ring| ==> ring[Slot(p, |ring|)] == None
  }

  lemma Put(ring: seq<Option<Request>>, lo: nat, messages: seq<Request>, m: Request)
    requires Window(ring, lo, messages) && |messages| < lo + |ring|
    ensures var ring' := ring[Slot(|messages|, |ring|) := Some(m)];
            && Window(ring', lo, messages + [m])
            && (Clear(ring, lo, |messages|) ==> Clear(ring', lo, |messages| + 1))
  {
    var n, hi := |ring|, |messages|;
    var ring' := ring[Slot(hi, n) := Some(m)];
    forall p | lo <= p < hi + 1
      ensures ring'[Slot(p, n)] == Some((messages + [m])[p])
    {
      if p < hi {
        SlotsDiffer(p, hi, n);
        assert ring[Slot(p, n)] == Some(messages[p]);
      }
    }
    if Clear(ring, lo, hi) {
      forall p: nat | hi + 1 <= p < lo + n
        ensures ring'[Slot(p, n)] == None
      {
        SlotsDiffer(hi, p, n);
      }
    }
  }

  lemma Skip(ring: seq<Option<Request>>, lo: nat, messages: seq<Request>)
    requires Window(ring, lo, messages) && lo < |messages|
    ensures Window(ring, lo + 1, messages)
    ensures ring[Slot(lo, |ring|)] == Some(messages[lo])
  {
  }

  lemma Take(ring: seq<Option<Request>>, lo: nat, messages: seq<Request>)
    requires Window(ring, lo, messages) && Clear(ring, lo, |messages|) && lo < |messages|
    ensures var ring' := ring[Slot(lo, |ring|) := None];
            Window(ring', lo + 1, messages) && Clear(ring', lo + 1, |messages|)
  {
    var n := |ring|;
    var ring' := ring[Slot(lo, n) := None];
    forall p | lo + 1 <= p < |messages|
      ensures ring'[Slot(p, n)] == Some(messages[p])
    {
      SlotsDiffer(lo, p, n);
    }
    forall p: nat | |messages| <= p < lo + 1 + n
      ensures ring'[Slot(p, n)] == None
    {
      if p == lo + n {
        SlotsMeet(lo, n);
      } else {
        SlotsDiffer(lo, p, n);
      }
    }
  }

  /** The responses in the order the device wrote them. */
  ghost function Responses(log: seq<Request>, answered: seq<nat>): (r: seq<Request>)
    requires Known(log, answered)
    ensures |r| == |answered|
    ensures forall k :: 0 <= k < |answered| ==> r[k] == log[answered[k]]
  {
    if answered == [] then [] else
      Responses(log, answered[..|answered| - 1]) + [log[answered[|answered| - 1]]]
  }

  /** Where the driver and the device stand on a ring of n slots. */
  ghost predicate At(n: nat, tail: nat, csrTail: nat, devHead: nat, st: State) {
    && n > 0
    && st.fetched <= st.submitted <= |st.log|
    && tail == Slot(|st.log|, n)
    && csrTail == Slot(st.submitted, n)
    && devHead == Slot(st.fetched, n)
  }

  /** The request ring as the driver keeps it: while it has not been overrun, it holds what the device has not fetched. */
  ghost predicate TxSound(tx: seq<Option<Request>>, tail: nat, csrTail: nat, devHead: nat, st: State) {
    At(|tx|, tail, csrTail, devHead, st) && (FitsRing(st, |tx|) ==> Window(tx, st.fetched, st.log))
  }

  /** And it has not been overrun. */
  ghost predicate TxOk(tx: seq<Option<Request>>, tail: nat, csrTail: nat, devHead: nat, st: State) {
    TxSound(tx, tail, csrTail, devHead, st) && FitsRing(st, |tx|)
  }

  ghost predicate RxOk(rx: seq<Option<Request>>, head: nat, devTail: nat, callbacks: seq<Request>, st: State) {
    && Known(st.log, st.answered)
    && Window(rx, st.called, Responses(st.log, st.answered))
    && Clear(rx, st.called, |st.answered|)
    && head == Slot(st.called, |rx|)
    && devTail == Slot(|st.answered|, |rx|)
    && callbacks == Responses(st.log, st.answered)[..st.called]
  }

  /** Each live session's counter is the number of callbacks it is owed. */
  ghost predicate PendingOk(pending: map<nat, nat>, st: State) {
    && pending.Keys == st.live
    && forall s :: s in pending ==> pending[s] == |Outstanding(st, s)|
  }

  /** The device still has, unaltered, every request it fetched and has not answered. */
  ghost predicate WorkOk(work: map<nat, Request>, st: State) {
    && (forall i: nat :: i in work <==> i < st.fetched && i !in st.answered)
    && forall i: nat :: i in work ==> i < |st.log| && work[i] == st.log[i]
  }

  /** The head the device was last told lags by what the coalescing counter has used up. */
  ghost predicate HeadOk(headCsr: nat, reported: nat, coal: nat, min: nat, length: nat, st: State) {
    && length > 0
    && st.polled <= st.called
    && reported <= st.called - st.polled
    && headCsr == Slot(reported, length)
    && ((coal == 0 && reported == st.called - st.polled == 0) || coal + (st.called - st.polled - reported) == min)
  }

  lemma OutstandingAfterEnqueue(st: State, r: Request, s: nat)
    requires Inv(st)
    requires Enabled(st, Enqueue(r))
    ensures |Outstanding(Step(st, Enqueue(r)), s)| == |Outstanding(st, s)| + (if s == r.session then 1 else 0)
  {
    var after := Step(st, Enqueue(r));
    forall i: nat | Done(st, i)
      ensures i < |st.log|
    {
      assert i in st.answered;
    }
    assert Outstanding(after, s) == Outstanding(st, s) + if s == r.session then {|st.log|} else {};
  }

  lemma OutstandingAfterCallback(st: State, s: nat)
    requires Inv(st) && Enabled(st, Callback)
    ensures var r := st.log[st.answered[st.called]];
            && |Outstanding(st, s)| == |Outstanding(Step(st, Callback), s)| + (if s == r.session then 1 else 0)
  {
    var i := st.answered[st.called];
    CallbackKeeps(st);
    assert !Done(st, i);
    assert Outstanding(st, s) == Outstanding(Step(st, Callback), s) + if s == st.log[i].session then {i} else {};
  }

  lemma OutstandingUnchanged(st: State, st': State, s: nat)
    requires st.log == st'.log && forall i: nat :: Done(st, i) == Done(st', i)
    ensures Outstanding(st, s) == Outstanding(st', s)
  {
  }

  // One step of the protocol on each part of the memory

  lemma EnqueueKeeps(tx: seq<Option<Request>>, tail: nat, csrTail: nat, devHead: nat, st: State, r: Request)
    requires Enabled(st, Enqueue(r)) && TxSound(tx, tail, csrTail, devHead, st)
    ensures tail < |tx|
    ensures TxSound(tx[tail := Some(r)], (tail + 1) % |tx|, csrTail, devHead, Step(st, Enqueue(r)))
  {
    if FitsRing(Step(st, Enqueue(r)), |tx|) {
      Put(tx, st.fetched, st.log, r);
    }
    SlotNext(|st.log|, |tx|);
  }

  lemma EnqueueKeepsOthers(rx: seq<Option<Request>>, head: nat, devTail: nat, callbacks: seq<Request>,
                           work: map<nat, Request>, st: State, r: Request)
    requires Inv(st) && Enabled(st, Enqueue(r))
    requires RxOk(rx, head, devTail, callbacks, st) && WorkOk(work, st)
    ensures RxOk(rx, head, devTail, callbacks, Step(st, Enqueue(r))) && WorkOk(work, Step(st, Enqueue(r)))
  {
    StepKeeps(st, Enqueue(r));
    assert Responses(st.log + [r], st.answered) == Responses(st.log, st.answered);
  }

  lemma EnqueuePending(pending: map<nat, nat>, st: State, r: Request)
    requires Inv(st) && Enabled(st, Enqueue(r)) && PendingOk(pending, st)
    ensures PendingOk(pending[r.session := pending[r.session] + 1], Step(st, Enqueue(r)))
  {
    forall s | s in pending
      ensures pending[r.session := pending[r.session] + 1][s] == |Outstanding(Step(st, Enqueue(r)), s)|
    {
      OutstandingAfterEnqueue(st, r, s);
    }
  }

  lemma SameOutstanding(pending: map<nat, nat>, st: State, st': State)
    requires PendingOk(pending, st)
    requires st.log == st'.log && st.live == st'.live && forall i: nat :: Done(st, i) == Done(st', i)
    ensures PendingOk(pending, st')
  {
    forall s | s in pending
      ensures pending[s] == |Outstanding(st', s)|
    {
      OutstandingUnchanged(st, st', s);
    }
  }

  lemma AnswerRx(rx: seq<Option<Request>>, head: nat, devTail: nat, callbacks: seq<Request>, st: State, i: nat)
    requires RxOk(rx, head, devTail, callbacks, st)
    requires st.called <= |st.answered| < st.called + |rx| && NextOfSession(st, i)
    ensures devTail < |rx|
    ensures RxOk(rx[devTail := Some(st.log[i])], head, (devTail + 1) % |rx|, callbacks, Step(st, Answer(i)))
  {
    hide Window, Clear, Slot, Responses;
    var longer := st.answered + [i];
    assert longer[..|st.answered|] == st.answered;
    assert Responses(st.log, longer) == Responses(st.log, st.answered) + [st.log[i]];
    Put(rx, st.called, Responses(st.log, st.answered), st.log[i]);
    SlotNext(|st.answered|, |rx|);
    assert Responses(st.log, longer)[..st.called] == Responses(st.log, st.answered)[..st.called];
  }

  lemma AnswerWork(work: map<nat, Request>, pending: map<nat, nat>, st: State, i: nat)
    requires NextOfSession(st, i) && st.called <= |st.answered| && WorkOk(work, st) && PendingOk(pending, st)
    ensures i in work && work[i] == st.log[i]
    ensures WorkOk(work - {i}, Step(st, Answer(i))) && PendingOk(pending, Step(st, Answer(i)))
  {
    var after := Step(st, Answer(i));
    assert after.answered[..after.called] == st.answered[..st.called];
    SameOutstanding(pending, st, after);
  }

  lemma CallbackRx(rx: seq<Option<Request>>, head: nat, devTail: nat, callbacks: seq<Request>, st: State) returns (r: Request)
    requires Enabled(st, Callback) && RxOk(rx, head, devTail, callbacks, st)
    ensures r == st.log[st.answered[st.called]] && head < |rx| && rx[head] == Some(r)
    ensures RxOk(rx[head := None], (head + 1) % |rx|, devTail, callbacks + [r], Step(st, Callback))
  {
    hide Window, Clear, Slot, Responses;
    Skip(rx, st.called, Responses(st.log, st.answered));
    Take(rx, st.called, Responses(st.log, st.answered));
    SlotNext(st.called, |rx|);
    r := st.log[st.answered[st.called]];
    assert Responses(st.log, st.answered)[st.called] == r;
  }

  lemma CallbackPending(pending: map<nat, nat>, st: State, r: Request)
    requires Inv(st) && Enabled(st, Callback) && PendingOk(pending, st) && r == st.log[st.answered[st.called]]
    ensures r.session in pending && pending[r.session] > 0
    ensures PendingOk(pending[r.session := pending[r.session] - 1], Step(st, Callback))
  {
    assert !Done(st, st.answered[st.called]);
    assert r.session in st.live;
    forall s | s in pending
      ensures pending[s] == |Outstanding(Step(st, Callback), s)| + (if s == r.session then 1 else 0)
    {
      OutstandingAfterCallback(st, s);
    }
  }

  /** An empty mark under the head is read exactly when every response has been called back. */
  lemma EmptyMark(rx: seq<Option<Request>>, head: nat, devTail: nat, callbacks: seq<Request>, st: State)
    requires Inv(st) && st.max < |rx| && RxOk(rx, head, devTail, callbacks, st)
    ensures head < |rx| && (rx[head] == None <==> st.called == |st.answered|)
  {
    if st.called < |st.answered| {
      Skip(rx, st.called, Responses(st.log, st.answered));
    }
  }

  predicate CanAnswer(work: map<nat, Request>, i: nat) {
    i in work && forall j :: j in work && j < i ==> work[j].session != work[i].session
  }

  lemma CanAnswerIff(work: map<nat, Request>, st: State, i: nat)
    requires Inv(st) && WorkOk(work, st)
    ensures CanAnswer(work, i) <==> NextOfSession(st, i)
  {
    if NextOfSession(st, i) {
      assert i in work;
    }
  }

  lemma SubmitKeeps(tx: seq<Option<Request>>, tail: nat, csrTail: nat, devHead: nat, pending: map<nat, nat>, st: State)
    requires TxSound(tx, tail, csrTail, devHead, st)
    ensures TxSound(tx, tail, tail, devHead, Step(st, Submit))
    ensures PendingOk(pending, st) ==> PendingOk(pending, Step(st, Submit))
  {
    if PendingOk(pending, st) {
      SameOutstanding(pending, st, Step(st, Submit));
    }
  }

  lemma SubmitKeepsOthers(rx: seq<Option<Request>>, head: nat, devTail: nat, callbacks: seq<Request>,
                          work: map<nat, Request>, st: State)
    requires RxOk(rx, head, devTail, callbacks, st) && WorkOk(work, st)
    ensures RxOk(rx, head, devTail, callbacks, Step(st, Submit)) && WorkOk(work, Step(st, Submit))
  {
  }

  lemma InitKeeps(pending: map<nat, nat>, st: State, session: nat)
    requires PendingOk(pending, st) && Enabled(st, Init(session))
    ensures PendingOk(pending[session := 0], Step(st, Init(session)))
  {
    var after := Step(st, Init(session));
    forall s ensures Outstanding(after, s) == Outstanding(st, s) {
      OutstandingUnchanged(st, after, s);
    }
  }

  lemma InitLosesCount(pending: map<nat, nat>, st: State, session: nat)
    requires Outstanding(st, session) != {}
    ensures !PendingOk(pending[session := 0], st)
  {
  }

  /** What comparing the two tails tells: whether what waits is not a whole number of rings. */
  lemma TailTells(tx: seq<Option<Request>>, tail: nat, csrTail: nat, devHead: nat, st: State)
    requires TxSound(tx, tail, csrTail, devHead, st)
    ensures |tx| > 0 && st.submitted <= |st.log|
    ensures tail != csrTail <==> (|st.log| - st.submitted) % |tx| != 0
  {
    SlotsDifferIff(st.submitted, |st.log|, |tx|);
  }

  /** So it tells whether anything waits, if no more can be in flight than the ring has slots. */
  lemma TailTellsAll(st: State, n: nat)
    requires Inv(st) && 0 < n && st.max <= n
    ensures (|st.log| - st.submitted) % n != 0 <==> st.submitted < |st.log|
  {
    NumberTheory.ModUnique(0, |st.log| - st.submitted, n);
  }

  /** After 32768 requests that were only enqueued, the tails of a ring of 32768 slots are the same, and all requests wait. */
  lemma TailFooled() returns (run: seq<Event>, st: State)
    ensures Reaches(65535, run, st) && |st.log| == 32768 && st.submitted == 0
    ensures Slot(|st.log|, 32768) == Slot(st.submitted, 32768)
  {
    run := ReachEnqueued(65535, 32768);
    st := Behind(65535, 32768, 0, 0, 0);
  }

  lemma LiveIrrelevant(tx: seq<Option<Request>>, tail: nat, csrTail: nat, devHead: nat, st: State, st': State)
    requires TxSound(tx, tail, csrTail, devHead, st) && st' == st.(live := st'.live)
    ensures TxSound(tx, tail, csrTail, devHead, st')
  {
  }

  lemma LiveIrrelevantToOthers(rx: seq<Option<Request>>, head: nat, devTail: nat, callbacks: seq<Request>,
                               work: map<nat, Request>, st: State, st': State)
    requires RxOk(rx, head, devTail, callbacks, st) && WorkOk(work, st) && st' == st.(live := st'.live)
    ensures RxOk(rx, head, devTail, callbacks, st') && WorkOk(work, st')
  {
  }

  lemma Ranges(tx: seq<Option<Request>>, tail: nat, csrTail: nat, devHead: nat, st: State)
    requires TxSound(tx, tail, csrTail, devHead, st)
    ensures tail < |tx| && devHead < |tx|
  {
  }

  lemma PendingLive(pending: map<nat, nat>, st: State)
    requires PendingOk(pending, st)
    ensures pending.Keys == st.live
  {
  }

  lemma OutstandingIsLive(st: State, session: nat)
    requires Inv(st) && Outstanding(st, session) != {}
    ensures session in st.live
  {
    var i :| i in Outstanding(st, session);
  }

  lemma TxOkIff(tx: seq<Option<Request>>, tail: nat, csrTail: nat, devHead: nat, st: State)
    ensures TxOk(tx, tail, csrTail, devHead, st) <==> TxSound(tx, tail, csrTail, devHead, st) && FitsRing(st, |tx|)
  {
  }

  lemma HeadSame(headCsr: nat, reported: nat, coal: nat, min: nat, length: nat, st: State, st': State)
    requires HeadOk(headCsr, reported, coal, min, length, st) && st.called == st'.called && st.polled == st'.polled
    ensures HeadOk(headCsr, reported, coal, min, length, st')
  {
  }

  lemma FetchPending(pending: map<nat, nat>, st: State)
    requires PendingOk(pending, st) && Enabled(st, Fetch)
    ensures PendingOk(pending, Step(st, Fetch))
  {
    SameOutstanding(pending, st, Step(st, Fetch));
  }

  lemma FetchKeeps(tx: seq<Option<Request>>, tail: nat, csrTail: nat, devHead: nat, work: map<nat, Request>, st: State)
    requires AnswersKnown(st) && TxOk(tx, tail, csrTail, devHead, st) && WorkOk(work, st)
    requires Enabled(st, Fetch)
    ensures devHead < |tx| && tx[devHead] == Some(st.log[st.fetched])
    ensures TxOk(tx, tail, csrTail, (devHead + 1) % |tx|, Step(st, Fetch))
    ensures WorkOk(work[st.fetched := st.log[st.fetched]], Step(st, Fetch))
  {
    Skip(tx, st.fetched, st.log);
    SlotNext(st.fetched, |tx|);
  }

  lemma FetchKeepsRx(rx: seq<Option<Request>>, head: nat, devTail: nat, callbacks: seq<Request>, st: State)
    requires RxOk(rx, head, devTail, callbacks, st) && Enabled(st, Fetch)
    ensures RxOk(rx, head, devTail, callbacks, Step(st, Fetch))
  {
  }

  lemma TailTellsDevice(tx: seq<Option<Request>>, tail: nat, csrTail: nat, devHead: nat, st: State)
    requires TxOk(tx, tail, csrTail, devHead, st)
    ensures devHead < |tx|
    ensures devHead != csrTail <==> st.fetched < st.submitted
  {
    if st.fetched < st.submitted {
      SlotsDiffer(st.fetched, st.submitted, |tx|);
    }
  }

  lemma AnswerTx(tx: seq<Option<Request>>, tail: nat, csrTail: nat, devHead: nat, st: State, i: nat)
    requires TxOk(tx, tail, csrTail, devHead, st) && Enabled(st, Answer(i))
    ensures TxOk(tx, tail, csrTail, devHead, Step(st, Answer(i)))
  {
  }

  lemma CallbackTx(tx: seq<Option<Request>>, tail: nat, csrTail: nat, devHead: nat, work: map<nat, Request>, st: State)
    requires TxOk(tx, tail, csrTail, devHead, st) && WorkOk(work, st) && Enabled(st, Callback)
    ensures TxOk(tx, tail, csrTail, devHead, Step(st, Callback)) && WorkOk(work, Step(st, Callback))
  {
  }

  /** What a step changes, without how it was decided. */
  lemma Frame(st: State, e: Event)
    requires Enabled(st, e)
    ensures e.Submit? ==> Step(st, e) == Flush(st, true)
    ensures e.Fetch? ==> Step(st, e) == st.(fetched := st.fetched + 1)
    ensures e.Answer? ==> Step(st, e) == st.(answered := st.answered + [e.which])
  {
  }

  lemma CallbackHead(headCsr: nat, reported: nat, coal: nat, min: nat, length: nat, st: State)
    requires HeadOk(headCsr, reported, coal, min, length, st) && Enabled(st, Callback)
    ensures HeadOk(headCsr, reported, coal, min, length, Step(st, Callback))
  {
  }

  lemma PollEndKeeps(tx: seq<Option<Request>>, tail: nat, csrTail: nat, devHead: nat,
                     work: map<nat, Request>, pending: map<nat, nat>, st: State)
    requires TxOk(tx, tail, csrTail, devHead, st) && WorkOk(work, st) && PendingOk(pending, st)
    requires Enabled(st, PollEnd)
    ensures TxOk(tx, tail, csrTail, devHead, Step(st, PollEnd))
    ensures WorkOk(work, Step(st, PollEnd)) && PendingOk(pending, Step(st, PollEnd))
  {
    SameOutstanding(pending, st, Step(st, PollEnd));
  }

  lemma PollEndKeepsRx(rx: seq<Option<Request>>, head: nat, devTail: nat, callbacks: seq<Request>, st: State)
    requires RxOk(rx, head, devTail, callbacks, st) && Enabled(st, PollEnd)
    ensures RxOk(rx, head, devTail, callbacks, Step(st, PollEnd))
  {
  }

  lemma PollEndHead(headCsr: nat, reported: nat, coal: nat, min: nat,
                    rx: seq<Option<Request>>, head: nat, devTail: nat, callbacks: seq<Request>, st: State)
    requires RxOk(rx, head, devTail, callbacks, st) && Enabled(st, PollEnd) && st.polled > 0
    requires HeadOk(headCsr, reported, coal, min, |rx|, st)
    ensures st.polled > coal ==> HeadOk(head, st.called, min, min, |rx|, Step(st, PollEnd))
    ensures st.polled <= coal ==> HeadOk(headCsr, reported, coal - st.polled, min, |rx|, Step(st, PollEnd))
  {
  }

  lemma HeadLag(headCsr: nat, reported: nat, coal: nat, min: nat, length: nat, st: State)
    requires HeadOk(headCsr, reported, coal, min, length, st) && st.polled == 0
    ensures 0 <= st.called - reported <= min
  {
  }

  lemma CallbacksAre(rx: seq<Option<Request>>, head: nat, devTail: nat, callbacks: seq<Request>, st: State)
    requires RxOk(rx, head, devTail, callbacks, st)
    ensures st.called <= |st.answered| && Known(st.log, st.answered[..st.called])
    ensures callbacks == Responses(st.log, st.answered[..st.called])
  {
  }

  lemma CallbacksSize(rx: seq<Option<Request>>, head: nat, devTail: nat, callbacks: seq<Request>, st: State)
    requires RxOk(rx, head, devTail, callbacks, st)
    ensures |callbacks| == st.called
  {
  }

  function Quota(quota: nat): nat {
    if quota == 0 then NO_RESPONSE_QUOTA else quota
  }

  /** A run on rings of 16384 messages after which a poll with quota zero must leave a response unread. */
  lemma QuotaFallsShort() returns (run: seq<Event>, st: State)
    ensures Reaches(16383, run, st) && st.polled == 0
    ensures |st.answered| - st.called == 10001
  {
    run := ReachBacklog(16383, 10001, 10001);
    st := Behind(16383, 10001, 10001, 10001, 10001);
  }

  /** The requests of one session. */
  function OfSession(rs: seq<Request>, session: nat): seq<Request> {
    if rs == [] then [] else
      OfSession(rs[..|rs| - 1], session) + if rs[|rs| - 1].session == session then [rs[|rs| - 1]] else []
  }

  lemma KnownOf(log: seq<Request>, numbers: seq<nat>, session: nat)
    requires Known(log, numbers)
    ensures Known(log, Of(log, numbers, session))
  {
    OfMembers(log, numbers, session);
    var some := Of(log, numbers, session);
    assert forall k :: 0 <= k < |some| ==> some[k] in some;
  }

  lemma {:induction false} ResponsesOfSession(log: seq<Request>, numbers: seq<nat>, session: nat)
    requires Known(log, numbers)
    ensures Known(log, Of(log, numbers, session))
    ensures OfSession(Responses(log, numbers), session) == Responses(log, Of(log, numbers, session))
    decreases |numbers|
  {
    KnownOf(log, numbers, session);
    if numbers != [] {
      var last := |numbers| - 1;
      var some := Of(log, numbers[..last], session);
      ResponsesOfSession(log, numbers[..last], session);
      assert Responses(log, numbers)[..last] == Responses(log, numbers[..last]);
      if log[numbers[last]].session == session {
        assert (some + [numbers[last]])[..|some|] == some;
      }
    }
  }

  lemma KnownNumbers(log: seq<Request>, session: nat)
    ensures Known(log, Numbers(log, session))
  {
    NumbersMembers(log, session);
    var all := Numbers(log, session);
    assert forall k :: 0 <= k < |all| ==> all[k] in all;
  }

  lemma ResponsesLonger(log: seq<Request>, r: Request, numbers: seq<nat>)
    requires Known(log, numbers)
    ensures Known(log + [r], numbers) && Responses(log + [r], numbers) == Responses(log, numbers)
    ensures Known(log + [r], numbers + [|log|]) && Responses(log + [r], numbers + [|log|]) == Responses(log, numbers) + [r]
  {
  }

  lemma {:induction false} LogOfSession(log: seq<Request>, session: nat)
    ensures Known(log, Numbers(log, session))
    ensures OfSession(log, session) == Responses(log, Numbers(log, session))
    decreases |log|
  {
    KnownNumbers(log, session);
    if log != [] {
      var shorter, r := log[..|log| - 1], log[|log| - 1];
      LogOfSession(shorter, session);
      assert log == shorter + [r];
      hide Known, Responses;
      ResponsesLonger(shorter, r, Numbers(shorter, session));
    }
  }

  /** In every run, the callbacks a session has had are a beginning of the requests it had accepted. */
  lemma SessionCallbacks(max: nat, run: seq<Event>, st: State, session: nat)
    requires Reaches(max, run, st)
    ensures Inv(st) && Known(st.log, st.answered[..st.called])
    ensures OfSession(Responses(st.log, st.answered[..st.called]), session) <= OfSession(st.log, session)
  {
    CallbacksInOrder(max, run, st, session);
    var done := st.answered[..st.called];
    assert Known(st.log, done);
    ResponsesOfSession(st.log, done, session);
    LogOfSession(st.log, session);
    var some, all := Of(st.log, done, session), Numbers(st.log, session);
    assert Responses(st.log, some) == Responses(st.log, all)[..|some|];
  }

  lemma Sizes(st: State)
    requires Inv(st)
    ensures st.called <= |st.answered| <= st.fetched <= st.submitted <= |st.log|
    ensures st.polled <= st.called && st.inFlight == |st.log| - st.called + st.polled <= st.max
    ensures AnswersKnown(st)
  {
  }

  lemma PendingMeans(pending: map<nat, nat>, st: State, session: nat)
    requires session in pending
    ensures PendingOk(pending, st) ==> (pending[session] == 0 <==> Outstanding(st, session) == {})
  {
  }

  lemma NextIsOwed(st: State)
    requires Inv(st) && st.called < |st.answered|
    ensures st.answered[st.called] in Outstanding(st, st.log[st.answered[st.called]].session)
  {
    CallbackKeeps(st);
    assert !Done(st, st.answered[st.called]);
  }

  lemma RemoveKeeps(pending: map<nat, nat>, st: State, session: nat)
    requires Enabled(st, Remove(session))
    ensures PendingOk(pending, st) ==> PendingOk(pending - {session}, Step(st, Remove(session)))
  {
    var after := Step(st, Remove(session));
    forall s ensures Outstanding(after, s) == Outstanding(st, s) {
      OutstandingUnchanged(st, after, s);
    }
  }

  /** What the device may do by itself: fetch and answer. */
  ghost predicate DeviceOnly(before: State, after: State) {
    && before.answered <= after.answered
    && before.fetched <= after.fetched
    && after == before.(fetched := after.fetched, answered := after.answered)
  }

  method Store(ring: array<Option<Request>>, slot: nat, message: Option<Request>)
    requires slot < ring.Length
    modifies ring
    ensures ring[..] == old(ring[..])[slot := message]
  {
    ring[slot] := message;
  }

  class Pair {
    const max: nat
    const maxBatch: nat
    const minResps: nat
    const tx: array<Option<Request>>
    const rx: array<Option<Request>>

    // The driver's copies and the registers it writes
    var tail: nat
    var csrTail: nat
    var head: nat
    var headCsr: nat
    var coal: nat
    var inFlight: nat
    var pending: map<nat, nat>
    var callbacks: seq<Request>

    // The device
    var devHead: nat
    var devTail: nat
    var arrivals: nat
    var work: map<nat, Request>

    ghost var st: State
    ghost var trace: seq<Event>
    ghost var reserved: nat
    ghost var reported: nat

    /** The steps so far lead to a state of the protocol, and all memory but the request ring and the counters is in it. */
    ghost predicate Rest()
      reads this, rx
    {
      && tx != rx && max < rx.Length && minResps <= rx.Length / 2
      && Reaches(max, trace, st) && st.max == max && Inv(st)
      && inFlight == st.inFlight + reserved && (inFlight == 0 || inFlight < max)
      && RxOk(rx[..], head, devTail, callbacks, st)
      && WorkOk(work, st) && arrivals == st.fetched
      && HeadOk(headCsr, reported, coal, minResps, rx.Length, st)
      && pending.Keys <= st.live
    }

    ghost predicate Idle()
      reads this
    {
      reserved == 0 && st.polled == 0
    }

    /** What the driver's own calls keep, whatever the counters and the device do. */
    ghost predicate Loose()
      reads this, tx, rx
    {
      Rest() && TxSound(tx[..], tail, csrTail, devHead, st)
    }

    /** What the driver's own calls keep, even when they overrun the request ring. */
    ghost predicate Sound()
      reads this, tx, rx
    {
      Loose() && PendingOk(pending, st)
    }

    /** The memory is a state of the protocol. */
    ghost predicate Core()
      reads this, tx, rx
    {
      Rest() && TxOk(tx[..], tail, csrTail, devHead, st) && PendingOk(pending, st)
    }

    ghost predicate Valid()
      reads this, tx, rx
    {
      Core() && Idle()
    }

    /** Exactly when the ring has not been overrun; and never is it, if no more can be in flight than it has slots. */
    lemma ValidIff()
      requires Sound() && Idle()
      ensures Valid() <==> FitsRing(st, tx.Length)
      ensures max <= tx.Length ==> Valid()
    {
      TxOkIff(tx[..], tail, csrTail, devHead, st);
      Ranges(tx[..], tail, csrTail, devHead, st);
      hide Inv, NextOfSession, Outstanding, Reaches, TxOk, TxSound, RxOk, PendingOk, WorkOk, HeadOk;
      if max <= tx.Length {
        FitsBelow(st, tx.Length);
      }
    }

    lemma Stands()
      requires Sound()
      ensures At(tx.Length, tail, csrTail, devHead, st)
    {
    }

    lemma ValidIsSound()
      requires Core()
      ensures Sound()
    {
      TxOkIff(tx[..], tail, csrTail, devHead, st);
      hide Inv, NextOfSession, Outstanding, Reaches, TxOk, TxSound, RxOk, PendingOk, WorkOk, HeadOk;
    }

    constructor (numMsgs: nat)
      requires RingSize.Configurable(numMsgs)
      ensures Valid() && fresh(tx) && fresh(rx)
      ensures max == numMsgs - 1 && maxBatch == numMsgs - 2 && st == Start(max) && callbacks == [] && pending == map[]
      ensures st.log == [] && st.answered == [] && st.live == {} && inFlight == tail == csrTail == head == headCsr == 0
      ensures rx.Length == numMsgs && tx.Length == if numMsgs == 65536 then 32768 else numMsgs
      ensures minResps == 32 <= rx.Length / 2
    {
      hide RingSize.Configurable;
      RingSize.AtLeast(numMsgs);
      var txSlots := RingSize.RingSlots(numMsgs, REQUEST_SIZE);
      var rxSlots := RingSize.RingSlots(numMsgs, RESPONSE_SIZE);
      max := numMsgs - 1;
      maxBatch := numMsgs - 2;
      minResps := if rxSlots / 2 > MIN_RESPONSES_PER_HEAD_WRITE then MIN_RESPONSES_PER_HEAD_WRITE else rxSlots / 2;
      tx := new Option<Request>[txSlots](_ => None);
      rx := new Option<Request>[rxSlots](_ => None);
      tail, csrTail, head, headCsr, coal, inFlight := 0, 0, 0, 0, 0, 0;
      pending, callbacks := map[], [];
      devHead, devTail, arrivals, work := 0, 0, 0, map[];
      st, trace, reserved, reported := Start(numMsgs - 1), [], 0, 0;
    }

    /** The callbacks the client has had from a session are a beginning of what it had accepted for that session. */
    lemma CallbacksOfSession(session: nat)
      requires Rest()
      ensures OfSession(callbacks, session) <= OfSession(st.log, session)
    {
      SessionCallbacks(max, trace, st, session);
      CallbacksAre(rx[..], head, devTail, callbacks, st);
    }

    /** Whether the shadow tail differs from the one the device was told. */
    method QueueDataToSend() returns (data: bool)
      requires Loose()
      ensures tx.Length > 0 && st.submitted <= |st.log|
      ensures data <==> (|st.log| - st.submitted) % tx.Length != 0
      ensures max <= tx.Length ==> (data <==> st.submitted < |st.log|)
    {
      hide Inv, NextOfSession, Outstanding, Reaches, TxSound, RxOk, PendingOk, WorkOk, HeadOk;
      TailTells(tx[..], tail, csrTail, devHead, st);
      data := tail != csrTail;
      if max <= tx.Length {
        TailTellsAll(st, tx.Length);
      }
    }

    method UpdateQueueTail()
      requires Loose()
      modifies this`csrTail, this`st, this`trace
      ensures Loose() && (old(Sound()) ==> Sound())
      ensures st == Flush(old(st), true) && trace == old(trace) + [Submit] && csrTail == tail
    {
      hide Inv, NextOfSession, Outstanding, Reaches, TxSound, RxOk, PendingOk, WorkOk, HeadOk, Step;
      Frame(st, Submit);
      csrTail := tail;
      Extend(max, trace, st, Submit);
      StepKeeps(st, Submit);
      SubmitKeeps(tx[..], tail, old(csrTail), devHead, pending, st);
      SubmitKeepsOthers(rx[..], head, devTail, callbacks, work, st);
      HeadSame(headCsr, reported, coal, minResps, rx.Length, st, Step(st, Submit));
      st, trace := Step(st, Submit), trace + [Submit];
    }

    /**
     * cpaCySymDpInitSession: the session's descriptor is cleared, its counter with it. That is right if and only if the
     * session is owed nothing; initialising one that is loses count of what it is owed.
     */
    method InitSession(session: nat)
      requires Sound() && Idle()
      modifies this`pending, this`st, this`trace
      ensures pending == old(pending)[session := 0] && Loose() && Idle()
      ensures Sound() <==> Outstanding(old(st), session) == {}
      ensures Outstanding(old(st), session) == {} ==>
                st == old(st).(live := old(st.live) + {session}) && trace == old(trace) + [Init(session)]
      ensures Outstanding(old(st), session) != {} ==> st == old(st) && trace == old(trace)
    {
      hide Inv, NextOfSession, Outstanding, Reaches, TxSound, RxOk, PendingOk, WorkOk, HeadOk;
      PendingLive(pending, st);
      if Outstanding(st, session) == {} {
        Extend(max, trace, st, Init(session));
        StepKeeps(st, Init(session));
        InitKeeps(pending, st, session);
        HeadSame(headCsr, reported, coal, minResps, rx.Length, st, Step(st, Init(session)));
        LiveIrrelevant(tx[..], tail, csrTail, devHead, st, Step(st, Init(session)));
        LiveIrrelevantToOthers(rx[..], head, devTail, callbacks, work, st, Step(st, Init(session)));
        st, trace := Step(st, Init(session)), trace + [Init(session)];
      } else {
        InitLosesCount(pending, st, session);
        OutstandingIsLive(st, session);
      }
      pending := pending[session := 0];
    }

    lemma EnqueueStep(r: Request) returns (next: State)
      requires Sound() && reserved > 0 && r.session in pending
      ensures next == Append(st, [r]) && Reaches(max, trace + [Enqueue(r)], next) && Inv(next)
      ensures tail < tx.Length
      ensures TxSound(tx[..][tail := Some(r)], (tail + 1) % tx.Length, csrTail, devHead, next)
      ensures RxOk(rx[..], head, devTail, callbacks, next) && WorkOk(work, next)
      ensures PendingOk(pending[r.session := pending[r.session] + 1], next)
      ensures HeadOk(headCsr, reported, coal, minResps, rx.Length, next)
    {
      hide Inv, NextOfSession, Outstanding, Reaches, TxSound, RxOk, PendingOk, WorkOk, HeadOk;
      next := Step(st, Enqueue(r));
      Extend(max, trace, st, Enqueue(r));
      StepKeeps(st, Enqueue(r));
      EnqueueKeeps(tx[..], tail, csrTail, devHead, st, r);
      EnqueueKeepsOthers(rx[..], head, devTail, callbacks, work, st, r);
      EnqueuePending(pending, st, r);
      HeadSame(headCsr, reported, coal, minResps, rx.Length, st, next);
    }

    /** Writes one message for which room has been reserved. */
    method WriteMessage(r: Request)
      requires Sound() && reserved > 0 && r.session in pending
      modifies tx, this`tail, this`pending, this`st, this`trace, this`reserved
      ensures Sound() && reserved == old(reserved) - 1 && pending.Keys == old(pending.Keys)
      ensures st == Append(old(st), [r]) && trace == old(trace) + [Enqueue(r)]
      ensures old(tail) < tx.Length && tx[..] == old(tx[..])[old(tail) := Some(r)] && tail == (old(tail) + 1) % tx.Length
      ensures pending == old(pending)[r.session := old(pending)[r.session] + 1]
    {
      hide Inv, Reaches, TxSound, RxOk, PendingOk, WorkOk, HeadOk;
      ghost var next := EnqueueStep(r);
      Store(tx, tail, Some(r));
      tail := (tail + 1) % tx.Length;
      pending := pending[r.session := pending[r.session] + 1];
      st, trace, reserved := next, trace + [Enqueue(r)], reserved - 1;
    }

    /** cpaCySymDpEnqueueOp: nothing asks how many slots the ring has. */
    method EnqueueOp(r: Request, performOpNow: bool) returns (status: Status)
      requires Sound() && Idle() && r.session in pending
      modifies this, tx
      ensures Sound() && Idle() && pending.Keys == old(pending.Keys) && old(trace) <= trace
      ensures Valid() <==> FitsRing(st, tx.Length)
      ensures (status, st) == EnqueueOne(old(st), r, performOpNow)
      ensures status == if !r.wellFormed then InvalidParam else if old(inFlight) + 1 >= max then Retry else Success
      ensures status == Success ==> st.log == old(st.log) + [r] && inFlight == old(inFlight) + 1
      ensures status == Success ==> st.submitted == if performOpNow then |st.log| else old(st.submitted)
      ensures status == Success ==> old(tail) < tx.Length && tx[..] == old(tx[..])[old(tail) := Some(r)]
      ensures status != Success ==> unchanged(this) && unchanged(tx)
    {
      hide Inv, NextOfSession, Outstanding, Reaches, TxSound, TxOk, RxOk, PendingOk, WorkOk, HeadOk, FitsRing;
      ValidIff();
      if !r.wellFormed {
        return InvalidParam;
      }
      if inFlight + 1 >= max {
        return Retry;
      }
      inFlight := inFlight + 1;
      reserved := 1;
      WriteMessage(r);
      if performOpNow {
        UpdateQueueTail();
      }
      ValidIff();
      status := Success;
    }

    /** cpaCySymDpEnqueueOpBatch */
    method EnqueueOpBatch(rs: seq<Request>, performOpNow: bool) returns (status: Status)
      requires Sound() && Idle() && forall k :: 0 <= k < |rs| ==> rs[k].session in pending
      modifies this, tx
      ensures Sound() && Idle() && pending.Keys == old(pending.Keys) && old(trace) <= trace
      ensures Valid() <==> FitsRing(st, tx.Length)
      ensures (status, st) == EnqueueBatch(old(st), rs, performOpNow, maxBatch)
      ensures status == InvalidParam <==> rs == [] || |rs| > maxBatch || exists k :: 0 <= k < |rs| && !rs[k].wellFormed
      ensures status == Retry <==> status != InvalidParam && old(inFlight) + |rs| >= max
      ensures status == Success ==> st.log == old(st.log) + rs && inFlight == old(inFlight) + |rs|
      ensures status == Success ==> st.submitted == if performOpNow then |st.log| else old(st.submitted)
      ensures status != Success ==> unchanged(this) && unchanged(tx)
    {
      hide Inv, NextOfSession, Outstanding, Reaches, TxSound, TxOk, RxOk, PendingOk, WorkOk, HeadOk, FitsRing;
      ValidIff();
      if |rs| == 0 || |rs| > maxBatch {
        return InvalidParam;
      }
      for i := 0 to |rs|
        invariant AllWellFormed(rs[..i]) && unchanged(this) && unchanged(tx)
      {
        if !rs[i].wellFormed {
          return InvalidParam;
        }
        assert rs[..i + 1] == rs[..i] + [rs[i]];
      }
      assert rs[..|rs|] == rs;
      if inFlight + |rs| >= max {
        return Retry;
      }
      inFlight := inFlight + |rs|;
      reserved := |rs|;
      assert st.log + rs[..0] == st.log;
      for i := 0 to |rs|
        invariant Sound() && reserved == |rs| - i
        invariant pending.Keys == old(pending.Keys) && old(trace) <= trace
        invariant st == Append(old(st), rs[..i])
      {
        WriteMessage(rs[i]);
        AppendAppend(old(st), rs[..i], [rs[i]]);
        assert rs[..i + 1] == rs[..i] + [rs[i]];
      }
      if performOpNow {
        UpdateQueueTail();
      }
      ValidIff();
      status := Success;
    }

    /** Submits what waits, if the tails differ. */
    method SubmitWaiting()
      requires Loose() && Idle()
      modifies this`csrTail, this`st, this`trace
      ensures Loose() && Idle() && (old(Sound()) ==> Sound()) && old(trace) <= trace
      ensures tx.Length > 0 && old(st.submitted) <= |old(st.log)|
      ensures st == Flush(old(st), (|old(st.log)| - old(st.submitted)) % tx.Length != 0)
      ensures max <= tx.Length ==> st == Flush(old(st), true)
    {
      hide Inv, NextOfSession, Outstanding, Reaches, TxSound, RxOk, PendingOk, WorkOk, HeadOk;
      var data := QueueDataToSend();
      if data {
        UpdateQueueTail();
      }
    }

    /** cpaCySymDpPerformOpNow: submits everything enqueued, unless that is a whole number of rings. */
    method PerformOpNow()
      requires Sound() && Idle()
      modifies this`csrTail, this`st, this`trace
      ensures Sound() && Idle() && old(trace) <= trace
      ensures Valid() <==> FitsRing(st, tx.Length)
      ensures tx.Length > 0 && old(st.submitted) <= |old(st.log)|
      ensures st == Flush(old(st), (|old(st.log)| - old(st.submitted)) % tx.Length != 0)
      ensures max <= tx.Length ==> st == Flush(old(st), true)
    {
      hide Inv, NextOfSession, Outstanding, Reaches, TxSound, TxOk, RxOk, PendingOk, WorkOk, HeadOk, FitsRing;
      SubmitWaiting();
      ValidIff();
    }

    /**
     * cpaCySymDpRemoveSession: refused while the session's counter is not zero, and what it waits for is then submitted.
     * The counter is what the session is owed, unless the session was initialised when it was owed something.
     */
    method RemoveSession(session: nat) returns (status: Status)
      requires Loose() && Idle() && session in pending
      modifies this`csrTail, this`pending, this`st, this`trace
      ensures Loose() && Idle() && (old(Sound()) ==> Sound()) && old(trace) <= trace
      ensures status == Success <==> old(pending)[session] == 0
      ensures old(Sound()) ==> (status == Success <==> Outstanding(old(st), session) == {})
      ensures status == Success ==> pending == old(pending) - {session}
      ensures status == Success ==>
                st == if Outstanding(old(st), session) == {} then old(st).(live := old(st.live) - {session}) else old(st)
      ensures status != Success ==> status == Retry && pending == old(pending)
      ensures tx.Length > 0 && old(st.submitted) <= |old(st.log)|
      ensures status != Success ==> st == Flush(old(st), (|old(st.log)| - old(st.submitted)) % tx.Length != 0)
      ensures status != Success && max <= tx.Length ==> st == Flush(old(st), true)
    {
      hide Inv, NextOfSession, Outstanding, Reaches, TxSound, RxOk, PendingOk, WorkOk, HeadOk;
      PendingMeans(pending, st, session);
      TailTells(tx[..], tail, csrTail, devHead, st);
      if pending[session] != 0 {
        SubmitWaiting();
        return Retry;
      }
      if Outstanding(st, session) == {} {
        Extend(max, trace, st, Remove(session));
        StepKeeps(st, Remove(session));
        RemoveKeeps(pending, st, session);
        HeadSame(headCsr, reported, coal, minResps, rx.Length, st, Step(st, Remove(session)));
        LiveIrrelevant(tx[..], tail, csrTail, devHead, st, Step(st, Remove(session)));
        LiveIrrelevantToOthers(rx[..], head, devTail, callbacks, work, st, Step(st, Remove(session)));
        st, trace := Step(st, Remove(session)), trace + [Remove(session)];
      }
      pending := pending - {session};
      status := Success;
    }

    lemma Waits()
      requires Rest() && st.called < |st.answered|
      ensures Known(st.log, st.answered)
      ensures head < rx.Length && rx[head] == Some(st.log[st.answered[st.called]])
    {
      hide Inv, NextOfSession, Outstanding, Reaches, WorkOk, HeadOk;
      Skip(rx[..], st.called, Responses(st.log, st.answered));
    }

    /** Initialising a session with a response on its way takes away the refusal: it is removed, and called back after. */
    method InitThenRemove(session: nat) returns (status: Status)
      requires Valid() && st.called < |st.answered| && Known(st.log, st.answered)
      requires st.log[st.answered[st.called]].session == session
      modifies this`csrTail, this`pending, this`st, this`trace
      ensures status == Success && pending == old(pending) - {session} && st == old(st)
      ensures head < rx.Length && rx[head] == Some(st.log[st.answered[st.called]])
    {
      hide Inv, NextOfSession, Reaches, TxSound, TxOk, RxOk, PendingOk, WorkOk, HeadOk;
      NextIsOwed(st);
      ValidIsSound();
      InitSession(session);
      status := RemoveSession(session);
      Waits();
    }

    /** The device reads the next submitted request. */
    method DeviceFetch()
      requires Core()
      modifies this`devHead, this`arrivals, this`work, this`st, this`trace
      ensures Core() && old(trace) <= trace && DeviceOnly(old(st), st)
      ensures st == if old(st.fetched) < old(st.submitted) then old(st).(fetched := old(st.fetched) + 1) else old(st)
    {
      hide Inv, NextOfSession, Outstanding, Reaches, TxOk, RxOk, PendingOk, WorkOk, HeadOk, Step;
      Sizes(st);
      TailTellsDevice(tx[..], tail, csrTail, devHead, st);
      if devHead != csrTail {
        Frame(st, Fetch);
        Extend(max, trace, st, Fetch);
        StepKeeps(st, Fetch);
        FetchKeeps(tx[..], tail, csrTail, devHead, work, st);
        FetchPending(pending, st);
        FetchKeepsRx(rx[..], head, devTail, callbacks, st);
        HeadSame(headCsr, reported, coal, minResps, rx.Length, st, Step(st, Fetch));
        work := work[arrivals := tx[devHead].value];
        arrivals := arrivals + 1;
        devHead := (devHead + 1) % tx.Length;
        st, trace := Step(st, Fetch), trace + [Fetch];
      }
    }

    lemma AnswerStep(i: nat) returns (next: State)
      requires Core() && NextOfSession(st, i)
      ensures next == st.(answered := st.answered + [i]) && Reaches(max, trace + [Answer(i)], next) && Inv(next)
      ensures i in work && devTail < rx.Length
      ensures RxOk(rx[..][devTail := Some(work[i])], head, (devTail + 1) % rx.Length, callbacks, next)
      ensures TxOk(tx[..], tail, csrTail, devHead, next)
      ensures WorkOk(work - {i}, next) && PendingOk(pending, next)
      ensures HeadOk(headCsr, reported, coal, minResps, rx.Length, next)
    {
      hide Inv, NextOfSession, Outstanding, Reaches, TxOk, RxOk, PendingOk, WorkOk, HeadOk, Step;
      Sizes(st);
      Frame(st, Answer(i));
      next := Step(st, Answer(i));
      Extend(max, trace, st, Answer(i));
      StepKeeps(st, Answer(i));
      AnswerTx(tx[..], tail, csrTail, devHead, st, i);
      AnswerRx(rx[..], head, devTail, callbacks, st, i);
      AnswerWork(work, pending, st, i);
      HeadSame(headCsr, reported, coal, minResps, rx.Length, st, next);
    }

    /** The device writes a response. */
    method DeviceAnswer(i: nat)
      requires Core()
      modifies rx, this`devTail, this`work, this`st, this`trace
      ensures Core() && old(trace) <= trace && DeviceOnly(old(st), st)
      ensures st == if NextOfSession(old(st), i) then old(st).(answered := old(st.answered) + [i]) else old(st)
    {
      hide Inv, NextOfSession, Reaches, TxOk, RxOk, PendingOk, WorkOk, HeadOk, CanAnswer;
      CanAnswerIff(work, st, i);
      if CanAnswer(work, i) {
        ghost var next := AnswerStep(i);
        Store(rx, devTail, Some(work[i]));
        devTail := (devTail + 1) % rx.Length;
        work := work - {i};
        st, trace := next, trace + [Answer(i)];
      }
    }

    /** Whatever the device gets done before it is looked at again. */
    method DeviceProgress()
      requires Core()
      modifies rx, this`devHead, this`devTail, this`arrivals, this`work, this`st, this`trace
      ensures Core() && old(trace) <= trace && DeviceOnly(old(st), st)
    {
      hide Inv, NextOfSession, Outstanding, Reaches, TxOk, RxOk, PendingOk, WorkOk, HeadOk;
      var budget: nat := *;
      while budget > 0
        invariant Core() && old(trace) <= trace && DeviceOnly(old(st), st)
      {
        if * {
          DeviceFetch();
        } else {
          var i: nat := *;
          DeviceAnswer(i);
        }
        budget := budget - 1;
      }
    }

    lemma CallbackStep() returns (next: State)
      requires Core() && st.called < |st.answered|
      ensures next == st.(called := st.called + 1, polled := st.polled + 1)
      ensures Reaches(max, trace + [Callback], next) && Inv(next)
      ensures head < rx.Length && rx[head].Some?
      ensures var r := rx[head].value;
              && r.session in pending && pending[r.session] > 0
              && RxOk(rx[..][head := None], (head + 1) % rx.Length, devTail, callbacks + [r], next)
              && PendingOk(pending[r.session := pending[r.session] - 1], next)
      ensures TxOk(tx[..], tail, csrTail, devHead, next) && WorkOk(work, next)
      ensures HeadOk(headCsr, reported, coal, minResps, rx.Length, next)
    {
      hide Inv, NextOfSession, Outstanding, Reaches, TxOk, RxOk, PendingOk, WorkOk, HeadOk;
      next := Step(st, Callback);
      Extend(max, trace, st, Callback);
      StepKeeps(st, Callback);
      var r := CallbackRx(rx[..], head, devTail, callbacks, st);
      CallbackPending(pending, st, r);
      CallbackTx(tx[..], tail, csrTail, devHead, work, st);
      CallbackHead(headCsr, reported, coal, minResps, rx.Length, st);
    }

    /** One turn of the poll loop: the callback for the response under the head. */
    method ProcessResponse()
      requires Core() && st.called < |st.answered|
      modifies rx, this`head, this`pending, this`callbacks, this`st, this`trace
      ensures Core() && trace == old(trace) + [Callback]
      ensures st == old(st).(called := old(st.called) + 1, polled := old(st.polled) + 1)
      ensures old(callbacks) <= callbacks
      ensures old(head) < rx.Length && old(rx[..])[old(head)].Some?
      ensures var r := old(rx[..])[old(head)].value;
              && callbacks == old(callbacks) + [r]
              && r.session in old(pending) && old(pending)[r.session] > 0
              && pending == old(pending)[r.session := old(pending)[r.session] - 1]
      ensures rx[..] == old(rx[..])[old(head) := None] && head == (old(head) + 1) % rx.Length
    {
      hide Inv, Reaches, TxOk, RxOk, PendingOk, WorkOk, HeadOk;
      ghost var next := CallbackStep();
      var r := rx[head].value;
      callbacks := callbacks + [r];
      pending := pending[r.session := pending[r.session] - 1];
      Store(rx, head, None);
      head := (head + 1) % rx.Length;
      st, trace := next, trace + [Callback];
    }

    lemma PollEndStep() returns (next: State)
      requires Core() && st.polled > 0
      ensures st.polled <= st.inFlight && next == st.(inFlight := st.inFlight - st.polled, polled := 0)
      ensures Reaches(max, trace + [PollEnd], next) && Inv(next)
      ensures TxOk(tx[..], tail, csrTail, devHead, next) && WorkOk(work, next) && PendingOk(pending, next)
      ensures RxOk(rx[..], head, devTail, callbacks, next)
      ensures st.polled > coal ==> HeadOk(head, st.called, minResps, minResps, rx.Length, next)
      ensures st.polled <= coal ==> HeadOk(headCsr, reported, coal - st.polled, minResps, rx.Length, next)
    {
      hide Inv, NextOfSession, Outstanding, Reaches, TxOk, RxOk, PendingOk, WorkOk, HeadOk;
      Sizes(st);
      next := Step(st, PollEnd);
      Extend(max, trace, st, PollEnd);
      StepKeeps(st, PollEnd);
      PollEndKeeps(tx[..], tail, csrTail, devHead, work, pending, st);
      PollEndKeepsRx(rx[..], head, devTail, callbacks, st);
      PollEndHead(headCsr, reported, coal, minResps, rx[..], head, devTail, callbacks, st);
    }

    /** Gives the polled requests' room back and tells the device the head, though not every time. */
    method FinishPoll(processed: nat)
      requires Core() && processed == st.polled > 0
      modifies this`inFlight, this`coal, this`headCsr, this`st, this`trace, this`reported
      ensures Core() && trace == old(trace) + [PollEnd]
      ensures st == old(st).(inFlight := st.inFlight, polled := 0) && st.inFlight == old(st.inFlight) - processed
      ensures reported == if processed > old(coal) then old(st.called) else old(reported)
      ensures headCsr == (if processed > old(coal) then head else old(headCsr)) && inFlight == old(inFlight) - processed
      ensures coal == if processed > old(coal) then minResps else old(coal) - processed
    {
      hide Inv, Reaches, TxOk, RxOk, PendingOk, WorkOk, HeadOk;
      ghost var next := PollEndStep();
      inFlight := inFlight - processed;
      if processed > coal {
        coal := minResps;
        headCsr := head;
        reported := st.called;
      } else {
        coal := coal - processed;
      }
      st, trace := next, trace + [PollEnd];
    }

    lemma Look()
      requires Core()
      ensures st.called <= |st.answered| <= |st.log|
      ensures head < rx.Length && (rx[head] == None <==> st.called == |st.answered|)
    {
      hide Inv, NextOfSession, Outstanding, Reaches, TxOk, RxOk, PendingOk, WorkOk, HeadOk;
      Sizes(st);
      EmptyMark(rx[..], head, devTail, callbacks, st);
    }

    /** The poll loop; the device goes on working while it is polled. */
    method PollLoop(limit: nat) returns (processed: nat)
      requires Valid()
      modifies rx, this`head, this`pending, this`callbacks, this`devHead, this`devTail, this`arrivals, this`work
      modifies this`st, this`trace
      ensures Core() && st.polled == processed && old(trace) <= trace
      ensures st.log == old(st.log) && st.submitted == old(st.submitted) && old(st.answered) <= st.answered
      ensures old(callbacks) <= callbacks
      ensures st.called == old(st.called) + processed && processed <= limit
      ensures st.called == |st.answered| || processed == limit
    {
      hide Core, Step, Enabled;
      processed := 0;
      Look();
      while rx[head] != None && processed < limit
        invariant Core() && processed == st.polled && processed <= limit
        invariant old(trace) <= trace && old(callbacks) <= callbacks
        invariant st.log == old(st.log) && st.submitted == old(st.submitted) && old(st.answered) <= st.answered
        invariant st.called == old(st.called) + processed
        invariant st.called <= |st.answered| <= |st.log|
        invariant head < rx.Length && (rx[head] == None <==> st.called == |st.answered|)
        decreases |st.log| - st.called
      {
        ProcessResponse();
        processed := processed + 1;
        DeviceProgress();
        Look();
      }
    }

    /** icp_sal_CyPollDpInstance: callbacks in the order of the responses, until none is left or the quota is used up. */
    method Poll(quota: nat) returns (status: Status)
      requires Valid()
      modifies this, rx
      ensures Valid() && old(trace) <= trace
      ensures st.log == old(st.log) && st.submitted == old(st.submitted) && old(st.answered) <= st.answered
      ensures old(callbacks) <= callbacks && |callbacks| == st.called <= old(st.called) + Quota(quota)
      ensures st.called == |st.answered| || st.called == old(st.called) + Quota(quota)
      ensures st.called == |st.answered| <==> |st.answered| - old(st.called) <= Quota(quota)
      ensures quota > 0 ==>
                st.called <= old(st.called) + quota && (st.called == |st.answered| || st.called == old(st.called) + quota)
      ensures quota == 0 ==>
                st.called <= old(st.called) + 10000 && (st.called == |st.answered| || st.called == old(st.called) + 10000)
      ensures old(inFlight) <= Quota(quota) ==> st.called == |st.answered|
      ensures |old(st.answered)| - old(st.called) > Quota(quota) ==> st.called < |st.answered|
      ensures status == if st.called == old(st.called) then Retry else Success
      ensures inFlight == |st.log| - st.called && 0 <= st.called - reported <= minResps
      ensures st.called == |st.answered| ==> |st.answered| - reported <= rx.Length / 2
    {
      hide Inv, NextOfSession, Outstanding, Reaches, TxOk, RxOk, PendingOk, WorkOk, HeadOk;
      Sizes(st);
      var processed := PollLoop(Quota(quota));
      if processed > 0 {
        FinishPoll(processed);
      }
      Sizes(st);
      HeadLag(headCsr, reported, coal, minResps, rx.Length, st);
      CallbacksSize(rx[..], head, devTail, callbacks, st);
      status := if processed > 0 then Success else Retry;
    }
  }

  /** The rings of a symmetric service: refused, or made, with a slot for all that can be in flight unless 65536 were asked. */
  method SymInit(numRequests: nat) returns (pair: Option<Pair>)
    ensures pair.Some? <==> numRequests in {64, 128, 256, 512, 1024, 2048, 4096, 8192, 16384, 32768, 65536}
    ensures pair.Some? ==>
              && fresh(pair.value) && pair.value.Valid() && pair.value.max == numRequests - 1
              && pair.value.max < pair.value.rx.Length
              && (pair.value.max <= pair.value.tx.Length <==> numRequests != 65536)
  {
    hide RingSize.Configurable;
    var ok := RingSize.ValidateConcurrRequest(numRequests);
    if !ok {
      return None;
    }
    var p := new Pair(numRequests);
    return Some(p);
  }

  lemma NothingOwed(max: nat, session: nat)
    ensures Outstanding(Start(max), session) == {}
  {
  }

  /** A client with one session, on rings just made. */
  method OneSession(numRequests: nat) returns (p: Pair)
    requires RingSize.Configurable(numRequests)
    ensures fresh(p) && fresh(p.tx) && fresh(p.rx) && p.Sound() && p.Idle() && p.pending.Keys == {0}
    ensures p.tx.Length == if numRequests == 65536 then 32768 else numRequests
    ensures p.max == numRequests - 1 && p.maxBatch == numRequests - 2 && p.st == Behind(p.max, 0, 0, 0, 0)
  {
    hide Pair.Core, Pair.Sound, Pair.Loose, Outstanding;
    p := new Pair(numRequests);
    p.ValidIsSound();
    NothingOwed(p.max, 0);
    p.InitSession(0);
  }

  /** On the largest rings, 32768 requests are enqueued and then submitted by cpaCySymDpPerformOpNow: none of them is. */
  method NothingSubmitted() returns (p: Pair)
    ensures fresh(p) && fresh(p.tx) && fresh(p.rx) && p.Valid() && p.tx.Length == 32768 && p.pending.Keys == {0}
    ensures p.st == Behind(65535, 32768, 0, 0, 0)
  {
    hide Pair.Core, Pair.Sound, Pair.Loose, RingSize.Configurable;
    RingSize.Ends();
    p := OneSession(65536);
    for i := 0 to 32768
      invariant fresh(p) && fresh(p.tx) && fresh(p.rx) && p.Sound() && p.Idle() && p.pending.Keys == {0}
      invariant p.st == Behind(65535, i, 0, 0, 0)
    {
      var status := p.EnqueueOp(Request(0, 0, true), false);
      assert Append(Behind(65535, i, 0, 0, 0), [Request(0, 0, true)]) == Behind(65535, i + 1, 0, 0, 0);
    }
    p.PerformOpNow();
  }

  /** One more is accepted, and where the device will look for the first request it now finds the last. */
  method Overrun() returns (p: Pair, status: Status)
    ensures status == Success && |p.st.log| == 32769 && p.st.fetched == 0 && p.tx.Length == 32768 && !p.Valid()
    ensures p.st.log[0] == Request(0, 0, true) && p.devHead == 0 && p.tx[0] == Some(Request(0, 1, true))
  {
    hide Pair.Core, Pair.Sound, Pair.Loose;
    p := NothingSubmitted();
    p.ValidIsSound();
    p.Stands();
    status := p.EnqueueOp(Request(0, 1, true), false);
    p.Stands();
  }

  /** A batch of 32768 to be submitted at once is accepted, and the device is told the tail it already had. */
  method BatchUnseen() returns (p: Pair, status: Status)
    ensures status == Success && p.st.submitted == 32768 && p.csrTail == p.devHead == 0 && !p.Valid()
  {
    hide Pair.Core, Pair.Sound, RingSize.Configurable;
    RingSize.Ends();
    p := OneSession(65536);
    status := p.EnqueueOpBatch(seq(32768, _ => Request(0, 0, true)), true);
    p.Stands();
  }

  /** A run to a session removed with its callback still to come. */
  method RemovedTooSoon() returns (p: Pair, status: Status)
    ensures status == Success && 0 !in p.pending
    ensures p.head < p.rx.Length && p.rx[p.head] == Some(Request(0, 0, true))
  {
    hide Pair.Core, Pair.Sound, Pair.Loose, RingSize.Configurable;
    RingSize.Ends();
    p := OneSession(64);
    status := p.EnqueueOp(Request(0, 0, true), true);
    p.DeviceFetch();
    p.DeviceAnswer(0);
    status := p.InitThenRemove(0);
  }
}
