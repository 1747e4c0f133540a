/** A session that takes messages in parts: its request queue, and the state buffer it shares with the device. */
module PartialSession {
  import opened Types
  import opened BlockModes

  const MAX_RETRIES := 10000

  datatype PacketType = Full | Partial | LastPartial

  /** `start` is the cookie's note that the client's own initialisation vector is to be put in the state buffer. */
  datatype Request = Request(kind: PacketType, iv: Octets, data: Octets, start: bool)

  datatype Status = Success | Retry | InvalidParam

  // What the requests of a session mean, taken in order

  /** The state to carry on after these requests, while they leave a message open. */
  ghost function Open(m: Mode, rs: seq<Request>): Option<Octets>
    requires m.size > 0
  {
    if rs == [] then None else
      var before, r := Open(m, rs[..|rs| - 1]), rs[|rs| - 1];
      match r.kind
      case Full => before
      case Partial => Some(Process(m, Carried(before, r), r.data).1)
      case LastPartial => None
  }

  ghost function Carried(open: Option<Octets>, r: Request): Octets {
    if open.None? then r.iv else open.value
  }

  /** What request `i` should give: a full packet by itself, a part after the parts before it. */
  ghost function Expected(m: Mode, rs: seq<Request>, i: nat): Octets
    requires m.size > 0 && i < |rs|
  {
    Process(m, if rs[i].kind.Full? then rs[i].iv else Carried(Open(m, rs[..i]), rs[i]), rs[i].data).0
  }

  /** The message being taken in: its vector, its parts so far, and what they gave. */
  datatype Message = Message(iv: Octets, parts: seq<Octets>, out: Octets)

  ghost function Current(m: Mode, rs: seq<Request>): Option<Message>
    requires m.size > 0
  {
    if rs == [] then None else
      var last := |rs| - 1;
      var before, r := Current(m, rs[..last]), rs[last];
      match r.kind
      case Full => before
      case Partial =>
        if before.None? then Some(Message(r.iv, [r.data], Expected(m, rs, last)))
        else Some(Message(before.value.iv, before.value.parts + [r.data], before.value.out + Expected(m, rs, last)))
      case LastPartial => None
  }

  lemma {:induction false} OnePartMore(m: Mode, s: Octets, parts: seq<Octets>, d: Octets)
    requires m.size > 0
    ensures var (out, s1) := ProcessParts(m, s, parts);
            var (more, s2) := Process(m, s1, d);
            ProcessParts(m, s, parts + [d]) == (out + more, s2)
    decreases |parts|
  {
    if parts == [] {
      assert ([] + [d])[1..] == [];
      assert ProcessParts(m, s, [d]) == (Process(m, s, d).0 + [], Process(m, s, d).1);
      assert Process(m, s, d).0 + [] == Process(m, s, d).0 == [] + Process(m, s, d).0;
    } else {
      var s1 := Process(m, s, parts[0]).1;
      OnePartMore(m, s1, parts[1..], d);
      assert (parts + [d])[1..] == parts[1..] + [d];
      var a, b, c := Process(m, s, parts[0]).0, ProcessParts(m, s1, parts[1..]).0,
                     Process(m, ProcessParts(m, s1, parts[1..]).1, d).0;
      assert a + (b + c) == (a + b) + c;
    }
  }

  lemma {:induction false} CurrentIsParts(m: Mode, rs: seq<Request>)
    requires m.size > 0
    ensures Open(m, rs).Some? <==> Current(m, rs).Some?
    ensures Current(m, rs).Some? ==>
              var g := Current(m, rs).value;
              ProcessParts(m, g.iv, g.parts) == (g.out, Open(m, rs).value)
    decreases |rs|
  {
    if rs != [] {
      var last := |rs| - 1;
      CurrentIsParts(m, rs[..last]);
      var before, r := Current(m, rs[..last]), rs[last];
      if r.kind.Partial? {
        if before.Some? {
          OnePartMore(m, before.value.iv, before.value.parts, r.data);
        } else {
          OnePartMore(m, r.iv, [], r.data);
          assert [] + [r.data] == [r.data];
          assert [] + Expected(m, rs, last) == Expected(m, rs, last);
        }
      }
    }
  }

  /** When the last part of a message has been processed, all it gave is what one full packet would have given. */
  lemma MessageIsWhole(m: Mode, rs: seq<Request>, i: nat)
    requires m.size > 0 && i < |rs| && rs[i].kind.LastPartial?
    requires Current(m, rs[..i]).Some? && Legal(m.size, Current(m, rs[..i]).value.parts + [rs[i].data])
    ensures var g := Current(m, rs[..i]).value;
            g.out + Expected(m, rs, i) == Process(m, g.iv, Concat(g.parts + [rs[i].data])).0
  {
    var g := Current(m, rs[..i]).value;
    CurrentIsParts(m, rs[..i]);
    OnePartMore(m, g.iv, g.parts, rs[i].data);
    PartsAreWhole(m, g.iv, g.parts + [rs[i].data]);
  }

  // Draining the queue

  /** The vector that sending a request puts in the state buffer, if it puts any there. */
  function Vector(r: Request): Option<Octets> {
    if r.start then Some(r.iv) else None
  }

  function Later(first: Option<Octets>, second: Option<Octets>): Option<Octets> {
    if second.Some? then second else first
  }

  function Buffer(opState: Octets, vector: Option<Octets>): Octets {
    if vector.Some? then vector.value else opState
  }

  /**
   * What the ring does to the messages put on it: it takes the k-th of them at attempt `attempts(k)`, 0 meaning never.
   * The result is what went on the ring, what is left queued, whether non-blocking operations may proceed, and what
   * was put in the state buffer on the way.
   */
  datatype Drained = Drained(gone: seq<Request>, left: seq<Request>, nonBlocking: bool, vector: Option<Octets>)

  function Drain(queue: seq<Request>, attempts: nat -> nat, k: nat): Drained
    decreases |queue|
  {
    if queue == [] then Drained([], [], true, None)
    else if 1 <= attempts(k) < MAX_RETRIES then
      if !queue[0].kind.Full? then Drained([queue[0]], queue[1..], false, Vector(queue[0]))
      else After([queue[0]], Vector(queue[0]), Drain(queue[1..], attempts, k + 1))
    else
      Drained(if attempts(k) == MAX_RETRIES then [queue[0]] else [], queue, queue[0].kind.Full?, Vector(queue[0]))
  }

  /** A drain, after something was sent already. */
  function After(gone: seq<Request>, vector: Option<Octets>, d: Drained): Drained {
    d.(gone := gone + d.gone, vector := Later(vector, d.vector))
  }

  /** Some message the drain comes to is taken exactly at the last attempt. */
  ghost predicate Late(queue: seq<Request>, attempts: nat -> nat, k: nat)
    decreases |queue|
  {
    queue != [] &&
    if 1 <= attempts(k) < MAX_RETRIES then queue[0].kind.Full? && Late(queue[1..], attempts, k + 1)
    else attempts(k) == MAX_RETRIES
  }

  /** Every message the drain comes to is taken before the last attempt. */
  ghost predicate Prompt(queue: seq<Request>, attempts: nat -> nat, k: nat)
    decreases |queue|
  {
    queue == [] ||
    (1 <= attempts(k) < MAX_RETRIES && (queue[0].kind.Full? ==> Prompt(queue[1..], attempts, k + 1)))
  }

  lemma {:induction false} DrainSizes(queue: seq<Request>, attempts: nat -> nat, k: nat)
    ensures var d := Drain(queue, attempts, k);
            && |d.gone| + |d.left| == |queue| + (if Late(queue, attempts, k) then 1 else 0)
            && (Late(queue, attempts, k) ==> d.left != [] && d.gone != [] && d.gone[|d.gone| - 1] == d.left[0])
    decreases |queue|
  {
    if queue != [] && 1 <= attempts(k) < MAX_RETRIES && queue[0].kind.Full? {
      DrainSizes(queue[1..], attempts, k + 1);
    }
  }

  lemma {:induction false} DrainKeeps(queue: seq<Request>, attempts: nat -> nat, k: nat)
    requires !Late(queue, attempts, k)
    ensures var d := Drain(queue, attempts, k); d.gone + d.left == queue
    decreases |queue|
  {
    if queue == [] {
    } else if 1 <= attempts(k) < MAX_RETRIES && queue[0].kind.Full? {
      DrainKeeps(queue[1..], attempts, k + 1);
      var d, rest := Drain(queue, attempts, k), Drain(queue[1..], attempts, k + 1);
      assert d.gone + d.left == [queue[0]] + (rest.gone + rest.left) == queue;
    } else {
      assert [queue[0]] + queue[1..] == queue && [] + queue == queue;
    }
  }

  /**
   * Draining loses nothing and repeats nothing, exactly unless a message is taken at the last attempt: that one stays
   * queued as well, to be sent again.
   */
  lemma DrainConservesIff(queue: seq<Request>, attempts: nat -> nat)
    ensures var d := Drain(queue, attempts, 0);
            && (d.gone + d.left == queue <==> !Late(queue, attempts, 0))
            && |d.gone| + |d.left| == |queue| + (if Late(queue, attempts, 0) then 1 else 0)
            && (Late(queue, attempts, 0) ==> d.left != [] && d.gone != [] && d.gone[|d.gone| - 1] == d.left[0])
  {
    DrainSizes(queue, attempts, 0);
    if !Late(queue, attempts, 0) {
      DrainKeeps(queue, attempts, 0);
    }
  }

  const AT_ONCE: nat -> nat := (_: nat) => 1
  const AT_THE_LAST: nat -> nat := (_: nat) => MAX_RETRIES

  /** A full packet taken at the last attempt has gone, and is left. */
  lemma LateIsRepeated(r: Request, attempts: nat -> nat)
    requires r.kind.Full? && attempts(0) == 10000
    ensures var d := Drain([r], attempts, 0);
            Late([r], attempts, 0) && d.gone == [r] == d.left
  {
  }

  lemma DrainAccepted(sent: seq<Request>, queue: seq<Request>, attempts: nat -> nat)
    ensures var d := Drain(queue, attempts, 0);
            sent + d.gone + d.left == sent + queue <==> !Late(queue, attempts, 0)
  {
    var d := Drain(queue, attempts, 0);
    DrainConservesIff(queue, attempts);
    assert sent + d.gone + d.left == sent + (d.gone + d.left);
    assert |sent + d.gone + d.left| == |sent| + |d.gone| + |d.left|;
  }

  /** A prompt drain stops only at a part, which is the last to go, or when nothing is left. */
  lemma {:induction false} PromptDrain(queue: seq<Request>, attempts: nat -> nat, k: nat)
    requires Prompt(queue, attempts, k)
    ensures var d := Drain(queue, attempts, k);
            && d.gone + d.left == queue
            && (d.nonBlocking ==> d.left == [] && forall i :: 0 <= i < |d.gone| ==> d.gone[i].kind.Full?)
            && (!d.nonBlocking ==> d.gone != [] && !d.gone[|d.gone| - 1].kind.Full?)
            && (forall i :: 0 <= i < |d.gone| - 1 ==> d.gone[i].kind.Full?)
    decreases |queue|
  {
    if queue != [] {
      assert queue == [queue[0]] + queue[1..];
      if queue[0].kind.Full? {
        PromptDrain(queue[1..], attempts, k + 1);
        var d, rest := Drain(queue, attempts, k), Drain(queue[1..], attempts, k + 1);
        assert d.gone + d.left == [queue[0]] + (rest.gone + rest.left);
      }
    }
  }

  /** A drain given up on leaves requests queued, and has sent nothing whose completion would drain them. */
  lemma {:induction false} GivenUp(queue: seq<Request>, attempts: nat -> nat, k: nat)
    requires !Prompt(queue, attempts, k) && !Late(queue, attempts, k)
    ensures var d := Drain(queue, attempts, k);
            && d.left != [] && (forall i :: 0 <= i < |d.gone| ==> d.gone[i].kind.Full?)
            && d.nonBlocking == d.left[0].kind.Full?
    decreases |queue|
  {
    if 1 <= attempts(k) < MAX_RETRIES {
      GivenUp(queue[1..], attempts, k + 1);
    }
  }

  // The session

  ghost predicate WellStarted(m: Mode, rs: seq<Request>)
    requires m.size > 0
  {
    forall i {:trigger rs[i]} :: 0 <= i < |rs| ==>
      && rs[i].start == (rs[i].kind.Partial? && Open(m, rs[..i]).None?)
      && (rs[i].kind.LastPartial? ==> Open(m, rs[..i]).Some?)
  }

  ghost predicate PartUnprocessed(sent: seq<Request>, processed: set<nat>) {
    sent != [] && !sent[|sent| - 1].kind.Full? && |sent| - 1 !in processed
  }

  /** The state buffer holds what the part with the device needs, or what the next part will need. */
  ghost predicate StateOk(m: Mode, sent: seq<Request>, processed: set<nat>, opState: Octets)
    requires m.size > 0
  {
    if PartUnprocessed(sent, processed) then
      opState == Carried(Open(m, sent[..|sent| - 1]), sent[|sent| - 1])
    else
      Open(m, sent).Some? ==> opState == Open(m, sent).value
  }

  ghost predicate OutputsOk(m: Mode, sent: seq<Request>, outputs: map<nat, Octets>)
    requires m.size > 0
  {
    forall i :: i in outputs ==> i < |sent| && outputs[i] == Expected(m, sent, i)
  }

  /** The client's vector for each part but the last is left holding the state carried on from it. */
  ghost predicate ResiduesOk(m: Mode, sent: seq<Request>, completed: set<nat>, residues: map<nat, Octets>)
    requires m.size > 0
  {
    forall i :: i in completed && i < |sent| && sent[i].kind.Partial? ==>
                  i in residues && Some(residues[i]) == Open(m, sent[..i + 1])
  }

  /** Every part sent has been completed, but for the one sent last, and then the session is blocked. */
  ghost predicate FlightOk(sent: seq<Request>, completed: set<nat>, nonBlocking: bool) {
    && (PartUnprocessed(sent, completed) ==> !nonBlocking)
    && forall i :: 0 <= i < |sent| - 1 && !sent[i].kind.Full? ==> i in completed
  }

  /** The next request will be queued, and no part is in flight whose completion would drain the queue. */
  ghost predicate Stuck(sent: seq<Request>, queue: seq<Request>, completed: set<nat>, nonBlocking: bool) {
    (queue != [] || !nonBlocking) && !PartUnprocessed(sent, completed)
  }

  ghost predicate Books(m: Mode, sent: seq<Request>, queue: seq<Request>, partialOpen: bool, opState: Octets,
                        outputs: map<nat, Octets>, residues: map<nat, Octets>, completed: set<nat>, nonBlocking: bool) {
    && m.size > 0
    && WellStarted(m, sent + queue)
    && (partialOpen <==> Open(m, sent + queue).Some?)
    && completed <= outputs.Keys
    && OutputsOk(m, sent, outputs)
    && ResiduesOk(m, sent, completed, residues)
    && StateOk(m, sent, outputs.Keys, opState)
    && FlightOk(sent, completed, nonBlocking)
  }

  lemma Accept(m: Mode, rs: seq<Request>, r: Request)
    requires m.size > 0 && WellStarted(m, rs)
    requires r.start == (r.kind.Partial? && Open(m, rs).None?) && (r.kind.LastPartial? ==> Open(m, rs).Some?)
    ensures WellStarted(m, rs + [r])
    ensures Open(m, rs + [r]).Some? <==> (r.kind.Partial? || (r.kind.Full? && Open(m, rs).Some?))
  {
    var longer := rs + [r];
    assert longer[..|rs|] == rs;
    forall i | 0 <= i < |longer|
      ensures longer[i].start == (longer[i].kind.Partial? && Open(m, longer[..i]).None?)
      ensures longer[i].kind.LastPartial? ==> Open(m, longer[..i]).Some?
    {
      if i < |rs| {
        assert longer[..i] == rs[..i] && longer[i] == rs[i];
      }
    }
  }

  lemma OutputsStay(m: Mode, sent: seq<Request>, r: Request, outputs: map<nat, Octets>, residues: map<nat, Octets>,
                    completed: set<nat>)
    requires m.size > 0 && OutputsOk(m, sent, outputs) && ResiduesOk(m, sent, completed, residues)
    requires completed <= outputs.Keys
    ensures OutputsOk(m, sent + [r], outputs) && ResiduesOk(m, sent + [r], completed, residues)
  {
    var longer := sent + [r];
    forall i | i in outputs
      ensures Expected(m, longer, i) == Expected(m, sent, i) && Open(m, longer[..i + 1]) == Open(m, sent[..i + 1])
    {
      assert longer[..i] == sent[..i] && longer[i] == sent[i] && longer[..i + 1] == sent[..i + 1];
    }
  }

  lemma SendState(m: Mode, sent: seq<Request>, r: Request, rest: seq<Request>, processed: set<nat>, completed: set<nat>,
                  opState: Octets)
    requires m.size > 0 && WellStarted(m, sent + ([r] + rest)) && completed <= processed
    requires StateOk(m, sent, processed, opState) && FlightOk(sent, completed, true) && |sent| !in processed
    ensures StateOk(m, sent + [r], processed, if r.start then r.iv else opState)
    ensures FlightOk(sent + [r], completed, r.kind.Full?)
  {
    var all := sent + ([r] + rest);
    assert all[|sent|] == r && all[..|sent|] == sent;
    assert (sent + [r])[..|sent|] == sent;
    assert r.start == (r.kind.Partial? && Open(m, sent).None?);
  }

  /** Sending what is at the head of the queue, when nothing blocks the session. */
  lemma SendKeeps(m: Mode, sent: seq<Request>, r: Request, rest: seq<Request>, partialOpen: bool, opState: Octets,
                  outputs: map<nat, Octets>, residues: map<nat, Octets>, completed: set<nat>)
    requires Books(m, sent, [r] + rest, partialOpen, opState, outputs, residues, completed, true)
    ensures Books(m, sent + [r], rest, partialOpen, if r.start then r.iv else opState,
                  outputs, residues, completed, r.kind.Full?)
  {
    assert sent + ([r] + rest) == (sent + [r]) + rest;
    assert |sent| !in outputs;
    OutputsStay(m, sent, r, outputs, residues, completed);
    SendState(m, sent, r, rest, outputs.Keys, completed, opState);
  }

  lemma OpenMeans(m: Mode, sent: seq<Request>, queue: seq<Request>, partialOpen: bool, opState: Octets,
                  outputs: map<nat, Octets>, residues: map<nat, Octets>, completed: set<nat>, nonBlocking: bool)
    requires Books(m, sent, queue, partialOpen, opState, outputs, residues, completed, nonBlocking)
    ensures m.size > 0 && (partialOpen <==> Open(m, sent + queue).Some?)
  {
  }

  lemma LastSent(m: Mode, sent: seq<Request>, r: Request, rest: seq<Request>, partialOpen: bool, opState: Octets,
                 outputs: map<nat, Octets>, residues: map<nat, Octets>, completed: set<nat>)
    requires Books(m, sent, [r] + rest, partialOpen, opState, outputs, residues, completed, true)
    ensures PartUnprocessed(sent + [r], completed) <==> !r.kind.Full?
  {
    assert |sent| !in outputs;
  }

  /** Giving up on what is at the head of the queue, after its vector was put in the state buffer. */
  lemma GiveUpKeeps(m: Mode, sent: seq<Request>, r: Request, rest: seq<Request>, partialOpen: bool, opState: Octets,
                    outputs: map<nat, Octets>, residues: map<nat, Octets>, completed: set<nat>)
    requires Books(m, sent, [r] + rest, partialOpen, opState, outputs, residues, completed, true)
    ensures Books(m, sent, [r] + rest, partialOpen, if r.start then r.iv else opState,
                  outputs, residues, completed, r.kind.Full?)
  {
    var all := sent + ([r] + rest);
    assert all[|sent|] == r && all[..|sent|] == sent;
    assert r.start == (r.kind.Partial? && Open(m, sent).None?);
  }

  lemma ProcessKeeps(m: Mode, sent: seq<Request>, queue: seq<Request>, partialOpen: bool, opState: Octets,
                     outputs: map<nat, Octets>, residues: map<nat, Octets>, completed: set<nat>, nonBlocking: bool, i: nat)
    requires Books(m, sent, queue, partialOpen, opState, outputs, residues, completed, nonBlocking)
    requires i < |sent| && i !in outputs
    ensures var (out, next) := Process(m, if sent[i].kind.Full? then sent[i].iv else opState, sent[i].data);
            Books(m, sent, queue, partialOpen, if sent[i].kind.Full? then opState else next,
                  outputs[i := out], residues, completed, nonBlocking)
  {
    if !sent[i].kind.Full? {
      assert i == |sent| - 1;
      assert opState == Carried(Open(m, sent[..i]), sent[i]);
      assert sent[..|sent|] == sent;
    }
  }

  lemma CompleteKeeps(m: Mode, sent: seq<Request>, queue: seq<Request>, partialOpen: bool, opState: Octets,
                      outputs: map<nat, Octets>, residues: map<nat, Octets>, completed: set<nat>, nonBlocking: bool, i: nat)
    requires Books(m, sent, queue, partialOpen, opState, outputs, residues, completed, nonBlocking)
    requires i in outputs && i !in completed
    ensures Books(m, sent, queue, partialOpen, opState, outputs,
                  if sent[i].kind.Partial? then residues[i := opState] else residues,
                  completed + {i}, nonBlocking || !sent[i].kind.Full?)
    ensures Books(m, sent, queue, partialOpen, opState, outputs,
                  if sent[i].kind.Partial? then residues[i := opState] else residues,
                  completed + {i}, nonBlocking)
  {
    if !sent[i].kind.Full? {
      assert i == |sent| - 1;
      assert sent[..i + 1] == sent;
    }
  }

  /** A part completed was the one in flight; a full packet completed changes nothing about that. */
  lemma CompleteFlight(m: Mode, sent: seq<Request>, queue: seq<Request>, partialOpen: bool, opState: Octets,
                       outputs: map<nat, Octets>, residues: map<nat, Octets>, completed: set<nat>, nonBlocking: bool, i: nat)
    requires Books(m, sent, queue, partialOpen, opState, outputs, residues, completed, nonBlocking)
    requires i in outputs && i !in completed
    ensures PartUnprocessed(sent, completed + {i}) <==> PartUnprocessed(sent, completed) && sent[i].kind.Full?
    ensures !sent[i].kind.Full? ==> PartUnprocessed(sent, completed) && !nonBlocking
    ensures forall j :: j in completed + {i} ==> j < |sent|
  {
  }

  /** A drain that nothing in flight precedes stalls the session if and only if it is given up. */
  lemma DrainStalls(sent: seq<Request>, queue: seq<Request>, attempts: nat -> nat, completed: set<nat>)
    requires !PartUnprocessed(sent, completed) && forall j :: j in completed ==> j < |sent|
    ensures var d := Drain(queue, attempts, 0);
            !Late(queue, attempts, 0) ==>
              (Stuck(sent + d.gone, d.left, completed, d.nonBlocking) <==> !Prompt(queue, attempts, 0))
  {
    var d := Drain(queue, attempts, 0);
    if Prompt(queue, attempts, 0) {
      PromptDrain(queue, attempts, 0);
    } else if !Late(queue, attempts, 0) {
      GivenUp(queue, attempts, 0);
      assert d.gone == [] ==> sent + d.gone == sent;
    }
  }

  /** What the client has collected of the message it is sending: the device's outputs for its parts, end to end. */
  function Gathered(sent: seq<Request>, outputs: map<nat, Octets>, n: nat): Octets
    requires n <= |sent|
  {
    if n == 0 then [] else
      var r, out := sent[n - 1], if n - 1 in outputs then outputs[n - 1] else [];
      match r.kind
      case Full => Gathered(sent, outputs, n - 1)
      case Partial => if r.start then out else Gathered(sent, outputs, n - 1) + out
      case LastPartial => []
  }

  lemma {:induction false} GatheredIsCurrent(m: Mode, sent: seq<Request>, outputs: map<nat, Octets>, n: nat)
    requires m.size > 0 && n <= |sent| && WellStarted(m, sent) && OutputsOk(m, sent, outputs)
    requires forall i: nat :: i < n && !sent[i].kind.Full? ==> i in outputs
    ensures Current(m, sent[..n]).Some? ==> Gathered(sent, outputs, n) == Current(m, sent[..n]).value.out
  {
    if n > 0 {
      GatheredIsCurrent(m, sent, outputs, n - 1);
      assert sent[..n][..n - 1] == sent[..n - 1];
      CurrentIsParts(m, sent[..n - 1]);
      assert Expected(m, sent[..n], n - 1) == Expected(m, sent, n - 1);
      assert sent[n - 1].start == (sent[n - 1].kind.Partial? && Open(m, sent[..n - 1]).None?);
    }
  }

  /**
   * Whatever else the session was given in between, and however the device interleaved it: once the last part of a
   * message is processed, the outputs for its parts are together what one full packet would have given.
   */
  lemma MessageDelivered(m: Mode, sent: seq<Request>, queue: seq<Request>, partialOpen: bool, opState: Octets,
                         outputs: map<nat, Octets>, residues: map<nat, Octets>, completed: set<nat>, nonBlocking: bool, i: nat)
    requires Books(m, sent, queue, partialOpen, opState, outputs, residues, completed, nonBlocking)
    requires i in outputs && sent[i].kind.LastPartial?
    ensures Current(m, sent[..i]).Some?
    ensures var g := Current(m, sent[..i]).value;
            Legal(m.size, g.parts + [sent[i].data]) ==>
              Gathered(sent, outputs, i) + outputs[i] == Process(m, g.iv, Concat(g.parts + [sent[i].data])).0
  {
    var all := sent + queue;
    assert forall j :: 0 <= j < |sent| ==> all[j] == sent[j] && all[..j] == sent[..j];
    assert WellStarted(m, sent);
    CurrentIsParts(m, sent[..i]);
    GatheredIsCurrent(m, sent, outputs, i);
    if Legal(m.size, Current(m, sent[..i]).value.parts + [sent[i].data]) {
      MessageIsWhole(m, sent, i);
    }
  }

  class Session {
    const mode: Mode
    var partialOpen: bool
    var nonBlocking: bool
    var queue: seq<Request>
    var opState: Octets

    // What has gone on the ring, what the device made of it, and what the client has been told
    var sent: seq<Request>
    var outputs: map<nat, Octets>
    var residues: map<nat, Octets>
    var completed: set<nat>

    // What the client has been told was accepted
    ghost var accepted: seq<Request>

    ghost predicate Core(open: bool, flag: bool)
      reads this
    {
      Books(mode, sent, queue, open, opState, outputs, residues, completed, flag)
    }

    /** Valid, once the session's note of an open message is brought up to date. */
    ghost predicate ValidAs(open: bool)
      reads this
    {
      Core(open, nonBlocking) && sent + queue == accepted
    }

    /** Everything accepted is sent or queued, once each and in order, and the books are right. */
    ghost predicate Valid()
      reads this
    {
      ValidAs(partialOpen)
    }

    /** Whatever is asked of the session from now on is queued, and nothing will drain the queue. */
    ghost predicate Stalled()
      reads this
    {
      Stuck(sent, queue, completed, nonBlocking)
    }

    constructor (mode: Mode)
      requires mode.size > 0
      ensures Valid() && !Stalled() && this.mode == mode && sent == queue == accepted == [] && completed == {}
      ensures !partialOpen && nonBlocking && outputs == map[] && residues == map[]
    {
      this.mode := mode;
      partialOpen, nonBlocking, queue, opState := false, true, [], [];
      sent, outputs, residues, completed := [], map[], map[], {};
      accepted := [];
    }

    /**
     * In every run without a late send, whatever full packets came in between, however the device interleaved the work
     * and whether or not drains were given up: once the last part of a message the client was told was accepted is
     * processed, the outputs for its parts are together what one full packet would have given.
     */
    lemma WholeDelivered(i: nat)
      requires Valid() && i in outputs && i < |sent| && sent[i].kind.LastPartial?
      ensures sent <= accepted && Current(mode, accepted[..i]).Some?
      ensures var g := Current(mode, accepted[..i]).value;
              Legal(mode.size, g.parts + [accepted[i].data]) ==>
                Gathered(sent, outputs, i) + outputs[i] == Process(mode, g.iv, Concat(g.parts + [accepted[i].data])).0
    {
      assert sent[..i] == accepted[..i] && sent[i] == accepted[i];
      MessageDelivered(mode, sent, queue, partialOpen, opState, outputs, residues, completed, nonBlocking, i);
    }

    /** LacSymQueue_RequestSend, the ring taking the message or not. */
    method RequestSend(r: Request, ringTakes: bool) returns (status: Status)
      requires r.start == (r.kind.Partial? && !partialOpen) && (r.kind.LastPartial? ==> partialOpen)
      modifies this`nonBlocking, this`queue, this`opState, this`sent, this`accepted
      ensures old(Valid()) ==> if status == Success then ValidAs(OpenAfter(partialOpen, r.kind)) else Valid()
      ensures old(Valid()) ==> (Stalled() <==> old(Stalled()))
      ensures accepted == if status == Success then old(accepted) + [r] else old(accepted)
      ensures !old(nonBlocking) || old(queue) != [] ==>
                status == Success && queue == old(queue) + [r] && sent == old(sent) &&
                nonBlocking == old(nonBlocking) && opState == old(opState)
      ensures old(nonBlocking) && old(queue) == [] ==>
                && queue == [] && opState == Buffer(old(opState), Vector(r))
                && (if ringTakes then status == Success && sent == old(sent) + [r] && nonBlocking == r.kind.Full?
                    else status == Retry && sent == old(sent) && nonBlocking)
    {
      hide Open, Books;
      if Valid() {
        AcceptKeeps(mode, sent, queue, partialOpen, opState, outputs, residues, completed, nonBlocking, r);
        assert sent + (queue + [r]) == sent + queue + [r];
      }
      if !nonBlocking || queue != [] {
        queue := queue + [r];
        accepted := accepted + [r];
        return Success;
      }
      if Valid() {
        assert [] + [r] == [r] + [];
        RefusedKeeps(mode, sent, partialOpen, opState, outputs, residues, completed, r);
        SendKeeps(mode, sent, r, [], OpenAfter(partialOpen, r.kind), opState, outputs, residues, completed);
        LastSent(mode, sent, r, [], OpenAfter(partialOpen, r.kind), opState, outputs, residues, completed);
      }
      if !r.kind.Full? {
        nonBlocking := false;
      }
      if r.start {
        opState := r.iv;
      }
      if ringTakes {
        sent := sent + [r];
        accepted := accepted + [r];
        status := Success;
      } else {
        status := Retry;
        if !r.kind.Full? {
          nonBlocking := true;
        }
      }
    }

    /**
     * cpaCySymPerformOp, as far as packet types go: a last part is refused when no message is open, and whatever is
     * accepted comes after everything accepted before it. A stalled session accepts, and sends nothing.
     */
    method PerformOp(kind: PacketType, iv: Octets, data: Octets, ringTakes: bool) returns (status: Status)
      modifies this`nonBlocking, this`queue, this`opState, this`sent, this`partialOpen, this`accepted
      ensures old(Valid()) ==> Valid() && (status == InvalidParam <==> kind.LastPartial? && Open(mode, old(accepted)).None?)
      ensures old(Valid()) ==> (Stalled() <==> old(Stalled()))
      ensures old(Stalled()) ==> Stalled() && sent == old(sent) && status != Retry
      ensures Submitted(Request(kind, iv, data, kind.Partial? && !old(partialOpen)), ringTakes, status)
    {
      hide Open, Books;
      if Valid() {
        OpenMeans(mode, sent, queue, partialOpen, opState, outputs, residues, completed, nonBlocking);
      }
      if !kind.Full? {
        var ok := PartialPacketStateCheck(kind, partialOpen);
        if !ok {
          return InvalidParam;
        }
      }
      status := RequestSend(Request(kind, iv, data, kind.Partial? && !partialOpen), ringTakes);
      if status == Success && !kind.Full? {
        partialOpen := PartialPacketStateUpdate(kind, partialOpen);
      }
    }

    /** What submitting a request does: refused as out of sequence, queued behind others, sent, or refused by the ring. */
    twostate predicate Submitted(r: Request, ringTakes: bool, status: Status)
      reads this
    {
      && (status == InvalidParam <==> r.kind.LastPartial? && !old(partialOpen))
      && partialOpen == (if status == Success then OpenAfter(old(partialOpen), r.kind) else old(partialOpen))
      && accepted == (if status == Success then old(accepted) + [r] else old(accepted))
      && (status != InvalidParam && old(nonBlocking) && old(queue) == [] ==>
            && queue == [] && opState == Buffer(old(opState), Vector(r))
            && (if ringTakes then status == Success && sent == old(sent) + [r] && nonBlocking == r.kind.Full?
                else status == Retry && sent == old(sent) && nonBlocking))
      && (status == InvalidParam || !old(nonBlocking) || old(queue) != [] ==>
            && status != Retry && queue == (if status == Success then old(queue) + [r] else old(queue))
            && sent == old(sent) && nonBlocking == old(nonBlocking) && opState == old(opState))
    }

    /** What the device does with a request on the ring: a part uses and updates the session's state buffer. */
    method DeviceProcess(i: nat)
      requires mode.size > 0 && i < |sent| && i !in outputs
      modifies this`outputs, this`opState
      ensures old(Valid()) ==> Valid()
      ensures old(Stalled()) ==> Stalled()
      ensures var (out, next) := Process(mode, if sent[i].kind.Full? then sent[i].iv else old(opState), sent[i].data);
              outputs == old(outputs)[i := out] && opState == if sent[i].kind.Full? then old(opState) else next
    {
      if Valid() {
        ProcessKeeps(mode, sent, queue, partialOpen, opState, outputs, residues, completed, nonBlocking, i);
      }
      hide Open, Books;
      var (out, next) := Process(mode, if sent[i].kind.Full? then sent[i].iv else opState, sent[i].data);
      outputs := outputs[i := out];
      if !sent[i].kind.Full? {
        opState := next;
      }
    }

    /** One turn of the drain: the request at the head is sent, and leaves the queue if the ring was quick enough. */
    method SendHead(at: nat) returns (advanced: bool)
      requires nonBlocking && queue != []
      modifies this`nonBlocking, this`queue, this`opState, this`sent
      ensures advanced <==> 1 <= at < MAX_RETRIES
      ensures old(Core(partialOpen, true)) && at != MAX_RETRIES ==> Core(partialOpen, nonBlocking)
      ensures sent == old(sent) + if 1 <= at <= MAX_RETRIES then [old(queue)[0]] else []
      ensures queue == if advanced then old(queue)[1..] else old(queue)
      ensures nonBlocking == old(queue)[0].kind.Full?
      ensures opState == Buffer(old(opState), Vector(old(queue)[0]))
    {
      hide Open, Books;
      var r := queue[0];
      assert queue == [r] + queue[1..];
      if Core(partialOpen, true) {
        SendKeeps(mode, sent, r, queue[1..], partialOpen, opState, outputs, residues, completed);
        GiveUpKeeps(mode, sent, r, queue[1..], partialOpen, opState, outputs, residues, completed);
      }
      if !r.kind.Full? {
        nonBlocking := false;
      }
      if r.start {
        opState := r.iv;
      }
      var taken, retries := PutWithRetries(at);
      if taken {
        sent := sent + [r];
      }
      if !taken || retries >= MAX_RETRIES {
        return false;
      }
      queue := queue[1..];
      advanced := true;
    }

    /**
     * LacSymCb_PendingReqsDequeue, called when the part the session was blocked on is complete. What becomes of the
     * session is exactly what Drain says, and its books stay right if and only if no message is taken at the last
     * attempt.
     */
    method PendingReqsDequeue(attempts: nat -> nat)
      modifies this`nonBlocking, this`queue, this`opState, this`sent
      ensures old(Core(partialOpen, true)) && !Late(old(queue), attempts, 0) ==> Core(partialOpen, nonBlocking)
      ensures var d := Drain(old(queue), attempts, 0);
              && sent == old(sent) + d.gone && queue == d.left && nonBlocking == d.nonBlocking
              && opState == Buffer(old(opState), d.vector)
    {
      hide Open, Books, Drain, Late;
      var k := 0;
      ghost var d, gone, vector := Drain(queue, attempts, 0), [], None;
      ghost var right := Core(partialOpen, true);
      nonBlocking := true;
      NothingYet(d);
      while queue != [] && nonBlocking
        invariant right ==> Core(partialOpen, nonBlocking)
        invariant sent == old(sent) + gone && k <= |old(queue)| && queue == old(queue)[k..]
        invariant opState == Buffer(old(opState), vector)
        invariant nonBlocking ==> d == After(gone, vector, Drain(queue, attempts, k))
        invariant nonBlocking ==> (Late(queue, attempts, k) <==> Late(old(queue), attempts, 0))
        invariant !nonBlocking ==> d == Drained(gone, queue, false, vector)
        decreases |queue|
      {
        DrainStep(queue, attempts, k, gone, vector);
        ghost var r := queue[0];
        var advanced := SendHead(attempts(k));
        if !advanced {
          return;
        }
        gone, vector := gone + [r], Later(vector, Vector(r));
        k := k + 1;
      }
      DrainEnd(attempts, k, gone, vector);
    }

    /**
     * LacSymCb_ProcessCallbackInternal: the client gets its vector back before the queue is looked at, and the queue is
     * looked at only for a part whose response is good. Such a part leaves the session valid if and only if no message
     * is taken at the last attempt, and stalled if and only if the drain was given up; a part whose response is bad
     * always leaves it stalled. A stalled session stays stalled, and nothing more is sent.
     */
    method ProcessCallback(i: nat, good: bool, attempts: nat -> nat)
      requires i < |sent| && i in outputs && i !in completed
      modifies this`nonBlocking, this`queue, this`opState, this`sent, this`residues, this`completed
      ensures old(Valid()) ==> (Valid() <==> old(sent[i]).kind.Full? || !good || !Late(old(queue), attempts, 0))
      ensures old(Valid()) && !old(sent[i]).kind.Full? && !Late(old(queue), attempts, 0) ==>
                (Stalled() <==> !good || !Prompt(old(queue), attempts, 0))
      ensures old(Valid()) && !old(sent[i]).kind.Full? && !good ==> Stalled()
      ensures old(Valid()) && old(sent[i]).kind.Full? ==> (Stalled() <==> old(Stalled()))
      ensures old(Valid()) && old(Stalled()) ==> Valid() && Stalled() && sent == old(sent)
      ensures completed == old(completed) + {i}
      ensures residues == if old(sent[i]).kind.Partial? then old(residues)[i := old(opState)] else old(residues)
      ensures var d := if old(sent[i]).kind.Full? || !good then Drained([], old(queue), old(nonBlocking), None)
                       else Drain(old(queue), attempts, 0);
              && sent == old(sent) + d.gone && queue == d.left && nonBlocking == d.nonBlocking
              && opState == Buffer(old(opState), d.vector)
    {
      hide Open, Books, Drain, Late, Prompt, PartUnprocessed;
      if Valid() {
        CompleteKeeps(mode, sent, queue, partialOpen, opState, outputs, residues, completed, nonBlocking, i);
        CompleteFlight(mode, sent, queue, partialOpen, opState, outputs, residues, completed, nonBlocking, i);
        if !sent[i].kind.Full? {
          DrainStalls(sent, queue, attempts, completed + {i});
        }
      }
      DrainAccepted(sent, queue, attempts);
      if sent[i].kind.Partial? {
        residues := residues[i := opState];
      }
      completed := completed + {i};
      if !sent[i].kind.Full? && good {
        PendingReqsDequeue(attempts);
      }
    }
  }

  lemma NothingYet(d: Drained)
    ensures After([], None, d) == d
  {
  }

  /** What one turn of the drain does to what the whole drain does. */
  lemma DrainStep(queue: seq<Request>, attempts: nat -> nat, k: nat, gone: seq<Request>, vector: Option<Octets>)
    requires queue != []
    ensures var at, r := attempts(k), queue[0];
            var d := After(gone, vector, Drain(queue, attempts, k));
            && (1 <= at < MAX_RETRIES && r.kind.Full? ==>
                  && d == After(gone + [r], Later(vector, Vector(r)), Drain(queue[1..], attempts, k + 1))
                  && (Late(queue, attempts, k) <==> Late(queue[1..], attempts, k + 1)))
            && (1 <= at < MAX_RETRIES && !r.kind.Full? ==>
                  d == Drained(gone + [r], queue[1..], false, Later(vector, Vector(r))))
            && (!(1 <= at < MAX_RETRIES) ==>
                  && d == Drained(gone + (if at == MAX_RETRIES then [r] else []), queue, r.kind.Full?,
                                  Later(vector, Vector(r)))
                  && (Late(queue, attempts, k) <==> at == MAX_RETRIES))
  {
    var rest := Drain(queue[1..], attempts, k + 1);
    assert gone + ([queue[0]] + rest.gone) == gone + [queue[0]] + rest.gone;
  }

  lemma DrainEnd(attempts: nat -> nat, k: nat, gone: seq<Request>, vector: Option<Octets>)
    ensures After(gone, vector, Drain([], attempts, k)) == Drained(gone, [], true, vector)
  {
  }

  function OpenAfter(open: bool, kind: PacketType): bool {
    kind.Partial? || (kind.Full? && open)
  }

  method PartialPacketStateCheck(kind: PacketType, open: bool) returns (ok: bool)
    requires !kind.Full?
    ensures ok <==> (kind.LastPartial? ==> open)
  {
    ok := (!open && kind == Partial) || (open && (kind == Partial || kind == LastPartial));
  }

  method PartialPacketStateUpdate(kind: PacketType, open: bool) returns (after: bool)
    requires !kind.Full? && (kind.LastPartial? ==> open)
    ensures after == OpenAfter(open, kind) == kind.Partial?
  {
    after := open;
    if !open {
      after := true;
    } else if kind == LastPartial {
      after := false;
    }
  }

  /** The retry loop around the ring, which takes the message at attempt `at`, or never if that is 0. */
  method PutWithRetries(at: nat) returns (taken: bool, retries: nat)
    ensures taken <==> 1 <= at <= 10000
    ensures retries == if taken then at else 10000
  {
    retries := 1;
    taken := at == 1;
    while !taken && retries < MAX_RETRIES
      invariant 1 <= retries <= MAX_RETRIES
      invariant if taken then retries == at else !(1 <= at <= retries)
    {
      retries := retries + 1;
      taken := retries == at;
    }
  }

  lemma AcceptKeeps(m: Mode, sent: seq<Request>, queue: seq<Request>, partialOpen: bool, opState: Octets,
                    outputs: map<nat, Octets>, residues: map<nat, Octets>, completed: set<nat>, nonBlocking: bool, r: Request)
    requires Books(m, sent, queue, partialOpen, opState, outputs, residues, completed, nonBlocking)
    requires r.start == (r.kind.Partial? && !partialOpen) && (r.kind.LastPartial? ==> partialOpen)
    ensures Books(m, sent, queue + [r], OpenAfter(partialOpen, r.kind), opState,
                  outputs, residues, completed, nonBlocking)
  {
    assert sent + (queue + [r]) == sent + queue + [r];
    Accept(m, sent + queue, r);
  }

  /** Even when the ring refuses a first part, its vector may be in the state buffer; nothing depends on the buffer then. */
  lemma RefusedKeeps(m: Mode, sent: seq<Request>, partialOpen: bool, opState: Octets,
                     outputs: map<nat, Octets>, residues: map<nat, Octets>, completed: set<nat>, r: Request)
    requires Books(m, sent, [], partialOpen, opState, outputs, residues, completed, true)
    requires r.start ==> !partialOpen
    ensures Books(m, sent, [], partialOpen, if r.start then r.iv else opState, outputs, residues, completed, true)
  {
    assert sent + [] == sent;
  }

  // What a late send does to a message

  const XOR_CHAIN := CbcEncryption(Cipher(1, (x: Octets) => x, (x: Octets) => x))

  lemma XorChain(s: bv8, p: bv8)
    ensures Process(XOR_CHAIN, [s], [p]) == ([s ^ p], [s ^ p])
  {
    var m := XOR_CHAIN;
    assert [p][..1] == [p] && [p][1..] == [];
    assert Xor([s], [p]) == [s ^ p];
    assert Process(m, [s ^ p], []) == ([], [s ^ p]);
    assert [s ^ p] + [] == [s ^ p];
  }

  lemma XorChainThree()
    ensures Process(XOR_CHAIN, [0], [1, 1, 1]).0 == [1, 0, 1]
  {
    hide Process;
    XorChain(0, 1);
    XorChain(1, 1);
    var one: Octets := [1];
    Split(XOR_CHAIN, [0], one, one);
    Split(XOR_CHAIN, [0], one + one, one);
    assert one + one + one == [1, 1, 1];
    assert one + [0] + one == [1, 0, 1];
  }

  lemma GatheredTwice(outputs: map<nat, Octets>)
    requires outputs == map[0 := [1], 1 := [0], 2 := [1], 3 := [0]]
    ensures Gathered([FIRST, MIDDLE, MIDDLE, LAST], outputs, 3) == [1, 0, 1]
  {
    var sent := [FIRST, MIDDLE, MIDDLE, LAST];
    assert Gathered(sent, outputs, 1) == [1];
    assert Gathered(sent, outputs, 2) == [1] + [0];
    assert Gathered(sent, outputs, 3) == [1] + [0] + [1];
  }

  lemma PartDrains(r: Request, rest: seq<Request>)
    requires !r.kind.Full? && !r.start
    ensures Drain([r] + rest, AT_ONCE, 0) == Drained([r], rest, false, None)
    ensures Drain([r] + rest, AT_THE_LAST, 0) == Drained([r], [r] + rest, false, None)
  {
    assert ([r] + rest)[1..] == rest;
  }

  /** The device works on a part and its response is handled. */
  method Turn(s: Session, i: nat, state: bv8, attempts: nat -> nat)
    requires s.mode == XOR_CHAIN && s.opState == [state]
    requires i < |s.sent| && i !in s.outputs && i !in s.completed && !s.sent[i].kind.Full? && s.sent[i].data == [1]
    modifies s
    ensures s.accepted == old(s.accepted) && s.completed == old(s.completed) + {i}
    ensures s.outputs == old(s.outputs)[i := [state ^ 1]]
    ensures var d := Drain(old(s.queue), attempts, 0);
            s.sent == old(s.sent) + d.gone && s.queue == d.left && s.opState == Buffer([state ^ 1], d.vector)
  {
    hide Books, Open, Drain, Late, Prompt, Process;
    XorChain(state, 1);
    s.DeviceProcess(i);
    s.ProcessCallback(i, true, attempts);
  }

  const FIRST := Request(Partial, [0], [1], true)
  const MIDDLE := Request(Partial, [0], [1], false)
  const LAST := Request(LastPartial, [0], [1], false)

  method SubmitThree() returns (s: Session)
    ensures fresh(s) && s.mode == XOR_CHAIN && s.opState == [0]
    ensures s.accepted == [FIRST, MIDDLE, LAST] && s.sent == [FIRST] && s.queue == [MIDDLE] + [LAST]
    ensures s.outputs == map[] && s.completed == {}
  {
    hide Books, Open;
    s := new Session(XOR_CHAIN);
    var _ := s.PerformOp(Partial, [0], [1], true);
    var _ := s.PerformOp(Partial, [0], [1], true);
    var _ := s.PerformOp(LastPartial, [0], [1], true);
  }

  /**
   * A message of three parts, the second of them taken at the last attempt of a drain: it goes out twice, the state
   * advances twice, and not only is the message no longer whole, the last part comes out wrong.
   */
  method LateRun() returns (s: Session)
    ensures s.mode == XOR_CHAIN
    ensures s.accepted == [FIRST, MIDDLE, LAST] && s.sent == [FIRST, MIDDLE, MIDDLE, LAST] && s.queue == []
    ensures s.outputs == map[0 := [1], 1 := [0], 2 := [1], 3 := [0]]
    ensures Gathered(s.sent, s.outputs, 3) + s.outputs[3] == [1, 0, 1, 0]
    ensures Process(XOR_CHAIN, [0], [1, 1, 1]).0 == [1, 0, 1]
  {
    hide Drain, Process, Gathered;
    XorChainThree();
    PartDrains(MIDDLE, [LAST]);
    PartDrains(LAST, []);
    assert [LAST] + [] == [LAST];
    s := SubmitThree();
    Turn(s, 0, 0, AT_THE_LAST);
    Turn(s, 1, 1, AT_ONCE);
    Turn(s, 2, 0, AT_ONCE);
    XorChain(1, 1);
    s.DeviceProcess(3);
    GatheredTwice(s.outputs);
  }
}
