/** The send queue of drivers/mmi_muc_uart/muc_uart.c: a state machine over the
    atomic steps of the callers that queue messages, the send worker, received
    acknowledgements and the acknowledgement timer. */
module UartSender {
  import opened Common
  import opened UartFrame

  const RETRIES: nat := 100
  const CREDITS: int := 100
  const ACK_MASK: nat := 0x8000
  const NACK_MASK: nat := 0x4000
  const SLEEP_REJ: nat := 0x0000
  const SLEEP_REQ: nat := 0x0001

  /** struct write_data: a message and its retry counter, with a count of the
      attempts made. */
  datatype Entry = Entry(msg: Msg, retries: nat, tried: nat)

  /** Where the send worker is: it runs one step at a time, and one worker at
      most is running. */
  datatype Worker = Resting | Clear | Holding(e: Entry) | Failed(e: Entry)

  /** How a message left. */
  datatype Fate = Sent(attempts: nat) | GaveUp(attempts: nat)

  /** The driver's state, with what was accepted and what has left. */
  datatype State = State(
    queue: seq<Entry>, size: int, credits: int, waiting: bool, worker: Worker, reserved: nat,
    accepted: seq<Msg>, left: seq<(Msg, Fate)>)

  datatype Event =
    | Reserve(m: Msg)        // __muc_uart_queue_send takes a credit
    | Abort                  // ... and finds no memory
    | Enqueue(m: Msg)        // ... or appends the message
    | Check                  // muc_uart_send_work looks at waiting_for_ack
    | Pop                    // ... takes the head of the queue
    | Attempt(ok: bool)      // ... sends it
    | PutBack                // ... or puts it back on top
    | Ack                    // an ack or nack is received
    | Timeout                // muc_uart_ack_cb

  /** Whether set_wait_for_ack waits for an answer to the command. */
  predicate NeedsAck(cmd: u16) {
    !(cmd / ACK_MASK % 2 == 1 || cmd / NACK_MASK % 2 == 1 || cmd == SLEEP_REQ || cmd == SLEEP_REJ)
  }

  /** The commands that are answered: all but the two of the sleep protocol and the
      answers themselves. */
  lemma NeedsAckIff(cmd: u16)
    ensures NeedsAck(cmd) <==> 2 <= cmd < 0x4000
  {
  }

  /** atomic_add_unless(&write_credits, 1, 100) */
  function AddCredit(c: int): (r: int) {
    if c == CREDITS then c else c + 1
  }

  predicate Enabled(s: State, e: Event) {
    match e
    case Reserve(m) => true
    case Abort => s.reserved > 0
    case Enqueue(m) => s.reserved > 0 && |m.payload| <= MAX_PAYLOAD
    case Check => s.worker.Resting?
    case Pop => s.worker.Clear?
    case Attempt(_) => s.worker.Holding?
    case PutBack => s.worker.Failed?
    case Ack => true
    case Timeout => true
  }

  /** One atomic step. */
  function Next(s: State, e: Event): (s': State)
    requires Enabled(s, e)
  {
    match e
    case Reserve(m) =>
      if |m.payload| > MAX_PAYLOAD then s
      else s.(reserved := s.reserved + 1, credits := if s.credits > 0 then s.credits - 1 else s.credits)
    case Abort => s.(reserved := s.reserved - 1, credits := s.credits + 1)
    case Enqueue(m) =>
      s.(reserved := s.reserved - 1, queue := s.queue + [Entry(m, RETRIES, 0)], size := s.size + 1,
         accepted := s.accepted + [m])
    case Check => if s.waiting then s else s.(worker := Clear)
    case Pop =>
      if s.queue == [] then s.(worker := Resting)
      else s.(worker := Holding(s.queue[0]), queue := s.queue[1..], size := s.size - 1)
    case Attempt(ok) => Attempted(s, s.worker.e, ok)
    case PutBack => s.(worker := Resting, queue := [s.worker.e] + s.queue, size := s.size + 1)
    case Ack => s.(waiting := false, credits := AddCredit(s.credits))
    case Timeout => s.(waiting := false)
  }

  /** The message in hand was sent, is to be tried again, or is given up. */
  function Attempted(s: State, e: Entry, ok: bool): (s': State) {
    var tried := e.tried + 1;
    if ok then
      s.(worker := Resting, waiting := s.waiting || NeedsAck(e.msg.cmd), left := s.left + [(e.msg, Sent(tried))])
    else if e.retries == 1 then
      s.(worker := Resting, credits := AddCredit(s.credits), left := s.left + [(e.msg, GaveUp(tried))])
    else
      s.(worker := Failed(Entry(e.msg, if e.retries > 0 then e.retries - 1 else 0, tried)))
  }

  const START := State([], 0, CREDITS, false, Resting, 0, [], [])

  /** A run: steps that are not possible are not taken. */
  function Run(s: State, es: seq<Event>): (s': State) {
    if es == [] then s
    else
      var before, e := Run(s, es[..|es| - 1]), es[|es| - 1];
      if Enabled(before, e) then Next(before, e) else before
  }

  function Msgs(q: seq<Entry>): (ms: seq<Msg>) {
    seq(|q|, i requires 0 <= i < |q| => q[i].msg)
  }

  function Gone(l: seq<(Msg, Fate)>): (ms: seq<Msg>) {
    seq(|l|, i requires 0 <= i < |l| => l[i].0)
  }

  /** The messages in the driver, the one in hand first. */
  function Inside(s: State): (q: seq<Entry>) {
    match s.worker
    case Holding(e) => [e] + s.queue
    case Failed(e) => [e] + s.queue
    case _ => s.queue
  }

  predicate FateOk(f: Fate) {
    match f
    case Sent(n) => 1 <= n <= RETRIES
    case GaveUp(n) => n == RETRIES
  }

  /** The invariant of every run: the size is the length of the queue; what was
      accepted is what has left and what is inside, in this order; the attempts
      made and those left of each message add up. */
  predicate Inv(s: State) {
    && s.size == |s.queue|
    && s.credits >= 0
    && s.accepted == Gone(s.left) + Msgs(Inside(s))
    && (forall i :: 0 <= i < |Inside(s)| ==> EntryOk(Inside(s)[i]))
    && (forall i :: 0 <= i < |s.left| ==> FateOk(s.left[i].1))
  }

  predicate EntryOk(e: Entry) {
    e.retries >= 1 && e.tried + e.retries == RETRIES
  }

  lemma GoneSnoc(l: seq<(Msg, Fate)>, m: Msg, f: Fate, q: seq<Entry>, e: Entry)
    requires e.msg == m
    ensures Gone(l + [(m, f)]) + Msgs(q) == Gone(l) + Msgs([e] + q)
  {
    var a, b := Gone(l + [(m, f)]) + Msgs(q), Gone(l) + Msgs([e] + q);
    assert |a| == |b|;
    forall i | 0 <= i < |a| ensures a[i] == b[i] {}
  }

  lemma MsgsSnoc(q: seq<Entry>, e: Entry)
    ensures Msgs(q + [e]) == Msgs(q) + [e.msg]
  {
  }

  lemma InvEnqueue(s: State, m: Msg)
    requires Inv(s) && Enabled(s, Enqueue(m))
    ensures Inv(Next(s, Enqueue(m)))
  {
    var s', e := Next(s, Enqueue(m)), Entry(m, RETRIES, 0);
    assert Inside(s') == Inside(s) + [e];
    MsgsSnoc(Inside(s), e);
    assert Gone(s.left) + (Msgs(Inside(s)) + [m]) == (Gone(s.left) + Msgs(Inside(s))) + [m];
  }

  lemma InvAttempt(s: State, ok: bool)
    requires Inv(s) && s.worker.Holding?
    ensures Inv(Next(s, Attempt(ok)))
  {
    var s', e := Next(s, Attempt(ok)), s.worker.e;
    assert EntryOk(Inside(s)[0]);
    if s'.worker.Resting? {
      GoneSnoc(s.left, e.msg, s'.left[|s.left|].1, s.queue, e);
      forall i | 0 <= i < |s.queue| ensures EntryOk(s.queue[i]) { assert Inside(s)[i + 1] == s.queue[i]; }
    } else {
      var e' := s'.worker.e;
      assert Msgs([e'] + s.queue) == Msgs([e] + s.queue);
      forall i | 0 <= i < |Inside(s')| ensures EntryOk(Inside(s')[i]) {
        if i > 0 { assert Inside(s')[i] == Inside(s)[i]; }
      }
    }
  }

  lemma InvKept(s: State, e: Event)
    requires Inv(s) && Enabled(s, e)
    ensures Inv(Next(s, e))
  {
    match e
    case Enqueue(m) => InvEnqueue(s, m);
    case Attempt(ok) => InvAttempt(s, ok);
    case Pop =>
      if s.queue != [] { assert [s.queue[0]] + s.queue[1..] == s.queue; }
    case _ =>
  }

  /** Over every interleaving: first in, first out, no message lost or doubled,
      at most 100 attempts each, and the size is right. */
  lemma EveryRun(es: seq<Event>)
    ensures var s := Run(START, es);
            && s.size == |s.queue| && s.credits >= 0
            && s.accepted == Gone(s.left) + Msgs(Inside(s))
            && (forall i :: 0 <= i < |s.left| ==> 1 <= s.left[i].1.attempts <= 100)
            && (forall i :: 0 <= i < |s.left| && s.left[i].1.GaveUp? ==> s.left[i].1.attempts == 100)
            && (forall i :: 0 <= i < |Inside(s)| ==> Inside(s)[i].tried + Inside(s)[i].retries == 100)
  {
    RunKeepsInv(es);
  }

  lemma {:induction false} RunKeepsInv(es: seq<Event>)
    ensures Inv(Run(START, es))
  {
    if es != [] {
      var front := es[..|es| - 1];
      RunKeepsInv(front);
      if Enabled(Run(START, front), es[|es| - 1]) { InvKept(Run(START, front), es[|es| - 1]); }
    }
  }

  /** Step i of a run is the successful sending of a message that is answered. */
  ghost predicate SendsAt(es: seq<Event>, i: nat)
    requires i < |es|
  {
    var s := Run(START, es[..i]);
    es[i] == Attempt(true) && s.worker.Holding? && 2 <= s.worker.e.msg.cmd < 0x4000
  }

  /** Step k is an acknowledgement of either kind or a timeout. */
  predicate ClearsAt(es: seq<Event>, k: nat)
    requires k < |es|
  {
    es[k].Ack? || es[k].Timeout?
  }

  lemma RunStep(es: seq<Event>, i: nat)
    requires i < |es|
    ensures var s := Run(START, es[..i]);
            Run(START, es[..i + 1]) == if Enabled(s, es[i]) then Next(s, es[i]) else s
  {
    assert es[..i + 1][..i] == es[..i];
  }

  /** After a message that needs an answer, the worker rests until one comes. */
  lemma {:induction false} RestsUntilCleared(es: seq<Event>, i: nat, j: nat)
    requires i < j <= |es| && SendsAt(es, i)
    requires forall k :: i < k < j ==> !ClearsAt(es, k)
    ensures var s := Run(START, es[..j]); s.waiting && s.worker.Resting?
    decreases j
  {
    RunStep(es, j - 1);
    NeedsAckIff(Run(START, es[..i]).worker.e.msg.cmd);
    if i + 1 < j {
      assert !ClearsAt(es, j - 1);
      RestsUntilCleared(es, i, j - 1);
    }
  }

  /** Stop and wait: between two messages sent that need an answer there is an
      ack, a nack or a timeout. */
  lemma StopAndWait(es: seq<Event>, i: nat, j: nat)
    requires i < j < |es| && SendsAt(es, i) && es[j] == Attempt(true) && Run(START, es[..j]).worker.Holding?
    ensures exists k :: i < k < j && ClearsAt(es, k)
  {
    if forall k :: i < k < j ==> !ClearsAt(es, k) {
      RestsUntilCleared(es, i, j);
    }
  }

  /** An allocation fails while all credits are there. */
  ghost predicate OverCredits(es: seq<Event>, i: nat)
    requires i < |es|
  {
    var s := Run(START, es[..i]);
    es[i].Abort? && s.reserved > 0 && s.credits == 100
  }

  lemma CreditsStep(s: State, e: Event)
    requires Enabled(s, e) && 0 <= s.credits <= CREDITS && !(e.Abort? && s.credits == CREDITS)
    ensures 0 <= Next(s, e).credits <= CREDITS
  {
  }

  lemma {:induction false} CreditsBelow(es: seq<Event>, n: nat)
    requires n <= |es| && forall i :: 0 <= i < n ==> !OverCredits(es, i)
    ensures 0 <= Run(START, es[..n]).credits <= CREDITS
    decreases n
  {
    if n > 0 {
      CreditsBelow(es, n - 1);
      RunStep(es, n - 1);
      assert !OverCredits(es, n - 1);
      var s := Run(START, es[..n - 1]);
      if Enabled(s, es[n - 1]) { CreditsStep(s, es[n - 1]); }
    }
  }

  /** Credits stay within 0 .. 100 exactly as long as no allocation fails while
      all credits are there. */
  lemma CreditsBoundedIff(es: seq<Event>)
    ensures (forall n :: 0 <= n <= |es| ==> 0 <= Run(START, es[..n]).credits <= 100)
       <==> (forall i :: 0 <= i < |es| ==> !OverCredits(es, i))
  {
    if forall i :: 0 <= i < |es| ==> !OverCredits(es, i) {
      forall n | 0 <= n <= |es| ensures 0 <= Run(START, es[..n]).credits <= CREDITS { CreditsBelow(es, n); }
    } else {
      var i :| 0 <= i < |es| && OverCredits(es, i);
      RunStep(es, i);
      assert Run(START, es[..i + 1]).credits == CREDITS + 1;
    }
  }

  /** It can happen: a credit is taken and given back by an ack before the
      failed allocation gives it back again; after that the limit is gone. */
  lemma CreditsExample(m: Msg)
    requires m.payload == []
    ensures Run(START, [Reserve(m), Ack, Abort, Ack]).credits == 102
  {
    var es := [Reserve(m), Ack, Abort, Ack];
    RunStep(es, 0);
    RunStep(es, 1);
    RunStep(es, 2);
    RunStep(es, 3);
    assert es[..0] == [] && es[..4] == es;
  }
}
