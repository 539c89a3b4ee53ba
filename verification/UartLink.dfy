/** The fields of struct mod_muc_data_t that the send queue uses, and the
    functions of drivers/mmi_muc_uart/muc_uart.c that change them. Each method
    is one atomic step of the send queue's state machine, or a function that
    makes several of them with nothing in between. */
module UartLink {
  import opened Common
  import opened UartFrame
  import opened UartSender

  datatype Error = E2BIG | ENOMEM

  class Link {
    var queue: seq<Entry>
    var size: int
    var credits: int
    var waiting: bool
    var worker: Worker
    ghost var reserved: nat
    ghost var accepted: seq<Msg>
    ghost var left: seq<(Msg, Fate)>

    ghost function Now(): (s: State)
      reads this
    {
      State(queue, size, credits, waiting, worker, reserved, accepted, left)
    }

    constructor ()
      ensures Now() == START
    {
      queue, size, credits, waiting, worker := [], 0, CREDITS, false, Resting;
      reserved, accepted, left := 0, [], [];
    }

    /** atomic_dec_if_positive in __muc_uart_queue_send */
    method TakeCredit(ghost m: Msg)
      requires |m.payload| <= MAX_PAYLOAD
      modifies this
      ensures Now() == Next(old(Now()), Reserve(m))
    {
      if credits > 0 { credits := credits - 1; }
      reserved := reserved + 1;
    }

    /** The path without memory */
    method GiveBack()
      requires reserved > 0
      modifies this
      ensures Now() == Next(old(Now()), Abort)
    {
      credits := credits + 1;
      reserved := reserved - 1;
    }

    /** The part of __muc_uart_queue_send under write_q_lock */
    method Append(m: Msg)
      requires reserved > 0 && |m.payload| <= MAX_PAYLOAD
      modifies this
      ensures Now() == Next(old(Now()), Enqueue(m))
    {
      queue := queue + [Entry(m, RETRIES, 0)];
      size := size + 1;
      reserved, accepted := reserved - 1, accepted + [m];
    }

    /** __muc_uart_queue_send; `gotMemory` says whether the allocations succeed. */
    method QueueSend(m: Msg, gotMemory: bool) returns (err: Option<Error>)
      modifies this
      ensures err == if |m.payload| > MAX_PAYLOAD then Some(E2BIG) else if !gotMemory then Some(ENOMEM) else None
      ensures Now() == if |m.payload| > MAX_PAYLOAD then old(Now())
                       else Next(Next(old(Now()), Reserve(m)), if gotMemory then Enqueue(m) else Abort)
    {
      err := None;
      if |m.payload| > MAX_PAYLOAD {
        err := Some(E2BIG);
      } else {
        TakeCredit(m);
        if gotMemory {
          Append(m);
        } else {
          GiveBack();
          err := Some(ENOMEM);
        }
      }
    }

    /** The test at the start of muc_uart_send_work */
    method CheckWaiting()
      requires worker.Resting?
      modifies this`worker
      ensures Now() == Next(old(Now()), Check)
    {
      if !waiting { worker := Clear; }
    }

    /** Taking the head off the queue under write_q_lock */
    method PopHead()
      requires worker.Clear?
      modifies this`worker, this`queue, this`size
      ensures Now() == Next(old(Now()), Pop)
    {
      if queue == [] {
        worker := Resting;
      } else {
        worker := Holding(queue[0]);
        queue, size := queue[1..], size - 1;
      }
    }

    /** set_wait_for_ack */
    method SetWaitForAck(cmd: u16)
      modifies this`waiting
      ensures waiting == (old(waiting) || NeedsAck(cmd)) && (NeedsAck(cmd) <==> 2 <= cmd < 0x4000)
    {
      NeedsAckIff(cmd);
      if NeedsAck(cmd) { waiting := true; }
    }

    /** muc_uart_send and what muc_uart_send_work makes of its result */
    method SendHeld(ok: bool)
      requires worker.Holding?
      modifies this
      ensures Now() == Next(old(Now()), Attempt(ok))
      ensures ok ==> waiting == (old(waiting) || 2 <= old(worker).e.msg.cmd < 0x4000)
    {
      var e := worker.e;
      var retries := e.retries;
      if ok {
        SetWaitForAck(e.msg.cmd);
      } else if retries > 0 {
        retries := retries - 1;
      }
      if ok {
        worker := Resting;
        left := left + [(e.msg, Sent(e.tried + 1))];
      } else if e.retries > 0 && retries == 0 {
        if credits != CREDITS { credits := credits + 1; }
        worker := Resting;
        left := left + [(e.msg, GaveUp(e.tried + 1))];
      } else {
        worker := Failed(Entry(e.msg, retries, e.tried + 1));
      }
    }

    /** Putting the message back on top under write_q_lock */
    method PutOnTop()
      requires worker.Failed?
      modifies this`worker, this`queue, this`size
      ensures Now() == Next(old(Now()), PutBack)
    {
      queue, size := [worker.e] + queue, size + 1;
      worker := Resting;
    }

    /** clear_wait_for_ack */
    method ClearWaitForAck()
      modifies this`waiting, this`credits
      ensures Now() == Next(old(Now()), Ack)
    {
      waiting := false;
      if credits != CREDITS { credits := credits + 1; }
    }

    /** muc_uart_ack_cb */
    method AckTimeout()
      modifies this`waiting
      ensures Now() == Next(old(Now()), Timeout)
    {
      waiting := false;
    }

    /** muc_uart_send_work with nothing in between. */
    method SendWork(ok: bool, ghost es: seq<Event>) returns (ghost es': seq<Event>)
      requires worker.Resting? && Now() == Run(START, es)
      modifies this
      ensures worker.Resting? && Now() == Run(START, es') && es <= es'
      ensures old(waiting) || old(queue) == [] ==> Now() == old(Now())
      ensures !old(waiting) && old(queue) != [] ==>
                var e, rest := old(queue)[0], old(queue)[1..];
                if ok then queue == rest && left == old(left) + [(e.msg, Sent(e.tried + 1))]
                          && waiting == (2 <= e.msg.cmd < 0x4000)
                else if e.retries == 1 then
                  queue == rest && left == old(left) + [(e.msg, GaveUp(e.tried + 1))] && !waiting
                else
                  && queue == [Entry(e.msg, if e.retries > 0 then e.retries - 1 else 0, e.tried + 1)] + rest
                  && left == old(left) && !waiting
    {
      es' := Took(es, Check);
      CheckWaiting();
      if worker.Clear? {
        es' := Took(es', Pop);
        PopHead();
        if worker.Holding? {
          es' := Took(es', Attempt(ok));
          SendHeld(ok);
          if worker.Failed? {
            es' := Took(es', PutBack);
            PutOnTop();
          }
        }
      }
    }
  }

  /** A run with one more step. */
  lemma Took(es: seq<Event>, e: Event) returns (es': seq<Event>)
    requires Enabled(Run(START, es), e)
    ensures es <= es' && Run(START, es') == Next(Run(START, es), e)
  {
    es' := es + [e];
    assert es'[..|es|] == es;
  }
}
