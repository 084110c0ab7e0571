// The GPU serial link (userCode/GPU_Serial.c): sending a frame to the display
// over USART1 and waiting for its "OK".
//
// The two binary semaphores are tokens (true: available). The HAL calls and the
// 500 ms wait are an environment oracle `env`, one `Attempt` per transmission,
// saying what each HAL call returns, whether the reply arrived in time and
// which two bytes it carried. Every call the handshake makes is logged in
// `trace`. Each interrupt callback is one atomic method.
module GpuSerial {
  import opened ShellArgs

  /** HAL_StatusTypeDef. */
  datatype HalStatus = HalOk | HalError | HalBusy | HalTimeout

  /** huart->Instance: the GPU's USART1 or any other UART. */
  datatype Uart = Usart1 | OtherUart

  /** The calls one handshake makes, in order. */
  datatype Event =
    | TakeSendToken           // osSemaphoreAcquire(USART1_SendHandle, osWaitForever)
    | Transmit(data: seq<byte>) // HAL_UART_Transmit_DMA
    | ClearRx                 // Mem_Set of Rx1_Buffer to 0
    | ArmRx(size: nat)        // HAL_UART_Receive_IT into Rx1_Buffer
    | WaitRx(ok: bool)        // osSemaphoreAcquire(USART1_RxHandle, 500 ms)
    | AbortRx                 // HAL_UART_AbortReceive_IT

  /** What the environment does during one attempt. */
  datatype Attempt = Attempt(txStatus: HalStatus, rxStatus: HalStatus, waitOk: bool, reply: (byte, byte))

  /** sendCnt runs from 0 to 3 inclusive. */
  const MaxAttempts: nat := 4
  /** RX1_BUFFER_LENGTH_BYTES. */
  const RxLength: nat := 32
  /** GPU_RETURN_OK. */
  const ReplyOk: (byte, byte) := (0x4F, 0x4B)

  /** The reply arrived in time and its two bytes are "OK". */
  predicate Answered(a: Attempt) {
    a.waitOk && a.reply == ReplyOk
  }

  /** The calls of one attempt: take the send token, transmit, clear the receive
      buffer, arm a 2-byte receive, wait, and abort the receive on a timeout. */
  function AttemptEvents(data: seq<byte>, a: Attempt): seq<Event> {
    [TakeSendToken, Transmit(data), ClearRx, ArmRx(2), WaitRx(a.waitOk)] + (if a.waitOk then [] else [AbortRx])
  }

  /** Rx1_Buffer after an attempt: cleared, then holding the reply if it came. */
  function RxAfter(a: Attempt): seq<byte> {
    if a.waitOk then [a.reply.0, a.reply.1] + Zeros(RxLength - 2) else Zeros(RxLength)
  }

  /** The status a handshake returns and the number of attempts it made. */
  datatype Outcome = Outcome(status: HalStatus, attempts: nat)

  /** GPU_tx_and_rx_hand from attempt n on, with reStat holding the status of
      the last receive armed: it stops at the first attempt answered "OK". */
  function HsFrom(env: nat -> Attempt, n: nat, reStat: HalStatus): Outcome
    requires n <= MaxAttempts
    decreases MaxAttempts - n
  {
    if n == MaxAttempts then Outcome(reStat, n)
    else if Answered(env(n)) then Outcome(HalOk, n + 1)
    else HsFrom(env, n + 1, env(n).rxStatus)
  }

  /** The calls of the first k attempts. */
  function Tried(data: seq<byte>, env: nat -> Attempt, k: nat): seq<Event> {
    if k == 0 then [] else Tried(data, env, k - 1) + AttemptEvents(data, env(k - 1))
  }

  /** Some wait among the first k attempts succeeded (and took the Rx token). */
  predicate WaitedOk(env: nat -> Attempt, k: nat) {
    if k == 0 then false else WaitedOk(env, k - 1) || env(k - 1).waitOk
  }

  class GpuLink {
    /** USART1_SendHandle is free to take. */
    var sendToken: bool
    /** USART1_RxHandle is free to take. */
    var rxToken: bool
    /** Rx1_Buffer. */
    const rx1Buffer: array<byte>
    /** The calls made so far. */
    var trace: seq<Event>

    predicate Valid()
      reads this
    {
      rx1Buffer.Length == RxLength
    }

    constructor(sendFree: bool, rxFree: bool)
      ensures Valid() && fresh(rx1Buffer)
      ensures sendToken == sendFree && rxToken == rxFree && trace == []
      ensures rx1Buffer[..] == Zeros(RxLength)
    {
      sendToken, rxToken, trace := sendFree, rxFree, [];
      rx1Buffer := new byte[RxLength](_ => 0);
    }

    /** HAL_UART_RxCpltCallback: releases the Rx token for USART1 only. */
    method RxCpltCallback(instance: Uart)
      modifies this
      ensures rxToken == (instance == Usart1 || old(rxToken))
      ensures sendToken == old(sendToken) && trace == old(trace)
    {
      if instance == Usart1 {
        rxToken := true;
      }
    }

    /** HAL_UART_TxCpltCallback: releases the send token for USART1 only. */
    method TxCpltCallback(instance: Uart)
      modifies this
      ensures sendToken == (instance == Usart1 || old(sendToken))
      ensures rxToken == old(rxToken) && trace == old(trace)
    {
      if instance == Usart1 {
        sendToken := true;
      }
    }

    /** GPU_TFT_send_byte: takes the send token (waiting, if need be, for the
        previous transmission to complete), then starts the DMA transmission
        and returns its status. The wait is not modelled: after a transmission
        that failed to start, the token is never released and the real call
        blocks for ever. */
    method SendByte(data: seq<byte>, txStatus: HalStatus) returns (status: HalStatus)
      requires |data| < 0x1_0000
      modifies this
      ensures status == txStatus && !sendToken
      ensures trace == old(trace) + [TakeSendToken, Transmit(data)]
      ensures rxToken == old(rxToken)
    {
      sendToken := false;
      trace := trace + [TakeSendToken];
      trace := trace + [Transmit(data)];
      status := txStatus;
    }

    /** GPU_tx_and_rx_hand. */
    method TxAndRxHand(data: seq<byte>, env: nat -> Attempt) returns (status: HalStatus)
      requires Valid() && |data| < 0x1_0000
      modifies this, rx1Buffer
      ensures var h := HsFrom(env, 0, HalOk);
              && status == h.status && trace == old(trace) + Tried(data, env, h.attempts)
              && 1 <= h.attempts && rx1Buffer[..] == RxAfter(env(h.attempts - 1))
              && !sendToken && rxToken == (old(rxToken) && !WaitedOk(env, h.attempts))
    {
      var reStat := HalOk;
      var sendCnt := 0;
      while sendCnt <= 3
        invariant 0 <= sendCnt <= MaxAttempts && Valid()
        invariant trace == old(trace) + Tried(data, env, sendCnt)
        invariant HsFrom(env, 0, HalOk) == HsFrom(env, sendCnt, reStat)
        invariant sendCnt > 0 ==> rx1Buffer[..] == RxAfter(env(sendCnt - 1)) && !sendToken
        invariant rxToken == (old(rxToken) && !WaitedOk(env, sendCnt))
        decreases MaxAttempts - sendCnt
      {
        var a := env(sendCnt);
        ghost var prev := reStat;
        var answered;
        reStat, answered := TryOnce(data, a);
        AppendAssoc(old(trace), Tried(data, env, sendCnt), AttemptEvents(data, a));
        if answered {
          assert HsFrom(env, sendCnt, prev) == Outcome(HalOk, sendCnt + 1);
          return HalOk;
        }
        assert HsFrom(env, sendCnt, prev) == HsFrom(env, sendCnt + 1, reStat);
        sendCnt := sendCnt + 1;
      }
      return reStat;
    }

    /** The body of GPU_tx_and_rx_hand's loop: one transmission and the wait
        for its reply. Returns the status of the receive it armed and whether
        the reply was "OK". */
    method TryOnce(data: seq<byte>, a: Attempt) returns (reStat: HalStatus, answered: bool)
      requires Valid() && |data| < 0x1_0000
      modifies this, rx1Buffer
      ensures trace == old(trace) + AttemptEvents(data, a)
      ensures reStat == a.rxStatus && answered == Answered(a)
      ensures rx1Buffer[..] == RxAfter(a) && !sendToken
      ensures rxToken == (old(rxToken) && !a.waitOk)
    {
      var _ := SendByte(data, a.txStatus);
      forall k | 0 <= k < rx1Buffer.Length {
        rx1Buffer[k] := 0;
      }
      trace := trace + [ClearRx];
      reStat := a.rxStatus;
      trace := trace + [ArmRx(2)];
      trace := trace + [WaitRx(a.waitOk)];
      answered := false;
      if a.waitOk {
        // The receive completed within the wait: the interrupt stored the two
        // reply bytes, and the wait took the Rx token.
        rx1Buffer[0], rx1Buffer[1] := a.reply.0, a.reply.1;
        rxToken := false;
        answered := rx1Buffer[0] == ReplyOk.0 && rx1Buffer[1] == ReplyOk.1;
      } else {
        trace := trace + [AbortRx];
      }
      assert rx1Buffer[..] == RxAfter(a);
    }
  }

  // ---------------------------------------------------------------------------
  // What the handshake does, stated against the environment.

  /** The first attempt from n on, below `limit`, whose reply was "OK", or limit. */
  function FirstAnswer(env: nat -> Attempt, n: nat, limit: nat): (k: nat)
    requires n <= limit
    ensures n <= k <= limit
    ensures forall j :: n <= j < k ==> !Answered(env(j))
    ensures k < limit ==> Answered(env(k))
    decreases limit - n
  {
    if n == limit || Answered(env(n)) then n else FirstAnswer(env, n + 1, limit)
  }

  /** The handshake stops right after the first attempt answered "OK" and then
      returns HAL_OK; with no such attempt it makes all four and returns the
      status of the last receive it armed. */
  lemma {:induction false} HsStopsAtFirstAnswer(env: nat -> Attempt, n: nat, reStat: HalStatus)
    requires n < MaxAttempts
    ensures var k := FirstAnswer(env, n, MaxAttempts);
            var h := HsFrom(env, n, reStat);
            && h.attempts == (if k < MaxAttempts then k + 1 else MaxAttempts)
            && h.status == (if k < MaxAttempts then HalOk else env(MaxAttempts - 1).rxStatus)
    decreases MaxAttempts - n
  {
    if !Answered(env(n)) && n + 1 < MaxAttempts {
      HsStopsAtFirstAnswer(env, n + 1, env(n).rxStatus);
    }
  }

  /** The count of transmissions in a trace. */
  function Sends(t: seq<Event>): nat {
    if t == [] then 0 else (if t[0].Transmit? then 1 else 0) + Sends(t[1..])
  }

  lemma {:induction false} SendsAppend(a: seq<Event>, b: seq<Event>)
    ensures Sends(a + b) == Sends(a) + Sends(b)
    decreases |a|
  {
    if a == [] {
      assert a + b == b;
    } else {
      SendsAppend(a[1..], b);
      assert (a + b)[1..] == a[1..] + b;
    }
  }

  lemma {:induction false} SendsNone(t: seq<Event>)
    requires forall i :: 0 <= i < |t| ==> !t[i].Transmit?
    ensures Sends(t) == 0
    decreases |t|
  {
    if t != [] {
      SendsNone(t[1..]);
    }
  }

  lemma AttemptSendsOnce(data: seq<byte>, a: Attempt)
    ensures Sends(AttemptEvents(data, a)) == 1
  {
    var rest := [ClearRx, ArmRx(2), WaitRx(a.waitOk)] + (if a.waitOk then [] else [AbortRx]);
    assert AttemptEvents(data, a) == [TakeSendToken] + ([Transmit(data)] + rest);
    SendsNone(rest);
    SendsAppend([Transmit(data)], rest);
    SendsAppend([TakeSendToken], [Transmit(data)] + rest);
    assert [TakeSendToken][1..] == [] && [Transmit(data)][1..] == [];
  }

  /** k attempts transmit the frame exactly k times. */
  lemma {:induction false} TriedSends(data: seq<byte>, env: nat -> Attempt, k: nat)
    ensures Sends(Tried(data, env, k)) == k
    decreases k
  {
    if k > 0 {
      TriedSends(data, env, k - 1);
      AttemptSendsOnce(data, env(k - 1));
      SendsAppend(Tried(data, env, k - 1), AttemptEvents(data, env(k - 1)));
    }
  }

  /** GPU_tx_and_rx_hand transmits the frame at least once and at most four
      times. */
  lemma HsTransmitCount(data: seq<byte>, env: nat -> Attempt)
    ensures var h := HsFrom(env, 0, HalOk);
            && Sends(Tried(data, env, h.attempts)) == h.attempts
            && 1 <= h.attempts <= MaxAttempts
  {
    HsStopsAtFirstAnswer(env, 0, HalOk);
    TriedSends(data, env, HsFrom(env, 0, HalOk).attempts);
  }

  /** The ordering rules of a handshake's calls: every receive is armed for
      exactly two bytes right after the buffer is cleared; a wait that timed out
      is followed by an abort; and an abort happens only right after a wait
      that timed out, so never after a reply came. */
  predicate Ordered(t: seq<Event>) {
    && (forall i :: 0 <= i < |t| && t[i].ArmRx? ==> i >= 1 && t[i - 1] == ClearRx && t[i].size == 2)
    && (forall i :: 0 <= i < |t| && t[i] == WaitRx(false) ==> i + 1 < |t| && t[i + 1] == AbortRx)
    && (forall i :: 0 <= i < |t| && t[i] == AbortRx ==> i >= 1 && t[i - 1] == WaitRx(false))
  }

  lemma AttemptOrdered(data: seq<byte>, a: Attempt)
    ensures Ordered(AttemptEvents(data, a))
  {
  }

  /** Two ordered traces stay ordered when joined at a point where no wait is
      left without its abort and no receive is armed or aborted. */
  lemma OrderedJoin(t: seq<Event>, e: seq<Event>)
    requires Ordered(t) && Ordered(e)
    requires t == [] || t[|t| - 1] != WaitRx(false)
    requires e == [] || (!e[0].ArmRx? && e[0] != AbortRx)
    ensures Ordered(t + e)
  {
    var u := t + e;
    forall i | 0 <= i < |u| && u[i].ArmRx?
      ensures i >= 1 && u[i - 1] == ClearRx && u[i].size == 2
    {
      if i >= |t| {
        assert e[i - |t|].ArmRx?;
      }
    }
    forall i | 0 <= i < |u| && u[i] == WaitRx(false)
      ensures i + 1 < |u| && u[i + 1] == AbortRx
    {
      if i >= |t| {
        assert e[i - |t|] == WaitRx(false);
      }
    }
    forall i | 0 <= i < |u| && u[i] == AbortRx
      ensures i >= 1 && u[i - 1] == WaitRx(false)
    {
      if i > |t| {
        assert e[i - |t|] == AbortRx;
      }
    }
  }

  /** Any number of attempts makes its calls in the order above. */
  lemma {:induction false} TriedOrdered(data: seq<byte>, env: nat -> Attempt, k: nat)
    ensures var t := Tried(data, env, k);
            Ordered(t) && (t == [] || t[|t| - 1] != WaitRx(false))
    decreases k
  {
    if k > 0 {
      TriedOrdered(data, env, k - 1);
      AttemptOrdered(data, env(k - 1));
      OrderedJoin(Tried(data, env, k - 1), AttemptEvents(data, env(k - 1)));
    }
  }

  /** The frame with every reply timing out and every receive armed without
      error: no "OK" ever came back. */
  function SilentDisplay(): nat -> Attempt {
    _ => Attempt(HalOk, HalOk, false, (0, 0))
  }

  /** As written, a display that never answers still gets HAL_OK back, after
      four transmissions. */
  lemma HsSilentDisplayReportsOk(data: seq<byte>)
    ensures FirstAnswer(SilentDisplay(), 0, MaxAttempts) == MaxAttempts
    ensures HsFrom(SilentDisplay(), 0, HalOk) == Outcome(HalOk, 4)
    ensures Sends(Tried(data, SilentDisplay(), 4)) == 4
  {
    var env := SilentDisplay();
    assert !Answered(env(0)) && !Answered(env(1)) && !Answered(env(2)) && !Answered(env(3));
    HsStopsAtFirstAnswer(env, 0, HalOk);
    TriedSends(data, env, 4);
  }

  // ---------------------------------------------------------------------------
  // The handshake its comment describes: at most three transmissions, and a
  // send error when none of them was answered.

  const IntendedAttempts: nat := 3

  function HsIntended(env: nat -> Attempt, n: nat): Outcome
    requires n <= IntendedAttempts
    decreases IntendedAttempts - n
  {
    if n == IntendedAttempts then Outcome(HalError, n)
    else if Answered(env(n)) then Outcome(HalOk, n + 1)
    else HsIntended(env, n + 1)
  }

  /** The intended handshake reports HAL_OK exactly when one of at most three
      transmissions was answered "OK", and a send error otherwise. */
  lemma {:induction false} HsIntendedOkIff(env: nat -> Attempt, n: nat)
    requires n <= IntendedAttempts
    ensures var h := HsIntended(env, n);
            && (h.status == HalOk <==> FirstAnswer(env, n, IntendedAttempts) < IntendedAttempts)
            && (h.status != HalOk ==> h.status == HalError)
            && h.attempts <= IntendedAttempts
            && (h.status == HalOk ==> h.attempts == FirstAnswer(env, n, IntendedAttempts) + 1)
    decreases IntendedAttempts - n
  {
    if n < IntendedAttempts && !Answered(env(n)) {
      HsIntendedOkIff(env, n + 1);
    }
  }
}
