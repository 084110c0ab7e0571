// The stream-buffer demo and the byte filters of userCode/shell_app.c.
//
// The FreeRTOS stream buffer between the interrupt and the receiving task is not part of
// this model: what the sender hands to xStreamBufferSendFromISR is logged in
// `sent`, and the receiving task is given its bytes one call at a time. Both
// demo strings are commented out in the source; the model takes them as
// constructor parameters, and the lemmas at the end use the texts written there.
module ShellApp {
  import opened ShellArgs

  // ---------------------------------------------------------------------------
  // vBasicStreamBufferSendFromISR

  /** xCallsBetweenSends and xBytesToSend. */
  const CallsBetweenSends: nat := 100
  const BytesToSend: nat := 4

  /** The two statics: xCallCount and xNextByteToSend. */
  datatype Sender = Sender(callCount: nat, nextByte: nat)

  /** One call: counts; past 100 calls, resets the count and moves the offset on
      by four bytes, back to 0 at or past the end of the string. Returns the
      offset sent from, if the call sent. */
  function SenderTick(s: Sender, len: nat): (Sender, Option<nat>) {
    if s.callCount + 1 > CallsBetweenSends then
      var next := s.nextByte + BytesToSend;
      (Sender(0, if next >= len then 0 else next), Some(s.nextByte))
    else (Sender(s.callCount + 1, s.nextByte), None)
  }

  class IsrSender {
    /** pcStringToSend. */
    const text: seq<byte>
    var callCount: nat
    var nextByteToSend: nat
    /** The four-byte pieces handed to the stream buffer so far. */
    var sent: seq<seq<byte>>

    /** The string is a non-empty multiple of four bytes long, as its comment
        demands, so every piece lies inside it. It holds no NUL, so its length
        is the strlen the sender wraps at. */
    predicate Valid()
      reads this
    {
      |text| > 0 && |text| % BytesToSend == 0 && Nul !in text
      && nextByteToSend % BytesToSend == 0 && nextByteToSend < |text|
      && callCount <= CallsBetweenSends
    }

    constructor(text: seq<byte>)
      requires |text| > 0 && |text| % BytesToSend == 0 && Nul !in text
      ensures Valid() && this.text == text
      ensures callCount == 0 && nextByteToSend == 0 && sent == []
    {
      this.text := text;
      callCount, nextByteToSend, sent := 0, 0, [];
    }

    /** vBasicStreamBufferSendFromISR. */
    method SendFromIsr()
      requires Valid()
      modifies this
      ensures Valid()
      ensures var (s, from) := SenderTick(Sender(old(callCount), old(nextByteToSend)), |text|);
              && Sender(callCount, nextByteToSend) == s
              && sent == old(sent) + (if from.Some? then [text[from.value..from.value + BytesToSend]] else [])
    {
      callCount := callCount + 1;
      if callCount > CallsBetweenSends {
        callCount := 0;
        sent := sent + [text[nextByteToSend..nextByteToSend + BytesToSend]];
        nextByteToSend := nextByteToSend + BytesToSend;
        if nextByteToSend >= |text| {
          nextByteToSend := 0;
        }
      }
    }
  }

  /** The statics and the offsets sent from after n calls from start-up. */
  function SenderRun(len: nat, n: nat): (Sender, seq<nat>) {
    if n == 0 then (Sender(0, 0), [])
    else
      var (s, from) := SenderRun(len, n - 1);
      var (s', f) := SenderTick(s, len);
      (s', from + (if f.Some? then [f.value] else []))
  }

  /** The offset of the j-th piece: four bytes on from the one before, back to 0
      at the end of the string. */
  function Offset(len: nat, j: nat): nat {
    if j == 0 then 0
    else if Offset(len, j - 1) + BytesToSend >= len then 0
    else Offset(len, j - 1) + BytesToSend
  }

  /** One send every 101 calls: after n calls the count is n mod 101, there
      have been n div 101 sends, the j-th from Offset(j), and the next one will
      be from Offset(n div 101). */
  lemma {:induction false} SenderRunSpec(len: nat, n: nat)
    ensures var (s, from) := SenderRun(len, n);
            && s.callCount == n % 101
            && |from| == n / 101
            && s.nextByte == Offset(len, n / 101)
            && forall j :: 0 <= j < |from| ==> from[j] == Offset(len, j)
    decreases n
  {
    if n > 0 {
      SenderRunSpec(len, n - 1);
      ModSucc101(n - 1);
    }
  }

  /** The pieces walk the string from its start, four bytes at a time, and
      after the last piece start over: |text| / 4 sends spell the string. */
  lemma {:induction false} OffsetCycle(len: nat, j: nat)
    requires len > 0 && len % BytesToSend == 0 && j <= len / BytesToSend
    ensures Offset(len, j) == if j == len / BytesToSend then 0 else BytesToSend * j
    decreases j
  {
    if j > 0 {
      OffsetCycle(len, j - 1);
    }
  }

  /** After one round the offsets repeat: the string is sent over and over. */
  lemma {:induction false} OffsetPeriodic(len: nat, j: nat)
    requires len > 0 && len % BytesToSend == 0
    ensures Offset(len, j + len / BytesToSend) == Offset(len, j)
    decreases j
  {
    if j == 0 {
      OffsetCycle(len, len / BytesToSend);
    } else {
      OffsetPeriodic(len, j - 1);
      OffsetCycle(len, 0);
    }
  }

  /** The j-th send of the first round is the string's j-th four-byte piece. */
  lemma FirstRoundPieces(len: nat, n: nat, j: nat)
    requires len > 0 && len % BytesToSend == 0 && j < len / BytesToSend && j < n / 101
    ensures |SenderRun(len, n).1| == n / 101 && SenderRun(len, n).1[j] == BytesToSend * j
  {
    SenderRunSpec(len, n);
    OffsetCycle(len, j);
  }

  /** The pieces sent from offsets 0, 4, ... up to the string's end, joined. */
  function Joined(text: seq<byte>, k: nat): seq<byte>
    requires BytesToSend * k <= |text|
  {
    if k == 0 then [] else Joined(text, k - 1) + text[BytesToSend * (k - 1)..BytesToSend * k]
  }

  lemma {:induction false} JoinedPrefix(text: seq<byte>, k: nat)
    requires BytesToSend * k <= |text|
    ensures Joined(text, k) == text[..BytesToSend * k]
    decreases k
  {
    if k > 0 {
      JoinedPrefix(text, k - 1);
      assert text[..BytesToSend * k] == text[..BytesToSend * (k - 1)] + text[BytesToSend * (k - 1)..BytesToSend * k];
    }
  }

  /** One round of |text| / 4 sends hands over exactly the string. */
  lemma RoundSpellsText(text: seq<byte>)
    requires |text| > 0 && |text| % BytesToSend == 0
    ensures Joined(text, |text| / BytesToSend) == text
  {
    JoinedPrefix(text, |text| / BytesToSend);
    assert text[..|text|] == text;
  }

  // ---------------------------------------------------------------------------
  // prvReceivingTask

  datatype DemoStatus = Pass | Fail

  /** sizeof(cRxBuffer). */
  const RxBufferSize: nat := 20
  const StartByte: byte := 0x48 // 'H'
  const EndByte: byte := 0x53   // 'S'
  const Word32: nat := 0x1_0000_0000

  /** The receiving task's state: cRxBuffer, xNextByte, xDemoStatus, ulCycleCount, and
      whether configASSERT has stopped the receiving task. */
  datatype Scanner = Scanner(buf: seq<byte>, next: nat, status: DemoStatus, cycles: nat, halted: bool)

  predicate ScannerValid(s: Scanner) {
    |s.buf| == RxBufferSize && (s.halted || s.next < RxBufferSize) && s.cycles < Word32
  }

  /** strcmp(buf, target) == 0, for a target without NUL shorter than buf: the
      target's bytes, then buf's terminator. */
  predicate StrEq(buf: seq<byte>, target: seq<byte>)
    requires |target| < |buf|
  {
    buf[..|target|] == target && buf[|target|] == Nul
  }

  /** One received byte, stored at cRxBuffer[xNextByte] first. At index 0 only
      'H' advances; elsewhere 'S' ends the frame (compare, clear, count while
      passing) and any other byte advances, stopping the receiving task when the index
      would leave the buffer. */
  function ScanStep(s: Scanner, b: byte, target: seq<byte>): (r: Scanner)
    requires ScannerValid(s) && !s.halted && |target| < RxBufferSize
    ensures ScannerValid(r)
  {
    var buf := s.buf[s.next := b];
    if s.next == 0 then
      if b == StartByte then s.(buf := buf, next := 1) else s.(buf := buf)
    else if b == EndByte then
      var status := if StrEq(buf, target) then s.status else Fail;
      Scanner(Zeros(RxBufferSize), 0, status, if status == Pass then (s.cycles + 1) % Word32 else s.cycles, false)
    else s.(buf := buf, next := s.next + 1, halted := s.next + 1 >= RxBufferSize)
  }

  class FrameScanner {
    /** pcStringToReceive. */
    const target: seq<byte>
    const rxBuffer: array<byte>
    var nextByte: nat
    var demoStatus: DemoStatus
    var cycleCount: nat
    var halted: bool

    function State(): Scanner
      reads this, rxBuffer
    {
      Scanner(rxBuffer[..], nextByte, demoStatus, cycleCount, halted)
    }

    predicate Valid()
      reads this, rxBuffer
    {
      rxBuffer.Length == RxBufferSize && ScannerValid(State())
      && |target| < RxBufferSize && Nul !in target
    }

    /** The receiving task's start: the target fits the buffer with its terminator (the
        first configASSERT), the buffer is cleared, the demo passes. */
    constructor(target: seq<byte>)
      requires |target| < RxBufferSize && Nul !in target
      ensures Valid() && this.target == target && fresh(rxBuffer)
      ensures State() == Scanner(Zeros(RxBufferSize), 0, Pass, 0, false)
    {
      this.target := target;
      rxBuffer := new byte[RxBufferSize](_ => Nul);
      nextByte, demoStatus, cycleCount, halted := 0, Pass, 0, false;
    }

    /** One pass of prvReceivingTask's loop, given the byte received. */
    method Receive(b: byte)
      requires Valid() && !halted
      modifies this, rxBuffer
      ensures Valid() && State() == ScanStep(old(State()), b, target)
    {
      rxBuffer[nextByte] := b;
      if nextByte == 0 {
        if rxBuffer[nextByte] == StartByte {
          nextByte := nextByte + 1;
        }
      } else {
        if rxBuffer[nextByte] == EndByte {
          if !(rxBuffer[..RxBufferSize][..|target|] == target && rxBuffer[|target|] == Nul) {
            demoStatus := Fail;
          }
          forall k | 0 <= k < rxBuffer.Length {
            rxBuffer[k] := Nul;
          }
          nextByte := 0;
          if demoStatus == Pass {
            cycleCount := (cycleCount + 1) % Word32;
          }
        } else {
          nextByte := nextByte + 1;
          halted := nextByte >= RxBufferSize;
        }
      }
      assert rxBuffer[..] == rxBuffer[..RxBufferSize];
    }
  }

  /** The receiving task fed a sequence of bytes; a stopped task takes no more. */
  function ScanAll(s: Scanner, bytes: seq<byte>, target: seq<byte>): (r: Scanner)
    requires ScannerValid(s) && |target| < RxBufferSize
    ensures ScannerValid(r)
    decreases |bytes|
  {
    if bytes == [] || s.halted then s else ScanAll(ScanStep(s, bytes[0], target), bytes[1..], target)
  }

  lemma {:induction false} ScanAllAppend(s: Scanner, a: seq<byte>, b: seq<byte>, target: seq<byte>)
    requires ScannerValid(s) && |target| < RxBufferSize
    ensures ScanAll(s, a + b, target) == ScanAll(ScanAll(s, a, target), b, target)
    decreases |a|
  {
    if a != [] && !s.halted {
      ScanAllAppend(ScanStep(s, a[0], target), a[1..], b, target);
      assert (a + b)[1..] == a[1..] + b;
    } else if a == [] {
      assert a + b == b;
    }
  }

  /** Once the demo has failed it never passes again, and the cycle count
      stops. */
  lemma {:induction false} FailIsFinal(s: Scanner, bytes: seq<byte>, target: seq<byte>)
    requires ScannerValid(s) && |target| < RxBufferSize && s.status == Fail
    ensures ScanAll(s, bytes, target).status == Fail
    ensures ScanAll(s, bytes, target).cycles == s.cycles
    decreases |bytes|
  {
    if bytes != [] && !s.halted {
      FailIsFinal(ScanStep(s, bytes[0], target), bytes[1..], target);
    }
  }

  /** Waiting for a frame: index 0, nothing stored past slot 0. */
  predicate Idle(s: Scanner) {
    ScannerValid(s) && !s.halted && s.next == 0
    && forall j :: 1 <= j < RxBufferSize ==> s.buf[j] == Nul
  }

  /** While idle, every byte but 'H' is written over slot 0 and changes nothing
      else. */
  lemma IdleSkips(s: Scanner, b: byte, target: seq<byte>)
    requires Idle(s) && b != StartByte && |target| < RxBufferSize
    ensures ScanStep(s, b, target) == s.(buf := s.buf[0 := b])
    ensures Idle(ScanStep(s, b, target))
  {
  }

  /** Inside a frame, bytes other than 'S' are stored one after another. */
  lemma {:induction false} CollectBody(s: Scanner, body: seq<byte>, target: seq<byte>)
    requires ScannerValid(s) && !s.halted && |target| < RxBufferSize
    requires 1 <= s.next && s.next + |body| < RxBufferSize
    requires forall j :: s.next <= j < RxBufferSize ==> s.buf[j] == Nul
    requires EndByte !in body
    ensures var r := ScanAll(s, body, target);
            && !r.halted && r.next == s.next + |body| && r.status == s.status && r.cycles == s.cycles
            && |r.buf| == RxBufferSize
            && (forall j :: 0 <= j < s.next ==> r.buf[j] == s.buf[j])
            && (forall j :: 0 <= j < |body| ==> r.buf[s.next + j] == body[j])
            && (forall j :: s.next + |body| <= j < RxBufferSize ==> r.buf[j] == Nul)
    decreases |body|
  {
    if body != [] {
      var s1 := ScanStep(s, body[0], target);
      assert body[0] != EndByte;
      CollectBody(s1, body[1..], target);
      var r := ScanAll(s1, body[1..], target);
      forall j | 0 <= j < |body|
        ensures r.buf[s.next + j] == body[j]
      {
        if j > 0 {
          assert r.buf[s1.next + (j - 1)] == body[1..][j - 1];
        }
      }
    }
  }

  /** The frame's bytes, followed by NULs up to the buffer's size. */
  lemma StrEqFrame(buf: seq<byte>, frame: seq<byte>, target: seq<byte>)
    requires |buf| == RxBufferSize && |frame| <= RxBufferSize && |target| < RxBufferSize
    requires Nul !in frame && Nul !in target
    requires forall j :: 0 <= j < |frame| ==> buf[j] == frame[j]
    requires forall j :: |frame| <= j < RxBufferSize ==> buf[j] == Nul
    ensures StrEq(buf, target) <==> frame == target
  {
    if frame == target {
      assert buf[..|target|] == target;
    } else if |frame| < |target| {
      assert buf[|frame|] == Nul && target[|frame|] != Nul;
      assert buf[..|target|][|frame|] != target[|frame|];
    } else if |frame| > |target| {
      assert buf[|target|] == frame[|target|] && frame[|target|] != Nul;
    } else {
      var j :| 0 <= j < |frame| && frame[j] != target[j];
      assert buf[..|target|][j] != target[j];
    }
  }

  /** 'H' and then a body without 'S', received while idle: the frame so far
      is stored from slot 0 on, NULs after it. */
  lemma FrameCollected(s: Scanner, body: seq<byte>, target: seq<byte>) returns (r: Scanner)
    requires Idle(s) && |target| < RxBufferSize
    requires |body| + 2 <= RxBufferSize && EndByte !in body
    ensures r == ScanAll(s, [StartByte] + body, target)
    ensures ScannerValid(r) && !r.halted && r.next == 1 + |body| && r.status == s.status && r.cycles == s.cycles
    ensures forall j :: 0 <= j < r.next ==> r.buf[j] == ([StartByte] + body)[j]
    ensures forall j :: r.next <= j < RxBufferSize ==> r.buf[j] == Nul
  {
    var s1 := ScanStep(s, StartByte, target);
    CollectBody(s1, body, target);
    r := ScanAll(s1, body, target);
    ScanAllAppend(s, [StartByte], body, target);
    assert ScanAll(s, [StartByte], target) == s1;
    forall j | 1 <= j < r.next
      ensures r.buf[j] == ([StartByte] + body)[j]
    {
      assert r.buf[s1.next + (j - 1)] == body[j - 1];
    }
  }

  /** A whole frame, 'H', a body without 'S' and 'S', received while idle: the
      demo keeps its status exactly when the frame spells the target (and fails
      otherwise), the cycle count goes up by one exactly when it still passes,
      and the receiving task is idle again with a cleared buffer. */
  lemma FrameVerdict(s: Scanner, body: seq<byte>, target: seq<byte>)
    requires Idle(s) && |target| < RxBufferSize && Nul !in target
    requires |body| + 2 <= RxBufferSize && EndByte !in body && Nul !in body
    ensures var frame := [StartByte] + body + [EndByte];
            var r := ScanAll(s, frame, target);
            && r.status == (if frame == target then s.status else Fail)
            && r.cycles == (if r.status == Pass then (s.cycles + 1) % Word32 else s.cycles)
            && r.buf == Zeros(RxBufferSize) && r.next == 0 && !r.halted
  {
    var frame := [StartByte] + body + [EndByte];
    var s2 := FrameCollected(s, body, target);
    ScanAllAppend(s, [StartByte] + body, [EndByte], target);
    var buf := s2.buf[s2.next := EndByte];
    assert forall j :: 0 <= j < |frame| ==> buf[j] == frame[j];
    StrEqFrame(buf, frame, target);
    assert ScanAll(s2, [EndByte], target) == ScanStep(s2, EndByte, target);
  }

  /** The demo's strings: the sender's text is the target between runs of five
      underscores. */
  const Padding: seq<byte> := [0x5F, 0x5F, 0x5F, 0x5F, 0x5F]
  const HelloBody: seq<byte> := [0x65, 0x6C, 0x6C, 0x6F, 0x20, 0x46, 0x72, 0x65, 0x65, 0x52, 0x54, 0x4F]
  /** "Hello FreeRTOS". */
  const HelloFreeRtos: seq<byte> := [StartByte] + HelloBody + [EndByte]
  /** "_____Hello FreeRTOS_____", 24 bytes. */
  const TextToSend: seq<byte> := Padding + HelloFreeRtos + Padding

  lemma DemoStrings()
    ensures StartByte !in Padding && EndByte !in HelloBody && Nul !in HelloBody
    ensures Nul !in HelloFreeRtos && |HelloFreeRtos| < RxBufferSize
    ensures |TextToSend| == 24
  {
  }

  /** One round of the sender's string, received by an idle task looking for
      "Hello FreeRTOS": the demo still passes, one more cycle is counted, and
      the receiving task is idle again. */
  lemma DemoRoundPasses(s: Scanner)
    requires Idle(s) && s.status == Pass
    ensures var r := ScanAll(s, TextToSend, HelloFreeRtos);
            r.status == Pass && r.cycles == (s.cycles + 1) % Word32 && Idle(r)
  {
    var t := HelloFreeRtos;
    DemoStrings();
    var s1 := IdleRun(s, Padding, t);
    FrameVerdict(s1, HelloBody, t);
    var s2 := ScanAll(s1, t, t);
    var s3 := IdleRun(s2, Padding, t);
    ScanAllAppend(s, Padding, t + Padding, t);
    ScanAllAppend(s1, t, Padding, t);
    assert TextToSend == Padding + (t + Padding);
  }

  /** Idle bytes other than 'H' leave the receiving task idle, with status and count. */
  lemma {:induction false} IdleRun(s: Scanner, bytes: seq<byte>, target: seq<byte>) returns (r: Scanner)
    requires Idle(s) && StartByte !in bytes && |target| < RxBufferSize
    ensures r == ScanAll(s, bytes, target)
    ensures Idle(r) && r.status == s.status && r.cycles == s.cycles
    decreases |bytes|
  {
    if bytes == [] {
      r := s;
    } else {
      IdleSkips(s, bytes[0], target);
      r := IdleRun(ScanStep(s, bytes[0], target), bytes[1..], target);
    }
  }

  // ---------------------------------------------------------------------------
  // TerminalSerial_RdByte, GPU_Serial_RdByte and the receive-complete callback

  /** TerminalSerial_RdByte once the byte is received: its test against
      sizeof(char) only catches 0, which it maps to 0. */
  function TerminalSerialRdByte(rxData: byte): (r: byte)
    ensures r == rxData
  {
    if rxData < 1 then 0 else rxData
  }

  /** GPU_Serial_RdByte once the byte is received: 0 and 1 both read as 0. */
  function GpuSerialRdByte(rxData: byte): (r: byte)
    ensures r == 0 <==> rxData <= 1
    ensures rxData > 1 ==> r == rxData
  {
    if rxData <= 1 then 0 else rxData
  }

  /** The two readers differ on exactly one byte value: 1. */
  lemma RdBytesDifferOnlyAtOne(rxData: byte)
    ensures GpuSerialRdByte(rxData) != TerminalSerialRdByte(rxData) <==> rxData == 1
  {
  }

  /** HAL_UART_RxCpltCallback: hands the RxXferSize bytes at huart->pRxBuffPtr
      to the stream buffer, which takes the first `accepted` of them; when it
      takes none, the error branch is empty and the bytes are lost without
      trace. */
  function RxCpltCallback(stream: seq<byte>, atRxPtr: seq<byte>, accepted: nat): (r: seq<byte>)
    requires accepted <= |atRxPtr|
    ensures |r| == |stream| + accepted && r[..|stream|] == stream
    ensures r[|stream|..] == atRxPtr[..accepted]
    ensures accepted == 0 ==> r == stream
  {
    stream + atRxPtr[..accepted]
  }
}
