// The shell's output callback (SHELL_OUT_FNCT) and the way ringBuf_cmd.c chains
// calls to it: every return value goes through RING_CMD_OUT_MSG_CHK, which turns
// a closed connection or an output error into SHELL_EXEC_ERR and stops, and adds
// any other value to a running byte count.
module ShellOutput {
  import opened ShellArgs

  /** The shell return codes the output helpers compare against. Their numeric
      values belong to the shell library's header, so they are a parameter. */
  datatype Codes = Codes(connClosed: int, outErr: int, execErr: int, errNone: int)

  /** The two cases of RING_CMD_OUT_MSG_CHK that jump to the failure exit. */
  predicate IsOutFail(c: Codes, v: int) {
    v == c.connClosed || v == c.outErr
  }

  /** Codes as the callback's documentation describes them: a failure is never a
      positive octet count. */
  predicate FailuresNonPositive(c: Codes) {
    c.connClosed <= 0 && c.outErr <= 0
  }

  /** An output plan: one call of the callback with a chunk of text, or a nested
      helper (RingCmd_OutputMsg, RingCmd_OutputError, ...) whose parts are each
      checked, in order, by RING_CMD_OUT_MSG_CHK. */
  datatype Out = Write(text: string) | Checked(parts: seq<Out>)

  /** What running a plan does: the chunks handed to the callback, the value
      returned, and whether it ran to the end (false: the check jumped to exit). */
  datatype Emission = Emission(chunks: seq<string>, ret: int, completed: bool)

  /** Runs one part from call number `at`, `reply(n, chunk)` being what the
      n-th call of the callback returns when handed `chunk`; a nested helper
      starts its own count at 0. */
  function RunOne(c: Codes, reply: (nat, string) -> int, at: nat, o: Out): Emission
    decreases o, 1
  {
    match o
    case Write(s) => Emission([s], reply(at, s), true)
    case Checked(qs) => Run(c, reply, at, qs, 0)
  }

  /** Runs `parts` in order from call number `at` with running count `acc`,
      each part's result passed through RING_CMD_OUT_MSG_CHK. */
  function Run(c: Codes, reply: (nat, string) -> int, at: nat, parts: seq<Out>, acc: int): Emission
    decreases parts, 0
  {
    if parts == [] then Emission([], acc, true)
    else
      var head := RunOne(c, reply, at, parts[0]);
      if IsOutFail(c, head.ret) then Emission(head.chunks, c.execErr, false)
      else
        var tail := Run(c, reply, at + |head.chunks|, parts[1..], acc + head.ret);
        Emission(head.chunks + tail.chunks, tail.ret, tail.completed)
  }

  /** The chunks of one part. */
  function FlatOne(o: Out): seq<string>
    decreases o, 1
  {
    match o
    case Write(s) => [s]
    case Checked(qs) => Flatten(qs)
  }

  /** Every chunk of a plan, in order: what is written when nothing fails. */
  function Flatten(parts: seq<Out>): seq<string>
    decreases parts, 0
  {
    if parts == [] then [] else FlatOne(parts[0]) + Flatten(parts[1..])
  }

  /** The text a sequence of chunks puts on the terminal. */
  function Concat(chunks: seq<string>): string
  {
    if chunks == [] then [] else chunks[0] + Concat(chunks[1..])
  }

  /** Every nested helper writes at least one chunk (RingCmd_OutputMsg always
      writes its message). */
  predicate NoEmptyHelper(parts: seq<Out>)
    decreases parts
  {
    forall i :: 0 <= i < |parts| ==>
      match parts[i]
        case Write(_) => true
        case Checked(qs) => qs != [] && NoEmptyHelper(qs)
  }

  /** Sum of the callback's replies when handed `chunks` from call number `at`. */
  function Total(reply: (nat, string) -> int, at: nat, chunks: seq<string>): int
    decreases |chunks|
  {
    if chunks == [] then 0 else reply(at, chunks[0]) + Total(reply, at + 1, chunks[1..])
  }

  /** The callback transmitted something on each of the calls handing it `chunks`. */
  predicate AllPositive(reply: (nat, string) -> int, at: nat, chunks: seq<string>) {
    forall k :: 0 <= k < |chunks| ==> reply(at + k, chunks[k]) > 0
  }

  lemma AllPositiveSplit(reply: (nat, string) -> int, at: nat, a: seq<string>, b: seq<string>)
    ensures AllPositive(reply, at, a + b) <==> AllPositive(reply, at, a) && AllPositive(reply, at + |a|, b)
  {
    if AllPositive(reply, at, a) && AllPositive(reply, at + |a|, b) {
      forall k | 0 <= k < |a + b|
        ensures reply(at + k, (a + b)[k]) > 0
      {
        if k >= |a| {
          assert reply(at + |a| + (k - |a|), b[k - |a|]) > 0;
        }
      }
    }
    if AllPositive(reply, at, a + b) {
      forall k | 0 <= k < |a|
        ensures reply(at + k, a[k]) > 0
      {
        assert (a + b)[k] == a[k];
      }
      forall k | 0 <= k < |b|
        ensures reply(at + |a| + k, b[k]) > 0
      {
        assert (a + b)[|a| + k] == b[k];
      }
    }
  }

  /** A callback that reports every octet it was handed as transmitted. */
  ghost predicate ReportsLength(reply: (nat, string) -> int) {
    forall n: nat, s: string :: reply(n, s) == |s|
  }

  lemma {:induction false} TotalSplit(reply: (nat, string) -> int, at: nat, a: seq<string>, b: seq<string>)
    ensures Total(reply, at, a + b) == Total(reply, at, a) + Total(reply, at + |a|, b)
    decreases a
  {
    if a == [] {
      assert a + b == b;
    } else {
      assert (a + b)[0] == a[0];
      assert (a + b)[1..] == a[1..] + b;
      TotalSplit(reply, at + 1, a[1..], b);
    }
  }

  /** Against a callback that reports what it was handed, the sum of the replies
      is the number of octets of text. */
  lemma {:induction false} TotalReportsLength(reply: (nat, string) -> int, at: nat, chunks: seq<string>)
    requires ReportsLength(reply)
    ensures Total(reply, at, chunks) == |Concat(chunks)|
    decreases chunks
  {
    if chunks != [] {
      TotalReportsLength(reply, at + 1, chunks[1..]);
    }
  }

  lemma {:induction false} ConcatAppend(a: seq<string>, b: seq<string>)
    ensures Concat(a + b) == Concat(a) + Concat(b)
    decreases a
  {
    if a == [] {
      assert a + b == b;
    } else {
      assert (a + b)[0] == a[0];
      assert (a + b)[1..] == a[1..] + b;
      ConcatAppend(a[1..], b);
    }
  }

  lemma {:induction false} FlattenAppend(p: seq<Out>, q: seq<Out>)
    ensures Flatten(p + q) == Flatten(p) + Flatten(q)
    decreases p
  {
    if p != [] {
      assert (p + q)[0] == p[0];
      assert (p + q)[1..] == p[1..] + q;
      FlattenAppend(p[1..], q);
    } else {
      assert p + q == q;
    }
  }

  lemma {:induction false} NoEmptyHelperFlatten(parts: seq<Out>)
    requires NoEmptyHelper(parts)
    ensures parts != [] ==> Flatten(parts) != []
    decreases parts
  {
    if parts != [] {
      match parts[0]
      case Write(_) =>
      case Checked(qs) => NoEmptyHelperFlatten(qs);
    }
  }

  lemma {:induction false} RunOneWritesPrefix(c: Codes, reply: (nat, string) -> int, at: nat, o: Out)
    requires IsOutFail(c, c.execErr)
    ensures (RunOne(c, reply, at, o).chunks != FlatOne(o)) ==> IsOutFail(c, RunOne(c, reply, at, o).ret)
    ensures var e := RunOne(c, reply, at, o);
      && e.chunks <= FlatOne(o)
      && (e.completed ==> e.chunks == FlatOne(o))
    decreases o, 1
  {
    match o
    case Write(_) =>
    case Checked(qs) => RunWritesPrefix(c, reply, at, qs, 0);
  }

  /** When SHELL_EXEC_ERR is itself one of the two failure codes, then whatever
      the callback replies, the chunks written are a prefix of the plan, in plan
      order, and the whole plan when the run completes; a run that stops returns
      SHELL_EXEC_ERR. */
  lemma {:induction false} RunWritesPrefix(c: Codes, reply: (nat, string) -> int, at: nat, parts: seq<Out>, acc: int)
    requires IsOutFail(c, c.execErr)
    ensures var e := Run(c, reply, at, parts, acc);
      && e.chunks <= Flatten(parts)
      && (e.completed ==> e.chunks == Flatten(parts))
      && (!e.completed ==> e.ret == c.execErr)
    decreases parts, 0
  {
    if parts != [] {
      var head := RunOne(c, reply, at, parts[0]);
      RunOneWritesPrefix(c, reply, at, parts[0]);
      assert Flatten(parts) == FlatOne(parts[0]) + Flatten(parts[1..]);
      var f0, rest := FlatOne(parts[0]), Flatten(parts[1..]);
      if !IsOutFail(c, head.ret) {
        RunWritesPrefix(c, reply, at + |head.chunks|, parts[1..], acc + head.ret);
        var tail := Run(c, reply, at + |head.chunks|, parts[1..], acc + head.ret);
        assert head.chunks == f0;
      } else {
        assert head.chunks <= f0 + rest;
      }
    }
  }

  lemma {:induction false} RunOneAllTransmitted(c: Codes, reply: (nat, string) -> int, at: nat, o: Out)
    requires FailuresNonPositive(c) && NoEmptyHelper([o])
    requires AllPositive(reply, at, FlatOne(o))
    ensures RunOne(c, reply, at, o) == Emission(FlatOne(o), Total(reply, at, FlatOne(o)), true)
    ensures Total(reply, at, FlatOne(o)) > 0
    decreases o, 1
  {
    assert [o][0] == o;
    match o
    case Write(s) =>
      assert [s][1..] == [];
    case Checked(qs) =>
      RunAllTransmitted(c, reply, at, qs, 0);
      NoEmptyHelperFlatten(qs);
      TotalPositive(reply, at, Flatten(qs));
  }

  /** When every call transmits something, every chunk of the plan is written and
      the result is the running count plus the sum of all replies. */
  lemma {:induction false} RunAllTransmitted(c: Codes, reply: (nat, string) -> int, at: nat, parts: seq<Out>, acc: int)
    requires FailuresNonPositive(c) && NoEmptyHelper(parts)
    requires AllPositive(reply, at, Flatten(parts))
    ensures Run(c, reply, at, parts, acc) ==
      Emission(Flatten(parts), acc + Total(reply, at, Flatten(parts)), true)
    decreases parts, 0
  {
    if parts != [] {
      var f0 := FlatOne(parts[0]);
      var rest := Flatten(parts[1..]);
      assert Flatten(parts) == f0 + rest;
      assert NoEmptyHelper([parts[0]]) by {
        assert [parts[0]][0] == parts[0];
      }
      AllPositiveSplit(reply, at, f0, rest);
      RunOneAllTransmitted(c, reply, at, parts[0]);
      RunAllTransmitted(c, reply, at + |f0|, parts[1..], acc + Total(reply, at, f0));
      TotalSplit(reply, at, f0, rest);
    }
  }

  /** Every helper of the plan writes something and every chunk holds text. */
  predicate TextOnly(parts: seq<Out>) {
    NoEmptyHelper(parts) && forall s :: s in Flatten(parts) ==> s != []
  }

  lemma TextOnlyAppend(p: seq<Out>, q: seq<Out>)
    requires TextOnly(p) && TextOnly(q)
    ensures TextOnly(p + q)
  {
    FlattenAppend(p, q);
    forall i | 0 <= i < |p + q|
      ensures match (p + q)[i] case Write(_) => true case Checked(qs) => qs != [] && NoEmptyHelper(qs)
    {
      if i >= |p| {
        assert (p + q)[i] == q[i - |p|];
      }
    }
  }

  lemma TextOnlyChecked(p: seq<Out>)
    requires TextOnly(p) && p != []
    ensures TextOnly([Checked(p)])
  {
    assert Flatten([Checked(p)]) == Flatten(p) by {
      assert [Checked(p)][1..] == [];
    }
  }

  /** Against a callback that reports what it was handed, a plan whose chunks
      all hold text runs to its end and returns the number of octets it wrote. */
  lemma TextDelivered(c: Codes, reply: (nat, string) -> int, at: nat, parts: seq<Out>)
    requires FailuresNonPositive(c) && ReportsLength(reply) && TextOnly(parts)
    ensures Run(c, reply, at, parts, 0) == Emission(Flatten(parts), |Concat(Flatten(parts))|, true)
  {
    var chunks := Flatten(parts);
    forall k | 0 <= k < |chunks|
      ensures reply(at + k, chunks[k]) > 0
    {
      assert chunks[k] in chunks;
    }
    RunAllTransmitted(c, reply, at, parts, 0);
    TotalReportsLength(reply, at, chunks);
  }

  lemma {:induction false} TotalPositive(reply: (nat, string) -> int, at: nat, chunks: seq<string>)
    requires chunks != [] && AllPositive(reply, at, chunks)
    ensures Total(reply, at, chunks) > 0
    decreases chunks
  {
    if |chunks| > 1 {
      TotalPositive(reply, at + 1, chunks[1..]);
    }
  }

  lemma {:induction false} RunOneStopsAtFirstFailure(c: Codes, reply: (nat, string) -> int, at: nat, o: Out, k: nat)
    requires FailuresNonPositive(c) && IsOutFail(c, c.execErr) && NoEmptyHelper([o])
    requires k < |FlatOne(o)| && IsOutFail(c, reply(at + k, FlatOne(o)[k]))
    requires AllPositive(reply, at, FlatOne(o)[..k])
    ensures RunOne(c, reply, at, o).chunks == FlatOne(o)[..k + 1]
    ensures IsOutFail(c, RunOne(c, reply, at, o).ret)
    decreases o, 1
  {
    assert [o][0] == o;
    match o
    case Write(s) =>
      assert [s][..k + 1] == [s];
    case Checked(qs) => RunStopsAtFirstFailure(c, reply, at, qs, 0, k);
  }

  /** With SHELL_EXEC_ERR equal to one of the two failure codes, the first call
      that fails stops all further output, through every level of nesting: the
      chunks written are those up to and including the failing one. */
  lemma {:induction false} RunStopsAtFirstFailure(c: Codes, reply: (nat, string) -> int, at: nat, parts: seq<Out>, acc: int, k: nat)
    requires FailuresNonPositive(c) && IsOutFail(c, c.execErr) && NoEmptyHelper(parts)
    requires k < |Flatten(parts)| && IsOutFail(c, reply(at + k, Flatten(parts)[k]))
    requires AllPositive(reply, at, Flatten(parts)[..k])
    ensures Run(c, reply, at, parts, acc) == Emission(Flatten(parts)[..k + 1], c.execErr, false)
    decreases parts, 0
  {
    var f0 := FlatOne(parts[0]);
    var rest := Flatten(parts[1..]);
    assert Flatten(parts) == f0 + rest;
    assert NoEmptyHelper([parts[0]]) by {
      assert [parts[0]][0] == parts[0];
    }
    if k < |f0| {
      assert (f0 + rest)[..k] == f0[..k];
      RunOneStopsAtFirstFailure(c, reply, at, parts[0], k);
      assert (f0 + rest)[..k + 1] == f0[..k + 1];
      assert Run(c, reply, at, parts, acc) == Emission(RunOne(c, reply, at, parts[0]).chunks, c.execErr, false);
    } else {
      assert (f0 + rest)[..k] == f0 + rest[..k - |f0|];
      AllPositiveSplit(reply, at, f0, rest[..k - |f0|]);
      RunOneAllTransmitted(c, reply, at, parts[0]);
      var acc1 := acc + Total(reply, at, f0);
      RunStopsAtFirstFailure(c, reply, at + |f0|, parts[1..], acc1, k - |f0|);
      var tail := Run(c, reply, at + |f0|, parts[1..], acc1);
      assert Run(c, reply, at, parts, acc) == Emission(f0 + tail.chunks, tail.ret, tail.completed);
      assert (f0 + rest)[..k + 1] == f0 + rest[..k - |f0| + 1];
    }
  }

  /** With SHELL_EXEC_ERR distinct from both failure codes, a failure inside one
      helper is added into its caller's count like a byte count, and the caller
      goes on writing: the next helper's chunk is still written. */
  lemma NestedFailureNotRecognised(c: Codes, reply: (nat, string) -> int, at: nat, a: string, b: string)
    requires !IsOutFail(c, c.execErr)
    requires IsOutFail(c, reply(at, a)) && !IsOutFail(c, reply(at + 1, b))
    ensures Run(c, reply, at, [Checked([Write(a)]), Checked([Write(b)])], 0)
      == Emission([a, b], c.execErr + reply(at + 1, b), true)
  {
    var p := [Checked([Write(a)]), Checked([Write(b)])];
    assert p[1..] == [Checked([Write(b)])];
    assert [Write(a)][1..] == [];
    assert [Write(b)][1..] == [];
    assert [Checked([Write(b)])][1..] == [];
    assert Run(c, reply, at, [Write(a)], 0) == Emission([a], c.execErr, false);
    assert Run(c, reply, at + 1, [Write(b)], 0) == Emission([b], reply(at + 1, b), true);
    assert Run(c, reply, at + 1, p[1..], c.execErr) == Emission([b], c.execErr + reply(at + 1, b), true);
  }

  /** A run preceded by chunks already written. */
  function After(done: seq<string>, e: Emission): Emission
  {
    Emission(done + e.chunks, e.ret, e.completed)
  }

  /** One step of a run: the first part, then the rest unless it failed. */
  lemma RunCons(c: Codes, reply: (nat, string) -> int, at: nat, o: Out, rest: seq<Out>, acc: int)
    ensures var head := RunOne(c, reply, at, o);
      Run(c, reply, at, [o] + rest, acc) ==
        if IsOutFail(c, head.ret) then Emission(head.chunks, c.execErr, false)
        else After(head.chunks, Run(c, reply, at + |head.chunks|, rest, acc + head.ret))
  {
    assert ([o] + rest)[0] == o;
    assert ([o] + rest)[1..] == rest;
  }

  /** RING_CMD_OUT_MSG_CHK applied to the result `head` of the next call, `e`
      being what the caller has written and counted so far: once the caller has
      jumped to its exit nothing more happens; a failing value becomes
      SHELL_EXEC_ERR and the jump; any other value is added to the count. */
  function Check(c: Codes, e: Emission, head: Emission): Emission
  {
    if !e.completed then e
    else if IsOutFail(c, head.ret) then Emission(e.chunks + head.chunks, c.execErr, false)
    else Emission(e.chunks + head.chunks, e.ret + head.ret, true)
  }

  /** The rest of a plan run after what `e` has written; nothing when `e` has
      already stopped. */
  function Resume(c: Codes, reply: (nat, string) -> int, at: nat, e: Emission, rest: seq<Out>): Emission
  {
    if !e.completed then e else After(e.chunks, Run(c, reply, at + |e.chunks|, rest, e.ret))
  }

  lemma ResumeStart(c: Codes, reply: (nat, string) -> int, at: nat, parts: seq<Out>, acc: int)
    ensures Resume(c, reply, at, Emission([], acc, true), parts) == Run(c, reply, at, parts, acc)
  {
  }

  lemma ResumeEnd(c: Codes, reply: (nat, string) -> int, at: nat, e: Emission)
    ensures Resume(c, reply, at, e, []) == e
  {
  }

  /** Running the next part of a plan is applying the check to its result. */
  lemma ResumeCons(c: Codes, reply: (nat, string) -> int, at: nat, e: Emission, o: Out, rest: seq<Out>)
    ensures Resume(c, reply, at, e, [o] + rest)
      == Resume(c, reply, at, Check(c, e, RunOne(c, reply, at + |e.chunks|, o)), rest)
  {
    if e.completed {
      RunCons(c, reply, at + |e.chunks|, o, rest, e.ret);
    }
  }

  /** A plan of two parts: the second runs after the first, checked, unless
      the first stopped. */
  lemma RunPair(c: Codes, reply: (nat, string) -> int, at: nat, o1: Out, o2: Out)
    ensures var e1 := Check(c, Emission([], 0, true), RunOne(c, reply, at, o1));
      Run(c, reply, at, [o1, o2], 0) == Check(c, e1, RunOne(c, reply, at + |e1.chunks|, o2))
  {
    var e0 := Emission([], 0, true);
    var e1 := Check(c, e0, RunOne(c, reply, at, o1));
    ResumeStart(c, reply, at, [o1, o2], 0);
    assert [o1, o2] == [o1] + [o2];
    ResumeCons(c, reply, at, e0, o1, [o2]);
    assert [o2] + [] == [o2];
    ResumeCons(c, reply, at, e1, o2, []);
  }

  /** One more part after a plan. */
  lemma RunSnocCheck(c: Codes, reply: (nat, string) -> int, at: nat, p: seq<Out>, o: Out)
    ensures var e := Run(c, reply, at, p, 0);
      Run(c, reply, at, p + [o], 0) == Check(c, e, RunOne(c, reply, at + |e.chunks|, o))
  {
    var e := Run(c, reply, at, p, 0);
    RunAppend(c, reply, at, p, [o], 0);
    if e.completed {
      RunSingle(c, reply, at + |e.chunks|, o, e.ret);
    }
  }

  /** A plan of one part. */
  lemma RunSingle(c: Codes, reply: (nat, string) -> int, at: nat, o: Out, acc: int)
    ensures Run(c, reply, at, [o], acc) == Check(c, Emission([], acc, true), RunOne(c, reply, at, o))
  {
    ResumeStart(c, reply, at, [o], acc);
    assert [o] + [] == [o];
    ResumeCons(c, reply, at, Emission([], acc, true), o, []);
  }

  /** Running two plans one after the other: the second starts where the first
      left off, unless the first stopped. */
  lemma {:induction false} RunAppend(c: Codes, reply: (nat, string) -> int, at: nat, p: seq<Out>, q: seq<Out>, acc: int)
    ensures var e1 := Run(c, reply, at, p, acc);
      Run(c, reply, at, p + q, acc) ==
        if !e1.completed then e1
        else
          var e2 := Run(c, reply, at + |e1.chunks|, q, e1.ret);
          Emission(e1.chunks + e2.chunks, e2.ret, e2.completed)
    decreases p
  {
    if p != [] {
      var o, rest := p[0], p[1..];
      assert p == [o] + rest;
      assert p + q == [o] + (rest + q);
      RunCons(c, reply, at, o, rest, acc);
      RunCons(c, reply, at, o, rest + q, acc);
      var head := RunOne(c, reply, at, o);
      if !IsOutFail(c, head.ret) {
        var at1, acc1 := at + |head.chunks|, acc + head.ret;
        RunAppend(c, reply, at1, rest, q, acc1);
        var t1 := Run(c, reply, at1, rest, acc1);
        assert Run(c, reply, at, p, acc) == After(head.chunks, t1);
        assert Run(c, reply, at, p + q, acc) == After(head.chunks, Run(c, reply, at1, rest + q, acc1));
        if t1.completed {
          var e2 := Run(c, reply, at1 + |t1.chunks|, q, t1.ret);
          assert Run(c, reply, at1, rest + q, acc1) == Emission(t1.chunks + e2.chunks, e2.ret, e2.completed);
          AppendAssoc(head.chunks, t1.chunks, e2.chunks);
        }
      }
    } else {
      assert p + q == q;
      AppendEmptyLeft(Run(c, reply, at, q, acc).chunks);
    }
  }

  /** One more part after a run that completed. */
  lemma RunSnoc(c: Codes, reply: (nat, string) -> int, at: nat, p: seq<Out>, part: Out, acc: int)
    requires Run(c, reply, at, p, acc).completed
    ensures var e1 := Run(c, reply, at, p, acc);
      var head := RunOne(c, reply, at + |e1.chunks|, part);
      Run(c, reply, at, p + [part], acc) ==
        if IsOutFail(c, head.ret) then Emission(e1.chunks + head.chunks, c.execErr, false)
        else Emission(e1.chunks + head.chunks, e1.ret + head.ret, true)
  {
    RunAppend(c, reply, at, p, [part], acc);
    assert [part][1..] == [];
  }

  /** Nothing after a run that stopped is written. */
  lemma RunStopped(c: Codes, reply: (nat, string) -> int, at: nat, p: seq<Out>, q: seq<Out>, acc: int)
    requires !Run(c, reply, at, p, acc).completed
    ensures Run(c, reply, at, p + q, acc) == Run(c, reply, at, p, acc)
  {
    RunAppend(c, reply, at, p, q, acc);
  }

  /** The shell's output callback together with what it answers: `reply(n, s)`
      is the return value of its n-th call, handed `s`, and `log` every chunk
      handed to it. */
  class OutPort {
    const codes: Codes
    const reply: (nat, string) -> int
    var log: seq<string>

    constructor (codes: Codes, reply: (nat, string) -> int)
      ensures this.codes == codes && this.reply == reply && log == []
    {
      this.codes := codes;
      this.reply := reply;
      log := [];
    }

    /** One call of out_fnct with `chunk`. */
    method Out(chunk: string) returns (v: int)
      modifies this
      ensures log == old(log) + [chunk]
      ensures v == reply(|old(log)|, chunk)
    {
      v := reply(|log|, chunk);
      log := log + [chunk];
    }
  }
}
