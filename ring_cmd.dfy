// The "ring" shell command group of ringBuf_cmd.c: its argument parser, the
// helpers that compose output through the shell's out_fnct callback, and the
// command bodies that dispatch on the parse status.
module RingCmd {
  import opened ShellArgs
  import opened ShellOutput

  const Tabulation := "\t"
  const CmdListHeader := "Command List: "
  const ErrorPrefix := "Error: "
  const ErrArgInvalid := "Invalid Arguments"
  const HelpGet := "usage: RING_get {FORMAT}\r\n"
  const HelpFormat :=
    "where FORMAT is:\r\n"
    + "\r\n"
    + "  -d, --datetime   DATETIME format.\r\n"
    + "  -u, --unix       UNIX     format.\r\n"
    + "  -n, --ntp        NTP      format.\r\n\r\n"
    + "  if FORMAT is not provided, VALUE is assumed to be in DATETIME format.\r\n"
  const WriteSuccess := "Data write input success.\r\n"
  const CreateErr := "Ring create is fail.\r\n"
  const CreateSuccess := "Ring create is OK.\r\n"
  const CmdUnfinished := "Shell cmd is CMD_UNFINISHED.\r\n"
  const CmdExecuteSuccess := "The command execution is complete.\r\n"

  // ---------------------------------------------------------------------------
  // RingCmd_CmdArgParse
  // ---------------------------------------------------------------------------

  /** The status one option decides, `argc` being the argument count. */
  function RingOption(f: ArgForm, argc: nat): ParseStatus
    requires !f.Positional?
  {
    match f
    case Long(name) =>
      if name == "help" then Help
      else if name == "read" then Success
      else if name == "write" then (if argc > 2 then Success else Help)
      else InvalidArg
    case Short(name) =>
      if name == "r" then Success
      else if name == "w" then (if argc > 1 then Success else Help)
      else if name == "h" then Help
      else InvalidArg
  }

  /** The loop over argv[i..]: arguments that are not options are skipped and
      the first option returns its status; running off the end is SUCCESS. */
  function RingScan(argv: seq<string>, i: nat): (r: ParseStatus)
    requires i <= |argv|
    ensures r != Empty
    decreases |argv| - i
  {
    if i == |argv| then Success
    else
      var f := Form(argv[i]);
      if f.Positional? then RingScan(argv, i + 1)
      else RingOption(f, |argv|)
  }

  /** RingCmd_CmdArgParse on argc == |argv|. */
  function RingCmdArgParse(argv: seq<string>): (r: ParseStatus)
    ensures r == Empty <==> |argv| == 1
  {
    if |argv| == 1 then Empty
    else if |argv| == 0 then Success
    else RingScan(argv, 1)
  }

  lemma {:induction false} RingScanFirstOption(argv: seq<string>, i: nat)
    requires i <= |argv|
    ensures var j := FirstOption(argv, i);
      RingScan(argv, i) == if j == |argv| then Success else RingOption(Form(argv[j]), |argv|)
    decreases |argv| - i
  {
    if i < |argv| && Form(argv[i]).Positional? {
      RingScanFirstOption(argv, i + 1);
    }
  }

  /** The first argument that starts with '-' alone decides the result; with no
      such argument the result is SUCCESS (also for argc == 0). */
  lemma RingParseByFirstOption(argv: seq<string>)
    requires |argv| != 1
    ensures var j := FirstOption(argv, if |argv| == 0 then 0 else 1);
      && (j == |argv| ==> RingCmdArgParse(argv) == Success)
      && (j < |argv| ==> RingCmdArgParse(argv) == RingOption(Form(argv[j]), |argv|))
  {
    if |argv| > 1 {
      RingScanFirstOption(argv, 1);
    }
  }

  /** Only the arguments up to the first option, and the argument count, matter:
      two argument vectors that agree on those parse alike. */
  lemma RingParseIgnoresLaterArgs(argv: seq<string>, other: seq<string>, j: nat)
    requires 1 <= j < |argv| == |other|
    requires argv[..j + 1] == other[..j + 1]
    requires forall k :: 1 <= k < j ==> Form(argv[k]).Positional?
    requires !Form(argv[j]).Positional?
    ensures RingCmdArgParse(argv) == RingCmdArgParse(other)
  {
    RingScanFirstOption(argv, 1);
    RingScanFirstOption(other, 1);
    assert forall k :: 1 <= k <= j ==> argv[k] == other[k] by {
      forall k | 1 <= k <= j ensures argv[k] == other[k] {
        assert argv[..j + 1][k] == other[..j + 1][k];
      }
    }
    FirstOptionAt(argv, 1, j);
    FirstOptionAt(other, 1, j);
  }

  lemma {:induction false} FirstOptionAt(argv: seq<string>, i: nat, j: nat)
    requires i <= j < |argv|
    requires forall k :: i <= k < j ==> Form(argv[k]).Positional?
    requires !Form(argv[j]).Positional?
    ensures FirstOption(argv, i) == j
    decreases j - i
  {
    if i < j {
      FirstOptionAt(argv, i + 1, j);
    }
  }

  /** The option table, on the argument that decides: "--help" and "-h" ask
      for help, and so does "--write" with nothing after the command; "--read",
      "-r" and "-w" succeed, and so does "--write" with a further argument;
      every other option is INVALID_ARG. */
  lemma RingOptionMapping(argv: seq<string>, j: nat)
    requires |argv| >= 2 && j == FirstOption(argv, 1) < |argv|
    ensures RingCmdArgParse(argv) == Help <==>
      argv[j] == "--help" || argv[j] == "-h" || (argv[j] == "--write" && |argv| == 2)
    ensures RingCmdArgParse(argv) == Success <==>
      argv[j] == "--read" || argv[j] == "-r" || argv[j] == "-w" || (argv[j] == "--write" && |argv| > 2)
    ensures RingCmdArgParse(argv) == InvalidArg <==>
      && argv[j] != "--help" && argv[j] != "-h" && argv[j] != "--read"
      && argv[j] != "-r" && argv[j] != "-w" && argv[j] != "--write"
  {
    RingParseByFirstOption(argv);
    OptionSpelling(argv[j]);
  }

  /** An option argument is its dash prefix followed by the name Form gives. */
  lemma OptionSpelling(a: string)
    requires !Form(a).Positional?
    ensures Form(a).Long? ==>
      && (a == "--help" <==> Form(a).name == "help")
      && (a == "--read" <==> Form(a).name == "read")
      && (a == "--write" <==> Form(a).name == "write")
      && a != "-h" && a != "-r" && a != "-w"
    ensures Form(a).Short? ==>
      && (a == "-h" <==> Form(a).name == "h")
      && (a == "-r" <==> Form(a).name == "r")
      && (a == "-w" <==> Form(a).name == "w")
      && a != "--help" && a != "--read" && a != "--write"
  {
    var f := Form(a);
    if f.Long? {
      assert a[2..] == f.name;
      assert a[1] == '-';
    } else {
      assert a[1..] == f.name;
      assert |a| < 2 || a[1] != '-';
    }
  }

  /** "ring_xxx -w" and "ring_xxx --write" differ: the short form is accepted
      with no data after it, the long form asks for help. */
  lemma ShortWriteNeedsNoData(cmd: string, pre: seq<string>)
    requires forall k :: 0 <= k < |pre| ==> Form(pre[k]).Positional?
    ensures RingCmdArgParse([cmd] + pre + ["-w"]) == Success
    ensures RingCmdArgParse([cmd] + pre + ["--write"]) == if |pre| > 0 then Success else Help
  {
    var a, b := [cmd] + pre + ["-w"], [cmd] + pre + ["--write"];
    assert Form("-w") == Short("w");
    assert Form("--write") == Long("write");
    FirstOptionAt(a, 1, |pre| + 1);
    FirstOptionAt(b, 1, |pre| + 1);
    RingParseByFirstOption(a);
    RingParseByFirstOption(b);
  }

  // ---------------------------------------------------------------------------
  // Output composition
  // ---------------------------------------------------------------------------

  /** A write that happens only when `b` holds. */
  function Opt(b: bool, chunk: string): seq<Out>
  {
    if b then [Write(chunk)] else []
  }

  function OptText(b: bool, chunk: string): string
  {
    if b then chunk else ""
  }

  /** RingCmd_OutputMsg's calls: newline, tab, the message, newline, each
      optional except the message. */
  function MsgPlan(msg: string, newLineStart: bool, newLineEnd: bool, tabStart: bool): seq<Out>
  {
    Opt(newLineStart, NewLine) + (Opt(tabStart, Tabulation) + ([Write(msg)] + Opt(newLineEnd, NewLine)))
  }

  /** One call of RingCmd_OutputMsg as seen by its caller. */
  function Msg(msg: string, newLineStart: bool, newLineEnd: bool, tabStart: bool): Out
  {
    Checked(MsgPlan(msg, newLineStart, newLineEnd, tabStart))
  }

  /** The text one RingCmd_OutputMsg call puts on the terminal. */
  function MsgText(msg: string, newLineStart: bool, newLineEnd: bool, tabStart: bool): string
  {
    OptText(newLineStart, NewLine) + (OptText(tabStart, Tabulation) + (msg + OptText(newLineEnd, NewLine)))
  }

  lemma FlattenOpt(b: bool, chunk: string, rest: seq<Out>)
    ensures Flatten(Opt(b, chunk) + rest) == (if b then [chunk] else []) + Flatten(rest)
    ensures Concat((if b then [chunk] else []) + Flatten(rest)) == OptText(b, chunk) + Concat(Flatten(rest))
  {
    FlattenAppend(Opt(b, chunk), rest);
    ConcatAppend(if b then [chunk] else [], Flatten(rest));
    if b {
      assert Flatten([Write(chunk)]) == [chunk] by {
        assert [Write(chunk)][1..] == [];
      }
      assert Concat([chunk]) == chunk by {
        assert [chunk][1..] == [];
      }
    }
  }

  /** The text of an optional write followed by the rest of a plan. */
  lemma ConcatFlattenOpt(b: bool, chunk: string, rest: seq<Out>)
    ensures Concat(Flatten(Opt(b, chunk) + rest)) == OptText(b, chunk) + Concat(Flatten(rest))
  {
    FlattenOpt(b, chunk, rest);
  }

  lemma MsgPlanText(msg: string, nls: bool, nle: bool, tab: bool)
    ensures Concat(Flatten(MsgPlan(msg, nls, nle, tab))) == MsgText(msg, nls, nle, tab)
  {
    var r4 := Opt(nle, NewLine);
    var r3 := Opt(true, msg) + r4;
    var r2 := Opt(tab, Tabulation) + r3;
    assert Opt(true, msg) == [Write(msg)];
    assert MsgPlan(msg, nls, nle, tab) == Opt(nls, NewLine) + r2;
    ConcatFlattenOpt(nle, NewLine, []);
    assert r4 + [] == r4;
    var t4 := OptText(nle, NewLine);
    assert Concat(Flatten(r4)) == t4;
    ConcatFlattenOpt(true, msg, r4);
    var t3 := msg + t4;
    assert Concat(Flatten(r3)) == t3;
    ConcatFlattenOpt(tab, Tabulation, r3);
    var t2 := OptText(tab, Tabulation) + t3;
    assert Concat(Flatten(r2)) == t2;
    ConcatFlattenOpt(nls, NewLine, r2);
    assert Concat(Flatten(MsgPlan(msg, nls, nle, tab))) == OptText(nls, NewLine) + t2;
  }

  /** A RingCmd_OutputMsg call with a non-empty message writes only text. */
  lemma MsgPlanTextOnly(msg: string, nls: bool, nle: bool, tab: bool)
    requires msg != []
    ensures TextOnly(MsgPlan(msg, nls, nle, tab)) && TextOnly([Msg(msg, nls, nle, tab)])
  {
    FlattenOpt(nle, NewLine, []);
    FlattenOpt(true, msg, Opt(nle, NewLine));
    FlattenOpt(tab, Tabulation, [Write(msg)] + Opt(nle, NewLine));
    FlattenOpt(nls, NewLine, Opt(tab, Tabulation) + ([Write(msg)] + Opt(nle, NewLine)));
    assert Opt(true, msg) == [Write(msg)];
    TextOnlyChecked(MsgPlan(msg, nls, nle, tab));
  }

  /** RingCmd_OutputMsg, when every write transmits all it is handed: the text
      is the optional newline, optional tab, message and optional newline, and
      the value returned is its number of octets. */
  lemma OutputMsgDelivered(c: Codes, reply: (nat, string) -> int, at: nat,
                           msg: string, nls: bool, nle: bool, tab: bool)
    requires FailuresNonPositive(c) && ReportsLength(reply) && msg != []
    ensures var e := Run(c, reply, at, MsgPlan(msg, nls, nle, tab), 0);
      e.completed && e.chunks == Flatten(MsgPlan(msg, nls, nle, tab))
      && Concat(e.chunks) == MsgText(msg, nls, nle, tab)
      && e.ret == |MsgText(msg, nls, nle, tab)|
  {
    MsgPlanTextOnly(msg, nls, nle, tab);
    TextDelivered(c, reply, at, MsgPlan(msg, nls, nle, tab));
    MsgPlanText(msg, nls, nle, tab);
  }

  /** RingCmd_OutputError: "Error: " after a newline, then the error and a newline. */
  function ErrorPlan(err: string): seq<Out>
  {
    [Msg(ErrorPrefix, true, false, false), Msg(err, false, true, false)]
  }

  /** The two usage messages every ring command prints for EMPTY/HELP. */
  function HelpPlan(): seq<Out>
  {
    [Msg(HelpGet, true, true, false), Msg(HelpFormat, true, true, false)]
  }

  /** One tab-indented line per command name. */
  function NamesPlan(names: seq<string>): (p: seq<Out>)
    ensures |p| == |names|
    ensures forall i :: 0 <= i < |names| ==> p[i] == Msg(names[i], false, true, true)
  {
    if names == [] then [] else NamesPlan(names[..|names| - 1]) + [Msg(names[|names| - 1], false, true, true)]
  }

  /** RingCmd_OutputCmdTbl's plan: the header line, then the names. */
  function CmdTblPlan(names: seq<string>): seq<Out>
  {
    [Msg(CmdListHeader, true, true, false)] + NamesPlan(names)
  }

  /** One optional call of out_fnct inside RingCmd_OutputMsg, checked. */
  function CheckOpt(c: Codes, reply: (nat, string) -> int, at: nat, e: Emission, b: bool, chunk: string): Emission
  {
    if b then Check(c, e, Emission([chunk], reply(at + |e.chunks|, chunk), true)) else e
  }

  /** Once a run has stopped, a further optional step leaves it as it is. */
  lemma CheckOptStopped(c: Codes, reply: (nat, string) -> int, at: nat, e: Emission, b: bool, chunk: string)
    requires !e.completed
    ensures CheckOpt(c, reply, at, e, b, chunk) == e
  {
  }

  /** One optional step on a running emission, spelled out. */
  lemma CheckOptStep(c: Codes, reply: (nat, string) -> int, at: nat, e: Emission, b: bool, chunk: string)
    requires e.completed
    ensures var r := CheckOpt(c, reply, at, e, b, chunk);
      var v := reply(at + |e.chunks|, chunk);
      && (!b ==> r == e)
      && (b ==> r.chunks == e.chunks + [chunk] && r.completed == !IsOutFail(c, v))
      && (b && IsOutFail(c, v) ==> r.ret == c.execErr)
      && (b && !IsOutFail(c, v) ==> r.ret == e.ret + v)
  {
  }

  /** RingCmd_OutputMsg as its four checked steps. */
  function MsgSteps(c: Codes, reply: (nat, string) -> int, at: nat,
                    msg: string, nls: bool, nle: bool, tab: bool): Emission
  {
    var e1 := CheckOpt(c, reply, at, Emission([], 0, true), nls, NewLine);
    var e2 := CheckOpt(c, reply, at, e1, tab, Tabulation);
    var e3 := CheckOpt(c, reply, at, e2, true, msg);
    CheckOpt(c, reply, at, e3, nle, NewLine)
  }

  lemma ResumeOpt(c: Codes, reply: (nat, string) -> int, at: nat, e: Emission, b: bool, chunk: string, rest: seq<Out>)
    ensures Resume(c, reply, at, e, Opt(b, chunk) + rest) == Resume(c, reply, at, CheckOpt(c, reply, at, e, b, chunk), rest)
  {
    if b {
      ResumeCons(c, reply, at, e, Write(chunk), rest);
    } else {
      assert Opt(b, chunk) + rest == rest;
    }
  }

  /** The four checked steps are the run of RingCmd_OutputMsg's plan. */
  lemma MsgStepsRun(c: Codes, reply: (nat, string) -> int, at: nat, msg: string, nls: bool, nle: bool, tab: bool)
    ensures MsgSteps(c, reply, at, msg, nls, nle, tab) == Run(c, reply, at, MsgPlan(msg, nls, nle, tab), 0)
  {
    var e0 := Emission([], 0, true);
    var e1 := CheckOpt(c, reply, at, e0, nls, NewLine);
    var e2 := CheckOpt(c, reply, at, e1, tab, Tabulation);
    var e3 := CheckOpt(c, reply, at, e2, true, msg);
    var r4 := Opt(nle, NewLine);
    var r3 := Opt(true, msg) + r4;
    var r2 := Opt(tab, Tabulation) + r3;
    assert MsgPlan(msg, nls, nle, tab) == Opt(nls, NewLine) + r2;
    ResumeStart(c, reply, at, Opt(nls, NewLine) + r2, 0);
    ResumeOpt(c, reply, at, e0, nls, NewLine, r2);
    ResumeOpt(c, reply, at, e1, tab, Tabulation, r3);
    ResumeOpt(c, reply, at, e2, true, msg, r4);
    assert r4 + [] == r4;
    ResumeOpt(c, reply, at, e3, nle, NewLine, []);
    ResumeEnd(c, reply, at, MsgSteps(c, reply, at, msg, nls, nle, tab));
  }

  /** The shell command table: a name and whether its function pointer is set;
      an entry with no function ends the table. */
  datatype ShellCmd = ShellCmd(name: string, hasFnct: bool)

  /** The names RingCmd_OutputCmdTbl walks over: those before the first entry
      whose function pointer is null. */
  function Listed(tbl: seq<ShellCmd>): (names: seq<string>)
    ensures |names| <= |tbl|
    ensures forall i :: 0 <= i < |names| ==> tbl[i].hasFnct && names[i] == tbl[i].name
    ensures |names| < |tbl| ==> !tbl[|names|].hasFnct
    decreases |tbl|
  {
    if tbl == [] || !tbl[0].hasFnct then [] else [tbl[0].name] + Listed(tbl[1..])
  }

  /** Ring_CmdTbl. */
  const RingCmdTbl := [
    ShellCmd("ring_help", true), ShellCmd("ring_write", true), ShellCmd("ring_get", true),
    ShellCmd("ring_init", true), ShellCmd("ring_test", true), ShellCmd("", false)]

  /** RingCmd_OutputMsg: at most four calls of out_fnct, stopping at the first
      that fails; SHELL_EXEC_ERR on failure, else the sum of what they returned. */
  method OutputMsg(port: OutPort, msg: string, newLineStart: bool, newLineEnd: bool, tabStart: bool)
    returns (output: int)
    modifies port
    ensures var e := Run(port.codes, port.reply, |old(port.log)|, MsgPlan(msg, newLineStart, newLineEnd, tabStart), 0);
      port.log == old(port.log) + e.chunks && output == e.ret
  {
    ghost var at := |port.log|;
    ghost var c, reply := port.codes, port.reply;
    MsgStepsRun(c, reply, at, msg, newLineStart, newLineEnd, tabStart);
    ghost var e0 := Emission([], 0, true);
    ghost var e1 := CheckOpt(c, reply, at, e0, newLineStart, NewLine);
    ghost var e2 := CheckOpt(c, reply, at, e1, tabStart, Tabulation);
    ghost var e3 := CheckOpt(c, reply, at, e2, true, msg);
    ghost var e4 := CheckOpt(c, reply, at, e3, newLineEnd, NewLine);
    assert e4 == MsgSteps(c, reply, at, msg, newLineStart, newLineEnd, tabStart);
    CheckOptStep(c, reply, at, e0, newLineStart, NewLine);
    var byteOutCnt := 0;
    if newLineStart {
      output := port.Out(NewLine);
      AppendAssoc(old(port.log), e0.chunks, [NewLine]);
      if IsOutFail(port.codes, output) {
        CheckOptStopped(c, reply, at, e1, tabStart, Tabulation);
        CheckOptStopped(c, reply, at, e2, true, msg);
        CheckOptStopped(c, reply, at, e3, newLineEnd, NewLine);
        return port.codes.execErr;
      }
      byteOutCnt := byteOutCnt + output;
    }
    assert port.log == old(port.log) + e1.chunks && byteOutCnt == e1.ret && e1.completed;
    CheckOptStep(c, reply, at, e1, tabStart, Tabulation);
    if tabStart {
      output := port.Out(Tabulation);
      AppendAssoc(old(port.log), e1.chunks, [Tabulation]);
      if IsOutFail(port.codes, output) {
        CheckOptStopped(c, reply, at, e2, true, msg);
        CheckOptStopped(c, reply, at, e3, newLineEnd, NewLine);
        return port.codes.execErr;
      }
      byteOutCnt := byteOutCnt + output;
    }
    assert port.log == old(port.log) + e2.chunks && byteOutCnt == e2.ret && e2.completed;
    CheckOptStep(c, reply, at, e2, true, msg);
    output := port.Out(msg);
    AppendAssoc(old(port.log), e2.chunks, [msg]);
    if IsOutFail(port.codes, output) {
      CheckOptStopped(c, reply, at, e3, newLineEnd, NewLine);
      return port.codes.execErr;
    }
    byteOutCnt := byteOutCnt + output;
    assert port.log == old(port.log) + e3.chunks && byteOutCnt == e3.ret && e3.completed;
    CheckOptStep(c, reply, at, e3, newLineEnd, NewLine);
    if newLineEnd {
      output := port.Out(NewLine);
      AppendAssoc(old(port.log), e3.chunks, [NewLine]);
      if IsOutFail(port.codes, output) {
        return port.codes.execErr;
      }
      byteOutCnt := byteOutCnt + output;
    }
    output := byteOutCnt;
  }

  /** RingCmd_OutputError: two RingCmd_OutputMsg calls, each checked; SHELL_EXEC_ERR
      at the first that fails, else the sum of their counts. */
  method OutputError(port: OutPort, err: string) returns (ret: int)
    modifies port
    ensures var e := Run(port.codes, port.reply, |old(port.log)|, ErrorPlan(err), 0);
      port.log == old(port.log) + e.chunks && ret == e.ret
  {
    ghost var at := |port.log|;
    ghost var c, reply := port.codes, port.reply;
    RunPair(c, reply, at, Msg(ErrorPrefix, true, false, false), Msg(err, false, true, false));
    ghost var e := Emission([], 0, true);
    var byteOutCnt := 0;
    ret := OutputMsg(port, ErrorPrefix, true, false, false);
    AppendAssoc(old(port.log), e.chunks, port.log[at..]);
    e := Check(c, e, RunOne(c, reply, at, Msg(ErrorPrefix, true, false, false)));
    if IsOutFail(port.codes, ret) {
      return port.codes.execErr;
    }
    byteOutCnt := byteOutCnt + ret;
    ghost var mid := port.log;
    ret := OutputMsg(port, err, false, true, false);
    AppendAssoc(old(port.log), e.chunks, port.log[|mid|..]);
    e := Check(c, e, RunOne(c, reply, at + |e.chunks|, Msg(err, false, true, false)));
    if IsOutFail(port.codes, ret) {
      return port.codes.execErr;
    }
    byteOutCnt := byteOutCnt + ret;
    ret := byteOutCnt;
  }

  /** The table plan up to entry k, then the remaining names. */
  lemma CmdTblPlanSplit(names: seq<string>, k: nat)
    requires k <= |names|
    ensures CmdTblPlan(names) == CmdTblPlan(names[..k]) + NamesPlan(names[k..])
  {
    var lhs, rhs := CmdTblPlan(names), CmdTblPlan(names[..k]) + NamesPlan(names[k..]);
    assert |lhs| == |rhs|;
    forall j | 0 <= j < |lhs| ensures lhs[j] == rhs[j] {
      if j > 0 {
        if j - 1 < k {
          assert rhs[j] == NamesPlan(names[..k])[j - 1];
        } else {
          assert rhs[j] == NamesPlan(names[k..])[j - 1 - k];
        }
      }
    }
  }

  /** The table plan up to entry i + 1 is the one up to entry i and one more line. */
  lemma CmdTblSnoc(names: seq<string>, i: nat)
    requires i < |names|
    ensures CmdTblPlan(names[..i + 1]) == CmdTblPlan(names[..i]) + [Msg(names[i], false, true, true)]
  {
    assert names[..i + 1] == names[..i] + [names[i]];
  }

  /** A run of the table that stops at or before entry k is the run of the whole table. */
  lemma CmdTblStop(c: Codes, reply: (nat, string) -> int, at: nat, names: seq<string>, k: nat)
    requires k <= |names|
    requires !Run(c, reply, at, CmdTblPlan(names[..k]), 0).completed
    ensures Run(c, reply, at, CmdTblPlan(names[..k]), 0) == Run(c, reply, at, CmdTblPlan(names), 0)
  {
    CmdTblPlanSplit(names, k);
    RunStopped(c, reply, at, CmdTblPlan(names[..k]), NamesPlan(names[k..]), 0);
  }

  /** One line of RingCmd_OutputCmdTbl's loop: the run of the plan up to entry
      i + 1 is the check of that entry's line after the run up to entry i; when
      it stops, so does the run of the whole table. */
  lemma CmdTblStep(c: Codes, reply: (nat, string) -> int, at: nat, names: seq<string>, i: nat,
                    e: Emission, head: Emission)
    requires i < |names|
    requires e == Run(c, reply, at, CmdTblPlan(names[..i]), 0)
    requires head == RunOne(c, reply, at + |e.chunks|, Msg(names[i], false, true, true))
    ensures Check(c, e, head) == Run(c, reply, at, CmdTblPlan(names[..i + 1]), 0)
    ensures !Check(c, e, head).completed ==> Check(c, e, head) == Run(c, reply, at, CmdTblPlan(names), 0)
  {
    CmdTblSnoc(names, i);
    RunSnocCheck(c, reply, at, CmdTblPlan(names[..i]), Msg(names[i], false, true, true));
    if !Check(c, e, head).completed {
      CmdTblStop(c, reply, at, names, i + 1);
    }
  }

  /** RingCmd_OutputCmdTbl: the header, then one line per table entry up to the
      first with no function; SHELL_EXEC_ERR at the first failure, else the sum
      of the counts. The table must hold its terminating entry. */
  method OutputCmdTbl(port: OutPort, tbl: seq<ShellCmd>) returns (accRetVal: int)
    requires exists i :: 0 <= i < |tbl| && !tbl[i].hasFnct
    modifies port
    ensures var e := Run(port.codes, port.reply, |old(port.log)|, CmdTblPlan(Listed(tbl)), 0);
      port.log == old(port.log) + e.chunks && accRetVal == e.ret
  {
    ghost var at := |port.log|;
    ghost var c, reply := port.codes, port.reply;
    ghost var names := Listed(tbl);
    ghost var e := Emission([], 0, true);
    var retVal := OutputMsg(port, CmdListHeader, true, true, false);
    AppendAssoc(old(port.log), e.chunks, port.log[at..]);
    e := Check(c, e, RunOne(c, reply, at, Msg(CmdListHeader, true, true, false)));
    assert CmdTblPlan(names[..0]) == [Msg(CmdListHeader, true, true, false)];
    RunSingle(c, reply, at, Msg(CmdListHeader, true, true, false), 0);
    assert e == Run(c, reply, at, CmdTblPlan(names[..0]), 0);
    if IsOutFail(port.codes, retVal) {
      CmdTblPlanSplit(names, 0);
      RunStopped(c, reply, at, CmdTblPlan(names[..0]), NamesPlan(names[0..]), 0);
      assert e == Run(c, reply, at, CmdTblPlan(names), 0);
      return port.codes.execErr;
    }
    accRetVal := retVal;
    var i := 0;
    while tbl[i].hasFnct
      invariant 0 <= i <= |names| && i < |tbl|
      invariant e == Run(c, reply, at, CmdTblPlan(names[..i]), 0)
      invariant e.completed && port.log == old(port.log) + e.chunks && accRetVal == e.ret
      decreases |names| - i
    {
      ghost var before := port.log;
      retVal := OutputMsg(port, tbl[i].name, false, true, true);
      AppendAssoc(old(port.log), e.chunks, port.log[|before|..]);
      ghost var head := RunOne(c, reply, at + |e.chunks|, Msg(names[i], false, true, true));
      assert retVal == head.ret && port.log == old(port.log) + (e.chunks + head.chunks);
      CmdTblStep(c, reply, at, names, i, e, head);
      e := Check(c, e, head);
      if IsOutFail(port.codes, retVal) {
        return port.codes.execErr;
      }
      i := i + 1;
      accRetVal := accRetVal + retVal;
    }
    assert i == |names|;
    assert names[..i] == names;
    assert e == Run(c, reply, at, CmdTblPlan(names), 0);
  }

  /** What ring_buf_init writes for each parse status; `createOk` is whether
      RingBufCreate reported no error. */
  function InitPlan(status: ParseStatus, createOk: bool): seq<Out>
  {
    match status
    case Empty | Success =>
      if createOk then [Msg(CreateSuccess, true, true, false)] else [Checked(ErrorPlan(CreateErr))]
    case InvalidArg => [Checked(ErrorPlan(ErrArgInvalid))]
    case Help => HelpPlan()
  }

  /** What RingCmd_Write writes for each parse status. The data line is handed a
      null pointer, which Str_Len measures as 0 octets: an empty chunk. */
  function WritePlan(status: ParseStatus): seq<Out>
  {
    match status
    case Success => [Msg(WriteSuccess, true, true, false), Msg("", true, true, false)]
    case InvalidArg => [Checked(ErrorPlan(ErrArgInvalid))]
    case Empty | Help => HelpPlan()
  }

  /** What Ring_Read writes for each parse status. */
  function ReadPlan(status: ParseStatus): seq<Out>
  {
    match status
    case Success => [Msg(CmdUnfinished, true, true, false)]
    case InvalidArg => [Checked(ErrorPlan(ErrArgInvalid))]
    case Empty | Help => HelpPlan()
  }

  /** What ring_test_dlist writes. */
  function TestPlan(): seq<Out>
  {
    [Msg(CmdExecuteSuccess, true, true, false)]
  }

  /** Against a callback that reports what it was handed, ring_buf_init,
      Ring_Read and ring_test_dlist, and RingCmd_Write whenever it does not
      succeed, print their whole text and return its length in octets. */
  lemma CommandsDeliverText(c: Codes, reply: (nat, string) -> int, at: nat, st: ParseStatus, createOk: bool)
    requires FailuresNonPositive(c) && ReportsLength(reply)
    ensures forall plan :: plan in [InitPlan(st, createOk), ReadPlan(st), TestPlan()] + (if st == Success then [] else [WritePlan(st)]) ==>
      Run(c, reply, at, plan, 0) == Emission(Flatten(plan), |Concat(Flatten(plan))|, true)
  {
    MsgPlanTextOnly(HelpGet, true, true, false);
    MsgPlanTextOnly(HelpFormat, true, true, false);
    TextOnlyAppend([Msg(HelpGet, true, true, false)], [Msg(HelpFormat, true, true, false)]);
    MsgPlanTextOnly(CreateSuccess, true, true, false);
    MsgPlanTextOnly(CmdUnfinished, true, true, false);
    MsgPlanTextOnly(CmdExecuteSuccess, true, true, false);
    ErrorPlanTextOnly(CreateErr);
    ErrorPlanTextOnly(ErrArgInvalid);
    forall plan | plan in [InitPlan(st, createOk), ReadPlan(st), TestPlan()] + (if st == Success then [] else [WritePlan(st)])
      ensures Run(c, reply, at, plan, 0) == Emission(Flatten(plan), |Concat(Flatten(plan))|, true)
    {
      TextDelivered(c, reply, at, plan);
    }
  }

  /** The calls of a RingCmd_OutputMsg call framed by newlines. */
  lemma LineChunks(msg: string)
    ensures MsgPlan(msg, true, true, false) == [Write(NewLine), Write(msg), Write(NewLine)]
    ensures Flatten(MsgPlan(msg, true, true, false)) == [NewLine, msg, NewLine]
  {
    var p := [Write(NewLine), Write(msg), Write(NewLine)];
    assert p[2..][1..] == [];
    assert Flatten(p[2..]) == [NewLine];
    assert p[1..][1..] == p[2..];
    assert Flatten(p[1..]) == [msg] + Flatten(p[2..]);
    assert Flatten(p) == [NewLine] + Flatten(p[1..]);
  }

  /** A line with an empty message stops at the empty chunk when the callback
      answers it with "connection closed". */
  lemma EmptyLineStops(c: Codes, reply: (nat, string) -> int, at: nat)
    requires FailuresNonPositive(c) && ReportsLength(reply) && c.connClosed == 0
    ensures RunOne(c, reply, at, Msg("", true, true, false)) == Emission([NewLine, ""], c.execErr, false)
  {
    LineChunks("");
    var p := [Write(NewLine), Write(""), Write(NewLine)];
    assert reply(at, NewLine) == 2 && reply(at + 1, "") == 0;
    assert Run(c, reply, at + 1, p[1..], 2) == Emission([""], c.execErr, false);
  }

  /** RingCmd_Write on success hands the callback the null data pointer, an
      empty chunk. A callback that reports what it was handed returns 0 for it,
      the shell's "connection closed" code, so the data line fails after its
      leading newline: the helper returns SHELL_EXEC_ERR, which the caller's
      check adds to the count unless it is itself a failure code. */
  lemma WriteSuccessHandsOverEmptyData(c: Codes, reply: (nat, string) -> int, at: nat)
    requires FailuresNonPositive(c) && ReportsLength(reply) && c.connClosed == 0
    ensures var e := Run(c, reply, at, WritePlan(Success), 0);
      && e.chunks == [NewLine, WriteSuccess, NewLine, NewLine, ""]
      && e.completed == !IsOutFail(c, c.execErr)
      && e.ret == (if IsOutFail(c, c.execErr) then c.execErr else |MsgText(WriteSuccess, true, true, false)| + c.execErr)
  {
    var m1, m2 := Msg(WriteSuccess, true, true, false), Msg("", true, true, false);
    OutputMsgDelivered(c, reply, at, WriteSuccess, true, true, false);
    LineChunks(WriteSuccess);
    EmptyLineStops(c, reply, at + 3);
    RunPair(c, reply, at, m1, m2);
  }

  /** RingCmd_OutputError with a non-empty error writes only text. */
  lemma ErrorPlanTextOnly(err: string)
    requires err != []
    ensures TextOnly([Checked(ErrorPlan(err))])
  {
    MsgPlanTextOnly(ErrorPrefix, true, false, false);
    MsgPlanTextOnly(err, false, true, false);
    TextOnlyAppend([Msg(ErrorPrefix, true, false, false)], [Msg(err, false, true, false)]);
    TextOnlyChecked(ErrorPlan(err));
  }

  /** The usage block that ring_buf_init, RingCmd_Write and Ring_Read each
      repeat: two checked RingCmd_OutputMsg calls, then the byte count. */
  method OutputUsage(port: OutPort) returns (retVal: int)
    modifies port
    ensures var e := Run(port.codes, port.reply, |old(port.log)|, HelpPlan(), 0);
      port.log == old(port.log) + e.chunks && retVal == e.ret
  {
    retVal := OutputPair(port, HelpGet, true, true, false, HelpFormat, true, true, false);
  }

  /** Two checked RingCmd_OutputMsg calls, then the byte count. */
  method OutputPair(port: OutPort, msg1: string, nls1: bool, nle1: bool, tab1: bool,
                    msg2: string, nls2: bool, nle2: bool, tab2: bool) returns (retVal: int)
    modifies port
    ensures var e := Run(port.codes, port.reply, |old(port.log)|, [Msg(msg1, nls1, nle1, tab1), Msg(msg2, nls2, nle2, tab2)], 0);
      port.log == old(port.log) + e.chunks && retVal == e.ret
  {
    ghost var at := |port.log|;
    ghost var c, reply := port.codes, port.reply;
    RunPair(c, reply, at, Msg(msg1, nls1, nle1, tab1), Msg(msg2, nls2, nle2, tab2));
    ghost var e := Emission([], 0, true);
    var byteOutCnt := 0;
    retVal := OutputMsg(port, msg1, nls1, nle1, tab1);
    AppendAssoc(old(port.log), e.chunks, port.log[at..]);
    e := Check(c, e, RunOne(c, reply, at, Msg(msg1, nls1, nle1, tab1)));
    if IsOutFail(port.codes, retVal) {
      return port.codes.execErr;
    }
    byteOutCnt := byteOutCnt + retVal;
    ghost var mid := port.log;
    retVal := OutputMsg(port, msg2, nls2, nle2, tab2);
    AppendAssoc(old(port.log), e.chunks, port.log[|mid|..]);
    e := Check(c, e, RunOne(c, reply, at + |e.chunks|, Msg(msg2, nls2, nle2, tab2)));
    if IsOutFail(port.codes, retVal) {
      return port.codes.execErr;
    }
    byteOutCnt := byteOutCnt + retVal;
    retVal := byteOutCnt;
  }

  /** RingCmd_OutputError followed by the caller's check, then the byte count. */
  method ReportError(port: OutPort, err: string) returns (retVal: int)
    modifies port
    ensures var e := Run(port.codes, port.reply, |old(port.log)|, [Checked(ErrorPlan(err))], 0);
      port.log == old(port.log) + e.chunks && retVal == e.ret
  {
    ghost var at := |port.log|;
    RunSingle(port.codes, port.reply, at, Checked(ErrorPlan(err)), 0);
    var byteOutCnt := 0;
    retVal := OutputError(port, err);
    if IsOutFail(port.codes, retVal) {
      return port.codes.execErr;
    }
    byteOutCnt := byteOutCnt + retVal;
    retVal := byteOutCnt;
  }

  /** RingCmd_OutputMsg followed by the caller's check, then the byte count. */
  method ReportMsg(port: OutPort, msg: string) returns (retVal: int)
    modifies port
    ensures var e := Run(port.codes, port.reply, |old(port.log)|, [Msg(msg, true, true, false)], 0);
      port.log == old(port.log) + e.chunks && retVal == e.ret
  {
    ghost var at := |port.log|;
    RunSingle(port.codes, port.reply, at, Msg(msg, true, true, false), 0);
    var byteOutCnt := 0;
    retVal := OutputMsg(port, msg, true, true, false);
    if IsOutFail(port.codes, retVal) {
      return port.codes.execErr;
    }
    byteOutCnt := byteOutCnt + retVal;
    retVal := byteOutCnt;
  }

  /** RingCmd_Help: the command table listing. */
  method RingCmdHelp(port: OutPort, argv: seq<string>) returns (retVal: int)
    modifies port
    ensures var e := Run(port.codes, port.reply, |old(port.log)|, CmdTblPlan(Listed(RingCmdTbl)), 0);
      port.log == old(port.log) + e.chunks && retVal == e.ret
  {
    assert !RingCmdTbl[5].hasFnct;
    retVal := OutputCmdTbl(port, RingCmdTbl);
  }

  /** The statics of ringBuf_cmd.c: whether rxRing_buf was created, and the two
      counters of ring_test_dlist. */
  class RingCmds {
    var ringCreated: bool
    var testData: byte
    var testFlag: byte

    constructor ()
      ensures !ringCreated && testData == 0 && testFlag == 0
    {
      ringCreated := false;
      testData := 0;
      testFlag := 0;
    }

    /** ring_buf_init: EMPTY and SUCCESS create the ring buffer and report the
        outcome; INVALID_ARG reports the error; HELP prints the usage. */
    method RingBufInit(port: OutPort, argv: seq<string>, createOk: bool) returns (retVal: int)
      modifies this, port
      ensures var st := RingCmdArgParse(argv);
        var e := Run(port.codes, port.reply, |old(port.log)|, InitPlan(st, createOk), 0);
        && port.log == old(port.log) + e.chunks && retVal == e.ret
        && ringCreated == (if st == Empty || st == Success then createOk else old(ringCreated))
        && testData == old(testData) && testFlag == old(testFlag)
    {
      var parseStatus := RingCmdArgParse(argv);
      match parseStatus {
        case Empty | Success =>
          ringCreated := createOk;
          if !createOk {
            retVal := ReportError(port, CreateErr);
          } else {
            retVal := ReportMsg(port, CreateSuccess);
          }
        case InvalidArg =>
          retVal := ReportError(port, ErrArgInvalid);
        case Help =>
          retVal := OutputUsage(port);
      }
    }

    /** RingCmd_Write: SUCCESS reports the write (the buffer write itself is
        disabled, so it always succeeds); INVALID_ARG reports the error; EMPTY
        and HELP print the usage. */
    method RingCmdWrite(port: OutPort, argv: seq<string>) returns (retVal: int)
      modifies port
      ensures var e := Run(port.codes, port.reply, |old(port.log)|, WritePlan(RingCmdArgParse(argv)), 0);
        port.log == old(port.log) + e.chunks && retVal == e.ret
    {
      var parseStatus := RingCmdArgParse(argv);
      match parseStatus {
        case Success =>
          retVal := OutputPair(port, WriteSuccess, true, true, false, "", true, true, false);
        case InvalidArg =>
          retVal := ReportError(port, ErrArgInvalid);
        case Empty | Help =>
          retVal := OutputUsage(port);
      }
    }

    /** Ring_Read: SUCCESS says the command is unfinished; INVALID_ARG reports
        the error; EMPTY and HELP print the usage. */
    method RingRead(port: OutPort, argv: seq<string>) returns (retVal: int)
      modifies port
      ensures var e := Run(port.codes, port.reply, |old(port.log)|, ReadPlan(RingCmdArgParse(argv)), 0);
        port.log == old(port.log) + e.chunks && retVal == e.ret
    {
      var parseStatus := RingCmdArgParse(argv);
      match parseStatus {
        case Success =>
          retVal := ReportMsg(port, CmdUnfinished);
        case InvalidArg =>
          retVal := ReportError(port, ErrArgInvalid);
        case Empty | Help =>
          retVal := OutputUsage(port);
      }
    }

    /** ring_test_dlist: steps both counters, reports completion, returns 1
        whatever the output did. */
    method RingTestDlist(port: OutPort, argv: seq<string>) returns (retVal: int)
      modifies this, port
      ensures var e := Run(port.codes, port.reply, |old(port.log)|, TestPlan(), 0);
        port.log == old(port.log) + e.chunks
      ensures retVal == 1
      ensures testData == TestDataNext(old(testData)) && testFlag == TestFlagNext(old(testFlag))
      ensures ringCreated == old(ringCreated)
    {
      var parseStatus := RingCmdArgParse(argv);
      testData := (testData + 1) % 256;
      if testData > 100 {
        testData := 0;
      }
      testFlag := (testFlag + 1) % 256;
      testFlag := BitAnd1(testFlag);
      var r := ReportMsg(port, CmdExecuteSuccess);
      retVal := 1;
    }
  }

  /** `x & 1u` on an octet. */
  function BitAnd1(x: byte): (r: byte)
    ensures r == x % 2
  {
    ((x as bv8) & 1) as byte
  }

  /** `++Test_data` on an 8-bit char, reset to 0 once above 100. */
  function TestDataNext(d: byte): byte
  {
    var n := (d + 1) % 256;
    if n > 100 then 0 else n
  }

  /** `Test_Flag++` on an 8-bit char, then `Test_Flag &= 1u`. */
  function TestFlagNext(f: byte): byte
  {
    ((f + 1) % 256) % 2
  }

  /** The counters after n calls from their initial zeros. */
  function TestCounters(n: nat): (byte, byte)
  {
    if n == 0 then (0, 0)
    else var (d, f) := TestCounters(n - 1); (TestDataNext(d), TestFlagNext(f))
  }

  /** After n calls Test_data is n mod 101 (it counts 1..100 then wraps to 0)
      and Test_Flag is n mod 2 (it alternates). */
  lemma {:induction false} TestCountersCycle(n: nat)
    ensures TestCounters(n) == (n % 101, n % 2)
  {
    if n > 0 {
      TestCountersCycle(n - 1);
      ModSucc101(n - 1);
      ModSucc2(n - 1);
      assert TestDataNext((n - 1) % 101) == n % 101;
      assert TestFlagNext((n - 1) % 2) == n % 2;
      assert TestCounters(n) == (TestDataNext((n - 1) % 101), TestFlagNext((n - 1) % 2));
    }
  }

  lemma ModSucc2(m: nat)
    ensures (m + 1) % 2 == 1 - m % 2
  {
  }
}
