// ring_buf_test.c: the clock-style argument parser ClkCmd_CmdArgParse, which
// fills a time type and up to three positional argument pointers, and the
// history listing command Terminal_fc, which walks the terminal's circular
// history from its first item, wrapping the index at the number of items.
module RingBufTest {
  import opened ShellArgs
  import opened ShellOutput

  // ---------------------------------------------------------------------------
  // ClkCmd_CmdArgParse
  // ---------------------------------------------------------------------------

  /** CLK_CMD_TIME_TYPE: NONE, DATETIME, NTP, UNIX. */
  datatype TimeType = NoType | DateTime | Ntp | Unix

  /** The format an option selects, or None when it selects no format. */
  function FormatOf(f: ArgForm): (t: Option<TimeType>)
    ensures t.Some? ==> !f.Positional? && t.value != NoType
    ensures f == Long("datetime") || f == Short("d") <==> t == Some(DateTime)
    ensures f == Long("ntp") || f == Short("n") <==> t == Some(Ntp)
    ensures f == Long("unix") || f == Short("u") <==> t == Some(Unix)
  {
    match f
    case Long(n) =>
      if n == "datetime" then Some(DateTime)
      else if n == "ntp" then Some(Ntp)
      else if n == "unix" then Some(Unix)
      else None
    case Short(n) =>
      if n == "d" then Some(DateTime)
      else if n == "n" then Some(Ntp)
      else if n == "u" then Some(Unix)
      else None
    case Positional => None
  }

  /** An option that ends the parse: any option that is not a format. */
  predicate Stops(f: ArgForm) {
    !f.Positional? && FormatOf(f).None?
  }

  /** Whether a stopping option asks for help ("--help" or "-h"). */
  predicate IsHelp(f: ArgForm) {
    f == Long("help") || f == Short("h")
  }

  /** What the parser leaves in CLK_CMD_ARG: the time type and the argv
      indices DatePtr, TimePtr and OffsetPtr point to (None: DEF_NULL). */
  datatype ClkFields = ClkFields(timeType: TimeType, datePtr: Option<nat>, timePtr: Option<nat>, offsetPtr: Option<nat>)

  /** The values set before any argument is looked at. */
  const Reset := ClkFields(NoType, None, None, None)

  /** The first index at or after i whose argument stops the parse, or |argv|. */
  function StopAt(argv: seq<string>, i: nat): (k: nat)
    requires i <= |argv|
    ensures i <= k <= |argv|
    ensures forall j :: i <= j < k ==> !Stops(Form(argv[j]))
    ensures k < |argv| ==> Stops(Form(argv[k]))
    decreases |argv| - i
  {
    if i == |argv| then i
    else if Stops(Form(argv[i])) then i
    else StopAt(argv, i + 1)
  }

  /** The indices in [i, j) of the positional arguments, in order. */
  function Positionals(argv: seq<string>, i: nat, j: nat): seq<nat>
    requires i <= j <= |argv|
    decreases j - i
  {
    if i == j then []
    else if Form(argv[j - 1]).Positional? then Positionals(argv, i, j - 1) + [j - 1]
    else Positionals(argv, i, j - 1)
  }

  /** Positionals lists only positional arguments of [i, j). */
  lemma {:induction false} PositionalsBounded(argv: seq<string>, i: nat, j: nat)
    requires i <= j <= |argv|
    ensures forall n :: 0 <= n < |Positionals(argv, i, j)| ==>
      i <= Positionals(argv, i, j)[n] < j && Form(argv[Positionals(argv, i, j)[n]]).Positional?
    decreases j - i
  {
    if i < j {
      PositionalsBounded(argv, i, j - 1);
      var p := Positionals(argv, i, j - 1);
      if Form(argv[j - 1]).Positional? {
        var q := p + [j - 1];
        assert Positionals(argv, i, j) == q;
        forall n | 0 <= n < |q|
          ensures i <= q[n] < j && Form(argv[q[n]]).Positional?
        {
          if n < |p| {
            assert q[n] == p[n];
          } else {
            assert q[n] == j - 1;
          }
        }
      }
    }
  }

  /** Positionals lists its indices in increasing order. */
  lemma {:induction false} PositionalsIncreasing(argv: seq<string>, i: nat, j: nat)
    requires i <= j <= |argv|
    ensures forall n, m :: 0 <= n < m < |Positionals(argv, i, j)| ==>
      Positionals(argv, i, j)[n] < Positionals(argv, i, j)[m]
    decreases j - i
  {
    if i < j {
      PositionalsIncreasing(argv, i, j - 1);
      PositionalsBounded(argv, i, j - 1);
      var p := Positionals(argv, i, j - 1);
      if Form(argv[j - 1]).Positional? {
        var q := p + [j - 1];
        assert Positionals(argv, i, j) == q;
        forall n, m | 0 <= n < m < |q|
          ensures q[n] < q[m]
        {
          assert q[n] == p[n];
          if m < |p| {
            assert q[m] == p[m];
          }
        }
      }
    }
  }

  /** Positionals lists every positional argument of [i, j). */
  lemma {:induction false} PositionalsComplete(argv: seq<string>, i: nat, j: nat)
    requires i <= j <= |argv|
    ensures forall k :: i <= k < j && Form(argv[k]).Positional? ==> k in Positionals(argv, i, j)
    decreases j - i
  {
    if i < j {
      PositionalsComplete(argv, i, j - 1);
      var p := Positionals(argv, i, j - 1);
      if Form(argv[j - 1]).Positional? {
        var q := p + [j - 1];
        assert Positionals(argv, i, j) == q;
        forall k | i <= k < j && Form(argv[k]).Positional?
          ensures k in q
        {
          if k < j - 1 {
            assert k in p;
          } else {
            assert q[|p|] == k;
          }
        }
      }
    }
  }

  /** The format of the last format option in [i, j), NONE when there is none. */
  function LastFormat(argv: seq<string>, i: nat, j: nat): TimeType
    requires i <= j <= |argv|
    decreases j - i
  {
    if i == j then NoType
    else if FormatOf(Form(argv[j - 1])).Some? then FormatOf(Form(argv[j - 1])).value
    else LastFormat(argv, i, j - 1)
  }

  /** LastFormat is NONE exactly when [i, j) holds no format option. */
  lemma {:induction false} LastFormatNone(argv: seq<string>, i: nat, j: nat)
    requires i <= j <= |argv|
    ensures LastFormat(argv, i, j) == NoType <==> forall k :: i <= k < j ==> FormatOf(Form(argv[k])).None?
    decreases j - i
  {
    if i < j {
      LastFormatNone(argv, i, j - 1);
    }
  }

  /** Otherwise it is the format of an option that no later format option
      follows: the last format given wins. */
  lemma {:induction false} LastFormatWins(argv: seq<string>, i: nat, j: nat)
    requires i <= j <= |argv| && LastFormat(argv, i, j) != NoType
    ensures exists k ::
              && i <= k < j && FormatOf(Form(argv[k])) == Some(LastFormat(argv, i, j))
              && (forall m :: k < m < j ==> FormatOf(Form(argv[m])).None?)
    decreases j - i
  {
    var t := LastFormat(argv, i, j);
    if FormatOf(Form(argv[j - 1])).Some? {
      assert FormatOf(Form(argv[j - 1])) == Some(t);
    } else {
      LastFormatWins(argv, i, j - 1);
      var k :| i <= k < j - 1 && FormatOf(Form(argv[k])) == Some(t)
        && (forall m :: k < m < j - 1 ==> FormatOf(Form(argv[m])).None?);
      assert forall m :: k < m < j ==> FormatOf(Form(argv[m])).None?;
    }
  }

  function Nth(p: seq<nat>, n: nat): Option<nat>
  {
    if n < |p| then Some(p[n]) else None
  }

  /** The fields after reading argv[1..j]: the last format wins; the first,
      second and third positional arguments give the three pointers, and any
      later positional argument is ignored. */
  function FieldsUpTo(argv: seq<string>, j: nat): ClkFields
    requires 1 <= j <= |argv|
  {
    var p := Positionals(argv, 1, j);
    ClkFields(LastFormat(argv, 1, j), Nth(p, 0), Nth(p, 1), Nth(p, 2))
  }

  /** The parse as a whole, stated without the loop: argc == 1 is EMPTY with
      the fields reset; otherwise the first option that is not a format ends
      the parse as HELP or INVALID_ARG, and with no such option the result is
      SUCCESS; the fields are those of the arguments before that point. */
  function ClkParse(argv: seq<string>): (ParseStatus, ClkFields)
  {
    if |argv| == 0 then (Success, Reset)
    else if |argv| == 1 then (Empty, Reset)
    else
      var k := StopAt(argv, 1);
      var st := if k == |argv| then Success else if IsHelp(Form(argv[k])) then Help else InvalidArg;
      (st, FieldsUpTo(argv, k))
  }

  /** CLK_CMD_ARG, written in place by the parser. */
  class ClkCmdArg {
    var timeType: TimeType
    var datePtr: Option<nat>
    var timePtr: Option<nat>
    var offsetPtr: Option<nat>

    constructor ()
      ensures Fields() == Reset
    {
      timeType, datePtr, timePtr, offsetPtr := NoType, None, None, None;
    }

    function Fields(): ClkFields
      reads this
    {
      ClkFields(timeType, datePtr, timePtr, offsetPtr)
    }
  }

  /** A format option before the stopping point sets the time type. */
  lemma FieldsStepFormat(argv: seq<string>, i: nat, t: TimeType)
    requires 1 <= i < |argv| && FormatOf(Form(argv[i])) == Some(t)
    ensures FieldsUpTo(argv, i + 1) == FieldsUpTo(argv, i).(timeType := t)
    ensures |Positionals(argv, 1, i + 1)| == |Positionals(argv, 1, i)|
  {
  }

  /** A positional argument fills the next of the three pointers, if any. */
  lemma FieldsStepPositional(argv: seq<string>, i: nat)
    requires 1 <= i < |argv| && Form(argv[i]).Positional?
    ensures var f, n := FieldsUpTo(argv, i), |Positionals(argv, 1, i)|;
      FieldsUpTo(argv, i + 1) ==
        (if n == 0 then f.(datePtr := Some(i))
         else if n == 1 then f.(timePtr := Some(i))
         else if n == 2 then f.(offsetPtr := Some(i))
         else f)
    ensures |Positionals(argv, 1, i + 1)| == |Positionals(argv, 1, i)| + 1
  {
    var p := Positionals(argv, 1, i);
    var q := p + [i];
    assert Positionals(argv, 1, i + 1) == q;
    assert forall n :: 0 <= n < |p| ==> Nth(q, n) == Nth(p, n);
  }

  /** ClkCmd_CmdArgParse: resets the fields, returns EMPTY for argc == 1, then
      reads argv[1..]: a format option sets the time type, "--help"/"-h"
      returns HELP, any other option INVALID_ARG, and each non-option fills
      the next of DatePtr, TimePtr, OffsetPtr; SUCCESS at the end. */
  method ClkCmdArgParse(argv: seq<string>, args: ClkCmdArg) returns (status: ParseStatus)
    modifies args
    ensures (status, args.Fields()) == ClkParse(argv)
  {
    var argCaught := 0;
    args.timeType := NoType;
    args.datePtr := None;
    args.timePtr := None;
    args.offsetPtr := None;
    if |argv| == 1 {
      return Empty;
    }
    if |argv| == 0 {
      return Success;
    }
    ghost var k := StopAt(argv, 1);
    var i := 1;
    while i < |argv|
      invariant 1 <= i <= k
      invariant args.Fields() == FieldsUpTo(argv, i)
      invariant argCaught == |Positionals(argv, 1, i)|
    {
      var form := Form(argv[i]);
      match form {
        case Long(name) =>
          if name == "datetime" {
            FieldsStepFormat(argv, i, DateTime);
            args.timeType := DateTime;
          } else if name == "ntp" {
            FieldsStepFormat(argv, i, Ntp);
            args.timeType := Ntp;
          } else if name == "unix" {
            FieldsStepFormat(argv, i, Unix);
            args.timeType := Unix;
          } else if name == "help" {
            return Help;
          } else {
            return InvalidArg;
          }
        case Short(name) =>
          if name == "d" {
            FieldsStepFormat(argv, i, DateTime);
            args.timeType := DateTime;
          } else if name == "n" {
            FieldsStepFormat(argv, i, Ntp);
            args.timeType := Ntp;
          } else if name == "u" {
            FieldsStepFormat(argv, i, Unix);
            args.timeType := Unix;
          } else if name == "h" {
            return Help;
          } else {
            return InvalidArg;
          }
        case Positional =>
          FieldsStepPositional(argv, i);
          if argCaught == 0 {
            args.datePtr := Some(i);
          } else if argCaught == 1 {
            args.timePtr := Some(i);
          } else if argCaught == 2 {
            args.offsetPtr := Some(i);
          }
          argCaught := argCaught + 1;
      }
      i := i + 1;
    }
    return Success;
  }

  /** EMPTY exactly for argc == 1, and then every field is reset. */
  lemma ClkEmptyIffSingle(argv: seq<string>)
    ensures ClkParse(argv).0 == Empty <==> |argv| == 1
    ensures |argv| == 1 ==> ClkParse(argv).1 == Reset
  {
  }

  /** HELP or INVALID_ARG is decided by the first option that is not a format;
      the pointers set before it stay set. */
  lemma ClkStopsAtFirstNonFormat(argv: seq<string>, k: nat)
    requires 1 <= k < |argv|
    requires Stops(Form(argv[k]))
    requires forall j :: 1 <= j < k ==> !Stops(Form(argv[j]))
    ensures ClkParse(argv).0 == (if IsHelp(Form(argv[k])) then Help else InvalidArg)
    ensures ClkParse(argv).1 == FieldsUpTo(argv, k)
  {
    StopAtFirst(argv, 1, k);
  }

  /** Nothing after the stopping option is read. */
  lemma ClkIgnoresAfterStop(argv: seq<string>, k: nat, rest: seq<string>)
    requires 1 <= k < |argv|
    requires Stops(Form(argv[k]))
    requires forall j :: 1 <= j < k ==> !Stops(Form(argv[j]))
    ensures ClkParse(argv[..k + 1] + rest) == ClkParse(argv)
  {
    var b := argv[..k + 1] + rest;
    assert forall j :: 0 <= j <= k ==> b[j] == argv[j];
    StopAtFirst(argv, 1, k);
    StopAtFirst(b, 1, k);
    FieldsUpToPrefix(argv, b, k);
  }

  /** StopAt finds the given first stopping index. */
  lemma {:induction false} StopAtFirst(argv: seq<string>, i: nat, k: nat)
    requires i <= k < |argv|
    requires Stops(Form(argv[k]))
    requires forall j :: i <= j < k ==> !Stops(Form(argv[j]))
    ensures StopAt(argv, i) == k
    decreases k - i
  {
    if i < k {
      StopAtFirst(argv, i + 1, k);
    }
  }

  /** The fields depend only on the arguments before the point they are read to. */
  lemma {:induction false} FieldsUpToPrefix(a: seq<string>, b: seq<string>, j: nat)
    requires 1 <= j <= |a| && j <= |b|
    requires forall n :: 0 <= n < j ==> a[n] == b[n]
    ensures FieldsUpTo(a, j) == FieldsUpTo(b, j)
  {
    PositionalsPrefix(a, b, j);
    LastFormatPrefix(a, b, j);
  }

  lemma {:induction false} PositionalsPrefix(a: seq<string>, b: seq<string>, j: nat)
    requires 1 <= j <= |a| && j <= |b|
    requires forall n :: 0 <= n < j ==> a[n] == b[n]
    ensures Positionals(a, 1, j) == Positionals(b, 1, j)
    decreases j
  {
    if j > 1 {
      PositionalsPrefix(a, b, j - 1);
    }
  }

  lemma {:induction false} LastFormatPrefix(a: seq<string>, b: seq<string>, j: nat)
    requires 1 <= j <= |a| && j <= |b|
    requires forall n :: 0 <= n < j ==> a[n] == b[n]
    ensures LastFormat(a, 1, j) == LastFormat(b, 1, j)
    decreases j
  {
    if j > 1 {
      LastFormatPrefix(a, b, j - 1);
    }
  }

  /** With no stopping option the parse succeeds; the time type is the format
      of the last format option, and a fourth or later positional argument
      changes nothing. */
  lemma ClkSuccessFields(argv: seq<string>)
    requires |argv| >= 2
    requires forall j :: 1 <= j < |argv| ==> !Stops(Form(argv[j]))
    ensures ClkParse(argv).0 == Success
    ensures var p := Positionals(argv, 1, |argv|);
      ClkParse(argv).1 == ClkFields(LastFormat(argv, 1, |argv|), Nth(p, 0), Nth(p, 1), Nth(p, 2))
    ensures Form(argv[|argv| - 1]).Positional? && |Positionals(argv, 1, |argv| - 1)| >= 3 ==>
      ClkParse(argv) == ClkParse(argv[..|argv| - 1])
  {
    var n := |argv|;
    if Form(argv[n - 1]).Positional? && |Positionals(argv, 1, n - 1)| >= 3 {
      var a := argv[..n - 1];
      assert forall j :: 0 <= j < n - 1 ==> a[j] == argv[j];
      PositionalsPrefix(argv, a, n - 1);
      LastFormatPrefix(argv, a, n - 1);
      StopAtNone(a, 1);
      StopAtNone(argv, 1);
    } else {
      StopAtNone(argv, 1);
    }
  }

  lemma {:induction false} StopAtNone(argv: seq<string>, i: nat)
    requires i <= |argv|
    requires forall j :: i <= j < |argv| ==> !Stops(Form(argv[j]))
    ensures StopAt(argv, i) == |argv|
    decreases |argv| - i
  {
    if i < |argv| {
      StopAtNone(argv, i + 1);
    }
  }

  // ---------------------------------------------------------------------------
  // Terminal_fc
  // ---------------------------------------------------------------------------

  const StrHelp := "-h"
  const ArgErrFc := "Term_fc: usage: Term_fc"
  const CmdExpFc := "                List terminal history items."
  const Gap := "     "

  /** CPU_INT16U arithmetic. */
  const Word := 65536

  /** The terminal history Terminal_fc reads: the items (as C strings), the
      indices of the first and last item, the empty flag and the running count
      of items ever stored. The number of items is |items|. */
  datatype History = History(items: seq<string>, ixFirst: nat, ixLast: nat, empty: bool, cnt: nat)

  /** What the history keeps true between updates: indices within the items,
      the count within CPU_INT16U. */
  predicate HistoryValid(h: History) {
    0 < |h.items| < Word && h.ixFirst < |h.items| && h.ixLast < |h.items| && h.cnt < Word
  }

  /** Number of items to list: last - first + 1 when last >= first, else all. */
  function HistoryQty(h: History): (q: nat)
    requires HistoryValid(h)
    ensures 1 <= q <= |h.items|
  {
    if h.ixLast >= h.ixFirst then h.ixLast - h.ixFirst + 1 else |h.items|
  }

  /** The history index of the k-th listed item: from the first, wrapping to
      0 at the number of items. */
  function ItemIx(h: History, k: nat): (ix: nat)
    requires HistoryValid(h) && k <= |h.items|
    ensures ix < |h.items|
  {
    if h.ixFirst + k < |h.items| then h.ixFirst + k else h.ixFirst + k - |h.items|
  }

  /** The position in the listing of history slot ix: the inverse of ItemIx. */
  function ListPos(h: History, ix: nat): (k: nat)
    requires HistoryValid(h) && ix < |h.items|
    ensures k < |h.items| && ItemIx(h, k) == ix
  {
    if ix >= h.ixFirst then ix - h.ixFirst else ix + |h.items| - h.ixFirst
  }

  /** The number printed before the k-th listed item: the count minus the
      quantity plus k, in CPU_INT16U. */
  function ItemNbr(h: History, k: nat): (n: nat)
    requires HistoryValid(h)
    ensures n < Word
  {
    (h.cnt - HistoryQty(h) + k) % Word
  }

  /** Decimal digits of n, most significant first, no leading zero. */
  function Decimal(n: nat): (s: string)
    ensures 1 <= |s|
    ensures n < 10 ==> |s| == 1
    ensures n < 100 ==> |s| <= 2
    ensures n < 1000 ==> |s| <= 3
    ensures n < 10000 ==> |s| <= 4
    ensures n < 100000 ==> |s| <= 5
  {
    if n < 10 then [Digit(n)] else Decimal(n / 10) + [Digit(n % 10)]
  }

  function Digit(d: nat): (c: char)
    requires d < 10
    ensures '0' <= c <= '9' && c as int - '0' as int == d
  {
    ('0' as int + d) as char
  }

  predicate IsDigits(s: string) {
    forall i :: 0 <= i < |s| ==> '0' <= s[i] <= '9'
  }

  /** The number a string of digits spells. */
  function DecValue(s: string): nat
    requires IsDigits(s)
  {
    if s == [] then 0 else DecValue(s[..|s| - 1]) * 10 + (s[|s| - 1] as int - '0' as int)
  }

  /** Decimal writes only digits, with no leading zero, and spells n back. */
  lemma {:induction false} DecimalSpec(n: nat)
    ensures IsDigits(Decimal(n))
    ensures n >= 10 ==> Decimal(n)[0] != '0'
    ensures DecValue(Decimal(n)) == n
  {
    if n >= 10 {
      DecimalSpec(n / 10);
      var s, c := Decimal(n / 10), Digit(n % 10);
      assert (s + [c])[..|s|] == s;
    }
  }

  /** Str_FmtNbr_Int32U(n, 7, DEF_NBR_BASE_DEC, ' ', ...): n in decimal,
      right-aligned in seven characters, space-filled. */
  function NbrField(n: nat): (s: string)
    requires n < Word
    ensures |s| == 7
  {
    seq(7 - |Decimal(n)|, _ => ' ') + Decimal(n)
  }

  /** The field is spaces, then the decimal digits of n. */
  lemma NbrFieldSpec(n: nat)
    requires n < Word
    ensures var s, d := NbrField(n), Decimal(n);
      && s[7 - |d|..] == d && IsDigits(d) && DecValue(d) == n
      && (forall i :: 0 <= i < 7 - |d| ==> s[i] == ' ')
  {
    DecimalSpec(n);
  }

  /** The four calls listing the k-th item. */
  function Entry(h: History, k: nat): seq<string>
    requires HistoryValid(h) && k < |h.items|
  {
    [NbrField(ItemNbr(h, k)), Gap, h.items[ItemIx(h, k)], NewLine]
  }

  /** The calls listing the first k items. */
  function Listing(h: History, k: nat): seq<string>
    requires HistoryValid(h) && k <= |h.items|
    decreases k
  {
    if k == 0 then [] else Listing(h, k - 1) + Entry(h, k - 1)
  }

  /** The listing of k items is 4 * k calls long. */
  lemma {:induction false} ListingLength(h: History, k: nat)
    requires HistoryValid(h) && k <= |h.items|
    ensures |Listing(h, k)| == 4 * k
    decreases k
  {
    if k > 0 {
      ListingLength(h, k - 1);
    }
  }

  /** The j-th group of four calls lists the j-th item. */
  lemma {:induction false} ListingEntry(h: History, k: nat, j: nat)
    requires HistoryValid(h) && j < k <= |h.items|
    ensures |Listing(h, k)| == 4 * k
    ensures Listing(h, k)[4 * j..4 * j + 4] == Entry(h, j)
    decreases k
  {
    ListingLength(h, k);
    ListingLength(h, k - 1);
    if j < k - 1 {
      ListingEntry(h, k - 1, j);
      assert Listing(h, k)[..4 * (k - 1)] == Listing(h, k - 1);
    }
  }

  /** What Terminal_fc writes and returns: "-h" as the only argument prints the
      usage and succeeds; any other argument count but one prints the usage
      error and fails; an empty history lists nothing; otherwise every item
      is listed. The callback's return values are ignored. */
  function FcPlan(argv: seq<string>, h: History, c: Codes): (r: (seq<string>, int))
    requires HistoryValid(h)
  {
    if |argv| == 2 && argv[1] == StrHelp then ([ArgErrFc, NewLine, CmdExpFc, NewLine], c.errNone)
    else if |argv| != 1 then ([ArgErrFc, NewLine], c.execErr)
    else if h.empty then ([], c.errNone)
    else (Listing(h, HistoryQty(h)), c.errNone)
  }

  /** The listing loop of Terminal_fc: each item from the first, with its
      number, wrapping the index to 0 at the number of items. */
  method ListHistory(port: OutPort, h: History)
    requires HistoryValid(h)
    modifies port
    ensures port.log == old(port.log) + Listing(h, HistoryQty(h))
  {
    var v;
    var historyQty;
    if h.ixLast >= h.ixFirst {
      historyQty := h.ixLast - h.ixFirst + 1;
    } else {
      historyQty := |h.items|;
    }
    var historyCnt := (h.cnt - historyQty) % Word;
    var historyIx := h.ixFirst;
    var i := 0;
    while i < historyQty
      invariant 0 <= i <= historyQty && historyQty == HistoryQty(h)
      invariant historyIx == ItemIx(h, i) && historyCnt == ItemNbr(h, i)
      invariant port.log == old(port.log) + Listing(h, i)
    {
      ghost var before := port.log;
      ItemStep(h, i);
      var nbrStr := NbrField(historyCnt);
      v := port.Out(nbrStr);
      v := port.Out(Gap);
      v := port.Out(h.items[historyIx]);
      v := port.Out(NewLine);
      ListingStep(h, i, old(port.log), before, nbrStr, h.items[historyIx]);
      historyCnt := (historyCnt + 1) % Word;
      historyIx := historyIx + 1;
      if historyIx == |h.items| {
        historyIx := 0;
      }
      assert historyIx == ItemIx(h, i + 1);
      i := i + 1;
    }
  }

  /** Terminal_fc. */
  method TerminalFc(argv: seq<string>, port: OutPort, h: History) returns (ret: int)
    requires HistoryValid(h)
    modifies port
    ensures port.log == old(port.log) + FcPlan(argv, h, port.codes).0
    ensures ret == FcPlan(argv, h, port.codes).1
  {
    var v;
    if |argv| == 2 {
      if argv[1] == StrHelp {
        v := port.Out(ArgErrFc);
        v := port.Out(NewLine);
        v := port.Out(CmdExpFc);
        v := port.Out(NewLine);
        return port.codes.errNone;
      }
    }
    if |argv| != 1 {
      v := port.Out(ArgErrFc);
      v := port.Out(NewLine);
      return port.codes.execErr;
    }
    if h.empty {
      return port.codes.errNone;
    }
    ListHistory(port, h);
    return port.codes.errNone;
  }

  /** One step of the listing: the index moves on by one, wrapping to 0 at the
      number of items, and the number by one in CPU_INT16U. */
  lemma ItemStep(h: History, i: nat)
    requires HistoryValid(h) && i < |h.items|
    ensures ItemIx(h, i + 1) == if ItemIx(h, i) + 1 == |h.items| then 0 else ItemIx(h, i) + 1
    ensures ItemNbr(h, i + 1) == (ItemNbr(h, i) + 1) % Word
  {
    ModSuccWord(h.cnt - HistoryQty(h) + i);
  }

  lemma ModSuccWord(x: int)
    ensures (x % Word + 1) % Word == (x + 1) % Word
  {
  }

  /** The four calls for the i-th item extend the listing by one entry. */
  lemma ListingStep(h: History, i: nat, start: seq<string>, before: seq<string>, nbr: string, item: string)
    requires HistoryValid(h) && i < |h.items|
    requires before == start + Listing(h, i)
    requires nbr == NbrField(ItemNbr(h, i)) && item == h.items[ItemIx(h, i)]
    ensures before + [nbr] + [Gap] + [item] + [NewLine] == start + Listing(h, i + 1)
  {
    assert before + [nbr] + [Gap] + [item] + [NewLine] == before + Entry(h, i);
    AppendAssoc(start, Listing(h, i), Entry(h, i));
  }

  /** With last >= first the listing visits first..last in order, without
      wrapping; otherwise it visits every slot of the history, each once. */
  lemma ListingVisits(h: History)
    requires HistoryValid(h)
    ensures h.ixLast >= h.ixFirst ==>
      forall k :: 0 <= k < HistoryQty(h) ==> ItemIx(h, k) == h.ixFirst + k
    ensures h.ixLast < h.ixFirst ==>
      HistoryQty(h) == |h.items| && forall ix :: 0 <= ix < |h.items| ==> ListPos(h, ix) < HistoryQty(h)
    ensures forall k, m :: 0 <= k < m < HistoryQty(h) ==> ItemIx(h, k) != ItemIx(h, m)
  {
  }

  /** The numbers printed are consecutive, ending at the running count. */
  lemma ListingNumbers(h: History, k: nat)
    requires HistoryValid(h) && k < HistoryQty(h)
    ensures k + 1 < HistoryQty(h) ==> ItemNbr(h, k + 1) == (ItemNbr(h, k) + 1) % Word
    ensures (ItemNbr(h, HistoryQty(h) - 1) + 1) % Word == h.cnt
  {
  }
}
