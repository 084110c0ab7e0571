// Shared vocabulary of the shell commands: bytes, optional values, the shape of
// one command-line argument and the four parse statuses that both argument
// parsers (ringBuf_cmd.c and ring_buf_test.c) return.
module ShellArgs {

  /** An 8-bit value: CPU_INT08U / uint8_t / an ARM `char`. */
  type byte = b: int | 0 <= b < 256

  datatype Option<T> = None | Some(value: T)

  /** The NUL character that ends a C string. */
  const Nul: byte := 0

  /** n NUL bytes: a buffer after Mem_Set(.., 0, n). */
  function Zeros(n: nat): seq<byte> {
    seq(n, _ => Nul)
  }

  /** STR_NEW_LINE and TERMINAL_NEW_LINE: carriage return, line feed. */
  const NewLine := "\r\n"

  /** RING_CMD_PARSE_STATUS / CLK_CMD_PARSE_STATUS (same four members, same order). */
  datatype ParseStatus = Success | Empty | InvalidArg | Help

  /** How a parser reads one argv entry: it does not start with '-', or it is a
      "--name" long option, or a "-name" short option. */
  datatype ArgForm = Positional | Long(name: string) | Short(name: string)

  /** The first character decides whether the argument is an option; the second
      whether it is a long one. A C string ends at its NUL, so an argument of
      length 0 or 1 has a NUL where the checks look beyond its end. */
  function Form(arg: string): (f: ArgForm)
    ensures f.Positional? <==> (|arg| == 0 || arg[0] != '-')
    ensures f.Long? ==> arg == "--" + f.name
    ensures f.Short? ==> arg == "-" + f.name && (f.name == [] || f.name[0] != '-')
  {
    if |arg| == 0 || arg[0] != '-' then Positional
    else if |arg| >= 2 && arg[1] == '-' then Long(arg[2..])
    else Short(arg[1..])
  }

  /** Index of the first argument at or after `i` (never before argv[1]) that is
      an option, or |argv| when there is none. */
  function FirstOption(argv: seq<string>, i: nat): (j: nat)
    requires i <= |argv|
    ensures i <= j <= |argv|
    ensures forall k :: i <= k < j ==> Form(argv[k]).Positional?
    ensures j < |argv| ==> !Form(argv[j]).Positional?
    decreases |argv| - i
  {
    if i == |argv| then i
    else if Form(argv[i]).Positional? then FirstOption(argv, i + 1)
    else i
  }

  /** One more call of a counter that cycles through 0..100. */
  lemma ModSucc101(n: nat)
    ensures (n + 1) % 101 == if n % 101 == 100 then 0 else n % 101 + 1
    ensures (n + 1) / 101 == if n % 101 == 100 then n / 101 + 1 else n / 101
  {
  }

  /** Concatenation is associative; called where the solver would otherwise
      have to find the regrouping itself. */
  lemma AppendAssoc<T>(a: seq<T>, b: seq<T>, c: seq<T>)
    ensures (a + b) + c == a + (b + c)
  {
  }

  lemma AppendEmptyLeft<T>(a: seq<T>)
    ensures [] + a == a
  {
  }
}
