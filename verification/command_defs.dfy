/** Option type used for the nullable pointers of the command front end. */
module Wrappers {

  /** `None` stands for a NULL pointer, `Some(v)` for a pointer to `v`. */
  datatype Option<+T> = None | Some(value: T)
}

/**
 The types and constants of `Inc/command.h`: the line-slot record, the
 capacity constants, the version text and the servo channel indices, plus the
 byte and message constants `Src/command.c` works with.
 */
module CommandDefs {
  import opened Wrappers

  /** One byte of the serial stream, kept as a character below 256 so that
      messages can be written as string literals. */
  type Byte = c: char | c as int < 256 witness '\0'

  const NUL: Byte := '\0'
  const CR: Byte := '\r'
  const BS: Byte := '\U{0008}'
  const SP: Byte := ' '
  const TAB: Byte := '\t'

  /** Longest line a slot stores, not counting its terminator. */
  const MAX_COMMAND_LENGTH: nat := 127
  /** Number of line slots in the ring. */
  const MAX_CMD_BUF_COUNT: nat := 3
  /** Size of a slot's byte buffer: the longest line plus its terminator. */
  const BUFFER_SIZE: nat := MAX_COMMAND_LENGTH + 1

  const VERSION_STR: string := "ServoLifter version 0.1"
  const MSG_CRLF: string := "\r\n"
  const MSG_EMPTY_ARGUMENT: string := "Empty argument.\r\n"
  const MSG_SYNTAX_ERROR: string := "SYNTAX ERROR\r\n"
  const MSG_HELP: string := "Show command help.\r\n"
  /** What a backspace echoes: step back, blank the cell, step back. */
  const MSG_ERASE: string := "\U{0008} \U{0008}"

  /** The four static handlers a command name can be bound to. */
  datatype Handler = CmdVersion | CmdPutOn | CmdTakeOff | CmdHelp

  /** One line slot (`CommandBufferDef`): the stored length, the byte buffer,
      the verb length, the argument position (NULL when absent) and the bound
      handler (NULL until the line is resolved). */
  datatype CommandLine = CommandLine(
    length: nat,
    buffer: seq<Byte>,
    cmdLength: nat,
    arg: Option<nat>,
    func: Option<Handler>)

  /** A slot whose buffer has the declared size and whose length is in range. */
  predicate WellFormed(line: CommandLine) {
    |line.buffer| == BUFFER_SIZE && line.length <= MAX_COMMAND_LENGTH
  }

  /** Writes the NUL terminator after the stored bytes. */
  function Terminate(line: CommandLine): (r: CommandLine)
    requires WellFormed(line)
    ensures WellFormed(r) && r.length == line.length
    ensures r.buffer[line.length] == NUL
    ensures forall j :: 0 <= j < |r.buffer| && j != line.length ==> r.buffer[j] == line.buffer[j]
    ensures r.cmdLength == line.cmdLength && r.arg == line.arg && r.func == line.func
  {
    line.(buffer := line.buffer[line.length := NUL])
  }

  /** The concatenation of an output log, as the operator sees it. */
  function Flatten(out: seq<string>): string
  {
    if |out| == 0 then [] else Flatten(out[..|out| - 1]) + out[|out| - 1]
  }

  /** What two logs show in turn is what their concatenation shows. */
  lemma {:induction false} FlattenAppend(out: seq<string>, more: seq<string>)
    ensures Flatten(out + more) == Flatten(out) + Flatten(more)
    decreases |more|
  {
    if |more| > 0 {
      assert (out + more)[..|out + more| - 1] == out + more[..|more| - 1];
      FlattenAppend(out, more[..|more| - 1]);
    } else {
      assert out + more == out;
    }
  }

  /** The card-position channels A to E. */
  datatype ServoIndex = IndexA | IndexB | IndexC | IndexD | IndexE

  /** The enumerator's numeric value. */
  function IndexValue(i: ServoIndex): nat
  {
    match i
    case IndexA => 0
    case IndexB => 1
    case IndexC => 2
    case IndexD => 3
    case IndexE => 4
  }

  /** The channel a number names, if any. */
  function IndexOf(n: nat): (r: Option<ServoIndex>)
    ensures r.Some? <==> n < 5
  {
    if n == 0 then Some(IndexA)
    else if n == 1 then Some(IndexB)
    else if n == 2 then Some(IndexC)
    else if n == 3 then Some(IndexD)
    else if n == 4 then Some(IndexE)
    else None
  }

  /** The five channels take the consecutive values 0 to 4, in order, and
      the numbering is a bijection between them and 0..4. */
  lemma ServoIndexConsecutive()
    ensures IndexValue(IndexA) == 0
    ensures forall i: ServoIndex :: IndexValue(i) < 5 && IndexOf(IndexValue(i)) == Some(i)
    ensures forall n: nat :: n < 5 ==> IndexOf(n).Some? && IndexValue(IndexOf(n).value) == n
    ensures IndexValue(IndexB) == IndexValue(IndexA) + 1 && IndexValue(IndexC) == IndexValue(IndexB) + 1
    ensures IndexValue(IndexD) == IndexValue(IndexC) + 1 && IndexValue(IndexE) == IndexValue(IndexD) + 1
  {
  }

  /** The slot buffer leaves room for the terminator after the longest line. */
  lemma TerminatorFits(line: CommandLine)
    requires WellFormed(line)
    ensures line.length < |line.buffer|
    ensures BUFFER_SIZE == MAX_COMMAND_LENGTH + 1
  {
  }
}
