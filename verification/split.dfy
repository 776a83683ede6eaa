/**
 `SplitArg` of `Src/command.c`: cut a slot's buffer into a verb (the bytes
 before the first terminator, space or tab) and an optional argument (the
 first byte after the verb that is neither space nor tab).
 */
module Split {
  import opened Wrappers
  import opened CommandDefs
  import opened CString

  /** The verb length and the argument position (`None` for a NULL `Arg`). */
  datatype SplitResult = SplitResult(cmdLength: nat, arg: Option<nat>)

  predicate IsBlank(c: Byte) {
    c == SP || c == TAB
  }

  /** A byte that ends the verb. */
  predicate IsDelimiter(c: Byte) {
    c == NUL || IsBlank(c)
  }

  /** The first scan: from index `i`, the index of the first delimiter,
      looking no further than `MAX_COMMAND_LENGTH`. */
  function ScanVerb(buf: seq<Byte>, i: nat): (r: nat)
    requires |buf| == BUFFER_SIZE && i <= MAX_COMMAND_LENGTH
    ensures i <= r <= MAX_COMMAND_LENGTH
    ensures forall j :: i <= j < r ==> !IsDelimiter(buf[j])
    ensures r == MAX_COMMAND_LENGTH || IsDelimiter(buf[r])
    decreases MAX_COMMAND_LENGTH - i
  {
    if i == MAX_COMMAND_LENGTH || IsDelimiter(buf[i]) then i
    else ScanVerb(buf, i + 1)
  }

  /** The second scan: step forward from `p` and stop at the first byte that
      is not blank; running into the end of the scan window gives `None`. */
  function ScanArg(buf: seq<Byte>, p: nat): (r: Option<nat>)
    requires |buf| == BUFFER_SIZE && p <= MAX_COMMAND_LENGTH
    ensures r.None? <==> forall j :: p < j <= MAX_COMMAND_LENGTH ==> IsBlank(buf[j])
    ensures r.Some? ==> p < r.value <= MAX_COMMAND_LENGTH && !IsBlank(buf[r.value])
    ensures r.Some? ==> forall j :: p < j < r.value ==> IsBlank(buf[j])
    decreases MAX_COMMAND_LENGTH - p
  {
    if p == MAX_COMMAND_LENGTH then None
    else if !IsBlank(buf[p + 1]) then Some(p + 1)
    else ScanArg(buf, p + 1)
  }

  /** The verb is the longest delimiter-free run at the start of the buffer
      (capped at `MAX_COMMAND_LENGTH`); an argument is looked for only when
      the verb is not followed by the terminator, and it is the first
      non-blank byte after the verb. */
  function SplitArg(buf: seq<Byte>): (r: SplitResult)
    requires |buf| == BUFFER_SIZE
    ensures r.cmdLength <= MAX_COMMAND_LENGTH
    ensures NoNul(buf[..r.cmdLength])
    ensures forall j :: 0 <= j < r.cmdLength ==> !IsBlank(buf[j])
    ensures r.cmdLength == MAX_COMMAND_LENGTH || IsDelimiter(buf[r.cmdLength])
    ensures r.arg.None? <==>
      (r.cmdLength == MAX_COMMAND_LENGTH || buf[r.cmdLength] == NUL ||
       forall j :: r.cmdLength < j <= MAX_COMMAND_LENGTH ==> IsBlank(buf[j]))
    ensures r.arg.Some? ==>
      r.cmdLength < r.arg.value <= MAX_COMMAND_LENGTH && !IsBlank(buf[r.arg.value]) &&
      forall j :: r.cmdLength < j < r.arg.value ==> IsBlank(buf[j])
  {
    var n := ScanVerb(buf, 0);
    SplitResult(n, if buf[n] != NUL then ScanArg(buf, n) else None)
  }

  /** For a line terminated at `len`, the verb ends at or before the
      terminator, there is no argument exactly when the verb is followed
      directly by the terminator, and an argument found lies within the line
      (it may be the terminator itself, an empty argument). */
  lemma SplitTerminated(buf: seq<Byte>, len: nat)
    requires |buf| == BUFFER_SIZE && len <= MAX_COMMAND_LENGTH && buf[len] == NUL
    ensures SplitArg(buf).cmdLength <= len
    ensures SplitArg(buf).arg.None? <==> buf[SplitArg(buf).cmdLength] == NUL
    ensures SplitArg(buf).arg.Some? ==> SplitArg(buf).arg.value <= len
  {
  }
}
