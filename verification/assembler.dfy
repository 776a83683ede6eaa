/**
 `ParseInputChars` of `Src/command.c`: the line assembler. It consumes a
 chunk of received bytes, edits the current line slot, echoes, and on a
 carriage return resolves the line and rotates the three-slot ring.
 */
module Assembler {
  import opened Wrappers
  import opened CommandDefs
  import opened CString
  import opened Split
  import opened Resolver
  import opened Commands

  /** One hand-off to the command queue: which slot, bound to which handler. */
  datatype Dispatched = Dispatched(slot: nat, handler: Handler)

  /** The assembler's state: the slot ring, the current slot index, what
      has been written to the serial port (one entry per `PutStr`/`PutChr`)
      and what has been handed to the command queue. */
  datatype State = State(
    slots: seq<CommandLine>,
    current: nat,
    out: seq<string>,
    dispatched: seq<Dispatched>)

  predicate Valid(s: State) {
    |s.slots| == MAX_CMD_BUF_COUNT &&
    s.current < MAX_CMD_BUF_COUNT &&
    forall i :: 0 <= i < |s.slots| ==> WellFormed(s.slots[i])
  }

  /** A zero-initialised slot. */
  function EmptyLine(): (line: CommandLine)
    ensures WellFormed(line) && line.length == 0
  {
    CommandLine(0, seq(BUFFER_SIZE, _ => NUL), 0, None, None)
  }

  /** The state at power-up: three empty slots, slot 0 current. */
  function Init(): (s: State)
    ensures Valid(s) && s.current == 0 && s.slots[0].length == 0
    ensures s.out == [] && s.dispatched == []
  {
    State(seq(MAX_CMD_BUF_COUNT, _ => EmptyLine()), 0, [], [])
  }

  function CurrentLine(s: State): CommandLine
    requires Valid(s)
  {
    s.slots[s.current]
  }

  function CurrentLength(s: State): nat
    requires Valid(s)
  {
    s.slots[s.current].length
  }

  /** ASCII upper-casing: lower-case letters move to their capitals, every
      other byte is left alone. */
  function Upper(c: Byte): (r: Byte)
    ensures !('a' <= r <= 'z')
    ensures r != c <==> 'a' <= c <= 'z'
    ensures r != c ==> 'A' <= r <= 'Z' && r as int + 32 == c as int
  {
    if 'a' <= c <= 'z' then (c as int - ('a' as int - 'A' as int)) as char else c
  }

  /** `LookupCommand` on a terminated slot: split it, record the verb length
      and argument in the slot, resolve the verb against `CmdDic`, and bind
      the handler when the line is dispatched. */
  function LookupCommand(line: CommandLine): (r: (CommandLine, Outcome<Handler>))
    requires |line.buffer| == BUFFER_SIZE
    ensures r.0.buffer == line.buffer && r.0.length == line.length
    ensures r.1.Dispatch? ==> r.0.func == Some(r.1.handler)
    ensures !r.1.Dispatch? ==> r.0.func == line.func
  {
    var sp := SplitArg(line.buffer);
    var o := Lookup(CmdDic, line.buffer, sp.cmdLength);
    var split := line.(cmdLength := sp.cmdLength, arg := sp.arg);
    (if o.Dispatch? then split.(func := Some(o.handler)) else split, o)
  }

  /** Carriage return on a non-empty slot: terminate, resolve, report a
      syntax error or queue the slot, then move to the next slot and empty
      it. */
  function Submit(s: State): (r: State)
    requires Valid(s) && CurrentLength(s) > 0
    ensures Valid(r)
  {
    var (line, o) := LookupCommand(Terminate(CurrentLine(s)));
    var next := (s.current + 1) % MAX_CMD_BUF_COUNT;
    var slots := s.slots[s.current := line];
    State(
      slots[next := slots[next].(length := 0)],
      next,
      s.out + (if o.SyntaxError? then [MSG_SYNTAX_ERROR] else []),
      s.dispatched + (if o.Dispatch? then [Dispatched(s.current, o.handler)] else []))
  }

  /** An ordinary byte: echoed as received, stored folded after the bytes
      already in the slot. */
  function Store(s: State, c: Byte): (r: State)
    requires Valid(s) && CurrentLength(s) < MAX_COMMAND_LENGTH
    ensures Valid(r)
  {
    var line := CurrentLine(s);
    s.(slots := s.slots[s.current := line.(buffer := line.buffer[line.length := Upper(c)],
                                           length := line.length + 1)],
       out := s.out + [[c]])
  }

  /** One pass of the loop body for the byte `c`. Storing needs room, so
      the caller must not hand an ordinary byte to a full slot. */
  function Step(s: State, c: Byte): (r: State)
    requires Valid(s)
    requires CurrentLength(s) < MAX_COMMAND_LENGTH || c == CR || c == BS
    ensures Valid(r)
    ensures CurrentLength(r) <= CurrentLength(s) + 1
  {
    var line := CurrentLine(s);
    if c == CR then
      var echoed := s.(out := s.out + [MSG_CRLF]);
      if line.length > 0 then Submit(echoed) else echoed
    else if c == BS then
      if line.length > 0 then
        s.(slots := s.slots[s.current := line.(length := line.length - 1)],
           out := s.out + [MSG_ERASE])
      else s
    else if IsBlank(c) && line.length == 0 then s
    else Store(s, c)
  }

  /** `ParseInputChars`: process the chunk byte by byte while the current
      slot holds fewer than `MAX_COMMAND_LENGTH` bytes; the rest of the
      chunk is dropped. Output and hand-offs are only ever appended. */
  function Feed(s: State, chunk: seq<Byte>): (r: State)
    requires Valid(s)
    ensures Valid(r)
    ensures s.out <= r.out && s.dispatched <= r.dispatched
    decreases |chunk|
  {
    if |chunk| == 0 || CurrentLength(s) >= MAX_COMMAND_LENGTH then s
    else Feed(Step(s, chunk[0]), chunk[1..])
  }

  // ---------------------------------------------------------------------
  // One byte at a time
  // ---------------------------------------------------------------------

  /** Space or tab at the start of a line changes nothing and echoes
      nothing. */
  lemma LeadingBlankIgnored(s: State, c: Byte)
    requires Valid(s) && CurrentLength(s) == 0 && IsBlank(c)
    ensures Feed(s, [c]) == s
  {
  }

  /** Any byte other than CR and backspace, including a space or tab after
      the first stored byte, is echoed as received and stored upper-cased;
      the length grows by one and nothing else changes. */
  lemma OrdinaryByteStored(s: State, c: Byte)
    requires Valid(s) && CurrentLength(s) < MAX_COMMAND_LENGTH
    requires c != CR && c != BS && (CurrentLength(s) > 0 || !IsBlank(c))
    ensures var r := Feed(s, [c]);
      r.current == s.current && r.dispatched == s.dispatched &&
      r.out == s.out + [[c]] &&
      CurrentLength(r) == CurrentLength(s) + 1 &&
      CurrentLine(r).buffer[CurrentLength(s)] == Upper(c) &&
      (forall j :: 0 <= j < BUFFER_SIZE && j != CurrentLength(s) ==>
         CurrentLine(r).buffer[j] == CurrentLine(s).buffer[j]) &&
      CurrentLine(r).cmdLength == CurrentLine(s).cmdLength &&
      CurrentLine(r).arg == CurrentLine(s).arg &&
      CurrentLine(r).func == CurrentLine(s).func &&
      (forall i :: 0 <= i < MAX_CMD_BUF_COUNT && i != s.current ==> r.slots[i] == s.slots[i])
  {
    assert [c][1..] == [];
  }

  /** Backspace on an empty slot does nothing; otherwise it shortens the
      line by one, echoes the erase sequence and keeps the stored bytes. */
  lemma BackspaceErases(s: State)
    requires Valid(s) && CurrentLength(s) < MAX_COMMAND_LENGTH
    ensures CurrentLength(s) == 0 ==> Feed(s, [BS]) == s
    ensures CurrentLength(s) > 0 ==>
      var r := Feed(s, [BS]);
      r.current == s.current && r.dispatched == s.dispatched &&
      r.out == s.out + [MSG_ERASE] &&
      CurrentLength(r) == CurrentLength(s) - 1 &&
      CurrentLine(r).buffer == CurrentLine(s).buffer &&
      CurrentLine(r).cmdLength == CurrentLine(s).cmdLength &&
      CurrentLine(r).arg == CurrentLine(s).arg &&
      CurrentLine(r).func == CurrentLine(s).func &&
      (forall i :: 0 <= i < MAX_CMD_BUF_COUNT && i != s.current ==> r.slots[i] == s.slots[i])
  {
    assert [BS][1..] == [];
  }

  /** CR on an empty slot only echoes the line break. */
  lemma EmptyReturnOnlyEchoes(s: State)
    requires Valid(s) && CurrentLength(s) == 0
    ensures Feed(s, [CR]) == s.(out := s.out + [MSG_CRLF])
  {
    assert [CR][1..] == [];
  }

  /** What CR does to a non-empty slot, as a relation between the state
      `s` before and `r` after: the ring moves on and the line is
      terminated in place (`SubmitFrame`), split (`SubmitSplit`) and
      resolved (`SubmitOutcome`). */
  predicate Submitted(s: State, r: State)
  {
    Valid(s) && Valid(r) && CurrentLength(s) > 0 &&
    SubmitFrame(s, r) && SubmitSplit(s, r) && SubmitOutcome(s, r)
  }

  /** The next slot of the ring becomes current and empty, keeping its old
      bytes; the submitted slot keeps its length and every byte but the
      terminator written at its length; the third slot is not touched. */
  predicate SubmitFrame(s: State, r: State)
    requires Valid(s) && Valid(r) && CurrentLength(s) > 0
  {
    var len := CurrentLength(s);
    var line := r.slots[s.current];
    r.current == (s.current + 1) % MAX_CMD_BUF_COUNT &&
    CurrentLength(r) == 0 && r.slots[r.current] == s.slots[r.current].(length := 0) &&
    r.slots[(s.current + 2) % MAX_CMD_BUF_COUNT] == s.slots[(s.current + 2) % MAX_CMD_BUF_COUNT] &&
    line.length == len && line.buffer[len] == NUL &&
    line.buffer[..len] == CurrentLine(s).buffer[..len] &&
    line.buffer[len + 1..] == CurrentLine(s).buffer[len + 1..]
  }

  /** The verb of the submitted slot is the delimiter-free run at its start,
      and it has no argument exactly when the verb is followed directly by
      the terminator; an argument is the first non-blank byte after the
      verb. */
  predicate SubmitSplit(s: State, r: State)
    requires Valid(s) && Valid(r) && CurrentLength(s) > 0
  {
    var len := CurrentLength(s);
    var line := r.slots[s.current];
    line.cmdLength <= len &&
    (forall j :: 0 <= j < line.cmdLength ==> !IsDelimiter(line.buffer[j])) &&
    IsDelimiter(line.buffer[line.cmdLength]) &&
    (line.arg.None? <==> line.buffer[line.cmdLength] == NUL) &&
    (line.arg.Some? ==> line.cmdLength < line.arg.value <= len && !IsBlank(line.buffer[line.arg.value]) &&
                        forall j :: line.cmdLength < j < line.arg.value ==> IsBlank(line.buffer[j]))
  }

  /** The line break is echoed. With k the number of `CmdDic` names the
      verb is a prefix of, k = 1 queues the slot with that name's handler,
      k = 0 prints the syntax error, and otherwise (an empty verb) nothing
      else happens; the slot's handler changes only when it is queued. */
  predicate SubmitOutcome(s: State, r: State)
    requires Valid(s) && Valid(r) && CurrentLength(s) > 0
  {
    var line := r.slots[s.current];
    line.cmdLength <= BUFFER_SIZE &&
    var verb := line.buffer[..line.cmdLength];
    var o := Resolve(CmdDic, verb);
    r.out == s.out + [MSG_CRLF] + (if o.SyntaxError? then [MSG_SYNTAX_ERROR] else []) &&
    r.dispatched == s.dispatched + (if o.Dispatch? then [Dispatched(s.current, o.handler)] else []) &&
    (o.Dispatch? ==> line.func == Some(o.handler)) &&
    (!o.Dispatch? ==> line.func == CurrentLine(s).func) &&
    (o.SyntaxError? <==> |verb| > 0 && PrefixCount(CmdDic, verb) == 0) &&
    (o.Dispatch? <==> |verb| > 0 && PrefixCount(CmdDic, verb) == 1)
  }

  /** CR moves the ring on and terminates the line, touching nothing else. */
  lemma StepReturnFrames(s: State)
    requires Valid(s) && CurrentLength(s) > 0
    ensures SubmitFrame(s, Step(s, CR))
  {
    StepReturnRing(s);
    StepReturnKeepsLine(s);
  }

  /** CR on a non-empty slot is the echo of the line break followed by
      `Submit`. */
  lemma ReturnIsSubmit(s: State)
    requires Valid(s) && CurrentLength(s) > 0
    ensures Step(s, CR) == Submit(s.(out := s.out + [MSG_CRLF]))
  {
  }

  /** CR makes the next slot current and empty, keeping its bytes, and
      leaves the third slot alone. */
  lemma StepReturnRing(s: State)
    requires Valid(s) && CurrentLength(s) > 0
    ensures var r := Step(s, CR);
      r.current == (s.current + 1) % MAX_CMD_BUF_COUNT &&
      r.slots[r.current] == s.slots[r.current].(length := 0) &&
      r.slots[(s.current + 2) % MAX_CMD_BUF_COUNT] == s.slots[(s.current + 2) % MAX_CMD_BUF_COUNT]
  {
    ReturnIsSubmit(s);
    SubmitRing(s.(out := s.out + [MSG_CRLF]));
  }

  /** `Submit` moves the ring on, empties the next slot without clearing
      its bytes, and leaves the third slot alone. */
  lemma SubmitRing(s: State)
    requires Valid(s) && CurrentLength(s) > 0
    ensures var r := Submit(s);
      r.current == (s.current + 1) % MAX_CMD_BUF_COUNT &&
      r.slots[r.current] == s.slots[r.current].(length := 0) &&
      r.slots[(s.current + 2) % MAX_CMD_BUF_COUNT] == s.slots[(s.current + 2) % MAX_CMD_BUF_COUNT]
  {
    var next := (s.current + 1) % MAX_CMD_BUF_COUNT;
    var third := (s.current + 2) % MAX_CMD_BUF_COUNT;
    assert next != s.current && third != s.current && third != next by {
      assert s.current == 0 || s.current == 1 || s.current == 2;
    }
    var slots := s.slots[s.current := LookupCommand(Terminate(CurrentLine(s))).0];
    assert Submit(s).slots == slots[next := slots[next].(length := 0)];
  }

  /** CR keeps the submitted slot's length and bytes, but for the terminator
      written at the length. */
  lemma StepReturnKeepsLine(s: State)
    requires Valid(s) && CurrentLength(s) > 0
    ensures var len := CurrentLength(s);
      var line := Step(s, CR).slots[s.current];
      line.length == len && line.buffer[len] == NUL &&
      line.buffer[..len] == CurrentLine(s).buffer[..len] &&
      line.buffer[len + 1..] == CurrentLine(s).buffer[len + 1..]
  {
    var len := CurrentLength(s);
    ReturnIsSubmit(s);
    var t := Terminate(CurrentLine(s));
    var line := LookupCommand(t).0;
    assert Step(s, CR).slots[s.current] == line;
    assert t.buffer[..len] == CurrentLine(s).buffer[..len];
    assert t.buffer[len + 1..] == CurrentLine(s).buffer[len + 1..];
  }

  /** CR splits the terminated line. */
  lemma StepReturnSplits(s: State)
    requires Valid(s) && CurrentLength(s) > 0
    ensures SubmitSplit(s, Step(s, CR))
  {
    var t := Terminate(CurrentLine(s));
    SplitTerminated(t.buffer, CurrentLength(s));
  }

  /** CR resolves the verb of the split line against `CmdDic`. */
  lemma StepReturnResolves(s: State)
    requires Valid(s) && CurrentLength(s) > 0
    ensures SubmitOutcome(s, Step(s, CR))
  {
    var t := Terminate(CurrentLine(s));
    var sp := SplitArg(t.buffer);
    ScanResolves(CmdDic, t.buffer, sp.cmdLength);
  }

  /** The loop body submits a non-empty slot on CR, full or not. */
  lemma StepReturnSubmits(s: State)
    requires Valid(s) && CurrentLength(s) > 0
    ensures Submitted(s, Step(s, CR))
  {
    StepReturnFrames(s);
    StepReturnSplits(s);
    StepReturnResolves(s);
  }

  /** CR on a non-empty slot that still has room submits it. */
  lemma ReturnSubmits(s: State)
    requires Valid(s) && 0 < CurrentLength(s) < MAX_COMMAND_LENGTH
    ensures Submitted(s, Feed(s, [CR]))
  {
    assert [CR][1..] == [];
    assert Feed(s, [CR]) == Step(s, CR);
    StepReturnSubmits(s);
  }

  /** The verb of a submitted slot is the run of typed bytes before the
      first delimiter. */
  lemma SubmittedVerb(s: State, r: State, n: nat)
    requires Submitted(s, r) && 0 < n <= CurrentLength(s)
    requires forall j :: 0 <= j < n ==> !IsDelimiter(CurrentLine(s).buffer[j])
    requires n == CurrentLength(s) || IsDelimiter(CurrentLine(s).buffer[n])
    ensures r.slots[s.current].cmdLength == n
    ensures r.slots[s.current].buffer[..n] == CurrentLine(s).buffer[..n]
  {
    var len := CurrentLength(s);
    var line := r.slots[s.current];
    forall j | 0 <= j < len ensures line.buffer[j] == CurrentLine(s).buffer[j] {
      assert line.buffer[..len][j] == CurrentLine(s).buffer[..len][j];
    }
  }

  /** A submitted slot whose verb resolves to `h` is queued with `h`, and
      only the line break is printed. */
  lemma SubmittedDispatch(s: State, r: State, h: Handler)
    requires Submitted(s, r)
    requires Resolve(CmdDic, r.slots[s.current].buffer[..r.slots[s.current].cmdLength]) == Dispatch(h)
    ensures r.dispatched == s.dispatched + [Dispatched(s.current, h)]
    ensures r.out == s.out + [MSG_CRLF]
    ensures r.slots[s.current].func == Some(h)
  {
  }

  /** A verb followed by one blank and a non-blank byte has its argument
      at that byte. */
  lemma SubmittedArgument(s: State, r: State)
    requires Submitted(s, r)
    requires r.slots[s.current].cmdLength + 1 < CurrentLength(s)
    requires r.slots[s.current].buffer[r.slots[s.current].cmdLength] != NUL
    requires !IsBlank(r.slots[s.current].buffer[r.slots[s.current].cmdLength + 1])
    ensures r.slots[s.current].arg == Some(r.slots[s.current].cmdLength + 1)
  {
  }

  /** A submitted slot that held exactly a non-empty prefix of a `CmdDic`
      name is queued with that name's handler and no argument, and nothing
      but the line break is printed. */
  lemma SubmittedNamePrefix(s: State, r: State, i: nat)
    requires Submitted(s, r) && i < |CmdDic|
    requires CurrentLine(s).buffer[..CurrentLength(s)] <= CmdDic[i].name
    ensures r.dispatched == s.dispatched + [Dispatched(s.current, CmdDic[i].handler)]
    ensures r.out == s.out + [MSG_CRLF]
    ensures r.current == (s.current + 1) % MAX_CMD_BUF_COUNT
    ensures r.slots[s.current].arg == None
    ensures r.slots[s.current].func == Some(CmdDic[i].handler)
  {
    var len := CurrentLength(s);
    var typed := CurrentLine(s).buffer[..len];
    CmdDicShape();
    forall j | 0 <= j < len ensures !IsDelimiter(CurrentLine(s).buffer[j]) {
      assert CurrentLine(s).buffer[j] == typed[j] == CmdDic[i].name[j];
    }
    SubmittedVerb(s, r, len);
    CmdDicPrefixResolves(i, typed);
    SubmittedDispatch(s, r, CmdDic[i].handler);
  }

  /** A submitted slot that held a non-empty prefix of a `CmdDic` name, a
      space and then a non-blank byte is queued with that name's handler and
      its argument starts at that byte. */
  lemma SubmittedNameWithArgument(s: State, r: State, i: nat, n: nat)
    requires Submitted(s, r) && i < |CmdDic|
    requires 0 < n && n + 1 < CurrentLength(s)
    requires CurrentLine(s).buffer[..n] <= CmdDic[i].name
    requires CurrentLine(s).buffer[n] == SP && !IsBlank(CurrentLine(s).buffer[n + 1])
    ensures r.dispatched == s.dispatched + [Dispatched(s.current, CmdDic[i].handler)]
    ensures r.out == s.out + [MSG_CRLF]
    ensures r.current == (s.current + 1) % MAX_CMD_BUF_COUNT
    ensures r.slots[s.current].arg == Some(n + 1)
    ensures r.slots[s.current].func == Some(CmdDic[i].handler)
  {
    var len := CurrentLength(s);
    var typed := CurrentLine(s).buffer[..n];
    var line := r.slots[s.current];
    CmdDicShape();
    forall j | 0 <= j < n ensures !IsDelimiter(CurrentLine(s).buffer[j]) {
      assert CurrentLine(s).buffer[j] == typed[j] == CmdDic[i].name[j];
    }
    SubmittedVerb(s, r, n);
    assert line.buffer[n] == SP && line.buffer[n + 1] == CurrentLine(s).buffer[n + 1] by {
      assert line.buffer[..len][n] == CurrentLine(s).buffer[..len][n];
      assert line.buffer[..len][n + 1] == CurrentLine(s).buffer[..len][n + 1];
    }
    SubmittedArgument(s, r);
    CmdDicPrefixResolves(i, typed);
    SubmittedDispatch(s, r, CmdDic[i].handler);
  }

  // ---------------------------------------------------------------------
  // Whole chunks
  // ---------------------------------------------------------------------

  /** Hard stop: once the slot holds `MAX_COMMAND_LENGTH` bytes, no byte of
      any chunk is consumed, not even CR or backspace. */
  lemma FullSlotConsumesNothing(s: State, chunk: seq<Byte>)
    requires Valid(s) && CurrentLength(s) == MAX_COMMAND_LENGTH
    ensures Feed(s, chunk) == s
  {
  }

  /** Feeding two chunks in turn is feeding their concatenation, so a chunk
      may be delivered one byte per call. */
  lemma {:induction false} FeedAppend(s: State, a: seq<Byte>, b: seq<Byte>)
    requires Valid(s)
    ensures Feed(s, a + b) == Feed(Feed(s, a), b)
    decreases |a|
  {
    if |a| == 0 {
      assert a + b == b;
    } else if CurrentLength(s) < MAX_COMMAND_LENGTH {
      assert (a + b)[0] == a[0] && (a + b)[1..] == a[1..] + b;
      FeedAppend(Step(s, a[0]), a[1..], b);
    }
  }

  /** The echo of plain typed bytes: one single-byte write each. */
  function Echo(w: seq<Byte>): (e: seq<string>)
    ensures |e| == |w| && forall j :: 0 <= j < |w| ==> e[j] == [w[j]]
  {
    seq(|w|, j requires 0 <= j < |w| => [w[j]])
  }

  /** The state after plain bytes `w` have been typed into the current
      slot: the slot holds its old bytes, then `w` folded, and everything
      typed is echoed. */
  function Stored(s: State, w: seq<Byte>): (r: State)
    requires Valid(s) && CurrentLength(s) + |w| <= MAX_COMMAND_LENGTH
    ensures Valid(r) && r.current == s.current && r.dispatched == s.dispatched
    ensures CurrentLength(r) == CurrentLength(s) + |w| && r.out == s.out + Echo(w)
  {
    var line := CurrentLine(s);
    var len := line.length;
    s.(slots := s.slots[s.current := line.(buffer := line.buffer[..len] + UpperAll(w) + line.buffer[len + |w|..],
                                           length := len + |w|)],
       out := s.out + Echo(w))
  }

  /** Typing one more byte after `w` stores it after `w`. */
  lemma StoredOneMore(s: State, w: seq<Byte>)
    requires Valid(s) && |w| > 0 && CurrentLength(s) + |w| <= MAX_COMMAND_LENGTH
    ensures Store(Stored(s, w[..|w| - 1]), w[|w| - 1]) == Stored(s, w)
  {
    var n := |w| - 1;
    var line := CurrentLine(s);
    var len := line.length;
    var m := Stored(s, w[..n]);
    var b := CurrentLine(m).buffer[len + n := Upper(w[n])];
    var want := line.buffer[..len] + UpperAll(w) + line.buffer[len + |w|..];
    assert |b| == |want|;
    forall j | 0 <= j < |b| ensures b[j] == want[j] {
      if j < len {
      } else if j < len + n {
        assert UpperAll(w[..n])[j - len] == UpperAll(w)[j - len];
      } else if j > len + n {
      }
    }
    assert b == want;
    assert Echo(w) == Echo(w[..n]) + [[w[n]]];
  }

  /** Typed bytes without CR or backspace, the first not blank when the slot
      is empty, are stored upper-cased after the bytes already there, and
      echoed as typed; nothing is submitted and the other slots keep their
      contents. */
  lemma StoredMeaning(s: State, w: seq<Byte>)
    requires Valid(s) && CurrentLength(s) + |w| <= MAX_COMMAND_LENGTH
    ensures var r := Stored(s, w);
      var len := CurrentLength(s);
      r.current == s.current && r.dispatched == s.dispatched &&
      r.out == s.out + Echo(w) &&
      CurrentLength(r) == len + |w| &&
      CurrentLine(r).buffer[..len + |w|] == CurrentLine(s).buffer[..len] + UpperAll(w) &&
      (forall j :: 0 <= j < |w| ==> CurrentLine(r).buffer[len + j] == Upper(w[j])) &&
      (forall j :: 0 <= j < len ==> CurrentLine(r).buffer[j] == CurrentLine(s).buffer[j]) &&
      (forall i :: 0 <= i < MAX_CMD_BUF_COUNT && i != s.current ==> r.slots[i] == s.slots[i])
  {
    var len := CurrentLength(s);
    var b := CurrentLine(Stored(s, w)).buffer;
    assert b[..len + |w|] == CurrentLine(s).buffer[..len] + UpperAll(w);
    forall j | 0 <= j < |w| ensures b[len + j] == Upper(w[j]) {
      assert b[len + j] == UpperAll(w)[j];
    }
  }

  /** On an empty slot the typed bytes are the whole stored line. */
  lemma StoredFromEmpty(s: State, w: seq<Byte>)
    requires Valid(s) && CurrentLength(s) == 0 && |w| <= MAX_COMMAND_LENGTH
    ensures CurrentLength(Stored(s, w)) == |w|
    ensures CurrentLine(Stored(s, w)).buffer[..|w|] == UpperAll(w)
  {
    StoredMeaning(s, w);
    assert CurrentLine(s).buffer[..0] == [];
  }

  /** Typing plain bytes through `ParseInputChars` gives `Stored`. */
  lemma {:induction false} FeedPlain(s: State, w: seq<Byte>)
    requires Valid(s) && CurrentLength(s) + |w| <= MAX_COMMAND_LENGTH
    requires forall j :: 0 <= j < |w| ==> w[j] != CR && w[j] != BS
    requires CurrentLength(s) == 0 && |w| > 0 ==> !IsBlank(w[0])
    ensures Feed(s, w) == Stored(s, w)
    decreases |w|
  {
    if |w| > 0 {
      var n := |w| - 1;
      var m := Feed(s, w[..n]);
      FeedPlain(s, w[..n]);
      assert w == w[..n] + [w[n]];
      FeedAppend(s, w[..n], [w[n]]);
      StoredMeaning(s, w[..n]);
      assert |w| > 1 ==> w[..n][0] == w[0];
      assert Feed(m, [w[n]]) == Store(m, w[n]) by {
        assert [w[n]][1..] == [];
      }
      StoredOneMore(s, w);
    } else {
      var line := CurrentLine(s);
      assert line.buffer[..line.length] + UpperAll(w) + line.buffer[line.length..] == line.buffer;
      assert line.(buffer := line.buffer, length := line.length) == line;
      assert s.slots[s.current := line] == s.slots;
      assert Echo(w) == [];
    }
  }

  /** Folding a typed word to upper case, byte by byte. */
  function UpperAll(w: seq<Byte>): (u: seq<Byte>)
    ensures |u| == |w| && forall j :: 0 <= j < |w| ==> u[j] == Upper(w[j])
  {
    seq(|w|, j requires 0 <= j < |w| => Upper(w[j]))
  }

  /** Typing plain bytes and then CR on a slot with room: the CR meets
      the slot as `Stored` left it. */
  lemma TypedThenReturn(s: State, w: seq<Byte>)
    requires Valid(s) && CurrentLength(s) + |w| < MAX_COMMAND_LENGTH
    requires forall j :: 0 <= j < |w| ==> w[j] != CR && w[j] != BS
    requires CurrentLength(s) == 0 && |w| > 0 ==> !IsBlank(w[0])
    ensures Feed(s, w + [CR]) == Step(Stored(s, w), CR)
  {
    FeedPlain(s, w);
    StoredMeaning(s, w);
    FeedAppend(s, w, [CR]);
    assert [CR][1..] == [];
  }

  /** A name prefix typed in any letter case holds no CR, backspace or
      blank. */
  lemma NamePrefixIsPlain(w: seq<Byte>, i: nat)
    requires i < |CmdDic| && UpperAll(w) <= CmdDic[i].name
    ensures forall j :: 0 <= j < |w| ==> w[j] != CR && w[j] != BS && !IsBlank(w[j])
  {
    CmdDicShape();
    forall j | 0 <= j < |w| ensures w[j] != CR && w[j] != BS && !IsBlank(w[j]) {
      assert UpperAll(w)[j] == CmdDic[i].name[j];
    }
  }

  /** CR on a slot holding exactly a non-empty prefix of a `CmdDic` name
      queues it with that name's handler and no argument. */
  lemma ReturnOnNamePrefix(m: State, i: nat)
    requires Valid(m) && 0 < CurrentLength(m) && i < |CmdDic|
    requires CurrentLine(m).buffer[..CurrentLength(m)] <= CmdDic[i].name
    ensures var r := Step(m, CR);
      r.dispatched == m.dispatched + [Dispatched(m.current, CmdDic[i].handler)] &&
      r.out == m.out + [MSG_CRLF] &&
      r.current == (m.current + 1) % MAX_CMD_BUF_COUNT &&
      r.slots[m.current].arg == None &&
      r.slots[m.current].func == Some(CmdDic[i].handler)
  {
    StepReturnSubmits(m);
    SubmittedNamePrefix(m, Step(m, CR), i);
  }

  /** End to end: typing, in any letter case, a non-empty prefix of a
      `CmdDic` name on an empty slot gives the typed state `Stored(s, w)`
      (see `FeedPlain`: same slot, same dispatch log, the bytes echoed);
      pressing CR then
      echoes a line break and queues that slot with the name's handler and
      no argument (so PUTON and TAKEOFF will complain). */
  lemma TypedPrefixDispatches(s: State, w: seq<Byte>, i: nat)
    requires Valid(s) && CurrentLength(s) == 0
    requires i < |CmdDic| && |w| > 0 && UpperAll(w) <= CmdDic[i].name
    ensures var m := Stored(s, w);
      var r := Feed(s, w + [CR]);
      r.dispatched == m.dispatched + [Dispatched(m.current, CmdDic[i].handler)] &&
      r.out == m.out + [MSG_CRLF] &&
      r.current == (m.current + 1) % MAX_CMD_BUF_COUNT &&
      r.slots[m.current].arg == None &&
      r.slots[m.current].func == Some(CmdDic[i].handler)
  {
    NamePrefixIsPlain(w, i);
    assert |UpperAll(w)| <= |CmdDic[i].name| && |CmdDic[i].name| < MAX_COMMAND_LENGTH by {
      CmdDicShape();
    }
    TypedThenReturn(s, w);
    StoredFromEmpty(s, w);
    StepReturnSubmits(Stored(s, w));
    SubmittedNamePrefix(Stored(s, w), Feed(s, w + [CR]), i);
  }

  /** Typing a name prefix, a space and an argument leaves the slot holding
      the folded prefix, then the space, then the argument's first byte. */
  lemma StoredNameAndArgument(s: State, w: seq<Byte>, a: seq<Byte>, i: nat)
    requires Valid(s) && CurrentLength(s) == 0
    requires i < |CmdDic| && UpperAll(w) <= CmdDic[i].name
    requires |a| > 0 && !IsBlank(a[0]) && |w| + 1 + |a| < MAX_COMMAND_LENGTH
    ensures var m := Stored(s, w + [SP] + a);
      var buf := CurrentLine(m).buffer;
      CurrentLength(m) == |w| + 1 + |a| &&
      buf[..|w|] <= CmdDic[i].name && buf[|w|] == SP && !IsBlank(buf[|w| + 1])
  {
    var text := w + [SP] + a;
    var n := |w|;
    StoredFromEmpty(s, text);
    var buf := CurrentLine(Stored(s, text)).buffer;
    assert buf[..|text|] == UpperAll(text);
    forall j | 0 <= j < n ensures buf[j] == UpperAll(w)[j] {
      assert text[j] == w[j];
      assert buf[..|text|][j] == UpperAll(text)[j];
    }
    assert buf[..n] == UpperAll(w);
    assert buf[n] == SP by {
      assert text[n] == SP;
      assert buf[..|text|][n] == UpperAll(text)[n];
    }
    assert !IsBlank(buf[n + 1]) by {
      assert text[n + 1] == a[0];
      assert buf[..|text|][n + 1] == UpperAll(text)[n + 1];
    }
  }

  /** A name prefix, a space and an argument without CR or backspace,
      starting with a non-blank byte, hold no CR or backspace and do not
      start with a blank. */
  lemma ArgumentLineIsPlain(w: seq<Byte>, a: seq<Byte>, i: nat)
    requires i < |CmdDic| && |w| > 0 && UpperAll(w) <= CmdDic[i].name
    requires forall j :: 0 <= j < |a| ==> a[j] != CR && a[j] != BS
    ensures var text := w + [SP] + a;
      (forall j :: 0 <= j < |text| ==> text[j] != CR && text[j] != BS) && !IsBlank(text[0])
  {
    NamePrefixIsPlain(w, i);
    var text := w + [SP] + a;
    forall j | 0 <= j < |text| ensures text[j] != CR && text[j] != BS {
      if j < |w| {
        assert text[j] == w[j];
      } else if j > |w| {
        assert text[j] == a[j - |w| - 1];
      }
    }
    assert text[0] == w[0];
  }

  /** End to end with an argument: typing a name prefix, one space and an
      argument starting with a non-blank byte on an empty slot gives the
      typed state `Stored(s, w + [SP] + a)`; pressing CR then echoes a line
      break and queues that slot with the name's handler and its argument
      right after the space (so PUTON and TAKEOFF stay silent). */
  lemma TypedPrefixWithArgumentDispatches(s: State, w: seq<Byte>, a: seq<Byte>, i: nat)
    requires Valid(s) && CurrentLength(s) == 0
    requires i < |CmdDic| && |w| > 0 && UpperAll(w) <= CmdDic[i].name
    requires |a| > 0 && !IsBlank(a[0]) && |w| + 1 + |a| < MAX_COMMAND_LENGTH
    requires forall j :: 0 <= j < |a| ==> a[j] != CR && a[j] != BS
    ensures var m := Stored(s, w + [SP] + a);
      var r := Feed(s, w + [SP] + a + [CR]);
      r.dispatched == m.dispatched + [Dispatched(m.current, CmdDic[i].handler)] &&
      r.out == m.out + [MSG_CRLF] &&
      r.current == (m.current + 1) % MAX_CMD_BUF_COUNT &&
      r.slots[m.current].arg == Some(|w| + 1) &&
      r.slots[m.current].func == Some(CmdDic[i].handler)
  {
    var text := w + [SP] + a;
    ArgumentLineIsPlain(w, a, i);
    TypedThenReturn(s, text);
    StepReturnSubmits(Stored(s, text));
    StoredNameAndArgument(s, w, a, i);
    SubmittedNameWithArgument(Stored(s, text), Feed(s, text + [CR]), i, |w|);
  }
}
