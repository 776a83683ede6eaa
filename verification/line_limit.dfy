/**
 What happens when a line reaches `MAX_COMMAND_LENGTH` bytes. In
 `ParseInputChars` the loop guard `Length < MAX_COMMAND_LENGTH` stops the
 loop before the byte is even looked at, so a full slot consumes nothing
 ever again: neither CR nor backspace gets through, and the assembler stays
 deaf until reset. The intended behaviour is to drop only ordinary bytes at
 the limit and still act on CR and backspace; `FeedRecovering` is that
 corrected loop, sharing `Step` with the as-written `Feed`.
 */
module LineLimit {
  import opened CommandDefs
  import opened Split
  import opened Resolver
  import opened Commands
  import opened Assembler

  /** 127 bytes of 'A', the shortest input that fills a slot. */
  function LongLine(): (w: seq<Byte>)
    ensures |w| == MAX_COMMAND_LENGTH && forall j :: 0 <= j < |w| ==> w[j] == 'A'
  {
    seq(MAX_COMMAND_LENGTH, _ => 'A')
  }

  /** As written: after 127 typed bytes on an empty slot the slot is full,
      and from then on every chunk, CR and backspace included, leaves the
      state as it is: no echo, no submission, no way to empty the slot. */
  lemma LongLineLocksAssembler(s: State, chunk: seq<Byte>)
    requires Valid(s) && CurrentLength(s) == 0
    ensures var full := Stored(s, LongLine());
      Feed(s, LongLine()) == full && CurrentLength(full) == MAX_COMMAND_LENGTH &&
      Feed(full, [CR]) == full && Feed(full, [BS]) == full &&
      Feed(full, chunk) == full &&
      Feed(s, LongLine() + [CR] + chunk) == full
  {
    var full := Stored(s, LongLine());
    LongLineFills(s);
    FullSlotConsumesNothing(full, [CR]);
    FullSlotConsumesNothing(full, [BS]);
    FullSlotConsumesNothing(full, chunk);
    FullSlotConsumesNothing(full, [CR] + chunk);
    assert LongLine() + [CR] + chunk == LongLine() + ([CR] + chunk);
    FeedAppend(s, LongLine(), [CR] + chunk);
    FeedPlain(s, LongLine());
  }

  /** The corrected loop: at the limit an ordinary byte is dropped without
      echo, while CR and backspace are still carried out. */
  function FeedRecovering(s: State, chunk: seq<Byte>): (r: State)
    requires Valid(s)
    ensures Valid(r)
    ensures s.out <= r.out && s.dispatched <= r.dispatched
    decreases |chunk|
  {
    if |chunk| == 0 then s
    else if CurrentLength(s) < MAX_COMMAND_LENGTH || chunk[0] == CR || chunk[0] == BS then
      FeedRecovering(Step(s, chunk[0]), chunk[1..])
    else FeedRecovering(s, chunk[1..])
  }

  /** Corrected: CR on a full slot submits it like any other line. */
  lemma RecoveringSubmitsFullLine(s: State)
    requires Valid(s) && CurrentLength(s) == MAX_COMMAND_LENGTH
    ensures Submitted(s, FeedRecovering(s, [CR]))
  {
    assert [CR][1..] == [];
    StepReturnSubmits(s);
  }

  /** Corrected: backspace on a full slot makes room again; an ordinary
      byte is dropped without a trace. */
  lemma RecoveringAtLimit(s: State, c: Byte)
    requires Valid(s) && CurrentLength(s) == MAX_COMMAND_LENGTH
    ensures CurrentLength(FeedRecovering(s, [BS])) == MAX_COMMAND_LENGTH - 1
    ensures FeedRecovering(s, [BS]).out == s.out + [MSG_ERASE]
    ensures c != CR && c != BS ==> FeedRecovering(s, [c]) == s
  {
    assert [BS][1..] == [] && [c][1..] == [];
  }

  /** Below the limit the corrected loop is the loop as written: a chunk too
      short to fill the slot is processed identically. */
  lemma {:induction false} RecoveringAgreesBelowLimit(s: State, chunk: seq<Byte>)
    requires Valid(s) && CurrentLength(s) + |chunk| <= MAX_COMMAND_LENGTH
    ensures FeedRecovering(s, chunk) == Feed(s, chunk)
    decreases |chunk|
  {
    if |chunk| > 0 {
      RecoveringAgreesBelowLimit(Step(s, chunk[0]), chunk[1..]);
    }
  }

  /** A submitted line whose first byte starts no `CmdDic` name is
      answered with the syntax-error message and dispatches nothing. */
  lemma SubmittedUnknownInitial(s: State, r: State)
    requires Submitted(s, r)
    requires !IsDelimiter(CurrentLine(s).buffer[0])
    requires forall i :: 0 <= i < |CmdDic| ==> CmdDic[i].name[0] != CurrentLine(s).buffer[0]
    ensures r.out == s.out + [MSG_CRLF, MSG_SYNTAX_ERROR]
    ensures r.dispatched == s.dispatched
  {
    var line := r.slots[s.current];
    var len := CurrentLength(s);
    assert line.buffer[0] == CurrentLine(s).buffer[0] by {
      assert line.buffer[..len][0] == CurrentLine(s).buffer[..len][0];
    }
    var verb := line.buffer[..line.cmdLength];
    CmdDicShape();
    assert |verb| > 0 && verb[0] == line.buffer[0];
    forall i | 0 <= i < |CmdDic| ensures !(verb <= CmdDic[i].name) {
      assert CmdDic[i].name[0] != verb[0];
    }
    CmdDicDecides(verb);
  }

  /** The long line fills an empty slot: 127 bytes, the first an 'A'. */
  lemma LongLineFills(s: State)
    requires Valid(s) && CurrentLength(s) == 0
    ensures var full := Stored(s, LongLine());
      CurrentLength(full) == MAX_COMMAND_LENGTH && CurrentLine(full).buffer[0] == 'A'
  {
    StoredFromEmpty(s, LongLine());
    var full := Stored(s, LongLine());
    assert CurrentLine(full).buffer[0] == CurrentLine(full).buffer[..MAX_COMMAND_LENGTH][0];
    assert UpperAll(LongLine())[0] == Upper('A') == 'A';
  }

  /** Plain bytes that fit are typed the same way by the corrected loop. */
  lemma RecoveringPlain(s: State, w: seq<Byte>)
    requires Valid(s) && CurrentLength(s) + |w| <= MAX_COMMAND_LENGTH
    requires forall j :: 0 <= j < |w| ==> w[j] != CR && w[j] != BS
    requires CurrentLength(s) == 0 && |w| > 0 ==> !IsBlank(w[0])
    ensures FeedRecovering(s, w) == Stored(s, w)
  {
    FeedPlain(s, w);
    RecoveringAgreesBelowLimit(s, w);
  }

  /** No `CmdDic` name starts with 'A'. */
  lemma NoNameStartsWithA()
    ensures forall i :: 0 <= i < |CmdDic| ==> CmdDic[i].name[0] != 'A'
  {
    CmdDicShape();
    assert CmdDic[0].name[0] == 'P' && CmdDic[1].name[0] == 'T';
    assert CmdDic[2].name[0] == 'H' && CmdDic[3].name[0] == 'V';
  }

  /** Corrected: CR on a full slot whose line starts with 'A', which begins
      no `CmdDic` name, submits it with the syntax-error message. */
  lemma FullUnknownLineRecovers(full: State)
    requires Valid(full) && CurrentLength(full) == MAX_COMMAND_LENGTH
    requires CurrentLine(full).buffer[0] == 'A'
    ensures var r := FeedRecovering(full, [CR]);
      r.out == full.out + [MSG_CRLF, MSG_SYNTAX_ERROR] &&
      r.dispatched == full.dispatched &&
      r.current == (full.current + 1) % MAX_CMD_BUF_COUNT && CurrentLength(r) == 0
  {
    var r := FeedRecovering(full, [CR]);
    RecoveringSubmitsFullLine(full);
    NoNameStartsWithA();
    SubmittedUnknownInitial(full, r);
  }

  /** A word typed on an empty slot starts the stored line, folded. */
  lemma StoredFirstByte(s: State, w: seq<Byte>)
    requires Valid(s) && CurrentLength(s) == 0 && 0 < |w| <= MAX_COMMAND_LENGTH
    ensures CurrentLength(Stored(s, w)) == |w|
    ensures CurrentLine(Stored(s, w)).buffer[0] == Upper(w[0])
  {
    StoredFromEmpty(s, w);
    var b := CurrentLine(Stored(s, w)).buffer;
    assert b[0] == b[..|w|][0] == UpperAll(w)[0];
  }

  /** Under the corrected loop too, a CR after plain bytes meets the slot
      as typing left it. */
  lemma RecoveringThenReturn(s: State, w: seq<Byte>)
    requires Valid(s) && CurrentLength(s) + |w| <= MAX_COMMAND_LENGTH
    requires forall j :: 0 <= j < |w| ==> w[j] != CR && w[j] != BS
    requires CurrentLength(s) == 0 && |w| > 0 ==> !IsBlank(w[0])
    ensures FeedRecovering(s, w + [CR]) == FeedRecovering(Stored(s, w), [CR])
  {
    RecoveringPlain(s, w);
    RecoveringAppend(s, w, [CR]);
  }

  /** Corrected: a line of 127 plain bytes starting with 'A', typed on an
      empty slot and followed by CR, is submitted, its verb is rejected with
      the syntax-error message, and the next slot of the ring is current
      and empty. Relative to the typed state `Stored(s, w)`. */
  lemma FullLineRecovers(s: State, w: seq<Byte>)
    requires Valid(s) && CurrentLength(s) == 0 && |w| == MAX_COMMAND_LENGTH
    requires forall j :: 0 <= j < |w| ==> w[j] != CR && w[j] != BS
    requires w[0] == 'A'
    ensures var full := Stored(s, w);
      var r := FeedRecovering(s, w + [CR]);
      r.current == (full.current + 1) % MAX_CMD_BUF_COUNT && CurrentLength(r) == 0 &&
      r.out == full.out + [MSG_CRLF, MSG_SYNTAX_ERROR] &&
      r.dispatched == full.dispatched
  {
    StoredFirstByte(s, w);
    FullUnknownLineRecovers(Stored(s, w));
    RecoveringThenReturn(s, w);
  }

  /** Corrected, on the input that locks the loop as written: the full line
      is submitted, its verb is rejected with the syntax-error message, and
      the next slot of the ring is current and empty. Relative to the
      typed state `Stored(s, LongLine())`, which both loops reach (see
      `FeedPlain` and `RecoveringPlain`). */
  lemma LongLineRecovers(s: State)
    requires Valid(s) && CurrentLength(s) == 0
    ensures var full := Stored(s, LongLine());
      var r := FeedRecovering(s, LongLine() + [CR]);
      r.current == (full.current + 1) % MAX_CMD_BUF_COUNT && CurrentLength(r) == 0 &&
      r.out == full.out + [MSG_CRLF, MSG_SYNTAX_ERROR] &&
      r.dispatched == full.dispatched
  {
    FullLineRecovers(s, LongLine());
  }

  /** Feeding two chunks in turn is feeding their concatenation. */
  lemma {:induction false} RecoveringAppend(s: State, a: seq<Byte>, b: seq<Byte>)
    requires Valid(s)
    ensures FeedRecovering(s, a + b) == FeedRecovering(FeedRecovering(s, a), b)
    decreases |a|
  {
    if |a| == 0 {
      assert a + b == b;
    } else {
      assert (a + b)[0] == a[0] && (a + b)[1..] == a[1..] + b;
      if CurrentLength(s) < MAX_COMMAND_LENGTH || a[0] == CR || a[0] == BS {
        RecoveringAppend(Step(s, a[0]), a[1..], b);
      } else {
        RecoveringAppend(s, a[1..], b);
      }
    }
  }
}
