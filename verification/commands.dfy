/**
 The command table `CmdDic` of `Src/command.c` and its four handlers.
 */
module Commands {
  import opened Wrappers
  import opened CommandDefs
  import opened Resolver

  /** The table in declaration order; the C array's NULL sentinel row is the
      end of the sequence. */
  const CmdDic: seq<Entry<Handler>> := [
    Entry("PUTON", CmdPutOn),
    Entry("TAKEOFF", CmdTakeOff),
    Entry("HELP", CmdHelp),
    Entry("VERSION", CmdVersion)
  ]

  /** What a handler prints for a dispatched line, one entry per `PutStr`.
      No handler changes anything but the output. */
  function Handle(h: Handler, cmd: CommandLine): seq<string>
  {
    match h
    case CmdVersion => [VERSION_STR, MSG_CRLF]
    case CmdPutOn => if cmd.arg.None? then [MSG_EMPTY_ARGUMENT] else []
    case CmdTakeOff => if cmd.arg.None? then [MSG_EMPTY_ARGUMENT] else []
    case CmdHelp => [MSG_HELP]
  }

  /** VERSION prints the version text and a line break, whatever the line
      holds. */
  lemma VersionOutput(cmd: CommandLine)
    ensures Flatten(Handle(CmdVersion, cmd)) == "ServoLifter version 0.1\r\n"
  {
    var out := Handle(CmdVersion, cmd);
    assert out[..1] == [VERSION_STR] && out[..1][..0] == [];
    assert Flatten(out[..1]) == VERSION_STR;
    assert Flatten(out) == VERSION_STR + MSG_CRLF;
  }

  /** PUTON and TAKEOFF print something exactly when the line has no
      argument, and then only the empty-argument message. */
  lemma PutOnTakeOffComplainOnlyWithoutArgument(h: Handler, cmd: CommandLine)
    requires h == CmdPutOn || h == CmdTakeOff
    ensures Handle(h, cmd) != [] <==> cmd.arg.None?
    ensures Handle(h, cmd) != [] ==> Handle(h, cmd) == [MSG_EMPTY_ARGUMENT]
  {
  }

  /** Every name of the table is a run of upper-case letters, so no byte of
      a name ends a verb. */
  predicate UpperCaseName(name: seq<Byte>) {
    |name| > 0 && forall j :: 0 <= j < |name| ==> 'A' <= name[j] <= 'Z'
  }

  lemma CmdDicShape()
    ensures |CmdDic| == 4
    ensures DistinctInitials(CmdDic)
    ensures forall i :: 0 <= i < |CmdDic| ==> UpperCaseName(CmdDic[i].name)
  {
    assert CmdDic[0].name == "PUTON";
    assert CmdDic[1].name == "TAKEOFF";
    assert CmdDic[2].name == "HELP";
    assert CmdDic[3].name == "VERSION";
  }

  /** In `CmdDic` every non-empty prefix of a name, down to its first
      letter, resolves to that name's handler. */
  lemma CmdDicPrefixResolves(i: nat, verb: seq<Byte>)
    requires i < |CmdDic| && |verb| > 0 && verb <= CmdDic[i].name
    ensures Resolve(CmdDic, verb) == Dispatch(CmdDic[i].handler)
  {
    CmdDicShape();
    PrefixOfNameResolves(CmdDic, i, verb);
  }

  /** In `CmdDic` a non-empty verb either names a command by a prefix or is
      a syntax error; the silent outcome never happens. */
  lemma CmdDicDecides(verb: seq<Byte>)
    requires |verb| > 0
    ensures Resolve(CmdDic, verb) == SyntaxError <==>
      forall i :: 0 <= i < |CmdDic| ==> !(verb <= CmdDic[i].name)
    ensures Resolve(CmdDic, verb) != Quiet
  {
    CmdDicShape();
    NoPrefixIsSyntaxError(CmdDic, verb);
  }

  /** With two names sharing a prefix, that prefix resolves to nothing at
      all (no dispatch and no message) until a distinguishing letter is
      typed; a conflicting letter is a syntax error. */
  lemma SharedPrefixIsSilent()
    ensures var t := [Entry("PUTON", 0), Entry("PUTOFF", 1)];
      Resolve(t, "P") == Quiet && Resolve(t, "PUTO") == Quiet &&
      Resolve(t, "PUTON") == Dispatch(0) && Resolve(t, "PUTOF") == Dispatch(1) &&
      Resolve(t, "PUTX") == SyntaxError
  {
    var t := [Entry("PUTON", 0), Entry("PUTOFF", 1)];
    assert t[..1] == [Entry("PUTON", 0)];
    assert t[..1][..0] == [];
    assert "P" <= "PUTON" && "P" <= "PUTOFF";
    assert "PUTO" <= "PUTON" && "PUTO" <= "PUTOFF";
    assert "PUTON"[4] != "PUTOFF"[4] && "PUTOF"[4] != "PUTON"[4];
    assert "PUTX"[3] != "PUTON"[3] && "PUTX"[3] != "PUTOFF"[3];
    assert PrefixCount(t, "PUTON") == 1 && LastPrefixed(t, "PUTON") == Some(0);
    assert PrefixCount(t, "PUTOF") == 1 && LastPrefixed(t, "PUTOF") == Some(1);
    assert PrefixCount(t, "PUTX") == 0;
  }
}
