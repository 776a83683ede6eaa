# ServoLifter command front end in Dafny

This project models the serial command front end of the ServoLifter
firmware (`Src/command.c`, `Inc/command.h`). An operator types at a serial
terminal. The front end then does four things:

- The line assembler (`ParseInputChars`) echoes each byte it stores, folds
  letters to upper case and handles backspace and carriage return.
- It stores the line in one slot of a three-slot ring.
- On CR it splits the line into a verb and an optional argument
  (`SplitArg`).
- It resolves the verb against the command table `CmdDic` by
  unambiguous-prefix matching (`LookupCommand`). A resolved line is handed
  to the command queue bound to one of four handlers.

The small hex printer `PutUint16` is modelled too.

The model is functional. The assembler state (`Assembler.State`) holds:

- the three slots (`CommandDefs.CommandLine`, mirroring `CommandBufferDef`)
- the current slot index
- an output log with one entry per `PutStr`/`PutChr` call
- a dispatch log with one `(slot, handler)` entry per hand-off to the
  command queue

Bytes are characters below 256, so every message is a string literal.

Modules, in dependency order:

- `Wrappers`: `Option`, standing for a nullable pointer.
- `CommandDefs`: the constants and types of `Inc/command.h`, the message
  texts, and the servo channel indices.
- `CString`: the behaviour of `strncmp` that the resolver relies on.
- `Split`: `SplitArg`.
- `Resolver`: `LookupCommand` over any table.
  - `Scan` follows the C loop.
  - `Resolve` is an independent reference: with k the number of names that
    have the whole verb as a prefix, k = 0 is a syntax error, k = 1
    dispatches, and k ≥ 2 or an empty verb does nothing.
  - `ScanResolves` proves the two equal.
- `Commands`: `CmdDic`, the handlers, and the resolver facts specialised to
  `CmdDic`, whose names have distinct first letters.
- `Hex`: `PutUint16`, proved to round-trip through hexadecimal reading.
- `Assembler`: `ParseInputChars` as `Feed`, which processes a chunk byte
  by byte through `Step`.
- `LineLimit`: what happens at the 127-byte limit (see Findings).

The code is silent when a verb is still ambiguous at its full length.
A common reading of unambiguous-prefix matching would report an error
there. The outer loop of `LookupCommand` (`Src/command.c:156-181`) instead
runs out of prefix lengths and ends without printing anything or queueing
the line. The model follows the code (outcome `Quiet`).
`Commands.SharedPrefixIsSilent` shows this on a table containing both
PUTON and PUTOFF. With `CmdDic` itself the case never arises
(`Commands.CmdDicDecides`).

## Model

| member | source | states |
|---|---|---|
| CommandDefs.Terminate | Src/command.c:198 | terminating a slot writes NUL at `Length` and changes no other byte or field |
| CommandDefs.TerminatorFits | Inc/command.h:12-16 | the buffer has `MAX_COMMAND_LENGTH + 1` = 128 bytes, so the terminator of a line of at most 127 bytes is in bounds |
| CommandDefs.IndexOf | Inc/command.h:23-29 | a number names a channel exactly when it is below 5 |
| CommandDefs.ServoIndexConsecutive | Inc/command.h:23-29 | the five channels A–E take the consecutive values 0–4, and numbering is a bijection with 0..4 |
| CString.StrNCmpZeroIsPrefix | Src/command.c:161 | on a NUL-free window of `n` bytes, `strncmp(name, buf, n) == 0` holds exactly when the window is a prefix of the name |
| Split.ScanVerb | Src/command.c:134-140 | the verb length is the index of the first NUL, space or tab, capped at 127, and no earlier byte is a delimiter |
| Split.ScanArg | Src/command.c:142-148 | the argument is the first non-blank byte after the verb; there is none exactly when every byte up to index 127 is blank |
| Split.SplitArg | Src/command.c:129-150 | the verb is NUL-free and delimiter-free and ends at a delimiter or at 127; the argument is absent exactly when the verb runs to 127, is followed by NUL, or is followed only by blanks; otherwise it is the first non-blank byte after the verb |
| Split.SplitTerminated | Src/command.c:129-150 | on a line terminated at `len`, the verb ends by `len`, the argument is absent exactly when the verb is followed directly by NUL, and it lies within the line (possibly on the terminator: an empty argument) |
| Resolver.MatchCount | Src/command.c:157-166 | no contract of its own: `matchCount` after one pass of the inner loop; `Resolver.MatchCountIsPrefixCount` equates it with the prefix count k |
| Resolver.LastMatch | Src/command.c:159-166 | the remembered match is a row of the table |
| Resolver.LastPrefixed | Src/command.c:159-166 | a row the verb is a prefix of, with no later row that the verb is a prefix of; there is none exactly when k = 0 |
| Resolver.MatchCountIsPrefixCount | Src/command.c:157-166 | one pass of the inner loop counts exactly the names that the typed window is a prefix of, and remembers the last such name |
| Resolver.PrefixedRowCounted | Src/command.c:159-166 | a row that the verb is a prefix of is counted; if it is the only one, it is the row remembered |
| Resolver.PrefixCountNarrows | Src/command.c:156-170 | lengthening the verb never raises k, and a single candidate stays the only candidate or drops out |
| Resolver.Scan | Src/command.c:156-181 | no contract of its own: the outer loop over prefix lengths; `Resolver.ScanFromResolves` equates it with `Resolver.Resolve` |
| Resolver.Lookup | Src/command.c:155-181 | no contract of its own: the resolution loop started at length 1; `Resolver.ScanResolves` equates it with `Resolver.Resolve` |
| Resolver.Resolve | Src/command.c:151-182 | no contract of its own: the independent reference (k = 0 syntax error, k = 1 dispatch, otherwise nothing) that `Resolver.ScanResolves` proves the loop equal to |
| Resolver.ScanFromResolves | Src/command.c:156-181 | the outer loop, entered at any length whose shorter prefixes were all ambiguous, ends as the prefix-count reference says |
| Resolver.ScanResolves | Src/command.c:151-182 | resolution trichotomy: an empty verb or k ≥ 2 does nothing, k = 0 is a syntax error, and k = 1 dispatches the one row whose name has the verb as a prefix |
| Resolver.DistinctInitialsUnambiguous | Src/command.c:38-44 | in a table whose names have distinct first letters, a non-empty verb is a prefix of at most one name |
| Resolver.PrefixOfNameResolves | Src/command.c:151-182 | in such a table every non-empty prefix of a name resolves to that name's handler |
| Resolver.NoPrefixIsSyntaxError | Src/command.c:173-178 | in such a table a non-empty verb is a syntax error exactly when it is a prefix of no name, and it never ends silently |
| Commands.CmdDic | Src/command.c:38-44 | no contract of its own: the four rows in declaration order; `Commands.CmdDicShape` states their shape |
| Commands.Handle | Src/command.c:87-124 | no contract of its own: what each handler prints; `Commands.VersionOutput` and `Commands.PutOnTakeOffComplainOnlyWithoutArgument` state it |
| Commands.VersionOutput | Src/command.c:87-91 | VERSION prints exactly "ServoLifter version 0.1" and CRLF, whatever the line holds |
| Commands.PutOnTakeOffComplainOnlyWithoutArgument | Src/command.c:99-116 | PUTON and TAKEOFF print something exactly when the argument is absent, and then only the empty-argument message |
| Commands.CmdDicShape | Src/command.c:38-44 | the table has four non-empty upper-case names with distinct first letters |
| Commands.CmdDicPrefixResolves | Src/command.c:38-44 | every non-empty prefix of a `CmdDic` name resolves to that name's handler |
| Commands.CmdDicDecides | Src/command.c:173-178 | with `CmdDic` a non-empty verb is a syntax error exactly when it starts no name, and is never silently dropped |
| Commands.SharedPrefixIsSilent | Src/command.c:156-181 | with both PUTON and PUTOFF in the table, a shared prefix produces neither output nor dispatch, a distinguishing prefix dispatches, and a conflicting letter is a syntax error |
| Hex.Nibble | Src/command.c:80 | masking with 0x0F yields a value below 16 |
| Hex.HexChrDigit | Src/command.c:25 | the `HexChr` entry for a nibble is a hex digit that reads back as that nibble |
| Hex.ShrSixteen | Src/command.c:77-82 | a 16-bit value shifted right by 16 is zero, so four nibbles carry the whole value |
| Hex.DigitStep | Src/command.c:79-81 | printing the nibble at shift `s` after the digits of `value >> (s + 4)` gives the digits of `value >> s` |
| Hex.PutUint16 | Src/command.c:77-82 | exactly four single-character writes of hex digits, most significant first; reading them back as hexadecimal gives the value |
| Assembler.Init | Src/command.c:22-23 | at power-up slot 0 is current and empty, and nothing has been written or dispatched |
| Assembler.Upper | Src/command.c:219-222 | folding changes a byte exactly when it is a lower-case letter, and then maps it to its capital; the result is never lower case |
| Assembler.LookupCommand | Src/command.c:151-182 | the slot keeps its bytes and length; its handler is set to the resolved one when the line is dispatched and is left alone otherwise; `Assembler.StepReturnResolves` relates its outcome to the prefix-count reference |
| Assembler.Submit | Src/command.c:197-203 | keeps the invariant; `Assembler.SubmitRing` states how it moves the ring and `Assembler.StepReturnSubmits` what it does to the submitted slot |
| Assembler.Store | Src/command.c:217-224 | keeps the invariant; `Assembler.OrdinaryByteStored` and `Assembler.StoredOneMore` state what it stores and echoes |
| Assembler.Step | Src/command.c:193-225 | one byte keeps every slot well formed and the length within 127, and raises the length by at most one |
| Assembler.Feed | Src/command.c:187-228 | any chunk keeps the length bound and the ring index in range; output and dispatches are only ever appended |
| Assembler.LeadingBlankIgnored | Src/command.c:211-216 | a space or tab on an empty slot changes nothing and echoes nothing |
| Assembler.OrdinaryByteStored | Src/command.c:211-224 | any other byte, including a blank after the first stored byte, is echoed as received and stored folded at `Length`; the length grows by one and nothing else changes |
| Assembler.BackspaceErases | Src/command.c:205-210 | backspace on an empty slot is a no-op; otherwise the length drops by one, the erase sequence is echoed, the stored bytes, verb length, argument and handler stay, and nothing else changes |
| Assembler.EmptyReturnOnlyEchoes | Src/command.c:194-204 | CR on an empty slot echoes CRLF, and the index and slots stay as they were |
| Assembler.SubmitRing | Src/command.c:200-202 | submitting moves the index on modulo 3, sets the new slot's length to 0 without clearing its bytes, and leaves the third slot untouched |
| Assembler.StepReturnRing | Src/command.c:194-204 | after CR on a non-empty slot the next slot is current and empty with its old bytes, and the third slot is untouched |
| Assembler.StepReturnKeepsLine | Src/command.c:197-199 | after CR the submitted slot keeps its length and every byte except the NUL written at its length |
| Assembler.StepReturnFrames | Src/command.c:194-204 | both of the above together: the frame part of the submission relation |
| Assembler.StepReturnSplits | Src/command.c:129-150 | after CR the submitted slot's verb is its delimiter-free start, and the argument is absent exactly when the verb is followed by the terminator |
| Assembler.StepReturnResolves | Src/command.c:151-182 | after CR the verb is resolved as the prefix-count reference says: CRLF plus the syntax-error message for k = 0, a single dispatch bound to the handler for k = 1, and otherwise only CRLF with the handler unchanged |
| Assembler.StepReturnSubmits | Src/command.c:194-204 | CR on a non-empty slot echoes CRLF, terminates, splits and resolves the line as above, advances the index modulo 3, empties the new slot keeping its bytes, and leaves the third slot alone |
| Assembler.ReturnSubmits | Src/command.c:192-204 | the same, through `ParseInputChars` on a slot below the limit |
| Assembler.SubmittedVerb | Src/command.c:134-140 | the verb of a submitted slot is the run of typed bytes before the first delimiter, kept unchanged |
| Assembler.SubmittedDispatch | Src/command.c:173-175 | a submitted slot whose verb resolves to a handler is queued once with it, bound to it, and only CRLF is printed |
| Assembler.SubmittedArgument | Src/command.c:142-148 | a verb followed by one blank and a non-blank byte has its argument at that byte |
| Assembler.SubmittedNamePrefix | Src/command.c:151-182 | a submitted line that is exactly a prefix of a `CmdDic` name is dispatched with that handler and without an argument, and only CRLF is printed |
| Assembler.FullSlotConsumesNothing | Src/command.c:192 | hard stop: on a slot holding 127 bytes, no byte of any chunk is consumed, CR and backspace included |
| Assembler.FeedAppend | Src/command.c:187-228 | feeding two chunks in turn is feeding their concatenation, so one-byte calls behave like one long call |
| Assembler.Stored | Src/command.c:217-224 | after plain bytes are typed, the current index and the dispatch log are as before, the length grows by the number of bytes, and the output gains one echo per byte |
| Assembler.StoredOneMore | Src/command.c:217-224 | storing one more byte after a typed word is typing the longer word |
| Assembler.StoredMeaning | Src/command.c:217-224 | typed bytes are stored upper-cased after the bytes already in the slot, which keep their values; nothing is submitted and the other slots keep their contents |
| Assembler.StoredFromEmpty | Src/command.c:211-224 | on an empty slot the stored line is exactly the typed word folded to upper case |
| Assembler.FeedPlain | Src/command.c:187-226 | feeding a run of bytes without CR or backspace (not starting with a blank on an empty slot) through `ParseInputChars` gives exactly the typed state `Stored` |
| Assembler.TypedThenReturn | Src/command.c:187-228 | a CR after plain bytes meets the slot exactly as typing left it |
| Assembler.ReturnOnNamePrefix | Src/command.c:194-204 | CR on a slot holding exactly a non-empty name prefix queues that slot with the name's handler and no argument, prints only CRLF and advances the ring |
| Assembler.TypedPrefixDispatches | Src/command.c:187-228 | typing a non-empty prefix of a `CmdDic` name, in any letter case, on an empty slot, then CR: after the typed echo, only CRLF is printed, the slot is queued once with that handler and no argument, and the ring advances |
| Assembler.StoredNameAndArgument | Src/command.c:217-224 | a typed name prefix, space and argument are stored as the folded prefix, the space, then the argument's non-blank first byte |
| Assembler.SubmittedNameWithArgument | Src/command.c:129-182 | a submitted name prefix, a space and a non-blank byte dispatch that handler, with the argument at that byte |
| Assembler.TypedPrefixWithArgumentDispatches | Src/command.c:129-228 | typing a name prefix, a space and an argument on an empty slot, then CR: only CRLF follows the typed echo, the slot is queued with that handler and the argument right after the space, and the ring advances |
| LineLimit.LongLineLocksAssembler | Src/command.c:192 | as written: 127 typed bytes fill an empty slot, and then CR, backspace and any later chunk leave the state unchanged |
| LineLimit.FeedRecovering | Src/command.c:187-228 | corrected loop: keeps the length bound and the ring index, and output and dispatches are only appended |
| LineLimit.RecoveringSubmitsFullLine | Src/command.c:194-204 | corrected: CR on a full slot submits it like any other line |
| LineLimit.RecoveringAtLimit | Src/command.c:205-224 | corrected: backspace on a full slot brings the length to 126 and echoes the erase sequence; an ordinary byte is dropped without echo |
| LineLimit.RecoveringAgreesBelowLimit | Src/command.c:187-228 | below the limit the corrected loop is the loop as written |
| LineLimit.RecoveringAppend | Src/command.c:187-228 | the corrected loop also composes over concatenated chunks |
| LineLimit.SubmittedUnknownInitial | Src/command.c:173-178 | a submitted line whose first byte is not NUL, space or tab and starts no `CmdDic` name prints the syntax-error message and dispatches nothing |
| LineLimit.LongLineFills | Src/command.c:217-224 | the 127-byte line fills an empty slot to the limit, starting with 'A' |
| LineLimit.RecoveringPlain | Src/command.c:187-226 | below the limit the corrected loop also types plain bytes into the state `Stored` |
| LineLimit.FullUnknownLineRecovers | Src/command.c:173-204 | corrected: CR on a full slot starting with 'A' prints CRLF and the syntax-error message, dispatches nothing and moves to an empty slot |
| LineLimit.StoredFirstByte | Src/command.c:211-224 | a word typed on an empty slot begins the stored line with its first byte folded |
| LineLimit.NoNameStartsWithA | Src/command.c:38-44 | no `CmdDic` name starts with 'A' |
| LineLimit.RecoveringThenReturn | Src/command.c:187-228 | under the corrected loop a CR after plain bytes meets the slot as typing left it |
| LineLimit.FullLineRecovers | Src/command.c:192-204 | corrected: any 127 plain bytes starting with 'A' typed on an empty slot, then CR, are submitted with a syntax error, and an empty slot becomes current |
| LineLimit.LongLineRecovers | Src/command.c:192-204 | corrected: on the input that locks the code as written (from any empty slot), CR submits the full line, reports a syntax error, and moves to an empty slot |

## Left out

- `Src/main.c`: clock and peripheral bring-up, thread start and the UART receive loop. These are hardware and RTOS plumbing. At `Src/main.c:184` it calls `ParseInputChars(c)` with a received `uint8_t`, while `Src/command.c:187` defines `ParseInputChars` to take a `UserBufferDef *`. The only prototype, at `Inc/command.h:37`, is commented out and names another type. The call site and the definition therefore disagree. The model reads each call as a chunk of length 1 and uses `Assembler.FeedAppend` for a sequence of such calls.
- The transmit path of `PutStr`/`PutChr` (`Src/command.c:49-75`): the transmit-buffer ring, `HAL_UART_Transmit_IT` and the bounded busy retry. This is I/O; output is an appended log of the strings handed over. The `strlcpy` truncation to 126 characters inside `PutStr` does not affect any message this code prints.
- `osMessagePut(CmdBoxId, …)`: the RTOS queue is an appended dispatch log. A queued slot being reused while still pending is a concurrency matter, so it is not modelled. The consumer that calls the bound handler is not in these files. `Commands.Handle` gives what each handler prints.
- The servo engine, the placement stack and the PWM constants: `StartMotorThread` is only declared in these files.
- The unused `MAG_INVALID_PARAMETER` message.
- `Assembler.Step`: the C code also folds the byte in place in the receive buffer; that buffer is input-only in this model, so the write is not kept.
- `Resolver.MatchCount`: `matchCount` is a `uint16_t`. The unbounded count agrees with it for tables of fewer than 65536 rows, which covers `CmdDic` and any realistic table.
- The rest of the model, and every end-to-end lemma in `Assembler`, uses the loop as written (`Assembler.Feed`). `LineLimit.RecoveringAgreesBelowLimit` shows the corrected loop agrees with it whenever the limit is not reached.
- `Resolver.Scan`: `strlen(name)` is modelled as the length of the name sequence, which matches for NUL-free name literals (every `CmdDic` name is one).

## Findings

| source | as written | input that shows it | evidently intended | confidence | as-written member | corrected member |
|---|---|---|---|---|---|---|
| Src/command.c:192 | the loop guard `Length < MAX_COMMAND_LENGTH` is tested before the byte is looked at. Once a slot holds 127 bytes, nothing is ever consumed again: not CR, not backspace. The assembler stays full and silent for good | 127 bytes of 'A', then CR (or backspace, or anything else) | at the limit, drop only ordinary bytes and still act on CR and backspace. The CR case (194-204) and the backspace case (205-210) never write into `Buffer`; only the default case (223-224) stores at `Buffer[Length]`, so only it needs the `Length < MAX_COMMAND_LENGTH` bound | high, not executed | LineLimit.LongLineLocksAssembler | LineLimit.LongLineRecovers |
