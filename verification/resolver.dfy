/**
 `LookupCommand` of `Src/command.c` over an arbitrary command table, and the
 reference it is proved against: the outcome depends only on how many table
 names have the whole verb as a prefix.
 */
module Resolver {
  import opened Wrappers
  import opened CommandDefs
  import opened CString

  /** One table row: a NUL-free name and the handler it binds. */
  datatype Entry<H> = Entry(name: seq<Byte>, handler: H)

  /** What resolving a line does: hand it to the dispatcher with a bound
      handler, print the syntax-error message, or end without doing either. */
  datatype Outcome<H> = Dispatch(handler: H) | SyntaxError | Quiet

  // ---------------------------------------------------------------------
  // The algorithm as written: for len = 1, 2, ... count the rows whose name
  // agrees with the buffer on len characters.
  // ---------------------------------------------------------------------

  /** `matchCount` after one pass of the inner loop at prefix length `len`. */
  function MatchCount<H>(table: seq<Entry<H>>, buf: seq<Byte>, len: nat): nat
    requires len <= |buf|
  {
    if |table| == 0 then 0
    else
      MatchCount(table[..|table| - 1], buf, len) +
      (if StrNCmpZero(table[|table| - 1].name, buf, len) then 1 else 0)
  }

  /** `matched` after one pass of the inner loop: the last row that matched. */
  function LastMatch<H>(table: seq<Entry<H>>, buf: seq<Byte>, len: nat): (r: Option<nat>)
    requires len <= |buf|
    ensures r.Some? ==> r.value < |table|
  {
    if |table| == 0 then None
    else if StrNCmpZero(table[|table| - 1].name, buf, len) then Some(|table| - 1)
    else LastMatch(table[..|table| - 1], buf, len)
  }

  /** The outer loop from prefix length `len` on: keep going while more than
      one row matches; on one or no match decide and stop; falling off the
      end of the verb decides nothing. */
  function Scan<H>(table: seq<Entry<H>>, buf: seq<Byte>, cmdLength: nat, len: nat): Outcome<H>
    requires 1 <= len && cmdLength <= |buf|
    decreases cmdLength + 1 - len
  {
    if len > cmdLength then Quiet
    else
      var count := MatchCount(table, buf, len);
      var matched := LastMatch(table, buf, len);
      if count > 1 then Scan(table, buf, cmdLength, len + 1)
      else if count == 1 && matched.Some? && cmdLength <= |table[matched.value].name|
              && StrNCmpZero(table[matched.value].name, buf, cmdLength)
      then Dispatch(table[matched.value].handler)
      else SyntaxError
  }

  /** `LookupCommand` once `SplitArg` has measured the verb. */
  function Lookup<H>(table: seq<Entry<H>>, buf: seq<Byte>, cmdLength: nat): Outcome<H>
    requires cmdLength <= |buf|
  {
    Scan(table, buf, cmdLength, 1)
  }

  // ---------------------------------------------------------------------
  // The reference: count the names the whole verb is a prefix of.
  // ---------------------------------------------------------------------

  /** k: the number of rows whose name starts with `verb`. */
  function PrefixCount<H>(table: seq<Entry<H>>, verb: seq<Byte>): nat
  {
    if |table| == 0 then 0
    else PrefixCount(table[..|table| - 1], verb) + (if verb <= table[|table| - 1].name then 1 else 0)
  }

  /** The last row whose name starts with `verb`. */
  function LastPrefixed<H>(table: seq<Entry<H>>, verb: seq<Byte>): (r: Option<nat>)
    ensures r.Some? ==> r.value < |table| && verb <= table[r.value].name
    ensures r.Some? ==> forall j :: r.value < j < |table| ==> !(verb <= table[j].name)
    ensures r.None? <==> PrefixCount(table, verb) == 0
  {
    if |table| == 0 then None
    else if verb <= table[|table| - 1].name then Some(|table| - 1)
    else LastPrefixed(table[..|table| - 1], verb)
  }

  /** Unambiguous-prefix resolution: an empty verb does nothing; with k rows
      starting with the verb, k = 0 is a syntax error, k = 1 binds that row,
      and k of two or more does nothing. */
  function Resolve<H>(table: seq<Entry<H>>, verb: seq<Byte>): Outcome<H>
  {
    if |verb| == 0 then Quiet
    else
      var k := PrefixCount(table, verb);
      if k == 0 then SyntaxError
      else if k == 1 then Dispatch(table[LastPrefixed(table, verb).value].handler)
      else Quiet
  }

  // ---------------------------------------------------------------------
  // Lemmas
  // ---------------------------------------------------------------------

  /** With a NUL-free window, one pass of the inner loop counts exactly the
      names the window is a prefix of, and remembers the last of them. */
  lemma {:induction false} MatchCountIsPrefixCount<H>(table: seq<Entry<H>>, buf: seq<Byte>, len: nat)
    requires len <= |buf| && NoNul(buf[..len])
    ensures MatchCount(table, buf, len) == PrefixCount(table, buf[..len])
    ensures LastMatch(table, buf, len) == LastPrefixed(table, buf[..len])
  {
    if |table| > 0 {
      MatchCountIsPrefixCount(table[..|table| - 1], buf, len);
      StrNCmpZeroIsPrefix(table[|table| - 1].name, buf, len);
    }
  }

  /** The row `i` is counted in `PrefixCount`. */
  lemma {:induction false} PrefixedRowCounted<H>(table: seq<Entry<H>>, verb: seq<Byte>, i: nat)
    requires i < |table| && verb <= table[i].name
    ensures PrefixCount(table, verb) >= 1
    ensures PrefixCount(table, verb) == 1 ==> LastPrefixed(table, verb) == Some(i)
  {
    var m := |table| - 1;
    if i < m {
      assert table[..m][i] == table[i];
      PrefixedRowCounted(table[..m], verb, i);
      if PrefixCount(table, verb) == 1 {
        assert !(verb <= table[m].name);
      }
    } else {
      if PrefixCount(table, verb) == 1 {
        assert PrefixCount(table[..m], verb) == 0;
      }
    }
  }

  /** Lengthening the verb can only drop rows: every name that starts with
      `v` starts with its prefix `u`, so k never grows, and if `u` picked out
      a single row, `v` picks out that row or none. */
  lemma {:induction false} PrefixCountNarrows<H>(table: seq<Entry<H>>, u: seq<Byte>, v: seq<Byte>)
    requires u <= v
    ensures PrefixCount(table, v) <= PrefixCount(table, u)
    ensures PrefixCount(table, u) == 1 ==>
      var i := LastPrefixed(table, u).value;
      PrefixCount(table, v) == (if v <= table[i].name then 1 else 0) &&
      (v <= table[i].name ==> LastPrefixed(table, v) == Some(i))
  {
    if |table| > 0 {
      var m := |table| - 1;
      PrefixCountNarrows(table[..m], u, v);
      if v <= table[m].name {
        assert u <= table[m].name;
      }
    }
  }

  /** The outer loop from `len` on agrees with the reference, given that
      every shorter prefix was still ambiguous. */
  lemma {:induction false} ScanFromResolves<H>(table: seq<Entry<H>>, buf: seq<Byte>, n: nat, len: nat)
    requires 1 <= len <= n + 1 && n <= |buf| && NoNul(buf[..n])
    requires len > 1 ==> PrefixCount(table, buf[..len - 1]) > 1
    ensures Scan(table, buf, n, len) == Resolve(table, buf[..n])
    decreases n + 1 - len
  {
    var verb := buf[..n];
    if len > n {
      // the whole verb was still ambiguous
      assert buf[..len - 1] == verb;
    } else {
      var w := buf[..len];
      assert w <= verb;
      assert NoNul(w) by { assert w == verb[..len]; }
      MatchCountIsPrefixCount(table, buf, len);
      PrefixCountNarrows(table, w, verb);
      var count := MatchCount(table, buf, len);
      if count > 1 {
        ScanFromResolves(table, buf, n, len + 1);
      } else if count == 1 {
        var i := LastMatch(table, buf, len).value;
        StrNCmpZeroIsPrefix(table[i].name, buf, n);
        if verb <= table[i].name {
          assert LastPrefixed(table, verb) == Some(i);
        }
      }
    }
  }

  /** Resolution trichotomy: `LookupCommand` on a verb without terminator
      bytes does exactly what the prefix-count reference says. */
  lemma ScanResolves<H>(table: seq<Entry<H>>, buf: seq<Byte>, n: nat)
    requires n <= |buf| && NoNul(buf[..n])
    ensures Lookup(table, buf, n) == Resolve(table, buf[..n])
    ensures n == 0 ==> Lookup(table, buf, n) == Quiet
    ensures n > 0 && PrefixCount(table, buf[..n]) == 0 ==> Lookup(table, buf, n) == SyntaxError
    ensures n > 0 && PrefixCount(table, buf[..n]) >= 2 ==> Lookup(table, buf, n) == Quiet
    ensures forall i :: 0 <= i < |table| && n > 0 && PrefixCount(table, buf[..n]) == 1 && buf[..n] <= table[i].name ==>
                          Lookup(table, buf, n) == Dispatch(table[i].handler)
  {
    ScanFromResolves(table, buf, n, 1);
    forall i | 0 <= i < |table| && n > 0 && PrefixCount(table, buf[..n]) == 1 && buf[..n] <= table[i].name
      ensures Lookup(table, buf, n) == Dispatch(table[i].handler)
    {
      PrefixedRowCounted(table, buf[..n], i);
    }
  }

  // ---------------------------------------------------------------------
  // Tables whose names all start with different letters
  // ---------------------------------------------------------------------

  /** Every name is non-empty and no two names share a first letter. */
  predicate DistinctInitials<H>(table: seq<Entry<H>>) {
    (forall i :: 0 <= i < |table| ==> |table[i].name| > 0) &&
    (forall i, j :: 0 <= i < j < |table| ==> table[i].name[0] != table[j].name[0])
  }

  /** In such a table a non-empty verb is a prefix of at most one name. */
  lemma {:induction false} DistinctInitialsUnambiguous<H>(table: seq<Entry<H>>, verb: seq<Byte>)
    requires DistinctInitials(table) && |verb| > 0
    ensures PrefixCount(table, verb) <= 1
  {
    if |table| > 0 {
      var m := |table| - 1;
      assert DistinctInitials(table[..m]);
      DistinctInitialsUnambiguous(table[..m], verb);
      if verb <= table[m].name {
        forall i | 0 <= i < m ensures !(verb <= table[..m][i].name) {
          assert table[..m][i] == table[i];
          assert table[i].name[0] != verb[0];
        }
        assert LastPrefixed(table[..m], verb).None?;
      }
    }
  }

  /** Every non-empty prefix of a name resolves to that name's handler. */
  lemma PrefixOfNameResolves<H>(table: seq<Entry<H>>, i: nat, verb: seq<Byte>)
    requires DistinctInitials(table) && i < |table|
    requires |verb| > 0 && verb <= table[i].name
    ensures Resolve(table, verb) == Dispatch(table[i].handler)
  {
    DistinctInitialsUnambiguous(table, verb);
    PrefixedRowCounted(table, verb, i);
  }

  /** A non-empty verb that is a prefix of no name is a syntax error, and in
      a table with distinct initials nothing else is: no non-empty verb ends
      the scan without a decision. */
  lemma NoPrefixIsSyntaxError<H>(table: seq<Entry<H>>, verb: seq<Byte>)
    requires DistinctInitials(table) && |verb| > 0
    ensures Resolve(table, verb) == SyntaxError <==> forall i :: 0 <= i < |table| ==> !(verb <= table[i].name)
    ensures Resolve(table, verb) != Quiet
  {
    DistinctInitialsUnambiguous(table, verb);
    if forall i :: 0 <= i < |table| ==> !(verb <= table[i].name) {
      assert LastPrefixed(table, verb).None?;
    } else {
      var i :| 0 <= i < |table| && verb <= table[i].name;
      PrefixedRowCounted(table, verb, i);
    }
  }
}
