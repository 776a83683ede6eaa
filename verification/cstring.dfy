/**
 The part of C's `strncmp` that the resolver relies on: comparing a
 NUL-free name literal with the first bytes of a line buffer.
 */
module CString {
  import opened CommandDefs

  /** No byte of `s` is the terminator. */
  predicate NoNul(s: seq<Byte>) {
    forall i :: 0 <= i < |s| ==> s[i] != NUL
  }

  /** `strncmp(name, buf, n) == 0`: the strings agree on their first `n`
      characters, or up to a common terminator. `name` is a string literal
      whose terminator sits just after its last element; `buf` is a buffer
      with at least `n` bytes. */
  predicate StrNCmpZero(name: seq<Byte>, buf: seq<Byte>, n: nat)
    requires n <= |buf|
    decreases n
  {
    if n == 0 then true
    else
      var a := if |name| == 0 then NUL else name[0];
      a == buf[0] && (a == NUL || StrNCmpZero(name[1..], buf[1..], n - 1))
  }

  /** When the first `n` bytes of the buffer hold no terminator, `strncmp`
      reports equality exactly when those bytes are a prefix of the name. */
  lemma {:induction false} StrNCmpZeroIsPrefix(name: seq<Byte>, buf: seq<Byte>, n: nat)
    requires n <= |buf| && NoNul(buf[..n])
    ensures StrNCmpZero(name, buf, n) <==> buf[..n] <= name
  {
    if n > 0 {
      assert buf[..n][0] == buf[0];
      if |name| > 0 && name[0] == buf[0] {
        assert buf[1..][..n - 1] == buf[..n][1..];
        StrNCmpZeroIsPrefix(name[1..], buf[1..], n - 1);
        assert buf[..n] == [buf[0]] + buf[1..][..n - 1];
        assert name == [name[0]] + name[1..];
      }
    }
  }
}
