/**
 * The C string handling the monitor relies on: fixed 50-character buffers
 * filled by memset and strncpy, read back up to the first NUL, and compared
 * with strncmp. A buffer is a `seq<char>`; NUL is '\0'.
 */
module CString {

  const NUL: char := '\0'

  /** A C string literal's characters: none of them is NUL. */
  predicate NoNul(s: seq<char>)
  {
    forall i :: 0 <= i < |s| ==> s[i] != NUL
  }

  /** A buffer of `k` NUL characters, as memset with '\0' leaves it. */
  function Zeros(k: nat): (z: seq<char>)
    ensures |z| == k
    ensures forall i :: 0 <= i < k ==> z[i] == NUL
  {
    seq(k, _ => NUL)
  }

  /**
   * strncpy(dst, src, n) with n == strlen(src): the first `n` characters of
   * `dst` become `src` and, since `src` has no NUL before `n`, nothing else is
   * written. The destination must have room for them.
   */
  function Strncpy(dst: seq<char>, src: seq<char>, n: nat): (r: seq<char>)
    requires n <= |src| && n <= |dst| && NoNul(src[..n])
    ensures |r| == |dst|
    ensures r[..n] == src[..n]
    ensures forall i :: n <= i < |dst| ==> r[i] == dst[i]
  {
    src[..n] + dst[n..]
  }

  /** The string a buffer holds: everything before its first NUL. */
  function Str(buf: seq<char>): (s: seq<char>)
    ensures NoNul(s) && |s| <= |buf| && s == buf[..|s|]
    ensures |s| < |buf| ==> buf[|s|] == NUL
  {
    if buf == [] || buf[0] == NUL then []
    else [buf[0]] + Str(buf[1..])
  }

  /** The character at `i`, reading past the end as NUL. */
  function At(s: seq<char>, i: nat): char
  {
    if i < |s| then s[i] else NUL
  }

  /** strncmp(s, t, n) == 0: the first `n` characters agree, or agree up to a shared NUL. */
  function StrnEq(s: seq<char>, t: seq<char>, n: nat): bool
    decreases n
  {
    if n == 0 then true
    else
      At(s, 0) == At(t, 0)
      && (At(s, 0) == NUL || StrnEq(if s == [] then [] else s[1..], if t == [] then [] else t[1..], n - 1))
  }

  /**
   * Against a literal with no NUL in its first `n` characters, strncmp
   * reports a match exactly when the buffer starts with those characters.
   */
  lemma {:induction false} StrnEqPrefix(s: seq<char>, t: seq<char>, n: nat)
    requires n <= |t| && NoNul(t[..n])
    ensures StrnEq(s, t, n) <==> n <= |s| && s[..n] == t[..n]
    decreases n
  {
    if n > 0 {
      assert t[..n][0] == t[0];
      if s == [] {
      } else {
        assert t[1..][..n - 1] == t[..n][1..];
        StrnEqPrefix(s[1..], t[1..], n - 1);
        if n <= |s| && s[..n] == t[..n] {
          assert s[0] == t[0];
          assert s[1..][..n - 1] == t[1..][..n - 1];
        }
        if StrnEq(s, t, n) {
          assert s[..n] == [s[0]] + s[1..][..n - 1];
          assert t[..n] == [t[0]] + t[1..][..n - 1];
        }
      }
    }
  }

  /** A buffer filled from `src` by memset and strncpy holds `src` when there is room for a NUL. */
  lemma StrncpyFits(src: seq<char>, k: nat)
    requires NoNul(src) && |src| <= k
    ensures |src| < k ==> Str(Strncpy(Zeros(k), src, |src|)) == src
  {
    if |src| < k {
      var buf := Strncpy(Zeros(k), src, |src|);
      StrOfTerminated(buf, |src|);
      assert buf[..|src|] == src;
    }
  }

  lemma {:induction false} StrOfTerminated(buf: seq<char>, n: nat)
    requires n < |buf| && NoNul(buf[..n]) && buf[n] == NUL
    ensures Str(buf) == buf[..n]
    decreases n
  {
    if n > 0 {
      assert buf[..n][0] == buf[0];
      assert buf[1..][..n - 1] == buf[..n][1..];
      StrOfTerminated(buf[1..], n - 1);
      assert buf[..n] == [buf[0]] + buf[1..][..n - 1];
    }
  }
}
