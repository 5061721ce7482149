/**
 * The C library routines the server relies on, over character buffers:
 * reading a NUL-terminated string out of a buffer, `strncmp` as used for
 * prefix tests, and the truncation `snprintf` performs.
 */
module CStrings {

  /** The character that ends a C string. */
  const NUL: char := '\0'

  /** The characters of a C string, without its terminator. */
  type CText = s: seq<char> | NUL !in s

  /**
   * The C string that starts at index `i` of buffer `s`: every character up
   * to the first NUL at or after `i`, or up to the end of the buffer when it
   * holds no NUL there.
   */
  function CStringAt(s: seq<char>, i: nat): (r: seq<char>)
    requires i <= |s|
    ensures NUL !in r
    ensures i + |r| <= |s| && r == s[i..i + |r|]
    ensures i + |r| == |s| || s[i + |r|] == NUL
    decreases |s| - i
  {
    if i == |s| || s[i] == NUL then [] else [s[i]] + CStringAt(s, i + 1)
  }

  /** The end of the C string at `i`: the index of its terminator, or `|s|`. */
  function CEnd(s: seq<char>, i: nat): (e: nat)
    requires i <= |s|
    ensures i <= e <= |s|
    ensures e == |s| || s[e] == NUL
    ensures forall p | i <= p < e :: s[p] != NUL
  {
    var r := CStringAt(s, i);
    assert forall p | i <= p < i + |r| :: s[p] == r[p - i];
    i + |r|
  }

  /** The C string at `i` is the one that reaches its terminator. */
  lemma CStringAtUnique(s: seq<char>, i: nat, r: seq<char>)
    requires i + |r| <= |s| && r == s[i..i + |r|] && NUL !in r
    requires i + |r| == |s| || s[i + |r|] == NUL
    ensures r == CStringAt(s, i)
  {
  }

  /** Starting `k` characters later inside a C string yields its suffix. */
  lemma CStringAtSuffix(s: seq<char>, i: nat, j: nat)
    requires i <= |s| && i <= j <= CEnd(s, i)
    ensures CStringAt(s, j) == CStringAt(s, i)[j - i..]
  {
    CStringAtUnique(s, j, CStringAt(s, i)[j - i..]);
  }

  /** A position inside a C string shares its terminator. */
  lemma CEndSuffix(s: seq<char>, i: nat, j: nat)
    requires i <= |s| && i <= j <= CEnd(s, i)
    ensures CEnd(s, j) == CEnd(s, i)
  {
    CStringAtSuffix(s, i, j);
  }

  /** A C string depends only on the buffer from its start onwards. */
  lemma CStringAtFrame(s: seq<char>, t: seq<char>, i: nat)
    requires i <= |s| == |t| && s[i..] == t[i..]
    ensures CStringAt(s, i) == CStringAt(t, i)
  {
    var r := CStringAt(s, i);
    assert forall k | i <= k < |s| :: s[k] == s[i..][k - i] == t[i..][k - i] == t[k];
    CStringAtUnique(t, i, r);
  }

  /** A C string followed by its terminator reads back as itself. */
  lemma CStringAtTerminated(text: seq<char>)
    requires NUL !in text
    ensures CStringAt(text + [NUL], 0) == text
  {
    CStringAtUnique(text + [NUL], 0, text);
  }

  /** The character at index `i` of a C string, reading the terminator past its end. */
  function CharAt(s: seq<char>, i: nat): char
  {
    if i < |s| then s[i] else NUL
  }

  /** A C string without its first character; the empty string stays empty. */
  function Rest(s: seq<char>): seq<char>
  {
    if s == [] then [] else s[1..]
  }

  /**
   * `strncmp(a, b, n) == 0`: the first `n` characters agree, where the
   * comparison stops early at a terminator the two strings share. On two C
   * strings that is: their first `n` characters are the same, where a
   * string shorter than `n` counts as a whole.
   */
  function StrNEqual(a: seq<char>, b: seq<char>, n: nat): (eq: bool)
    ensures NUL !in a && NUL !in b ==> (eq <==> Take(a, n) == Take(b, n))
    decreases n
  {
    if n == 0 then true
    else if CharAt(a, 0) != CharAt(b, 0) then false
    else if CharAt(a, 0) == NUL then true
    else
      TakeCons(a, n);
      TakeCons(b, n);
      StrNEqual(Rest(a), Rest(b), n - 1)
  }

  /** Taking from a non-empty string takes its first character and then from the rest. */
  lemma TakeCons(s: seq<char>, n: nat)
    requires s != [] && n > 0
    ensures Take(s, n) == [s[0]] + Take(Rest(s), n - 1)
    ensures NUL !in s ==> NUL !in Rest(s)
  {
    assert forall c | c in s[1..] :: c in s;
    if n < |s| {
      assert Rest(s)[..n - 1] == s[1..n];
      assert s[..n] == [s[0]] + s[1..n];
    }
  }

  /** The first `n` characters of `s`, or all of `s` when it is shorter. */
  function Take(s: seq<char>, n: nat): (r: seq<char>)
    ensures r <= s && |r| == if n < |s| then n else |s|
  {
    if n < |s| then s[..n] else s
  }

  /**
   * Comparing a C string against all of a literal's characters succeeds
   * exactly when the literal is a prefix of the string.
   */
  lemma {:induction false} StrNEqualIsPrefix(a: seq<char>, lit: seq<char>)
    requires NUL !in a && NUL !in lit
    ensures StrNEqual(a, lit, |lit|) <==> lit <= a
  {
    if lit != [] {
      assert CharAt(lit, 0) == lit[0] != NUL;
      if a == [] {
        assert CharAt(a, 0) == NUL;
      } else {
        assert NUL !in Rest(a) && NUL !in Rest(lit) by {
          assert forall c | c in a[1..] :: c in a;
          assert forall c | c in lit[1..] :: c in lit;
        }
        StrNEqualIsPrefix(Rest(a), Rest(lit));
        assert lit <= a <==> a[0] == lit[0] && lit[1..] <= a[1..];
      }
    }
  }

  /**
   * What `snprintf(buf, size, "%s", text)` leaves in `buf`: as much of
   * `text` as fits in `size - 1` characters, the last place being kept for
   * the terminator.
   */
  function SnPrintf(size: nat, text: seq<char>): (r: seq<char>)
    requires size > 0
    ensures r <= text
    ensures |r| <= size - 1
    ensures |r| < |text| ==> |r| == size - 1
  {
    if |text| < size then text else text[..size - 1]
  }
}
