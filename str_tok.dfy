/**
 * `strtok_r` with the delimiter set "&": the token sequence it yields for a
 * C string, a plain split used as an independent reference for it, and the
 * routine itself over a mutable character buffer.
 */
module StrTok {

  import opened CStrings

  /** The one delimiter the request payload is split on. */
  const Delim: char := '&'

  /** The length of the longest prefix of `s` free of delimiters. */
  function RunLength(s: seq<char>): (n: nat)
    ensures n <= |s|
    ensures Delim !in s[..n]
    ensures n == |s| || s[n] == Delim
  {
    if s == [] || s[0] == Delim then 0
    else
      var m := RunLength(s[1..]);
      assert s[..1 + m] == [s[0]] + s[1..][..m];
      1 + m
  }

  /** Any delimiter-free prefix that reaches a delimiter or the end is the longest one. */
  lemma RunLengthUnique(s: seq<char>, m: nat)
    requires m <= |s| && Delim !in s[..m]
    requires m == |s| || s[m] == Delim
    ensures RunLength(s) == m
  {
  }

  /**
   * The tokens `strtok_r(s, "&", ...)` and its follow-up calls return, in
   * order: the maximal runs of non-delimiter characters. Delimiters next to
   * each other, or at either end, yield no token.
   */
  function Tokens(s: seq<char>): (r: seq<seq<char>>)
    ensures |r| <= (|s| + 1) / 2
    decreases |s|
  {
    if s == [] then []
    else if s[0] == Delim then Tokens(s[1..])
    else
      var n := RunLength(s);
      var rest := Tokens(s[n..]);
      assert n < |s| ==> rest == Tokens(s[n + 1..]);
      [s[..n]] + rest
  }

  /** Every token is non-empty and free of delimiters, and of NULs when the input is. */
  lemma {:induction false} TokensWellFormed(s: seq<char>)
    ensures forall t | t in Tokens(s) :: t != [] && Delim !in t
    ensures NUL !in s ==> forall t | t in Tokens(s) :: NUL !in t
    decreases |s|
  {
    if s == [] {
    } else if s[0] == Delim {
      TokensWellFormed(s[1..]);
    } else {
      var n := RunLength(s);
      TokensWellFormed(s[n..]);
      assert forall c | c in s[..n] :: c in s;
      assert forall c | c in s[n..] :: c in s;
    }
  }

  /** Splitting on every delimiter, keeping the empty pieces. */
  function Split(s: seq<char>): (parts: seq<seq<char>>)
    ensures parts != []
    ensures forall p | p in parts :: Delim !in p
    decreases |s|
  {
    var n := RunLength(s);
    if n == |s| then [s] else [s[..n]] + Split(s[n + 1..])
  }

  /** Joining pieces with the delimiter between each two. */
  function Join(parts: seq<seq<char>>): seq<char>
  {
    if parts == [] then []
    else if |parts| == 1 then parts[0]
    else parts[0] + [Delim] + Join(parts[1..])
  }

  /** The non-empty pieces, in order. */
  function NonEmpty(parts: seq<seq<char>>): (r: seq<seq<char>>)
    ensures forall p | p in r :: p != [] && p in parts
  {
    if parts == [] then []
    else if parts[0] == [] then NonEmpty(parts[1..])
    else [parts[0]] + NonEmpty(parts[1..])
  }

  /** Splitting loses nothing: joining the pieces gives back the input. */
  lemma {:induction false} JoinSplit(s: seq<char>)
    ensures Join(Split(s)) == s
    decreases |s|
  {
    var n := RunLength(s);
    if n < |s| {
      var tail := Split(s[n + 1..]);
      JoinSplit(s[n + 1..]);
      assert Split(s) == [s[..n]] + tail;
      assert Join(Split(s)) == s[..n] + [Delim] + Join(tail);
      assert s == s[..n] + [Delim] + s[n + 1..];
    } else {
      assert Split(s) == [s];
    }
  }

  /** The tokens are exactly the non-empty pieces of the plain split. */
  lemma {:induction false} TokensAreNonEmptySplit(s: seq<char>)
    ensures Tokens(s) == NonEmpty(Split(s))
    decreases |s|
  {
    if s == [] {
    } else if s[0] == Delim {
      assert RunLength(s) == 0;
      TokensAreNonEmptySplit(s[1..]);
    } else {
      var n := RunLength(s);
      if n < |s| {
        TokensAreNonEmptySplit(s[n + 1..]);
        assert s[n..][0] == Delim && s[n..][1..] == s[n + 1..];
      } else {
        assert s[..n] == s && s[n..] == [];
      }
    }
  }

  /** Leading delimiters do not change the tokens. */
  lemma {:induction false} TokensSkipDelims(s: seq<char>, k: nat)
    requires k <= |s|
    requires forall i | 0 <= i < k :: s[i] == Delim
    ensures Tokens(s) == Tokens(s[k..])
  {
    if k > 0 {
      TokensSkipDelims(s[1..], k - 1);
      assert s[1..][k - 1..] == s[k..];
    }
  }

  /**
   * A non-empty delimiter-free run that reaches a delimiter or the end is
   * the first token; a delimiter right after it is consumed with it.
   */
  lemma TokensTakeRun(s: seq<char>, m: nat)
    requires 0 < m <= |s| && Delim !in s[..m]
    requires m == |s| || s[m] == Delim
    ensures Tokens(s) == [s[..m]] + Tokens(s[m..])
    ensures m < |s| ==> Tokens(s[m..]) == Tokens(s[m + 1..])
  {
    RunLengthUnique(s, m);
    assert s[0] == s[..m][0] != Delim;
    if m < |s| {
      assert s[m..][1..] == s[m + 1..];
    }
  }

  /**
   * Whether position `p` of buffer `s` is one that the tokenising loop
   * started at `off` overwrites with NUL: a delimiter inside the C string
   * that directly follows a token character.
   */
  predicate IsTerminator(s: seq<char>, off: nat, p: nat)
    requires off <= |s|
  {
    off < p < CEnd(s, off) && s[p] == Delim && s[p - 1] != Delim
  }

  /**
   * The buffer `s` after `strtok_r` has gone through the whole C string at
   * `off`: every delimiter that ends a token is NUL, nothing else changed.
   */
  function Tokenized(s: seq<char>, off: nat): (r: seq<char>)
    requires off <= |s|
    ensures |r| == |s|
    ensures forall p | 0 <= p < |s| :: r[p] == if IsTerminator(s, off, p) then NUL else s[p]
  {
    seq(|s|, p requires 0 <= p < |s| => if IsTerminator(s, off, p) then NUL else s[p])
  }

  /** Delimiters skipped inside a C string do not change its tokens. */
  lemma SkipInCString(s: seq<char>, pos: nat, i: nat)
    requires pos <= |s| && pos <= i <= CEnd(s, pos)
    requires forall p | pos <= p < i :: s[p] == Delim
    ensures Tokens(CStringAt(s, pos)) == Tokens(CStringAt(s, i))
  {
    var rest := CStringAt(s, pos);
    var k := i - pos;
    assert CStringAt(s, i) == rest[k..] by {
      CStringAtSuffix(s, pos, i);
    }
    assert Tokens(rest) == Tokens(rest[k..]) by {
      forall q | 0 <= q < k
        ensures rest[q] == Delim
      {
        assert rest[q] == s[pos + q];
      }
      TokensSkipDelims(rest, k);
    }
  }

  /**
   * A delimiter-free run `s[i..j]` of a C string that reaches a delimiter or
   * the terminator is its next token; a delimiter after it goes with it.
   */
  lemma RunInCString(s: seq<char>, i: nat, j: nat)
    requires i <= |s| && i < j <= CEnd(s, i)
    requires forall p | i <= p < j :: s[p] != Delim
    requires j == CEnd(s, i) || s[j] == Delim
    ensures Tokens(CStringAt(s, i)) == [s[i..j]] + Tokens(CStringAt(s, j))
    ensures j < CEnd(s, i) ==> Tokens(CStringAt(s, j)) == Tokens(CStringAt(s, j + 1))
  {
    var rest := CStringAt(s, i);
    var m := j - i;
    CStringAtSuffix(s, i, j);
    assert rest[..m] == s[i..j];
    assert Delim !in rest[..m];
    assert m == |rest| || rest[m] == Delim;
    TokensTakeRun(rest, m);
    assert rest[m..] == CStringAt(s, j);
    if j < CEnd(s, i) {
      CStringAtSuffix(s, i, j + 1);
      assert rest[m + 1..] == CStringAt(s, j + 1);
    }
  }

  /**
   * `strspn(buf + pos, "&")`: the first position at or after `pos` that is
   * not a delimiter, within the C string at `pos`.
   */
  method SkipDelims(buf: array<char>, pos: nat) returns (i: nat)
    requires pos <= buf.Length
    ensures pos <= i <= CEnd(buf[..], pos)
    ensures forall p | pos <= p < i :: buf[p] == Delim
    ensures i == CEnd(buf[..], pos) || buf[i] != Delim
  {
    ghost var end := CEnd(buf[..], pos);
    i := pos;
    while i < buf.Length && buf[i] == Delim
      invariant pos <= i <= end
      invariant forall p | pos <= p < i :: buf[p] == Delim
    {
      i := i + 1;
    }
  }

  /**
   * `strpbrk(buf + i, "&")`, stopping at the terminator: the end of the run
   * of non-delimiter characters that starts at `i`.
   */
  method ScanRun(buf: array<char>, i: nat) returns (j: nat)
    requires i <= buf.Length
    ensures i <= j <= CEnd(buf[..], i)
    ensures forall p | i <= p < j :: buf[p] != Delim
    ensures j == CEnd(buf[..], i) || buf[j] == Delim
  {
    ghost var end := CEnd(buf[..], i);
    j := i;
    while j < buf.Length && buf[j] != Delim && buf[j] != NUL
      invariant i <= j <= end
      invariant forall p | i <= p < j :: buf[p] != Delim
    {
      j := j + 1;
    }
  }

  /**
   * What one `strtok_r(str, "&", &save)` call resumed at `pos` of buffer `s`
   * finds: at the terminator, after nothing but delimiters, no token, and
   * `next` stays at the terminator. Otherwise the token is `s[start..stop]`,
   * preceded by delimiters only and ended by a delimiter or the terminator,
   * and `next` is just past that delimiter, if there is one, where the
   * remaining tokens start.
   */
  predicate TokOutcome(s: seq<char>, pos: nat, found: bool, start: nat, stop: nat, next: nat)
    requires pos <= |s|
  {
    var rest := CStringAt(s, pos);
    var end := pos + |rest|;
    && found == (Tokens(rest) != [])
    && pos <= next <= end
    && (!found ==> next == end && forall p | pos <= p < next :: s[p] == Delim)
    && (found ==>
          && pos <= start < stop <= end
          && s[start..stop] == Tokens(rest)[0]
          && next == (if stop < end then stop + 1 else stop)
          && Tokens(CStringAt(s, next)) == Tokens(rest)[1..]
          && (forall p | pos <= p < start :: s[p] == Delim)
          && (forall p | start <= p < stop :: s[p] != Delim)
          && (stop < end ==> s[stop] == Delim))
  }

  /** Only delimiters up to the terminator: the C string at `pos` has no token left. */
  lemma NoTokenLeft(s: seq<char>, pos: nat, i: nat)
    requires pos <= |s| && pos <= i <= CEnd(s, pos) && (i == |s| || s[i] == NUL)
    requires forall p | pos <= p < i :: s[p] == Delim
    ensures TokOutcome(s, pos, false, i, i, i)
  {
    SkipInCString(s, pos, i);
    CStringAtSuffix(s, pos, i);
    assert i == CEnd(s, pos);
  }

  /**
   * Delimiters on `[pos, i)` followed by the run `[i, j)`: that run is the
   * first token of the C string at `pos`, and what follows it (past its
   * delimiter, if any) holds the remaining tokens.
   */
  lemma NextToken(s: seq<char>, pos: nat, i: nat, j: nat)
    requires pos <= |s| && pos <= i <= CEnd(s, pos) && i < |s| && s[i] != NUL && s[i] != Delim
    requires forall p | pos <= p < i :: s[p] == Delim
    requires i <= j <= CEnd(s, i)
    requires forall p | i <= p < j :: s[p] != Delim
    requires j == CEnd(s, i) || s[j] == Delim
    ensures j < CEnd(s, pos) <==> j < |s| && s[j] == Delim
    ensures TokOutcome(s, pos, true, i, j, if j < CEnd(s, pos) then j + 1 else j)
  {
    CEndSuffix(s, pos, i);
    SkipInCString(s, pos, i);
    RunInCString(s, i, j);
    var ts := Tokens(CStringAt(s, pos));
    var after := Tokens(CStringAt(s, if j < CEnd(s, pos) then j + 1 else j));
    assert ts == [s[i..j]] + after;
    assert ts[1..] == after;
  }

  /** The search half of `strtok_r`: finds the token without writing. */
  method FindToken(buf: array<char>, pos: nat) returns (found: bool, start: nat, stop: nat, next: nat)
    requires pos <= buf.Length
    ensures TokOutcome(buf[..], pos, found, start, stop, next)
  {
    var i := SkipDelims(buf, pos);
    if i == buf.Length || buf[i] == NUL {
      NoTokenLeft(buf[..], pos, i);
      return false, i, i, i;
    }
    var j := ScanRun(buf, i);
    NextToken(buf[..], pos, i, j);
    return true, i, j, if j < buf.Length && buf[j] == Delim then j + 1 else j;
  }

  /**
   * One call of `strtok_r(str, "&", &save)`, with `pos` the place `str` or
   * `save` points at: finds the token as `FindToken` does and overwrites the
   * delimiter that ends it, if any, with NUL.
   */
  method StrTokR(buf: array<char>, pos: nat) returns (found: bool, start: nat, stop: nat, next: nat)
    requires pos <= buf.Length
    modifies buf
    ensures TokOutcome(old(buf[..]), pos, found, start, stop, next)
    ensures buf[..] == if found && stop < CEnd(old(buf[..]), pos) then old(buf[..])[stop := NUL] else old(buf[..])
  {
    found, start, stop, next := FindToken(buf, pos);
    if found && stop < buf.Length && buf[stop] == Delim {
      buf[stop] := NUL;
    }
  }

  /**
   * Within one `strtok_r` step over `[save, next)` of the C string at `off`,
   * the only terminator is the delimiter that ends the token found, if any.
   */
  lemma TerminatorsInStep(s: seq<char>, off: nat, save: nat, found: bool, start: nat, stop: nat, next: nat)
    requires off <= |s| && off <= save <= CEnd(s, off)
    requires save == off || save == CEnd(s, off) || s[save - 1] == Delim
    requires TokOutcome(s, save, found, start, stop, next)
    ensures CEnd(s, save) == CEnd(s, off)
    ensures forall p | save <= p < next ::
      IsTerminator(s, off, p) <==> found && p == stop && stop < CEnd(s, off)
  {
    CStringAtSuffix(s, off, save);
    forall p | save <= p < next
      ensures IsTerminator(s, off, p) <==> found && p == stop && stop < CEnd(s, off)
    {
      if found && p == stop && stop < CEnd(s, off) {
        assert s[p - 1] != Delim;
      } else if p > save {
        assert !found || p < start || start <= p < stop;
        assert !found || p <= start || s[p] != Delim;
      }
    }
  }

  /** A `strtok_r` step reads the buffer only from where it resumes. */
  lemma TokOutcomeFrame(b: seq<char>, s: seq<char>, pos: nat, found: bool, start: nat, stop: nat, next: nat)
    requires |b| == |s| && pos <= |b| && b[pos..] == s[pos..]
    requires TokOutcome(b, pos, found, start, stop, next)
    ensures TokOutcome(s, pos, found, start, stop, next)
  {
    CStringAtFrame(b, s, pos);
    AgreeFrom(b, s, pos);
    AgreeSlices(b, s, pos, next, next);
    CStringAtFrame(b, s, next);
    if found {
      AgreeSlices(b, s, pos, start, stop);
    }
  }

  /** Two buffers whose suffixes from `i` are equal agree on every slice and suffix from `i`. */
  lemma AgreeSlices(b: seq<char>, s: seq<char>, i: nat, j: nat, k: nat)
    requires |b| == |s| && i <= j <= k <= |b| && b[i..] == s[i..]
    ensures b[j..k] == s[j..k] && b[j..] == s[j..]
  {
    assert b[j..k] == b[i..][j - i..k - i];
    assert b[j..] == b[i..][j - i..];
  }

  /** Two buffers whose suffixes from `i` are equal agree at every index from `i`. */
  lemma AgreeFrom(b: seq<char>, s: seq<char>, i: nat)
    requires |b| == |s| && i <= |b| && b[i..] == s[i..]
    ensures forall p | i <= p < |b| :: b[p] == s[p]
  {
    assert forall p | i <= p < |b| :: b[p] == b[i..][p - i];
  }

  /**
   * The buffer `a` of a `strtok_r` scan over the C string at `off` of the
   * original buffer `s0`, resumed at `save`: before `save` the terminators
   * of `s0` are NUL, everything else is still as in `s0`.
   */
  predicate Scanned(a: seq<char>, s0: seq<char>, off: nat, save: nat)
  {
    && |a| == |s0| && off <= |s0| && off <= save <= CEnd(s0, off)
    && (save == off || save == CEnd(s0, off) || s0[save - 1] == Delim)
    && forall p | 0 <= p < |a| :: a[p] == if p < save && IsTerminator(s0, off, p) then NUL else s0[p]
  }

  /**
   * The token in hand, if any, is `s0[start..stop]` and is already NUL
   * terminated in `a`; with none in hand the scan is over.
   */
  predicate InHand(a: seq<char>, s0: seq<char>, off: nat, found: bool, start: nat, stop: nat, save: nat)
    requires |a| == |s0| && off <= |s0|
  {
    && (!found ==> save == CEnd(s0, off))
    && (found ==>
          && off <= start < stop <= save && stop <= CEnd(s0, off)
          && (forall p | start <= p < stop :: s0[p] != Delim)
          && (stop == |s0| || a[stop] == NUL))
  }

  /** The remaining tokens of a scan, with the token in hand, if any, in front. */
  function Pending(s0: seq<char>, found: bool, start: nat, stop: nat, save: nat): seq<seq<char>>
    requires (found ==> start <= stop <= |s0|) && save <= |s0|
  {
    (if found then [s0[start..stop]] else []) + Tokens(CStringAt(s0, save))
  }

  /** An untouched buffer is scanned up to the start of its C string. */
  lemma ScanStart(s0: seq<char>, off: nat)
    requires off <= |s0|
    ensures Scanned(s0, s0, off, off)
  {
  }

  /** A scanned buffer still agrees with the original from `save` on. */
  lemma ScannedSuffix(a: seq<char>, s0: seq<char>, off: nat, save: nat)
    requires Scanned(a, s0, off, save)
    ensures a[save..] == s0[save..]
  {
    assert forall p | save <= p < |a| :: a[save..][p - save] == a[p] == s0[p];
  }

  /** One `strtok_r` call of the scan keeps the buffer scanned up to the new resume point. */
  lemma ScanAdvanceBuffer(a: seq<char>, a': seq<char>, s0: seq<char>, off: nat, save: nat,
                          found: bool, start: nat, stop: nat, next: nat)
    requires Scanned(a, s0, off, save)
    requires TokOutcome(s0, save, found, start, stop, next) && CEnd(s0, save) == CEnd(s0, off)
    requires a' == if found && stop < CEnd(s0, off) then a[stop := NUL] else a
    ensures Scanned(a', s0, off, next)
  {
    var end := CEnd(s0, off);
    TerminatorsInStep(s0, off, save, found, start, stop, next);
    forall p | 0 <= p < |a'|
      ensures a'[p] == if p < next && IsTerminator(s0, off, p) then NUL else s0[p]
    {
      if save <= p < next {
        if found && p == stop && stop < end {
          assert a'[p] == NUL;
        } else {
          assert a'[p] == a[p];
        }
      } else {
        assert !(found && p == stop && stop < end);
        assert a'[p] == a[p];
      }
    }
  }

  /**
   * One `strtok_r` call of the scan: the buffer stays scanned up to the new
   * resume point, the token found is in hand, and no token is lost.
   */
  lemma ScanAdvance(a: seq<char>, a': seq<char>, s0: seq<char>, off: nat, save: nat,
                    found: bool, start: nat, stop: nat, next: nat)
    requires Scanned(a, s0, off, save)
    requires TokOutcome(s0, save, found, start, stop, next) && CEnd(s0, save) == CEnd(s0, off)
    requires a' == if found && stop < CEnd(s0, off) then a[stop := NUL] else a
    ensures Scanned(a', s0, off, next)
    ensures InHand(a', s0, off, found, start, stop, next)
    ensures Pending(s0, found, start, stop, next) == Tokens(CStringAt(s0, save))
  {
    ScanAdvanceBuffer(a, a', s0, off, save, found, start, stop, next);
    var ts := Tokens(CStringAt(s0, save));
    if found {
      assert stop < CEnd(s0, off) ==> a'[stop] == NUL;
      assert ts == [ts[0]] + ts[1..];
    } else {
      assert CStringAt(s0, next) == [];
    }
  }

  /** A scan resumed at the terminator has no token left and has written every terminator. */
  lemma ScanDone(a: seq<char>, s0: seq<char>, off: nat)
    requires off <= |s0| && Scanned(a, s0, off, CEnd(s0, off))
    ensures CStringAt(s0, CEnd(s0, off)) == []
    ensures a == Tokenized(s0, off)
  {
  }

  /** The token in hand reads back, as a C string, as itself. */
  lemma TokenReadsBack(a: seq<char>, s0: seq<char>, off: nat, found: bool, start: nat, stop: nat, save: nat)
    requires Scanned(a, s0, off, save) && InHand(a, s0, off, found, start, stop, save) && found
    ensures CStringAt(a, start) == s0[start..stop]
  {
    assert a[start..stop] == s0[start..stop];
    assert forall k | 0 <= k < stop - start :: s0[start..stop][k] == s0[start + k];
    CStringAtUnique(a, start, s0[start..stop]);
  }

  /**
   * One `strtok_r(nullptr, "&", &save)` call of a scan of the C string at
   * `off` of the original buffer `s0`, resumed at `save`: the call finds
   * the next token of `s0`, and the buffer stays scanned up to the new
   * resume point `next`.
   */
  method StrTokFrom(buf: array<char>, ghost s0: seq<char>, ghost off: nat, save: nat)
      returns (found: bool, start: nat, stop: nat, next: nat)
    requires Scanned(buf[..], s0, off, save)
    modifies buf
    ensures save <= next && (found ==> save < next)
    ensures Scanned(buf[..], s0, off, next)
    ensures InHand(buf[..], s0, off, found, start, stop, next)
    ensures Pending(s0, found, start, stop, next) == Tokens(CStringAt(s0, save))
  {
    ghost var b := buf[..];
    ScannedSuffix(b, s0, off, save);
    CStringAtFrame(b, s0, save);
    CStringAtSuffix(s0, off, save);
    found, start, stop, next := StrTokR(buf, save);
    TokOutcomeFrame(b, s0, save, found, start, stop, next);
    ScanAdvance(b, buf[..], s0, off, save, found, start, stop, next);
  }
}
