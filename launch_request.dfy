/**
 * The launch-request sanitiser: how the payload of a `service-request://`
 * message becomes the argument vector handed to the renderer launcher.
 */
module LaunchRequest {

  import opened CStrings
  import opened StrTok

  /** The option whose value the server always supplies itself. */
  const CastanetsOption: seq<char> := "--enable-castanets"

  /** The text the synthesised switch starts with, before the address. */
  const CastanetsPrefix: seq<char> := "--enable-castanets="

  /** `sizeof(castanets_switch)`: the stack buffer the switch is formatted into. */
  const SwitchBufferSize: nat := 35

  /** The size actually passed to `snprintf`: `sizeof(castanets_switch) - 1`. */
  const SwitchSizeArg: nat := SwitchBufferSize - 1

  /** The argument vector used when no token survives sanitising. */
  const DefaultArgv: seq<seq<char>> := ["_", "--type=renderer"]

  /** The longest dotted-quad IPv4 address, "255.255.255.255". */
  const MaxIPv4Length: nat := 15

  /** Whether a token is a castanets option, with or without a value. */
  predicate IsCastanets(tok: seq<char>)
  {
    CastanetsOption <= tok
  }

  /**
   * The source's test `strncmp(tok, "--enable-castanets",
   * strlen("--enable-castanets")) == 0` is this prefix test on a C string.
   */
  lemma IsCastanetsIsStrNCmp(tok: seq<char>)
    requires NUL !in tok
    ensures IsCastanets(tok) <==> StrNEqual(tok, CastanetsOption, |CastanetsOption|)
  {
    StrNEqualIsPrefix(tok, CastanetsOption);
  }

  /**
   * The switch as the code builds it: the option followed by the
   * connection's own address, formatted by `snprintf` with size
   * `sizeof(castanets_switch) - 1` and so cut to 33 characters.
   */
  function ClippedCastanetsSwitch(address: CText): (sw: seq<char>)
    ensures |sw| <= SwitchSizeArg - 1
    ensures sw <= CastanetsPrefix + address
    ensures |CastanetsPrefix + address| <= SwitchSizeArg - 1 ==> sw == CastanetsPrefix + address
    ensures |CastanetsPrefix + address| > SwitchSizeArg - 1 ==> sw == (CastanetsPrefix + address)[..SwitchSizeArg - 1]
    ensures NUL !in sw && IsCastanets(sw)
  {
    var sw := SnPrintf(SwitchSizeArg, CastanetsPrefix + address);
    assert sw[..|CastanetsOption|] == CastanetsOption;
    assert forall c | c in sw :: c in CastanetsPrefix + address;
    sw
  }

  /**
   * The switch the server writes in place of the peer's castanets option,
   * as the buffer was sized for: `snprintf` given the whole of
   * `castanets_switch`, so that every dotted-quad IPv4 address fits.
   */
  function CastanetsSwitch(address: CText): (sw: seq<char>)
    ensures |address| <= MaxIPv4Length ==> sw == CastanetsPrefix + address
    ensures |sw| <= SwitchBufferSize - 1 && sw <= CastanetsPrefix + address
    ensures |CastanetsPrefix + address| > SwitchBufferSize - 1 ==> sw == (CastanetsPrefix + address)[..SwitchBufferSize - 1]
    ensures NUL !in sw && IsCastanets(sw)
  {
    var sw := SnPrintf(SwitchBufferSize, CastanetsPrefix + address);
    assert sw[..|CastanetsOption|] == CastanetsOption;
    assert forall c | c in sw :: c in CastanetsPrefix + address;
    sw
  }

  /**
   * The tokens in order, with the first castanets option replaced by `sw`
   * and every later one dropped; `handled` says the switch is already out.
   */
  function Sanitize(tokens: seq<seq<char>>, sw: seq<char>, handled: bool): (r: seq<seq<char>>)
    ensures forall a | a in r :: a in tokens || a == sw
    ensures |r| <= |tokens|
  {
    if tokens == [] then []
    else if IsCastanets(tokens[0]) then
      (if handled then [] else [sw]) + Sanitize(tokens[1..], sw, true)
    else [tokens[0]] + Sanitize(tokens[1..], sw, handled)
  }

  /**
   * The argv `HandleServiceRequest` builds for request payload `args` when
   * castanets options are replaced by `sw`: the sanitised tokens, or the
   * default pair when none survives.
   */
  function ArgvWith(sw: seq<char>, args: CText): (argv: seq<seq<char>>)
    ensures argv != []
    ensures forall a | a in argv :: a in Tokens(args) || a == sw || a in DefaultArgv
  {
    var r := Sanitize(Tokens(args), sw, false);
    if r == [] then DefaultArgv else r
  }

  /**
   * The argv `HandleServiceRequest` hands to the launcher for request
   * payload `args` from a peer at `address`, with the intended switch.
   */
  function LaunchArgv(address: CText, args: CText): (argv: seq<seq<char>>)
    ensures argv != []
    ensures forall a | a in argv :: a in Tokens(args) || a == CastanetsSwitch(address) || a in DefaultArgv
  {
    ArgvWith(CastanetsSwitch(address), args)
  }

  /** The argv as the code builds it, with the switch cut to 33 characters. */
  function ClippedLaunchArgv(address: CText, args: CText): (argv: seq<seq<char>>)
    ensures argv != []
    ensures forall a | a in argv :: a in Tokens(args) || a == ClippedCastanetsSwitch(address) || a in DefaultArgv
  {
    ArgvWith(ClippedCastanetsSwitch(address), args)
  }

  /** The elements that are not castanets options, in order. */
  function WithoutCastanets(xs: seq<seq<char>>): (r: seq<seq<char>>)
    ensures forall x | x in r :: x in xs && !IsCastanets(x)
  {
    if xs == [] then []
    else if IsCastanets(xs[0]) then WithoutCastanets(xs[1..])
    else [xs[0]] + WithoutCastanets(xs[1..])
  }

  /** Once the switch is out, castanets options are simply dropped. */
  lemma {:induction false} SanitizeHandled(ts: seq<seq<char>>, sw: seq<char>)
    ensures Sanitize(ts, sw, true) == WithoutCastanets(ts)
  {
    if ts != [] {
      SanitizeHandled(ts[1..], sw);
    }
  }

  /** Without castanets options the tokens pass through unchanged. */
  lemma {:induction false} SanitizeNoCastanets(ts: seq<seq<char>>, sw: seq<char>, handled: bool)
    requires forall i | 0 <= i < |ts| :: !IsCastanets(ts[i])
    ensures Sanitize(ts, sw, handled) == ts
  {
    if ts != [] {
      SanitizeNoCastanets(ts[1..], sw, handled);
    }
  }

  /**
   * With the first castanets option at index `k`, the result is the tokens
   * before it, the switch, and the later tokens without castanets options.
   */
  lemma {:induction false} SanitizeFirstCastanets(ts: seq<seq<char>>, sw: seq<char>, k: nat)
    requires k < |ts| && IsCastanets(ts[k])
    requires forall i | 0 <= i < k :: !IsCastanets(ts[i])
    ensures Sanitize(ts, sw, false) == ts[..k] + [sw] + WithoutCastanets(ts[k + 1..])
  {
    var rest := ts[1..];
    if k == 0 {
      SanitizeHandled(rest, sw);
    } else {
      var later := WithoutCastanets(ts[k + 1..]);
      assert Sanitize(rest, sw, false) == rest[..k - 1] + [sw] + later by {
        SanitizeFirstCastanets(rest, sw, k - 1);
        assert rest[k..] == ts[k + 1..];
      }
      assert Sanitize(ts, sw, false) == [ts[0]] + Sanitize(rest, sw, false);
      assert ts[..k] == [ts[0]] + rest[..k - 1];
    }
  }

  /** Filtering distributes over putting one element in front. */
  lemma WithoutCastanetsCons(x: seq<char>, xs: seq<seq<char>>)
    ensures WithoutCastanets([x] + xs) == (if IsCastanets(x) then [] else [x]) + WithoutCastanets(xs)
  {
    assert ([x] + xs)[0] == x && ([x] + xs)[1..] == xs;
  }

  /**
   * One token of the loop: a castanets option contributes the switch if it
   * is not out yet, and marks it out; any other token is kept.
   */
  lemma SanitizeCons(x: seq<char>, xs: seq<seq<char>>, sw: seq<char>, handled: bool)
    ensures Sanitize([x] + xs, sw, handled) ==
      if IsCastanets(x) then (if handled then [] else [sw]) + Sanitize(xs, sw, true)
      else [x] + Sanitize(xs, sw, handled)
  {
    assert ([x] + xs)[0] == x && ([x] + xs)[1..] == xs;
  }

  /** Whether some element is a castanets option. */
  predicate HasCastanets(xs: seq<seq<char>>)
  {
    exists i | 0 <= i < |xs| :: IsCastanets(xs[i])
  }

  /** Putting an element in front adds a castanets option exactly when it is one. */
  lemma HasCastanetsCons(x: seq<char>, xs: seq<seq<char>>)
    ensures HasCastanets([x] + xs) <==> IsCastanets(x) || HasCastanets(xs)
  {
    var ys := [x] + xs;
    if HasCastanets(ys) {
      var i :| 0 <= i < |ys| && IsCastanets(ys[i]);
      if i > 0 {
        assert IsCastanets(xs[i - 1]);
      }
    }
    if HasCastanets(xs) {
      var i :| 0 <= i < |xs| && IsCastanets(xs[i]);
      assert IsCastanets(ys[i + 1]);
    }
    assert ys[0] == x;
  }

  /**
   * For a switch that is itself a castanets option: it is the only one in
   * the result, it is there at most once, and it is there exactly when the
   * input held a castanets option and none had been handled before.
   */
  lemma {:induction false} SanitizeSwitchOnce(ts: seq<seq<char>>, sw: seq<char>, handled: bool)
    requires IsCastanets(sw)
    ensures var r := Sanitize(ts, sw, handled);
      && (forall i | 0 <= i < |r| && IsCastanets(r[i]) :: r[i] == sw)
      && (forall i, j | 0 <= i < j < |r| :: !(IsCastanets(r[i]) && IsCastanets(r[j])))
      && (HasCastanets(r) <==> !handled && HasCastanets(ts))
  {
    if ts != [] {
      var h := handled || IsCastanets(ts[0]);
      var tail := Sanitize(ts[1..], sw, h);
      SanitizeSwitchOnce(ts[1..], sw, h);
      HasCastanetsCons(ts[0], ts[1..]);
      assert ts == [ts[0]] + ts[1..];
      if IsCastanets(ts[0]) && !handled {
        HasCastanetsCons(sw, tail);
        assert !HasCastanets(tail);
      } else if !IsCastanets(ts[0]) {
        HasCastanetsCons(ts[0], tail);
      }
    }
  }

  /** Sanitising keeps every other token, and yields nothing only for no tokens. */
  lemma {:induction false} SanitizeKeepsOthers(ts: seq<seq<char>>, sw: seq<char>, handled: bool)
    requires IsCastanets(sw)
    ensures WithoutCastanets(Sanitize(ts, sw, handled)) == WithoutCastanets(ts)
    ensures !handled ==> (Sanitize(ts, sw, handled) == [] <==> ts == [])
  {
    if ts != [] {
      var h := handled || IsCastanets(ts[0]);
      SanitizeKeepsOthers(ts[1..], sw, h);
      var tail := Sanitize(ts[1..], sw, h);
      if IsCastanets(ts[0]) && !handled {
        WithoutCastanetsCons(sw, tail);
      } else if !IsCastanets(ts[0]) {
        WithoutCastanetsCons(ts[0], tail);
      } else {
        assert Sanitize(ts, sw, handled) == tail;
      }
      WithoutCastanetsCons(ts[0], ts[1..]);
      assert ts == [ts[0]] + ts[1..];
    }
  }

  /** Index `k` holds the first castanets option of `ts`. */
  predicate FirstCastanetsAt(ts: seq<seq<char>>, k: nat)
  {
    k < |ts| && IsCastanets(ts[k]) && forall i | 0 <= i < k :: !IsCastanets(ts[i])
  }

  /**
   * The whole argv in terms of the request's tokens, for either switch: the
   * default pair when there are none, the tokens themselves when none is a
   * castanets option, and otherwise the tokens before the first castanets
   * option, the switch, and the later tokens that are not castanets options.
   */
  lemma ArgvShape(sw: seq<char>, args: CText)
    requires IsCastanets(sw)
    ensures var ts := Tokens(args); var argv := ArgvWith(sw, args);
      && (ts == [] ==> argv == DefaultArgv)
      && (ts != [] && !HasCastanets(ts) ==> argv == ts)
      && forall k: nat | FirstCastanetsAt(ts, k) ::
           argv == ts[..k] + [sw] + WithoutCastanets(ts[k + 1..])
  {
    var ts := Tokens(args);
    SanitizeKeepsOthers(ts, sw, false);
    if !HasCastanets(ts) {
      SanitizeNoCastanets(ts, sw, false);
    }
    forall k: nat | FirstCastanetsAt(ts, k)
      ensures ArgvWith(sw, args) == ts[..k] + [sw] + WithoutCastanets(ts[k + 1..])
    {
      SanitizeFirstCastanets(ts, sw, k);
    }
  }

  /**
   * At most one argv entry is a castanets option; it is the switch the
   * server built, never the peer's text, and it is present exactly when the
   * request asked for castanets.
   */
  lemma ArgvSwitch(sw: seq<char>, args: CText)
    requires IsCastanets(sw)
    ensures var argv := ArgvWith(sw, args);
      && (forall i | 0 <= i < |argv| && IsCastanets(argv[i]) :: argv[i] == sw)
      && (forall i, j | 0 <= i < j < |argv| :: !(IsCastanets(argv[i]) && IsCastanets(argv[j])))
      && (HasCastanets(argv) <==> HasCastanets(Tokens(args)))
  {
    var ts := Tokens(args);
    SanitizeSwitchOnce(ts, sw, false);
    SanitizeKeepsOthers(ts, sw, false);
    if ts == [] {
      assert !HasCastanets(DefaultArgv);
    }
  }

  /**
   * Every token that is not a castanets option reaches argv verbatim and in
   * order, and nothing else that is not a castanets option does, except the
   * default pair when no token survives.
   */
  lemma ArgvKeepsOtherTokens(sw: seq<char>, args: CText)
    requires IsCastanets(sw)
    ensures WithoutCastanets(ArgvWith(sw, args)) ==
      if Tokens(args) == [] then DefaultArgv else WithoutCastanets(Tokens(args))
  {
    SanitizeKeepsOthers(Tokens(args), sw, false);
    if Tokens(args) == [] {
      WithoutCastanetsCons(DefaultArgv[0], DefaultArgv[1..]);
      WithoutCastanetsCons(DefaultArgv[1], []);
      assert DefaultArgv == [DefaultArgv[0]] + [DefaultArgv[1]];
    }
  }

  /**
   * With either switch the launcher never gets an empty argv, nor an empty
   * or NUL-carrying argument.
   */
  lemma ArgvWellFormed(sw: seq<char>, args: CText)
    requires IsCastanets(sw) && NUL !in sw
    ensures var argv := ArgvWith(sw, args);
      && argv != []
      && forall a | a in argv :: a != [] && NUL !in a
  {
    TokensWellFormed(args);
    SanitizeKeepsOthers(Tokens(args), sw, false);
  }

  /** A single token is the whole token sequence. */
  lemma TokensOfOne(t: seq<char>)
    requires t != [] && Delim !in t
    ensures Tokens(t) == [t]
  {
    assert t[..|t|] == t && t[|t|..] == [];
    TokensTakeRun(t, |t|);
  }

  /** Two tokens joined by one delimiter are split back apart. */
  lemma TokensOfTwo(t1: seq<char>, t2: seq<char>)
    requires t1 != [] && Delim !in t1 && t2 != [] && Delim !in t2
    ensures Tokens(t1 + [Delim] + t2) == [t1, t2]
  {
    var s := t1 + [Delim] + t2;
    assert s[..|t1|] == t1 && s[|t1|] == Delim && s[|t1| + 1..] == t2;
    TokensTakeRun(s, |t1|);
    TokensOfOne(t2);
  }

  /**
   * A lone castanets option, whatever value the peer gave it, becomes the
   * server's own switch.
   */
  lemma ArgvIgnoresPeerValue(address: CText, t: CText)
    requires IsCastanets(t) && Delim !in t
    ensures LaunchArgv(address, t) == [CastanetsSwitch(address)]
  {
    ArgvLoneOption(CastanetsSwitch(address), t);
  }

  /** A lone castanets option becomes the switch, whichever switch is used. */
  lemma ArgvLoneOption(sw: seq<char>, t: CText)
    requires IsCastanets(t) && Delim !in t
    ensures ArgvWith(sw, t) == [sw]
  {
    TokensOfOne(t);
    assert Sanitize([t], sw, false) == [sw] + Sanitize([], sw, true);
  }

  /** A castanets option followed by another option: the switch, then that option. */
  lemma ArgvRewritesSwitch(address: CText, t1: CText, t2: CText)
    requires IsCastanets(t1) && Delim !in t1
    requires !IsCastanets(t2) && t2 != [] && Delim !in t2
    ensures LaunchArgv(address, t1 + [Delim] + t2) == [CastanetsSwitch(address), t2]
  {
    TokensOfTwo(t1, t2);
    var sw := CastanetsSwitch(address);
    assert [t1, t2][1..] == [t2] && [t2][1..] == [];
    assert Sanitize([t2], sw, true) == [t2];
    assert Sanitize([t1, t2], sw, false) == [sw] + [t2];
  }

  /** Two castanets options yield one switch. */
  lemma ArgvDropsRepeatedSwitch(address: CText, t1: CText, t2: CText)
    requires IsCastanets(t1) && Delim !in t1
    requires IsCastanets(t2) && Delim !in t2
    ensures LaunchArgv(address, t1 + [Delim] + t2) == [CastanetsSwitch(address)]
  {
    TokensOfTwo(t1, t2);
    var sw := CastanetsSwitch(address);
    assert [t1, t2][1..] == [t2] && [t2][1..] == [];
    assert Sanitize([t2], sw, true) == [];
    assert Sanitize([t1, t2], sw, false) == [sw];
  }

  /** A payload without tokens, empty or delimiters only, gets the default pair. */
  lemma ArgvDefaultsWhenEmpty(address: CText)
    ensures LaunchArgv(address, "") == DefaultArgv
    ensures LaunchArgv(address, "&&") == DefaultArgv
  {
    var d: seq<char> := "&&";
    TokensSkipDelims(d, 2);
  }

  /**
   * As written, a fifteen-character IPv4 address loses its last digit and
   * names another host; the intended switch keeps it whole.
   */
  lemma SwitchClipsLongestIPv4()
    ensures ClippedCastanetsSwitch("192.168.100.200") == "--enable-castanets=192.168.100.20"
    ensures CastanetsSwitch("192.168.100.200") == "--enable-castanets=192.168.100.200"
  {
  }

  /**
   * The same address in a request for castanets: as written, the renderer
   * is told to reach a different host; with the intended switch, the peer.
   */
  lemma ArgvClipsLongestIPv4()
    ensures ClippedLaunchArgv("192.168.100.200", CastanetsOption) == ["--enable-castanets=192.168.100.20"]
    ensures LaunchArgv("192.168.100.200", CastanetsOption) == ["--enable-castanets=192.168.100.200"]
  {
    SwitchClipsLongestIPv4();
    ArgvLoneOption(ClippedCastanetsSwitch("192.168.100.200"), CastanetsOption);
    ArgvLoneOption(CastanetsSwitch("192.168.100.200"), CastanetsOption);
  }
}
