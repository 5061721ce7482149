/**
 * The authenticated service server: per-connection authorization by token
 * handshake, dispatch of received messages, and the launch of renderer
 * processes for authorized launch requests. Sends, closes and launches are
 * recorded as effects; the transport and the launcher are not modelled.
 */
module ServiceServer {

  import opened Wrappers
  import opened CStrings
  import opened StrTok
  import opened LaunchRequest
  import opened Protocol

  /** `OSAL_Socket_Handle`. */
  type Socket = int

  /** The injected `verify_token_` callback. */
  type Verifier = seq<char> -> bool

  /** The injected `get_token_` callback. */
  type Issuer = () -> seq<char>

  /** The transport's record of one accepted connection (`connection_info`). */
  datatype ConnectionInfo = ConnectionInfo(address: CText, port: int, authorized: bool)

  /** The socket events the transport reports to `EventNotify`. */
  datatype NotifyType = NotifyAccept | NotifyOther(code: int)

  /** What the server asks of the outside world. */
  datatype Effect =
    | Send(sock: Socket, bytes: seq<char>, length: int)  // DataSend(sock, bytes, length)
    | Close(sock: Socket)                                 // CpTcpServer::Stop(sock)
    | Launch(argv: seq<seq<char>>)                        // the renderer launcher

  /** The connection table after an event and the effects the event caused. */
  datatype Reaction = Reaction(connections: map<Socket, ConnectionInfo>, effects: seq<Effect>)

  /**
   * The acknowledgement of an accepted token: 15 bytes with the terminator,
   * which the server itself would read as neither a token nor a request.
   */
  function VerifyDone(sock: Socket): (e: Effect)
    ensures e.Send? && e.sock == sock && e.length == 15 == |e.bytes| && e.bytes[14] == NUL
    ensures Classify(CStringAt(e.bytes, 0)).Unrecognized?
  {
    ClassifyVerifyDoneFrame([]);
    Send(sock, Frame(VerifyDoneScheme, []), |VerifyDoneScheme| + 1)
  }

  /** The challenge carrying `token`, with its terminator. */
  function Challenge(sock: Socket, token: seq<char>): (e: Effect)
    ensures e.Send? && e.length == |VerifyTokenScheme| + |token| + 1 == |e.bytes|
  {
    Send(sock, Frame(VerifyTokenScheme, token), |VerifyTokenScheme| + |token| + 1)
  }

  /** An installed verifier accepts `token`. */
  predicate Accepts(verifier: Option<Verifier>, token: seq<char>)
  {
    verifier.Some? && verifier.value(token)
  }

  /** `text` is a `verify-token://` answer that the verifier accepts. */
  predicate AcceptedToken(verifier: Option<Verifier>, text: CText)
  {
    Classify(text).VerifyToken? && Accepts(verifier, Classify(text).token)
  }

  /** The connection has a record and that record is authorized. */
  predicate IsAuthorized(connections: map<Socket, ConnectionInfo>, sock: Socket)
  {
    sock in connections && connections[sock].authorized
  }

  /**
   * `after` differs from `before` at most in the record of `sock`, and that
   * one only by gaining authorization: no record is added or removed, and
   * addresses, ports and granted authorizations are kept.
   */
  predicate TableStep(before: map<Socket, ConnectionInfo>, after: map<Socket, ConnectionInfo>, sock: Socket)
  {
    && after.Keys == before.Keys
    && (forall s | s in before && s != sock :: after[s] == before[s])
    && (sock in before ==>
          && after[sock].address == before[sock].address
          && after[sock].port == before[sock].port
          && (before[sock].authorized ==> after[sock].authorized))
  }

  /** The table with the record of `sock`, if there is one, marked authorized. */
  function Authorize(connections: map<Socket, ConnectionInfo>, sock: Socket): (r: map<Socket, ConnectionInfo>)
    ensures r.Keys == connections.Keys
    ensures forall s | s in connections && s != sock :: r[s] == connections[s]
    ensures sock in connections ==> r[sock] == connections[sock].(authorized := true)
    ensures TableStep(connections, r, sock)
  {
    if sock in connections then connections[sock := connections[sock].(authorized := true)] else connections
  }

  /**
   * `DataRecv`: the reaction to the C string `text` received on `sock` from
   * a peer at `address`.
   */
  function OnData(connections: map<Socket, ConnectionInfo>, verifier: Option<Verifier>,
                  sock: Socket, address: CText, text: CText): (r: Reaction)
    ensures TableStep(connections, r.connections, sock)
    ensures r.connections != connections ==> AcceptedToken(verifier, text)
    ensures |r.effects| <= 1
    ensures forall e | e in r.effects && !e.Launch? :: e.sock == sock
    ensures (r.effects != [] && r.effects[0].Launch?) <==>
      Classify(text).ServiceRequest? && IsAuthorized(connections, sock)
  {
    match Classify(text)
    case VerifyToken(token) =>
      if Accepts(verifier, token) then Reaction(Authorize(connections, sock), [VerifyDone(sock)])
      else Reaction(connections, [Close(sock)])
    case ServiceRequest(args) =>
      if IsAuthorized(connections, sock) then Reaction(connections, [Launch(LaunchArgv(address, args))])
      else Reaction(connections, [])
    case Unrecognized =>
      Reaction(connections, [])
  }

  /**
   * A launch request is honoured only on a connection whose record exists
   * and is authorized; otherwise nothing is sent, launched or changed.
   */
  lemma RequestNeedsAuthorization(connections: map<Socket, ConnectionInfo>, verifier: Option<Verifier>,
                                  sock: Socket, address: CText, text: CText)
    requires Classify(text).ServiceRequest?
    ensures var r := OnData(connections, verifier, sock, address, text);
      && r.connections == connections
      && r.effects == if IsAuthorized(connections, sock)
                      then [Launch(LaunchArgv(address, Classify(text).args))]
                      else []
  {
  }

  /**
   * An accepted token authorizes the connection's record, if it has one,
   * and is acknowledged by exactly one `verify-done://` of 15 bytes, even
   * when there is no record.
   */
  lemma AcceptedTokenAuthorizes(connections: map<Socket, ConnectionInfo>, verifier: Option<Verifier>,
                                sock: Socket, address: CText, text: CText)
    requires AcceptedToken(verifier, text)
    ensures var r := OnData(connections, verifier, sock, address, text);
      && r.effects == [VerifyDone(sock)]
      && r.connections == Authorize(connections, sock)
      && (sock in connections ==> IsAuthorized(r.connections, sock))
  {
  }

  /**
   * A `verify-token://` answer with no verifier installed, or one the
   * verifier rejects, closes the connection, sends nothing and changes no
   * record; this holds for an already authorized connection as well.
   */
  lemma RejectedTokenCloses(connections: map<Socket, ConnectionInfo>, verifier: Option<Verifier>,
                            sock: Socket, address: CText, text: CText)
    requires Classify(text).VerifyToken? && !AcceptedToken(verifier, text)
    ensures OnData(connections, verifier, sock, address, text) == Reaction(connections, [Close(sock)])
  {
  }

  /** A message with neither scheme changes nothing and has no effect. */
  lemma UnrecognizedIgnored(connections: map<Socket, ConnectionInfo>, verifier: Option<Verifier>,
                            sock: Socket, address: CText, text: CText)
    requires !(VerifyTokenScheme <= text) && !(ServiceRequestScheme <= text)
    ensures OnData(connections, verifier, sock, address, text) == Reaction(connections, [])
  {
  }

  /** `DataRecv` applied to the messages `texts` of one connection, in order. */
  function Replay(connections: map<Socket, ConnectionInfo>, verifier: Option<Verifier>,
                  sock: Socket, address: CText, texts: seq<CText>): Reaction
    decreases |texts|
  {
    if texts == [] then Reaction(connections, [])
    else
      var first := OnData(connections, verifier, sock, address, texts[0]);
      var rest := Replay(first.connections, verifier, sock, address, texts[1..]);
      Reaction(rest.connections, first.effects + rest.effects)
  }

  /**
   * A connection that starts unauthorized is authorized after a run of
   * messages only if one of them was a token the verifier accepted.
   */
  lemma {:induction false} AuthorizationNeedsAcceptedToken(connections: map<Socket, ConnectionInfo>,
      verifier: Option<Verifier>, sock: Socket, address: CText, texts: seq<CText>)
    requires !IsAuthorized(connections, sock)
    requires IsAuthorized(Replay(connections, verifier, sock, address, texts).connections, sock)
    ensures exists i | 0 <= i < |texts| :: AcceptedToken(verifier, texts[i])
    decreases |texts|
  {
    if texts == [] {
    } else if AcceptedToken(verifier, texts[0]) {
    } else {
      var first := OnData(connections, verifier, sock, address, texts[0]);
      assert first.connections == connections;
      AuthorizationNeedsAcceptedToken(connections, verifier, sock, address, texts[1..]);
      var i :| 0 <= i < |texts[1..]| && AcceptedToken(verifier, texts[1..][i]);
      assert AcceptedToken(verifier, texts[i + 1]);
    }
  }

  /**
   * On a connection that starts unauthorized, a launch request after a run
   * of messages is honoured only if an earlier message of the run was a
   * token the verifier accepted.
   */
  lemma LaunchNeedsEarlierAcceptedToken(connections: map<Socket, ConnectionInfo>,
      verifier: Option<Verifier>, sock: Socket, address: CText, texts: seq<CText>, text: CText)
    requires !IsAuthorized(connections, sock)
    requires var before := Replay(connections, verifier, sock, address, texts).connections;
      var effects := OnData(before, verifier, sock, address, text).effects;
      effects != [] && effects[0].Launch?
    ensures exists i | 0 <= i < |texts| :: AcceptedToken(verifier, texts[i])
  {
    AuthorizationNeedsAcceptedToken(connections, verifier, sock, address, texts);
  }

  /**
   * `EventNotify`: on accept, one challenge carrying the issued token, sent
   * only if an issuer is installed and the token it issues is not empty.
   */
  function OnNotify(issuer: Option<Issuer>, sock: Socket, kind: NotifyType): (effects: seq<Effect>)
    ensures |effects| <= 1
    ensures effects != [] <==> kind == NotifyAccept && issuer.Some? && issuer.value() != []
    ensures effects != [] ==> effects[0] == Challenge(sock, issuer.value())
  {
    if kind == NotifyAccept && issuer.Some? && issuer.value() != [] then [Challenge(sock, issuer.value())]
    else []
  }

  /** A peer reading the challenge as a C string recovers the issued token. */
  lemma ChallengeCarriesToken(issuer: Option<Issuer>, sock: Socket)
    requires issuer.Some? && NUL !in issuer.value()
    ensures var effects := OnNotify(issuer, sock, NotifyAccept);
      && (issuer.value() != [] ==>
            |effects| == 1 && Classify(CStringAt(effects[0].bytes, 0)) == VerifyToken(issuer.value()))
      && (issuer.value() == [] ==> effects == [])
  {
    ClassifyVerifyTokenFrame(issuer.value());
  }

  /**
   * The handshake end to end: a peer that answers the challenge with the C
   * string it received, on a connection with a record, is authorized when
   * the verifier accepts the issued token, and closed when it does not.
   */
  lemma EchoedChallenge(connections: map<Socket, ConnectionInfo>, issuer: Option<Issuer>,
                        verifier: Option<Verifier>, sock: Socket, address: CText)
    requires issuer.Some? && NUL !in issuer.value() && issuer.value() != [] && sock in connections
    ensures var answer := CStringAt(OnNotify(issuer, sock, NotifyAccept)[0].bytes, 0);
      var r := OnData(connections, verifier, sock, address, answer);
      && (Accepts(verifier, issuer.value()) ==>
            IsAuthorized(r.connections, sock) && r.effects == [VerifyDone(sock)])
      && (!Accepts(verifier, issuer.value()) ==> r == Reaction(connections, [Close(sock)]))
  {
    ChallengeCarriesToken(issuer, sock);
  }

  /**
   * One token taken from the front of the remaining tokens: extending the
   * argv as the loop does keeps it a prefix of the sanitized argv.
   */
  lemma ArgvStep(argv: seq<seq<char>>, tok: seq<char>, rest: seq<seq<char>>, sw: seq<char>,
                 handled: bool, target: seq<seq<char>>)
    requires argv + Sanitize([tok] + rest, sw, handled) == target
    ensures IsCastanets(tok) && !handled ==> (argv + [sw]) + Sanitize(rest, sw, true) == target
    ensures IsCastanets(tok) && handled ==> argv + Sanitize(rest, sw, true) == target
    ensures !IsCastanets(tok) ==> (argv + [tok]) + Sanitize(rest, sw, handled) == target
  {
    SanitizeCons(tok, rest, sw, handled);
    if IsCastanets(tok) && !handled {
      assert argv + ([sw] + Sanitize(rest, sw, true)) == (argv + [sw]) + Sanitize(rest, sw, true);
    } else if !IsCastanets(tok) {
      assert argv + ([tok] + Sanitize(rest, sw, handled)) == (argv + [tok]) + Sanitize(rest, sw, handled);
    }
  }

  /**
   * The body of the `strtok_r` loop for token `tok`: the first castanets
   * option, found with `strncmp`, is replaced by the switch for `address`,
   * later ones are dropped, and every other token is kept.
   */
  method AppendToken(argv: seq<seq<char>>, handled: bool, tok: CText, address: CText,
                     ghost rest: seq<seq<char>>, ghost target: seq<seq<char>>)
      returns (argv': seq<seq<char>>, handled': bool)
    requires argv + Sanitize([tok] + rest, CastanetsSwitch(address), handled) == target
    ensures argv' + Sanitize(rest, CastanetsSwitch(address), handled') == target
  {
    ArgvStep(argv, tok, rest, CastanetsSwitch(address), handled, target);
    IsCastanetsIsStrNCmp(tok);
    argv', handled' := argv, handled;
    if StrNEqual(tok, CastanetsOption, |CastanetsOption|) {
      if !handled {
        argv' := argv + [CastanetsSwitch(address)];
        handled' := true;
      }
    } else {
      argv' := argv + [tok];
    }
  }

  /**
   * The `strtok_r` loop of `HandleServiceRequest`: splits the C string at
   * `off` of `args` on `&` and collects the tokens, the first castanets
   * option replaced by the switch for `address` and later ones dropped.
   * The tokenizing writes NUL over exactly the delimiters that end a token.
   */
  method CollectArgv(address: CText, args: array<char>, off: nat) returns (argv: seq<seq<char>>)
    requires off <= args.Length
    modifies args
    ensures argv == Sanitize(Tokens(CStringAt(old(args[..]), off)), CastanetsSwitch(address), false)
    ensures args[..] == Tokenized(old(args[..]), off)
  {
    ghost var s0 := args[..];
    ghost var end := CEnd(s0, off);
    ghost var sanitized := Sanitize(Tokens(CStringAt(s0, off)), CastanetsSwitch(address), false);
    argv := [];
    var handleCastanets := false;
    ScanStart(s0, off);
    var found, start, stop, save := StrTokFrom(args, s0, off, off);
    while found
      invariant Scanned(args[..], s0, off, save)
      invariant InHand(args[..], s0, off, found, start, stop, save)
      invariant argv + Sanitize(Pending(s0, found, start, stop, save), CastanetsSwitch(address), handleCastanets)
                == sanitized
      decreases end - save + (if found then 1 else 0)
    {
      var tok := CStringAt(args[..], start);
      ghost var rest := Tokens(CStringAt(s0, save));
      assert Pending(s0, found, start, stop, save) == [tok] + rest by {
        TokenReadsBack(args[..], s0, off, found, start, stop, save);
      }
      argv, handleCastanets := AppendToken(argv, handleCastanets, tok, address, rest, sanitized);
      found, start, stop, save := StrTokFrom(args, s0, off, save);
    }
    ScanDone(args[..], s0, off);
  }

  /** `CServiceServer`: the server's injected callbacks and the transport's connection table. */
  class Server {
    const getToken: Option<Issuer>
    const verifyToken: Option<Verifier>

    /** The transport's connection records, which `GetConnectionHandle` looks up. */
    var connections: map<Socket, ConnectionInfo>

    /** Every send, close and launch the server has asked for, in order. */
    ghost var trace: seq<Effect>

    /** A server with no connections and nothing done yet. */
    constructor(getToken: Option<Issuer>, verifyToken: Option<Verifier>)
      ensures this.getToken == getToken && this.verifyToken == verifyToken
      ensures connections == map[] && trace == []
    {
      this.getToken := getToken;
      this.verifyToken := verifyToken;
      connections := map[];
      trace := [];
    }

    /**
     * The transport's bookkeeping on accept: a new record for `sock`, not
     * yet authorized. It stands for the transport, which is not modelled.
     */
    method Register(sock: Socket, address: CText, port: int)
      modifies this`connections
      ensures connections == old(connections)[sock := ConnectionInfo(address, port, false)]
      ensures !IsAuthorized(connections, sock)
    {
      connections := connections[sock := ConnectionInfo(address, port, false)];
    }

    /**
     * `DataRecv`: reacts to the C string at the start of `data` as `OnData`
     * says. A launch request is tokenized in place: its terminators in
     * `data` become NUL, and nothing else in `data` changes.
     */
    method DataRecv(sock: Socket, sourceAddr: CText, sourcePort: int, data: array<char>)
      modifies this`connections, this`trace, data
      ensures var r := OnData(old(connections), verifyToken, sock, sourceAddr, CStringAt(old(data[..]), 0));
        connections == r.connections && trace == old(trace) + r.effects
      ensures data[..] == if Classify(CStringAt(old(data[..]), 0)).ServiceRequest? && IsAuthorized(old(connections), sock)
                          then Tokenized(old(data[..]), |ServiceRequestScheme|) else old(data[..])
    {
      var text := CStringAt(data[..], 0);
      match Classify(text)
      case VerifyToken(token) =>
        if verifyToken.Some? && verifyToken.value(token) {
          if sock in connections {
            connections := connections[sock := connections[sock].(authorized := true)];
          }
          trace := trace + [VerifyDone(sock)];
        } else {
          trace := trace + [Close(sock)];
        }
      case ServiceRequest(args) =>
        if sock !in connections || !connections[sock].authorized {
          return;
        }
        CStringAtSuffix(data[..], 0, |ServiceRequestScheme|);
        HandleServiceRequest(sourceAddr, data, |ServiceRequestScheme|);
      case Unrecognized =>
    }

    /**
     * `HandleServiceRequest`: builds the argv of the request payload, the C
     * string at `off` of `args`, falls back to the default argv when no
     * token survives, and launches it.
     */
    method HandleServiceRequest(address: CText, args: array<char>, off: nat)
      requires off <= args.Length
      modifies this`trace, args
      ensures trace == old(trace) + [Launch(LaunchArgv(address, CStringAt(old(args[..]), off)))]
      ensures args[..] == Tokenized(old(args[..]), off)
    {
      var argv := CollectArgv(address, args, off);
      if argv == [] {
        argv := DefaultArgv;
      }
      trace := trace + [Launch(argv)];
    }

    /** `EventNotify`: the challenge `OnNotify` says, if any. */
    method EventNotify(sock: Socket, kind: NotifyType)
      modifies this`trace
      ensures trace == old(trace) + OnNotify(getToken, sock, kind)
    {
      if kind == NotifyAccept {
        if getToken.Some? {
          var token := getToken.value();
          if token != [] {
            trace := trace + [Challenge(sock, token)];
          }
        }
      }
    }
  }
}
