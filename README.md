# Authenticated service server (meerkat `CServiceServer`)

This project models, in Dafny, the service server of the meerkat discovery
component (`third_party/meerkat/Component/mmDiscovery/service_server.cpp`).
The server accepts TCP connections from peer hosts, challenges each new
connection with a token (`verify-token://<token>`), marks the connection
authorized when the peer's answer passes the injected verifier (replying
`verify-done://`), and turns a `service-request://` payload from an
authorized connection into the argument vector of a renderer process.

The model has six modules:

- `Wrappers` (`wrappers.dfy`): the `Option` type, used for the injected
  callbacks, which may be null.
- `CStrings` (`c_strings.dfy`): NUL-terminated strings inside character
  buffers (`CStringAt`), `strncmp(..) == 0` (`StrNEqual`) and the truncation
  `snprintf` performs (`SnPrintf`).
- `StrTok` (`str_tok.dfy`): `strtok_r` with the delimiter `&`. `Tokens` is
  the token sequence it yields, checked against a plain split that keeps
  empty pieces (`Split`, `Join`, `NonEmpty`). `StrTokR` is the routine
  itself over an `array<char>`, including the NUL it writes over the
  delimiter that ends each token. `StrTokFrom` is one call of the loop,
  stated against the buffer as it was before the loop.
- `LaunchRequest` (`launch_request.dfy`): the sanitiser. It keeps tokens
  in order, replaces the first `--enable-castanets…` token with a switch
  built from the connection's own address, drops later ones, and falls
  back to `["_", "--type=renderer"]`. `ArgvWith` builds the argv for a
  given switch; `LaunchArgv` uses the intended switch and
  `ClippedLaunchArgv` the one the code builds, and the argv lemmas are
  stated for any switch, so they cover both.
- `Protocol` (`protocol.dfy`): the three scheme literals, how a received
  string is classified by its scheme (`Classify`), and the frames sent with
  their terminator (`Frame`).
- `ServiceServer` (`service_server.dfy`): the class `Server`. It holds the
  injected callbacks, the connection table `connections` and a ghost
  `trace` of outbound effects (`Send`, `Close`, `Launch`). Its methods
  `DataRecv`, `HandleServiceRequest` and `EventNotify` are proved against
  the pure reactions `OnData` and `OnNotify`, whose properties are proved as
  lemmas, including over whole runs of messages (`Replay`).

The verifier and the token issuer are `Option`-wrapped functions
(a C++ null callback is `None`) and are otherwise uninterpreted.

In a few places the code behaves differently from what one might expect of
such a protocol. The model follows the code:

- Empty segments between `&` delimiters are dropped (`strtok_r` never
  yields an empty token). They are not passed through as empty arguments.
- A `verify-token://` message on a connection that is already authorized is
  verified again. Success sends `verify-done://` again; failure closes the
  connection. It is not treated as a no-op.
- `verify-done://` is sent even when the socket has no connection record.
- The code cuts the castanets switch to 33 characters, which clips the
  longest IPv4 addresses. The model records this as a finding and uses the
  switch the buffer was sized for (see Findings).
- The code stores in `argv` a pointer to the block-scoped buffer
  `castanets_switch`, which is dead by the time the launcher reads `argv`.
  The model records the string that buffer held, which is what was evidently
  intended, and does not model the dangling pointer.

## Model

| member | source | states |
|---|---|---|
| CStrings.CStringAt | third_party/meerkat/Component/mmDiscovery/service_server.cpp:86-91 | the string `pData` denotes holds no NUL and is the part of the buffer from its start up to the first NUL or the buffer's end |
| CStrings.CStringAtSuffix | third_party/meerkat/Component/mmDiscovery/service_server.cpp:92 | `pData + strlen(scheme)` denotes the rest of the received string after the scheme |
| CStrings.CStringAtTerminated | third_party/meerkat/Component/mmDiscovery/service_server.cpp:96-97 | the bytes of `message.c_str()` with their terminator read back as the message |
| CStrings.StrNEqual | third_party/meerkat/Component/mmDiscovery/service_server.cpp:91-119 | `strncmp(a, b, n) == 0` on two C strings holds exactly when their first `n` characters agree, a string shorter than `n` counting as a whole; the comparison stops at a terminator both share |
| CStrings.StrNEqualIsPrefix | third_party/meerkat/Component/mmDiscovery/service_server.cpp:91 | `strncmp(s, lit, strlen(lit)) == 0` on a C string holds exactly when `lit` is a prefix of `s`, in both directions |
| CStrings.SnPrintf | third_party/meerkat/Component/mmDiscovery/service_server.cpp:123-124 | `snprintf` into size `n` leaves a prefix of the formatted text of at most `n - 1` characters, and exactly `n - 1` when the text was cut |
| StrTok.Tokens | third_party/meerkat/Component/mmDiscovery/service_server.cpp:117-131 | the tokens the `strtok_r` loop yields; there is at most one token for every two characters of the payload (each token needs a character and a delimiter after it) |
| StrTok.TokensWellFormed | third_party/meerkat/Component/mmDiscovery/service_server.cpp:117-131 | every token `strtok_r` yields is non-empty and free of `&`, and free of NUL when the payload is |
| StrTok.JoinSplit | third_party/meerkat/Component/mmDiscovery/service_server.cpp:117 | the reference split on `&` loses nothing: joining its pieces gives back the payload |
| StrTok.TokensAreNonEmptySplit | third_party/meerkat/Component/mmDiscovery/service_server.cpp:117-131 | the tokens are exactly the non-empty pieces of the plain split, in order, so empty `&` segments are dropped |
| StrTok.TokensSkipDelims | third_party/meerkat/Component/mmDiscovery/service_server.cpp:117 | leading delimiters do not change the tokens |
| StrTok.FindToken | third_party/meerkat/Component/mmDiscovery/service_server.cpp:117 | the search of one `strtok_r` call finds the first token of the C string at the resume point, or reports none when only delimiters are left, and says where the remaining tokens start |
| StrTok.StrTokR | third_party/meerkat/Component/mmDiscovery/service_server.cpp:131 | one `strtok_r` call finds that token and overwrites only the delimiter that ends it with NUL; the rest of the buffer is unchanged |
| StrTok.StrTokFrom | third_party/meerkat/Component/mmDiscovery/service_server.cpp:131 | a call resumed at `save_tok` yields the next token of the original payload, loses no token, and the buffer keeps the NULs written so far and is untouched from the resume point on |
| LaunchRequest.IsCastanetsIsStrNCmp | third_party/meerkat/Component/mmDiscovery/service_server.cpp:119-120 | the `strncmp` test on a token is the test that it starts with `--enable-castanets`, in both directions |
| LaunchRequest.ClippedCastanetsSwitch | third_party/meerkat/Component/mmDiscovery/service_server.cpp:122-124 | as written, the switch is `--enable-castanets=` plus the address when that fits in 33 characters, and otherwise exactly its first 33 characters; it is itself a castanets option |
| LaunchRequest.CastanetsSwitch | third_party/meerkat/Component/mmDiscovery/service_server.cpp:122-124 | with the whole 35-byte buffer given to `snprintf`, the switch is `--enable-castanets=` plus the address for every address of up to 15 characters (any dotted-quad IPv4 address), and exactly the first 34 characters of that text for a longer address; it is itself a castanets option |
| LaunchRequest.Sanitize | third_party/meerkat/Component/mmDiscovery/service_server.cpp:118-132 | every argv entry is one of the tokens or the switch, and there are no more entries than tokens |
| LaunchRequest.SanitizeFirstCastanets | third_party/meerkat/Component/mmDiscovery/service_server.cpp:118-130 | the tokens before the first castanets option are kept, the switch replaces it, and later castanets options are dropped |
| LaunchRequest.SanitizeSwitchOnce | third_party/meerkat/Component/mmDiscovery/service_server.cpp:121-127 | the only castanets entry is the switch, it appears at most once, and it appears exactly when an unhandled castanets token was seen |
| LaunchRequest.SanitizeKeepsOthers | third_party/meerkat/Component/mmDiscovery/service_server.cpp:128-130 | the non-castanets tokens come through unchanged and in order, and the result is empty only when there were no tokens |
| LaunchRequest.ArgvWith | third_party/meerkat/Component/mmDiscovery/service_server.cpp:113-137 | for a given switch, the argv is never empty and holds only tokens of the payload, the switch, or entries of the default pair |
| LaunchRequest.LaunchArgv | third_party/meerkat/Component/mmDiscovery/service_server.cpp:113-137 | the argv with the intended switch: never empty, and holding only tokens of the payload, the switch for the connection's address, or entries of the default pair |
| LaunchRequest.ClippedLaunchArgv | third_party/meerkat/Component/mmDiscovery/service_server.cpp:113-137 | the argv as the code builds it, with the 33-character switch: never empty, and holding only tokens of the payload, that switch, or entries of the default pair |
| LaunchRequest.ArgvShape | third_party/meerkat/Component/mmDiscovery/service_server.cpp:113-137 | for either switch, the argv is the default pair for no tokens, the tokens when none is a castanets option, and otherwise the tokens before the first castanets option, the switch, and the later non-castanets tokens |
| LaunchRequest.ArgvSwitch | third_party/meerkat/Component/mmDiscovery/service_server.cpp:119-127 | for either switch, at most one argv entry starts with `--enable-castanets`; it is the server's switch, never the peer's text, and it is present exactly when the request asked for it |
| LaunchRequest.ArgvKeepsOtherTokens | third_party/meerkat/Component/mmDiscovery/service_server.cpp:128-137 | for either switch, the non-castanets argv entries are the non-castanets tokens verbatim and in order, or the default pair when there were no tokens |
| LaunchRequest.ArgvWellFormed | third_party/meerkat/Component/mmDiscovery/service_server.cpp:134-137 | for either switch, the launcher never gets an empty argv, an empty argument or an argument holding NUL |
| LaunchRequest.ArgvIgnoresPeerValue | third_party/meerkat/Component/mmDiscovery/service_server.cpp:119-125 | a lone `--enable-castanets=<anything>` request becomes exactly the server's own switch |
| LaunchRequest.ArgvLoneOption | third_party/meerkat/Component/mmDiscovery/service_server.cpp:117-127 | for either switch, a payload that is one castanets option becomes exactly that switch |
| LaunchRequest.ArgvRewritesSwitch | third_party/meerkat/Component/mmDiscovery/service_server.cpp:117-131 | a castanets option followed by `&` and another option yields the switch and then that option |
| LaunchRequest.ArgvDropsRepeatedSwitch | third_party/meerkat/Component/mmDiscovery/service_server.cpp:121-127 | two castanets options yield a single switch |
| LaunchRequest.ArgvDefaultsWhenEmpty | third_party/meerkat/Component/mmDiscovery/service_server.cpp:134-137 | an empty payload and a payload of delimiters only both yield `["_", "--type=renderer"]` |
| LaunchRequest.SwitchClipsLongestIPv4 | third_party/meerkat/Component/mmDiscovery/service_server.cpp:122-124 | as written, `192.168.100.200` yields `--enable-castanets=192.168.100.20`; the corrected switch keeps the whole address |
| LaunchRequest.ArgvClipsLongestIPv4 | third_party/meerkat/Component/mmDiscovery/service_server.cpp:117-127 | as written, a castanets request from `192.168.100.200` launches the renderer with `--enable-castanets=192.168.100.20`; with the intended switch, with the whole address |
| Protocol.Classify | third_party/meerkat/Component/mmDiscovery/service_server.cpp:91-111 | a message is a token answer exactly when it starts with `verify-token://`, a launch request exactly when it starts with `service-request://`, and the payload is the rest of the string after the scheme |
| Protocol.ClassifyIsStrNCmp | third_party/meerkat/Component/mmDiscovery/service_server.cpp:91-102 | the scheme tests of `Classify` agree with the two `strncmp(pData, scheme, strlen(scheme))` tests in their order: a token answer exactly when the first succeeds, a launch request exactly when the first fails and the second succeeds |
| Protocol.Frame | third_party/meerkat/Component/mmDiscovery/service_server.cpp:96-97 | a frame is the message plus its terminator, one byte longer than the message and ending in NUL |
| Protocol.ClassifyVerifyTokenFrame | third_party/meerkat/Component/mmDiscovery/service_server.cpp:157-160 | a `verify-token://` frame read back as a C string is classified as that token |
| Protocol.ClassifyServiceRequestFrame | third_party/meerkat/Component/mmDiscovery/service_server.cpp:102-109 | a `service-request://` frame read back is classified as a launch request with that payload |
| Protocol.ClassifyVerifyDoneFrame | third_party/meerkat/Component/mmDiscovery/service_server.cpp:96-97 | the server's own `verify-done://` frame is neither a token answer nor a launch request |
| ServiceServer.VerifyDone | third_party/meerkat/Component/mmDiscovery/service_server.cpp:96-97 | the acknowledgement goes to the same socket, is 15 bytes long with its terminator, and is not itself a token answer or request |
| ServiceServer.Challenge | third_party/meerkat/Component/mmDiscovery/service_server.cpp:157-160 | the challenge's length is the scheme plus the token plus one, the same as its bytes |
| ServiceServer.Authorize | third_party/meerkat/Component/mmDiscovery/service_server.cpp:93-95 | only the record of that socket, if there is one, gets `authorized` set; no record is added and no other record changes |
| ServiceServer.OnData | third_party/meerkat/Component/mmDiscovery/service_server.cpp:83-111 | no record is added or removed; other sockets, addresses and ports are unchanged; `authorized` is never cleared; the table changes only on an accepted token; at most one effect, addressed to the same socket; a launch happens exactly for a launch request on an authorized record |
| ServiceServer.RequestNeedsAuthorization | third_party/meerkat/Component/mmDiscovery/service_server.cpp:102-109 | a launch request launches the sanitised argv when the record exists and is authorized, and otherwise sends, launches and changes nothing |
| ServiceServer.AcceptedTokenAuthorizes | third_party/meerkat/Component/mmDiscovery/service_server.cpp:91-97 | an accepted token authorizes the existing record and sends exactly one `verify-done://` of 15 bytes, also when there is no record |
| ServiceServer.RejectedTokenCloses | third_party/meerkat/Component/mmDiscovery/service_server.cpp:92-101 | with no verifier or a rejected token, the socket is closed, nothing is sent and no record changes, even on an authorized connection |
| ServiceServer.UnrecognizedIgnored | third_party/meerkat/Component/mmDiscovery/service_server.cpp:91-111 | a message with neither scheme changes nothing and has no effect |
| ServiceServer.AuthorizationNeedsAcceptedToken | third_party/meerkat/Component/mmDiscovery/service_server.cpp:93-95 | over any run of messages, a connection that starts unauthorized ends authorized only if one of the messages was a token the verifier accepted |
| ServiceServer.LaunchNeedsEarlierAcceptedToken | third_party/meerkat/Component/mmDiscovery/service_server.cpp:102-109 | on a connection that starts unauthorized, a launch after a run of messages requires an earlier accepted token in that run |
| ServiceServer.OnNotify | third_party/meerkat/Component/mmDiscovery/service_server.cpp:152-163 | on accept, exactly one challenge carrying the issued token is sent if and only if an issuer exists and its token is non-empty; any other event and an empty token send nothing |
| ServiceServer.ChallengeCarriesToken | third_party/meerkat/Component/mmDiscovery/service_server.cpp:155-160 | the challenge, read back as a C string, is classified as the issued token |
| ServiceServer.EchoedChallenge | third_party/meerkat/Component/mmDiscovery/service_server.cpp:152-160 | a peer answering with the challenge it received is authorized and acknowledged when the verifier accepts the issued token, and closed otherwise |
| ServiceServer.AppendToken | third_party/meerkat/Component/mmDiscovery/service_server.cpp:119-130 | one pass of the loop body keeps the invariant that the argv so far followed by the sanitised remaining tokens is the final argv, whichever of the three branches the token takes |
| ServiceServer.CollectArgv | third_party/meerkat/Component/mmDiscovery/service_server.cpp:114-132 | the `strtok_r` loop collects exactly the sanitised token sequence of the payload and leaves NUL over exactly the delimiters that end a token |
| ServiceServer.Server.constructor | third_party/meerkat/Component/mmDiscovery/service_server.cpp:41-50 | the server keeps the callbacks it is given and starts with no connections and no effects |
| ServiceServer.Server.DataRecv | third_party/meerkat/Component/mmDiscovery/service_server.cpp:83-111 | the table and the effects are what `OnData` gives for the received C string; the buffer is tokenised only for a launch request on an authorized record |
| ServiceServer.Server.HandleServiceRequest | third_party/meerkat/Component/mmDiscovery/service_server.cpp:113-145 | exactly one `Launch` of `LaunchArgv(address, payload)` is recorded and the payload's token-ending delimiters become NUL |
| ServiceServer.Server.EventNotify | third_party/meerkat/Component/mmDiscovery/service_server.cpp:147-164 | the effects recorded are those `OnNotify` gives |

## Left out

- `StartServer`, `StopServer` and the destructor: socket creation, opening, thread start and shutdown belong to the TCP transport base class, which is not part of this model.
- ServiceServer.Server.constructor: models only the two callbacks and an empty table. `set_use_ssl(true)` and the creation of the launcher are transport and process concerns.
- The transport itself (`CpTcpServer`, `CpAcceptSock`): connection records are created by it on accept. `Server.Register` stands in for that bookkeeping. A close is only recorded as a `Close` effect; removing the record happens in the transport and is not modelled.
- `DataSend` and `CpTcpServer::Stop(sock)` are recorded as effects and not performed.
- The launch itself (`ServiceLauncher::LaunchRenderer` and, on Android, `Java_startCastanetsRenderer`): a foreign call, recorded as a `Launch(argv)` effect. Its result only affects logging.
- The token algorithms behind `get_token_` and `verify_token_`: injected callbacks, modelled as uninterpreted functions. The issuer is modelled as a function of no arguments, so two calls give the same token.
- `DPRINT` logging: no observable protocol effect.
- Stream framing and `iLen`: each `DataRecv` call is taken to deliver one message, and the message is the C string at the start of the buffer. A buffer with no NUL is read up to its end, where the C++ code would read past it.
- LaunchRequest.LaunchArgv: uses the corrected switch, not the 33-character one the code builds. The argv the code builds is `ClippedLaunchArgv` (see Findings); the server's methods use `LaunchArgv`.
- ServiceServer.Server.HandleServiceRequest: `argv` is modelled as a sequence of string values, not as pointers into the payload buffer and into `castanets_switch`. The dangling pointer to `castanets_switch` is therefore not modelled; the value it was meant to point at is.
- Concurrency between transport threads: each method is modelled as one atomic step on the server's state.

## Findings

| source | as written | input that shows it | evidently intended | confidence | as-written member | corrected member |
|---|---|---|---|---|---|---|
| third_party/meerkat/Component/mmDiscovery/service_server.cpp:122-124 | `snprintf(castanets_switch, sizeof(castanets_switch) - 1, …)` on a 35-byte buffer keeps at most 33 characters, so an address longer than 14 characters is cut | address `192.168.100.200` gives `--enable-castanets=192.168.100.20`, which names a different host | the buffer is sized for the 19-character prefix, a 15-character IPv4 address and the terminator, so `snprintf` was meant to get the whole `sizeof(castanets_switch)` and keep every dotted-quad address whole | high; not executed | LaunchRequest.SwitchClipsLongestIPv4 | LaunchRequest.CastanetsSwitch |

The as-written switch is `ClippedCastanetsSwitch` and the as-written argv
`ClippedLaunchArgv`; `ArgvClipsLongestIPv4` shows the wrong host reaching
the renderer. The rest of the model (`LaunchArgv`, `CollectArgv`,
`Server.HandleServiceRequest`) uses the corrected `CastanetsSwitch`. The
argv lemmas (`ArgvShape`, `ArgvSwitch`, `ArgvKeepsOtherTokens`,
`ArgvWellFormed`) and the sanitiser lemmas hold for any switch that is
itself a castanets option, so they are proved for both switches.
