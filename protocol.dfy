/**
 * The wire messages of the service server: scheme literals, how a received
 * C string is told apart by its scheme, and the NUL-terminated frames the
 * server hands to the transport.
 */
module Protocol {

  import opened CStrings

  /** `kServiceRequestScheme`: a launch request from an authorized peer. */
  const ServiceRequestScheme: seq<char> := "service-request://"

  /** `kVerifyTokenScheme`: the challenge the server sends and the peer's answer. */
  const VerifyTokenScheme: seq<char> := "verify-token://"

  /** `kVerifyDoneScheme`: the server's acknowledgement of an accepted token. */
  const VerifyDoneScheme: seq<char> := "verify-done://"

  /** A received message, by the scheme it starts with. */
  datatype Message =
    | VerifyToken(token: CText)
    | ServiceRequest(args: CText)
    | Unrecognized

  /**
   * How `DataRecv` reads a message: a `verify-token://` prefix is tested
   * first, then `service-request://`; the rest of the string after the
   * scheme is the payload.
   */
  function Classify(text: CText): (m: Message)
    ensures m.VerifyToken? <==> VerifyTokenScheme <= text
    ensures m.ServiceRequest? <==> ServiceRequestScheme <= text
    ensures m.VerifyToken? ==> text == VerifyTokenScheme + m.token
    ensures m.ServiceRequest? ==> text == ServiceRequestScheme + m.args
  {
    if VerifyTokenScheme <= text then
      assert text[0] == VerifyTokenScheme[0] != ServiceRequestScheme[0];
      assert text == VerifyTokenScheme + text[|VerifyTokenScheme|..];
      VerifyToken(text[|VerifyTokenScheme|..])
    else if ServiceRequestScheme <= text then
      assert text == ServiceRequestScheme + text[|ServiceRequestScheme|..];
      ServiceRequest(text[|ServiceRequestScheme|..])
    else
      Unrecognized
  }

  /**
   * The prefix tests of `Classify` are the `strncmp(.., strlen(scheme)) == 0`
   * tests `DataRecv` makes, in the same order.
   */
  lemma ClassifyIsStrNCmp(text: CText)
    ensures Classify(text).VerifyToken? <==> StrNEqual(text, VerifyTokenScheme, |VerifyTokenScheme|)
    ensures Classify(text).ServiceRequest? <==>
      !StrNEqual(text, VerifyTokenScheme, |VerifyTokenScheme|)
      && StrNEqual(text, ServiceRequestScheme, |ServiceRequestScheme|)
  {
    StrNEqualIsPrefix(text, VerifyTokenScheme);
    StrNEqualIsPrefix(text, ServiceRequestScheme);
    if ServiceRequestScheme <= text {
      assert text[0] != VerifyTokenScheme[0];
    }
  }

  /**
   * The bytes a `std::string message` holding `scheme + payload` offers
   * through `c_str()`: the characters and the terminator.
   */
  function Frame(scheme: seq<char>, payload: seq<char>): (bytes: seq<char>)
    ensures |bytes| == |scheme| + |payload| + 1
    ensures bytes[|bytes| - 1] == NUL
  {
    scheme + payload + [NUL]
  }

  /** Decoding a framed answer to the challenge gives back the token. */
  lemma ClassifyVerifyTokenFrame(token: CText)
    ensures Classify(CStringAt(Frame(VerifyTokenScheme, token), 0)) == VerifyToken(token)
  {
    var text := VerifyTokenScheme + token;
    assert Frame(VerifyTokenScheme, token) == text + [NUL];
    CStringAtTerminated(text);
    assert text[|VerifyTokenScheme|..] == token;
  }

  /** Decoding a framed launch request gives back its payload. */
  lemma ClassifyServiceRequestFrame(args: CText)
    ensures Classify(CStringAt(Frame(ServiceRequestScheme, args), 0)) == ServiceRequest(args)
  {
    var text := ServiceRequestScheme + args;
    assert Frame(ServiceRequestScheme, args) == text + [NUL];
    CStringAtTerminated(text);
    assert text[|ServiceRequestScheme|..] == args;
  }

  /** The server's own acknowledgement is not a message it acts on. */
  lemma ClassifyVerifyDoneFrame(payload: CText)
    ensures Classify(CStringAt(Frame(VerifyDoneScheme, payload), 0)).Unrecognized?
  {
    var text := VerifyDoneScheme + payload;
    assert Frame(VerifyDoneScheme, payload) == text + [NUL];
    CStringAtTerminated(text);
    assert text[7] != VerifyTokenScheme[7];
    assert text[0] != ServiceRequestScheme[0];
  }
}
