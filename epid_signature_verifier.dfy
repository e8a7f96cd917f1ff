/** `EpidSignatureVerifier.verify`: builds the request for the remote EPID
    verifier from a device's signature, hands it to the transport, and maps the
    transport's answer to one of five verdicts. The transport (URL resolution
    and the HTTP POST) is a parameter of the model: a function from the request
    body to what the post returned. */
module EpidSignatureVerifier {
  import opened JavaLang
  import SignatureAdjust
  import EpidPayload
  import RequestBody

  /** The verdicts `verify` returns. */
  datatype Result = Verified | MalformedRequest | InvalidSignature | OutdatedSigrl | UnknownError

  const HttpOk: int := 200
  const HttpBadRequest: int := 400
  const HttpForbidden: int := 403
  /** Not among `HttpURLConnection`'s constants, so the source defines it. */
  const HttpExpectationFailed: int := 417

  /** What the transport did with a post: answered with an HTTP status, or
      failed with an `IOException` or `URISyntaxException` (a bad URL, an
      unreachable host). */
  datatype Transport = Status(code: int) | IoFailure

  /** The decoded COSE signature object: its signature bytes, the nonce of its
      payload, and the Maroe prefix of its unprotected header. */
  datatype SignatureAssertion = SignatureAssertion(signature: seq<byte>, nonce: seq<byte>, maroePrefix: seq<byte>)

  /** The decoded SigInfo object: the signature scheme and the EPID group id. */
  datatype SigInfo = SigInfo(sgType: int, groupId: seq<byte>)

  /** The status code that stands for each verdict; `UnknownError` stands for
      every other code. */
  function StatusOf(r: Result): (code: Option<int>) {
    match r
    case Verified => Some(HttpOk)
    case MalformedRequest => Some(HttpBadRequest)
    case InvalidSignature => Some(HttpForbidden)
    case OutdatedSigrl => Some(HttpExpectationFailed)
    case UnknownError => None
  }

  /** The status switch of `verify`. */
  function MapStatus(status: int): (r: Result)
    ensures r != UnknownError <==> status in {HttpOk, HttpBadRequest, HttpForbidden, HttpExpectationFailed}
    ensures r != UnknownError ==> StatusOf(r) == Some(status)
  {
    if status == HttpOk then Verified
    else if status == HttpBadRequest then MalformedRequest
    else if status == HttpForbidden then InvalidSignature
    else if status == HttpExpectationFailed then OutdatedSigrl
    else UnknownError
  }

  /** The status table read the other way: a code maps to a verdict other than
      `UnknownError` exactly when it is the code standing for that verdict. */
  lemma MapStatusInverse(status: int, r: Result)
    requires r != UnknownError
    ensures MapStatus(status) == r <==> StatusOf(r) == Some(status)
  {
  }

  /** The request body as `createEpidSignatureBodyMessage` builds it: the
      payload of the signature's version, the normalised signature, and the
      JSON text around them. It throws where the source dereferences `null`:
      null signed data for a supported version (`write(null)`), and, for any
      other version, the `null` payload given to the base64 encoder. */
  function BodyMessage(assertion: SignatureAssertion, signedData: Option<seq<byte>>, groupId: seq<byte>, sgType: int)
    : (r: Completion<string>)
    ensures r.Normal? <==> signedData.Some? && EpidPayload.IsSupported(sgType)
    ensures r.Abrupt? ==> r.fault == NullPointer
    ensures r.Normal? ==>
      RequestBody.ReadBody(r.value)
        == Some((groupId,
                 EpidPayload.Payload(assertion.maroePrefix, assertion.nonce, signedData.value, sgType).value,
                 SignatureAdjust.Adjusted(assertion.signature)))
  {
    match EpidPayload.CreatePayload(assertion.maroePrefix, assertion.nonce, signedData, sgType)
    case Abrupt(f) => Abrupt(f)
    case Normal(None) => Abrupt(NullPointer)
    case Normal(Some(payload)) =>
      var adjusted := SignatureAdjust.Adjusted(assertion.signature);
      Normal(RequestBody.Body(groupId, payload, adjusted))
  }

  /** `createEpidSignatureBodyMessage` as the source runs it: build the
      payload, normalise the signature in its array, encode. */
  method CreateEpidSignatureBodyMessage(signature: array<byte>, nonce: seq<byte>, maroePrefix: seq<byte>,
                                        signedData: Option<seq<byte>>, groupId: seq<byte>, sgType: int)
    returns (msg: Completion<string>)
    ensures msg == BodyMessage(SignatureAssertion(signature[..], nonce, maroePrefix), signedData, groupId, sgType)
  {
    var signedPayload := EpidPayload.CreateEpidPayload(maroePrefix, nonce, signedData, sgType);
    if signedPayload.Abrupt? {
      return Abrupt(signedPayload.fault);
    }
    var adjSignature := SignatureAdjust.AdjustSignature(signature);
    match signedPayload.value
    case None =>
      msg := Abrupt(NullPointer);
    case Some(payload) =>
      msg := Normal(RequestBody.Body(groupId, payload, adjSignature[..]));
  }

  /** Whether `verify` gets as far as posting: both objects present, signed
      data present, and a supported EPID version. */
  predicate Attempts(assertion: Option<SignatureAssertion>, signedData: Option<seq<byte>>, sigInfo: Option<SigInfo>) {
    assertion.Some? && sigInfo.Some? && signedData.Some? && EpidPayload.IsSupported(sigInfo.value.sgType)
  }

  /** The body `verify` posts once it gets that far. It carries the group id,
      the payload the device signed, and the normalised signature, under their keys. */
  function Request(assertion: SignatureAssertion, signedData: seq<byte>, sigInfo: SigInfo): (body: string)
    requires EpidPayload.IsSupported(sigInfo.sgType)
    ensures RequestBody.ReadBody(body)
         == Some((sigInfo.groupId,
                  EpidPayload.Payload(assertion.maroePrefix, assertion.nonce, signedData, sigInfo.sgType).value,
                  SignatureAdjust.Adjusted(assertion.signature)))
  {
    RequestBody.Body(sigInfo.groupId,
                     EpidPayload.Payload(assertion.maroePrefix, assertion.nonce, signedData, sigInfo.sgType).value,
                     SignatureAdjust.Adjusted(assertion.signature))
  }

  /** The verdict for what the transport did: a status goes through the status
      switch, a transport failure is caught and reported as `UnknownError`. */
  function Outcome(t: Transport): (r: Result)
    ensures t.IoFailure? ==> r == UnknownError
    ensures r != UnknownError ==> t.Status? && StatusOf(r) == Some(t.code)
    ensures t.Status? && t.code in {HttpOk, HttpBadRequest, HttpForbidden, HttpExpectationFailed} ==> r != UnknownError
  {
    match t
    case Status(code) => MapStatus(code)
    case IoFailure => UnknownError
  }

  /** `verify`. */
  function Verify(assertion: Option<SignatureAssertion>, signedData: Option<seq<byte>>, sigInfo: Option<SigInfo>,
                  post: string -> Transport): (r: Completion<Result>)
    ensures r.Abrupt? <==> !Attempts(assertion, signedData, sigInfo)
    ensures assertion.None? || sigInfo.None? ==> r == Abrupt(NullArgument)
    ensures assertion.Some? && sigInfo.Some? && r.Abrupt? ==> r.fault == NullPointer
    ensures r.Normal? ==> r.value == Outcome(post(Request(assertion.value, signedData.value, sigInfo.value)))
  {
    if assertion.None? || sigInfo.None? then
      Abrupt(NullArgument)
    else
      var sgType, groupId := sigInfo.value.sgType, sigInfo.value.groupId;
      match BodyMessage(assertion.value, signedData, groupId, sgType)
      case Abrupt(f) => Abrupt(f)
      case Normal(msg) =>
        if !EpidPayload.IsSupported(sgType) then
          // the `default` of the version switch, an IOException that is caught;
          // never reached, since BodyMessage throws for every such sgType
          Normal(UnknownError)
        else
          Normal(Outcome(post(msg)))
  }

  /** When `verify` throws it never posts: its outcome does not depend on the
      transport at all. */
  lemma FaultBeforePost(assertion: Option<SignatureAssertion>, signedData: Option<seq<byte>>, sigInfo: Option<SigInfo>,
                        post1: string -> Transport, post2: string -> Transport)
    requires !Attempts(assertion, signedData, sigInfo)
    ensures Verify(assertion, signedData, sigInfo, post1) == Verify(assertion, signedData, sigInfo, post2)
    ensures Verify(assertion, signedData, sigInfo, post1).Abrupt?
  {
  }

  /** Once it posts, `verify` returns a verdict: the status table for an
      answer, `UnknownError` for a transport failure; nothing escapes. */
  lemma PostedOutcome(assertion: SignatureAssertion, signedData: seq<byte>, sigInfo: SigInfo, post: string -> Transport)
    requires EpidPayload.IsSupported(sigInfo.sgType)
    ensures var r := Verify(Some(assertion), Some(signedData), Some(sigInfo), post);
      var t := post(Request(assertion, signedData, sigInfo));
      && r.Normal?
      && (t.Status? && t.code == HttpOk ==> r.value == Verified)
      && (t.Status? && t.code == HttpBadRequest ==> r.value == MalformedRequest)
      && (t.Status? && t.code == HttpForbidden ==> r.value == InvalidSignature)
      && (t.Status? && t.code == HttpExpectationFailed ==> r.value == OutdatedSigrl)
      && (t.IoFailure? ==> r.value == UnknownError)
  {
  }

  /** An EPID 1.0 signature of 565 bytes with a two-byte prefix: the posted
      body carries a signature of 573 bytes and the payload
      `0x02 0xAA 0xBB`, nonce, signed data. */
  lemma Epid10NoHeaderScenario(signature: seq<byte>, nonce: seq<byte>, signedData: seq<byte>, groupId: seq<byte>)
    requires |signature| == 565
    ensures var sigInfo := SigInfo(EpidPayload.SgEpid10, groupId);
      var assertion := SignatureAssertion(signature, nonce, [0xAA, 0xBB]);
      var read := RequestBody.ReadBody(Request(assertion, signedData, sigInfo));
      && read.Some?
      && read.value.1 == [0x02, 0xAA, 0xBB] + nonce + signedData
      && |read.value.2| == 573
  {
    var sigInfo := SigInfo(EpidPayload.SgEpid10, groupId);
    var assertion := SignatureAssertion(signature, nonce, [0xAA, 0xBB]);
    var payload := EpidPayload.Payload([0xAA, 0xBB], nonce, signedData, EpidPayload.SgEpid10).value;
    var adjusted := SignatureAdjust.Adjusted(signature);
    assert RequestBody.ReadBody(Request(assertion, signedData, sigInfo)) == Some((groupId, payload, adjusted));
    WriteOfByteCast(2);
    assert payload == [0x02, 0xAA, 0xBB] + nonce + signedData;
    SignatureAdjust.NoHeaderNoCounts(signature);
  }
}
