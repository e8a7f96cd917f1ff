# EPID signature verifier — a Dafny model

This project models the byte-shaping core of `EpidSignatureVerifier`, which sits
in front of a remote EPID verification service in the FIDO Device Onboard
protocol library. Given a device's COSE signature object, the data it signed
and its SigInfo (scheme and group id), `verify`:

1. rebuilds the exact bytes the device signed (`createEpidPayload`), in the
   EPID 1.0 or EPID 1.1 layout;
2. normalises the signature (`createEpidSignatureBodyMessage`). Older device
   layouts are recognised by length alone: 569 and 565 bytes, and 577 + 160k
   bytes. They are rewritten into the layout the verifier expects;
3. encodes the group id, payload and signature as base64 in a fixed JSON body;
4. posts the body and maps the HTTP status to one of five verdicts. It reports
   transport failures as `UNKNOWN_ERROR`. It lets null-argument faults escape.

Modules, one per component:

- `JavaLang` (`java_lang.dfy`) holds the Java semantics the code relies on:
  `byte`, the `(byte)` cast, the truncating `%`, `System.arraycopy`, and
  exceptions that escape (`Completion`, `Fault`).
- `Base64` (`base64.dfy`) is the encoder of section 4 of RFC 4648, as
  `java.util.Base64.getEncoder()` behaves: standard alphabet, `=` padding, no
  line breaks. A decoder sits beside it, and the round trip is proved.
- `SignatureAdjust` (`signature_adjust.dfy`) is the signature normaliser. It is
  a function on sequences plus the source's array method built on
  `System.arraycopy`.
- `EpidPayload` (`epid_payload.dfy`) is the payload builder. It is a function,
  plus the source's step-by-step method over a `ByteArrayOutputStream`
  (`ByteSink`). Readers recover the parts of a payload.
- `RequestBody` (`request_body.dfy`) is the JSON body, plus a reader for
  exactly that shape. The round trip is proved.
- `EpidSignatureVerifier` (`epid_signature_verifier.dfy`) holds the `Result`
  enum, the status switch, the body message and `verify`.

The transport (URL resolution and `EpidHttpClient.doPost`) is a parameter of
`Verify`: a function `string -> Transport` from the posted body to
`Status(code)` or `IoFailure`. "No post happens" is therefore stated as "the
outcome does not depend on the transport".

Behaviour of the code that is easy to misread, and that the model follows:

- A 569-byte signature becomes 573 bytes, not 569. The code allocates
  `signature.length + 4` and copies 565 bytes into it (lines 113-115).
- A signature of 577 + 160k bytes becomes 573 + 160k bytes.
- Only lengths 577 + 160k take the third rule. Java's `%` truncates toward
  zero, so `(L - 573) % 160` is never 4 for L < 573. The model writes that
  `%` explicitly (`JavaLang.JavaRem`).
- A null argument is not reported as a verdict. It throws a
  `RuntimeException` that the `catch` (line 77) does not catch.
- An unsupported scheme does not reach an explicit error. Instead
  `createEpidPayload` returns `null` and the base64 encoder then throws a
  `NullPointerException`. This happens before the version switch of `verify`,
  whose `default` (line 61) is therefore never reached.
- The EPID 1.0 length byte is `(byte) len`: the prefix length modulo 256. The
  code does not restrict the prefix to 255 bytes.

## Model

| member | source | states |
|---|---|---|
| `JavaLang.ByteCast` | protocol/src/main/java/org/fidoalliance/fdo/protocol/epid/EpidSignatureVerifier.java:141 | `(byte) x` yields a signed value in [-128, 128) congruent to x modulo 256 |
| `JavaLang.LowByte` | protocol/src/main/java/org/fidoalliance/fdo/protocol/epid/EpidSignatureVerifier.java:141 | the byte `write(int)` stores is congruent to its argument modulo 256 |
| `JavaLang.WriteOfByteCast` | protocol/src/main/java/org/fidoalliance/fdo/protocol/epid/EpidSignatureVerifier.java:141 | writing `(byte) n` stores n mod 256, which is n itself for 0 <= n < 256 |
| `JavaLang.JavaRem` | protocol/src/main/java/org/fidoalliance/fdo/protocol/epid/EpidSignatureVerifier.java:119 | Java's `%`: a = q*b + r under truncating division, with abs(r) < b and r taking the sign of a |
| `JavaLang.ArrayCopy` | protocol/src/main/java/org/fidoalliance/fdo/protocol/epid/EpidSignatureVerifier.java:115 | `System.arraycopy`: the destination range is replaced by the source range and the rest of the destination is unchanged |
| `JavaLang.Zeros` | protocol/src/main/java/org/fidoalliance/fdo/protocol/epid/EpidSignatureVerifier.java:149-151 | a freshly allocated buffer of n bytes (`new byte[n]`, `ByteBuffer.allocate(n)`) holds n zero bytes |
| `Base64.Encode` | protocol/src/main/java/org/fidoalliance/fdo/protocol/epid/EpidSignatureVerifier.java:126-128 | the encoding has 4*ceil(n/3) characters, all from the standard alphabet or `=` |
| `Base64.DecodeEncode` | protocol/src/main/java/org/fidoalliance/fdo/protocol/epid/EpidSignatureVerifier.java:126-128 | decoding the encoding of any bytes gives those bytes back |
| `Base64.EncodeInjective` | protocol/src/main/java/org/fidoalliance/fdo/protocol/epid/EpidSignatureVerifier.java:126-128 | different byte sequences have different encodings |
| `SignatureAdjust.HasHeaderWithCounts` | protocol/src/main/java/org/fidoalliance/fdo/protocol/epid/EpidSignatureVerifier.java:119 | the third rule's Java test `(L-573) % 160 == 4` holds iff L >= 577 and (L-577) is a multiple of 160 |
| `SignatureAdjust.WithHeaderNoCounts` | protocol/src/main/java/org/fidoalliance/fdo/protocol/epid/EpidSignatureVerifier.java:113-115 | a 569-byte signature becomes 573 bytes: its bytes from index 4, then 8 zeros |
| `SignatureAdjust.NoHeaderNoCounts` | protocol/src/main/java/org/fidoalliance/fdo/protocol/epid/EpidSignatureVerifier.java:116-118 | a 565-byte signature becomes 573 bytes: all its bytes, then 8 zeros |
| `SignatureAdjust.WithHeaderWithCounts` | protocol/src/main/java/org/fidoalliance/fdo/protocol/epid/EpidSignatureVerifier.java:119-121 | a signature of 577+160k bytes loses its first 4 bytes, giving 573+160k bytes |
| `SignatureAdjust.PassThrough` | protocol/src/main/java/org/fidoalliance/fdo/protocol/epid/EpidSignatureVerifier.java:112-122 | every length other than 569, 565 and 577+160k is passed through unchanged |
| `SignatureAdjust.Adjusted` | protocol/src/main/java/org/fidoalliance/fdo/protocol/epid/EpidSignatureVerifier.java:112-122 | the rules apply in the source's order; every rewrite yields a length 573+160k; a signature no rule matches is left unchanged, and so is every signature of length 573+160k |
| `SignatureAdjust.AdjustedIdempotent` | protocol/src/main/java/org/fidoalliance/fdo/protocol/epid/EpidSignatureVerifier.java:112-122 | normalising a normalised signature changes nothing |
| `SignatureAdjust.AdjustSignature` | protocol/src/main/java/org/fidoalliance/fdo/protocol/epid/EpidSignatureVerifier.java:112-122 | the array result holds the normalised signature; a rewrite returns a fresh array; a pass-through returns the input array itself |
| `EpidPayload.IsSupported` | protocol/src/main/java/org/fidoalliance/fdo/protocol/epid/EpidSignatureVerifier.java:52-54 | the two scheme codes, EPID 1.0 and EPID 1.1, that both version switches have a case for; every other code takes the `default` branch |
| `EpidPayload.Epid11Header` | protocol/src/main/java/org/fidoalliance/fdo/protocol/epid/EpidSignatureVerifier.java:147 | 48 bytes, all zero except byte 4 = 0x48 and byte 8 = 0x08 |
| `EpidPayload.Payload` | protocol/src/main/java/org/fidoalliance/fdo/protocol/epid/EpidSignatureVerifier.java:139-156 | a payload exists exactly for the two EPID versions; otherwise the result is null |
| `EpidPayload.CreatePayload` | protocol/src/main/java/org/fidoalliance/fdo/protocol/epid/EpidSignatureVerifier.java:134-158 | null signed data throws a NullPointerException exactly for a supported version; an unsupported version returns null; otherwise the result is the payload |
| `EpidPayload.Epid10Layout` | protocol/src/main/java/org/fidoalliance/fdo/protocol/epid/EpidSignatureVerifier.java:140-145 | EPID 1.0 payload = [abs(P) mod 256] ++ P ++ N ++ D, by length and by slices |
| `EpidPayload.Epid11Layout` | protocol/src/main/java/org/fidoalliance/fdo/protocol/epid/EpidSignatureVerifier.java:146-153 | EPID 1.1 payload = H ++ P ++ 0^16 ++ N ++ 0^16 ++ D, of length 80+abs(P)+abs(N)+abs(D), by slices |
| `EpidPayload.SplitEpid10` | protocol/src/main/java/org/fidoalliance/fdo/protocol/epid/EpidSignatureVerifier.java:140-145 | whatever the EPID 1.0 reader returns rebuilds the message it read |
| `EpidPayload.SplitEpid10Payload` | protocol/src/main/java/org/fidoalliance/fdo/protocol/epid/EpidSignatureVerifier.java:140-145 | with a prefix under 256 bytes, the leading length byte lets the EPID 1.0 payload be read back into P, N, D |
| `EpidPayload.Epid10LengthTruncated` | protocol/src/main/java/org/fidoalliance/fdo/protocol/epid/EpidSignatureVerifier.java:141 | a 256-byte prefix is announced with length byte 0, so its payload does not read back |
| `EpidPayload.SplitEpid11` | protocol/src/main/java/org/fidoalliance/fdo/protocol/epid/EpidSignatureVerifier.java:146-153 | whatever the EPID 1.1 reader returns rebuilds the message it read, fixed blocks checked |
| `EpidPayload.SplitEpid11Payload` | protocol/src/main/java/org/fidoalliance/fdo/protocol/epid/EpidSignatureVerifier.java:146-153 | the EPID 1.1 payload reads back into P, N, D |
| `EpidPayload.ByteSink.constructor` | protocol/src/main/java/org/fidoalliance/fdo/protocol/epid/EpidSignatureVerifier.java:138 | a new `ByteArrayOutputStream` holds no bytes |
| `EpidPayload.ByteSink.WriteByte` | protocol/src/main/java/org/fidoalliance/fdo/protocol/epid/EpidSignatureVerifier.java:141 | `write(int)` appends the argument's low 8 bits |
| `EpidPayload.ByteSink.Write` | protocol/src/main/java/org/fidoalliance/fdo/protocol/epid/EpidSignatureVerifier.java:142-152 | `write(byte[])` appends the bytes |
| `EpidPayload.AllocateEpid11Header` | protocol/src/main/java/org/fidoalliance/fdo/protocol/epid/EpidSignatureVerifier.java:147 | the fresh `ByteBuffer` array is the EPID 1.1 header |
| `EpidPayload.CreateEpidPayload` | protocol/src/main/java/org/fidoalliance/fdo/protocol/epid/EpidSignatureVerifier.java:134-158 | building step by step into the stream yields exactly `CreatePayload` |
| `RequestBody.Body` | protocol/src/main/java/org/fidoalliance/fdo/protocol/epid/EpidSignatureVerifier.java:125-129 | reading the body `{"groupId":"…","msg":"…","epidSignature":"…"}` gives back group id, payload and signature, in that order |
| `RequestBody.BodyInjective` | protocol/src/main/java/org/fidoalliance/fdo/protocol/epid/EpidSignatureVerifier.java:125-129 | different (group id, payload, signature) triples give different bodies |
| `RequestBody.EncodingHasNoQuote` | protocol/src/main/java/org/fidoalliance/fdo/protocol/epid/EpidSignatureVerifier.java:126-128 | a base64 value never contains `"`, so it needs no JSON escaping |
| `EpidSignatureVerifier.MapStatus` | protocol/src/main/java/org/fidoalliance/fdo/protocol/epid/EpidSignatureVerifier.java:65-76 | the verdict is not UNKNOWN_ERROR iff the status is 200, 400, 403 or 417, and then it is the verdict standing for that status |
| `EpidSignatureVerifier.MapStatusInverse` | protocol/src/main/java/org/fidoalliance/fdo/protocol/epid/EpidSignatureVerifier.java:65-76 | each verdict other than UNKNOWN_ERROR is produced by exactly one status |
| `EpidSignatureVerifier.BodyMessage` | protocol/src/main/java/org/fidoalliance/fdo/protocol/epid/EpidSignatureVerifier.java:82-131 | a body is built iff the signed data is non-null and the version is supported (otherwise a NullPointerException); it carries group id, payload and normalised signature |
| `EpidSignatureVerifier.CreateEpidSignatureBodyMessage` | protocol/src/main/java/org/fidoalliance/fdo/protocol/epid/EpidSignatureVerifier.java:82-131 | the method chain of payload stream, array normaliser and encoder yields exactly `BodyMessage` |
| `EpidSignatureVerifier.Verify` | protocol/src/main/java/org/fidoalliance/fdo/protocol/epid/EpidSignatureVerifier.java:39-80 | a fault escapes iff an object or the signed data is null or the version is unsupported (a null object gives the RuntimeException, the rest a NullPointerException, so the `default` branch of line 61 is never reached); otherwise the verdict is the outcome of posting the request |
| `EpidSignatureVerifier.FaultBeforePost` | protocol/src/main/java/org/fidoalliance/fdo/protocol/epid/EpidSignatureVerifier.java:43-64 | when `verify` throws, its outcome does not depend on the transport, so no post takes place |
| `EpidSignatureVerifier.Outcome` | protocol/src/main/java/org/fidoalliance/fdo/protocol/epid/EpidSignatureVerifier.java:64-79 | an I/O or URI failure gives UNKNOWN_ERROR; any other verdict comes from an answered status, the one standing for it; 200, 400, 403 and 417 never give UNKNOWN_ERROR |
| `EpidSignatureVerifier.PostedOutcome` | protocol/src/main/java/org/fidoalliance/fdo/protocol/epid/EpidSignatureVerifier.java:64-79 | after a post: 200 gives VERIFIED, 400 MALFORMED_REQUEST, 403 INVALID_SIGNATURE, 417 OUTDATED_SIGRL; an I/O failure gives UNKNOWN_ERROR; no fault escapes |
| `EpidSignatureVerifier.Request` | protocol/src/main/java/org/fidoalliance/fdo/protocol/epid/EpidSignatureVerifier.java:48-49 | the posted body carries the group id, the payload the device signed and the normalised signature |
| `EpidSignatureVerifier.Epid10NoHeaderScenario` | protocol/src/main/java/org/fidoalliance/fdo/protocol/epid/EpidSignatureVerifier.java:116-145 | EPID 1.0 with prefix AA BB and a 565-byte signature: the body's msg is 02 AA BB ++ nonce ++ data, and its signature has 573 bytes |

## Left out

- COSE/CBOR decoding through `Composite` (`getAsBytes`, `getAsNumber`, `getAsComposite`, `fromObject`) is foreign code. The signature object is a record of three byte sequences (signature, nonce, Maroe prefix). SigInfo is a record of an integer scheme and a group id. Nulls and decoding failures inside those objects are not modelled. Neither is the `intValue()` narrowing of the scheme number.
- URL construction (`EpidUtils.getEpidOnlineUrl`, `URL`, `URI.resolve`, the `Const` path segments) and `EpidHttpClient.doPost` are configuration and I/O. Together they are the `post` parameter. Any `IOException` or `URISyntaxException` they raise is its `IoFailure` answer.
- The values of `Const.SG_EPIDv10` and `Const.SG_EPIDv11` are defined outside the core file. The model uses 90 and 91, and nothing depends on them beyond their being distinct.
- The EPID cryptography itself is done by the remote service.
- `JavaLang.ArrayCopy`: requires distinct source and destination arrays, which is weaker than Java's overlap-safe `System.arraycopy`. Every call in the core copies into a freshly allocated array.
- `EpidPayload.ByteSink`: holds its contents as a sequence. The growable internal array of `ByteArrayOutputStream` is not modelled.
- `Base64.Decode` exists only to state the round trip. It does not insist that the unused bits of a padded final group be zero, which RFC 4648 leaves to implementations. The model does not state the converse round trip `Encode(Decode(t)) == t`.
- `RequestBody.ReadBody` reads only this body's exact shape. It is not a general JSON parser.
- Java bytes are modelled as their unsigned bit patterns (0 to 255). The core only copies bytes, so their sign never matters.
