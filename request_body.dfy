/** The JSON request body of `createEpidSignatureBodyMessage`: a flat object
    with the three fields `groupId`, `msg` and `epidSignature`, in that order,
    each holding the base64 text of its bytes. A reader for exactly this shape
    is given beside it so that the body can be shown to carry its three byte
    sequences intact. */
module RequestBody {
  import opened JavaLang
  import Base64

  /** The literal pieces between the three values. */
  const GroupIdOpen: string := "{\"groupId\":\""
  const MsgOpen: string := "\",\"msg\":\""
  const SignatureOpen: string := "\",\"epidSignature\":\""
  const Close: string := "\"}"

  /** `t` cut at its first double quote: the text before the quote, and the
      rest from the quote on. */
  function UntilQuote(t: string): (parts: (string, string))
    ensures parts.0 + parts.1 == t
    ensures '"' !in parts.0
    ensures parts.1 == [] || parts.1[0] == '"'
  {
    if |t| == 0 || t[0] == '"' then ([], t)
    else
      var (before, after) := UntilQuote(t[1..]);
      ([t[0]] + before, after)
  }

  /** One field: the literal `key` that must open `t`, then a base64 text up to
      the next quote, decoded; with what follows the text. */
  function ReadField(key: string, t: string): (field: Option<(seq<byte>, string)>) {
    if key <= t then
      var (text, rest) := UntilQuote(t[|key|..]);
      match Base64.Decode(text)
      case None => None
      case Some(bytes) => Some((bytes, rest))
    else None
  }

  /** The three byte sequences a request body carries, or `None` when the text
      is not of the body's shape. */
  function ReadBody(t: string): (fields: Option<(seq<byte>, seq<byte>, seq<byte>)>) {
    match ReadField(GroupIdOpen, t)
    case None => None
    case Some((groupId, r1)) =>
      match ReadField(MsgOpen, r1)
      case None => None
      case Some((msg, r2)) =>
        match ReadField(SignatureOpen, r2)
        case None => None
        case Some((epidSignature, r3)) =>
          if r3 == Close then Some((groupId, msg, epidSignature)) else None
  }

  /** A base64 text never holds a double quote, so it cannot end a JSON string early. */
  lemma EncodingHasNoQuote(s: seq<byte>)
    ensures '"' !in Base64.Encode(s)
  {
  }

  /** Cutting a quote-free text followed by a quote finds that quote. */
  lemma {:induction false} UntilQuoteAppend(a: string, b: string)
    requires '"' !in a
    requires |b| > 0 && b[0] == '"'
    ensures UntilQuote(a + b) == (a, b)
  {
    if a != [] {
      assert (a + b)[0] == a[0] && a[0] != '"';
      assert (a + b)[1..] == a[1..] + b;
      UntilQuoteAppend(a[1..], b);
      assert [a[0]] + a[1..] == a;
    } else {
      assert a + b == b;
    }
  }

  /** A field written as `key`, base64 text, then a quote, is read back. */
  lemma ReadFieldAppend(key: string, s: seq<byte>, rest: string)
    requires |rest| > 0 && rest[0] == '"'
    ensures ReadField(key, key + Base64.Encode(s) + rest) == Some((s, rest))
  {
    var t := key + Base64.Encode(s) + rest;
    assert key <= t;
    assert t[|key|..] == Base64.Encode(s) + rest;
    EncodingHasNoQuote(s);
    UntilQuoteAppend(Base64.Encode(s), rest);
    Base64.DecodeEncode(s);
  }

  lemma Regroup<T>(a: seq<T>, b: seq<T>, c: seq<T>, d: seq<T>, e: seq<T>, f: seq<T>, g: seq<T>)
    ensures a + b + c + d + e + f + g == a + b + (c + d + (e + f + g))
  {
  }

  /** The three fields, each written as key, base64 text, then the quote that
      opens what follows, are read back in order. */
  lemma ReadFields(groupId: seq<byte>, msg: seq<byte>, epidSignature: seq<byte>)
    ensures ReadBody(GroupIdOpen + Base64.Encode(groupId)
                     + MsgOpen + Base64.Encode(msg)
                     + SignatureOpen + Base64.Encode(epidSignature)
                     + Close)
         == Some((groupId, msg, epidSignature))
  {
    Regroup(GroupIdOpen, Base64.Encode(groupId), MsgOpen, Base64.Encode(msg),
            SignatureOpen, Base64.Encode(epidSignature), Close);
    var r3 := Close;
    var r2 := SignatureOpen + Base64.Encode(epidSignature) + r3;
    var r1 := MsgOpen + Base64.Encode(msg) + r2;
    ReadFieldAppend(GroupIdOpen, groupId, r1);
    ReadFieldAppend(MsgOpen, msg, r2);
    ReadFieldAppend(SignatureOpen, epidSignature, r3);
  }

  /** The body as the source concatenates it, adjacent literals joined:
      `{"groupId":"`, the group id's base64, `","msg":"`, the payload's base64,
      `","epidSignature":"`, the signature's base64, `"}`. It carries its three
      byte sequences intact, each under its own key and in the source's order. */
  function Body(groupId: seq<byte>, msg: seq<byte>, epidSignature: seq<byte>): (body: string)
    ensures ReadBody(body) == Some((groupId, msg, epidSignature))
  {
    ReadFields(groupId, msg, epidSignature);
    GroupIdOpen + Base64.Encode(groupId)
    + MsgOpen + Base64.Encode(msg)
    + SignatureOpen + Base64.Encode(epidSignature)
    + Close
  }

  /** Different requests give different bodies. */
  lemma BodyInjective(g1: seq<byte>, m1: seq<byte>, s1: seq<byte>, g2: seq<byte>, m2: seq<byte>, s2: seq<byte>)
    requires Body(g1, m1, s1) == Body(g2, m2, s2)
    ensures g1 == g2 && m1 == m2 && s1 == s2
  {
  }
}
