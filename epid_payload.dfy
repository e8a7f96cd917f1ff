/** The payload builder of `createEpidPayload`: the exact bytes the device
    signed, rebuilt from the Maroe prefix of the unprotected header, the nonce
    of the attestation payload and the signed data, in the layout of the
    signature's EPID version. */
module EpidPayload {
  import opened JavaLang

  /** The `sgType` values of the two EPID versions (`Const.SG_EPIDv10`,
      `Const.SG_EPIDv11`); nothing below depends on them beyond their being distinct. */
  const SgEpid10: int := 90
  const SgEpid11: int := 91

  /** The two versions `createEpidPayload` and `verify` have a case for. */
  predicate IsSupported(sgType: int) {
    sgType == SgEpid10 || sgType == SgEpid11
  }

  /** The 48-byte block that opens an EPID 1.1 payload: zero except byte 4,
      which is 0x48, and byte 8, which is 0x08. */
  function Epid11Header(): (h: seq<byte>)
    ensures |h| == 48
    ensures forall i :: 0 <= i < 48 ==> h[i] == (if i == 4 then 0x48 else if i == 8 then 0x08 else 0)
  {
    Zeros(4) + [0x48] + Zeros(3) + [0x08] + Zeros(39)
  }

  /** The signed payload, or `None` where the source returns `null`: for an
      `sgType` that is neither EPID version. */
  function Payload(prefix: seq<byte>, nonce: seq<byte>, data: seq<byte>, sgType: int): (r: Option<seq<byte>>)
    ensures r.Some? <==> IsSupported(sgType)
  {
    if sgType == SgEpid10 then
      Some([LowByte(ByteCast(|prefix|))] + prefix + nonce + data)
    else if sgType == SgEpid11 then
      Some(Epid11Header() + prefix + Zeros(16) + nonce + Zeros(16) + data)
    else
      None
  }

  /** All of `createEpidPayload`, with the signed data possibly `null`:
      `write(null)` throws for a supported version, while any other version
      returns `null` before the data is looked at. */
  function CreatePayload(prefix: seq<byte>, nonce: seq<byte>, data: Option<seq<byte>>, sgType: int)
    : (r: Completion<Option<seq<byte>>>)
    ensures r.Abrupt? <==> data.None? && IsSupported(sgType)
    ensures r.Abrupt? ==> r.fault == NullPointer
    ensures r == Normal(None) <==> !IsSupported(sgType)
    ensures data.Some? ==> r == Normal(Payload(prefix, nonce, data.value, sgType))
  {
    match data
    case None => if IsSupported(sgType) then Abrupt(NullPointer) else Normal(None)
    case Some(d) => Normal(Payload(prefix, nonce, d, sgType))
  }

  /** EPID 1.0: one byte holding the prefix length modulo 256, then the
      prefix, the nonce and the signed data. */
  lemma Epid10Layout(prefix: seq<byte>, nonce: seq<byte>, data: seq<byte>)
    ensures Payload(prefix, nonce, data, SgEpid10).Some?
    ensures var r := Payload(prefix, nonce, data, SgEpid10).value;
      && |r| == 1 + |prefix| + |nonce| + |data|
      && r[0] as int == |prefix| % 256
      && r[1..1 + |prefix|] == prefix
      && r[1 + |prefix|..1 + |prefix| + |nonce|] == nonce
      && r[1 + |prefix| + |nonce|..] == data
  {
  }

  /** EPID 1.1: the fixed header, the prefix, 16 zero bytes, the nonce, 16
      zero bytes and the signed data; 80 bytes more than its three inputs. */
  lemma Epid11Layout(prefix: seq<byte>, nonce: seq<byte>, data: seq<byte>)
    ensures Payload(prefix, nonce, data, SgEpid11).Some?
    ensures var r := Payload(prefix, nonce, data, SgEpid11).value;
      var p, n := |prefix|, |nonce|;
      && |r| == 80 + p + n + |data|
      && r[..48] == Epid11Header()
      && r[48..48 + p] == prefix
      && r[48 + p..64 + p] == Zeros(16)
      && r[64 + p..64 + p + n] == nonce
      && r[64 + p + n..80 + p + n] == Zeros(16)
      && r[80 + p + n..] == data
  {
  }

  /** Reads an EPID 1.0 payload back into prefix, nonce and signed data, given
      the nonce length; the leading length byte says where the prefix ends. */
  function SplitEpid10(msg: seq<byte>, nonceLength: nat): (parts: Option<(seq<byte>, seq<byte>, seq<byte>)>)
    ensures parts.Some? ==> Payload(parts.value.0, parts.value.1, parts.value.2, SgEpid10) == Some(msg)
  {
    if |msg| == 0 then None
    else
      var p := msg[0] as int;
      if |msg| < 1 + p + nonceLength then None
      else
        var prefix, nonce, data := msg[1..1 + p], msg[1 + p..1 + p + nonceLength], msg[1 + p + nonceLength..];
        assert msg == [msg[0]] + prefix + nonce + data;
        WriteOfByteCast(p);
        Some((prefix, nonce, data))
  }

  /** An EPID 1.0 payload whose prefix is shorter than 256 bytes can be read
      back unambiguously into its three parts. */
  lemma SplitEpid10Payload(prefix: seq<byte>, nonce: seq<byte>, data: seq<byte>)
    requires |prefix| < 256
    ensures SplitEpid10(Payload(prefix, nonce, data, SgEpid10).value, |nonce|) == Some((prefix, nonce, data))
  {
    Epid10Layout(prefix, nonce, data);
  }

  /** A prefix of 256 bytes or more is recorded with a truncated length byte:
      a 256-byte prefix is announced as empty. */
  lemma Epid10LengthTruncated(prefix: seq<byte>, nonce: seq<byte>, data: seq<byte>)
    requires |prefix| == 256
    ensures Payload(prefix, nonce, data, SgEpid10).value[0] == 0
    ensures SplitEpid10(Payload(prefix, nonce, data, SgEpid10).value, |nonce|) != Some((prefix, nonce, data))
  {
  }

  /** Reads an EPID 1.1 payload back into prefix, nonce and signed data, given
      the prefix and nonce lengths, checking the fixed header and zero blocks. */
  function SplitEpid11(msg: seq<byte>, prefixLength: nat, nonceLength: nat): (parts: Option<(seq<byte>, seq<byte>, seq<byte>)>)
    ensures parts.Some? ==> Payload(parts.value.0, parts.value.1, parts.value.2, SgEpid11) == Some(msg)
  {
    var p, n := prefixLength, nonceLength;
    if |msg| < 80 + p + n then None
    else if msg[..48] != Epid11Header() || msg[48 + p..64 + p] != Zeros(16) || msg[64 + p + n..80 + p + n] != Zeros(16) then None
    else
      var prefix, nonce, data := msg[48..48 + p], msg[64 + p..64 + p + n], msg[80 + p + n..];
      assert msg == msg[..48] + prefix + msg[48 + p..64 + p] + nonce + msg[64 + p + n..80 + p + n] + data;
      Some((prefix, nonce, data))
  }

  /** An EPID 1.1 payload is read back into its three parts. */
  lemma SplitEpid11Payload(prefix: seq<byte>, nonce: seq<byte>, data: seq<byte>)
    ensures SplitEpid11(Payload(prefix, nonce, data, SgEpid11).value, |prefix|, |nonce|) == Some((prefix, nonce, data))
  {
    Epid11Layout(prefix, nonce, data);
  }

  /** A `java.io.ByteArrayOutputStream`: a growing buffer that bytes are
      appended to. */
  class ByteSink {
    var bytes: seq<byte>

    constructor ()
      ensures bytes == []
    {
      bytes := [];
    }

    /** `write(int b)`: appends the low 8 bits of `b`. */
    method WriteByte(b: int)
      modifies this
      ensures bytes == old(bytes) + [LowByte(b)]
    {
      bytes := bytes + [LowByte(b)];
    }

    /** `write(byte[] b)`: appends all of `b`. */
    method Write(b: seq<byte>)
      modifies this
      ensures bytes == old(bytes) + b
    {
      bytes := bytes + b;
    }
  }

  /** The EPID 1.1 header as the source allocates it: a fresh 48-byte buffer,
      zero except byte 4, set to 0x48, and byte 8, set to 0x08. */
  method AllocateEpid11Header() returns (h: array<byte>)
    ensures fresh(h)
    ensures h[..] == Epid11Header()
  {
    h := new byte[48](_ => 0);
    h[4] := 0x48;
    h[8] := 0x08;
    assert h[..] == Epid11Header();
  }

  /** The payload as the source builds it, appending into a byte stream step by
      step; `None` where the source returns `null`. */
  method CreateEpidPayload(prefix: seq<byte>, nonce: seq<byte>, data: Option<seq<byte>>, sgType: int)
    returns (r: Completion<Option<seq<byte>>>)
    ensures r == CreatePayload(prefix, nonce, data, sgType)
  {
    var baos := new ByteSink();
    if sgType == SgEpid10 {
      baos.WriteByte(ByteCast(|prefix|));
      baos.Write(prefix);
      baos.Write(nonce);
      if data.None? {
        return Abrupt(NullPointer);
      }
      baos.Write(data.value);
      assert baos.bytes == [LowByte(ByteCast(|prefix|))] + prefix + nonce + data.value;
    } else if sgType == SgEpid11 {
      var header := AllocateEpid11Header();
      baos.Write(header[..]);
      baos.Write(prefix);
      var pad := new byte[16](_ => 0);
      assert pad[..] == Zeros(16);
      baos.Write(pad[..]);
      baos.Write(nonce);
      pad := new byte[16](_ => 0);
      assert pad[..] == Zeros(16);
      baos.Write(pad[..]);
      if data.None? {
        return Abrupt(NullPointer);
      }
      baos.Write(data.value);
      assert baos.bytes == Epid11Header() + prefix + Zeros(16) + nonce + Zeros(16) + data.value;
    } else {
      return Normal(None);
    }
    r := Normal(Some(baos.bytes));
  }
}
