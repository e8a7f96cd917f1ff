/** The signature normaliser of `createEpidSignatureBodyMessage`: EPID devices
    may send their signature in one of three older layouts, recognised by the
    signature's length alone, which are rewritten into the layout the remote
    verifier expects before the request body is built. */
module SignatureAdjust {
  import opened JavaLang

  /** sver and blobid prepended, sigRLVersion and n2 missing. */
  const SigWithHeaderNoCounts: int := 569
  /** No header, sigRLVersion and n2 missing. */
  const SigNoHeaderNoCounts: int := 565
  /** sver and blobid prepended, counts present: the canonical 573 bytes plus
      four, followed by any number of 160-byte blocks. */
  const SigWithHeaderWithCounts: int := 573
  /** The size of one optional trailing block. */
  const BlockSize: int := 160

  /** The length of a signature the verifier expects: 573 bytes followed by
      any number of 160-byte blocks. */
  predicate IsCanonicalLength(n: int) {
    n >= SigWithHeaderWithCounts && (n - SigWithHeaderWithCounts) % BlockSize == 0
  }

  /** The third rule's test, written with Java's truncating `%`, exactly as
      the source has it. Because that `%` takes the sign of its left operand,
      the test matches exactly the lengths 577 + 160k; no length below 573 can
      match, although a Euclidean remainder would also accept, say, 417. */
  predicate HasHeaderWithCounts(n: int)
    ensures HasHeaderWithCounts(n) <==> n >= SigWithHeaderWithCounts + 4 && (n - SigWithHeaderWithCounts - 4) % BlockSize == 0
  {
    JavaRem(n - SigWithHeaderWithCounts, BlockSize) == 4
  }

  /** Whether the normaliser rewrites a signature of length `n` (any of the
      three rules) rather than passing it through. */
  predicate Rewrites(n: int) {
    n == SigWithHeaderNoCounts || n == SigNoHeaderNoCounts || HasHeaderWithCounts(n)
  }

  /** The normalised signature: the rules are tried in the source's order and
      the first that matches decides. Each rewrite yields a canonical length;
      every other signature, canonical ones among them, is left as it is. */
  function Adjusted(sig: seq<byte>): (r: seq<byte>)
    ensures Rewrites(|sig|) ==> IsCanonicalLength(|r|)
    ensures !Rewrites(|sig|) ==> r == sig
    ensures IsCanonicalLength(|sig|) ==> r == sig
  {
    if |sig| == SigWithHeaderNoCounts then
      // drop sver and blobid, add the missing sigRLVersion and n2
      sig[4..] + Zeros(8)
    else if |sig| == SigNoHeaderNoCounts then
      // add the missing sigRLVersion and n2
      sig + Zeros(8)
    else if HasHeaderWithCounts(|sig|) then
      // drop sver and blobid
      sig[4..]
    else
      sig
  }

  /** A 569-byte signature loses its 4 leading bytes and gains 8 zero bytes,
      which makes 573 bytes. */
  lemma WithHeaderNoCounts(sig: seq<byte>)
    requires |sig| == 569
    ensures |Adjusted(sig)| == 573
    ensures Adjusted(sig)[..565] == sig[4..]
    ensures forall i :: 565 <= i < 573 ==> Adjusted(sig)[i] == 0
  {
  }

  /** A 565-byte signature keeps its bytes and gains 8 zero bytes, which makes 573 bytes. */
  lemma NoHeaderNoCounts(sig: seq<byte>)
    requires |sig| == 565
    ensures |Adjusted(sig)| == 573
    ensures Adjusted(sig)[..565] == sig
    ensures forall i :: 565 <= i < 573 ==> Adjusted(sig)[i] == 0
  {
  }

  /** A signature of 577 + 160k bytes loses its 4 leading bytes, which makes 573 + 160k. */
  lemma WithHeaderWithCounts(sig: seq<byte>, k: nat)
    requires |sig| == 577 + 160 * k
    ensures Adjusted(sig) == sig[4..]
    ensures |Adjusted(sig)| == 573 + 160 * k
  {
  }

  /** Every other length is passed through unchanged. */
  lemma PassThrough(sig: seq<byte>)
    requires |sig| != 569 && |sig| != 565
    requires !(|sig| >= 577 && (|sig| - 577) % 160 == 0)
    ensures Adjusted(sig) == sig
  {
  }

  /** Normalising twice is normalising once: a normalised signature is never
      rewritten again. */
  lemma AdjustedIdempotent(sig: seq<byte>)
    ensures Adjusted(Adjusted(sig)) == Adjusted(sig)
  {
  }

  /** The array form of the normaliser, as the source does it: a rewrite
      allocates a new array and fills it with `System.arraycopy`, leaving the
      zero tail as allocated; a pass-through hands back the very array it was given. */
  method AdjustSignature(signature: array<byte>) returns (adj: array<byte>)
    ensures adj[..] == Adjusted(signature[..])
    ensures Rewrites(signature.Length) ==> fresh(adj)
    ensures !Rewrites(signature.Length) ==> adj == signature
  {
    adj := signature;
    if signature.Length == SigWithHeaderNoCounts {
      adj := new byte[signature.Length + 4](_ => 0);
      ArrayCopy(signature, 4, adj, 0, signature.Length - 4);
      assert adj[..] == signature[4..] + Zeros(8);
    } else if signature.Length == SigNoHeaderNoCounts {
      adj := new byte[signature.Length + 8](_ => 0);
      ArrayCopy(signature, 0, adj, 0, signature.Length);
      assert adj[..] == signature[..] + Zeros(8);
    } else if JavaRem(signature.Length - SigWithHeaderWithCounts, BlockSize) == 4 {
      adj := new byte[signature.Length - 4](_ => 0);
      ArrayCopy(signature, 4, adj, 0, signature.Length - 4);
      assert adj[..] == signature[4..];
    }
  }
}
