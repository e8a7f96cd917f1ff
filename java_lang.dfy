/** The few pieces of Java semantics the verifier core relies on: the byte type,
    the narrowing cast `(byte) x`, the truncating remainder `%` on `int`, and
    `System.arraycopy`. */
module JavaLang {

  /** A Java `byte` seen as its unsigned bit pattern; the core only ever copies
      bytes, so the sign of a byte never matters. */
  newtype byte = x: int | 0 <= x < 256

  datatype Option<T> = None | Some(value: T)

  /** The two unchecked exceptions the core can raise: the bare
      `RuntimeException` thrown for a null argument, and a
      `NullPointerException` from handing `null` to a library call. */
  datatype Fault = NullArgument | NullPointer

  /** How a Java expression or call completes: normally with a value, or
      abruptly with an exception that no handler of the core catches. */
  datatype Completion<T> = Normal(value: T) | Abrupt(fault: Fault)

  /** `n` zero bytes, as a freshly allocated `byte[n]` holds. */
  function Zeros(n: nat): (z: seq<byte>)
    ensures |z| == n
    ensures forall i :: 0 <= i < n ==> z[i] == 0
  {
    seq(n, _ => 0)
  }

  /** Java's narrowing cast `(byte) x`: keep the low 8 bits and read them as a
      signed two's-complement value. */
  function ByteCast(x: int): (r: int)
    ensures -128 <= r < 128
    ensures (x - r) % 256 == 0
  {
    (x + 128) % 256 - 128
  }

  /** What `OutputStream.write(int b)` stores: the low 8 bits of `b`. */
  function LowByte(x: int): (r: byte)
    ensures (x - r as int) % 256 == 0
  {
    (x % 256) as byte
  }

  /** Writing `(byte) n` stores the low 8 bits of `n`, that is `n` modulo 256,
      which is `n` itself whenever it fits in a byte. */
  lemma WriteOfByteCast(n: int)
    ensures LowByte(ByteCast(n)) as int == n % 256
    ensures 0 <= n < 256 ==> LowByte(ByteCast(n)) as int == n
  {
  }

  /** Java's `a / b` for `int` operands with `b > 0`: division that truncates
      toward zero. */
  function JavaDiv(a: int, b: int): (q: int)
    requires b > 0
  {
    if a >= 0 then a / b else -((-a) / b)
  }

  /** Java's `a % b` for `int` operands with `b > 0`: the remainder of the
      division that truncates toward zero, so it takes the sign of `a`. */
  function JavaRem(a: int, b: int): (r: int)
    requires b > 0
    ensures a == JavaDiv(a, b) * b + r
    ensures -b < r < b
    ensures a >= 0 ==> r >= 0
    ensures a <= 0 ==> r <= 0
  {
    if a >= 0 then a % b else -((-a) % b)
  }

  /** `System.arraycopy(src, srcPos, dest, destPos, length)` between two
      distinct arrays: the `length` elements of `src` from `srcPos` replace
      those of `dest` from `destPos`, and nothing else in `dest` changes. */
  method ArrayCopy<T>(src: array<T>, srcPos: nat, dest: array<T>, destPos: nat, length: nat)
    requires src != dest
    requires srcPos + length <= src.Length
    requires destPos + length <= dest.Length
    modifies dest
    ensures dest[..] == old(dest[..destPos]) + src[srcPos..srcPos + length] + old(dest[destPos + length..])
  {
    var i := 0;
    while i < length
      invariant 0 <= i <= length
      invariant forall k :: 0 <= k < destPos ==> dest[k] == old(dest[k])
      invariant forall k :: destPos <= k < destPos + i ==> dest[k] == src[srcPos + (k - destPos)]
      invariant forall k :: destPos + i <= k < dest.Length ==> dest[k] == old(dest[k])
    {
      dest[destPos + i] := src[srcPos + i];
      i := i + 1;
    }
    assert dest[..] == old(dest[..destPos]) + src[srcPos..srcPos + length] + old(dest[destPos + length..]);
  }
}
