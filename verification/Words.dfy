/** Machine words, byte strings, and the option and result types shared by every component. */
module Words {

  const TWO_32: nat := 0x1_0000_0000
  const TWO_64: nat := 0x1_0000_0000_0000_0000

  type Byte = x: int | 0 <= x < 256
  type uint16 = x: int | 0 <= x < 0x1_0000
  type uint32 = x: int | 0 <= x < 0x1_0000_0000
  type uint64 = x: int | 0 <= x < 0x1_0000_0000_0000_0000

  type Bytes = seq<Byte>

  datatype Option<+T> = None | Some(value: T)

  /** `Fatal` stands for NS_FATAL_ERROR, a failed NS_ASSERT, and NS_ABORT_IF: the program stops. */
  datatype Result<+T> = Ok(value: T) | Fatal(reason: string) {
    predicate IsFailure() {
      Fatal?
    }

    function PropagateFailure<U>(): Result<U>
      requires Fatal?
    {
      Fatal(reason)
    }

    function Extract(): T
      requires Ok?
    {
      value
    }
  }

  /** The conversion of a 32-bit unsigned number to `int`. */
  function ToInt32(x: uint32): int {
    if x < 0x8000_0000 then x else x - TWO_32
  }

  /** The conversion of an `int` to 32-bit unsigned. */
  function ToUint32(x: int): (u: uint32) {
    x % TWO_32
  }

  /** A payload of `n` zero bytes, as `Create<Packet>(n)` makes it. */
  function Zeros(n: nat): (z: Bytes)
    ensures |z| == n
    ensures forall i | 0 <= i < n :: z[i] == 0
  {
    seq(n, _ => 0)
  }

  lemma ZerosSplit(n: nat, k: nat)
    requires k <= n
    ensures Zeros(n)[..k] == Zeros(k)
    ensures Zeros(n)[k..] == Zeros(n - k)
    ensures Zeros(k) + Zeros(n - k) == Zeros(n)
  {
  }
}
