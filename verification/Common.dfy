/** Types and arithmetic shared by the models. */
module Common {

  datatype Option<T> = None | Some(value: T)

  type Byte = b: int | 0 <= b < 256

  const U32: nat := 0x1_0000_0000

  function Abs(x: real): real { if x < 0.0 then -x else x }

  /** roundf and lround: to nearest, halves away from zero. */
  function Round(x: real): int {
    if x >= 0.0 then (x + 0.5).Floor else -((-x + 0.5).Floor)
  }

  function Min(a: nat, b: nat): nat { if a < b then a else b }

  // ---- Little-endian integers ----

  function Le16(s: seq<Byte>, i: nat): (n: nat)
    requires i + 2 <= |s|
    ensures n < 0x1_0000
  {
    (s[i] as int) + 256 * (s[i + 1] as int)
  }

  function Le32(s: seq<Byte>, i: nat): (n: nat)
    requires i + 4 <= |s|
    ensures n < 0x1_0000_0000
  {
    Le16(s, i) + 0x1_0000 * Le16(s, i + 2)
  }

  function Le64(s: seq<Byte>, i: nat): (n: nat)
    requires i + 8 <= |s|
    ensures n < 0x1_0000_0000_0000_0000
  {
    Le32(s, i) + 0x1_0000_0000 * Le32(s, i + 4)
  }

  function Bytes16(n: nat): (s: seq<Byte>)
    requires n < 0x1_0000
    ensures |s| == 2 && Le16(s, 0) == n
  {
    [n % 256, n / 256]
  }

  function Bytes32(n: nat): (s: seq<Byte>)
    requires n < 0x1_0000_0000
    ensures |s| == 4 && Le32(s, 0) == n
  {
    Bytes16(n % 0x1_0000) + Bytes16(n / 0x1_0000)
  }

  function Bytes64(n: nat): (s: seq<Byte>)
    requires n < 0x1_0000_0000_0000_0000
    ensures |s| == 8 && Le64(s, 0) == n
  {
    Bytes32(n % 0x1_0000_0000) + Bytes32(n / 0x1_0000_0000)
  }
}
