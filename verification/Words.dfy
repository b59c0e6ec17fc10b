/** The 64-bit machine integers of the target platform, written out where the
    evaluation arithmetic could wrap around. */
module Words {

  const TWO_TO_63: int := 0x8000_0000_0000_0000
  const TWO_TO_64: int := 0x1_0000_0000_0000_0000

  /** Conversion to an unsigned 64-bit word: what any `uint` expression keeps. */
  function Uint(x: int): (r: nat)
    ensures r < TWO_TO_64
    ensures 0 <= x < TWO_TO_64 ==> r == x
    ensures -TWO_TO_64 <= x < 0 ==> r == x + TWO_TO_64
  {
    x % TWO_TO_64
  }

  /** Conversion to a signed 64-bit word: what any `int` expression keeps. */
  function Int(x: int): (r: int)
    ensures -TWO_TO_63 <= r < TWO_TO_63
    ensures -TWO_TO_63 <= x < TWO_TO_63 ==> r == x
  {
    var u := x % TWO_TO_64;
    if u < TWO_TO_63 then u else u - TWO_TO_64
  }

  /** The conversion helper of the handlers: negative numbers become zero. */
  function SafeUint(x: int): nat {
    if x < 0 then 0 else x
  }

  lemma UintExact(x: int)
    requires 0 <= x < TWO_TO_64
    ensures Uint(x) == x
  {
  }
}
