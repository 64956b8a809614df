/** Go's int32: arithmetic that wraps around. */
module Int32 {

  const MAX_INT32: nat := 0x7fff_ffff
  const HALF: int := 0x8000_0000
  const FULL: int := 0x1_0000_0000

  /** An int32 as the value it stands for. */
  function Wrap32(x: int): (r: int)
    ensures -0x8000_0000 <= r < 0x8000_0000
    ensures -0x8000_0000 <= x < 0x8000_0000 ==> r == x
  {
    (x + HALF) % FULL - HALF
  }

  lemma Wrap32Add(x: int, y: int)
    ensures Wrap32(Wrap32(x) + y) == Wrap32(x + y)
  {
    var q := (x + HALF) / FULL;
    assert Wrap32(x) + y + HALF == (x + y + HALF) - q * FULL;
    assert (x + y + HALF - q * FULL) % FULL == (x + y + HALF) % FULL;
  }
}
