/** Integer division as the engine's language defines it: quotients truncate towards zero. */
module Integers {
  function Quot(l: int, r: int): int
    requires r != 0
  {
    if l >= 0 then l / r else -((-l) / r)
  }

  /** The remainder, whose sign is the dividend's. */
  function Rem(l: int, r: int): int
    requires r != 0
  {
    if l >= 0 then l % r else -((-l) % r)
  }

  lemma QuotRem(l: int, r: int)
    requires r != 0
    ensures l == Quot(l, r) * r + Rem(l, r)
  {
    if l < 0 {
      assert -l == (-l) / r * r + (-l) % r;
    }
  }
}
