/** Process ranks and deal.II subdomain ids, both C++ `unsigned int`. */
module Ranks {

  /** A 32-bit unsigned integer used as MPI rank or subdomain id. */
  type Rank = r: int | 0 <= r < 0x1_0000_0000

  /** `numbers::invalid_unsigned_int`: the largest `unsigned int`, the start value of the rank minimum. */
  const InvalidUnsignedInt: Rank := 0xFFFF_FFFF

  /** `std::min` on two ranks: the second argument only when it is strictly smaller. */
  function Min(a: Rank, b: Rank): (r: Rank)
    ensures r <= a && r <= b
    ensures r == a || r == b
  {
    if b < a then b else a
  }
}
