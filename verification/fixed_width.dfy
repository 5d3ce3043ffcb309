/**
  Unsigned machine integers of the storage and the computation of an entry's
  stored expiration time, with the wrap-around and narrowing of C++'s
  unsigned arithmetic written out.
 */
module FixedWidth {

  const TWO_32: int := 0x1_0000_0000
  const TWO_64: int := 0x1_0000_0000_0000_0000

  type u32 = x: int | 0 <= x < TWO_32
  type u64 = x: int | 0 <= x < TWO_64

  /** The largest `std::uint64_t`, used by the source as the "never" time. */
  const U64_MAX: u64 := 0xFFFF_FFFF_FFFF_FFFF

  /** What the "never" time becomes once narrowed to a `std::uint32_t` key. */
  const NEVER_STORED: u32 := 0xFFFF_FFFF

  /** `std::uint64_t` addition, which wraps modulo 2^64. */
  function Add64(a: u64, b: u64): u64
  {
    (a + b) % TWO_64
  }

  /** Implicit conversion of a `std::uint64_t` to `std::uint32_t`. */
  function Narrow32(x: u64): u32
  {
    x % TWO_32
  }

  /**
    The expiration stored for an entry written with `ttl` at clock sample
    `now`: the 64-bit time (`U64_MAX` when `ttl` is 0, otherwise `now + ttl`)
    is converted to the 32-bit key of the expiration index.
   */
  function ExpirationFor(ttl: u32, now: u64): u32
  {
    Narrow32(if ttl == 0 then U64_MAX else Add64(now, ttl))
  }

  /** The stored expiration in closed form: the sentinel, or `now + ttl` mod 2^32. */
  lemma ExpirationForValue(ttl: u32, now: u64)
    ensures ttl == 0 ==> ExpirationFor(ttl, now) == NEVER_STORED
    ensures ttl != 0 ==> ExpirationFor(ttl, now) == (now + ttl) % TWO_32
  {
    if ttl != 0 {
      var x := now + ttl;
      if x >= TWO_64 {
        assert Add64(now, ttl) == x - TWO_64;
        LowBitsIgnoreHighWord(x);
      }
    }
  }

  /** Removing 2^64 from a value does not change its low 32 bits. */
  lemma LowBitsIgnoreHighWord(x: int)
    requires x >= TWO_64
    ensures (x - TWO_64) % TWO_32 == x % TWO_32
  {
    var q, r := x / TWO_32, x % TWO_32;
    assert x == q * TWO_32 + r;
    assert x - TWO_64 == (q - TWO_32) * TWO_32 + r;
  }

  /** Without wrap-around (`now + ttl` below 2^32) the stored expiration is exactly `now + ttl`. */
  lemma ExpirationWithoutWrap(ttl: u32, now: u64)
    requires ttl != 0 && now + ttl < TWO_32
    ensures ExpirationFor(ttl, now) == now + ttl
  {
    ExpirationForValue(ttl, now);
  }

  /**
    A 32-bit clock sample whose `now + ttl` reaches 2^32 stores an expiration
    below `ttl`, that is, one that is already in the past.
   */
  lemma ExpirationWraps(ttl: u32, now: u64)
    requires now < TWO_32 <= now + ttl
    ensures ExpirationFor(ttl, now) == now + ttl - TWO_32
    ensures ExpirationFor(ttl, now) < ttl
    ensures ExpirationFor(ttl, now) < now
  {
    ExpirationForValue(ttl, now);
  }
}
