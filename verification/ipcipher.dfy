/** The address "encryption" of src/day2.rs, at the octet level.

    An IPv4 destination is the source address plus a key, octet by octet,
    wrapping modulo 256; the key is recovered by subtracting octet by octet.
    IPv6 uses exclusive-or on all sixteen octets for both directions. */
module IpCipher {

  /** A `u8`. */
  type Octet = x: int | 0 <= x < 256

  /** The four octets of an IPv4 address; the length is the `[u8; 4]` that
      `try_into` must produce, so the `unwrap` after it cannot fail. */
  type Ipv4 = s: seq<Octet> | |s| == 4 witness [0, 0, 0, 0]

  /** The sixteen octets of an IPv6 address. */
  type Ipv6 = s: seq<Octet> | |s| == 16 witness [0, 0, 0, 0, 0, 0, 0, 0, 0, 0, 0, 0, 0, 0, 0, 0]

  /** `u8::wrapping_add`: the sum, less 256 when it overflows. */
  function WrappingAdd(a: Octet, b: Octet): (r: Octet)
    ensures r == (a as int + b as int) % 256
  {
    if a + b < 256 then a + b else a + b - 256
  }

  /** `u8::wrapping_sub`: the difference, plus 256 when it underflows. */
  function WrappingSub(a: Octet, b: Octet): (r: Octet)
    ensures r == (a as int - b as int) % 256
  {
    if a >= b then a - b else a - b + 256
  }

  /** `/2/dest`: the source address plus the key, octet by octet. */
  function Dest(from: Ipv4, key: Ipv4): (dest: Ipv4)
    ensures forall i :: 0 <= i < 4 ==> dest[i] == (from[i] as int + key[i] as int) % 256
  {
    seq(4, i requires 0 <= i < 4 => WrappingAdd(from[i], key[i]))
  }

  /** `/2/key`: the destination minus the source, octet by octet. */
  function Key(from: Ipv4, to: Ipv4): (key: Ipv4)
    ensures forall i :: 0 <= i < 4 ==> key[i] == (to[i] as int - from[i] as int) % 256
  {
    seq(4, i requires 0 <= i < 4 => WrappingSub(to[i], from[i]))
  }

  /** The key computed from two addresses encrypts the first into the second. */
  lemma DestOfKey(from: Ipv4, to: Ipv4)
    ensures Dest(from, Key(from, to)) == to
  {
    var d := Dest(from, Key(from, to));
    forall i | 0 <= i < 4 ensures d[i] == to[i] {
      assert d[i] == WrappingAdd(from[i], WrappingSub(to[i], from[i]));
    }
  }

  /** Recovering the key from a destination gives the key back. */
  lemma KeyOfDest(from: Ipv4, key: Ipv4)
    ensures Key(from, Dest(from, key)) == key
  {
    var k := Key(from, Dest(from, key));
    forall i | 0 <= i < 4 ensures k[i] == key[i] {
      assert k[i] == WrappingSub(WrappingAdd(from[i], key[i]), from[i]);
    }
  }

  function Pow2(n: nat): (p: nat)
    ensures p > 0
  {
    if n == 0 then 1 else 2 * Pow2(n - 1)
  }

  /** Exclusive-or of the low `n` bits of `a` and `b`, bit by bit from the lowest. */
  function BitXor(a: nat, b: nat, n: nat): (r: nat)
    ensures r < Pow2(n)
  {
    if n == 0 then 0
    else (if a % 2 == b % 2 then 0 else 1) + 2 * BitXor(a / 2, b / 2, n - 1)
  }

  /** `^` on `u8`. */
  function OctetXor(a: Octet, b: Octet): Octet {
    assert Pow2(8) == 256;
    BitXor(a, b, 8)
  }

  lemma {:induction false} BitXorInverse(a: nat, b: nat, n: nat)
    requires a < Pow2(n)
    ensures BitXor(BitXor(a, b, n), b, n) == a
  {
    if n > 0 {
      var x := BitXor(a, b, n);
      assert x % 2 == (if a % 2 == b % 2 then 0 else 1) && x / 2 == BitXor(a / 2, b / 2, n - 1);
      BitXorInverse(a / 2, b / 2, n - 1);
    }
  }

  lemma {:induction false} BitXorCommutes(a: nat, b: nat, n: nat)
    ensures BitXor(a, b, n) == BitXor(b, a, n)
  {
    if n > 0 {
      BitXorCommutes(a / 2, b / 2, n - 1);
    }
  }

  lemma {:induction false} BitXorSelf(a: nat, n: nat)
    ensures BitXor(a, a, n) == 0
  {
    if n > 0 {
      BitXorSelf(a / 2, n - 1);
    }
  }

  /** `xor_ipv6`: the octet-wise exclusive-or of two addresses. */
  function Xor(lhs: Ipv6, rhs: Ipv6): (res: Ipv6)
    ensures forall i :: 0 <= i < 16 ==> res[i] == OctetXor(lhs[i], rhs[i])
  {
    seq(16, i requires 0 <= i < 16 => OctetXor(lhs[i], rhs[i]))
  }

  /** Exclusive-or with the same address twice restores the original. */
  lemma XorSelfInverse(a: Ipv6, b: Ipv6)
    ensures Xor(Xor(a, b), b) == a
  {
    assert Pow2(8) == 256;
    forall i | 0 <= i < 16 ensures Xor(Xor(a, b), b)[i] == a[i] {
      BitXorInverse(a[i], b[i], 8);
    }
  }

  lemma XorCommutes(a: Ipv6, b: Ipv6)
    ensures Xor(a, b) == Xor(b, a)
  {
    forall i | 0 <= i < 16 ensures Xor(a, b)[i] == Xor(b, a)[i] {
      BitXorCommutes(a[i], b[i], 8);
    }
  }

  lemma XorSelfIsZero(a: Ipv6)
    ensures forall i :: 0 <= i < 16 ==> Xor(a, a)[i] == 0
  {
    forall i | 0 <= i < 16 ensures Xor(a, a)[i] == 0 {
      BitXorSelf(a[i], 8);
    }
  }

  /** `/2/v6/dest`: the destination reached from `from` with `key`. The key
      is recovered from the destination by the same exclusive-or. */
  function Dest6(from: Ipv6, key: Ipv6): (dest: Ipv6)
    ensures Xor(from, dest) == key
  {
    var dest := Xor(from, key);
    XorCommutes(from, key);
    XorCommutes(from, Xor(key, from));
    XorSelfInverse(key, from);
    dest
  }

  /** `/2/v6/key`: the key that leads from `from` to `to`: the destination
      endpoint, given `from` and this key, answers `to`. */
  function Key6(from: Ipv6, to: Ipv6): (key: Ipv6)
    ensures Dest6(from, key) == to
  {
    var key := Xor(from, to);
    XorCommutes(from, to);
    XorCommutes(from, Xor(to, from));
    XorSelfInverse(to, from);
    key
  }

  /** The two v6 endpoints undo each other: the key found for a destination
      leads there, and the destination reached with a key gives that key back. */
  lemma Ipv6RoundTrips(from: Ipv6, to: Ipv6, key: Ipv6)
    ensures Dest6(from, Key6(from, to)) == to
    ensures Key6(from, Dest6(from, key)) == key
  {
    XorCommutes(from, to);
    XorCommutes(from, Xor(to, from));
    XorSelfInverse(to, from);
    XorCommutes(from, key);
    XorCommutes(from, Xor(key, from));
    XorSelfInverse(key, from);
  }
}
