/**
 The address "cipher" of the packet-routing handlers: an IPv4 destination is
 the source plus a key, octet by octet with wrap-around, and the key is the
 destination minus the source; for IPv6 both directions are octet-wise XOR.
 Addresses are their integer bits, read and written as big-endian octets,
 as `Ipv4Addr::from_bits(u32::from_be_bytes(..))` and `octets()` do.
 */
module AddressCipher {
  import opened Outcomes

  /** A `u8`. */
  type Octet = x: int | 0 <= x < 256

  type U32 = x: nat | x < 0x1_0000_0000
  type U128 = x: nat | x < 0x1_0000_0000_0000_0000_0000_0000_0000_0000

  /** The `panic!` taken when the collected octets do not fit the array. */
  datatype Panic = Panic

  /** `u8::wrapping_add`: the true sum, less 256 when it overflows. */
  function WrappingAdd(p: Octet, q: Octet): (r: Octet)
    ensures r == p + q || r == p + q - 256
  {
    (p + q) % 256
  }

  /** `u8::wrapping_sub`: the true difference, plus 256 when it underflows. */
  function WrappingSub(p: Octet, q: Octet): (r: Octet)
    ensures r == p - q || r == p - q + 256
  {
    (p - q) % 256
  }

  function Pow2(k: nat): (p: nat)
    ensures p >= 1
  {
    if k == 0 then 1 else 2 * Pow2(k - 1)
  }

  /** Bitwise exclusive or of two naturals, least significant bit first. */
  function Xor(a: nat, b: nat): nat
    decreases a + b
  {
    if a == 0 && b == 0 then 0
    else 2 * Xor(a / 2, b / 2) + (if a % 2 == b % 2 then 0 else 1)
  }

  /** The low bit of a XOR b says whether a and b differ there; the rest is the XOR of the halves. */
  lemma XorHalves(a: nat, b: nat)
    ensures Xor(a, b) / 2 == Xor(a / 2, b / 2)
    ensures Xor(a, b) % 2 == if a % 2 == b % 2 then 0 else 1
  {
  }

  lemma {:induction false} XorZero(a: nat)
    ensures Xor(0, a) == a
    decreases a
  {
    if a != 0 {
      XorZero(a / 2);
    }
  }

  lemma {:induction false} XorCommutes(a: nat, b: nat)
    ensures Xor(a, b) == Xor(b, a)
    decreases a + b
  {
    if a != 0 || b != 0 {
      XorCommutes(a / 2, b / 2);
    }
  }

  /** Exclusive or with the same value twice gives back the original. */
  lemma {:induction false} XorCancels(a: nat, b: nat)
    ensures Xor(a, Xor(a, b)) == b
    decreases a + b
  {
    var x := Xor(a, b);
    if a == 0 && b == 0 {
    } else if a == 0 && x == 0 {
      XorZero(b);
    } else {
      XorHalves(a, b);
      XorCancels(a / 2, b / 2);
      assert Xor(a, x) == 2 * Xor(a / 2, x / 2) + (if a % 2 == x % 2 then 0 else 1);
      assert Xor(a / 2, x / 2) == b / 2;
      assert (if a % 2 == x % 2 then 0 else 1) == b % 2;
    }
  }

  lemma {:induction false} XorBounded(a: nat, b: nat, k: nat)
    requires a < Pow2(k) && b < Pow2(k)
    ensures Xor(a, b) < Pow2(k)
    decreases k
  {
    if k > 0 && (a != 0 || b != 0) {
      XorBounded(a / 2, b / 2, k - 1);
    }
  }

  /** `u8 ^ u8`. */
  function OctetXor(p: Octet, q: Octet): (r: Octet)
    ensures Xor(p, r) == q
  {
    assert Pow2(8) == 256;
    XorBounded(p, q, 8);
    XorBounded(p, Xor(p, q), 8);
    XorCancels(p, q);
    Xor(p, q)
  }

  function Pow256(k: nat): (p: nat)
    ensures p >= 1
  {
    if k == 0 then 1 else 256 * Pow256(k - 1)
  }

  lemma Pow256Of16()
    ensures Pow256(16) == 0x1_0000_0000_0000_0000_0000_0000_0000_0000
  {
    assert Pow256(4) == 0x1_0000_0000;
    assert Pow256(8) == 0x1_0000_0000_0000_0000;
    assert Pow256(12) == 0x1_0000_0000_0000_0000_0000_0000;
  }

  /** `from_be_bytes`: the first octet is the most significant. */
  function FromBeBytes(bs: seq<Octet>): (x: nat)
    ensures x < Pow256(|bs|)
  {
    if |bs| == 0 then 0 else FromBeBytes(bs[..|bs| - 1]) * 256 + bs[|bs| - 1]
  }

  /** `to_be_bytes`: the `width` octets of `x`, most significant first. */
  function ToBeBytes(x: nat, width: nat): (bs: seq<Octet>)
    requires x < Pow256(width)
    ensures |bs| == width
    ensures FromBeBytes(bs) == x
  {
    if width == 0 then [] else ToBeBytes(x / 256, width - 1) + [x % 256]
  }

  lemma {:induction false} BeBytesRoundTrip(bs: seq<Octet>)
    ensures ToBeBytes(FromBeBytes(bs), |bs|) == bs
    decreases |bs|
  {
    if |bs| > 0 {
      var front, last := bs[..|bs| - 1], bs[|bs| - 1];
      var x := FromBeBytes(bs);
      DivMod256(FromBeBytes(front), last);
      assert x / 256 == FromBeBytes(front) && x % 256 == last;
      BeBytesRoundTrip(front);
      assert ToBeBytes(x, |bs|) == ToBeBytes(FromBeBytes(front), |front|) + [last];
      assert front + [last] == bs;
    }
  }

  lemma DivMod256(q: nat, r: Octet)
    ensures (q * 256 + r) / 256 == q && (q * 256 + r) % 256 == r
  {
  }

  /** `iter::zip(a, b).map(f).collect()`: stops at the shorter input. */
  function ZipWith(a: seq<Octet>, b: seq<Octet>, f: (Octet, Octet) -> Octet): (r: seq<Octet>)
    ensures |r| == if |a| <= |b| then |a| else |b|
    ensures forall i :: 0 <= i < |r| ==> r[i] == f(a[i], b[i])
  {
    var len := if |a| <= |b| then |a| else |b|;
    seq(len, i requires 0 <= i < len => f(a[i], b[i]))
  }

  /** `Vec<u8>::try_into::<[u8; len]>()`, with the `panic!` of the failure arm. */
  function TryIntoArray(v: seq<Octet>, len: nat): (r: Result<seq<Octet>, Panic>)
    ensures r.Ok? <==> |v| == len
    ensures r.Ok? ==> r.value == v
  {
    if |v| == len then Ok(v) else Err(Panic)
  }

  datatype Ipv4Addr = Ipv4FromBits(bits: U32)

  datatype Ipv6Addr = Ipv6FromBits(bits: U128)

  /** `Ipv4Addr::octets`. */
  function Octets4(a: Ipv4Addr): (o: seq<Octet>)
    ensures |o| == 4
    ensures FromBeBytes(o) == a.bits
  {
    assert Pow256(4) == 0x1_0000_0000;
    ToBeBytes(a.bits, 4)
  }

  /** `Ipv6Addr::octets`. */
  function Octets16(a: Ipv6Addr): (o: seq<Octet>)
    ensures |o| == 16
    ensures FromBeBytes(o) == a.bits
  {
    Pow256Of16();
    ToBeBytes(a.bits, 16)
  }

  /** `Ipv4Addr::from_bits(u32::from_be_bytes(bytes))`: the address whose octets are `bytes`. */
  function FromOctets4(bytes: seq<Octet>): (a: Ipv4Addr)
    requires |bytes| == 4
    ensures Octets4(a) == bytes
  {
    assert Pow256(4) == 0x1_0000_0000;
    BeBytesRoundTrip(bytes);
    Ipv4FromBits(FromBeBytes(bytes))
  }

  /** `Ipv6Addr::from_bits(u128::from_be_bytes(bytes))`: the address whose octets are `bytes`. */
  function FromOctets16(bytes: seq<Octet>): (a: Ipv6Addr)
    requires |bytes| == 16
    ensures Octets16(a) == bytes
  {
    Pow256Of16();
    BeBytesRoundTrip(bytes);
    Ipv6FromBits(FromBeBytes(bytes))
  }

  /** An address is determined by its octets. */
  lemma Octets4Injective(a: Ipv4Addr, b: Ipv4Addr)
    requires Octets4(a) == Octets4(b)
    ensures a == b
  {
  }

  lemma Octets16Injective(a: Ipv6Addr, b: Ipv6Addr)
    requires Octets16(a) == Octets16(b)
    ensures a == b
  {
  }

  /** The `dest` handler: octet i of the result is from[i] + key[i] mod 256. */
  function Dest(from: Ipv4Addr, key: Ipv4Addr): (r: Result<Ipv4Addr, Panic>)
    ensures r.Ok?
    ensures forall i :: 0 <= i < 4 ==>
      Octets4(r.value)[i] == (Octets4(from)[i] as int + Octets4(key)[i]) % 256
  {
    var to := ZipWith(Octets4(from), Octets4(key), WrappingAdd);
    match TryIntoArray(to, 4)
    case Ok(bytes) => Ok(FromOctets4(bytes))
    case Err(e) => Err(e)
  }

  /** The `key` handler: octet i of the result is to[i] - from[i] mod 256. */
  function Key(from: Ipv4Addr, to: Ipv4Addr): (r: Result<Ipv4Addr, Panic>)
    ensures r.Ok?
    ensures forall i :: 0 <= i < 4 ==>
      Octets4(r.value)[i] == (Octets4(to)[i] as int - Octets4(from)[i]) % 256
  {
    var key := ZipWith(Octets4(to), Octets4(from), WrappingSub);
    match TryIntoArray(key, 4)
    case Ok(bytes) => Ok(FromOctets4(bytes))
    case Err(e) => Err(e)
  }

  /** The `dest6` handler: octet i of the result is from[i] XOR key[i]. */
  function Dest6(from: Ipv6Addr, key: Ipv6Addr): (r: Result<Ipv6Addr, Panic>)
    ensures r.Ok?
    ensures forall i :: 0 <= i < 16 ==>
      Octets16(r.value)[i] == Xor(Octets16(from)[i], Octets16(key)[i])
  {
    var to := ZipWith(Octets16(from), Octets16(key), OctetXor);
    match TryIntoArray(to, 16)
    case Ok(bytes) => Ok(FromOctets16(bytes))
    case Err(e) => Err(e)
  }

  /** The `key6` handler: octet i of the result is to[i] XOR from[i]. */
  function Key6(from: Ipv6Addr, to: Ipv6Addr): (r: Result<Ipv6Addr, Panic>)
    ensures r.Ok?
    ensures forall i :: 0 <= i < 16 ==>
      Octets16(r.value)[i] == Xor(Octets16(to)[i], Octets16(from)[i])
  {
    var key := ZipWith(Octets16(to), Octets16(from), OctetXor);
    match TryIntoArray(key, 16)
    case Ok(bytes) => Ok(FromOctets16(bytes))
    case Err(e) => Err(e)
  }

  lemma AddThenSub(f: Octet, k: Octet)
    ensures WrappingSub(WrappingAdd(f, k), f) == k
  {
    if f + k >= 256 {
      assert WrappingAdd(f, k) == f + k - 256;
    }
  }

  lemma SubThenAdd(f: Octet, t: Octet)
    ensures WrappingAdd(f, WrappingSub(t, f)) == t
  {
    if t < f {
      assert WrappingSub(t, f) == t - f + 256;
    }
  }

  /** The key recovered from a source and the destination it produced is the key used. */
  lemma KeyUndoesDest(from: Ipv4Addr, key: Ipv4Addr)
    ensures Key(from, Dest(from, key).value).value == key
  {
    var k := Key(from, Dest(from, key).value).value;
    forall i | 0 <= i < 4
      ensures Octets4(k)[i] == Octets4(key)[i]
    {
      AddThenSub(Octets4(from)[i], Octets4(key)[i]);
    }
    Octets4Injective(k, key);
  }

  /** Adding the recovered key to the source reaches the destination. */
  lemma DestUndoesKey(from: Ipv4Addr, to: Ipv4Addr)
    ensures Dest(from, Key(from, to).value).value == to
  {
    var t := Dest(from, Key(from, to).value).value;
    forall i | 0 <= i < 4
      ensures Octets4(t)[i] == Octets4(to)[i]
    {
      SubThenAdd(Octets4(from)[i], Octets4(to)[i]);
    }
    Octets4Injective(t, to);
  }

  lemma Key6UndoesDest6(from: Ipv6Addr, key: Ipv6Addr)
    ensures Key6(from, Dest6(from, key).value).value == key
  {
    var k := Key6(from, Dest6(from, key).value).value;
    forall i | 0 <= i < 16
      ensures Octets16(k)[i] == Octets16(key)[i]
    {
      var f, q := Octets16(from)[i], Octets16(key)[i];
      XorCommutes(Xor(f, q), f);
      XorCancels(f, q);
    }
    Octets16Injective(k, key);
  }

  lemma Dest6UndoesKey6(from: Ipv6Addr, to: Ipv6Addr)
    ensures Dest6(from, Key6(from, to).value).value == to
  {
    var t := Dest6(from, Key6(from, to).value).value;
    forall i | 0 <= i < 16
      ensures Octets16(t)[i] == Octets16(to)[i]
    {
      var f, d := Octets16(from)[i], Octets16(to)[i];
      XorCommutes(d, f);
      XorCancels(f, d);
    }
    Octets16Injective(t, to);
  }

  /** Source and key play symmetric roles in `dest6`. */
  lemma Dest6Commutes(a: Ipv6Addr, b: Ipv6Addr)
    ensures Dest6(a, b).value == Dest6(b, a).value
  {
    var x, y := Dest6(a, b).value, Dest6(b, a).value;
    forall i | 0 <= i < 16
      ensures Octets16(x)[i] == Octets16(y)[i]
    {
      XorCommutes(Octets16(a)[i], Octets16(b)[i]);
    }
    Octets16Injective(x, y);
  }
}
