/**
 * IPv4 addresses, masks and networks as main.go handles them, byte by byte and bit by bit, and the
 * intervals of 32-bit integers they amount to.
 */
module IPv4 {
  import opened Octets

  type Addr = a: Octets | |a| == 4 witness [0, 0, 0, 0]

  function Value(a: Addr): (n: nat) {
    a[0] as int * 0x100_0000 + a[1] as int * 0x1_0000 + a[2] as int * 0x100 + a[3]
  }

  function FromValue(n: nat): (a: Addr) {
    [n / 0x100_0000 % 256, n / 0x1_0000 % 256, n / 0x100 % 256, n % 256]
  }

  lemma FromValueInverts(n: nat)
    requires n < 0x1_0000_0000
    ensures Value(FromValue(n)) == n
  {
    var h := n / 0x1_0000;
    assert h / 256 == n / 0x100_0000 && h / 256 < 256;
    assert n / 0x100 == h * 256 + n / 0x100 % 256;
  }

  lemma ValueInjective(a: Addr, b: Addr)
    ensures Value(a) < 0x1_0000_0000
    ensures Value(a) == Value(b) <==> a == b
  {
    if Value(a) == Value(b) {
      assert a[0] == b[0] && a[1] == b[1] && a[2] == b[2] && a[3] == b[3];
    }
  }

  // ---- bit operations on bytes ----

  function Pow2(n: nat): (p: nat)
    ensures p >= 1
  {
    if n == 0 then 1 else 2 * Pow2(n - 1)
  }

  /** Bitwise and. */
  function And(x: nat, y: nat): (z: nat) {
    if x == 0 || y == 0 then 0
    else 2 * And(x / 2, y / 2) + if x % 2 == 1 && y % 2 == 1 then 1 else 0
  }

  /** Bitwise or. */
  function Or(x: nat, y: nat): (z: nat) {
    if x == 0 then y else if y == 0 then x
    else 2 * Or(x / 2, y / 2) + if x % 2 == 1 || y % 2 == 1 then 1 else 0
  }

  /** k one bits above z zero bits. */
  function Ones(k: nat, z: nat): (m: nat)
    ensures m == Pow2(k + z) - Pow2(z)
    decreases k + z
  {
    if z > 0 then 2 * Ones(k, z - 1) else if k > 0 then 2 * Ones(k - 1, 0) + 1 else 0
  }

  /** x with its z lowest bits set to zero. */
  function Clear(x: nat, z: nat): (y: nat) {
    if z == 0 then x else 2 * Clear(x / 2, z - 1)
  }

  /** Masking with one more bit, which is 0 or 1. */
  lemma AndStep(x: nat, m: nat)
    ensures And(x, 2 * m) == 2 * And(x / 2, m)
    ensures And(x, 2 * m + 1) == 2 * And(x / 2, m) + x % 2
  {
    assert (2 * m + 1) / 2 == m && (2 * m) / 2 == m;
  }

  lemma OrStep(x: nat, y: nat)
    ensures Or(x, y) == 2 * Or(x / 2, y / 2) + if x % 2 == 1 || y % 2 == 1 then 1 else 0
    decreases x + y
  {
    if x == 0 && y > 0 {
      OrStep(0, y / 2);
    } else if y == 0 && x > 0 {
      OrStep(x / 2, 0);
    }
  }

  /** Masking clears the bits below the mask. */
  lemma {:induction false} AndClears(x: nat, k: nat, z: nat)
    requires x < Pow2(k + z)
    ensures And(x, Ones(k, z)) == Clear(x, z)
    decreases k + z
  {
    if z > 0 {
      AndClears(x / 2, k, z - 1);
      AndStep(x, Ones(k, z - 1));
    } else if k > 0 {
      AndClears(x / 2, k - 1, 0);
      AndStep(x, Ones(k - 1, 0));
    }
    hide And;
  }

  /** Or-ing with the complement of the mask sets those bits. */
  lemma {:induction false} OrFills(x: nat, z: nat)
    ensures Or(x, Pow2(z) - 1) == Clear(x, z) + Pow2(z) - 1
    decreases z
  {
    OrStep(x, Pow2(z) - 1);
    if z > 0 {
      OrFills(x / 2, z - 1);
    }
  }

  /** The numbers that agree with an aligned n above the lowest z bits. */
  lemma {:induction false} ClearInterval(n: nat, x: nat, z: nat)
    requires Clear(n, z) == n
    ensures Clear(x, z) == n <==> n <= x < n + Pow2(z)
    decreases z
  {
    if z > 0 {
      ClearInterval(n / 2, x / 2, z - 1);
    }
  }

  lemma {:induction false} ClearTwice(x: nat, z: nat)
    ensures Clear(Clear(x, z), z) == Clear(x, z) <= x
    decreases z
  {
    if z > 0 {
      ClearTwice(x / 2, z - 1);
    }
  }

  // ---- networks ----

  /** How many of the mask's `ones` bits lie in byte i. */
  function OnesIn(ones: nat, i: nat): (k: nat)
    ensures k <= 8
  {
    if ones <= 8 * i then 0 else if ones >= 8 * i + 8 then 8 else ones - 8 * i
  }

  /** net.CIDRMask(ones, 32). */
  function Mask(ones: nat): (m: Addr)
    requires ones <= 32
  {
    Powers();
    seq(4, i requires 0 <= i < 4 => Ones(OnesIn(ones, i), 8 - OnesIn(ones, i)))
  }

  lemma Powers()
    ensures Pow2(0) == 1 && Pow2(1) == 2 && Pow2(2) == 4 && Pow2(3) == 8 && Pow2(4) == 16
    ensures Pow2(5) == 32 && Pow2(6) == 64 && Pow2(7) == 128 && Pow2(8) == 256
  {
    assert Pow2(1) == 2 * Pow2(0) && Pow2(2) == 2 * Pow2(1) && Pow2(3) == 2 * Pow2(2) && Pow2(4) == 2 * Pow2(3);
    assert Pow2(5) == 2 * Pow2(4) && Pow2(6) == 2 * Pow2(5) && Pow2(7) == 2 * Pow2(6) && Pow2(8) == 2 * Pow2(7);
  }

  lemma EightMore(n: nat)
    ensures Pow2(n + 8) == 256 * Pow2(n)
  {
    assert Pow2(n + 2) == 2 * Pow2(n + 1) == 4 * Pow2(n);
    assert Pow2(n + 4) == 2 * Pow2(n + 3) == 4 * Pow2(n + 2);
    assert Pow2(n + 6) == 2 * Pow2(n + 5) == 4 * Pow2(n + 4);
    assert Pow2(n + 8) == 2 * Pow2(n + 7) == 4 * Pow2(n + 6);
  }

  lemma AndByte(x: Octet, k: nat)
    requires k <= 8
    ensures And(x, Ones(k, 8 - k)) == Clear(x, 8 - k) < 256
  {
    Powers();
    AndClears(x, k, 8 - k);
    ClearTwice(x, 8 - k);
  }

  function MaskedByte(x: Octet, k: nat): (y: Octet)
    requires k <= 8
  {
    AndByte(x, k);
    And(x, Ones(k, 8 - k))
  }

  /** net.IP.Mask: each byte and-ed with the mask's. */
  function Masked(a: Addr, ones: nat): (r: Addr)
    requires ones <= 32
  {
    seq(4, i requires 0 <= i < 4 => MaskedByte(a[i], OnesIn(ones, i)))
  }

  /** A network as net.ParseCIDR returns it: the address is already masked. */
  datatype Net = Net(ip: Addr, ones: nat) {
    ghost predicate Valid() {
      ones <= 32 && ip == Masked(ip, ones)
    }

    function Size(): (n: nat)
      requires ones <= 32
      ensures n >= 1
    {
      Pow2(32 - ones)
    }
  }

  /** net.IPNet.Contains. */
  predicate Contains(net: Net, a: Addr)
    requires net.ones <= 32
  {
    var m := Mask(net.ones);
    forall i | 0 <= i < 4 :: And(net.ip[i], m[i]) == And(a[i], m[i])
  }

  /** The bytes `ipNet.IP[i] | ^ipNet.Mask[i]`. */
  function Broadcast(net: Net): (b: seq<nat>)
    requires net.ones <= 32
  {
    var m := Mask(net.ones);
    seq(4, i requires 0 <= i < 4 => Or(net.ip[i], 255 - m[i]))
  }

  /** ipInTarget, on an address that parses as IPv4. */
  predicate InTarget(a: Addr, net: Net)
    requires net.ones <= 32
  {
    Contains(net, a) && a != net.ip && a != Broadcast(net)
  }

  /** The width of byte i's free range: 1 for a fixed byte, 256 for a free one. */
  function Free(ones: nat, i: nat): (p: nat)
    ensures 1 <= p <= 256
  {
    Powers();
    PowMonotone(8 - OnesIn(ones, i), 8);
    Pow2(8 - OnesIn(ones, i))
  }

  lemma {:induction false} PowMonotone(a: nat, b: nat)
    requires a <= b
    ensures Pow2(a) <= Pow2(b)
    decreases b
  {
    if a < b {
      PowMonotone(a, b - 1);
    }
  }

  /** Byte for byte: a network contains the addresses whose bytes lie in its bytes' ranges. */
  lemma ContainsBytes(net: Net, a: Addr, i: nat)
    requires net.Valid() && i < 4
    ensures Mask(net.ones)[i] <= 255
    ensures var m := Mask(net.ones);
            && (And(net.ip[i], m[i]) == And(a[i], m[i]) <==> net.ip[i] <= a[i] < net.ip[i] + Free(net.ones, i))
            && Broadcast(net)[i] == net.ip[i] + Free(net.ones, i) - 1 < 256
            && (Free(net.ones, i) == 256 ==> net.ip[i] == 0)
  {
    var z := 8 - OnesIn(net.ones, i);
    hide Ones, Clear, And, Or, Pow2;
    assert Mask(net.ones)[i] == Ones(8 - z, z);
    assert Broadcast(net)[i] == Or(net.ip[i], 255 - Mask(net.ones)[i]);
    assert net.ip[i] == MaskedByte(net.ip[i], 8 - z);
    hide Mask, Broadcast, Masked;
    ByteRange(net.ip[i], a[i], z);
  }

  lemma ByteRange(n: Octet, x: Octet, z: nat)
    requires z <= 8
    ensures And(n, Ones(8 - z, z)) == n ==>
              && (n == And(x, Ones(8 - z, z)) <==> n <= x < n + Pow2(z))
              && Or(n, 255 - Ones(8 - z, z)) == n + Pow2(z) - 1 < 256
              && (Pow2(z) == 256 ==> n == 0)
  {
    Powers();
    AndByte(n, 8 - z);
    AndByte(x, 8 - z);
    assert Ones(8 - z, z) == 256 - Pow2(z);
    hide And, Ones;
    if Clear(n, z) == n {
      ClearInterval(n, x, z);
      OrFills(n, z);
      ClearBelow(n, z, 8 - z);
    }
    hide Or, Clear;
  }

  lemma {:induction false} ClearBelow(n: nat, z: nat, k: nat)
    requires Clear(n, z) == n < Pow2(z + k)
    ensures n + Pow2(z) <= Pow2(z + k)
    decreases z
  {
    if z > 0 {
      ClearBelow(n / 2, z - 1, k);
    }
  }

  /** The free bits are the low ones: whole free bytes stand below one partly free byte. */
  lemma FreeBytes(ones: nat)
    requires ones <= 32
    ensures ones >= 24 ==> Free(ones, 0) == Free(ones, 1) == Free(ones, 2) == 1 && Free(ones, 3) == Pow2(32 - ones)
    ensures 16 <= ones < 24 ==>
              && Free(ones, 0) == Free(ones, 1) == 1 && Free(ones, 3) == 256
              && Free(ones, 2) * 256 == Pow2(32 - ones)
    ensures 8 <= ones < 16 ==>
              && Free(ones, 0) == 1 && Free(ones, 2) == Free(ones, 3) == 256
              && Free(ones, 1) * 0x1_0000 == Pow2(32 - ones)
    ensures ones < 8 ==>
              && Free(ones, 1) == Free(ones, 2) == Free(ones, 3) == 256
              && Free(ones, 0) * 0x100_0000 == Pow2(32 - ones)
  {
    hide Free, Pow2;
    if ones >= 24 {
      FreeInLast(ones);
    } else if ones >= 16 {
      FreeInThird(ones);
    } else if ones >= 8 {
      FreeInSecond(ones);
    } else {
      FreeInFirst(ones);
    }
  }

  lemma FreeInLast(ones: nat)
    requires 24 <= ones <= 32
    ensures Free(ones, 0) == Free(ones, 1) == Free(ones, 2) == 1 && Free(ones, 3) == Pow2(32 - ones)
  {
  }

  lemma FreeInThird(ones: nat)
    requires 16 <= ones < 24
    ensures Free(ones, 0) == Free(ones, 1) == 1 && Free(ones, 3) == 256
    ensures Free(ones, 2) * 256 == Pow2(32 - ones)
  {
    hide Pow2;
    Powers();
    EightMore(24 - ones);
  }

  lemma FreeInSecond(ones: nat)
    requires 8 <= ones < 16
    ensures Free(ones, 0) == 1 && Free(ones, 2) == Free(ones, 3) == 256
    ensures Free(ones, 1) * 0x1_0000 == Pow2(32 - ones)
  {
    hide Pow2;
    Powers();
    EightMore(16 - ones);
    EightMore(24 - ones);
  }

  lemma FreeInFirst(ones: nat)
    requires ones < 8
    ensures Free(ones, 1) == Free(ones, 2) == Free(ones, 3) == 256
    ensures Free(ones, 0) * 0x100_0000 == Pow2(32 - ones)
  {
    hide Pow2;
    Powers();
    EightMore(8 - ones);
    EightMore(16 - ones);
    EightMore(24 - ones);
    assert OnesIn(ones, 1) == OnesIn(ones, 2) == OnesIn(ones, 3) == 0 && OnesIn(ones, 0) == ones;
    assert Pow2(32 - ones) == Pow2(24 - ones + 8);
  }

  /** Bytes in their ranges add up to one interval of integers. */
  lemma BytesToInterval(n: Addr, a: Addr, ones: nat)
    requires ones <= 32
    requires forall i | 0 <= i < 4 :: n[i] + Free(ones, i) <= 256 && (Free(ones, i) == 256 ==> n[i] == 0)
    ensures (forall i | 0 <= i < 4 :: n[i] <= a[i] < n[i] + Free(ones, i))
       <==> Value(n) <= Value(a) < Value(n) + Pow2(32 - ones)
  {
    FreeBytes(ones);
    var f0, f1, f2, f3 := Free(ones, 0), Free(ones, 1), Free(ones, 2), Free(ones, 3);
    hide Free, Pow2;
    assert (forall i | 0 <= i < 4 :: n[i] <= a[i] < n[i] + Free(ones, i))
      <==> n[0] <= a[0] < n[0] + f0 && n[1] <= a[1] < n[1] + f1 && n[2] <= a[2] < n[2] + f2 && n[3] <= a[3] < n[3] + f3;
    assert n[0] + f0 <= 256 && n[1] + f1 <= 256 && n[2] + f2 <= 256 && n[3] + f3 <= 256;
  }

  /**
   * Bit masks are intervals: a network contains the addresses from its own on, as many as its free
   * bits can count, and its broadcast address is the last of them.
   */
  lemma ContainsIsInterval(net: Net, a: Addr)
    requires net.Valid()
    ensures Contains(net, a) <==> Value(net.ip) <= Value(a) < Value(net.ip) + net.Size()
    ensures a == Broadcast(net) <==> Value(a) == Value(net.ip) + net.Size() - 1
    ensures InTarget(a, net) <==> Value(net.ip) < Value(a) < Value(net.ip) + net.Size() - 1
  {
    hide And, Or, Free, Pow2, Value, Ones, OnesIn;
    var n, ones := net.ip, net.ones;
    forall i | 0 <= i < 4
      ensures n[i] + Free(ones, i) <= 256 && (Free(ones, i) == 256 ==> n[i] == 0)
      ensures And(n[i], Mask(ones)[i]) == And(a[i], Mask(ones)[i]) <==> n[i] <= a[i] < n[i] + Free(ones, i)
      ensures Broadcast(net)[i] == n[i] + Free(ones, i) - 1
    {
      ContainsBytes(net, a, i);
    }
    var last: Addr := seq(4, i requires 0 <= i < 4 => n[i] + Free(ones, i) - 1);
    assert Broadcast(net) == last;
    hide Mask, Broadcast;
    BytesToInterval(n, a, ones);
    LastAddress(n, last, ones);
    ValueInjective(a, n);
    ValueInjective(a, last);
  }

  lemma LastAddress(n: Addr, last: Addr, ones: nat)
    requires ones <= 32
    requires forall i | 0 <= i < 4 :: last[i] == n[i] + Free(ones, i) - 1 && (Free(ones, i) == 256 ==> n[i] == 0)
    ensures Value(last) == Value(n) + Pow2(32 - ones) - 1
  {
    FreeBytes(ones);
    assert last[0] == n[0] + Free(ones, 0) - 1 && last[1] == n[1] + Free(ones, 1) - 1;
    assert last[2] == n[2] + Free(ones, 2) - 1 && last[3] == n[3] + Free(ones, 3) - 1;
    hide Free, Pow2;
  }
}
