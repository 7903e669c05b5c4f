/**
 * The addresses a scan visits (main.go:786-795 and main.go:848-949): expandCIDR with its in-place
 * increment, the host count shown to the user, and the order of addresses.
 */
module CidrRange {
  import opened Wrappers
  import opened Octets
  import opened IPv4
  import opened TextLists

  // ---- incIP ----

  /** One more, with carry from the last byte on. */
  function Incremented(ip: Octets): (r: Octets)
    ensures |r| == |ip|
  {
    if ip == [] then []
    else
      var front, last := ip[..|ip| - 1], ip[|ip| - 1];
      if last < 255 then front + [last + 1] else Incremented(front) + [0]
  }

  /** Incrementing adds one to the integer the bytes stand for, and wraps around at the very end. */
  lemma {:induction false} IncrementedAddsOne(ip: Octets)
    ensures BigEndian(Incremented(ip)) == if BigEndian(ip) + 1 == Pow256(|ip|) then 0 else BigEndian(ip) + 1
  {
    if ip != [] {
      var front, r := ip[..|ip| - 1], Incremented(ip);
      IncrementedAddsOne(front);
      BigEndianBound(front);
      assert r[..|r| - 1] == if ip[|ip| - 1] < 255 then front else Incremented(front);
    }
  }

  /** incIP: the slice is changed in place. */
  method IncIP(ip: array<Octet>)
    modifies ip
    ensures ip[..] == Incremented(old(ip[..]))
  {
    ghost var start := ip[..];
    var i := ip.Length;
    var carry := true;
    assert start[..i] == start && Incremented(start) + ip[i..] == Incremented(start);
    hide Incremented;
    while i > 0 && carry
      invariant 0 <= i <= ip.Length
      invariant carry ==> ip[..i] == start[..i] && Incremented(start) == Incremented(start[..i]) + ip[i..]
      invariant !carry ==> ip[..] == Incremented(start)
    {
      i := i - 1;
      assert start[..i + 1] == start[..i] + [ip[i]];
      IncrementedSnoc(start[..i], ip[i]);
      ghost var tail := ip[i + 1..];
      // the byte wraps around at 256
      ip[i] := if ip[i] == 255 then 0 else ip[i] + 1;
      assert ip[i..] == [ip[i]] + tail && ip[..] == ip[..i] + ip[i..];
      if ip[i] > 0 {
        carry := false;
      }
    }
    if carry {
      IncrementedNothing();
      assert ip[..] == ip[i..] && start[..0] == [];
    }
  }

  lemma IncrementedSnoc(front: Octets, b: Octet)
    ensures Incremented(front + [b]) == if b < 255 then front + [b + 1] else Incremented(front) + [0]
  {
    assert (front + [b])[..|front|] == front;
  }

  lemma IncrementedNothing()
    ensures Incremented([]) == []
  {
  }

  // ---- expandCIDR ----

  lemma AddrValue(a: Addr)
    ensures BigEndian(a) == Value(a)
  {
    assert a[..3][..2] == a[..2] && a[..3][..1] == a[..1] && a[..2][..1] == a[..1] && a[..1][..0] == [];
    assert BigEndian(a[..1]) == a[0] as int;
    assert BigEndian(a[..2]) == a[0] as int * 256 + a[1] as int;
    assert BigEndian(a[..3]) == (a[0] as int * 256 + a[1] as int) * 256 + a[2] as int;
  }

  /** Arithmetic in 32 bits. */
  function Wrap(n: nat): (w: nat) {
    n % 0x1_0000_0000
  }

  /** In 32 bits: the successor, and zero after 255.255.255.255. */
  lemma IncrementedAddr(a: Addr)
    ensures Value(Incremented(a)) == Wrap(Value(a) + 1)
  {
    AddrValue(a);
    AddrValue(Incremented(a));
    IncrementedAddsOne(a);
    ValueInjective(a, a);
    assert Pow256(4) == 0x1_0000_0000 by {
      assert Pow256(2) == 0x1_0000;
    }
  }

  /** What net.ParseCIDR makes of the text: an error, an IPv6 network, or an IPv4 network. */
  datatype Cidr = Unparsable | V6 | V4Mapped | V4(net: Net)

  datatype Expansion = NotCidr | OnlyIPv4 | TooLarge | Hosts(ips: seq<Addr>)

  /** n addresses from the integer `first` on. */
  function Block(first: nat, n: nat): (ips: seq<Addr>) {
    seq<Addr>(n, i requires 0 <= i < n => FromValue(first + i))
  }

  /** The addresses to scan: all of them in a network of one or two, else all but the outer two. */
  function HostsOf(net: Net): (ips: seq<Addr>)
    requires net.ones <= 32
  {
    var n := net.Size();
    if n > 2 then Block(Value(net.ip) + 1, n - 2) else Block(Value(net.ip), n)
  }

  lemma SmallNet(net: Net)
    requires net.Valid() && net.ones >= 16
    ensures net.Size() <= 0x1_0000 && Value(net.ip) + net.Size() <= 0x1_0000_0000
    ensures net.ones <= 30 <==> net.Size() > 2
  {
    BroadcastFits(net);
    hide Masked, Value;
    assert Pow2(16) == 0x1_0000 by {
      EightMore(8);
      Powers();
    }
    PowMonotone(32 - net.ones, 16);
    Powers();
    if net.ones <= 30 {
      PowMonotone(2, 32 - net.ones);
    } else {
      PowMonotone(32 - net.ones, 1);
    }
  }

  /** The broadcast address is an address, so a network never runs past 255.255.255.255. */
  lemma BroadcastFits(net: Net)
    requires net.Valid()
    ensures Value(net.ip) + net.Size() <= 0x1_0000_0000
  {
    forall i | 0 <= i < 4 ensures Broadcast(net)[i] < 256 {
      ContainsBytes(net, net.ip, i);
    }
    var last: Addr := Broadcast(net);
    ContainsIsInterval(net, last);
    ValueInjective(last, last);
  }

  lemma OuterTwoDropped(net: Net, ips: seq<Addr>)
    requires net.ones <= 32 && ips == Block(Value(net.ip), net.Size())
    ensures HostsOf(net) == if |ips| > 2 then ips[1..|ips| - 1] else ips
  {
    hide Value, Net.Size, FromValue;
  }

  /** expandCIDR. */
  method ExpandCIDR(cidr: Cidr) returns (r: Expansion)
    requires cidr.V4? ==> cidr.net.Valid()
    ensures r == match cidr {
                   case Unparsable => NotCidr
                   case V6 => OnlyIPv4
                   case V4Mapped => TooLarge
                   case V4(net) => if net.ones < 16 then TooLarge else Hosts(HostsOf(net))
                 }
  {
    if cidr.Unparsable? {
      return NotCidr;
    }
    if cidr.V6? {
      return OnlyIPv4;
    }
    if cidr.V4Mapped? || cidr.net.ones < 16 {
      return TooLarge;
    }
    hide Value, Masked, Block, Net.Size, HostsOf;
    var ips := Enumerate(cidr.net);
    OuterTwoDropped(cidr.net, ips);
    if |ips| > 2 {
      ips := ips[1..|ips| - 1];
    }
    return Hosts(ips);
  }

  /** One round of the loop: the k-th address is listed, and the next one belongs while k + 1 < size. */
  lemma EnumerateStep(net: Net, here: Addr, k: nat)
    requires net.Valid() && net.ones >= 16 && k < net.Size()
    requires Value(here) == Wrap(Value(net.ip) + k)
    ensures Block(Value(net.ip), k) + [here] == Block(Value(net.ip), k + 1)
    ensures Value(Incremented(here)) == Wrap(Value(net.ip) + (k + 1))
    ensures Contains(net, Incremented(here)) <==> k + 1 < net.Size()
  {
    hide Value, Contains, InTarget, Net.Size, Masked, FromValue, Incremented;
    var at := Value(net.ip) + k;
    SmallNet(net);
    IncrementedAddr(here);
    ContainsIsInterval(net, Incremented(here));
    FromValueInverts(at);
    ValueInjective(here, FromValue(at));
    ValueInjective(net.ip, net.ip);
    assert here == FromValue(at);
    if at + 1 == 0x1_0000_0000 {
      assert k + 1 == net.Size();
    }
  }

  lemma EnumerateStart(net: Net)
    requires net.Valid()
    ensures Contains(net, net.ip) && Value(net.ip) == Wrap(Value(net.ip) + 0) && Block(Value(net.ip), 0) == []
  {
    hide Value, Contains, InTarget, Masked, Broadcast, FromValue;
    ValueInjective(net.ip, net.ip);
    ContainsIsInterval(net, net.ip);
  }

  /** The loop of expandCIDR: increment in place as long as the network contains the address. */
  method Enumerate(net: Net) returns (ips: seq<Addr>)
    requires net.Valid() && net.ones >= 16
    ensures ips == Block(Value(net.ip), net.Size())
  {
    var current := new Octet[4](i requires 0 <= i < 4 => net.ip[i]);
    assert current[..] == net.ip;
    ips := [];
    EnumerateStart(net);
    hide Value, Contains, InTarget, Net.Size, Masked, FromValue, Incremented, Wrap;
    while Contains(net, current[..])
      invariant current.Length == 4 && fresh(current)
      invariant |ips| <= net.Size() && ips == Block(Value(net.ip), |ips|)
      invariant Value(current[..]) == Wrap(Value(net.ip) + |ips|)
      invariant Contains(net, current[..]) <==> |ips| < net.Size()
      decreases net.Size() - |ips|
    {
      EnumerateStep(net, current[..], |ips|);
      ips := ips + [current[..]];
      IncIP(current);
    }
  }

  /** cidrUsableHostCount. */
  function UsableHostCount(prefix: int): (n: nat) {
    if prefix < 0 || prefix > 32 then 0
    else if Pow2(32 - prefix) <= 2 then 0
    else Pow2(32 - prefix) - 2
  }

  ghost predicate Ascending(ips: seq<Addr>) {
    forall i, j | 0 <= i < j < |ips| :: Value(ips[i]) < Value(ips[j])
  }

  lemma BlockValues(first: nat, n: nat)
    requires first + n <= 0x1_0000_0000
    ensures Ascending(Block(first, n))
    ensures forall a: Addr :: a in Block(first, n) <==> first <= Value(a) < first + n
  {
    var ips := Block(first, n);
    forall i | 0 <= i < n ensures Value(ips[i]) == first + i {
      FromValueInverts(first + i);
    }
    forall a: Addr ensures a in ips <==> first <= Value(a) < first + n {
      if first <= Value(a) < first + n {
        ValueInjective(a, ips[Value(a) - first]);
      }
    }
  }

  /** A scan lists its addresses in ascending order, each once, and always has one. */
  lemma ExpansionAscends(net: Net)
    requires net.Valid() && net.ones >= 16
    ensures Ascending(HostsOf(net)) && HostsOf(net) != []
  {
    hide Contains, Masked, Value, Broadcast;
    SmallNet(net);
    if net.Size() > 2 {
      BlockValues(Value(net.ip) + 1, net.Size() - 2);
    } else {
      BlockValues(Value(net.ip), net.Size());
    }
  }

  /**
   * The list and the membership test used for discovered hosts agree exactly for prefixes up to /30:
   * at /31 and /32 addresses are scanned that the test rejects.
   */
  lemma ExpansionIsTheTargets(net: Net)
    requires net.Valid() && net.ones >= 16
    ensures (forall a: Addr :: a in HostsOf(net) <==> InTarget(a, net)) <==> net.ones <= 30
    ensures net.ones > 30 ==> forall a: Addr :: !InTarget(a, net)
  {
    hide Contains, Masked, Value, Broadcast;
    var first, n := Value(net.ip), net.Size();
    SmallNet(net);
    forall a: Addr
      ensures InTarget(a, net) <==> first < Value(a) < first + n - 1
    {
      ContainsIsInterval(net, a);
    }
    if n > 2 {
      BlockValues(first + 1, n - 2);
    } else {
      BlockValues(first, n);
      assert net.ip in HostsOf(net) && !InTarget(net.ip, net);
    }
    hide Block;
  }

  /** So do the list and the count shown to the user: at /31 and /32 it counts nothing. */
  lemma ExpansionIsCounted(net: Net)
    requires net.Valid() && net.ones >= 16
    ensures |HostsOf(net)| == UsableHostCount(net.ones) <==> net.ones <= 30
    ensures net.ones > 30 ==> UsableHostCount(net.ones) == 0
  {
    SmallNet(net);
    hide Contains, Masked, Value, Broadcast;
  }

  // ---- lessIP ----

  /** The byte-wise comparison of lessIP. */
  method LessAddr(a: Addr, b: Addr) returns (less: bool)
    ensures less <==> Value(a) < Value(b)
  {
    for i := 0 to 4
      invariant a[..i] == b[..i]
    {
      if a[i] != b[i] {
        assert forall k | 0 <= k < i :: a[k] == a[..i][k] == b[..i][k] == b[k];
        return a[i] < b[i];
      }
      assert a[..i + 1] == a[..i] + [a[i]] && b[..i + 1] == b[..i] + [b[i]];
    }
    assert a == a[..4] == b[..4] == b;
    return false;
  }

  /** lessIP; `parse` stands for net.ParseIP followed by To4. Other texts are compared as strings. */
  method LessIP(a: Text, b: Text, parse: Text -> Option<Addr>) returns (less: bool)
    ensures less <==> if parse(a).Some? && parse(b).Some? then Value(parse(a).value) < Value(parse(b).value)
                      else TextLeq(a, b) && a != b
  {
    var ai, bi := parse(a), parse(b);
    if ai.None? || bi.None? {
      return TextLeq(a, b) && a != b;
    }
    less := LessAddr(ai.value, bi.value);
  }
}
