/** IP addresses and CIDR blocks as Python's `ipaddress` module computes with them:
    an address is a family and an integer, a network a masked base and a prefix
    length (section 3.1 of RFC 4632). */
module Networks {
  import opened Wrappers

  datatype Family = V4 | V6

  datatype Ip = Ip(family: Family, value: nat)

  /** A CIDR string as the client sent it; host bits may be set. */
  datatype CidrText = Unparsable | Parsable(ip: Ip, prefix: nat)

  datatype Network = Network(family: Family, base: nat, prefix: nat)

  function Width(family: Family): nat {
    match family case V4 => 32 case V6 => 128
  }

  function Pow2(n: nat): (r: nat)
    ensures r >= 1
  {
    if n == 0 then 1 else 2 * Pow2(n - 1)
  }

  /** `num_addresses` of a block. */
  function Size(net: Network): (r: nat)
    ensures r >= 1
  {
    if net.prefix <= Width(net.family) then Pow2(Width(net.family) - net.prefix) else 1
  }

  /** The bits of an address. */
  ghost function Bits(family: Family): nat {
    if family == V4 then 32 else 128
  }

  /** A block of full prefix is one address; each bit less doubles it. */
  lemma SizeDoubles(net: Network)
    requires net.prefix <= Bits(net.family)
    ensures net.prefix == Bits(net.family) ==> Size(net) == 1
    ensures net.prefix < Bits(net.family) ==> Size(net) == 2 * Size(net.(prefix := net.prefix + 1))
  {
  }

  /** The address without its host bits: `ip & netmask`. */
  function Mask(value: nat, size: nat): (r: nat)
    requires size >= 1
    ensures r <= value < r + size
  {
    value - value % size
  }

  predicate ValidNetwork(net: Network) {
    net.prefix <= Width(net.family) && net.base % Size(net) == 0
  }

  /** `ip_network(value, strict=False)`: host bits are masked away. */
  function ParseNetwork(text: CidrText): (r: Option<Network>)
    ensures r.Some? <==> text.Parsable? && text.prefix <= Bits(text.ip.family)
    ensures r.Some? ==> ValidNetwork(r.value) && Contains(r.value, text.ip) && r.value.prefix == text.prefix
  {
    if text.Parsable? && text.prefix <= Width(text.ip.family) then
      var size := Pow2(Width(text.ip.family) - text.prefix);
      var base := Mask(text.ip.value, size);
      MaskIsAligned(text.ip.value, size);
      Some(Network(text.ip.family, base, text.prefix))
    else None
  }

  lemma MaskIsAligned(value: nat, size: nat)
    requires size >= 1
    ensures Mask(value, size) % size == 0
    ensures Mask(Mask(value, size), size) == Mask(value, size)
  {
    var q := value / size;
    assert value == size * q + value % size;
    assert Mask(value, size) == size * q;
    MultipleHasNoRemainder(q, size);
  }

  lemma StepsApart(size: nat, p: int, q: int)
    requires p < q
    ensures size * p + size <= size * q
  {
    assert size * (q - p - 1) >= 0;
    assert size * q == size * p + size + size * (q - p - 1);
  }

  lemma MultipleHasNoRemainder(q: nat, size: nat)
    requires size >= 1
    ensures (size * q) % size == 0
  {
    var d, r := (size * q) / size, (size * q) % size;
    assert size * q == size * d + r;
    if d < q {
      StepsApart(size, d, q);
    } else if q < d {
      StepsApart(size, q, d);
    }
  }

  /** `ip in net`: equal families and equal network bits. */
  predicate Contains(net: Network, ip: Ip) {
    net.family == ip.family && Mask(ip.value, Size(net)) == net.base
  }

  lemma SameQuotient(base: nat, value: nat, size: nat)
    requires size >= 1 && base % size == 0 && base <= value < base + size
    ensures Mask(value, size) == base
  {
    var q, p := base / size, value / size;
    assert base == size * q;
    assert value == size * p + value % size;
    if p < q {
      StepsApart(size, p, q);
    } else if q < p {
      StepsApart(size, q, p);
    }
  }

  /** The masked test is membership in the interval of the block's addresses. */
  lemma ContainsIsInterval(net: Network, ip: Ip)
    requires ValidNetwork(net)
    ensures Contains(net, ip)
            <==> net.family == ip.family && net.base <= ip.value < net.base + Size(net)
  {
    if net.base <= ip.value < net.base + Size(net) {
      SameQuotient(net.base, ip.value, Size(net));
    }
  }

  function NetworkAddress(net: Network): Ip {
    Ip(net.family, net.base)
  }

  function BroadcastAddress(net: Network): Ip {
    Ip(net.family, net.base + Size(net) - 1)
  }

  /** The address at an offset of the block. */
  function AddressAt(net: Network, offset: nat): Ip {
    Ip(net.family, net.base + offset)
  }

  /** `overlaps`: an end of one block lies in the other. */
  predicate Overlaps(a: Network, b: Network) {
    || Contains(b, NetworkAddress(a))
    || Contains(b, BroadcastAddress(a))
    || Contains(a, NetworkAddress(b))
    || Contains(a, BroadcastAddress(b))
  }

  /** The four end tests decide whether the blocks share an address at all. */
  lemma OverlapsIsIntersection(a: Network, b: Network)
    requires ValidNetwork(a) && ValidNetwork(b)
    ensures Overlaps(a, b) <==> exists ip :: Contains(a, ip) && Contains(b, ip)
  {
    var ends := [NetworkAddress(a), BroadcastAddress(a), NetworkAddress(b), BroadcastAddress(b)];
    forall i | 0 <= i < 4
      ensures (Contains(a, ends[i]) <==> a.family == ends[i].family && a.base <= ends[i].value < a.base + Size(a))
      ensures (Contains(b, ends[i]) <==> b.family == ends[i].family && b.base <= ends[i].value < b.base + Size(b))
    {
      ContainsIsInterval(a, ends[i]);
      ContainsIsInterval(b, ends[i]);
    }
    assert Contains(a, ends[0]) && Contains(a, ends[1]) && Contains(b, ends[2]) && Contains(b, ends[3]);
    if ip :| Contains(a, ip) && Contains(b, ip) {
      ContainsIsInterval(a, ip);
      ContainsIsInterval(b, ip);
      assert Contains(b, ends[0]) || Contains(a, ends[2]);
    }
  }

  lemma OverlapIsSymmetric(a: Network, b: Network)
    ensures Overlaps(a, b) <==> Overlaps(b, a)
  {
  }
}
