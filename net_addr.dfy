/**
 * IPv4 socket addresses (`struct ff_arch_net_addr` around a `struct
 * sockaddr_in`) on Linux: broadcast derivation, equality, rendering as
 * text, and the host-name resolution job with the system lookup's outcome
 * taken as an input.
 */
module NetAddr {
  import opened Common
  import Decimal
  import Bits

  /** Longest dotted-quad text, `aaa.bbb.ccc.ddd`. */
  const MaxStringIpLen: nat := 15
  /** Longest decimal port, `65535`. */
  const MaxStringPortLen: nat := 5
  /** Longest `ip:port` text, without the terminating NUL. */
  const MaxStringAddrLen: nat := MaxStringIpLen + 1 + MaxStringPortLen

  type Bytes2 = s: seq<byte> | |s| == 2 witness [0, 0]
  type Bytes4 = s: seq<byte> | |s| == 4 witness [0, 0, 0, 0]
  type Bytes8 = s: seq<byte> | |s| == 8 witness [0, 0, 0, 0, 0, 0, 0, 0]

  /**
   * A `struct sockaddr_in` as it lies in memory: the family (in host byte
   * order, kept here as two opaque bytes), the port and the address in network
   * byte order (most significant byte first), and the eight bytes of padding.
   */
  datatype SockAddrIn = SockAddrIn(family: Bytes2, port: Bytes2, addr: Bytes4, zero: Bytes8)

  /** The 16 bytes `memcmp` and `memcpy` see. */
  function Image(a: SockAddrIn): (m: seq<byte>)
    ensures |m| == 16
    ensures m[2..4] == a.port && m[4..8] == a.addr
  {
    a.family + a.port + a.addr + a.zero
  }

  /** Two structures with the same memory image are the same structure. */
  lemma ImageInjective(a: SockAddrIn, b: SockAddrIn)
    requires Image(a) == Image(b)
    ensures a == b
  {
    assert a.family == Image(a)[..2] && b.family == Image(b)[..2];
    assert a.zero == Image(a)[8..] && b.zero == Image(b)[8..];
  }

  /** `htons`: a port in host order as its two bytes in network order. */
  function Htons(port: nat): (b: Bytes2)
    requires port < 0x10000
    ensures (b[0] as nat) * 0x100 + b[1] as nat == port
  {
    [(port / 0x100) as byte, (port % 0x100) as byte]
  }

  /** `ntohs`: two bytes in network order as the port they hold. */
  function Ntohs(b: Bytes2): (port: nat)
    ensures port < 0x10000
  {
    (b[0] as nat) * 0x100 + b[1] as nat
  }

  /** Converting a port to network order and back gives the port again. */
  lemma NtohsHtons(port: nat)
    requires port < 0x10000
    ensures Ntohs(Htons(port)) == port
  {
  }

  /** Converting two network-order bytes to a port and back gives the bytes again. */
  lemma HtonsNtohs(b: Bytes2)
    ensures Htons(Ntohs(b)) == b
  {
    SplitPort(b[0] as nat, b[1] as nat);
  }

  /** The high and low bytes of a 16-bit value are its quotient and remainder by 256. */
  lemma SplitPort(hi: nat, lo: nat)
    requires hi < 0x100 && lo < 0x100
    ensures (hi * 0x100 + lo) / 0x100 == hi && (hi * 0x100 + lo) % 0x100 == lo
  {
  }

  /** One byte of `s_addr |= ~mask`: the bits of `m` kept from `a`, all others set. */
  function HostOnes(a: byte, m: byte): (r: byte)
    ensures Bits.And(r as nat, m as nat) == Bits.And(a as nat, m as nat)
    ensures Bits.Or(r as nat, m as nat) == 0xFF
  {
    assert Bits.Pow2(8) == 0x100;
    Bits.SetOutsideMask(a as nat, m as nat, 8);
    Bits.Or(a as nat, Bits.Not(m as nat, 8)) as byte
  }

  /** The bits of `x` that the mask `m` selects: `x & m`. */
  function NetworkPart(x: byte, m: byte): nat
  {
    Bits.And(x as nat, m as nat)
  }

  /** Every bit of `x` outside the mask `m` is set: `(x | m) == 0xFF`. */
  predicate HostAllOnes(x: byte, m: byte)
  {
    Bits.Or(x as nat, m as nat) == 0xFF
  }

  /**
   * `ff_arch_net_addr_get_broadcast_addr`: the address whose network part
   * (the bits set in `mask`) is that of `addr` and whose host part is all
   * ones; every other field is a copy of `addr`'s.
   */
  function BroadcastAddr(addr: SockAddrIn, mask: SockAddrIn): (b: SockAddrIn)
    ensures b.family == addr.family && b.port == addr.port && b.zero == addr.zero
    ensures forall i :: 0 <= i < 4 ==> NetworkPart(b.addr[i], mask.addr[i]) == NetworkPart(addr.addr[i], mask.addr[i])
    ensures forall i :: 0 <= i < 4 ==> HostAllOnes(b.addr[i], mask.addr[i])
  {
    var a, m := addr.addr, mask.addr;
    addr.(addr := seq(4, i requires 0 <= i < 4 => HostOnes(a[i], m[i])))
  }

  /** The network part and the all-ones host part determine the broadcast address. */
  lemma BroadcastUnique(addr: SockAddrIn, mask: SockAddrIn, c: SockAddrIn)
    requires c.family == addr.family && c.port == addr.port && c.zero == addr.zero
    requires forall i :: 0 <= i < 4 ==> NetworkPart(c.addr[i], mask.addr[i]) == NetworkPart(addr.addr[i], mask.addr[i])
    requires forall i :: 0 <= i < 4 ==> HostAllOnes(c.addr[i], mask.addr[i])
    ensures c == BroadcastAddr(addr, mask)
  {
    var b := BroadcastAddr(addr, mask);
    forall i | 0 <= i < 4
      ensures c.addr[i] == b.addr[i]
    {
      SameByParts(c.addr[i], b.addr[i], mask.addr[i]);
    }
  }

  /** Two bytes that agree under a mask and are both all ones outside it are equal. */
  lemma SameByParts(x: byte, y: byte, m: byte)
    requires NetworkPart(x, m) == NetworkPart(y, m) && HostAllOnes(x, m) && HostAllOnes(y, m)
    ensures x == y
  {
    assert Bits.Pow2(8) == 0x100;
    Bits.DeterminedByMask(x as nat, y as nat, m as nat, 8);
  }

  /** Deriving the broadcast address of a broadcast address changes nothing. */
  lemma BroadcastIdempotent(addr: SockAddrIn, mask: SockAddrIn)
    ensures BroadcastAddr(BroadcastAddr(addr, mask), mask) == BroadcastAddr(addr, mask)
  {
    var b := BroadcastAddr(addr, mask);
    BroadcastUnique(b, mask, BroadcastAddr(b, mask));
    BroadcastUnique(addr, mask, BroadcastAddr(b, mask));
  }

  /** With an all-ones mask there is no host part: the address is its own broadcast address. */
  lemma BroadcastFullMask(addr: SockAddrIn, mask: SockAddrIn)
    requires mask.addr == [0xFF, 0xFF, 0xFF, 0xFF]
    ensures BroadcastAddr(addr, mask) == addr
  {
    assert Bits.Pow2(8) == 0x100;
    forall i | 0 <= i < 4
      ensures HostAllOnes(addr.addr[i], mask.addr[i])
    {
      Bits.AllOnesMask(addr.addr[i] as nat, 8);
    }
    BroadcastUnique(addr, mask, addr);
  }

  /** 10.0.0.5 under 255.255.255.0 broadcasts to 10.0.0.255. */
  lemma BroadcastExample(addr: SockAddrIn, mask: SockAddrIn)
    requires addr.addr == [10, 0, 0, 5] && mask.addr == [255, 255, 255, 0]
    ensures BroadcastAddr(addr, mask).addr == [10, 0, 0, 255]
  {
    var c := addr.(addr := [10, 0, 0, 255]);
    assert Bits.Pow2(8) == 0x100;
    Bits.AllOnesMask(10, 8);
    Bits.AllOnesMask(0, 8);
    Bits.OrZero(255);
    assert forall i :: 0 <= i < 4 ==> HostAllOnes(c.addr[i], mask.addr[i]);
    BroadcastUnique(addr, mask, c);
  }

  /** `ff_arch_net_addr_is_equal`: 1 when the two memory images are identical, 0 otherwise. */
  function IsEqual(a1: SockAddrIn, a2: SockAddrIn): (r: int)
    ensures r == 0 || r == 1
    ensures a1 == a2 ==> r == 1
  {
    if Image(a1) == Image(a2) then 1 else 0
  }

  /** Byte equality is exactly equality of the addresses, hence reflexive and symmetric. */
  lemma IsEqualIsEquality(a1: SockAddrIn, a2: SockAddrIn)
    ensures IsEqual(a1, a2) == 1 <==> a1 == a2
    ensures IsEqual(a1, a2) == 0 <==> a1 != a2
    ensures IsEqual(a1, a1) == 1 && IsEqual(a1, a2) == IsEqual(a2, a1)
  {
    if Image(a1) == Image(a2) {
      ImageInjective(a1, a2);
    }
  }

  /** What `inet_ntop` writes for an IPv4 address: four decimal bytes separated by dots. */
  function DottedQuad(ip: Bytes4): (s: string)
    ensures |s| <= MaxStringIpLen
    ensures forall i :: 0 <= i < |s| ==> s[i] == '.' || Decimal.IsDigit(s[i])
  {
    ByteBound(ip[0]);
    ByteBound(ip[1]);
    ByteBound(ip[2]);
    ByteBound(ip[3]);
    Decimal.Digits(ip[0] as nat) + "." + Decimal.Digits(ip[1] as nat) + "."
      + Decimal.Digits(ip[2] as nat) + "." + Decimal.Digits(ip[3] as nat)
  }

  /** A byte has at most three decimal digits. */
  lemma ByteBound(b: byte)
    ensures |Decimal.Digits(b as nat)| <= 3
  {
    assert Decimal.Pow10(3) == 1000;
    Decimal.DigitsLength(b as nat, 3);
  }

  /**
   * `ff_arch_net_addr_to_string`: `a.b.c.d:port`, the port converted back to
   * host order; the text always fits the `MAX_STRING_ADDR_LEN + 1` buffer.
   */
  function ToString(a: SockAddrIn): (s: string)
    ensures 9 <= |s| <= MaxStringAddrLen
    ensures forall i :: 0 <= i < |s| ==> s[i] == '.' || s[i] == ':' || Decimal.IsDigit(s[i])
  {
    var port := Ntohs(a.port);
    assert Decimal.Pow10(5) == 100000;
    Decimal.DigitsLength(port, 5);
    DottedQuad(a.addr) + ":" + Decimal.Digits(port)
  }

  /** The text after the last colon of `s` (all of `s` when there is none). */
  function AfterLastColon(s: string): string
  {
    if s == [] then []
    else if s[|s| - 1] == ':' then []
    else AfterLastColon(s[..|s| - 1]) + [s[|s| - 1]]
  }

  /** Only the colon before a colon-free tail is the last one. */
  lemma {:induction false} AfterLastColonOf(x: string, t: string)
    requires forall i :: 0 <= i < |t| ==> t[i] != ':'
    ensures AfterLastColon(x + ":" + t) == t
    decreases |t|
  {
    if t != [] {
      var s := x + ":" + t;
      var u := t[..|t| - 1];
      assert s[..|s| - 1] == x + ":" + u;
      AfterLastColonOf(x, u);
      assert t == u + [t[|t| - 1]];
    } else {
      assert x + ":" + t == x + ":";
    }
  }

  /** The port read back from the rendered text, as a caller parsing it would. */
  function RenderedPort(s: string): nat
  {
    var t := AfterLastColon(s);
    if forall i :: 0 <= i < |t| ==> Decimal.IsDigit(t[i]) then Decimal.Value(t) else 0
  }

  /** The text renders the port that the structure holds, in host order. */
  lemma ToStringPort(a: SockAddrIn)
    ensures RenderedPort(ToString(a)) == Ntohs(a.port)
  {
    var port := Ntohs(a.port);
    var d := Decimal.Digits(port);
    AfterLastColonOf(DottedQuad(a.addr), d);
    Decimal.ValueOfDigits(port);
  }

  /** `struct ff_arch_net_addr`: the caller's address object, filled in place. */
  class NetAddress {
    var addr: SockAddrIn

    constructor (addr: SockAddrIn)
      ensures this.addr == addr
    {
      this.addr := addr;
    }
  }

  /** `struct threadpool_addr_resolve_data`: the job's inputs and its out-parameters. */
  class ResolveData {
    const addr: NetAddress
    const host: string
    const port: int
    var result: FfResult

    constructor (addr: NetAddress, host: string, port: int)
      ensures this.addr == addr && this.host == host && this.port == port
      ensures result == Failure
    {
      this.addr := addr;
      this.host := host;
      this.port := port;
      result := Failure;
    }
  }

  /**
   * `threadpool_addr_resolve_func`. `lookup` is the system resolver
   * (`getaddrinfo` restricted to IPv4): for a host it yields its first
   * address, or nothing when the lookup fails. On success the address is
   * copied out with the port stamped in network order; on failure the
   * caller's address is untouched.
   */
  method ResolveJob(data: ResolveData, lookup: string -> Option<SockAddrIn>)
    requires 0 <= data.port < 0x10000
    modifies data, data.addr
    ensures data.result == Success <==> lookup(data.host).Some?
    ensures data.result == Success ==> data.addr.addr == lookup(data.host).value.(port := Htons(data.port))
    ensures data.result == Failure ==> data.addr.addr == old(data.addr.addr)
  {
    data.result := Failure;
    var rv := lookup(data.host);
    if rv.Some? {
      data.addr.addr := rv.value;
      data.result := Success;
      data.addr.addr := data.addr.addr.(port := Htons(data.port));
    }
  }

  /**
   * `ff_arch_net_addr_resolve`: one lookup, run as an offloaded job (here a
   * direct call), whose outcome is the result.
   */
  method Resolve(addr: NetAddress, host: string, port: int, lookup: string -> Option<SockAddrIn>)
    returns (result: FfResult)
    requires 0 <= port < 0x10000
    modifies addr
    ensures result == Success <==> lookup(host).Some?
    ensures result == Success ==>
      addr.addr.addr == lookup(host).value.addr && Ntohs(addr.addr.port) == port &&
      addr.addr.family == lookup(host).value.family && addr.addr.zero == lookup(host).value.zero
    ensures result == Failure ==> addr.addr == old(addr.addr)
  {
    var data := new ResolveData(addr, host, port);
    ResolveJob(data, lookup);
    result := data.result;
    if result == Success {
      NtohsHtons(port);
    }
  }

  /** The port a successful resolution stamps is the one `to_string` shows. */
  lemma ResolvedPortRendered(found: SockAddrIn, port: nat)
    requires port < 0x10000
    ensures RenderedPort(ToString(found.(port := Htons(port)))) == port
  {
    NtohsHtons(port);
    ToStringPort(found.(port := Htons(port)));
  }
}
