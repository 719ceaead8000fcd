/** pkg/gcutil/iprange.go: address ranges written as `ip/bits`, and the subnet of a range. */
module IpRange {
  import opened Wrappers
  import opened Bits

  /** A Go `net.IP`: 4 or 16 bytes. */
  type IP = a: seq<Byte> | |a| == 4 || |a| == 16 witness [0, 0, 0, 0]

  /**
   An address as a text. A text in the notation of IPv4 stands for 4 bytes, one in the notation of
   IPv6 for 16; the latter may spell an IPv4-mapped address, as `::ffff:1.2.3.4` does.
   */
  type Text = IP

  /** The 16-byte form. */
  type IP16 = a: seq<Byte> | |a| == 16 witness [0, 0, 0, 0, 0, 0, 0, 0, 0, 0, 0, 0, 0, 0, 0, 0]

  /** The first 12 bytes of an IPv4-mapped address, section 2.5.5.2 of RFC 4291. */
  const V4_IN_V6: seq<Byte> := [0, 0, 0, 0, 0, 0, 0, 0, 0, 0, 0xff, 0xff]

  /** `net.IP.To4` */
  function To4(ip: IP): (r: Option<IP>)
    ensures r.Some? ==> |r.value| == 4
  {
    if |ip| == 4 then Some(ip)
    else if ip[..12] == V4_IN_V6 then Some(ip[12..])
    else None
  }

  /** `net.IP.To16`; also `net.ParseIP` on a text, which always returns the 16-byte form. */
  function To16(ip: IP): IP16 {
    if |ip| == 4 then V4_IN_V6 + ip else ip
  }

  lemma ParsedShorten(t: Text)
    ensures Shorten(To16(t)) == Shorten(t)
  {
    if |t| == 4 {
      assert To16(t)[..12] == V4_IN_V6 && To16(t)[12..] == t;
    }
  }

  /**
   The normalisation both functions start with: IPv4 addresses are cut to 4 bytes. It is also the
   text that `String` prints, in which IPv4-mapped addresses have the notation of IPv4.
   */
  function Shorten(ip: IP): IP {
    if To4(ip).Some? then To4(ip).value else ip
  }

  /** `net.CIDRMask`; `None` is the nil mask. */
  function CidrMask(ones: int, width: nat): (m: Option<seq<Byte>>)
    ensures m.Some? <==> (width == 32 || width == 128) && 0 <= ones <= width
    ensures m.Some? ==> |m.value| == width / 8
  {
    if !(width == 32 || width == 128) || ones < 0 || ones > width then None
    else Some(seq(width / 8, i => MaskByte(ones - 8 * i)))
  }

  function MaskByte(k: int): Byte {
    if k >= 8 then 0xff
    else if k <= 0 then 0x00
    else match k
      case 1 => 0x80
      case 2 => 0xc0
      case 3 => 0xe0
      case 4 => 0xf0
      case 5 => 0xf8
      case 6 => 0xfc
      case _ => 0xfe
  }

  /** `net.IP.Mask`, for a mask of the address's length */
  function Mask(ip: IP, mask: seq<Byte>): (r: IP)
    requires |mask| == |ip|
    ensures |r| == |ip|
  {
    seq(|ip|, i requires 0 <= i < |ip| => ip[i] & mask[i])
  }

  /** `net.IPNet` */
  datatype IPNet = IPNet(ip: IP, mask: seq<Byte>)

  /** `net.IPNet.Contains` */
  predicate Contains(n: IPNet, ip: IP) {
    var nn := Shorten(n.ip);
    var x := Shorten(ip);
    var m := if |n.mask| == 16 && |nn| == 4 then n.mask[12..] else n.mask;
    && (|m| == 4 || |m| == 16) && |m| == |nn|
    && |x| == |nn|
    && forall i :: 0 <= i < |x| ==> nn[i] & m[i] == x[i] & m[i]
  }

  /** What `ParseIPRange` receives, split at the slashes and with each piece parsed. */
  datatype RangeText = RangeText(address: Option<Text>, masks: seq<Option<int>>)

  datatype RangeError =
    | InvalidIP
    | InvalidSubnet
    | NotANumber
    | MaskOutOfRange  // the nil mask is indexed, and the call panics
    | MixedFamilies

  /** `lo` and `hi` are the first and last address that share the first `n` bits of `ip`. */
  ghost predicate IsBlock(ip: IP, n: nat, lo: IP, hi: IP) {
    && |lo| == |hi| == |ip| && n <= 8 * |ip|
    && (forall i :: 0 <= i < 8 * |ip| ==> Bit(lo, i) == (i < n && Bit(ip, i)))
    && (forall i :: 0 <= i < 8 * |ip| ==> Bit(hi, i) == (i >= n || Bit(ip, i)))
  }

  /** The two texts that `ip/n` turns into. */
  ghost predicate IsRange(ip: IP, n: nat, range: (Text, Text)) {
    exists lo, hi :: IsBlock(ip, n, lo, hi) && range == (Shorten(lo), Shorten(hi))
  }

  ghost predicate SamePrefix(a: IP, b: IP, n: nat) {
    |a| == |b| && n <= 8 * |a| && forall i :: 0 <= i < n ==> Bit(a, i) == Bit(b, i)
  }

  /** `n` is the number of leading bits two addresses share. */
  ghost predicate IsCommonPrefix(a: IP, b: IP, n: nat) {
    SamePrefix(a, b, n) && (n < 8 * |a| ==> Bit(a, n) != Bit(b, n))
  }

  /** How many leading bits two addresses share, counted one by one from bit `i`. */
  ghost function CommonPrefix(a: IP, b: IP, i: nat := 0): (n: nat)
    requires SamePrefix(a, b, i)
    ensures IsCommonPrefix(a, b, n)
    decreases 8 * |a| - i
  {
    if i == 8 * |a| || Bit(a, i) != Bit(b, i) then i else CommonPrefix(a, b, i + 1)
  }

  /** The answer of `GetIPRangeSubnet`: the network at `start` masked to the bits shared with `end`. */
  ghost function Subnet(start: Option<Text>, end: Option<Text>): Result<IPNet, RangeError> {
    if start.None? || end.None? then Failure(InvalidIP)
    else
      var s, e := Shorten(start.value), Shorten(end.value);
      if |s| != |e| then Failure(MixedFamilies)
      else Success(IPNet(s, CidrMask(CommonPrefix(s, e), 8 * |s|).value))
  }

  method ParseIPRange(arg: RangeText) returns (r: Result<(Text, Text), RangeError>)
    ensures arg.address.None? ==> r == Failure(InvalidIP)
    ensures arg.address.Some? && |arg.masks| == 0 ==> r == Success((arg.address.value, arg.address.value))
    ensures arg.address.Some? && |arg.masks| > 1 ==> r == Failure(InvalidSubnet)
    ensures arg.address.Some? && |arg.masks| == 1 && arg.masks[0].None? ==> r == Failure(NotANumber)
    ensures arg.address.Some? && |arg.masks| == 1 && arg.masks[0].Some? ==>
              var ip := Shorten(arg.address.value);
              var n := arg.masks[0].value;
              if 0 <= n <= 8 * |ip|
              then r.Success? && IsRange(ip, n, r.value)
              else r == Failure(MaskOutOfRange)
  {
    if arg.address.None? {
      return Failure(InvalidIP);
    }
    var ip: IP := To16(arg.address.value);
    ParsedShorten(arg.address.value);
    var ipv4 := To4(ip);
    if ipv4.Some? {
      ip := ipv4.value;
    }
    if |arg.masks| == 0 {
      return Success((arg.address.value, arg.address.value));
    } else if |arg.masks| == 1 {
      if arg.masks[0].None? {
        return Failure(NotANumber);
      }
      var netBits := arg.masks[0].value;
      var mask := CidrMask(netBits, |ip| * 8);
      if mask.None? {
        return Failure(MaskOutOfRange);
      }
      var range := MaskAndBroadcast(ip, netBits, mask.value);
      return Success(range);
    }
    return Failure(InvalidSubnet);
  }

  /** The masking and the broadcast loop of `ParseIPRange`, once the mask is known. */
  method MaskAndBroadcast(ip: IP, ghost n: nat, mask: seq<Byte>) returns (range: (Text, Text))
    requires CidrMask(n, 8 * |ip|) == Some(mask)
    ensures IsRange(ip, n, range)
  {
    var broadcast := new Byte[|ip|](_ => 0);
    for i := 0 to |ip|
      invariant forall j :: 0 <= j < i ==> broadcast[j] == ip[j] | !mask[j]
    {
      broadcast[i] := ip[i] | !mask[i];
    }
    var network := Mask(ip, mask);
    MaskedIsBlock(ip, n, mask, network, broadcast[..]);
    range := (Shorten(network), Shorten(broadcast[..]));
  }

  /** Parsing one end of a range and cutting it to 4 bytes if it is an IPv4 address. */
  method ParseShort(t: Text) returns (ip: IP)
    ensures ip == Shorten(t)
  {
    ip := Shorten(To16(t));
    ParsedShorten(t);
  }

  method GetIPRangeSubnet(start: Option<Text>, end: Option<Text>) returns (r: Result<IPNet, RangeError>)
    ensures r == Subnet(start, end)
    ensures start.None? || end.None? ==> r == Failure(InvalidIP)
  {
    if start.None? || end.None? {
      return Failure(InvalidIP);
    }
    var s := ParseShort(start.value);
    var e := ParseShort(end.value);
    if |s| != |e| {
      return Failure(MixedFamilies);
    }
    var bits := 0;
    for b := 0 to |s|
      invariant bits == 8 * b
      invariant SamePrefix(s, e, bits)
    {
      if s[b] == e[b] {
        SameByte(s, e, b);
        bits := bits + 8;
        continue;
      }
      var i := 7;
      while i >= 0
        invariant -1 <= i <= 7 && bits == 8 * b + (7 - i)
        invariant SamePrefix(s, e, bits)
      {
        OneMoreBit(s, e, b, i);
        if s[b] & BitMask(i) == e[b] & BitMask(i) {
          bits := bits + 1;
          i := i - 1;
          continue;
        }
        CommonPrefixUnique(s, e, bits);
        return Success(IPNet(s, CidrMask(bits, |s| * 8).value));
      }
    }
    CommonPrefixUnique(s, e, bits);
    return Success(IPNet(s, CidrMask(bits, |s| * 8).value));
  }

  // ---------------------------------------------------------------- bytes against masks

  lemma OneBit(x: Byte, i: nat)
    requires i < 8
    ensures x & BitMask(i) == if BitOf(x, 7 - i) then BitMask(i) else 0
  {
  }

  lemma AndBits(x: Byte, m: Byte, k: nat)
    requires k < 8
    ensures BitOf(x & m, k) == (BitOf(x, k) && BitOf(m, k))
  {
  }

  lemma OrNotBits(x: Byte, m: Byte, k: nat)
    requires k < 8
    ensures BitOf(x | !m, k) == (BitOf(x, k) || !BitOf(m, k))
  {
  }

  lemma MaskByteBits(n: int, k: nat)
    requires k < 8
    ensures BitOf(MaskByte(n), k) == (k < n)
  {
  }

  lemma MaskBit(n: nat, m: seq<Byte>, i: nat)
    requires i < 8 * |m| && CidrMask(n, 8 * |m|) == Some(m)
    ensures Bit(m, i) == (i < n)
  {
    MaskByteBits(n - 8 * (i / 8), i % 8);
  }

  lemma BlockByte(n: int, j: nat, x: Byte, m: Byte, lo: Byte, hi: Byte, k: nat)
    requires k < 8 && m == MaskByte(n - 8 * j) && lo == x & m && hi == x | !m
    ensures BitOf(lo, k) == (8 * j + k < n && BitOf(x, k))
    ensures BitOf(hi, k) == (8 * j + k >= n || BitOf(x, k))
  {
    MaskByteBits(n - 8 * j, k);
    AndBits(x, m, k);
    OrNotBits(x, m, k);
  }

  lemma MaskedIsBlock(ip: IP, n: nat, m: seq<Byte>, lo: IP, hi: IP)
    requires CidrMask(n, 8 * |ip|) == Some(m)
    requires lo == Mask(ip, m) && |hi| == |ip|
    requires forall j :: 0 <= j < |ip| ==> hi[j] == ip[j] | !m[j]
    ensures IsRange(ip, n, (Shorten(lo), Shorten(hi)))
  {
    forall i | 0 <= i < 8 * |ip|
      ensures Bit(lo, i) == (i < n && Bit(ip, i)) && Bit(hi, i) == (i >= n || Bit(ip, i))
    {
      MaskedBits(ip, n, m, lo, hi, i);
    }
    assert IsBlock(ip, n, lo, hi);
  }

  lemma MaskedBits(ip: IP, n: nat, m: seq<Byte>, lo: IP, hi: IP, i: nat)
    requires CidrMask(n, 8 * |ip|) == Some(m) && i < 8 * |ip|
    requires lo == Mask(ip, m) && |hi| == |ip| && hi[i / 8] == ip[i / 8] | !m[i / 8]
    ensures Bit(lo, i) == (i < n && Bit(ip, i)) && Bit(hi, i) == (i >= n || Bit(ip, i))
  {
    var j := i / 8;
    BlockByte(n, j, ip[j], m[j], lo[j], hi[j], i % 8);
  }

  lemma EqualBits(x: Byte, y: Byte)
    requires forall k :: 0 <= k < 8 ==> BitOf(x, k) == BitOf(y, k)
    ensures x == y
  {
    assert BitOf(x, 0) == BitOf(y, 0) && BitOf(x, 1) == BitOf(y, 1) && BitOf(x, 2) == BitOf(y, 2)
        && BitOf(x, 3) == BitOf(y, 3);
    assert BitOf(x, 4) == BitOf(y, 4) && BitOf(x, 5) == BitOf(y, 5) && BitOf(x, 6) == BitOf(y, 6)
        && BitOf(x, 7) == BitOf(y, 7);
  }

  lemma SameByte(s: IP, e: IP, b: nat)
    requires |s| == |e| && b < |s| && s[b] == e[b] && SamePrefix(s, e, 8 * b)
    ensures SamePrefix(s, e, 8 * b + 8)
  {
  }

  lemma OneMoreBit(s: IP, e: IP, b: nat, i: nat)
    requires |s| == |e| && b < |s| && i < 8 && SamePrefix(s, e, 8 * b + (7 - i))
    ensures s[b] & BitMask(i) == e[b] & BitMask(i) ==> SamePrefix(s, e, 8 * b + (8 - i))
    ensures s[b] & BitMask(i) != e[b] & BitMask(i) ==> IsCommonPrefix(s, e, 8 * b + (7 - i))
  {
    OneBit(s[b], i);
    OneBit(e[b], i);
    var n := 8 * b + (7 - i);
    assert n / 8 == b && n % 8 == 7 - i;
  }

  /** The bits of byte `j` of an address under a mask. */
  lemma MaskedByte(a: IP, n: nat, m: seq<Byte>, j: nat, k: nat)
    requires j < |a| == |m| && k < 8 && CidrMask(n, 8 * |a|) == Some(m)
    ensures (8 * j + k) < 8 * |a| && BitOf(a[j] & m[j], k) == (8 * j + k < n && Bit(a, 8 * j + k))
  {
    assert (8 * j + k) / 8 == j && (8 * j + k) % 8 == k;
    MaskBit(n, m, 8 * j + k);
    AndBits(a[j], m[j], k);
  }

  lemma PrefixFromBytes(a: IP, b: IP, n: nat, m: seq<Byte>)
    requires |a| == |b| == |m| && CidrMask(n, 8 * |a|) == Some(m)
    requires forall j :: 0 <= j < |a| ==> a[j] & m[j] == b[j] & m[j]
    ensures SamePrefix(a, b, n)
  {
    forall i | 0 <= i < n ensures Bit(a, i) == Bit(b, i) {
      MaskedByte(a, n, m, i / 8, i % 8);
      MaskedByte(b, n, m, i / 8, i % 8);
    }
  }

  lemma BytesFromPrefix(a: IP, b: IP, n: nat, m: seq<Byte>, j: nat)
    requires SamePrefix(a, b, n) && j < |m| == |a| && CidrMask(n, 8 * |a|) == Some(m)
    ensures a[j] & m[j] == b[j] & m[j]
  {
    var x, y := a[j] & m[j], b[j] & m[j];
    forall k | 0 <= k < 8 ensures BitOf(x, k) == BitOf(y, k) {
      MaskedByte(a, n, m, j, k);
      MaskedByte(b, n, m, j, k);
    }
    EqualBits(x, y);
  }

  lemma MaskedEqualIffPrefix(a: IP, b: IP, n: nat, m: seq<Byte>)
    requires |a| == |b| == |m| && CidrMask(n, 8 * |a|) == Some(m)
    ensures (forall j :: 0 <= j < |b| ==> a[j] & m[j] == b[j] & m[j]) <==> SamePrefix(a, b, n)
  {
    if forall j :: 0 <= j < |b| ==> a[j] & m[j] == b[j] & m[j] {
      PrefixFromBytes(a, b, n, m);
    }
    if SamePrefix(a, b, n) {
      forall j | 0 <= j < |b| ensures a[j] & m[j] == b[j] & m[j] {
        BytesFromPrefix(a, b, n, m, j);
      }
    }
  }

  /** A network with an `n`-bit mask contains exactly the addresses of its family that share its first `n` bits. */
  lemma ContainsIsPrefix(net: IPNet, n: nat, a: IP)
    requires Shorten(net.ip) == net.ip && CidrMask(n, 8 * |net.ip|) == Some(net.mask)
    ensures Contains(net, a) <==> SamePrefix(net.ip, Shorten(a), n)
  {
    var x := Shorten(a);
    if |x| == |net.ip| {
      MaskedEqualIffPrefix(net.ip, x, n, net.mask);
    }
  }

  lemma CommonPrefixUnique(a: IP, b: IP, n: nat)
    requires |a| == |b| && IsCommonPrefix(a, b, n)
    ensures n == CommonPrefix(a, b)
  {
  }

  // ---------------------------------------------------------------- results

  lemma SamePrefixBits(a: IP, b: IP, n: nat)
    requires |a| == |b| && n <= 8 * |a|
    ensures SamePrefix(a, b, n) <==> AllBits(a)[..n] == AllBits(b)[..n]
  {
    if AllBits(a)[..n] == AllBits(b)[..n] {
      forall i | 0 <= i < n ensures Bit(a, i) == Bit(b, i) {
        assert AllBits(a)[..n][i] == AllBits(b)[..n][i];
      }
    }
  }

  /**
   The subnet of a range contains both ends, no longer mask does, and every address of the
   same family between the ends lies in it.
   */
  lemma SubnetIsSmallest(start: Text, end: Text)
    requires |Shorten(start)| == |Shorten(end)|
    ensures var net := Subnet(Some(start), Some(end)).value;
            && Contains(net, start) && Contains(net, end)
            && (forall k: nat, m ::
                  CidrMask(k, 8 * |net.ip|) == Some(m) && Contains(IPNet(net.ip, m), end) ==>
                  k <= CommonPrefix(Shorten(start), Shorten(end)))
            && forall a: Text :: |Shorten(a)| == |net.ip| &&
                                 Value(Shorten(start)) <= Value(Shorten(a)) <= Value(Shorten(end)) ==>
                                 Contains(net, a)
  {
    var s, e := Shorten(start), Shorten(end);
    var net := Subnet(Some(start), Some(end)).value;
    var n := CommonPrefix(s, e);
    ContainsIsPrefix(net, n, start);
    ContainsIsPrefix(net, n, end);
    forall k: nat, m | CidrMask(k, 8 * |s|) == Some(m) && Contains(IPNet(s, m), end) ensures k <= n {
      ContainsIsPrefix(IPNet(s, m), k, end);
    }
    forall a: Text | |Shorten(a)| == |s| && Value(s) <= Value(Shorten(a)) <= Value(e) ensures Contains(net, a) {
      BetweenIsInside(s, Shorten(a), e, n);
      ContainsIsPrefix(net, n, a);
    }
  }

  lemma BetweenIsInside(s: IP, a: IP, e: IP, n: nat)
    requires |s| == |a| == |e| && SamePrefix(s, e, n)
    requires Value(s) <= Value(a) <= Value(e)
    ensures SamePrefix(s, a, n)
  {
    ValueOfBits(s);
    ValueOfBits(a);
    ValueOfBits(e);
    SamePrefixBits(s, e, n);
    SamePrefixBits(s, a, n);
    BetweenKeepsPrefix(AllBits(s), AllBits(a), AllBits(e), n);
  }

  lemma BlockBits(ip: IP, n: nat, lo: IP, hi: IP)
    requires IsBlock(ip, n, lo, hi)
    ensures AllBits(lo)[..n] == AllBits(ip)[..n] == AllBits(hi)[..n]
    ensures forall i :: n <= i < |AllBits(lo)| ==> !AllBits(lo)[i]
    ensures forall i :: n <= i < |AllBits(hi)| ==> AllBits(hi)[i]
  {
  }

  lemma BlockInBits(ip: IP, n: nat, lo: IP, hi: IP, s: seq<bool>)
    requires IsBlock(ip, n, lo, hi) && |s| == 8 * |ip|
    ensures NatOf(AllBits(lo)) <= NatOf(s) <= NatOf(AllBits(hi)) <==> s[..n] == AllBits(ip)[..n]
    ensures NatOf(AllBits(hi)) - NatOf(AllBits(lo)) == Pow2(8 * |ip| - n) - 1
  {
    BlockBits(ip, n, lo, hi);
    PrefixIsInterval(AllBits(lo), s, AllBits(hi), n);
  }

  /** In numbers, a block is the interval of its ends, and it holds `2^(width - n)` addresses. */
  lemma BlockIsInterval(ip: IP, n: nat, lo: IP, hi: IP, a: IP)
    requires IsBlock(ip, n, lo, hi) && |a| == |ip|
    ensures Value(lo) <= Value(a) <= Value(hi) <==> SamePrefix(ip, a, n)
    ensures Value(hi) - Value(lo) + 1 == Pow2(8 * |ip| - n)
  {
    ValueOfBits(lo);
    ValueOfBits(a);
    ValueOfBits(hi);
    BlockInBits(ip, n, lo, hi, AllBits(a));
    SamePrefixBits(ip, a, n);
  }

  /** Distinct addresses of one width have distinct values, so a block's count is a count of addresses. */
  lemma ValueInjective(a: IP, b: IP)
    requires |a| == |b| && Value(a) == Value(b)
    ensures a == b
  {
    ValueOfBits(a);
    ValueOfBits(b);
    NatOfInjective(AllBits(a), AllBits(b));
    forall j | 0 <= j < |a| ensures a[j] == b[j] {
      forall k | 0 <= k < 8 ensures BitOf(a[j], k) == BitOf(b[j], k) {
        assert (8 * j + k) / 8 == j && (8 * j + k) % 8 == k;
        assert AllBits(a)[8 * j + k] == AllBits(b)[8 * j + k];
      }
      EqualBits(a[j], b[j]);
    }
  }

  /**
   IPv6 blocks from /80 to /95 whose last address is IPv4-mapped: printed and parsed again, that
   last address comes back as an IPv4 address.
   */
  predicate Straddles(ip: IP, n: nat) {
    && |ip| == 16 && 80 <= n < 96
    && (forall i :: 0 <= i < 80 ==> !Bit(ip, i))
    && (forall i :: 80 <= i < n ==> Bit(ip, i))
  }

  lemma ByteConstants(b: Byte)
    ensures b == 0 <==> forall k :: 0 <= k < 8 ==> !BitOf(b, k)
    ensures b == 0xff <==> forall k :: 0 <= k < 8 ==> BitOf(b, k)
  {
    if forall k :: 0 <= k < 8 ==> !BitOf(b, k) {
      EqualBits(b, 0);
    }
    if forall k :: 0 <= k < 8 ==> BitOf(b, k) {
      EqualBits(b, 0xff);
    }
  }

  lemma MappedBits(a: IP)
    requires |a| == 16
    ensures To4(a).Some? <==> (forall i :: 0 <= i < 80 ==> !Bit(a, i)) && (forall i :: 80 <= i < 96 ==> Bit(a, i))
  {
    if To4(a).Some? {
      forall i | 0 <= i < 96 ensures Bit(a, i) == (i >= 80) {
        assert a[i / 8] == a[..12][i / 8];
        ByteConstants(a[i / 8]);
      }
    }
    if (forall i :: 0 <= i < 80 ==> !Bit(a, i)) && (forall i :: 80 <= i < 96 ==> Bit(a, i)) {
      forall j | 0 <= j < 12 ensures a[j] == V4_IN_V6[j] {
        forall k | 0 <= k < 8 ensures BitOf(a[j], k) == (j >= 10) {
          assert (8 * j + k) / 8 == j && (8 * j + k) % 8 == k;
          assert Bit(a, 8 * j + k) == (8 * j + k >= 80);
        }
        ByteConstants(a[j]);
      }
      assert a[..12] == V4_IN_V6;
    }
  }

  /** The first address of a block always keeps its family; the last one does unless the block straddles. */
  lemma BlockFamilies(ip: IP, n: nat, lo: IP, hi: IP)
    requires IsBlock(ip, n, lo, hi) && Shorten(ip) == ip
    ensures Shorten(lo) == lo
    ensures Straddles(ip, n) <==> Shorten(hi) != hi
    ensures Straddles(ip, n) ==> |Shorten(hi)| == 4
  {
    if |ip| == 16 {
      MappedBits(lo);
      MappedBits(hi);
      MappedBits(ip);
      if n < 80 {
        assert !Bit(lo, 95) && Bit(hi, n);
      } else if n < 96 {
        assert !Bit(lo, 95);
        assert forall i :: 0 <= i < n ==> Bit(ip, i) == Bit(hi, i);
      } else {
        assert forall i :: 0 <= i < 96 ==> Bit(ip, i) == Bit(lo, i) && Bit(ip, i) == Bit(hi, i);
      }
    }
  }

  lemma BlockPrefix(ip: IP, n: nat, lo: IP, hi: IP)
    requires IsBlock(ip, n, lo, hi)
    ensures IsCommonPrefix(lo, hi, n)
  {
  }

  /**
   Feeding the two addresses of `ip/n` back gives the network of `ip` and the prefix length `n`,
   exactly for the blocks that do not straddle; the others are refused as a mix of families.
   */
  lemma RangeRoundTrip(ip: IP, n: nat, range: (Text, Text))
    requires Shorten(ip) == ip && IsRange(ip, n, range)
    ensures !Straddles(ip, n) ==>
              && Subnet(Some(range.0), Some(range.1)) ==
                 Success(IPNet(range.0, CidrMask(n, 8 * |ip|).value))
              && IsBlock(ip, n, range.0, range.1)
    ensures Straddles(ip, n) ==> Subnet(Some(range.0), Some(range.1)) == Failure(MixedFamilies)
  {
    var lo, hi :| IsBlock(ip, n, lo, hi) && range == (Shorten(lo), Shorten(hi));
    BlockFamilies(ip, n, lo, hi);
    BlockPrefix(ip, n, lo, hi);
    if !Straddles(ip, n) {
      CommonPrefixUnique(lo, hi, n);
    }
  }
}
