/**
 pkg/gcsql/bans.go, pkg/gcsql/tables.go and pkg/gcsql/initsql/init.go: the two tests for an
 address against a range ban.
 */
module Bans {
  import opened Arithmetic
  import opened Wrappers
  import opened Bits
  import opened IpRange

  /** `netip.Addr.Compare` on two 16-byte addresses: their two 64-bit halves, high half first. */
  function Compare(a: IP16, b: IP16): int {
    var hi1, hi2 := Value(a[..8]), Value(b[..8]);
    var lo1, lo2 := Value(a[8..]), Value(b[8..]);
    if hi1 < hi2 then -1 else if hi1 > hi2 then 1
    else if lo1 < lo2 then -1 else if lo1 > lo2 then 1
    else 0
  }

  /** The comparison of byte strings of one length, byte by byte. */
  function CompareBytes(a: seq<Byte>, b: seq<Byte>): int
    requires |a| == |b|
  {
    if |a| == 0 then 0
    else if a[0] < b[0] then -1
    else if a[0] > b[0] then 1
    else CompareBytes(a[1..], b[1..])
  }

  datatype Driver = SQLite | MySQL | PostgreSQL

  /** The SQL function `ip_cmp` registered with SQLite; `None` is SQL NULL. The family is that of the address. */
  function SqliteIpCmp(a: Text, b: Text): Option<int> {
    if To4(To16(a)).Some? != To4(To16(b)).Some? then None else Some(Compare(To16(a), To16(b)))
  }

  /**
   The functions of the other two drivers, which go by the notation: in MySQL by how many bytes
   `INET6_ATON` makes of a text, in PostgreSQL by the `family` of the `inet` value.
   */
  function NotationIpCmp(a: Text, b: Text): Option<int> {
    if |a| != |b| then None else Some(CompareBytes(a, b))
  }

  function IpCmp(driver: Driver, a: Text, b: Text): Option<int> {
    if driver.SQLite? then SqliteIpCmp(a, b) else NotationIpCmp(a, b)
  }

  type Range = (Text, Text)

  /** A row of the ban table, without the columns no test looks at. */
  datatype IPBan = IPBan(id: int, boardID: Option<int>, range: Range, isActive: bool, expiresAt: int, permanent: bool)

  predicate AtLeast(c: Option<int>, bound: int) { c.Some? && c.value >= bound }

  predicate AtMost(c: Option<int>, bound: int) { c.Some? && c.value <= bound }

  /** The interval test in the WHERE clause of `CheckIPBan`: a NULL comparison does not pass. */
  predicate InRange(driver: Driver, range: Range, ip: Text) {
    AtLeast(IpCmp(driver, ip, range.0), 0) && AtMost(IpCmp(driver, ip, range.1), 0)
  }

  /** The rest of the WHERE clause. */
  predicate Applies(ban: IPBan, boardID: int, now: int) {
    && (ban.boardID.None? || ban.boardID.value == boardID)
    && ban.isActive
    && (ban.expiresAt > now || ban.permanent)
  }

  predicate Selects(driver: Driver, ban: IPBan, ip: Text, boardID: int, now: int) {
    InRange(driver, ban.range, ip) && Applies(ban, boardID, now)
  }

  /** `CheckIPBan`: of the rows that pass, the one with the highest id. */
  function CheckIPBan(driver: Driver, bans: seq<IPBan>, ip: Text, boardID: int, now: int): Option<IPBan> {
    if |bans| == 0 then None
    else
      var rest := CheckIPBan(driver, bans[1..], ip, boardID, now);
      if Selects(driver, bans[0], ip, boardID, now) && (rest.None? || rest.value.id < bans[0].id)
      then Some(bans[0]) else rest
  }

  /** `IPBan.IsBanned`: the subnet of the range, then the mask test. `None` is a text that is no address. */
  ghost function MaskTest(range: Range, ip: Option<Text>): Result<bool, RangeError> {
    var net := Subnet(Some(range.0), Some(range.1));
    if net.Failure? then Failure(net.error)
    else if ip.None? then Failure(InvalidIP)
    else Success(Contains(net.value, ip.value))
  }

  method IsBanned(range: Range, ip: Option<Text>) returns (r: Result<bool, RangeError>)
    ensures r == MaskTest(range, ip)
  {
    var net := GetIPRangeSubnet(Some(range.0), Some(range.1));
    if net.Failure? {
      return Failure(net.error);
    }
    if ip.None? {
      return Failure(InvalidIP);
    }
    ParsedShorten(ip.value);
    return Success(Contains(net.value, To16(ip.value)));
  }

  /**
   The mask test in bits: an error for bounds of two families, whatever the visitor's text, then one
   for a text that is no address, and otherwise whether the visitor shares the bits the bounds share.
   */
  lemma MaskTestIsPrefix(range: Range, ip: Option<Text>)
    ensures var s, e := Shorten(range.0), Shorten(range.1);
            MaskTest(range, ip) ==
              if |s| != |e| then Failure(MixedFamilies)
              else if ip.None? then Failure(InvalidIP)
              else Success(SamePrefix(s, Shorten(ip.value), CommonPrefix(s, e)))
  {
    var s, e := Shorten(range.0), Shorten(range.1);
    if |s| == |e| && ip.Some? {
      ContainsIsPrefix(Subnet(Some(range.0), Some(range.1)).value, CommonPrefix(s, e), ip.value);
    }
  }

  // ---------------------------------------------------------------- comparing addresses

  lemma BitsSplit(a: seq<Byte>, j: nat)
    requires j <= |a|
    ensures AllBits(a) == AllBits(a[..j]) + AllBits(a[j..])
  {
    var s := AllBits(a[..j]) + AllBits(a[j..]);
    forall i | 0 <= i < 8 * |a| ensures AllBits(a)[i] == s[i] {
      if i < 8 * j {
        assert a[i / 8] == a[..j][i / 8];
      } else {
        var k := i - 8 * j;
        assert i / 8 == j + k / 8 && i % 8 == k % 8;
        assert a[i / 8] == a[j..][k / 8];
      }
    }
  }

  lemma ValueSplit(a: seq<Byte>, j: nat)
    requires j <= |a|
    ensures Value(a) == Value(a[..j]) * Pow2(8 * (|a| - j)) + Value(a[j..])
    ensures Value(a[j..]) < Pow2(8 * (|a| - j))
  {
    ValueOfBits(a);
    ValueOfBits(a[..j]);
    ValueOfBits(a[j..]);
    BitsSplit(a, j);
    NatOfConcat(AllBits(a[..j]), AllBits(a[j..]));
    NatOfBound(AllBits(a[j..]));
  }

  lemma FirstByte(a: seq<Byte>)
    requires |a| > 0
    ensures Value(a) == a[0] as int * Pow2(8 * (|a| - 1)) + Value(a[1..])
    ensures Value(a[1..]) < Pow2(8 * (|a| - 1))
  {
    ValueSplit(a, 1);
    assert a[..1][..0] == [];
  }

  function Sign(x: int): int {
    if x < 0 then -1 else if x > 0 then 1 else 0
  }

  /** Splitting two numbers at the same digit, the high parts decide unless they are equal. */
  lemma HighPartDecides(x: nat, r: nat, y: nat, q: nat, m: nat)
    requires r < m && q < m
    ensures Sign((x * m + r) - (y * m + q)) == if x == y then Sign(r - q) else Sign(x - y)
  {
    if x < y {
      NextMultiple(x, y, m);
    } else if x > y {
      NextMultiple(y, x, m);
    }
  }

  /** Comparing 64-bit halves is comparing the addresses as 128-bit numbers. */
  lemma CompareIsNumeric(a: IP16, b: IP16)
    ensures Compare(a, b) == Sign(Value(a) - Value(b))
  {
    ValueSplit(a, 8);
    ValueSplit(b, 8);
    HighPartDecides(Value(a[..8]), Value(a[8..]), Value(b[..8]), Value(b[8..]), Pow2(64));
  }

  lemma ByteOrder(x: Byte, y: Byte)
    ensures x < y <==> x as int < y as int
    ensures x == y <==> x as int == y as int
  {
  }

  /** Byte-lexicographic order is numeric order, at any width. */
  lemma {:induction false} BytesAreNumeric(a: seq<Byte>, b: seq<Byte>)
    requires |a| == |b|
    ensures CompareBytes(a, b) == Sign(Value(a) - Value(b))
  {
    if |a| > 0 {
      BytesAreNumeric(a[1..], b[1..]);
      FirstByteDecides(a, b);
      ByteOrder(a[0], b[0]);
    }
  }

  lemma FirstDigitDecides(va: nat, vb: nat, x: nat, r: nat, y: nat, q: nat, m: nat)
    requires va == x * m + r && vb == y * m + q
    requires r < m && q < m
    ensures Sign(va - vb) == if x == y then Sign(r - q) else Sign(x - y)
  {
    HighPartDecides(x, r, y, q, m);
  }

  lemma FirstByteDecides(a: seq<Byte>, b: seq<Byte>)
    requires |a| == |b| > 0
    ensures Sign(Value(a) - Value(b)) ==
              if a[0] as int == b[0] as int then Sign(Value(a[1..]) - Value(b[1..]))
              else Sign(a[0] as int - b[0] as int)
  {
    FirstByte(a);
    FirstByte(b);
    FirstDigitDecides(Value(a), Value(b), a[0] as int, Value(a[1..]), b[0] as int, Value(b[1..]), Pow2(8 * (|a| - 1)));
  }

  // ---------------------------------------------------------------- the drivers

  /** The bytes a driver compares for a text. */
  function Key(driver: Driver, t: Text): IP {
    if driver.SQLite? then Shorten(t) else t
  }

  /** A text in the notation of IPv6 that spells an IPv4-mapped address. */
  predicate Mapped(t: Text) {
    |t| == 16 && To4(t).Some?
  }

  /** Every driver compares numbers, and only within what it takes for one family. */
  lemma IpCmpIsNumeric(driver: Driver, a: Text, b: Text)
    ensures IpCmp(driver, a, b) ==
              if |Key(driver, a)| != |Key(driver, b)| then None
              else Some(Sign(Value(Key(driver, a)) - Value(Key(driver, b))))
  {
    if driver.SQLite? {
      ParsedShorten(a);
      ParsedShorten(b);
      CompareIsNumeric(To16(a), To16(b));
      if |Shorten(a)| == |Shorten(b)| == 4 {
        ValueSplit(To16(a), 12);
        ValueSplit(To16(b), 12);
      }
    } else if |a| == |b| {
      BytesAreNumeric(a, b);
    }
  }

  /** Two drivers give the same answer exactly when both go by the notation, or it does not matter to either text. */
  lemma DriversAgree(d: Driver, e: Driver, a: Text, b: Text)
    ensures IpCmp(d, a, b) == IpCmp(e, a, b) <==> d.SQLite? == e.SQLite? || Mapped(a) == Mapped(b)
  {
    IpCmpIsNumeric(d, a, b);
    IpCmpIsNumeric(e, a, b);
    if Mapped(a) && Mapped(b) {
      ValueSplit(a, 12);
      ValueSplit(b, 12);
    }
  }

  lemma InRangeIsInterval(driver: Driver, range: Range, ip: Text)
    ensures InRange(driver, range, ip) <==>
              && |Key(driver, ip)| == |Key(driver, range.0)| == |Key(driver, range.1)|
              && Value(Key(driver, range.0)) <= Value(Key(driver, ip)) <= Value(Key(driver, range.1))
  {
    IpCmpIsNumeric(driver, ip, range.0);
    IpCmpIsNumeric(driver, ip, range.1);
  }

  // ---------------------------------------------------------------- the two tests

  /** The driver's notion of families cannot tell the texts apart: all of them are IPv4-mapped, or none. */
  predicate OneNotation(driver: Driver, range: Range, ip: Text) {
    driver.SQLite? || (Mapped(range.0) == Mapped(range.1) && Mapped(range.1) == Mapped(ip))
  }

  lemma NotationIrrelevant(driver: Driver, range: Range, ip: Text)
    requires OneNotation(driver, range, ip)
    ensures InRange(driver, range, ip) <==> InRange(SQLite, range, ip)
  {
    DriversAgree(driver, SQLite, ip, range.0);
    DriversAgree(driver, SQLite, ip, range.1);
  }

  /**
   For any range at all, an address the interval test bans is banned by the mask test as well,
   exactly when the texts are of one notation for the driver.
   */
  lemma IntervalImpliesMask(driver: Driver, range: Range, ip: Text)
    requires InRange(driver, range, ip)
    ensures MaskTest(range, Some(ip)) == Success(true) <==> OneNotation(driver, range, ip)
  {
    if OneNotation(driver, range, ip) {
      NotationIrrelevant(driver, range, ip);
      InRangeIsInterval(SQLite, range, ip);
      SubnetIsSmallest(range.0, range.1);
    } else {
      InRangeIsInterval(driver, range, ip);
      var net := Subnet(Some(range.0), Some(range.1));
      assert net.Success? ==> |Shorten(ip)| != |net.value.ip|;
    }
  }

  /** The bounds of `net/n` are printed by Go, so they never have the notation of IPv6 for an IPv4 address. */
  lemma RangeIsUnmapped(net: IP, n: nat, range: Range)
    requires IsRange(net, n, range)
    ensures !Mapped(range.0) && !Mapped(range.1)
  {
  }

  lemma IntervalIsPrefix(driver: Driver, net: IP, n: nat, range: Range, ip: Text)
    requires Shorten(net) == net && IsRange(net, n, range)
    ensures InRange(driver, range, ip) <==> !Straddles(net, n) && SamePrefix(net, Key(driver, ip), n)
  {
    InRangeIsInterval(driver, range, ip);
    RangeIsUnmapped(net, n, range);
    var lo, hi :| IsBlock(net, n, lo, hi) && range == (Shorten(lo), Shorten(hi));
    BlockFamilies(net, n, lo, hi);
    if |Key(driver, ip)| == |net| {
      BlockIsInterval(net, n, lo, hi, Key(driver, ip));
    }
  }

  lemma MaskIsPrefix(net: IP, n: nat, range: Range, ip: Text)
    requires Shorten(net) == net && IsRange(net, n, range) && !Straddles(net, n)
    ensures MaskTest(range, Some(ip)) == Success(SamePrefix(net, Shorten(ip), n))
  {
    RangeRoundTrip(net, n, range);
    ContainsIsPrefix(Subnet(Some(range.0), Some(range.1)).value, n, ip);
    PrefixOfFirst(net, n, range.0, range.1, Shorten(ip));
  }

  lemma PrefixOfFirst(net: IP, n: nat, lo: IP, hi: IP, x: IP)
    requires IsBlock(net, n, lo, hi)
    ensures SamePrefix(lo, x, n) <==> SamePrefix(net, x, n)
  {
    assert forall i :: 0 <= i < n ==> Bit(lo, i) == Bit(net, i);
  }

  /**
   The driver goes by the notation, the visitor's text is IPv4-mapped, and `net/n` holds the
   address in one of its two forms.
   */
  ghost predicate Misread(driver: Driver, net: IP, n: nat, ip: Text) {
    !driver.SQLite? && Mapped(ip) && (SamePrefix(net, ip, n) || SamePrefix(net, Shorten(ip), n))
  }

  /**
   For the range of `net/n`, the two tests give the same answer exactly when the block does not
   straddle and the visitor is not misread. The range of a block that straddles bans nobody.
   */
  lemma BanTestsAgree(driver: Driver, net: IP, n: nat, range: Range, ip: Text)
    requires Shorten(net) == net && IsRange(net, n, range)
    ensures MaskTest(range, Some(ip)) == Success(InRange(driver, range, ip)) <==>
              !Straddles(net, n) && !Misread(driver, net, n, ip)
    ensures !Straddles(net, n) ==>
              && (InRange(driver, range, ip) <==> SamePrefix(net, Key(driver, ip), n))
              && MaskTest(range, Some(ip)) == Success(SamePrefix(net, Shorten(ip), n))
    ensures Straddles(net, n) ==> MaskTest(range, Some(ip)) == Failure(MixedFamilies) && !InRange(driver, range, ip)
  {
    IntervalIsPrefix(driver, net, n, range, ip);
    if Straddles(net, n) {
      RangeRoundTrip(net, n, range);
    } else {
      MaskIsPrefix(net, n, range, ip);
    }
  }

  /** `::fffe:0:0`; its block of length 95 ends at `::ffff:ffff:ffff`, an IPv4-mapped address. */
  const STRADDLING_NET: IP := [0, 0, 0, 0, 0, 0, 0, 0, 0, 0, 0xff, 0xfe, 0, 0, 0, 0]

  lemma StraddlingNet()
    ensures Shorten(STRADDLING_NET) == STRADDLING_NET && Straddles(STRADDLING_NET, 95)
  {
    var net := STRADDLING_NET;
    assert net[..12][11] == 0xfe;
    assert forall j :: 0 <= j < 10 ==> net[j] == 0;
    forall i | 0 <= i < 80 ensures !Bit(net, i) {
      ByteConstants(net[i / 8]);
    }
    forall i | 80 <= i < 95 ensures Bit(net, i) {
      if i < 88 {
        ByteConstants(net[10]);
      } else {
        assert net[11] == MaskByte(7);
        MaskByteBits(7, i % 8);
      }
    }
  }

  /** With any driver, a ban on `::fffe:0:0/95` does not even ban the address it was written with. */
  lemma StraddlingBanIsIgnored(driver: Driver, range: Range)
    requires IsRange(STRADDLING_NET, 95, range)
    ensures SamePrefix(STRADDLING_NET, Shorten(STRADDLING_NET), 95)
    ensures !InRange(driver, range, STRADDLING_NET)
    ensures MaskTest(range, Some(STRADDLING_NET)) == Failure(MixedFamilies)
  {
    StraddlingNet();
    BanTestsAgree(driver, STRADDLING_NET, 95, range, STRADDLING_NET);
  }

  /** The visitor `::ffff:1.2.3.4`. */
  const VISITOR: Text := V4_IN_V6 + [1, 2, 3, 4]

  /**
   With MySQL or PostgreSQL that visitor evades a ban on `1.2.3.0/24` by the interval test, and is
   caught by a ban on `::/64`; the mask test says the opposite both times, as SQLite does.
   */
  lemma MappedVisitor(driver: Driver, v4: Range, v6: Range)
    requires IsRange([1, 2, 3, 0], 24, v4) && IsRange(seq(16, _ => 0), 64, v6)
    ensures MaskTest(v4, Some(VISITOR)) == Success(true) && MaskTest(v6, Some(VISITOR)) == Success(false)
    ensures InRange(driver, v4, VISITOR) <==> driver.SQLite?
    ensures InRange(driver, v6, VISITOR) <==> !driver.SQLite?
  {
    var net4: IP, net6: IP := [1, 2, 3, 0], seq(16, _ => 0);
    assert VISITOR[..12] == V4_IN_V6 && Shorten(VISITOR) == [1, 2, 3, 4];
    assert net6[11] == 0;
    forall i | 0 <= i < 24 ensures Bit(net4, i) == Bit(Shorten(VISITOR), i) {
      assert net4[i / 8] == Shorten(VISITOR)[i / 8];
    }
    forall i | 0 <= i < 64 ensures Bit(net6, i) == Bit(VISITOR, i) {
      assert net6[i / 8] == VISITOR[i / 8];
    }
    BanTestsAgree(driver, net4, 24, v4, VISITOR);
    assert net6[..12][11] != V4_IN_V6[11];
    BanTestsAgree(driver, net6, 64, v6, VISITOR);
  }

  lemma WholePrefix(a: IP, b: IP)
    ensures SamePrefix(a, b, 8 * |a|) <==> a == b
  {
    if SamePrefix(a, b, 8 * |a|) {
      SamePrefixBits(a, b, 8 * |a|);
      assert AllBits(a)[..8 * |a|] == AllBits(a) && AllBits(b)[..8 * |a|] == AllBits(b);
      ValueOfBits(a);
      ValueOfBits(b);
      ValueInjective(a, b);
    }
  }

  lemma ShortenInjective(driver: Driver, a: Text, b: Text)
    ensures Key(driver, a) == Key(driver, b) <==> a == b || (driver.SQLite? && Shorten(a) == Shorten(b))
    ensures Shorten(a) == Shorten(b) ==> a == b || Mapped(a) || Mapped(b)
  {
    if Shorten(a) == Shorten(b) && Mapped(a) && Mapped(b) {
      assert a == a[..12] + a[12..] && b == b[..12] + b[12..];
    }
  }

  lemma SingleInRange(driver: Driver, start: Text, ip: Text)
    ensures InRange(driver, (start, start), ip) <==> Key(driver, ip) == Key(driver, start)
  {
    InRangeIsInterval(driver, (start, start), ip);
    var s, x := Key(driver, start), Key(driver, ip);
    if |s| == |x| && Value(s) == Value(x) {
      ValueInjective(s, x);
    }
  }

  lemma SingleMaskTest(start: Text, ip: Text)
    ensures MaskTest((start, start), Some(ip)) == Success(Shorten(ip) == Shorten(start))
  {
    var s, x := Shorten(start), Shorten(ip);
    CommonPrefixUnique(s, s, 8 * |s|);
    ContainsIsPrefix(Subnet(Some(start), Some(start)).value, 8 * |s|, ip);
    WholePrefix(s, x);
  }

  /**
   A ban on a single address, kept in the notation it was written in, bans that address and no
   other, by both tests, exactly unless the driver goes by a notation the visitor does not share.
   */
  lemma SingleAddressBan(driver: Driver, start: Text, ip: Text)
    ensures MaskTest((start, start), Some(ip)) == Success(Shorten(ip) == Shorten(start))
    ensures InRange(driver, (start, start), ip) <==> ip == start || (driver.SQLite? && Shorten(ip) == Shorten(start))
    ensures MaskTest((start, start), Some(ip)) == Success(InRange(driver, (start, start), ip)) <==>
              driver.SQLite? || ip == start || Shorten(ip) != Shorten(start)
  {
    SingleMaskTest(start, ip);
    SingleInRange(driver, start, ip);
    ShortenInjective(driver, ip, start);
  }

  /** How a ban's range came about: a single address, or `net/n`. */
  ghost predicate FromParse(range: Range) {
    || range.0 == range.1
    || exists net: IP, n: nat :: Shorten(net) == net && IsRange(net, n, range)
  }

  ghost predicate MaskBans(range: Range, ip: Text) {
    MaskTest(range, Some(ip)) == Success(true)
  }

  /** A range that was parsed bans the same visitors by both tests, straddling blocks included. */
  lemma ParsedTestsAgree(driver: Driver, range: Range, ip: Text)
    requires FromParse(range) && OneNotation(driver, range, ip)
    ensures InRange(driver, range, ip) <==> MaskBans(range, ip)
  {
    NotationIrrelevant(driver, range, ip);
    if range.0 == range.1 {
      SingleAddressBan(SQLite, range.0, ip);
    } else {
      var net: IP, n: nat :| Shorten(net) == net && IsRange(net, n, range);
      BanTestsAgree(SQLite, net, n, range, ip);
    }
  }

  lemma BothTests(driver: Driver, range: Range, ip: Text)
    ensures InRange(driver, range, ip) ==> (MaskBans(range, ip) <==> OneNotation(driver, range, ip))
    ensures FromParse(range) && OneNotation(driver, range, ip) && MaskBans(range, ip) ==> InRange(driver, range, ip)
  {
    if InRange(driver, range, ip) {
      IntervalImpliesMask(driver, range, ip);
    } else if FromParse(range) && OneNotation(driver, range, ip) {
      ParsedTestsAgree(driver, range, ip);
    }
  }

  /**
   The ban that `CheckIPBan` returns is a row that is active, for all boards or this one, permanent
   or not ended yet, and in whose range the visitor is; and it is as new as any such row.
   */
  lemma {:induction false} CheckFindsNewestBan(driver: Driver, bans: seq<IPBan>, ip: Text, boardID: int, now: int)
    ensures var r := CheckIPBan(driver, bans, ip, boardID, now);
            && (r.Some? ==>
                  && r.value in bans && r.value.isActive
                  && (r.value.boardID == None || r.value.boardID == Some(boardID))
                  && (r.value.permanent || r.value.expiresAt > now)
                  && InRange(driver, r.value.range, ip))
            && forall b :: b in bans && b.isActive && (b.boardID == None || b.boardID == Some(boardID))
                           && (b.permanent || b.expiresAt > now) && InRange(driver, b.range, ip) ==>
                             r.Some? && b.id <= r.value.id
  {
    if |bans| > 0 {
      CheckFindsNewestBan(driver, bans[1..], ip, boardID, now);
      assert forall b :: b in bans ==> b == bans[0] || b in bans[1..];
    }
  }

  /**
   The mask test confirms the ban that `CheckIPBan` returns exactly when its texts are of one
   notation; and it returns one at least as new as any ban that is active, for all boards or this
   one, permanent or not ended yet, was parsed, is of one notation and whose mask test says yes.
   With SQLite notations do not matter.
   */
  lemma CheckFindsNewestMaskBan(driver: Driver, bans: seq<IPBan>, ip: Text, boardID: int, now: int)
    ensures var r := CheckIPBan(driver, bans, ip, boardID, now);
            && (r.Some? ==> (MaskBans(r.value.range, ip) <==> OneNotation(driver, r.value.range, ip)))
            && forall b :: b in bans && b.isActive && (b.boardID == None || b.boardID == Some(boardID))
                           && (b.permanent || b.expiresAt > now) && FromParse(b.range)
                           && OneNotation(driver, b.range, ip) && MaskBans(b.range, ip) ==>
                             r.Some? && b.id <= r.value.id
  {
    CheckFindsNewestBan(driver, bans, ip, boardID, now);
    var r := CheckIPBan(driver, bans, ip, boardID, now);
    if r.Some? {
      BothTests(driver, r.value.range, ip);
    }
    forall b | b in bans && FromParse(b.range) && OneNotation(driver, b.range, ip) && MaskBans(b.range, ip)
      ensures InRange(driver, b.range, ip)
    {
      BothTests(driver, b.range, ip);
    }
  }
}
