/** The address allocator `findAvailableIP`: the lowest host number in
    2..254 whose `prefix.host/mask` string is not already in use. */
module Allocator {
  import opened Wrappers
  import opened Strings

  /** Host numbers eligible for allocation; `.0`, `.1` and `.255` are
      never handed out, whatever the subnet's prefix length. */
  const FirstHost: nat := 2
  const LastHost: nat := 254

  /** The subnet the allocation endpoint scans. */
  const DefaultSubnet: string := "10.200.200.0/32"

  /** First element of `subnet.split('/')`: everything before the first
      `/`. */
  function SubnetBase(subnet: string): (base: string)
    ensures '/' !in base && base <= subnet
    ensures |base| == |subnet| || subnet[|base|] == '/'
  {
    FirstField(subnet, '/')
  }

  /** Second element of `subnet.split('/')`: the text after the first `/`
      up to the next one. A subnet without `/` leaves it `undefined`, which
      the template literal renders as "undefined". */
  function SubnetMask(subnet: string): (mask: string)
    ensures '/' !in mask
    ensures '/' !in subnet ==> mask == "undefined"
    ensures '/' in subnet ==> SubnetBase(subnet) + "/" + mask <= subnet
    ensures '/' in subnet ==>
      var n := |SubnetBase(subnet)| + 1 + |mask|;
      n == |subnet| || subnet[n] == '/'
  {
    match SecondField(subnet, '/')
    case Some(mask) => mask
    case None => "undefined"
  }

  /** The at most three leading `.`-fields of the base address: their join
      is a prefix of the base that ends at a `.` or at the end of the base,
      and it is the whole base when the base has fewer than three fields. */
  function PrefixFields(subnet: string): (fields: seq<string>)
    ensures 1 <= |fields| <= 3
    ensures forall i :: 0 <= i < |fields| ==> '.' !in fields[i] && '/' !in fields[i]
    ensures Join(fields, '.') <= SubnetBase(subnet)
    ensures |fields| < 3 ==> Join(fields, '.') == SubnetBase(subnet)
    ensures var n := |Join(fields, '.')|; n == |SubnetBase(subnet)| || SubnetBase(subnet)[n] == '.'
  {
    var base := SubnetBase(subnet);
    var all := Split(base, '.');
    var fields := if |all| < 3 then all else all[..3];
    forall i | 0 <= i < |fields| ensures '/' !in fields[i] {
      if '/' in fields[i] {
        assert fields[i] == all[i];
        JoinContainsParts(all, '.', i, '/');
      }
    }
    if |all| >= 3 then
      JoinPrefix(all, 3, '.');
      assert |all| == 3 ==> all[..3] == all;
      fields
    else
      fields
  }

  /** `subnetBase.split('.').slice(0, 3).join('.')`. */
  function SubnetPrefix(subnet: string): string {
    Join(PrefixFields(subnet), '.')
  }

  /** The candidate `${prefix}.${host}/${mask}`. */
  function Candidate(prefix: string, host: nat, mask: string): string {
    prefix + "." + NatToDecimal(host) + "/" + mask
  }

  /** A candidate is the prefix and a dot, then the decimal digits of the
      host number with no leading zero, then a slash and the mask. */
  lemma CandidateLayout(prefix: string, host: nat, mask: string)
    ensures var c := Candidate(prefix, host, mask);
            prefix + "." <= c
            && |c| >= |prefix| + |mask| + 3 && c[|c| - |mask| - 1..] == "/" + mask
            && var digits := c[|prefix| + 1..|c| - |mask| - 1];
               AllDigits(digits) && (digits[0] == '0' ==> host == 0) && DecimalValue(digits) == host
  {
    var digits := NatToDecimal(host);
    DecimalRoundTrip(host);
    var c := Candidate(prefix, host, mask);
    assert c[|prefix| + 1..|c| - |mask| - 1] == digits;
    assert c[|c| - |mask| - 1..] == "/" + mask;
  }

  /** Every candidate with a host number in `lo..hi-1` is in `usedIPs`. */
  ghost predicate UsedBetween(prefix: string, mask: string, usedIPs: seq<string>, lo: nat, hi: nat) {
    forall g :: lo <= g < hi ==> Candidate(prefix, g, mask) in usedIPs
  }

  /** Every candidate of `subnet` is in `usedIPs`. */
  ghost predicate Exhausted(subnet: string, usedIPs: seq<string>) {
    UsedBetween(SubnetPrefix(subnet), SubnetMask(subnet), usedIPs, FirstHost, LastHost + 1)
  }

  /** `address` is the candidate with the smallest host number that is not
      in `usedIPs`. */
  ghost predicate IsLowestFree(subnet: string, usedIPs: seq<string>, address: string) {
    exists h :: FirstHost <= h <= LastHost
      && address == Candidate(SubnetPrefix(subnet), h, SubnetMask(subnet))
      && address !in usedIPs
      && UsedBetween(SubnetPrefix(subnet), SubnetMask(subnet), usedIPs, FirstHost, h)
  }

  /** The loop of `findAvailableIP` from host number `host` on. */
  function ScanFrom(prefix: string, mask: string, usedIPs: seq<string>, host: nat): (r: Option<string>)
    requires FirstHost <= host <= LastHost + 1
    ensures r.None? <==> UsedBetween(prefix, mask, usedIPs, host, LastHost + 1)
    ensures r.Some? ==>
      exists h :: host <= h <= LastHost && r.value == Candidate(prefix, h, mask)
        && r.value !in usedIPs
        && UsedBetween(prefix, mask, usedIPs, host, h)
    decreases LastHost + 1 - host
  {
    if host > LastHost then None
    else
      var candidate := Candidate(prefix, host, mask);
      if candidate !in usedIPs then Some(candidate)
      else ScanFrom(prefix, mask, usedIPs, host + 1)
  }

  /** `findAvailableIP(subnet, usedIPs)`: the lowest free candidate, or
      `None` (JavaScript `null`) when all 253 are in use. */
  function FindAvailableIP(subnet: string, usedIPs: seq<string>): (r: Option<string>)
    ensures r.None? <==> Exhausted(subnet, usedIPs)
    ensures r.Some? ==> IsLowestFree(subnet, usedIPs, r.value)
    ensures r.Some? ==> r.value !in usedIPs
  {
    ScanFrom(SubnetPrefix(subnet), SubnetMask(subnet), usedIPs, FirstHost)
  }

  /** The lowest-free characterisation pins the result down: the
      allocator returns `address` exactly when `address` is the lowest free
      candidate, so equal inputs always give equal outputs. */
  lemma FindAvailableIPIsLowestFree(subnet: string, usedIPs: seq<string>, address: string)
    ensures FindAvailableIP(subnet, usedIPs) == Some(address) <==> IsLowestFree(subnet, usedIPs, address)
  {
    if IsLowestFree(subnet, usedIPs, address) {
      var prefix, mask := SubnetPrefix(subnet), SubnetMask(subnet);
      var h :| FirstHost <= h <= LastHost && address == Candidate(prefix, h, mask)
        && address !in usedIPs && UsedBetween(prefix, mask, usedIPs, FirstHost, h);
      ScanFindsLowest(prefix, mask, usedIPs, h);
    }
  }

  /** The scan stops at the lowest free host number. */
  lemma ScanFindsLowest(prefix: string, mask: string, usedIPs: seq<string>, h: nat)
    requires FirstHost <= h <= LastHost
    requires Candidate(prefix, h, mask) !in usedIPs
    requires UsedBetween(prefix, mask, usedIPs, FirstHost, h)
    ensures ScanFrom(prefix, mask, usedIPs, FirstHost) == Some(Candidate(prefix, h, mask))
  {
    var r := ScanFrom(prefix, mask, usedIPs, FirstHost);
    assert !UsedBetween(prefix, mask, usedIPs, FirstHost, LastHost + 1);
    var k :| FirstHost <= k <= LastHost && r.value == Candidate(prefix, k, mask)
      && r.value !in usedIPs && UsedBetween(prefix, mask, usedIPs, FirstHost, k);
    LowestIsUnique(prefix, mask, usedIPs, h, k);
  }

  /** At most one host number is free with every lower one used. */
  lemma LowestIsUnique(prefix: string, mask: string, usedIPs: seq<string>, h: nat, k: nat)
    requires Candidate(prefix, h, mask) !in usedIPs && UsedBetween(prefix, mask, usedIPs, FirstHost, h)
    requires Candidate(prefix, k, mask) !in usedIPs && UsedBetween(prefix, mask, usedIPs, FirstHost, k)
    requires FirstHost <= h && FirstHost <= k
    ensures h == k
  {
    assert h < k ==> Candidate(prefix, h, mask) in usedIPs;
    assert k < h ==> Candidate(prefix, k, mask) in usedIPs;
  }

  /** `left + [c] + x == right + [c] + y` with `c` in neither left part
      forces the left parts to be equal. */
  lemma SameBeforeFirst(left: string, x: string, right: string, y: string, c: char)
    requires c !in left && c !in right
    requires left + [c] + x == right + [c] + y
    ensures left == right
  {
    SplitAround(left, x, c);
    SplitAround(right, y, c);
    SplitWithoutSeparator(left, c);
    SplitWithoutSeparator(right, c);
  }

  /** Distinct host numbers give distinct candidates. */
  lemma CandidateInjective(prefix: string, mask: string, g: nat, h: nat)
    requires Candidate(prefix, g, mask) == Candidate(prefix, h, mask)
    ensures g == h
  {
    var dg := NatToDecimal(g);
    var dh := NatToDecimal(h);
    var cg := Candidate(prefix, g, mask);
    assert cg == prefix + "." + (dg + "/" + mask);
    assert Candidate(prefix, h, mask) == prefix + "." + (dh + "/" + mask);
    assert dg + "/" + mask == cg[|prefix| + 1..];
    assert '/' !in dg && '/' !in dh;
    SameBeforeFirst(dg, mask, dh, mask, '/');
    DecimalInjective(g, h);
  }

  /** The candidate for host `top` is none of the candidates below it. */
  lemma NewCandidate(prefix: string, mask: string, below: set<string>, top: nat)
    requires forall a :: a in below ==> exists h :: FirstHost <= h < top && a == Candidate(prefix, h, mask)
    ensures Candidate(prefix, top, mask) !in below
  {
    forall a | a in below ensures a != Candidate(prefix, top, mask) {
      var h :| FirstHost <= h < top && a == Candidate(prefix, h, mask);
      if a == Candidate(prefix, top, mask) {
        CandidateInjective(prefix, mask, h, top);
      }
    }
  }

  /** The candidates for host numbers below `limit`. */
  function CandidatesBelow(prefix: string, mask: string, limit: nat): (cs: set<string>)
    requires FirstHost <= limit
    ensures |cs| == limit - FirstHost
    ensures forall h :: FirstHost <= h < limit ==> Candidate(prefix, h, mask) in cs
    ensures forall a :: a in cs ==> exists h :: FirstHost <= h < limit && a == Candidate(prefix, h, mask)
    decreases limit
  {
    if limit == FirstHost then {}
    else
      var smaller := CandidatesBelow(prefix, mask, limit - 1);
      var c := Candidate(prefix, limit - 1, mask);
      NewCandidate(prefix, mask, smaller, limit - 1);
      smaller + {c}
  }

  /** The allocator gives up only when at least 253 distinct used
      addresses cover the whole host range. */
  lemma ExhaustionNeedsAllHosts(subnet: string, usedIPs: seq<string>)
    requires FindAvailableIP(subnet, usedIPs).None?
    ensures |set a | a in usedIPs| >= LastHost - FirstHost + 1
  {
    var all := CandidatesBelow(SubnetPrefix(subnet), SubnetMask(subnet), LastHost + 1);
    var used := set a | a in usedIPs;
    assert all <= used;
    SubsetCardinality(all, used);
  }

  lemma SubsetCardinality<T>(a: set<T>, b: set<T>)
    requires a <= b
    ensures |a| <= |b|
  {
    assert b == a + (b - a);
  }

  /** An address read back into its parts: the `.`-fields before the host
      number, the host number and the mask. */
  datatype Address = Address(prefixFields: seq<string>, host: nat, mask: string)

  /** Splits `address` on `/` into address and mask, then the address on
      `.` into prefix fields and a decimal host number. */
  function ParseAddress(address: string): Option<Address> {
    var halves := Split(address, '/');
    if |halves| != 2 then None
    else
      var octets := Split(halves[0], '.');
      var last := octets[|octets| - 1];
      if |last| == 0 || !AllDigits(last) then None
      else Some(Address(octets[..|octets| - 1], DecimalValue(last), halves[1]))
  }

  /** Parsing a candidate gives back the fields, host and mask it was
      built from. */
  lemma {:induction false} ParseCandidate(fields: seq<string>, host: nat, mask: string)
    requires |fields| >= 1
    requires forall i :: 0 <= i < |fields| ==> '.' !in fields[i] && '/' !in fields[i]
    requires '/' !in mask
    ensures ParseAddress(Candidate(Join(fields, '.'), host, mask)) == Some(Address(fields, host, mask))
  {
    var prefix := Join(fields, '.');
    var digits := NatToDecimal(host);
    var left := prefix + "." + digits;
    assert Candidate(prefix, host, mask) == left + "/" + mask;
    assert '/' !in prefix by {
      if '/' in prefix {
        JoinCharacters(fields, '.', '/');
      }
    }
    assert '/' !in left;
    SplitAround(left, mask, '/');
    SplitWithoutSeparator(left, '/');
    SplitWithoutSeparator(mask, '/');
    assert Split(left + "/" + mask, '/') == [left, mask];
    SplitAround(prefix, digits, '.');
    SplitJoin(fields, '.');
    SplitWithoutSeparator(digits, '.');
    var octets := Split(left, '.');
    assert octets == fields + [digits];
    assert octets[..|octets| - 1] == fields;
    DecimalRoundTrip(host);
  }

  /** A free address parses back into the subnet's first (at most three)
      `.`-fields, a host number in 2..254 and the subnet's mask field. */
  lemma AllocationFormat(subnet: string, usedIPs: seq<string>)
    requires FindAvailableIP(subnet, usedIPs).Some?
    ensures var parsed := ParseAddress(FindAvailableIP(subnet, usedIPs).value);
            parsed.Some?
            && parsed.value.prefixFields == PrefixFields(subnet)
            && parsed.value.mask == SubnetMask(subnet)
            && FirstHost <= parsed.value.host <= LastHost
  {
    var address := FindAvailableIP(subnet, usedIPs).value;
    var h :| FirstHost <= h <= LastHost && address == Candidate(SubnetPrefix(subnet), h, SubnetMask(subnet));
    ParseCandidate(PrefixFields(subnet), h, SubnetMask(subnet));
  }

  /** Recording the allocated address as used moves the next allocation
      strictly past it: sequential allocations never repeat an address. */
  lemma AllocationAdvances(subnet: string, usedIPs: seq<string>)
    requires FindAvailableIP(subnet, usedIPs).Some?
    ensures var address := FindAvailableIP(subnet, usedIPs).value;
            var next := FindAvailableIP(subnet, usedIPs + [address]);
            next != Some(address)
            && (next.Some? ==> next.value !in usedIPs)
  {
  }

  lemma DefaultSubnetHalves()
    ensures Split(DefaultSubnet, '/') == ["10.200.200.0", "32"]
  {
    assert DefaultSubnet == Join(["10.200.200.0", "32"], '/');
    SplitJoin(["10.200.200.0", "32"], '/');
  }

  lemma DefaultBaseOctets()
    ensures Split("10.200.200.0", '.') == ["10", "200", "200", "0"]
  {
    assert "10.200.200.0" == Join(["10", "200", "200", "0"], '.');
    SplitJoin(["10", "200", "200", "0"], '.');
  }

  lemma DefaultPrefixFields()
    ensures PrefixFields(DefaultSubnet) == ["10", "200", "200"]
  {
    DefaultSubnetHalves();
    DefaultBaseOctets();
  }

  lemma DefaultPrefixJoin()
    ensures Join(["10", "200", "200"], '.') == "10.200.200"
  {
  }

  /** The default subnet's prefix is "10.200.200" and its mask "32". */
  lemma DefaultSubnetParts()
    ensures SubnetPrefix(DefaultSubnet) == "10.200.200"
    ensures SubnetMask(DefaultSubnet) == "32"
  {
    DefaultPrefixFields();
    DefaultPrefixJoin();
    DefaultSubnetHalves();
  }

  lemma ScanTwoUsed()
    ensures ScanFrom("10.200.200", "32", ["10.200.200.2/32", "10.200.200.3/32"], FirstHost)
            == Some("10.200.200.4/32")
  {
    var used := ["10.200.200.2/32", "10.200.200.3/32"];
    assert Candidate("10.200.200", 2, "32") == used[0];
    assert Candidate("10.200.200", 3, "32") == used[1];
    assert Candidate("10.200.200", 4, "32") == "10.200.200.4/32";
    assert "10.200.200.4/32" !in used;
  }

  /** Two addresses in use, the next one is handed out. */
  lemma ScenarioTwoUsed()
    ensures FindAvailableIP(DefaultSubnet, ["10.200.200.2/32", "10.200.200.3/32"])
            == Some("10.200.200.4/32")
  {
    DefaultSubnetParts();
    ScanTwoUsed();
  }

  /** Listing every candidate exhausts the subnet, in whatever order. */
  lemma ScenarioAllUsed(subnet: string, usedIPs: seq<string>)
    requires forall h :: FirstHost <= h <= LastHost ==> Candidate(SubnetPrefix(subnet), h, SubnetMask(subnet)) in usedIPs
    ensures FindAvailableIP(subnet, usedIPs) == None
  {
  }
}
