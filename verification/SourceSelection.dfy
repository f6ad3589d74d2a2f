/** Route lookup and source address selection on one interface (section 5 of RFC 6724). */
module SourceSelection {
  import opened Wrappers
  import opened Bytes

  /** Four octets for IPv4, sixteen for IPv6; mapped addresses have been unmapped. */
  type Address = seq<Byte>

  predicate IsAddress(a: Address) { |a| == 4 || |a| == 16 }

  predicate SameFamily(a: Address, b: Address) { |a| == |b| }

  // ---------------------------------------------------------------- classification

  predicate IsLoopback(a: Address)
    requires IsAddress(a)
  {
    if |a| == 4 then a[0] == 127 else a == Zeros(15) + [1]
  }

  predicate IsMulticast(a: Address)
    requires IsAddress(a)
  {
    if |a| == 4 then a[0] / 16 == 14 else a[0] == 0xFF
  }

  predicate IsLinkLocal(a: Address)
    requires IsAddress(a)
  {
    if |a| == 4 then a[0] == 169 && a[1] == 254 else a[0] == 0xFE && a[1] / 64 == 2
  }

  /** The RFC 6724 scope; the values are those of the IPv6 multicast scope field. */
  function Scope(a: Address): (s: nat)
    requires IsAddress(a)
  {
    if IsLoopback(a) then 2
    else if IsMulticast(a) then
      if |a| == 16 then a[1] % 16
      else if a[0] == 224 && a[1] == 0 && a[2] == 0 then 2
      else if a[0] == 239 && a[1] == 255 then 3
      else if a[0] == 239 && a[1] / 4 == 48 then 8
      else 14
    else if IsLinkLocal(a) then 2
    else if |a| == 16 && a[0] == 0xFE && a[1] / 64 == 3 then 5
    else 14
  }

  /** The default policy table's label. */
  function Label(a: Address): (l: nat)
    requires IsAddress(a)
  {
    if |a| == 4 then 4
    else if IsLoopback(a) then 0
    else if a[0] == 0x20 && a[1] == 0x02 then 2
    else if a[0] == 0x20 && a[1] == 0x01 && a[2] == 0 && a[3] == 0 then 5
    else if a[0] / 2 == 0x7E then 13
    else if a[0] == 0xFE && a[1] / 64 == 3 then 11
    else if a[0] == 0x3F && a[1] == 0xFE then 12
    else if a[..12] == Zeros(12) then 3
    else 1
  }

  // ---------------------------------------------------------------- common prefixes

  /** Bit `k` of an octet, most significant first. */
  function OctetBit(b: Byte, k: nat): (v: nat)
    requires k < 8
  {
    if k == 0 then b / 128 % 2 else if k == 1 then b / 64 % 2 else if k == 2 then b / 32 % 2 else if k == 3 then b / 16 % 2
    else if k == 4 then b / 8 % 2 else if k == 5 then b / 4 % 2 else if k == 6 then b / 2 % 2 else b % 2
  }

  /** Bit `i` of an address. */
  function Bit(a: Address, i: nat): (v: nat)
    requires i < 8 * |a|
  {
    OctetBit(a[i / 8], i % 8)
  }

  lemma OctetIsItsBits(x: Byte)
    ensures x == OctetBit(x, 0) * 128 + OctetBit(x, 1) * 64 + OctetBit(x, 2) * 32 + OctetBit(x, 3) * 16
      + OctetBit(x, 4) * 8 + OctetBit(x, 5) * 4 + OctetBit(x, 6) * 2 + OctetBit(x, 7)
  {
    assert x / 128 < 2;
    assert x / 64 == x / 128 * 2 + x / 64 % 2;
    assert x / 32 == x / 64 * 2 + x / 32 % 2;
    assert x / 16 == x / 32 * 2 + x / 16 % 2;
    assert x / 8 == x / 16 * 2 + x / 8 % 2;
    assert x / 4 == x / 8 * 2 + x / 4 % 2;
    assert x / 2 == x / 4 * 2 + x / 2 % 2;
    assert x == x / 2 * 2 + x % 2;
  }

  lemma BitsMakeOctet(x: Byte, y: Byte)
    requires forall k: nat :: k < 8 ==> OctetBit(x, k) == OctetBit(y, k)
    ensures x == y
  {
    OctetIsItsBits(x);
    OctetIsItsBits(y);
  }

  /** How many leading bits agree, counted octet by octet. */
  function Agreement(a: Address, b: Address, at: nat): (n: nat)
    requires |a| == |b| && at <= |a|
    decreases |a| - at
  {
    if at == |a| then 0
    else if a[at] == b[at] then 8 + Agreement(a, b, at + 1)
    else OctetAgreement(a[at], b[at], 0)
  }

  function OctetAgreement(x: Byte, y: Byte, k: nat): (n: nat)
    requires k <= 8
    decreases 8 - k
  {
    if k == 8 || OctetBit(x, k) != OctetBit(y, k) then 0 else 1 + OctetAgreement(x, y, k + 1)
  }

  lemma {:induction false} OctetAgreementMeans(x: Byte, y: Byte, k: nat)
    requires k <= 8
    ensures var n := OctetAgreement(x, y, k);
      && k + n <= 8 && (forall j: nat :: k <= j < k + n ==> OctetBit(x, j) == OctetBit(y, j))
      && (k + n < 8 ==> OctetBit(x, k + n) != OctetBit(y, k + n))
    decreases 8 - k
  {
    if k < 8 && OctetBit(x, k) == OctetBit(y, k) {
      OctetAgreementMeans(x, y, k + 1);
    }
  }

  /** The count stops exactly at the first bit that differs. */
  lemma {:induction false} AgreementMeans(a: Address, b: Address, at: nat)
    requires |a| == |b| && at <= |a|
    ensures var n := Agreement(a, b, at);
      && 8 * at + n <= 8 * |a|
      && (forall i: nat :: 8 * at <= i < 8 * at + n ==> Bit(a, i) == Bit(b, i))
      && (8 * at + n < 8 * |a| ==> Bit(a, 8 * at + n) != Bit(b, 8 * at + n))
    decreases |a| - at
  {
    if at < |a| {
      if a[at] == b[at] {
        AgreementMeans(a, b, at + 1);
        forall i: nat | 8 * at <= i < 8 * at + 8 ensures Bit(a, i) == Bit(b, i) {
          assert i / 8 == at;
        }
      } else {
        var n := OctetAgreement(a[at], b[at], 0);
        OctetAgreementMeans(a[at], b[at], 0);
        if n == 8 {
          BitsMakeOctet(a[at], b[at]);
        }
        forall i: nat | 8 * at <= i < 8 * at + n + 1 && n < 8 ensures Bit(a, i) == OctetBit(a[at], i - 8 * at) && Bit(b, i) == OctetBit(b[at], i - 8 * at) {
          assert i / 8 == at && i % 8 == i - 8 * at;
        }
      }
    }
  }

  /** RFC 6724 rule 8: common bits, no further than the source's own prefix. */
  function CommonPrefix(source: Address, destination: Address, limit: nat): (n: nat) {
    if |source| != |destination| then 0
    else if Agreement(source, destination, 0) > limit then limit else Agreement(source, destination, 0)
  }

  method CommonPrefixBits(left: Address, right: Address, limit: int) returns (result: nat)
    ensures result == CommonPrefix(left, right, if limit > 0 then limit else 0)
  {
    if |left| != |right| || limit <= 0 {
      return 0;
    }
    result := 0;
    for at := 0 to |left|
      invariant result + Agreement(left, right, at) == Agreement(left, right, 0)
    {
      if left[at] == right[at] {
        result := result + 8;
      } else {
        var k := 0;
        AgreementMeans(left, right, at);
        OctetAgreementMeans(left[at], right[at], 0);
        while k < 8 && OctetBit(left[at], k) == OctetBit(right[at], k)
          invariant k <= 8 && result + OctetAgreement(left[at], right[at], k) == Agreement(left, right, 0)
        {
          result, k := result + 1, k + 1;
        }
        break;
      }
    }
    if result > limit {
      return limit;
    }
  }

  // ---------------------------------------------------------------- the order

  datatype Properties = Properties(deprecated: bool, temporary: bool)

  /** One configured address with the longest of its prefixes. */
  datatype Candidate = Candidate(address: Address, bits: nat)

  /** What the rules consult besides the two candidates. */
  datatype Policy = Policy(destination: Address, properties: map<Address, Properties>, preferTemporary: bool)

  function PropertiesOf(p: Policy, a: Address): Properties {
    if a in p.properties then p.properties[a] else Properties(false, false)
  }

  /** The rules in their order; `false` leaves the current address in place. */
  predicate PreferSource(p: Policy, candidate: Candidate, current: Candidate)
    requires IsAddress(p.destination) && IsAddress(candidate.address) && IsAddress(current.address)
  {
    if candidate.address == p.destination || current.address == p.destination then candidate.address == p.destination
    else
      var scope := Scope(candidate.address);
      var currentScope := Scope(current.address);
      var wanted := Scope(p.destination);
      if scope != currentScope then
        if (scope >= wanted) != (currentScope >= wanted) then scope >= wanted
        else if scope >= wanted then scope < currentScope
        else scope > currentScope
      else
        var properties := PropertiesOf(p, candidate.address);
        var currentProperties := PropertiesOf(p, current.address);
        var match_ := Label(candidate.address) == Label(p.destination);
        var currentMatch := Label(current.address) == Label(p.destination);
        if properties.deprecated != currentProperties.deprecated then !properties.deprecated
        else if match_ != currentMatch then match_
        else if properties.temporary != currentProperties.temporary then properties.temporary == p.preferTemporary
        else CommonPrefix(candidate.address, p.destination, candidate.bits) > CommonPrefix(current.address, p.destination, current.bits)
  }

  /** The rank of one address by itself, as a list to be compared lexicographically, smaller first. */
  function Rank(p: Policy, c: Candidate): (r: seq<int>)
    requires IsAddress(p.destination) && IsAddress(c.address)
    ensures |r| == 6
  {
    var fits := Scope(c.address) >= Scope(p.destination);
    var properties := PropertiesOf(p, c.address);
    [if c.address == p.destination then 0 else 1,
     if fits then Scope(c.address) else 1000 - Scope(c.address),
     if properties.deprecated then 1 else 0,
     if Label(c.address) == Label(p.destination) then 0 else 1,
     if properties.temporary == p.preferTemporary then 0 else 1,
     0 - CommonPrefix(c.address, p.destination, c.bits) as int]
  }

  predicate Less(a: seq<int>, b: seq<int>)
    requires |a| == |b|
    decreases |a|
  {
    |a| > 0 && (a[0] < b[0] || (a[0] == b[0] && Less(a[1..], b[1..])))
  }

  lemma ScopeIsSmall(a: Address)
    requires IsAddress(a)
    ensures Scope(a) <= 15
  {
  }

  lemma LessOfSix(a: seq<int>, b: seq<int>)
    requires |a| == |b| == 6
    ensures Less(a, b) <==>
      || a[0] < b[0]
      || (a[0] == b[0] && a[1] < b[1])
      || (a[0] == b[0] && a[1] == b[1] && a[2] < b[2])
      || (a[0] == b[0] && a[1] == b[1] && a[2] == b[2] && a[3] < b[3])
      || (a[0] == b[0] && a[1] == b[1] && a[2] == b[2] && a[3] == b[3] && a[4] < b[4])
      || (a[0] == b[0] && a[1] == b[1] && a[2] == b[2] && a[3] == b[3] && a[4] == b[4] && a[5] < b[5])
  {
    var a1, b1 := a[1..], b[1..];
    var a2, b2 := a1[1..], b1[1..];
    var a3, b3 := a2[1..], b2[1..];
    var a4, b4 := a3[1..], b3[1..];
    var a5, b5 := a4[1..], b4[1..];
    assert Less(a, b) <==> a[0] < b[0] || (a[0] == b[0] && Less(a1, b1));
    assert Less(a1, b1) <==> a1[0] < b1[0] || (a1[0] == b1[0] && Less(a2, b2));
    assert Less(a2, b2) <==> a2[0] < b2[0] || (a2[0] == b2[0] && Less(a3, b3));
    assert Less(a3, b3) <==> a3[0] < b3[0] || (a3[0] == b3[0] && Less(a4, b4));
    assert Less(a4, b4) <==> a4[0] < b4[0] || (a4[0] == b4[0] && Less(a5, b5));
    assert Less(a5, b5) <==> a5[0] < b5[0];
  }

  /** The pairwise rules are the comparison of ranks: on distinct addresses they form a strict weak order. */
  lemma RulesCompareRanks(p: Policy, a: Candidate, b: Candidate)
    requires IsAddress(p.destination) && IsAddress(a.address) && IsAddress(b.address) && a.address != b.address
    ensures PreferSource(p, a, b) <==> Less(Rank(p, a), Rank(p, b))
  {
    ScopeIsSmall(a.address);
    ScopeIsSmall(b.address);
    ScopeIsSmall(p.destination);
    LessOfSix(Rank(p, a), Rank(p, b));
  }

  lemma {:induction false} LessIsStrictWeak(a: seq<int>, b: seq<int>, c: seq<int>)
    requires |a| == |b| == |c|
    ensures !(Less(a, b) && Less(b, a))
    ensures Less(a, b) && Less(b, c) ==> Less(a, c)
    ensures !Less(a, b) && !Less(b, a) ==> a == b
    decreases |a|
  {
    if |a| > 0 {
      LessIsStrictWeak(a[1..], b[1..], c[1..]);
      assert a == [a[0]] + a[1..] && b == [b[0]] + b[1..];
    }
  }

  /** Preference is asymmetric and transitive, and so is being tied: neither beats the other. */
  lemma PreferenceIsStrictWeakOrder(p: Policy, a: Candidate, b: Candidate, c: Candidate)
    requires IsAddress(p.destination) && IsAddress(a.address) && IsAddress(b.address) && IsAddress(c.address)
    requires a.address != b.address && b.address != c.address && a.address != c.address
    ensures !(PreferSource(p, a, b) && PreferSource(p, b, a))
    ensures PreferSource(p, a, b) && PreferSource(p, b, c) ==> PreferSource(p, a, c)
    ensures (!PreferSource(p, a, b) && !PreferSource(p, b, a)) && (!PreferSource(p, b, c) && !PreferSource(p, c, b))
      ==> !PreferSource(p, a, c) && !PreferSource(p, c, a)
  {
    RulesCompareRanks(p, a, b);
    RulesCompareRanks(p, b, a);
    RulesCompareRanks(p, b, c);
    RulesCompareRanks(p, c, b);
    RulesCompareRanks(p, a, c);
    RulesCompareRanks(p, c, a);
    LessIsStrictWeak(Rank(p, a), Rank(p, b), Rank(p, c));
    LessIsStrictWeak(Rank(p, b), Rank(p, c), Rank(p, a));
  }

  // ---------------------------------------------------------------- the configured addresses

  /** The longest prefix configured for an address. */
  function LongestOf(entries: seq<Candidate>, a: Address): (bits: int) {
    if entries == [] then -1
    else
      var rest := LongestOf(entries[..|entries| - 1], a);
      var last := entries[|entries| - 1];
      if last.address == a && last.bits > rest then last.bits else rest
  }

  /** One source per configured address, with its longest prefix. */
  ghost predicate Sources(entries: seq<Candidate>, sources: seq<Address>, bits: seq<int>) {
    && |sources| == |bits|
    && (forall i, j :: 0 <= i < j < |sources| ==> sources[i] != sources[j])
    && (forall i :: 0 <= i < |sources| ==> bits[i] == LongestOf(entries, sources[i]))
    && (forall a :: a in sources <==> LongestOf(entries, a) >= 0)
  }

  /** The first mention of `a` comes before any of `b`. */
  predicate MentionedBefore(entries: seq<Candidate>, a: Address, b: Address) {
    exists m :: 0 <= m < |entries| && entries[m].address == a && forall n :: 0 <= n <= m ==> entries[n].address != b
  }

  /** The addresses stand in the order of their first mentions. */
  predicate InOrder(entries: seq<Candidate>, sources: seq<Address>) {
    forall i, j :: 0 <= i < j < |sources| ==> MentionedBefore(entries, sources[i], sources[j])
  }

  lemma InOrderGrows(entries: seq<Candidate>, sources: seq<Address>, e: Candidate)
    requires InOrder(entries, sources)
    ensures InOrder(entries + [e], sources)
    ensures (forall a :: a in sources ==> exists c :: c in entries && c.address == a) && (forall c :: c in entries ==> c.address != e.address)
      ==> InOrder(entries + [e], sources + [e.address])
  {
    var more := entries + [e];
    forall i, j | 0 <= i < j < |sources| ensures MentionedBefore(more, sources[i], sources[j]) {
      var m :| 0 <= m < |entries| && entries[m].address == sources[i] && forall n :: 0 <= n <= m ==> entries[n].address != sources[j];
      assert more[m].address == sources[i] && forall n :: 0 <= n <= m ==> more[n] == entries[n];
    }
    if (forall a :: a in sources ==> exists c :: c in entries && c.address == a) && (forall c :: c in entries ==> c.address != e.address) {
      forall i | 0 <= i < |sources| ensures MentionedBefore(more, sources[i], e.address) {
        assert sources[i] in sources;
        var c :| c in entries && c.address == sources[i];
        var m :| 0 <= m < |entries| && entries[m] == c;
        assert more[m].address == sources[i] && forall n :: 0 <= n <= m ==> more[n] == entries[n] && entries[n] in entries;
      }
      assert (sources + [e.address])[..|sources|] == sources;
    }
  }

  lemma {:induction false} LongestMeans(entries: seq<Candidate>, a: Address)
    ensures forall e :: e in entries && e.address == a ==> e.bits <= LongestOf(entries, a)
    ensures LongestOf(entries, a) >= 0 ==> exists e :: e in entries && e.address == a && e.bits == LongestOf(entries, a)
    ensures LongestOf(entries, a) >= -1 && ((forall e :: e in entries ==> e.address != a) ==> LongestOf(entries, a) == -1)
    decreases |entries|
  {
    if entries != [] {
      var front, last := entries[..|entries| - 1], entries[|entries| - 1];
      LongestMeans(front, a);
      assert entries == front + [last];
      if LongestOf(entries, a) >= 0 && LongestOf(entries, a) == LongestOf(front, a) {
        var e :| e in front && e.address == a && e.bits == LongestOf(front, a);
        assert e in entries;
      }
    }
  }

  /** The order and repetition of the configured prefixes do not matter to the prefix an address carries. */
  lemma PrefixOrderDoesNotMatter(entries: seq<Candidate>, others: seq<Candidate>, a: Address)
    requires forall e :: e in entries <==> e in others
    ensures LongestOf(entries, a) == LongestOf(others, a)
  {
    LongestMeans(entries, a);
    LongestMeans(others, a);
  }

  lemma LongestGrows(entries: seq<Candidate>, e: Candidate)
    ensures forall a ::
      LongestOf(entries + [e], a) == if e.address == a && e.bits > LongestOf(entries, a) then e.bits else LongestOf(entries, a)
  {
    assert (entries + [e])[..|entries|] == entries;
  }

  /** The loop over the configured prefixes, in the order the addresses first appear. */
  method BuildSources(entries: seq<Candidate>) returns (sources: seq<Address>, bits: seq<int>)
    ensures Sources(entries, sources, bits) && InOrder(entries, sources)
  {
    sources, bits := [], [];
    for k := 0 to |entries|
      invariant Sources(entries[..k], sources, bits) && InOrder(entries[..k], sources)
    {
      sources, bits := AddEntry(entries[..k], sources, bits, entries[k]);
      assert entries[..k + 1] == entries[..k] + [entries[k]];
    }
    assert entries[..|entries|] == entries;
  }

  /** Adds one prefix: a new address at the end, or a longer prefix for one already there. */
  method AddEntry(ghost entries: seq<Candidate>, sources: seq<Address>, bits: seq<int>, e: Candidate) returns (addresses: seq<Address>, longest: seq<int>)
    requires Sources(entries, sources, bits) && InOrder(entries, sources)
    ensures Sources(entries + [e], addresses, longest) && InOrder(entries + [e], addresses)
  {
    LongestGrows(entries, e);
    LongestMeans(entries, e.address);
    InOrderGrows(entries, sources, e);
    if e.address !in sources {
      forall a | a in sources ensures exists c :: c in entries && c.address == a {
        LongestMeans(entries, a);
      }
      return sources + [e.address], bits + [e.bits];
    }
    addresses, longest := sources, bits;
    var i := 0;
    while sources[i] != e.address
      invariant 0 <= i < |sources| && e.address in sources[i..]
      decreases |sources| - i
    {
      i := i + 1;
    }
    if e.bits > bits[i] {
      longest := bits[i := e.bits];
    }
  }

  // ---------------------------------------------------------------- the scan

  /** The scan's answer: of the destination's family, beaten by no other candidate, and before every one it ties with. */
  ghost predicate Best(p: Policy, sources: seq<Candidate>, i: nat)
    requires IsAddress(p.destination) && forall c :: c in sources ==> IsAddress(c.address)
  {
    && i < |sources| && SameFamily(sources[i].address, p.destination)
    && (forall j :: 0 <= j < |sources| && j != i && SameFamily(sources[j].address, p.destination) ==>
          !PreferSource(p, sources[j], sources[i]))
    && (forall j :: 0 <= j < i && SameFamily(sources[j].address, p.destination) ==> PreferSource(p, sources[i], sources[j]))
  }

  /** One pass keeps a running best; with a strict weak order that is enough. */
  method Scan(p: Policy, sources: seq<Candidate>) returns (selected: Option<nat>)
    requires IsAddress(p.destination) && forall c :: c in sources ==> IsAddress(c.address)
    requires forall i, j :: 0 <= i < j < |sources| ==> sources[i].address != sources[j].address
    ensures selected.None? <==> forall c :: c in sources ==> !SameFamily(c.address, p.destination)
    ensures selected.Some? ==> Best(p, sources, selected.value)
  {
    selected := None;
    for k := 0 to |sources|
      invariant selected.None? <==> forall j :: 0 <= j < k ==> !SameFamily(sources[j].address, p.destination)
      invariant selected.Some? ==> selected.value < k && Best(p, sources[..k], selected.value)
    {
      var candidate := sources[k];
      if SameFamily(candidate.address, p.destination) {
        if selected.None? {
          assert Best(p, sources[..k + 1], k);
          selected := Some(k);
        } else {
          ScanStep(p, sources, k, selected.value);
          if PreferSource(p, candidate, sources[selected.value]) {
            selected := Some(k);
          }
        }
      } else if selected.Some? {
        ScanSkip(p, sources, k, selected.value);
      }
    }
    assert sources[..|sources|] == sources;
    if selected.None? {
      forall c | c in sources ensures !SameFamily(c.address, p.destination) {
        var j :| 0 <= j < |sources| && sources[j] == c;
      }
    } else {
      assert sources[selected.value] in sources;
    }
  }

  lemma ScanSkip(p: Policy, sources: seq<Candidate>, k: nat, best: nat)
    requires IsAddress(p.destination) && forall c :: c in sources ==> IsAddress(c.address)
    requires k < |sources| && best < k && Best(p, sources[..k], best) && !SameFamily(sources[k].address, p.destination)
    ensures Best(p, sources[..k + 1], best)
  {
  }

  /** What beats the running best beats everything the running best is not beaten by. */
  lemma BeatsAll(p: Policy, a: Candidate, b: Candidate, c: Candidate)
    requires IsAddress(p.destination) && IsAddress(a.address) && IsAddress(b.address) && IsAddress(c.address)
    requires a.address != b.address && a.address != c.address && b.address != c.address
    requires PreferSource(p, a, b) && !PreferSource(p, c, b)
    ensures PreferSource(p, a, c) && !PreferSource(p, c, a)
  {
    RulesCompareRanks(p, a, b);
    RulesCompareRanks(p, c, b);
    RulesCompareRanks(p, a, c);
    RulesCompareRanks(p, c, a);
    LessIsStrictWeak(Rank(p, b), Rank(p, c), Rank(p, a));
    LessIsStrictWeak(Rank(p, a), Rank(p, b), Rank(p, c));
    LessIsStrictWeak(Rank(p, a), Rank(p, c), Rank(p, b));
  }

  lemma ScanStep(p: Policy, sources: seq<Candidate>, k: nat, best: nat)
    requires IsAddress(p.destination) && forall c :: c in sources ==> IsAddress(c.address)
    requires forall i, j :: 0 <= i < j < |sources| ==> sources[i].address != sources[j].address
    requires k < |sources| && best < k && Best(p, sources[..k], best) && SameFamily(sources[k].address, p.destination)
    ensures Best(p, sources[..k + 1], if PreferSource(p, sources[k], sources[best]) then k else best)
  {
    if PreferSource(p, sources[k], sources[best]) {
      RulesCompareRanks(p, sources[k], sources[best]);
      RulesCompareRanks(p, sources[best], sources[k]);
      LessIsStrictWeak(Rank(p, sources[k]), Rank(p, sources[best]), Rank(p, sources[k]));
      forall j | 0 <= j < k && SameFamily(sources[j].address, p.destination)
        ensures PreferSource(p, sources[k], sources[j]) && !PreferSource(p, sources[j], sources[k]) {
        if j != best {
          BeatsAll(p, sources[k], sources[best], sources[j]);
        }
      }
    }
  }

  /** The scan has one answer. */
  lemma BestIsUnique(p: Policy, sources: seq<Candidate>, i: nat, j: nat)
    requires IsAddress(p.destination) && forall c :: c in sources ==> IsAddress(c.address)
    requires Best(p, sources, i) && Best(p, sources, j)
    ensures i == j
  {
  }

  /** Two configurations with the same candidates select addresses of the same rank, in whatever order they list them. */
  lemma OrderDecidesOnlyTies(p: Policy, sources: seq<Candidate>, others: seq<Candidate>, i: nat, j: nat)
    requires IsAddress(p.destination) && forall c :: c in sources ==> IsAddress(c.address)
    requires forall c :: c in sources <==> c in others
    requires forall i, j :: 0 <= i < |sources| && 0 <= j < |sources| && sources[i].address == sources[j].address ==> sources[i] == sources[j]
    requires Best(p, sources, i) && Best(p, others, j)
    ensures Rank(p, sources[i]) == Rank(p, others[j])
  {
    var a, b := sources[i], others[j];
    assert b in sources && a in others;
    if a.address != b.address {
      var k :| 0 <= k < |sources| && sources[k] == b;
      var l :| 0 <= l < |others| && others[l] == a;
      RulesCompareRanks(p, b, a);
      RulesCompareRanks(p, a, b);
      LessIsStrictWeak(Rank(p, a), Rank(p, b), Rank(p, a));
    } else {
      var k :| 0 <= k < |sources| && sources[k] == b;
      assert sources[k] == sources[i];
    }
  }

  // ---------------------------------------------------------------- routes

  datatype Prefix = Prefix(address: Address, bits: nat)

  datatype Route = Route(destination: Prefix, source: Option<Address>, metric: nat)

  predicate Matches(r: Route, d: Address) {
    SameFamily(r.destination.address, d) && Agreement(r.destination.address, d, 0) >= r.destination.bits
  }

  /** Longer prefixes first, then lower metrics. */
  predicate BetterRoute(a: Route, b: Route) {
    a.destination.bits > b.destination.bits || (a.destination.bits == b.destination.bits && a.metric < b.metric)
  }

  /** The first of the matching routes that no other matching route is better than. */
  ghost predicate BestRoute(routes: seq<Route>, d: Address, i: nat) {
    && i < |routes| && Matches(routes[i], d)
    && (forall j :: 0 <= j < |routes| && Matches(routes[j], d) ==> !BetterRoute(routes[j], routes[i]))
    && (forall j :: 0 <= j < i && Matches(routes[j], d) ==> BetterRoute(routes[i], routes[j]))
  }

  method RouteFor(local: set<Address>, routes: seq<Route>, d: Address) returns (route: Option<Route>)
    ensures d in local ==> route == Some(Route(Prefix(d, 8 * |d|), Some(d), 0))
    ensures d !in local ==> (route.None? <==> forall r :: r in routes ==> !Matches(r, d))
    ensures d !in local && route.Some? ==> exists i: nat :: BestRoute(routes, d, i) && routes[i] == route.value
  {
    if d in local {
      return Some(Route(Prefix(d, 8 * |d|), Some(d), 0));
    }
    var selected := -1;
    for k := 0 to |routes|
      invariant -1 <= selected < k
      invariant selected < 0 ==> forall j :: 0 <= j < k ==> !Matches(routes[j], d)
      invariant selected >= 0 ==> BestRoute(routes[..k], d, selected)
    {
      if Matches(routes[k], d) && (selected < 0 || BetterRoute(routes[k], routes[selected])) {
        selected := k;
      }
    }
    assert routes[..|routes|] == routes;
    if selected >= 0 {
      assert BestRoute(routes, d, selected) && routes[selected] in routes;
      return Some(routes[selected]);
    }
    return None;
  }

  // ---------------------------------------------------------------- the whole choice

  datatype Choice = Chosen(source: Address) | Failed(error: Error)

  /** What one configuration offers to output. */
  datatype Network = Network(sources: seq<Candidate>, routes: seq<Route>, properties: map<Address, Properties>, preferTemporary: bool)

  function LocalOf(n: Network): (local: set<Address>) {
    set c | c in n.sources :: c.address
  }

  predicate IsUnspecified(a: Address) { a == Zeros(|a|) }

  predicate GoodNetwork(n: Network) {
    && (forall c :: c in n.sources ==> IsAddress(c.address))
    && (forall i, j :: 0 <= i < j < |n.sources| ==> n.sources[i].address != n.sources[j].address)
  }

  /** Selects the source for one unicast destination; `requested` is what the caller bound, if anything. */
  method SourceForUnicast(n: Network, d: Address, requested: Option<Address>) returns (r: Choice)
    requires GoodNetwork(n) && IsAddress(d) && (requested.Some? ==> IsAddress(requested.value))
    ensures IsUnspecified(d) || IsMulticast(d) ==> r == Failed(Invalid)
    ensures var asked := requested.Some? && !IsUnspecified(requested.value);
      var usable := !IsUnspecified(d) && !IsMulticast(d);
      var routed := d in LocalOf(n) || (!IsLoopback(d) && exists x :: x in n.routes && Matches(x, d));
      && (usable && !routed ==> r == Failed(Unreachable))
      && (usable && routed && asked ==> r == (if |requested.value| != |d| then Failed(WrongFamily)
            else if requested.value !in LocalOf(n) then Failed(NotAvailable) else Chosen(requested.value)))
      && (usable && routed && !asked && d in LocalOf(n) ==> r == Chosen(d))
      && (usable && routed && !asked && d !in LocalOf(n) ==>
            exists i: nat :: BestRoute(n.routes, d, i) &&
              if n.routes[i].source.Some? then r == Chosen(n.routes[i].source.value) else Automatic(n, d, r))
  {
    if IsUnspecified(d) || IsMulticast(d) {
      return Failed(Invalid);
    }
    var local := LocalOf(n);
    var route := RouteFor(local, n.routes, d);
    if route.None? || (IsLoopback(d) && d !in local) {
      return Failed(Unreachable);
    }
    if requested.Some? && !IsUnspecified(requested.value) {
      if |requested.value| != |d| {
        return Failed(WrongFamily);
      }
      return if requested.value in local then Chosen(requested.value) else Failed(NotAvailable);
    }
    if route.value.source.Some? {
      return Chosen(route.value.source.value);
    }
    var selected := Scan(Policy(d, n.properties, n.preferTemporary), n.sources);
    r := if selected.Some? then Chosen(n.sources[selected.value].address) else Failed(NotAvailable);
  }

  /** The automatic choice: the best configured address of the destination's family, if there is one. */
  ghost predicate Automatic(n: Network, d: Address, r: Choice)
    requires GoodNetwork(n) && IsAddress(d)
  {
    if forall c :: c in n.sources ==> !SameFamily(c.address, d) then r == Failed(NotAvailable)
    else exists i: nat :: Best(Policy(d, n.properties, n.preferTemporary), n.sources, i) && r == Chosen(n.sources[i].address)
  }
}
