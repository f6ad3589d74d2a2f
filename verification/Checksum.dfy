/** The Internet checksum of RFC 1071, in the wide-word form the stack computes it. */
module Checksum {
  import opened Bytes

  newtype uint32 = x: int | 0 <= x < 0x1_0000_0000
  newtype uint64 = x: int | 0 <= x < 0x1_0000_0000_0000_0000

  const LARGEST_REGION := 0x2_0000_0000

  // ---------------------------------------------------------------- reference definition

  /** Section 2 of RFC 1071: the sum of the big-endian 16-bit words, the last one padded with a zero octet. */
  function WordSum(data: seq<Byte>): (s: nat) {
    if |data| == 0 then 0
    else if |data| == 1 then data[0] as int * 256
    else data[0] as int * 256 + data[1] as int + WordSum(data[2..])
  }

  /** End-around carry until the sum fits sixteen bits. */
  function Fold(s: nat): (f: nat)
    ensures f < 0x1_0000
    decreases s
  {
    if s < 0x1_0000 then s else Fold(s % 0x1_0000 + s / 0x1_0000)
  }

  /** The value stored in a checksum field computed over `data`. */
  function Internet(data: seq<Byte>): (c: U16) {
    0xFFFF - Fold(WordSum(data))
  }

  // ---------------------------------------------------------------- one's-complement arithmetic

  lemma QuotientIsUnique(x: int, q: int, r: int)
    requires x == 0xFFFF * q + r && 0 <= r < 0xFFFF
    ensures x % 0xFFFF == r && x / 0xFFFF == q
  {
    assert 0xFFFF * (x / 0xFFFF - q) == r - x % 0xFFFF;
    assert -1 < x / 0xFFFF - q < 1;
  }

  /** Folding picks the representative of the sum modulo 65535 in 1..65535, and 0 only for 0. */
  lemma {:induction false} FoldIsResidue(s: nat)
    ensures Fold(s) == if s == 0 then 0 else (s - 1) % 0xFFFF + 1
    decreases s
  {
    if s >= 0x1_0000 {
      var folded := s % 0x1_0000 + s / 0x1_0000;
      FoldIsResidue(folded);
      QuotientIsUnique(s - 1, (folded - 1) / 0xFFFF + s / 0x1_0000, (folded - 1) % 0xFFFF);
    }
  }

  /** Two positive sums that differ by a multiple of 65535 fold alike. */
  lemma FoldCongruent(a: nat, b: nat, k: int)
    requires a > 0 && b > 0
    requires a == b + 0xFFFF * k
    ensures Fold(a) == Fold(b)
  {
    FoldIsResidue(a);
    FoldIsResidue(b);
    QuotientIsUnique(a - 1, (b - 1) / 0xFFFF + k, (b - 1) % 0xFFFF);
  }

  lemma FoldAbsorbs(a: nat, b: nat)
    ensures Fold(Fold(a) + b) == Fold(a + b)
  {
    FoldIsResidue(a);
    if a > 0 {
      FoldCongruent(a + b, Fold(a) + b, (a - 1) / 0xFFFF);
    }
  }

  lemma FoldAbsorbsFour(a: nat, b: nat, c: nat, d: nat, n: nat)
    ensures Fold(Fold(a) + Fold(b) + Fold(c) + Fold(d) + n) == Fold(a + b + c + d + n)
  {
    FoldAbsorbsTwo(a, b, Fold(c) + Fold(d) + n);
    FoldAbsorbsTwo(c, d, a + b + n);
  }

  lemma FoldAbsorbsTwo(a: nat, b: nat, n: nat)
    ensures Fold(Fold(a) + Fold(b) + n) == Fold(a + b + n)
  {
    FoldAbsorbs(a, Fold(b) + n);
    FoldAbsorbs(b, a + n);
  }

  lemma WordSumPair(a: Byte, b: Byte, rest: seq<Byte>)
    ensures WordSum([a, b] + rest) == a as int * 256 + b as int + WordSum(rest)
  {
    assert ([a, b] + rest)[2..] == rest;
  }

  lemma {:induction false} WordSumConcat(a: seq<Byte>, b: seq<Byte>)
    requires |a| % 2 == 0
    ensures WordSum(a + b) == WordSum(a) + WordSum(b)
    decreases |a|
  {
    if |a| == 0 {
      assert a + b == b;
    } else {
      assert (a + b)[2..] == a[2..] + b;
      WordSumConcat(a[2..], b);
    }
  }

  /** An octet that completes an odd region contributes its plain value. */
  lemma {:induction false} WordSumOddConcat(a: seq<Byte>, b: seq<Byte>)
    requires |a| % 2 == 1 && |b| > 0
    ensures WordSum(a + b) == WordSum(a) + b[0] as int + WordSum(b[1..])
    decreases |a|
  {
    if |a| == 1 {
      assert (a + b)[2..] == b[1..];
    } else {
      assert (a + b)[2..] == a[2..] + b;
      WordSumOddConcat(a[2..], b);
    }
  }

  lemma {:induction false} WordSumZero(data: seq<Byte>)
    requires forall i :: 0 <= i < |data| ==> data[i] == 0
    ensures WordSum(data) == 0
    decreases |data|
  {
    if |data| >= 2 {
      WordSumZero(data[2..]);
    }
  }

  // ---------------------------------------------------------------- native byte order

  /** The same sum taken in the other byte order, as a little-endian machine loads the words. */
  ghost function SwappedSum(data: seq<Byte>): (s: nat) {
    if |data| == 0 then 0
    else if |data| == 1 then data[0] as int
    else data[0] as int + data[1] as int * 256 + SwappedSum(data[2..])
  }

  ghost function NativeSum(data: seq<Byte>, bigEndian: bool): (s: nat) {
    if bigEndian then WordSum(data) else SwappedSum(data)
  }

  ghost function EvenOctets(data: seq<Byte>): (s: nat) {
    if |data| == 0 then 0
    else if |data| == 1 then data[0] as int
    else data[0] as int + EvenOctets(data[2..])
  }

  /** Swapping octets multiplies the sum by 256 modulo 65535. */
  lemma {:induction false} SwapScales(data: seq<Byte>)
    ensures 256 * WordSum(data) == SwappedSum(data) + 0xFFFF * EvenOctets(data)
    ensures WordSum(data) == 0 <==> SwappedSum(data) == 0
    decreases |data|
  {
    if |data| >= 2 {
      SwapScales(data[2..]);
    }
  }

  function ReverseBytes16(x: nat): (r: nat)
    requires x < 0x1_0000
    ensures r < 0x1_0000
  {
    x % 256 * 256 + x / 256
  }

  /** RFC 1071 section 2(B): swapping the folded little-endian sum gives the folded big-endian sum. */
  lemma ByteOrderIndependence(data: seq<Byte>)
    ensures ReverseBytes16(Fold(SwappedSum(data))) == Fold(WordSum(data))
  {
    SwapScales(data);
    var le, be := SwappedSum(data), WordSum(data);
    FoldIsResidue(le);
    if be > 0 {
      var x := Fold(le);
      var j := (le - 1) / 0xFFFF;
      assert le == x + 0xFFFF * j;
      var r := ReverseBytes16(x);
      assert r == 256 * x - 0xFFFF * (x / 256);
      assert r == be + 0xFFFF * (be - 256 * EvenOctets(data) - 256 * j - x / 256);
      FoldCongruent(r, be, be - 256 * EvenOctets(data) - 256 * j - x / 256);
      assert Fold(r) == r;
    }
  }

  /** Four octets loaded as one 32-bit word of the machine's byte order. */
  function Load32(data: seq<Byte>, at: nat, bigEndian: bool): (v: uint64)
    requires at + 4 <= |data|
    ensures v < 0x1_0000_0000
  {
    if bigEndian then
      (((data[at] as int * 256 + data[at + 1] as int) * 256 + data[at + 2] as int) * 256 + data[at + 3] as int) as uint64
    else
      (((data[at + 3] as int * 256 + data[at + 2] as int) * 256 + data[at + 1] as int) * 256 + data[at] as int) as uint64
  }

  /** A 64-bit load: the two 32-bit halves in the machine's order. */
  function Load64(data: seq<Byte>, at: nat, bigEndian: bool): (v: uint64)
    requires at + 8 <= |data|
  {
    if bigEndian then (Load32(data, at, true) as int * 0x1_0000_0000 + Load32(data, at + 4, true) as int) as uint64
    else (Load32(data, at + 4, false) as int * 0x1_0000_0000 + Load32(data, at, false) as int) as uint64
  }

  lemma NativeStep(data: seq<Byte>, at: nat, bigEndian: bool)
    requires at + 2 <= |data|
    ensures NativeSum(data[at..], bigEndian) == NativeSum(data[at + 2..], bigEndian) +
              if bigEndian then data[at] as int * 256 + data[at + 1] as int else data[at] as int + data[at + 1] as int * 256
  {
    assert data[at..][2..] == data[at + 2..];
  }

  lemma Load64Halves(data: seq<Byte>, at: nat, bigEndian: bool)
    requires at + 8 <= |data|
    ensures Load64(data, at, bigEndian) as int / 0x1_0000_0000 + Load64(data, at, bigEndian) as int % 0x1_0000_0000
      == Load32(data, at, bigEndian) as int + Load32(data, at + 4, bigEndian) as int
  {
  }

  /** Two octets loaded as one 16-bit word of the machine's byte order. */
  function Load16(data: seq<Byte>, at: nat, bigEndian: bool): (v: uint64)
    requires at + 2 <= |data|
    ensures v < 0x1_0000
  {
    (if bigEndian then data[at] as int * 256 + data[at + 1] as int
     else data[at + 1] as int * 256 + data[at] as int) as uint64
  }

  /** A 32-bit load adds the same residue as its two 16-bit words. */
  lemma Load32Residue(data: seq<Byte>, at: nat, bigEndian: bool) returns (excess: nat)
    requires at + 4 <= |data|
    ensures NativeSum(data[at..], bigEndian) == NativeSum(data[at + 4..], bigEndian) + Load32(data, at, bigEndian) as int - 0xFFFF * excess
    ensures excess + NativeSum(data[at + 4..], bigEndian) <= NativeSum(data[at..], bigEndian)
  {
    NativeStep(data, at, bigEndian);
    NativeStep(data, at + 2, bigEndian);
    excess := if bigEndian then data[at] as int * 256 + data[at + 1] as int
              else data[at + 2] as int + data[at + 3] as int * 256;
  }

  /** Sixteen octets, as the loop consumes them. */
  lemma BlockResidue(data: seq<Byte>, at: nat, bigEndian: bool) returns (excess: nat)
    requires at + 16 <= |data|
    ensures NativeSum(data[at..], bigEndian) + 0xFFFF * excess ==
            NativeSum(data[at + 16..], bigEndian)
            + Load64(data, at, bigEndian) as int / 0x1_0000_0000 + Load64(data, at, bigEndian) as int % 0x1_0000_0000
            + Load64(data, at + 8, bigEndian) as int / 0x1_0000_0000 + Load64(data, at + 8, bigEndian) as int % 0x1_0000_0000
    ensures excess + NativeSum(data[at + 16..], bigEndian) <= NativeSum(data[at..], bigEndian)
  {
    Load64Halves(data, at, bigEndian);
    Load64Halves(data, at + 8, bigEndian);
    var e0 := Load32Residue(data, at, bigEndian);
    var e1 := Load32Residue(data, at + 4, bigEndian);
    var e2 := Load32Residue(data, at + 8, bigEndian);
    var e3 := Load32Residue(data, at + 12, bigEndian);
    excess := e0 + e1 + e2 + e3;
  }

  /** The accumulation loops: 64-bit loads, then 16-bit loads, then an odd octet. Nothing wraps. */
  method Accumulate(data: seq<Byte>, bigEndian: bool) returns (sum: uint64, ghost excess: nat)
    requires |data| <= LARGEST_REGION
    ensures sum as int == NativeSum(data, bigEndian) + 0xFFFF * excess
    ensures excess <= NativeSum(data, bigEndian)
  {
    sum, excess := 0, 0;
    var at := 0;
    while |data| - at >= 16
      invariant 0 <= at <= |data|
      invariant sum as int <= at * 0x4000_0000
      invariant sum as int + NativeSum(data[at..], bigEndian) == NativeSum(data, bigEndian) + 0xFFFF * excess
      invariant excess + NativeSum(data[at..], bigEndian) <= NativeSum(data, bigEndian)
    {
      var first, second := Load64(data, at, bigEndian), Load64(data, at + 8, bigEndian);
      ghost var e := BlockResidue(data, at, bigEndian);
      sum := sum + (first / 0x1_0000_0000 + first % 0x1_0000_0000 + second / 0x1_0000_0000 + second % 0x1_0000_0000);
      at := at + 16;
      excess := excess + e;
    }
    while |data| - at >= 2
      invariant 0 <= at <= |data|
      invariant sum as int <= at * 0x4000_0000
      invariant sum as int + NativeSum(data[at..], bigEndian) == NativeSum(data, bigEndian) + 0xFFFF * excess
      invariant excess + NativeSum(data[at..], bigEndian) <= NativeSum(data, bigEndian)
    {
      NativeStep(data, at, bigEndian);
      sum := sum + Load16(data, at, bigEndian);
      at := at + 2;
    }
    if |data| - at != 0 {
      assert data[at..] == [data[at]];
      sum := sum + (if bigEndian then data[at] as int * 256 else data[at] as int) as uint64;
    }
  }

  /** The carry loop every checksum routine ends with. */
  method FoldCarries(sum: uint64) returns (folded: uint64)
    ensures folded as int == Fold(sum as int)
  {
    folded := sum;
    while folded >= 0x1_0000
      invariant Fold(folded as int) == Fold(sum as int)
    {
      folded := folded % 0x1_0000 + folded / 0x1_0000;
    }
  }

  /** Accumulates one region with 64-bit loads in the machine's byte order. */
  method ChecksumSum(data: seq<Byte>, bigEndian: bool) returns (result: uint32)
    requires |data| <= LARGEST_REGION
    ensures result as int == Fold(WordSum(data))
  {
    var sum, excess := Accumulate(data, bigEndian);
    var folded := FoldCarries(sum);
    if NativeSum(data, bigEndian) > 0 {
      FoldCongruent(sum as int, NativeSum(data, bigEndian), excess);
    }
    ByteOrderIndependence(data);
    if bigEndian {
      return folded as uint32;
    }
    return ReverseBytes16(folded as int) as uint32;
  }

  /** The checksum of one contiguous region. */
  method ChecksumOf(data: seq<Byte>, bigEndian: bool) returns (c: U16)
    requires |data| <= LARGEST_REGION
    ensures c == Internet(data)
  {
    var sum := ChecksumSum(data, bigEndian);
    var folded := FoldCarries(sum as uint64);
    c := 0xFFFF - folded as int;
  }

  // ---------------------------------------------------------------- several regions

  function Concat(parts: seq<seq<Byte>>): (r: seq<Byte>) {
    if |parts| == 0 then [] else parts[0] + Concat(parts[1..])
  }

  lemma {:induction false} ConcatSnoc(parts: seq<seq<Byte>>, k: nat)
    requires k < |parts|
    ensures Concat(parts[..k + 1]) == Concat(parts[..k]) + parts[k]
  {
    if k == 0 {
      assert parts[..1][1..] == [];
    } else {
      assert parts[..k + 1][1..] == parts[1..][..k] && parts[..k][1..] == parts[1..][..k - 1];
      ConcatSnoc(parts[1..], k - 1);
    }
  }

  /** The octets of `data` that form whole 16-bit words. */
  ghost function Paired(data: seq<Byte>): (r: seq<Byte>)
    ensures |r| % 2 == 0
  {
    data[..|data| - |data| % 2]
  }

  /** What a part adds to the words seen so far when `before` leaves an octet unpaired. */
  lemma PairedAppend(before: seq<Byte>, part: seq<Byte>)
    requires |part| > 0
    ensures |before| % 2 == 0 ==>
      WordSum(Paired(before + part)) == WordSum(Paired(before)) + WordSum(Paired(part))
    ensures |before| % 2 == 1 ==>
      WordSum(Paired(before + part)) == WordSum(Paired(before))
        + before[|before| - 1] as int * 256 + part[0] as int + WordSum(Paired(part[1..]))
  {
    if |before| % 2 == 0 {
      assert Paired(before + part) == Paired(before) + Paired(part);
      WordSumConcat(Paired(before), Paired(part));
    } else {
      var word := [before[|before| - 1], part[0]];
      assert Paired(before + part) == Paired(before) + (word + Paired(part[1..]));
      assert (word + Paired(part[1..]))[2..] == Paired(part[1..]);
      WordSumConcat(Paired(before), word + Paired(part[1..]));
    }
  }

  /** Sums the whole words of one part: an octet left over by the parts before it is paired first. */
  method AddPart(sum: uint32, odd: bool, trailing: Byte, part: seq<Byte>, bigEndian: bool)
    returns (total: uint32, stillOdd: bool, unpaired: Byte)
    requires sum as int + 0x1_FFFE < 0x1_0000_0000
    requires 0 < |part| <= LARGEST_REGION
    ensures total < 0x1_0000
    ensures stillOdd == (odd != (|part| % 2 == 1))
    ensures stillOdd ==> unpaired == part[|part| - 1]
    ensures !odd ==> total as int == Fold(sum as int + WordSum(Paired(part)))
    ensures odd ==> total as int == Fold(sum as int + trailing as int * 256 + part[0] as int + WordSum(Paired(part[1..])))
  {
    total, unpaired := sum, 0;
    var rest := part;
    if odd {
      total := total + (trailing as int * 256 + part[0] as int) as uint32;
      rest := part[1..];
    }
    ghost var paired := total as int;
    var even := |rest| - |rest| % 2;
    if even != 0 {
      var region := ChecksumSum(rest[..even], bigEndian);
      FoldAbsorbs(WordSum(rest[..even]), paired);
      total := total + region;
    }
    assert Paired(rest) == rest[..even];
    OddSum(1, |part| - 1);
    stillOdd := even != |rest|;
    if stillOdd {
      unpaired := rest[even];
    }
    var folded := FoldCarries(total as uint64);
    total := folded as uint32;
  }

  /** The checksum of several regions as though they were one, from an initial pseudo-header sum. */
  method ChecksumParts(initial: uint32, parts: seq<seq<Byte>>, bigEndian: bool) returns (c: U16)
    requires initial as int + 0x2_FFFD < 0x1_0000_0000
    requires forall k :: 0 <= k < |parts| ==> |parts[k]| <= LARGEST_REGION
    ensures c == 0xFFFF - Fold(initial as int + WordSum(Concat(parts)))
  {
    var sum, odd, trailing := initial, false, 0 as Byte;
    for k := 0 to |parts|
      invariant sum == initial || sum < 0x1_0000
      invariant Running(initial as int, Concat(parts[..k]), sum as int, odd, trailing)
    {
      ConcatSnoc(parts, k);
      if |parts[k]| == 0 {
        assert Concat(parts[..k]) + parts[k] == Concat(parts[..k]);
      } else {
        ghost var oldSum, oldOdd, oldTrailing := sum, odd, trailing;
        sum, odd, trailing := AddPart(sum, odd, trailing, parts[k], bigEndian);
        RunningStep(initial as int, Concat(parts[..k]), parts[k], oldSum as int, oldOdd, oldTrailing, sum as int, odd, trailing);
      }
    }
    assert parts[..|parts|] == parts;
    c := FinishParts(initial, Concat(parts), sum, odd, trailing);
  }

  /** Pads the last unpaired octet, folds and complements. */
  method FinishParts(ghost initial: uint32, ghost all: seq<Byte>, sum: uint32, odd: bool, trailing: Byte) returns (c: U16)
    requires sum as int + 0xFFFF < 0x1_0000_0000
    requires Running(initial as int, all, sum as int, odd, trailing)
    ensures c == 0xFFFF - Fold(initial as int + WordSum(all))
  {
    RunningEnd(initial as int, all, sum as int, odd, trailing);
    var total := sum;
    if odd {
      total := total + (trailing as int * 256) as uint32;
    }
    var folded := FoldCarries(total as uint64);
    c := 0xFFFF - folded as int;
  }

  /** The loop state after the regions concatenated in `before`. */
  ghost predicate Running(initial: nat, before: seq<Byte>, sum: nat, odd: bool, trailing: Byte) {
    && (odd <==> |before| % 2 == 1)
    && (odd ==> trailing == before[|before| - 1])
    && Fold(sum) == Fold(initial + WordSum(Paired(before)))
  }

  lemma RunningStep(initial: nat, before: seq<Byte>, part: seq<Byte>, sum: nat, odd: bool, trailing: Byte,
                    nextSum: nat, nextOdd: bool, nextTrailing: Byte)
    requires |part| > 0
    requires Running(initial, before, sum, odd, trailing)
    requires nextOdd == (odd != (|part| % 2 == 1))
    requires nextOdd ==> nextTrailing == part[|part| - 1]
    requires !odd ==> nextSum == Fold(sum + WordSum(Paired(part)))
    requires odd ==> nextSum == Fold(sum + trailing as int * 256 + part[0] as int + WordSum(Paired(part[1..])))
    ensures Running(initial, before + part, nextSum, nextOdd, nextTrailing)
  {
    PairedAppend(before, part);
    var added := if odd then trailing as int * 256 + part[0] as int + WordSum(Paired(part[1..])) else WordSum(Paired(part));
    assert WordSum(Paired(before + part)) == WordSum(Paired(before)) + added;
    FoldStep(initial + WordSum(Paired(before)), sum, added, nextSum);
    OddSum(|before|, |part|);
  }

  lemma OddSum(a: nat, b: nat)
    ensures (a + b) % 2 == 1 <==> (a % 2 == 1) != (b % 2 == 1)
  {
  }

  lemma FoldStep(total: nat, sum: nat, added: nat, nextSum: nat)
    requires Fold(sum) == Fold(total) && nextSum == Fold(sum + added)
    ensures Fold(nextSum) == Fold(total + added)
  {
    FoldAbsorbs(sum, added);
    FoldAbsorbs(total, added);
    FoldAbsorbs(sum + added, 0);
  }

  lemma RunningEnd(initial: nat, all: seq<Byte>, sum: nat, odd: bool, trailing: Byte)
    requires Running(initial, all, sum, odd, trailing)
    ensures Fold(sum + if odd then trailing as int * 256 else 0) == Fold(initial + WordSum(all))
  {
    if odd {
      assert all == Paired(all) + [trailing];
      WordSumConcat(Paired(all), [trailing]);
      FoldAbsorbs(sum, trailing as int * 256);
      FoldAbsorbs(initial + WordSum(Paired(all)), trailing as int * 256);
    } else {
      assert all == Paired(all);
    }
  }

  // ---------------------------------------------------------------- pseudo-headers

  /** The pseudo-header of section 3.1 of RFC 9293 (IPv4) or section 8.1 of RFC 8200 (IPv6). */
  function PseudoHeader(source: seq<Byte>, target: seq<Byte>, protocol: Byte, length: nat): (h: seq<Byte>)
    requires |source| == |target| && |source| in {4, 16}
    requires length < 0x1_0000
    ensures |h| % 2 == 0
  {
    source + target + if |source| == 4 then [0, protocol] + Encode16(length)
                      else [0, 0] + Encode16(length) + [0, 0, 0, protocol]
  }

  lemma PseudoHeaderSum(source: seq<Byte>, target: seq<Byte>, protocol: Byte, length: nat)
    requires |source| == |target| && |source| in {4, 16}
    requires length < 0x1_0000
    ensures WordSum(PseudoHeader(source, target, protocol, length))
      == WordSum(source) + WordSum(target) + protocol as int + length
  {
    var field := Encode16(length);
    WordSumConcat(source, target);
    if |source| == 4 {
      var tail: seq<Byte> := [0, protocol] + field;
      WordSumConcat(source + target, tail);
      WordSumPair(0, protocol, field);
      assert field == [field[0], field[1]] + [];
      WordSumPair(field[0], field[1], []);
    } else {
      var tail: seq<Byte> := [0, 0] + field + [0, 0, 0, protocol];
      WordSumConcat(source + target, tail);
      assert tail == [0, 0] + ([field[0], field[1]] + ([0, 0] + ([0, protocol] + [])));
      WordSumPair(0, 0, [field[0], field[1]] + ([0, 0] + ([0, protocol] + [])));
      WordSumPair(field[0], field[1], [0, 0] + ([0, protocol] + []));
      WordSumPair(0, 0, [0, protocol] + []);
      WordSumPair(0, protocol, []);
    }
  }

  /** Unsigned 32-bit arithmetic keeps only the low 32 bits. */
  function Wrap32(x: int): (w: uint32) {
    (x % 0x1_0000_0000) as uint32
  }

  /**
   * Replaces the padded last octet of an odd region by the word it forms with `next`. The folded sum
   * may be smaller than the octet taken out of it; the borrow wraps and the addition wraps it back.
   */
  function ReplaceLast(sum: uint32, last: Byte, next: Byte): (r: uint32)
    requires sum as int + 0x100 < 0x1_0000_0000
    ensures r as int == sum as int + next as int
  {
    var without := Wrap32(sum as int - last as int * 256);
    Wrap32(without as int + (last as int * 256 + next as int))
  }

  /** One transport checksum over a pseudo-header and two adjacent payload regions, split anywhere. */
  method TransportChecksumParts(source: seq<Byte>, target: seq<Byte>, protocol: Byte,
                                first: seq<Byte>, second: seq<Byte>, bigEndian: bool) returns (c: U16)
    requires |source| == |target| && |source| in {4, 16}
    requires |first| + |second| < 0x1_0000
    ensures c == Internet(PseudoHeader(source, target, protocol, |first| + |second|) + first + second)
  {
    var length := |first| + |second|;
    var sourceSum := ChecksumSum(source, bigEndian);
    var targetSum := ChecksumSum(target, bigEndian);
    var firstSum := ChecksumSum(first, bigEndian);
    var sum: uint32 := sourceSum + targetSum + protocol as uint32 + length as uint32 + firstSum;
    var rest := second;
    if |first| % 2 == 1 && |second| != 0 {
      sum := ReplaceLast(sum, first[|first| - 1], second[0]);
      rest := second[1..];
    }
    var restSum := ChecksumSum(rest, bigEndian);
    sum := sum + restSum;
    var folded := FoldCarries(sum as uint64);
    c := 0xFFFF - folded as int;
    ghost var spliced := |first| % 2 == 1 && |second| != 0;
    TransportTotal(source, target, protocol, first, second, spliced, if spliced then second[0] as int else 0, rest);
  }

  lemma TransportTotal(source: seq<Byte>, target: seq<Byte>, protocol: Byte, first: seq<Byte>, second: seq<Byte>, spliced: bool, extra: nat, rest: seq<Byte>)
    requires |source| == |target| && |source| in {4, 16}
    requires |first| + |second| < 0x1_0000 && spliced == (|first| % 2 == 1 && |second| != 0)
    requires extra == (if spliced then second[0] as int else 0) && rest == if spliced then second[1..] else second
    ensures
      Fold(Fold(WordSum(source)) + Fold(WordSum(target)) + protocol as int + (|first| + |second|) + Fold(WordSum(first)) + extra + Fold(WordSum(rest)))
      == Fold(WordSum(PseudoHeader(source, target, protocol, |first| + |second|) + first + second))
  {
    var header := PseudoHeader(source, target, protocol, |first| + |second|);
    PseudoHeaderSum(source, target, protocol, |first| + |second|);
    assert header + first + second == header + (first + second);
    WordSumConcat(header, first + second);
    SplicedSum(first, second, spliced, extra, rest);
    FoldFour(WordSum(source), WordSum(target), WordSum(first), WordSum(rest), protocol as int + (|first| + |second|), extra);
  }

  /** The sum of two parts, the first octet of the second one moved to an odd first part. */
  lemma SplicedSum(first: seq<Byte>, second: seq<Byte>, spliced: bool, extra: nat, rest: seq<Byte>)
    requires spliced == (|first| % 2 == 1 && |second| != 0)
    requires extra == (if spliced then second[0] as int else 0) && rest == if spliced then second[1..] else second
    ensures WordSum(first + second) == WordSum(first) + extra + WordSum(rest)
  {
    if spliced {
      WordSumOddConcat(first, second);
    } else if |first| % 2 == 1 {
      assert first + second == first;
    } else {
      WordSumConcat(first, second);
    }
  }

  lemma FoldFour(a: nat, b: nat, c: nat, d: nat, n: nat, m: nat)
    ensures Fold(Fold(a) + Fold(b) + n + Fold(c) + m + Fold(d)) == Fold(a + b + n + (c + m + d))
  {
    FoldAbsorbsFour(a, b, c, d, n + m);
  }

  // ---------------------------------------------------------------- the purpose of the checksum

  lemma {:induction false} WordSumSplice(data: seq<Byte>, at: nat, v: U16)
    requires at % 2 == 0 && at + 2 <= |data|
    ensures WordSum(Splice(data, at, Encode16(v))) == WordSum(data) - Read16(data, at) + v
  {
    var spliced := Splice(data, at, Encode16(v));
    assert spliced == data[..at] + (Encode16(v) + data[at + 2..]) && data == data[..at] + data[at..];
    WordSumConcat(data[..at], Encode16(v) + data[at + 2..]);
    WordSumConcat(data[..at], data[at..]);
    assert (Encode16(v) + data[at + 2..])[2..] == data[at + 2..] && data[at..][2..] == data[at + 2..];
  }

  /**
   * A region whose zeroed field at an even offset receives a value verifies exactly when that value
   * is its checksum, up to the two representations of zero.
   */
  lemma VerifiesExactlyWhenStored(data: seq<Byte>, at: nat, stored: U16)
    requires at % 2 == 0 && at + 2 <= |data|
    requires Read16(data, at) == 0
    ensures Internet(Splice(data, at, Encode16(stored))) == 0 <==>
      stored == Internet(data) || (Internet(data) == 0 && stored == 0xFFFF)
  {
    WordSumSplice(data, at, stored);
    FoldAbsorbs(WordSum(data), stored);
    FoldIsResidue(WordSum(data));
    if WordSum(data) > 0 && Fold(WordSum(data)) + stored > 0xFFFF {
      FoldCongruent(Fold(WordSum(data)) + stored, Fold(WordSum(data)) + stored - 0xFFFF, 1);
    }
  }
}
