/** Octets and the big-endian fields every codec in this project reads and writes. */
module Bytes {

  type Byte = b: int | 0 <= b < 0x100
  type U16 = v: int | 0 <= v < 0x1_0000

  /** The 16-bit big-endian field at offset `at`. */
  function Read16(data: seq<Byte>, at: nat): (v: U16)
    requires at + 2 <= |data|
  {
    data[at] as int * 256 + data[at + 1] as int
  }

  /** The two octets of a 16-bit field, most significant first. */
  function Encode16(v: U16): (e: seq<Byte>)
    ensures |e| == 2 && e[0] as int * 256 + e[1] as int == v
  {
    [v / 256, v % 256]
  }

  /** The 32-bit field at an offset. */
  function Read32(data: seq<Byte>, at: nat): (v: nat)
    requires at + 4 <= |data|
    ensures v < 0x1_0000_0000
  {
    Read16(data, at) * 0x1_0000 + Read16(data, at + 2)
  }

  /** The four octets of a 32-bit field. */
  function Encode32(v: nat): (e: seq<Byte>)
    requires v < 0x1_0000_0000
    ensures |e| == 4 && Read32(e, 0) == v
  {
    Encode16(v / 0x1_0000) + Encode16(v % 0x1_0000)
  }

  /** `data` with the octets from `at` on replaced by `field`. */
  function Splice(data: seq<Byte>, at: nat, field: seq<Byte>): (r: seq<Byte>)
    requires at + |field| <= |data|
    ensures |r| == |data|
    ensures forall i :: 0 <= i < |data| ==>
      r[i] == if at <= i < at + |field| then field[i - at] else data[i]
  {
    data[..at] + field + data[at + |field|..]
  }

  /** A field within the front of some octets. */
  lemma SpliceHead(head: seq<Byte>, body: seq<Byte>, at: nat, field: seq<Byte>)
    requires at + |field| <= |head|
    ensures Splice(head + body, at, field) == Splice(head, at, field) + body
  {
  }

  /** A run of zero octets. */
  function Zeros(n: nat): (z: seq<Byte>)
    ensures |z| == n
    ensures forall i :: 0 <= i < n ==> z[i] == 0
  {
    seq(n, _ => 0)
  }

  /** Clears the low three bits: the largest multiple of eight not above `n`. */
  function FloorTo8(n: nat): (r: nat)
    ensures r % 8 == 0 && r <= n < r + 8
  {
    n - n % 8
  }

  /** Rounds up to a multiple of four, as the IPv4 header length field needs. */
  function CeilTo4(n: nat): (r: nat)
    ensures r % 4 == 0 && n <= r < n + 4
  {
    (n + 3) / 4 * 4
  }

  /** Overwrites `target` from `at` on with a copy of `data`. */
  method CopyInto(target: array<Byte>, at: nat, data: seq<Byte>)
    requires at + |data| <= target.Length
    modifies target
    ensures target[..] == Splice(old(target[..]), at, data)
  {
    for k := 0 to |data|
      invariant forall i :: 0 <= i < target.Length ==>
        target[i] == if at <= i < at + k then data[i - at] else old(target[i])
    {
      target[at + k] := data[k];
    }
  }
}
