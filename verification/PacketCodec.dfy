/** The packet codec of both families: what is encoded, appending it in place, and parsing it back. */
module PacketCodec {
  import opened Wrappers
  import opened Bytes
  import V4 = IPv4Codec
  import V6 = IPv6Codec
  import InPlace4 = MarshalInPlace
  import InPlace6 = IPv6InPlace

  type IPPacket = V4.IPPacket

  /** The checks made before anything is written; the value is the packet with unmapped addresses. */
  function Layout(p: IPPacket): (r: Result<IPPacket>) {
    if |V4.Unmap(p.source)| == 4 then V4.Layout(p) else if |V4.Unmap(p.source)| == 16 then V6.Layout(p) else Err(Invalid)
  }

  /** A packet that passed them. */
  predicate Encodable(p: IPPacket) { V4.Encodable(p) || V6.Encodable(p) }

  lemma LayoutIsEncodable(p: IPPacket)
    ensures Layout(p).Ok? ==> Encodable(Layout(p).value)
    ensures Layout(p).Ok? ==> Layout(p).value.payload == p.payload && Layout(p).value.options == p.options
    ensures Encodable(p) ==> Layout(p) == Ok(p)
  {
    if |V4.Unmap(p.source)| == 4 {
      V4.LayoutIsEncodable(p);
    } else if |V4.Unmap(p.source)| == 16 {
      V6.LayoutIsEncodable(p);
    }
  }

  function Wire(p: IPPacket): (w: seq<Byte>)
    requires Encodable(p)
  {
    if |p.source| == 4 then V4.Wire(p) else V6.Wire(p)
  }

  /** The packet a receiver sees. */
  function Normal(p: IPPacket): (q: IPPacket)
    requires Encodable(p)
  {
    if |p.source| == 4 then V4.Normal(p) else V6.Normal(p)
  }

  /** The parser: the version nibble chooses the family. */
  function ParseIPPacket(wire: seq<Byte>): (r: Result<IPPacket>) {
    if |wire| > 0 && wire[0] / 16 == 6 then V6.Parse(wire) else V4.Parse(wire)
  }

  lemma FourParses(wire: seq<Byte>)
    requires V4.Parse(wire).Ok?
    ensures ParseIPPacket(wire) == V4.Parse(wire)
  {
  }

  /** Parsing what was marshalled, whatever padding follows, returns the normal form of the packet. */
  lemma ParseOfMarshal(p: IPPacket, padding: seq<Byte>)
    requires Encodable(p)
    ensures ParseIPPacket(Wire(p) + padding) == Ok(Normal(p))
  {
    if |p.source| == 4 {
      V4.ParseOfMarshal(p, padding);
      FourParses(Wire(p) + padding);
    } else {
      V6.ParseOfMarshal(p, padding);
      assert V6.Parse(Wire(p) + padding).Ok?;
    }
  }

  /** Appends a validated packet, in place when the capacity allows it. */
  method AppendValid(dst: array<Byte>, length: nat, q: IPPacket, payloadIn: array<Byte>, payloadAt: nat, optionsIn: array<Byte>, optionsAt: nat)
    returns (total: nat, out: array<Byte>)
    requires length <= dst.Length && Encodable(q)
    requires payloadAt + |q.payload| <= payloadIn.Length && payloadIn[payloadAt..payloadAt + |q.payload|] == q.payload
    requires optionsAt + |q.options| <= optionsIn.Length && optionsIn[optionsAt..optionsAt + |q.options|] == q.options
    modifies dst
    ensures total <= out.Length && out[..total] == old(dst[..length]) + Wire(q)
    ensures out == dst ==> dst[total..] == old(dst[total..])
    ensures out != dst ==> fresh(out) && dst[..] == old(dst[..])
  {
    if |q.source| == 4 {
      total, out := InPlace4.AppendValid(dst, length, q, payloadIn, payloadAt, optionsIn, optionsAt);
    } else {
      total, out := InPlace6.AppendValid(dst, length, q, payloadIn, payloadAt);
    }
  }

  /**
   * Appends the encoding behind the first `length` octets of `dst`, for either family. Payload and options are read as
   * they were before the call, wherever they lie; an error changes nothing.
   */
  method AppendBinary(dst: array<Byte>, length: nat, p: IPPacket, payloadIn: array<Byte>, payloadAt: nat, optionsIn: array<Byte>, optionsAt: nat)
    returns (r: Result<nat>, out: array<Byte>)
    requires length <= dst.Length
    requires payloadAt + |p.payload| <= payloadIn.Length && payloadIn[payloadAt..payloadAt + |p.payload|] == p.payload
    requires optionsAt + |p.options| <= optionsIn.Length && optionsIn[optionsAt..optionsAt + |p.options|] == p.options
    modifies dst
    ensures Layout(p).Err? <==> r.Err?
    ensures r.Err? ==> r.error == Layout(p).error && out == dst && dst[..] == old(dst[..])
    ensures r.Ok? ==> Encodable(Layout(p).value) && r.value <= out.Length
    ensures r.Ok? ==> out[..r.value] == old(dst[..length]) + Wire(Layout(p).value)
    ensures r.Ok? && out == dst ==> dst[r.value..] == old(dst[r.value..])
    ensures out != dst ==> fresh(out) && dst[..] == old(dst[..])
  {
    var layout := Layout(p);
    LayoutIsEncodable(p);
    out := dst;
    if layout.Err? {
      r := Err(layout.error);
    } else {
      var total: nat;
      total, out := AppendValid(dst, length, layout.value, payloadIn, payloadAt, optionsIn, optionsAt);
      r := Ok(total);
    }
  }
}
