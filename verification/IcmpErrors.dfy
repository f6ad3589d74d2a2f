/** ICMP errors with RFC 4884 extensions: building the message body and parsing it back. */
module IcmpErrors {
  import opened Wrappers
  import opened Bytes
  import opened Checksum
  import Chain = IPv6Chain

  const VERSION := 2
  const MINIMUM_QUOTE := 128
  const MAXIMUM_EXTENSIONS := 65535 - 8 - 128 - 4

  const V4_UNREACHABLE := 3
  const V4_TIME_EXCEEDED := 11
  const V4_PARAMETER := 12
  const V6_UNREACHABLE := 1
  const V6_TOO_BIG := 2
  const V6_TIME_EXCEEDED := 3
  const V6_PARAMETER := 4
  const FRAGMENTATION_NEEDED := 4
  const HEADERS_TOO_LONG := 8

  /** One remote error as its message carries it; the fields derived from the quote are left to `Quoted`. */
  datatype IcmpError = IcmpError(v6: bool, kind: Byte, code: Byte, mtu: nat, pointer: nat, extensions: seq<Byte>, quote: seq<Byte>)

  // ---------------------------------------------------------------- classification

  predicate ValidCode(v6: bool, kind: Byte, code: Byte) {
    if v6 then
      (kind == V6_UNREACHABLE && code <= 9) || (kind == V6_TOO_BIG && code == 0)
      || (kind == V6_TIME_EXCEEDED && code <= 1) || (kind == V6_PARAMETER && code <= 10)
    else (kind == V4_UNREACHABLE && code <= 15) || (kind == V4_TIME_EXCEEDED && code <= 1) || (kind == V4_PARAMETER && code <= 2)
  }

  predicate HasMtu(v6: bool, kind: Byte, code: Byte) {
    if v6 then kind == V6_TOO_BIG else kind == V4_UNREACHABLE && code == FRAGMENTATION_NEEDED
  }

  predicate HasPointer(v6: bool, kind: Byte) {
    if v6 then kind == V6_PARAMETER else kind == V4_PARAMETER
  }

  /** Whether the type has an RFC 4884 length field; where it is, and its unit. */
  predicate Extensible(v6: bool, kind: Byte) {
    if v6 then kind == V6_UNREACHABLE || kind == V6_TIME_EXCEEDED
    else kind == V4_UNREACHABLE || kind == V4_TIME_EXCEEDED || kind == V4_PARAMETER
  }

  function LengthAt(v6: bool): nat { if v6 then 0 else 1 }

  function Unit(v6: bool): nat { if v6 then 8 else 4 }

  predicate NeedsPointerObject(v6: bool, kind: Byte, code: Byte) {
    v6 && kind == V6_UNREACHABLE && code == HEADERS_TOO_LONG
  }

  // ---------------------------------------------------------------- the quote

  /** How far the quoted packet's headers reach, or -1 if they are broken, cut off, or those of a later fragment. */
  function HeaderEnd(quote: seq<Byte>, v6: bool): (end: int)
    ensures end == -1 || 20 <= end <= |quote|
  {
    if |quote| < 1 then -1
    else if !v6 then
      if quote[0] / 16 != 4 || |quote| < 20 then -1
      else
        var size: int := quote[0] as int % 16 * 4;
        if size < 20 || size > |quote| || Read16(quote, 6) % 0x2000 != 0 then -1 else size
    else if quote[0] / 16 != 6 || |quote| < 40 || Mapped(quote[8..24]) || Mapped(quote[24..40]) then -1
    else ChainEnd(quote[6], quote, 40)
  }

  predicate Mapped(a: seq<Byte>)
    requires |a| == 16
  {
    a[..10] == Zeros(10) && a[10] == 0xFF && a[11] == 0xFF
  }

  /** The end of an extension chain inside a quote; Mobility and anything unknown is the upper layer. */
  function ChainEnd(next: Byte, quote: seq<Byte>, at: nat): (end: int)
    requires 40 <= at <= |quote|
    ensures end == -1 || at <= end <= |quote|
    decreases |quote| - at
  {
    if next == Chain.NO_NEXT_HEADER || next == Chain.MOBILITY || !Chain.Traversable(next) then at
    else
      var n := Chain.LengthOf(next, quote[at..]);
      if n < 0 then -1
      else if next == Chain.FRAGMENT && Read16(quote, at + 2) / 8 != 0 then -1
      else ChainEnd(quote[at], quote, at + n)
  }

  /** The reader's loop over the quoted headers. */
  method QuotedHeaders(quote: seq<Byte>, v6: bool) returns (end: int)
    ensures end == HeaderEnd(quote, v6)
  {
    end := -1;
    if |quote| >= 1 && !v6 && quote[0] / 16 == 4 && |quote| >= 20 {
      var size: int := quote[0] as int % 16 * 4;
      if size >= 20 && size <= |quote| && Read16(quote, 6) % 0x2000 == 0 {
        end := size;
      }
    } else if |quote| >= 40 && v6 && quote[0] / 16 == 6 && !Mapped(quote[8..24]) && !Mapped(quote[24..40]) {
      var next, at, valid, done := quote[6], 40, true, false;
      while valid && !done
        invariant 40 <= at <= |quote|
        invariant HeaderEnd(quote, v6) == if !valid then -1 else if done then at else ChainEnd(next, quote, at)
        decreases |quote| - at, !done, valid
      {
        if next == Chain.NO_NEXT_HEADER || next == Chain.MOBILITY || !Chain.Traversable(next) {
          done := true;
        } else {
          var length := Chain.LengthOf(next, quote[at..]);
          if length < 0 || (next == Chain.FRAGMENT && Read16(quote, at + 2) / 8 != 0) {
            valid := false;
          } else {
            next, at := quote[at], at + length;
          }
        }
      }
      end := if valid then at else -1;
    }
  }

  /** The original packet's length when its base header tells it, or -1. */
  function Declared(quote: seq<Byte>): (n: int) {
    if |quote| == 0 then -1
    else if quote[0] / 16 == 4 then
      if |quote| < 20 then -1
      else
        var size: int := quote[0] as int % 16 * 4;
        var total := Read16(quote, 2);
        if size < 20 || total < size then -1 else total
    else if quote[0] / 16 == 6 then
      if |quote| < 40 then -1
      else
        var size := Read16(quote, 4);
        if size == 0 then if quote[6] == Chain.HOP_BY_HOP then -1 else 40 else 40 + size
    else -1
  }

  predicate AllZero(data: seq<Byte>) { forall i :: 0 <= i < |data| ==> data[i] == 0 }

  /** Drops padding behind a length the quote itself proves; octets other than zero there are an error. */
  function Trimmed(quote: seq<Byte>): (r: Option<seq<Byte>>) {
    var n := Declared(quote);
    if n < 0 || n > |quote| then Some(quote)
    else if AllZero(quote[n..]) then Some(quote[..n])
    else None
  }

  /** The reader's loop over the octets past the boundary. */
  method TrimQuote(quote: seq<Byte>) returns (trimmed: Option<seq<Byte>>)
    ensures trimmed == Trimmed(quote)
  {
    var n := Declared(quote);
    trimmed := Some(quote);
    if 0 <= n <= |quote| {
      var i := n;
      while i < |quote| && quote[i] == 0
        invariant n <= i <= |quote| && AllZero(quote[n..i])
      {
        assert quote[n..i + 1] == quote[n..i] + [quote[i]];
        i := i + 1;
      }
      assert i < |quote| ==> quote[n..][i - n] == quote[i];
      assert i == |quote| ==> quote[n..i] == quote[n..];
      trimmed := if i == |quote| then Some(quote[..n]) else None;
    }
  }

  // ---------------------------------------------------------------- extension objects

  datatype Object = Object(class_: Byte, kind: Byte, data: seq<Byte>)

  /** The objects of an encoded sequence, or nothing if the framing is broken. */
  function Objects(encoded: seq<Byte>): (r: Option<seq<Object>>)
    decreases |encoded|
  {
    if encoded == [] then Some([])
    else if |encoded| < 4 then None
    else
      var n := Read16(encoded, 0);
      if n < 4 || n % 4 != 0 || n > |encoded| then None
      else
        var rest := Objects(encoded[n..]);
        if rest.None? then None else Some([Object(encoded[2], encoded[3], encoded[4..n])] + rest.value)
  }

  /** What a sender may encode. */
  predicate Encodable(objects: seq<Object>) {
    forall o :: o in objects ==> |o.data| <= 65535 - 4 && |o.data| % 4 == 0
  }

  function EncodedObject(o: Object): (e: seq<Byte>)
    requires |o.data| <= 65535 - 4
  {
    Encode16(4 + |o.data|) + [o.class_, o.kind] + o.data
  }

  function EncodedObjects(objects: seq<Object>): (e: seq<Byte>)
    requires Encodable(objects)
  {
    if objects == [] then [] else EncodedObject(objects[0]) + EncodedObjects(objects[1..])
  }

  /** Encoding and parsing objects are inverse, in both directions. */
  lemma {:induction false} ObjectsRoundTrip(objects: seq<Object>)
    requires Encodable(objects)
    ensures Objects(EncodedObjects(objects)) == Some(objects)
    decreases |objects|
  {
    if objects != [] {
      var o, rest := objects[0], EncodedObjects(objects[1..]);
      var all := EncodedObjects(objects);
      var n := 4 + |o.data|;
      ObjectsRoundTrip(objects[1..]);
      assert all == EncodedObject(o) + rest;
      assert all[0] == EncodedObject(o)[0] && all[1] == EncodedObject(o)[1] && Read16(all, 0) == n;
      assert all[4..n] == o.data && all[n..] == rest;
      assert objects == [o] + objects[1..];
    }
  }

  lemma {:induction false} EncodedRoundTrip(encoded: seq<Byte>)
    requires Objects(encoded).Some?
    ensures Encodable(Objects(encoded).value) && EncodedObjects(Objects(encoded).value) == encoded
    decreases |encoded|
  {
    if encoded != [] {
      var n := Read16(encoded, 0);
      EncodedRoundTrip(encoded[n..]);
      var objects, rest := Objects(encoded).value, Objects(encoded[n..]).value;
      assert objects[1..] == rest;
      assert objects == [objects[0]] + rest;
      FirstObject(encoded, n);
    }
  }

  /** The object in front of a sequence encodes to the octets it was read from. */
  lemma FirstObject(encoded: seq<Byte>, n: nat)
    requires |encoded| >= 4 && n == Read16(encoded, 0) && 4 <= n <= |encoded| && n % 4 == 0
    ensures var o := Object(encoded[2], encoded[3], encoded[4..n]);
      |o.data| <= 65535 - 4 && |o.data| % 4 == 0 && EncodedObject(o) + encoded[n..] == encoded
  {
    var o := Object(encoded[2], encoded[3], encoded[4..n]);
    assert Encode16(n) == encoded[..2];
    assert EncodedObject(o) == encoded[..n] by {
      assert encoded[..n] == encoded[..2] + [encoded[2], encoded[3]] + encoded[4..n];
    }
    assert encoded[..n] + encoded[n..] == encoded;
  }

  /** The borrowed walk over an object sequence that validation and the public parser share. */
  class Cursor {
    var remaining: seq<Byte>

    constructor (encoded: seq<Byte>)
      ensures remaining == encoded
    {
      remaining := encoded;
    }

    /** Takes one object off the front; `valid` tells the end of a good sequence from broken framing. */
    method Next() returns (item: Object, ok: bool, valid: bool)
      modifies this
      ensures !ok ==> remaining == old(remaining) && (valid <==> remaining == [])
      ensures !ok && !valid ==> Objects(remaining).None?
      ensures ok ==> valid && |remaining| < |old(remaining)| && Precedes(item, remaining, old(remaining))
    {
      item, ok, valid := Object(0, 0, []), false, remaining == [];
      if |remaining| >= 4 {
        var length := Read16(remaining, 0);
        if length >= 4 && length % 4 == 0 && length <= |remaining| {
          item, ok, valid := Object(remaining[2], remaining[3], remaining[4..length]), true, true;
          remaining := remaining[length..];
        }
      }
    }
  }

  /** Checks a sequence without keeping its objects. */
  method ValidateObjects(encoded: seq<Byte>) returns (hasPointer: bool, valid: bool)
    ensures valid <==> ValidExtensions(encoded)
    ensures hasPointer <==> HasPointerObject(encoded)
  {
    var cursor := new Cursor(encoded);
    var count, done := 0, false;
    ghost var taken: seq<Object> := [];
    hasPointer, valid := false, true;
    ContinuesAtFirst(encoded);
    while valid && !done
      invariant fresh(cursor) && |taken| == count
      invariant hasPointer <==> valid && exists o :: o in taken && IsPointer(o)
      invariant !valid ==> Objects(encoded).None?
      invariant valid ==> Continues(encoded, taken, cursor.remaining)
      invariant done ==> cursor.remaining == []
      decreases |cursor.remaining|, !done, valid
    {
      ghost var before := cursor.remaining;
      var item, ok, framed := cursor.Next();
      if !framed {
        hasPointer, valid := false, false;
      } else if ok {
        count := count + 1;
        ContinuesNext(encoded, taken, item, before, cursor.remaining);
        taken := taken + [item];
        hasPointer := hasPointer || IsPointer(item);
      } else {
        done := true;
      }
    }
    if valid {
      assert Objects(encoded) == Some(taken + []) && taken + [] == taken;
      valid := count != 0;
    }
  }

  /** The objects of `before` are `item` and then those of `after`. */
  predicate Precedes(item: Object, after: seq<Byte>, before: seq<Byte>) {
    Objects(before) == if Objects(after).None? then None else Some([item] + Objects(after).value)
  }

  /** `taken` has been read off the front of `encoded` and `rest` is still to come. */
  predicate Continues(encoded: seq<Byte>, taken: seq<Object>, rest: seq<Byte>) {
    Objects(encoded) == if Objects(rest).None? then None else Some(taken + Objects(rest).value)
  }

  lemma ContinuesAtFirst(encoded: seq<Byte>)
    ensures Continues(encoded, [], encoded)
  {
    if Objects(encoded).Some? {
      assert [] + Objects(encoded).value == Objects(encoded).value;
    }
  }

  lemma ContinuesNext(encoded: seq<Byte>, taken: seq<Object>, item: Object, before: seq<Byte>, after: seq<Byte>)
    requires Continues(encoded, taken, before)
    requires Precedes(item, after, before)
    ensures Continues(encoded, taken + [item], after)
  {
    if Objects(after).Some? {
      assert taken + ([item] + Objects(after).value) == taken + [item] + Objects(after).value;
    }
  }

  /** The extensions of an error value. */
  class Extended {
    var extensions: seq<Byte>

    constructor ()
      ensures extensions == []
    {
      extensions := [];
    }

    /** Parses the extensions into their objects. */
    method ExtensionObjects() returns (objects: Option<seq<Object>>)
      ensures objects == Objects(extensions)
    {
      var taken: seq<Object> := [];
      var cursor := new Cursor(extensions);
      var valid, done := true, extensions == [];
      ContinuesAtFirst(extensions);
      while valid && !done
        invariant fresh(cursor)
        invariant valid ==> Continues(extensions, taken, cursor.remaining)
        invariant !valid ==> Objects(extensions).None?
        invariant done ==> cursor.remaining == []
        decreases |cursor.remaining|, !done, valid
      {
        ghost var before := cursor.remaining;
        var item, ok, framed := cursor.Next();
        if !framed {
          valid := false;
        } else if ok {
          ContinuesNext(extensions, taken, item, before, cursor.remaining);
          taken := taken + [item];
        } else {
          done := true;
        }
      }
      assert taken + [] == taken;
      objects := if valid then Some(taken) else None;
    }

    /** Replaces the extensions with encoded objects, or leaves them as they are and says why. */
    method SetExtensionObjects(objects: seq<Object>) returns (error: Option<Error>)
      modifies this
      ensures error == SetRefusal(objects, 0)
      ensures error.Some? ==> extensions == old(extensions)
      ensures error.None? ==> Encodable(objects) && extensions == EncodedObjects(objects)
    {
      error := None;
      var size, i := 0, 0;
      while i < |objects| && error.None?
        invariant 0 <= i <= |objects| && 0 <= size <= MAXIMUM_EXTENSIONS
        invariant error.None? ==> SetRefusal(objects, 0) == SetRefusal(objects[i..], size)
        invariant error.None? ==> size + SizeOf(objects[i..]) == SizeOf(objects)
        invariant error.Some? ==> error == SetRefusal(objects, 0)
        decreases |objects| - i, error.None?
      {
        assert objects[i..][0] == objects[i] && objects[i..][1..] == objects[i + 1..];
        if |objects[i].data| > 65535 - 4 {
          error := Some(TooLarge);
        } else if |objects[i].data| % 4 != 0 {
          error := Some(Invalid);
        } else if size > MAXIMUM_EXTENSIONS - (4 + |objects[i].data|) {
          error := Some(TooLarge);
        } else {
          size := size + 4 + |objects[i].data|;
          i := i + 1;
        }
      }
      if error.None? {
        SetAccepts(objects, 0);
        var encoded := new Byte[size](_ => 0);
        WriteObjects(encoded, objects);
        extensions := encoded[..];
      }
    }
  }

  /** The first object that cannot be encoded, if any, with `size` octets already taken. */
  function SetRefusal(objects: seq<Object>, size: int): (e: Option<Error>) {
    if objects == [] then None
    else if |objects[0].data| > 65535 - 4 then Some(TooLarge)
    else if |objects[0].data| % 4 != 0 then Some(Invalid)
    else if size > MAXIMUM_EXTENSIONS - (4 + |objects[0].data|) then Some(TooLarge)
    else SetRefusal(objects[1..], size + 4 + |objects[0].data|)
  }

  function SizeOf(objects: seq<Object>): (n: nat) {
    if objects == [] then 0 else 4 + |objects[0].data| + SizeOf(objects[1..])
  }

  /** Exactly the encodable sequences that fit are accepted. */
  lemma {:induction false} SetAccepts(objects: seq<Object>, size: nat)
    requires size <= MAXIMUM_EXTENSIONS
    ensures SetRefusal(objects, size).None? <==> Encodable(objects) && size + |EncodedObjects(objects)| <= MAXIMUM_EXTENSIONS
    ensures Encodable(objects) ==> |EncodedObjects(objects)| == SizeOf(objects)
    decreases |objects|
  {
    if objects != [] {
      var length := 4 + |objects[0].data|;
      assert objects == [objects[0]] + objects[1..];
      SetAccepts(objects[1..], if size + length <= MAXIMUM_EXTENSIONS then size + length else 0);
    }
  }

  /** Fills a buffer of exactly the right size. */
  method WriteObjects(encoded: array<Byte>, objects: seq<Object>)
    requires Encodable(objects) && encoded.Length == |EncodedObjects(objects)|
    modifies encoded
    ensures encoded[..] == EncodedObjects(objects)
  {
    var offset := 0;
    for i := 0 to |objects|
      invariant 0 <= offset <= encoded.Length && Encodable(objects[i..]) && offset + |EncodedObjects(objects[i..])| == encoded.Length
      invariant encoded[..offset] + EncodedObjects(objects[i..]) == EncodedObjects(objects)
    {
      EncodedStep(objects, i, encoded[..offset]);
      WriteObject(encoded, offset, objects[i]);
      offset := offset + 4 + |objects[i].data|;
    }
  }

  lemma EncodedStep(objects: seq<Object>, i: nat, before: seq<Byte>)
    requires i < |objects| && Encodable(objects[i..])
    ensures Encodable(objects[i + 1..]) && |EncodedObjects(objects[i..])| == 4 + |objects[i].data| + |EncodedObjects(objects[i + 1..])|
    ensures before + EncodedObjects(objects[i..]) == before + EncodedObject(objects[i]) + EncodedObjects(objects[i + 1..])
  {
    assert objects[i..][0] == objects[i] && objects[i..][1..] == objects[i + 1..];
  }

  method WriteObject(encoded: array<Byte>, offset: nat, item: Object)
    requires |item.data| <= 65535 - 4 && offset + 4 + |item.data| <= encoded.Length
    modifies encoded
    ensures encoded[..offset + 4 + |item.data|] == old(encoded[..offset]) + EncodedObject(item)
  {
    CopyInto(encoded, offset, Encode16(4 + |item.data|));
    CopyInto(encoded, offset + 2, [item.class_, item.kind]);
    CopyInto(encoded, offset + 4, item.data);
    assert encoded[offset..offset + 2] == Encode16(4 + |item.data|);
  }

  /** RFC 8883's Pointer object. */
  predicate IsPointer(o: Object) { o.class_ == 4 && o.kind == 1 && |o.data| == 4 }

  predicate ValidExtensions(encoded: seq<Byte>) {
    Objects(encoded).Some? && Objects(encoded).value != []
  }

  predicate HasPointerObject(encoded: seq<Byte>) {
    ValidExtensions(encoded) && exists o :: o in Objects(encoded).value && IsPointer(o)
  }

  // ---------------------------------------------------------------- building

  /** The length a quote is padded to in front of extensions. */
  function PaddedLength(v6: bool, quote: seq<Byte>): (n: nat)
    ensures n >= |quote| && n >= MINIMUM_QUOTE && n % Unit(v6) == 0
  {
    var size := if |quote| < MINIMUM_QUOTE then MINIMUM_QUOTE else |quote|;
    (size + Unit(v6) - 1) / Unit(v6) * Unit(v6)
  }

  /** Padding must not stand where octets of the original packet would be, nor may the quote itself violate it. */
  predicate Paddable(quote: seq<Byte>) {
    var n := Declared(quote);
    if 0 <= n <= |quote| then AllZero(quote[n..]) else |quote| >= MINIMUM_QUOTE
  }

  /** The four type-specific octets. */
  function Fields(e: IcmpError): (f: seq<Byte>)
    requires e.mtu < 0x1_0000_0000 && e.pointer < 0x1_0000_0000
    requires !e.v6 ==> (HasMtu(e.v6, e.kind, e.code) ==> e.mtu < 0x1_0000) && (HasPointer(e.v6, e.kind) ==> e.pointer < 0x100)
    ensures |f| == 4
  {
    if HasMtu(e.v6, e.kind, e.code) then if e.v6 then Encode32(e.mtu) else [0, 0] + Encode16(e.mtu)
    else if HasPointer(e.v6, e.kind) then if e.v6 then Encode32(e.pointer) else [e.pointer, 0, 0, 0]
    else [0, 0, 0, 0]
  }

  /** The RFC 4884 structure with its checksum. */
  function Structure(extensions: seq<Byte>): (s: seq<Byte>)
    ensures |s| == 4 + |extensions|
  {
    var bare := [VERSION * 16, 0, 0, 0] + extensions;
    Splice(bare, 2, Encode16(Internet(bare)))
  }

  /** The fields an error of this type may carry. */
  predicate FieldsFit(e: IcmpError) {
    && e.mtu < 0x1_0000_0000 && e.pointer < 0x1_0000_0000
    && (!HasMtu(e.v6, e.kind, e.code) ==> e.mtu == 0) && (!HasPointer(e.v6, e.kind) ==> e.pointer == 0)
    && (!e.v6 && HasMtu(e.v6, e.kind, e.code) ==> e.mtu < 0x1_0000)
    && (!e.v6 && HasPointer(e.v6, e.kind) ==> e.pointer < 0x100)
  }

  /** The checks in their order. */
  function Refusal(e: IcmpError): (r: Option<Error>) {
    if !ValidCode(e.v6, e.kind, e.code) then Some(Invalid)
    else if |e.quote| > 65535 - 8 then Some(TooLarge)
    else if HeaderEnd(e.quote, e.v6) < 0 || !FieldsFit(e) then Some(Invalid)
    else if e.extensions == [] then if NeedsPointerObject(e.v6, e.kind, e.code) then Some(Invalid) else None
    else if |e.extensions| > MAXIMUM_EXTENSIONS then Some(TooLarge)
    else if !ValidExtensions(e.extensions) || (NeedsPointerObject(e.v6, e.kind, e.code) && !HasPointerObject(e.extensions)) then Some(Invalid)
    else if !Extensible(e.v6, e.kind) || !Paddable(e.quote) then Some(Invalid)
    else if !LengthFits(e) || 4 + PaddedLength(e.v6, e.quote) + 4 + |e.extensions| > 65535 - 4 then Some(TooLarge)
    else None
  }

  predicate LengthFits(e: IcmpError) {
    PaddedLength(e.v6, e.quote) / Unit(e.v6) <= 255
  }

  function Padded(e: IcmpError): (quote: seq<Byte>) {
    e.quote + Zeros(PaddedLength(e.v6, e.quote) - |e.quote|)
  }

  /** The message body of an error that passed the checks. */
  function Assembled(e: IcmpError): (body: seq<Byte>)
    requires FieldsFit(e) && (e.extensions != [] ==> LengthFits(e))
  {
    if e.extensions == [] then Fields(e) + e.quote
    else Fields(e)[LengthAt(e.v6) := PaddedLength(e.v6, e.quote) / Unit(e.v6)] + Padded(e) + Structure(e.extensions)
  }

  function Build(e: IcmpError): (r: Result<seq<Byte>>) {
    if Refusal(e).Some? then Err(Refusal(e).value) else Ok(Assembled(e))
  }

  /** Builds a message into a fresh buffer, or says why not. */
  method Message(e: IcmpError) returns (r: Result<array<Byte>>)
    ensures if r.Ok? then fresh(r.value) && Build(e) == Ok(r.value[..]) else Build(e) == Err(r.error)
  {
    var refusal := Refusal(e);
    if refusal.Some? {
      r := Err(refusal.value);
    } else if e.extensions == [] {
      var body := new Byte[4 + |e.quote|](_ => 0);
      WriteBody(body, e);
      assert body[..] == Fields(e) + e.quote;
      r := Ok(body);
    } else {
      var body := ExtendedMessage(e);
      r := Ok(body);
    }
  }

  method ExtendedMessage(e: IcmpError) returns (body: array<Byte>)
    requires FieldsFit(e) && LengthFits(e) && e.extensions != []
    ensures fresh(body) && body[..] == Assembled(e)
  {
    var padded := PaddedLength(e.v6, e.quote);
    body := new Byte[4 + padded + 4 + |e.extensions|](_ => 0);
    WriteBody(body, e);
    ghost var zeros := Zeros(body.Length - 4 - |e.quote|);
    var at, size := LengthAt(e.v6), padded / Unit(e.v6);
    body[at] := size;
    assert body[..] == (Fields(e) + e.quote + zeros)[at := size];
    FrontOctets(body[..], Fields(e), e.quote, zeros, at, size, padded - |e.quote|);
    WriteStructure(body, 4 + padded, e.extensions);
  }

  /** What stands in front of the structure before it is written. */
  lemma FrontOctets(body: seq<Byte>, fields: seq<Byte>, quote: seq<Byte>, zeros: seq<Byte>, at: nat, size: Byte, count: nat)
    requires |fields| == 4 && at < 4 && count <= |zeros| && AllZero(zeros)
    requires body == (fields + quote + zeros)[at := size]
    ensures body[..4 + |quote| + count] == fields[at := size] + (quote + Zeros(count))
  {
  }

  /** Writes the type-specific octets and the quote; whatever follows keeps its zeros. */
  method WriteBody(body: array<Byte>, e: IcmpError)
    requires FieldsFit(e) && 4 + |e.quote| <= body.Length
    requires AllZero(body[..])
    modifies body
    ensures body[..] == Fields(e) + e.quote + Zeros(body.Length - 4 - |e.quote|)
  {
    if HasMtu(e.v6, e.kind, e.code) {
      if e.v6 {
        CopyInto(body, 0, Encode32(e.mtu));
      } else {
        CopyInto(body, 2, Encode16(e.mtu));
      }
    } else if HasPointer(e.v6, e.kind) {
      if e.v6 {
        CopyInto(body, 0, Encode32(e.pointer));
      } else {
        body[0] := e.pointer;
      }
    }
    assert body[..4] == Fields(e);
    CopyInto(body, 4, e.quote);
  }

  /** Writes one structure into the tail of the body, its checksum last. */
  method WriteStructure(body: array<Byte>, at: nat, extensions: seq<Byte>)
    requires at + 4 + |extensions| == body.Length
    modifies body
    ensures body[..] == old(body[..at]) + Structure(extensions)
  {
    ghost var front := body[..at];
    var bare := [VERSION * 16, 0, 0, 0] + extensions;
    CopyInto(body, at, bare);
    assert body[..] == front + bare && body[at..] == bare;
    CopyInto(body, at + 2, Encode16(Internet(body[at..])));
    SpliceBehind(front, bare, 2, Encode16(Internet(bare)));
  }

  lemma SpliceBehind(front: seq<Byte>, tail: seq<Byte>, at: nat, field: seq<Byte>)
    requires at + |field| <= |tail|
    ensures Splice(front + tail, |front| + at, field) == front + Splice(tail, at, field)
  {
  }

  // ---------------------------------------------------------------- parsing

  /**
   * The largest plateau below a legacy router's packet, when it sent no MTU (section 7.1 of RFC 1191).
   * A 16-bit total never exceeds the top plateau, 65535, so that one is never chosen.
   */
  function LegacyMtu(quote: seq<Byte>): (mtu: nat) {
    if |quote| < 20 || quote[0] / 16 != 4 then 0
    else
      var total := Read16(quote, 2);
      if quote[0] as int % 16 * 4 < 20 || total < quote[0] as int % 16 * 4 then 0
      else if 32000 < total then 32000 else if 17914 < total then 17914 else if 8166 < total then 8166
      else if 4352 < total then 4352 else if 2002 < total then 2002 else if 1492 < total then 1492 else if 1006 < total then 1006
      else if 508 < total then 508 else if 296 < total then 296 else 68
  }

  predicate ValidStructure(s: seq<Byte>) {
    && |s| >= 8 && s[0] / 16 == VERSION
    && (Read16(s, 2) != 0 ==> Internet(s) == 0)
    && ValidExtensions(s[4..])
  }

  /** The quote and the extensions of a body; without a length there are no extensions. */
  datatype Parts = Parts(quote: seq<Byte>, extensions: seq<Byte>)

  function SplitBody(v6: bool, kind: Byte, body: seq<Byte>): (p: Option<Parts>)
    requires |body| >= 4
  {
    if !Extensible(v6, kind) || body[LengthAt(v6)] == 0 then Some(Parts(body[4..], []))
    else
      var padded: nat := body[LengthAt(v6)] as int * Unit(v6);
      if padded < MINIMUM_QUOTE || |body| < 4 + padded + 8 then None
      else if !ValidStructure(body[4 + padded..]) then None
      else
        var quote := Trimmed(body[4..4 + padded]);
        if quote.None? then None else Some(Parts(quote.value, body[4 + padded..][4..]))
  }

  function Parse(v6: bool, kind: Byte, code: Byte, body: seq<Byte>): (r: Option<IcmpError>) {
    if |body| < 4 || |body| > 65535 - 4 || !ValidCode(v6, kind, code) then None
    else
      var parts := SplitBody(v6, kind, body);
      if parts.None? then None
      else if NeedsPointerObject(v6, kind, code) && !HasPointerObject(parts.value.extensions) then None
      else if HeaderEnd(parts.value.quote, v6) < 0 then None
      else
        var wire := if v6 then Read32(body, 0) else Read16(body, 2);
        var mtu := if !HasMtu(v6, kind, code) then 0
          else if !v6 && wire == 0 then LegacyMtu(parts.value.quote) else wire;
        var pointer: nat := if !HasPointer(v6, kind) then 0 else if v6 then Read32(body, 0) else body[0];
        Some(IcmpError(v6, kind, code, mtu, pointer, parts.value.extensions, parts.value.quote))
  }

  // ---------------------------------------------------------------- the round trip

  /** The quote a receiver gets: untouched without extensions. */
  function Received(e: IcmpError): (quote: seq<Byte>) {
    var n := Declared(e.quote);
    if e.extensions == [] then e.quote
    else if 0 <= n <= |Padded(e)| then Padded(e)[..n] else Padded(e)
  }

  lemma DeclaredKeeps(quote: seq<Byte>, more: seq<Byte>, v6: bool)
    requires HeaderEnd(quote, v6) >= 0
    ensures Declared(quote + more) == Declared(quote)
  {
    var all := quote + more;
    assert all[0] == quote[0];
    if |quote| >= 40 {
      assert Read16(all, 4) == Read16(quote, 4) && all[6] == quote[6];
    }
    assert Read16(all, 2) == Read16(quote, 2);
  }

  /** It is the quote itself, up to zeros past the declared length or less than one unit of zero padding. */
  lemma ReceivedIsClose(e: IcmpError)
    requires Paddable(e.quote) && e.extensions != []
    ensures var n := Declared(e.quote); var r := Received(e);
      if 0 <= n <= |e.quote| then r == e.quote[..n] && AllZero(e.quote[n..])
      else e.quote <= r && |r| - |e.quote| < Unit(e.v6) && AllZero(r[|e.quote|..])
  {
    var n := Declared(e.quote);
    if 0 <= n <= |e.quote| {
      assert Padded(e)[..n] == e.quote[..n];
    }
  }

  lemma StructureIsValid(extensions: seq<Byte>)
    requires ValidExtensions(extensions)
    ensures ValidStructure(Structure(extensions)) && Structure(extensions)[4..] == extensions
  {
    var bare := [VERSION * 16, 0, 0, 0] + extensions;
    VerifiesExactlyWhenStored(bare, 2, Internet(bare));
    assert Structure(extensions)[4..] == extensions;
    assert extensions != [];
  }

  /** Any body put together from matching parts comes apart into them. */
  lemma SplitOfParts(v6: bool, kind: Byte, head: seq<Byte>, padded: seq<Byte>, quote: seq<Byte>, extensions: seq<Byte>)
    requires Extensible(v6, kind) && |head| == 4 && head[LengthAt(v6)] != 0
    requires head[LengthAt(v6)] as int * Unit(v6) == |padded| >= MINIMUM_QUOTE
    requires ValidExtensions(extensions) && Trimmed(padded) == Some(quote)
    ensures SplitBody(v6, kind, head + padded + Structure(extensions)) == Some(Parts(quote, extensions))
  {
    var body := head + padded + Structure(extensions);
    assert body[4 + |padded|..] == Structure(extensions) && body[4..4 + |padded|] == padded;
    StructureIsValid(extensions);
  }

  lemma TrimmedReceived(e: IcmpError)
    requires HeaderEnd(e.quote, e.v6) >= 0 && Paddable(e.quote) && e.extensions != []
    ensures Trimmed(Padded(e)) == Some(Received(e))
  {
    DeclaredKeeps(e.quote, Padded(e)[|e.quote|..], e.v6);
    assert Padded(e) == e.quote + Padded(e)[|e.quote|..];
    var n := Declared(e.quote);
    if 0 <= n <= |Padded(e)| {
      forall i | 0 <= i < |Padded(e)[n..]| ensures Padded(e)[n..][i] == 0 {
        if n + i < |e.quote| {
          assert e.quote[n..][i] == 0;
        }
      }
    }
  }

  /** The error as a receiver of `quote` sees it. */
  function WithQuote(e: IcmpError, quote: seq<Byte>): (r: IcmpError) {
    e.(quote := quote, mtu := if HasMtu(e.v6, e.kind, e.code) && !e.v6 && e.mtu == 0 then LegacyMtu(quote) else e.mtu)
  }

  /** The type-specific octets, read back from any body that keeps them. */
  lemma FieldsReadBack(e: IcmpError, body: seq<Byte>)
    requires FieldsFit(e) && |body| >= 4
    requires HasMtu(e.v6, e.kind, e.code) && e.v6 ==> body[..4] == Fields(e)
    requires HasMtu(e.v6, e.kind, e.code) && !e.v6 ==> body[2..4] == Fields(e)[2..4]
    requires HasPointer(e.v6, e.kind) && e.v6 ==> body[..4] == Fields(e)
    requires HasPointer(e.v6, e.kind) && !e.v6 ==> body[0] == Fields(e)[0]
    ensures HasMtu(e.v6, e.kind, e.code) ==> e.mtu == if e.v6 then Read32(body, 0) else Read16(body, 2)
    ensures HasPointer(e.v6, e.kind) ==> e.pointer == if e.v6 then Read32(body, 0) else body[0]
  {
    if e.v6 {
      if HasMtu(e.v6, e.kind, e.code) || HasPointer(e.v6, e.kind) {
        assert forall i :: 0 <= i < 4 ==> body[i] == body[..4][i];
      }
    } else if HasMtu(e.v6, e.kind, e.code) {
      assert body[2] == body[2..4][0] && body[3] == body[2..4][1];
    }
  }

  /** The body of an error with extensions, taken apart. */
  lemma AssembledSplits(e: IcmpError)
    requires FieldsFit(e) && LengthFits(e) && Extensible(e.v6, e.kind) && ValidExtensions(e.extensions) && e.extensions != []
    requires Trimmed(Padded(e)) == Some(Received(e))
    ensures SplitBody(e.v6, e.kind, Assembled(e)) == Some(Parts(Received(e), e.extensions))
    ensures |Assembled(e)| == 8 + PaddedLength(e.v6, e.quote) + |e.extensions|
    ensures Assembled(e)[..4] == Fields(e)[LengthAt(e.v6) := PaddedLength(e.v6, e.quote) / Unit(e.v6)]
  {
    var head := Fields(e)[LengthAt(e.v6) := PaddedLength(e.v6, e.quote) / Unit(e.v6)];
    SplitOfParts(e.v6, e.kind, head, Padded(e), Received(e), e.extensions);
    assert Assembled(e) == head + Padded(e) + Structure(e.extensions);
  }

  /** Parsing, once the body is known to come apart. */
  lemma ParseOfParts(e: IcmpError, body: seq<Byte>, parts: Parts)
    requires 4 <= |body| <= 65535 - 4 && ValidCode(e.v6, e.kind, e.code) && FieldsFit(e)
    requires SplitBody(e.v6, e.kind, body) == Some(parts) && parts.extensions == e.extensions
    requires NeedsPointerObject(e.v6, e.kind, e.code) ==> HasPointerObject(e.extensions)
    requires HasMtu(e.v6, e.kind, e.code) ==> e.mtu == if e.v6 then Read32(body, 0) else Read16(body, 2)
    requires HasPointer(e.v6, e.kind) ==> e.pointer == if e.v6 then Read32(body, 0) else body[0]
    ensures var p := Parse(e.v6, e.kind, e.code, body);
      && (p.Some? <==> HeaderEnd(parts.quote, e.v6) >= 0)
      && (p.Some? ==> p.value == WithQuote(e, parts.quote))
  {
  }

  /**
   * A built message parses back exactly when the receiver's quote still holds the whole quoted header chain;
   * extensions, type and fields return unchanged except an omitted IPv4 MTU, which is inferred.
   */
  lemma RoundTrip(e: IcmpError)
    requires Build(e).Ok?
    ensures var p := Parse(e.v6, e.kind, e.code, Build(e).value);
      && (p.Some? <==> HeaderEnd(Received(e), e.v6) >= 0)
      && (p.Some? ==> p.value == WithQuote(e, Received(e)))
  {
    var body := Build(e).value;
    if e.extensions == [] {
      PlainSplits(e, body);
    } else {
      TrimmedReceived(e);
      AssembledSplits(e);
    }
    FieldsReadBack(e, body);
    ParseOfParts(e, body, Parts(Received(e), e.extensions));
  }

  /** The body of an error without extensions, taken apart. */
  lemma PlainSplits(e: IcmpError, body: seq<Byte>)
    requires FieldsFit(e) && e.extensions == [] && body == Fields(e) + e.quote
    ensures body[..4] == Fields(e) && SplitBody(e.v6, e.kind, body) == Some(Parts(e.quote, []))
  {
    assert body[4..] == e.quote && body[..4] == Fields(e);
    assert Extensible(e.v6, e.kind) ==> body[LengthAt(e.v6)] == Fields(e)[LengthAt(e.v6)] == 0;
  }

  /** The receiver's quote holds the header chain exactly when the chain lies inside the declared length. */
  lemma ChainInsideDeclared(e: IcmpError)
    requires Build(e).Ok? && e.extensions != []
    ensures HeaderEnd(Received(e), e.v6) >= 0 <==> (0 <= Declared(e.quote) <= |e.quote| ==> HeaderEnd(e.quote, e.v6) <= Declared(e.quote))
  {
    ReceivedIsClose(e);
    var n := Declared(e.quote);
    if 0 <= n <= |e.quote| {
      HeaderCut(e.quote, n, e.v6);
    } else {
      HeaderGrown(e.quote, Received(e), e.v6);
    }
  }

  /** Cutting a quote keeps its header chain exactly when the chain ends before the cut. */
  lemma HeaderCut(quote: seq<Byte>, n: nat, v6: bool)
    requires n <= |quote| && HeaderEnd(quote, v6) >= 0 && n == Declared(quote)
    ensures HeaderEnd(quote[..n], v6) >= 0 <==> HeaderEnd(quote, v6) <= n
  {
    if v6 {
      assert quote[..n][8..24] == quote[8..24] && quote[..n][24..40] == quote[24..40];
      ChainCut(quote[6], quote, n, 40);
    }
  }

  lemma {:induction false} ChainCut(next: Byte, quote: seq<Byte>, n: nat, at: nat)
    requires 40 <= at <= n <= |quote| && ChainEnd(next, quote, at) >= 0
    ensures ChainEnd(next, quote[..n], at) == if ChainEnd(next, quote, at) <= n then ChainEnd(next, quote, at) else -1
    decreases |quote| - at
  {
    if next != Chain.NO_NEXT_HEADER && next != Chain.MOBILITY && Chain.Traversable(next) {
      var k := Chain.LengthOf(next, quote[at..]);
      LinkCut(next, quote, n, at, k);
      if at + k <= n {
        ChainCut(quote[at], quote, n, at + k);
      }
    }
  }

  /** One header of a quote that is cut: still there if the cut is behind it. */
  lemma LinkCut(next: Byte, quote: seq<Byte>, n: nat, at: nat, k: nat)
    requires 40 <= at <= n <= |quote| && k == Chain.LengthOf(next, quote[at..])
    ensures Chain.LengthOf(next, quote[..n][at..]) == if at + k <= n then k else -1
    ensures at + k <= n ==> quote[..n][at] == quote[at] && Read16(quote[..n], at + 2) == Read16(quote, at + 2)
  {
    assert quote[..n][at..] == quote[at..][..n - at];
  }

  lemma HeaderGrown(quote: seq<Byte>, longer: seq<Byte>, v6: bool)
    requires quote <= longer && HeaderEnd(quote, v6) >= 0
    ensures HeaderEnd(longer, v6) == HeaderEnd(quote, v6)
  {
    var n := |quote|;
    assert longer[..n] == quote;
    assert forall i :: 0 <= i < n ==> longer[i] == longer[..n][i];
    if v6 {
      assert longer[8..24] == quote[8..24] && longer[24..40] == quote[24..40];
      ChainGrown(quote[6], quote, longer, 40);
    }
  }

  lemma {:induction false} ChainGrown(next: Byte, quote: seq<Byte>, longer: seq<Byte>, at: nat)
    requires 40 <= at <= |quote| && quote <= longer && ChainEnd(next, quote, at) >= 0
    ensures ChainEnd(next, longer, at) == ChainEnd(next, quote, at)
    decreases |quote| - at
  {
    if next != Chain.NO_NEXT_HEADER && next != Chain.MOBILITY && Chain.Traversable(next) {
      var rest, more := quote[at..], longer[at..];
      assert rest == more[..|rest|];
      var k := Chain.LengthOf(next, rest);
      assert Chain.LengthOf(next, more) == k;
      assert longer[at] == quote[at] && Read16(longer, at + 2) == Read16(quote, at + 2);
      ChainGrown(quote[at], quote, longer, at + k);
    }
  }

  /**
   * A built message parses back exactly when the quoted header chain lies inside the declared length, wherever the quote
   * reaches that length and extensions follow it; what comes back is the error itself, with the quote the receiver keeps
   * and an omitted IPv4 MTU inferred.
   */
  lemma BuiltMessageParses(e: IcmpError)
    requires Build(e).Ok?
    ensures var p := Parse(e.v6, e.kind, e.code, Build(e).value); var n := Declared(e.quote);
      && (p.Some? <==> (e.extensions != [] && 0 <= n <= |e.quote| ==> HeaderEnd(e.quote, e.v6) <= n))
      && (p.Some? ==> p.value == WithQuote(e, Received(e)))
  {
    RoundTrip(e);
    if e.extensions != [] {
      ChainInsideDeclared(e);
    }
  }

  /** A quote that declares eight octets of payload, and whose Destination Options header takes sixteen. */
  function LongQuote(): (quote: seq<Byte>)
    ensures |quote| == 56
  {
    [0x60, 0, 0, 0, 0, 8, Chain.DESTINATION, 64] + seq(32, _ => 1) + [Chain.NO_NEXT_HEADER, 1] + Zeros(14)
  }

  /** An error that can be built and not be parsed: its receiver trims the quote in the middle of a quoted header. */
  lemma BuiltButNotParsed()
    ensures var e := IcmpError(true, V6_UNREACHABLE, 0, 0, 0, [0, 4, 1, 1], LongQuote());
      Build(e).Ok? && Parse(e.v6, e.kind, e.code, Build(e).value).None?
  {
    var e := IcmpError(true, V6_UNREACHABLE, 0, 0, 0, [0, 4, 1, 1], LongQuote());
    var q := LongQuote();
    assert q[8] == 1 && q[24] == 1 && q[8..24][0] == 1 && q[24..40][0] == 1;
    assert Read16(q, 4) == 8 && Declared(q) == 48 && AllZero(q[48..]);
    assert q[40] == Chain.NO_NEXT_HEADER && q[40..][1] == 1 && Chain.LengthOf(Chain.DESTINATION, q[40..]) == 16;
    assert ChainEnd(Chain.NO_NEXT_HEADER, q, 56) == 56;
    assert HeaderEnd(q, true) == 56;
    var objects := [0, 4, 1, 1];
    assert Read16(objects, 0) == 4 && objects[4..] == [] && Objects([]) == Some([]);
    assert ValidExtensions(objects);
    BuiltMessageParses(e);
  }
}
