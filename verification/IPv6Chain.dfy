/** IPv6 extension-header chains: splitting and joining them, and three further walkers that must agree (section 4 of RFC 8200). */
module IPv6Chain {
  import opened Wrappers
  import opened Bytes

  const HOP_BY_HOP := 0
  const ROUTING := 43
  const FRAGMENT := 44
  const AUTHENTICATION := 51
  const NO_NEXT_HEADER := 59
  const DESTINATION := 60
  const MOBILITY := 135

  const PAD_ONE := 0
  const HOME_ADDRESS := 201
  const JUMBO := 194

  /** One extension header; `data` is everything behind its own Next Header octet. */
  datatype Header = Header(kind: Byte, data: seq<Byte>)

  /** A chain taken apart: its headers, the final Next Header value, and what follows. */
  datatype Chain = Chain(headers: seq<Header>, protocol: Byte, payload: seq<Byte>)

  /** The headers whose length and successor are visible without further state. */
  predicate Traversable(kind: Byte) {
    kind in {HOP_BY_HOP, ROUTING, FRAGMENT, AUTHENTICATION, DESTINATION, MOBILITY}
  }

  // ---------------------------------------------------------------- one header

  /** The complete length a header's second octet announces, zero if it cannot. */
  function LengthField(kind: Byte, field: Byte): (n: nat) {
    if kind == AUTHENTICATION then if field < 2 || field % 2 == 1 then 0 else (field + 2) * 4
    else (field + 1) * 8
  }

  /** The length of the header at the front of `rest`, or -1. */
  function LengthOf(kind: Byte, rest: seq<Byte>): (n: int)
    ensures n == -1 || 8 <= n <= |rest|
  {
    if kind == FRAGMENT then if |rest| >= 8 then 8 else -1
    else if |rest| < 2 || LengthField(kind, rest[1]) == 0 || LengthField(kind, rest[1]) > |rest| then -1
    else LengthField(kind, rest[1])
  }

  /** Whether header data carries its own length, as the joining side checks it. */
  predicate WholeData(kind: Byte, data: seq<Byte>) {
    |data| >= 1 && (if kind == FRAGMENT then |data| == 7 else LengthField(kind, data[0]) != 0 && |data| == LengthField(kind, data[0]) - 1)
  }

  /** An option area: framed to its end, without a jumbo payload option, from `at` on. */
  predicate GoodOptions(options: seq<Byte>, at: nat)
    requires at <= |options|
    decreases |options| - at
  {
    if at == |options| then true
    else if options[at] == PAD_ONE then GoodOptions(options, at + 1)
    else if |options| - at < 2 || at + 2 + options[at + 1] > |options| then false
    else options[at] != JUMBO && GoodOptions(options, at + 2 + options[at + 1])
  }

  /** An option area framed to its end, from `at` on. */
  predicate FramedOptions(options: seq<Byte>, at: nat)
    requires at <= |options|
    decreases |options| - at
  {
    if at == |options| then true
    else if options[at] == PAD_ONE then FramedOptions(options, at + 1)
    else |options| - at >= 2 && at + 2 + options[at + 1] <= |options| && FramedOptions(options, at + 2 + options[at + 1])
  }

  /** An option of one kind stands at or behind `at`. */
  predicate HasOption(options: seq<Byte>, at: nat, kind: Byte)
    requires at <= |options| && FramedOptions(options, at)
    decreases |options| - at
  {
    if at == |options| then false
    else if options[at] == PAD_ONE then HasOption(options, at + 1, kind)
    else options[at] == kind || HasOption(options, at + 2 + options[at + 1], kind)
  }

  lemma {:induction false} GoodMeans(options: seq<Byte>, at: nat)
    requires at <= |options|
    ensures GoodOptions(options, at) <==> FramedOptions(options, at) && !HasOption(options, at, JUMBO)
    decreases |options| - at
  {
    if at < |options| {
      if options[at] == PAD_ONE {
        GoodMeans(options, at + 1);
      } else if |options| - at >= 2 && at + 2 + options[at + 1] <= |options| {
        GoodMeans(options, at + 2 + options[at + 1]);
      }
    }
  }

  /** The loop over one option area; a broken one has neither option. */
  method InspectOptions(options: seq<Byte>) returns (valid: bool, homeAddress: bool, jumbo: bool)
    ensures valid <==> FramedOptions(options, 0)
    ensures homeAddress <==> valid && HasOption(options, 0, HOME_ADDRESS)
    ensures jumbo <==> valid && HasOption(options, 0, JUMBO)
    ensures valid && !jumbo <==> GoodOptions(options, 0)
  {
    GoodMeans(options, 0);
    homeAddress, jumbo := false, false;
    var offset := 0;
    while offset < |options|
      invariant 0 <= offset <= |options| && FramedOptions(options, 0) == FramedOptions(options, offset)
      invariant FramedOptions(options, 0) ==>
        && (HasOption(options, 0, HOME_ADDRESS) <==> homeAddress || HasOption(options, offset, HOME_ADDRESS))
        && (HasOption(options, 0, JUMBO) <==> jumbo || HasOption(options, offset, JUMBO))
    {
      if options[offset] == PAD_ONE {
        offset := offset + 1;
        continue;
      }
      if |options| - offset < 2 {
        return false, false, false;
      }
      var length: int := options[offset + 1] as int + 2;
      if length > |options| - offset {
        return false, false, false;
      }
      homeAddress := homeAddress || options[offset] == HOME_ADDRESS;
      jumbo := jumbo || options[offset] == JUMBO;
      offset := offset + length;
    }
    return true, homeAddress, jumbo;
  }

  predicate HasOptions(kind: Byte) { kind == HOP_BY_HOP || kind == DESTINATION }

  /** What one header must satisfy wherever it stands. */
  predicate GoodHeader(h: Header) {
    Traversable(h.kind) && WholeData(h.kind, h.data) && (HasOptions(h.kind) ==> GoodOptions(h.data[1..], 0))
  }

  // ---------------------------------------------------------------- fragment fields

  /** Offset and More flag of a Fragment header's data. */
  function OffsetOf(data: seq<Byte>): (n: nat)
    requires |data| == 7
  {
    Read16(data, 1) / 8 * 8
  }

  predicate MoreOf(data: seq<Byte>)
    requires |data| == 7
  {
    Read16(data, 1) % 2 == 1
  }

  predicate Atomic(data: seq<Byte>)
    requires |data| == 7
  {
    OffsetOf(data) == 0 && !MoreOf(data)
  }

  /** The bounds of a fragment's offset, M flag and payload. */
  predicate ValidFragment(data: seq<Byte>, size: nat)
    requires |data| == 7
  {
    && ((OffsetOf(data) != 0 || MoreOf(data)) ==> size != 0)
    && (MoreOf(data) ==> size % 8 == 0)
    && OffsetOf(data) + size <= 65535
  }

  // ---------------------------------------------------------------- taking a chain apart

  /** The chain in front of `rest`; `first` right behind the base header, `seen` once a Fragment header has passed. */
  function Split(next: Byte, rest: seq<Byte>, first: bool, seen: bool): (c: Option<Chain>)
    decreases |rest|
  {
    if !Traversable(next) then Some(Chain([], next, rest))
    else if next == HOP_BY_HOP && !first then None
    else
      var n := LengthOf(next, rest);
      if n < 0 then None
      else
        var h := Header(next, rest[1..n]);
        if HasOptions(next) && !GoodOptions(rest[2..n], 0) then None
        else if next == FRAGMENT && (seen || !ValidFragment(h.data, |rest| - n)) then None
        else if next == FRAGMENT && !Atomic(h.data) then Some(Chain([h], rest[0], rest[n..]))
        else
          Behind([h], Split(rest[0], rest[n..], false, seen || next == FRAGMENT))
  }

  /** A chain with more headers in front. */
  function Behind(headers: seq<Header>, c: Option<Chain>): (r: Option<Chain>) {
    if c.None? then None else Some(Chain(headers + c.value.headers, c.value.protocol, c.value.payload))
  }

  lemma BehindNothing(c: Option<Chain>)
    ensures Behind([], c) == c
  {
    if c.Some? {
      assert [] + c.value.headers == c.value.headers;
    }
  }

  lemma BehindOne(headers: seq<Header>, h: Header, c: Option<Chain>)
    ensures Behind(headers, Behind([h], c)) == Behind(headers + [h], c)
  {
    if c.Some? {
      assert headers + ([h] + c.value.headers) == headers + [h] + c.value.headers;
    }
  }

  /** The walk has taken `headers` off a payload whose whole chain is `goal`. */
  ghost predicate Splitting(goal: Option<Chain>, payload: seq<Byte>, headers: seq<Header>, next: Byte, offset: nat, seen: bool) {
    offset <= |payload| && goal == Behind(headers, Split(next, payload[offset..], offset == 0, seen))
  }

  /** A header that passes its own checks, in front of the rest. */
  lemma SplitTakes(next: Byte, rest: seq<Byte>, first: bool, seen: bool, n: nat, h: Header)
    requires Traversable(next) && (next == HOP_BY_HOP ==> first) && n == LengthOf(next, rest) && h == Header(next, rest[1..n])
    requires HasOptions(next) ==> GoodOptions(rest[2..n], 0)
    requires next == FRAGMENT ==> !seen && ValidFragment(h.data, |rest| - n)
    ensures Split(next, rest, first, seen) ==
      if next == FRAGMENT && !Atomic(h.data) then Some(Chain([h], rest[0], rest[n..]))
      else Behind([h], Split(rest[0], rest[n..], false, seen || next == FRAGMENT))
  {
  }

  /** One header of the walk, of length `n` and checked by itself. */
  lemma SplitStep(goal: Option<Chain>, payload: seq<Byte>, headers: seq<Header>, next: Byte, offset: nat, seen: bool, n: nat, h: Header)
    requires Splitting(goal, payload, headers, next, offset, seen) && Traversable(next) && !(next == HOP_BY_HOP && offset != 0)
    requires n == LengthOf(next, payload[offset..]) && h == Header(next, payload[offset + 1..offset + n])
    requires HasOptions(next) ==> GoodOptions(payload[offset + 2..offset + n], 0)
    requires next == FRAGMENT ==> !seen && ValidFragment(h.data, |payload| - offset - n)
    ensures if next == FRAGMENT && !Atomic(h.data) then goal == Some(Chain(headers + [h], payload[offset], payload[offset + n..]))
      else Splitting(goal, payload, headers + [h], payload[offset], offset + n, seen || next == FRAGMENT)
  {
    var rest := payload[offset..];
    Slices(payload, offset, n);
    SplitTakes(next, rest, offset == 0, seen, n, h);
    BehindOne(headers, h, Split(payload[offset], payload[offset + n..], false, seen || next == FRAGMENT));
  }

  lemma Slices(payload: seq<Byte>, offset: nat, n: nat)
    requires 2 <= n && offset + n <= |payload|
    ensures var rest := payload[offset..];
      && rest[0] == payload[offset] && rest[n..] == payload[offset + n..]
      && rest[1..n] == payload[offset + 1..offset + n] && rest[2..n] == payload[offset + 2..offset + n]
  {
  }

  /** A header that fails its own checks makes the whole chain invalid. */
  lemma SplitFails(goal: Option<Chain>, payload: seq<Byte>, headers: seq<Header>, next: Byte, offset: nat, seen: bool)
    requires Splitting(goal, payload, headers, next, offset, seen) && Traversable(next)
    ensures next == HOP_BY_HOP && offset != 0 ==> goal == None
    ensures var n := LengthOf(next, payload[offset..]);
      && (n < 0 ==> goal == None)
      && (n >= 0 && HasOptions(next) && !GoodOptions(payload[offset + 2..offset + n], 0) ==> goal == None)
      && (n >= 0 && next == FRAGMENT && (seen || !ValidFragment(payload[offset + 1..offset + n], |payload| - offset - n)) ==> goal == None)
  {
    var rest := payload[offset..];
    var n := LengthOf(next, rest);
    if n >= 0 {
      Slices(payload, offset, n);
    }
  }

  /** The checks on a header's own octets. */
  method CheckTaken(h: Header, seen: bool, size: nat) returns (sound: bool)
    requires |h.data| >= 7 && (h.kind == FRAGMENT ==> |h.data| == 7)
    ensures sound <==> (HasOptions(h.kind) ==> GoodOptions(h.data[1..], 0)) && (h.kind == FRAGMENT ==> !seen && ValidFragment(h.data, size))
  {
    if HasOptions(h.kind) {
      var valid, home, jumbo := InspectOptions(h.data[1..]);
      sound := valid && !jumbo;
    } else {
      sound := h.kind != FRAGMENT || (!seen && ValidFragment(h.data, size));
    }
  }

  /** The split with the header at `offset` taken: at its end behind a fragment's header, else one header further. */
  ghost predicate Taken(goal: Option<Chain>, payload: seq<Byte>, headers: seq<Header>, offset: nat, seen: bool, h: Header) {
    && offset + 1 + |h.data| <= |payload| && |h.data| >= 7 && (h.kind == FRAGMENT ==> |h.data| == 7)
    && if h.kind == FRAGMENT && !Atomic(h.data) then goal == Some(Chain(headers + [h], payload[offset], payload[offset + 1 + |h.data|..]))
       else Splitting(goal, payload, headers + [h], payload[offset], offset + 1 + |h.data|, seen || h.kind == FRAGMENT)
  }

  /** Takes the header at `offset`; nothing if it makes the chain invalid. */
  method TakeHeader(payload: seq<Byte>, next: Byte, offset: nat, seen: bool, ghost goal: Option<Chain>, ghost headers: seq<Header>)
    returns (h: Option<Header>)
    requires Splitting(goal, payload, headers, next, offset, seen) && Traversable(next)
    ensures h.None? ==> goal == None
    ensures h.Some? ==> h.value.kind == next && Taken(goal, payload, headers, offset, seen, h.value)
  {
    SplitFails(goal, payload, headers, next, offset, seen);
    var n := LengthOf(next, payload[offset..]);
    h := None;
    if n >= 0 && !(next == HOP_BY_HOP && offset != 0) {
      var taken := Header(next, payload[offset + 1..offset + n]);
      assert taken.data[1..] == payload[offset + 2..offset + n];
      var sound := CheckTaken(taken, seen, |payload| - offset - n);
      if sound {
        SplitStep(goal, payload, headers, next, offset, seen, 1 + |taken.data|, taken);
        assert Taken(goal, payload, headers, offset, seen, taken);
        h := Some(taken);
      }
    }
  }

  /** The loop that splits a packet's chain. */
  method ExtensionHeaders(protocol: Byte, payload: seq<Byte>) returns (c: Option<Chain>)
    ensures c == Split(protocol, payload, true, false)
  {
    var next, offset, seenFragment := protocol, 0, false;
    var headers: seq<Header> := [];
    ghost var goal := Split(protocol, payload, true, false);
    assert payload[0..] == payload;
    BehindNothing(goal);
    while Traversable(next)
      invariant Splitting(goal, payload, headers, next, offset, seenFragment)
      decreases |payload| - offset
    {
      var h := TakeHeader(payload, next, offset, seenFragment, goal, headers);
      if h.None? {
        return None;
      }
      headers := headers + [h.value];
      var behind := offset + 1 + |h.value.data|;
      if next == FRAGMENT && !Atomic(h.value.data) {
        return Some(Chain(headers, payload[offset], payload[behind..]));
      }
      seenFragment := seenFragment || next == FRAGMENT;
      next, offset := payload[offset], behind;
    }
    assert headers + [] == headers;
    return Some(Chain(headers, next, payload[offset..]));
  }

  // ---------------------------------------------------------------- putting a chain together

  datatype Joined = Joined(protocol: Byte, payload: seq<Byte>) | Refused(error: Error)

  /** What the link in front of a chain must say. */
  function First(c: Chain): (kind: Byte) {
    if c.headers == [] then c.protocol else c.headers[0].kind
  }

  function Rest(c: Chain): (r: Chain)
    requires c.headers != []
  {
    Chain(c.headers[1..], c.protocol, c.payload)
  }

  /** The octets of a chain: each header linked to the next, then the payload. */
  function Encoded(c: Chain): (bytes: seq<Byte>)
    decreases |c.headers|
  {
    if c.headers == [] then c.payload else [First(Rest(c))] + c.headers[0].data + Encoded(Rest(c))
  }

  /** The strict rules for a chain whose first header follows the base header when `first`. */
  ghost predicate Proper(c: Chain, first: bool, seen: bool)
    decreases |c.headers|
  {
    if c.headers == [] then !Traversable(c.protocol)
    else
      var h := c.headers[0];
      && GoodHeader(h)
      && (h.kind == HOP_BY_HOP ==> first)
      && (h.kind == FRAGMENT ==> !seen)
      && if h.kind == FRAGMENT && !Atomic(h.data) then |c.headers| == 1 && ValidFragment(h.data, |c.payload|)
         else Proper(Rest(c), false, seen || h.kind == FRAGMENT)
  }

  lemma EncodedFront(c: Chain)
    requires c.headers != [] && GoodHeader(c.headers[0])
    ensures var bytes := Encoded(c); var h := c.headers[0]; var n := 1 + |h.data|;
      && n <= |bytes| && LengthOf(h.kind, bytes) == n && bytes[0] == First(Rest(c))
      && bytes[1..n] == h.data && bytes[2..n] == h.data[1..] && bytes[n..] == Encoded(Rest(c))
  {
    var bytes := Encoded(c);
    assert bytes[1] == c.headers[0].data[0];
  }

  lemma AtomicIsValid(data: seq<Byte>, size: nat)
    requires |data| == 7 && Atomic(data) && size <= 65535
    ensures ValidFragment(data, size)
  {
  }

  /** Joining and then splitting gives the chain back. */
  lemma {:induction false} SplitOfJoin(c: Chain, first: bool, seen: bool)
    requires Proper(c, first, seen) && |Encoded(c)| <= 65535
    ensures Split(First(c), Encoded(c), first, seen) == Some(c)
    decreases |c.headers|
  {
    if c.headers != [] {
      var h := c.headers[0];
      EncodedFront(c);
      if h.kind == FRAGMENT && !Atomic(h.data) {
        assert c.headers == [h] && Encoded(Rest(c)) == c.payload;
        SplitTakes(h.kind, Encoded(c), first, seen, 1 + |h.data|, h);
      } else {
        if h.kind == FRAGMENT {
          AtomicIsValid(h.data, |Encoded(c)| - 8);
        }
        SplitTakes(h.kind, Encoded(c), first, seen, 1 + |h.data|, h);
        SplitOfJoin(Rest(c), false, seen || h.kind == FRAGMENT);
        assert c.headers == [h] + c.headers[1..];
      }
    }
  }

  /** Splitting and then joining gives the octets back, and only proper chains are ever produced. */
  lemma {:induction false} JoinOfSplit(next: Byte, rest: seq<Byte>, first: bool, seen: bool)
    requires Split(next, rest, first, seen).Some?
    ensures var c := Split(next, rest, first, seen).value; Proper(c, first, seen) && First(c) == next && Encoded(c) == rest
    decreases |rest|
  {
    if Traversable(next) {
      var n := LengthOf(next, rest);
      var h := Header(next, rest[1..n]);
      assert h.data[1..] == rest[2..n] && h.data[0] == rest[1];
      assert rest == [rest[0]] + rest[1..n] + rest[n..];
      var c := Split(next, rest, first, seen).value;
      if next == FRAGMENT && !Atomic(h.data) {
        assert Rest(c) == Chain([], rest[0], rest[n..]);
      } else {
        JoinOfSplit(rest[0], rest[n..], false, seen || next == FRAGMENT);
        var d := Split(rest[0], rest[n..], false, seen || next == FRAGMENT).value;
        assert Rest(c) == d;
      }
    }
  }

  lemma {:induction false} EncodedSize(c: Chain)
    ensures |Encoded(c)| >= |c.payload|
    decreases |c.headers|
  {
    if c.headers != [] {
      EncodedSize(Rest(c));
    }
  }

  /** What is wrong with one header, the checks in their order. */
  function HeaderFault(h: Header, first: bool, seen: bool, last: bool, size: nat): (f: Option<Error>) {
    if !Traversable(h.kind) then Some(Unsupported)
    else if h.kind == HOP_BY_HOP && !first then Some(Invalid)
    else if !WholeData(h.kind, h.data) || (HasOptions(h.kind) && !GoodOptions(h.data[1..], 0)) then Some(Invalid)
    else if h.kind == FRAGMENT && (seen || (!Atomic(h.data) && (!last || !ValidFragment(h.data, size)))) then Some(Invalid)
    else None
  }

  /** The first thing wrong with a chain, from its first header on, `total` octets being accounted for already. */
  function Fault(c: Chain, first: bool, seen: bool, total: int): (f: Option<Error>)
    decreases |c.headers|
  {
    if c.headers == [] then if Traversable(c.protocol) then Some(Invalid) else None
    else
      var h := c.headers[0];
      var fault := HeaderFault(h, first, seen, |c.headers| == 1, |c.payload|);
      if fault.Some? then fault
      else if |h.data| >= 65535 - total then Some(TooLarge)
      else if h.kind == FRAGMENT && !Atomic(h.data) then None
      else Fault(Rest(c), false, seen || h.kind == FRAGMENT, total + 1 + |h.data|)
  }

  /** Nothing is wrong exactly with the proper chains that fit one packet. */
  lemma {:induction false} FaultMeans(c: Chain, first: bool, seen: bool, total: int)
    requires total <= 65535
    ensures var f := Fault(c, first, seen, total);
      && (f.None? <==> Proper(c, first, seen) && total + |Encoded(c)| - |c.payload| <= 65535)
      && (f == Some(TooLarge) ==> total + |Encoded(c)| - |c.payload| > 65535)
      && (f.Some? && f.value != TooLarge ==> !Proper(c, first, seen))
    decreases |c.headers|
  {
    if c.headers != [] {
      var h := c.headers[0];
      EncodedSize(Rest(c));
      if |h.data| < 65535 - total {
        FaultMeans(Rest(c), false, seen || h.kind == FRAGMENT, total + 1 + |h.data|);
      }
      if |c.headers| == 1 {
        assert Encoded(Rest(c)) == c.payload;
      }
    }
  }

  /** Sets a packet's chain, or says what is wrong first. It succeeds exactly for proper chains that fit one packet. */
  method SetExtensionHeaders(headers: seq<Header>, protocol: Byte, payload: seq<Byte>) returns (r: Joined)
    ensures var c := Chain(headers, protocol, payload); var fault := Fault(c, true, false, |payload|);
      && (r.Joined? <==> Proper(c, true, false) && |Encoded(c)| <= 65535)
      && (r.Joined? ==> r.protocol == First(c) && r.payload == Encoded(c))
      && (r.Refused? ==> if |payload| > 65535 then r.error == TooLarge else fault == Some(r.error))
  {
    ghost var c := Chain(headers, protocol, payload);
    EncodedSize(c);
    if |payload| > 65535 {
      return Refused(TooLarge);
    }
    FaultMeans(c, true, false, |payload|);
    var verdict := CheckHeaders(headers, protocol, payload);
    if verdict.Some? {
      return Refused(verdict.value);
    }
    var encoded := EncodeChain(headers, protocol, payload);
    r := Joined(if |headers| == 0 then protocol else headers[0].kind, encoded);
  }

  /** Links every header to the next and the last one to the payload. */
  method EncodeChain(headers: seq<Header>, protocol: Byte, payload: seq<Byte>) returns (encoded: seq<Byte>)
    ensures encoded == Encoded(Chain(headers, protocol, payload))
  {
    ghost var whole := Encoded(Chain(headers, protocol, payload));
    encoded := [];
    for i := 0 to |headers|
      invariant encoded + Encoded(Chain(headers[i..], protocol, payload)) == whole
    {
      var next := if i + 1 < |headers| then headers[i + 1].kind else protocol;
      EncodeStep(headers, protocol, payload, i, encoded);
      encoded := encoded + ([next] + headers[i].data);
    }
    encoded := encoded + payload;
  }

  lemma EncodeStep(headers: seq<Header>, protocol: Byte, payload: seq<Byte>, i: nat, encoded: seq<Byte>)
    requires i < |headers|
    ensures var next := if i + 1 < |headers| then headers[i + 1].kind else protocol;
      encoded + Encoded(Chain(headers[i..], protocol, payload)) ==
        (encoded + ([next] + headers[i].data)) + Encoded(Chain(headers[i + 1..], protocol, payload))
  {
    var c := Chain(headers[i..], protocol, payload);
    assert Rest(c) == Chain(headers[i + 1..], protocol, payload);
    var tail := Encoded(Rest(c));
    assert Encoded(c) == ([First(Rest(c))] + headers[i].data) + tail;
  }

  /** The checks of one header. */
  method CheckHeader(h: Header, first: bool, seen: bool, last: bool, size: nat) returns (refused: Option<Error>)
    ensures refused == HeaderFault(h, first, seen, last, size)
  {
    if !Traversable(h.kind) {
      return Some(Unsupported);
    }
    if (h.kind == HOP_BY_HOP && !first) || !WholeData(h.kind, h.data) {
      return Some(Invalid);
    }
    if HasOptions(h.kind) {
      var valid, home, jumbo := InspectOptions(h.data[1..]);
      if !valid || jumbo {
        return Some(Invalid);
      }
    }
    if h.kind == FRAGMENT && (seen || (!Atomic(h.data) && (!last || !ValidFragment(h.data, size)))) {
      return Some(Invalid);
    }
    return None;
  }

  /** The checks before anything is written, in their order; nothing when all pass. */
  method CheckHeaders(headers: seq<Header>, protocol: Byte, payload: seq<Byte>) returns (refused: Option<Error>)
    ensures refused == Fault(Chain(headers, protocol, payload), true, false, |payload|)
  {
    ghost var goal := Fault(Chain(headers, protocol, payload), true, false, |payload|);
    var total, seenFragment, nonAtomic := |payload|, false, false;
    for i := 0 to |headers|
      invariant nonAtomic ==> i == |headers| && goal == None
      invariant !nonAtomic ==> goal == Fault(Chain(headers[i..], protocol, payload), i == 0, seenFragment, total)
    {
      var h := headers[i];
      assert headers[i..][1..] == headers[i + 1..] && headers[i..][0] == h;
      refused := CheckHeader(h, i == 0, seenFragment, i == |headers| - 1, |payload|);
      if refused.Some? {
        return;
      }
      nonAtomic := h.kind == FRAGMENT && !Atomic(h.data);
      if |h.data| >= 65535 - total {
        return Some(TooLarge);
      }
      seenFragment := seenFragment || h.kind == FRAGMENT;
      total := total + 1 + |h.data|;
    }
    if Traversable(protocol) && !nonAtomic {
      return Some(Invalid);
    }
    return None;
  }

  // ---------------------------------------------------------------- the other walkers

  /** The upper layer: its protocol and octets, and whether they are one fragment only. */
  datatype Upper = Upper(protocol: Byte, payload: seq<Byte>, nonAtomic: bool)

  /** The walker that decides whether a packet is valid; it hides what follows No Next Header. */
  function UpperLayer(next: Byte, rest: seq<Byte>, first: bool, seen: bool): (u: Option<Upper>)
    decreases |rest|
  {
    if next == NO_NEXT_HEADER then Some(Upper(next, [], false))
    else if !Traversable(next) then Some(Upper(next, rest, false))
    else if next == HOP_BY_HOP && !first then None
    else
      var n := LengthOf(next, rest);
      if n < 0 then None
      else if HasOptions(next) && !GoodOptions(rest[2..n], 0) then None
      else if next == FRAGMENT && (seen || !ValidFragment(rest[1..n], |rest| - n)) then None
      else if next == FRAGMENT && !Atomic(rest[1..n]) then Some(Upper(rest[0], rest[n..], true))
      else UpperLayer(rest[0], rest[n..], false, seen || next == FRAGMENT)
  }

  /** Whether a chain ends in a Fragment header of a larger datagram. */
  predicate EndsInFragment(c: Chain) {
    c.headers != [] && var h := c.headers[|c.headers| - 1]; h.kind == FRAGMENT && |h.data| == 7 && !Atomic(h.data)
  }

  /** Both walkers accept the same packets, with the same final protocol and payload except after No Next Header. */
  lemma {:induction false} UpperLayerAgrees(next: Byte, rest: seq<Byte>, first: bool, seen: bool)
    ensures UpperLayer(next, rest, first, seen).Some? <==> Split(next, rest, first, seen).Some?
    ensures Split(next, rest, first, seen).Some? ==>
      var c := Split(next, rest, first, seen).value; var u := UpperLayer(next, rest, first, seen).value;
      && u.protocol == c.protocol && u.nonAtomic == EndsInFragment(c)
      && u.payload == (if c.protocol == NO_NEXT_HEADER && !EndsInFragment(c) then [] else c.payload)
    decreases |rest|
  {
    if Traversable(next) && LengthOf(next, rest) >= 0 {
      var n := LengthOf(next, rest);
      UpperLayerAgrees(rest[0], rest[n..], false, seen || next == FRAGMENT);
      var more := Split(rest[0], rest[n..], false, seen || next == FRAGMENT);
      if more.Some? && (next != FRAGMENT || Atomic(rest[1..n])) {
        EndsBehind(Header(next, rest[1..n]), more.value);
      }
    }
  }

  lemma EndsBehind(h: Header, c: Chain)
    requires h.kind == FRAGMENT ==> |h.data| == 7 && Atomic(h.data)
    ensures EndsInFragment(Chain([h] + c.headers, c.protocol, c.payload)) == EndsInFragment(c)
  {
  }

  /** A Fragment header as one packet carries it. */
  datatype View = View(protocol: Byte, data: seq<Byte>, payload: seq<Byte>)

  /** The walker that only looks for a Fragment header. */
  function FragmentOf(next: Byte, rest: seq<Byte>): (v: Option<View>)
    decreases |rest|
  {
    if !Traversable(next) || LengthOf(next, rest) < 0 then None
    else
      var n := LengthOf(next, rest);
      if next == FRAGMENT then Some(View(rest[0], rest[1..n], rest[n..])) else FragmentOf(rest[0], rest[n..])
  }

  /** The Fragment header among the headers of a chain. */
  function FragmentIn(c: Chain): (v: Option<View>)
    decreases |c.headers|
  {
    if c.headers == [] then None
    else if c.headers[0].kind == FRAGMENT then Some(View(First(Rest(c)), c.headers[0].data, Encoded(Rest(c))))
    else FragmentIn(Rest(c))
  }

  /** On a valid packet it finds the Fragment header of the chain. */
  lemma {:induction false} FragmentAgrees(next: Byte, rest: seq<Byte>, first: bool, seen: bool)
    requires Split(next, rest, first, seen).Some?
    ensures FragmentOf(next, rest) == FragmentIn(Split(next, rest, first, seen).value)
    decreases |rest|
  {
    JoinOfSplit(next, rest, first, seen);
    var c := Split(next, rest, first, seen).value;
    if Traversable(next) {
      EncodedFront(c);
      if next != FRAGMENT {
        FragmentAgrees(rest[0], rest[LengthOf(next, rest)..], false, seen);
        assert Rest(c) == Split(rest[0], rest[LengthOf(next, rest)..], false, seen).value;
      }
    }
  }

  /** Where a Fragment header starts in the payload, and which octet of the packet names it. */
  datatype Place = Place(header: nat, link: nat)

  /** Octet of the packet that names what follows the header at `previous`. */
  function LinkOf(previous: int): (at: nat)
    requires previous >= -1
  {
    if previous < 0 then 6 else 40 + previous
  }

  /** The walker that locates the Fragment header for reassembly. */
  function Locate(next: Byte, payload: seq<Byte>, offset: nat, previous: int): (p: Option<Place>)
    requires offset <= |payload| && -1 <= previous < offset
    decreases |payload| - offset
  {
    if !Traversable(next) || LengthOf(next, payload[offset..]) < 0 then None
    else if next == FRAGMENT then Some(Place(offset, LinkOf(previous)))
    else Locate(payload[offset], payload, offset + LengthOf(next, payload[offset..]), offset)
  }

  /** It finds the same header, and the octet it returns really names it. */
  lemma {:induction false} LocateAgrees(base: seq<Byte>, next: Byte, payload: seq<Byte>, offset: nat, previous: int)
    requires |base| == 40 && offset <= |payload| && -1 <= previous < offset
    requires (base + payload)[LinkOf(previous)] == next
    ensures Locate(next, payload, offset, previous).Some? <==> FragmentOf(next, payload[offset..]).Some?
    ensures Locate(next, payload, offset, previous).Some? ==>
      var p := Locate(next, payload, offset, previous).value; var v := FragmentOf(next, payload[offset..]).value;
      && p.header + 8 <= |payload| && payload[p.header..p.header + 8] == [v.protocol] + v.data && payload[p.header + 8..] == v.payload
      && p.link < 40 + |payload| && (base + payload)[p.link] == FRAGMENT
    decreases |payload| - offset
  {
    var rest := payload[offset..];
    if Traversable(next) && LengthOf(next, rest) >= 0 {
      var n := LengthOf(next, rest);
      assert rest[n..] == payload[offset + n..] && rest[0] == payload[offset];
      if next == FRAGMENT {
        assert payload[offset..offset + 8] == [rest[0]] + rest[1..8];
      } else {
        LocateAgrees(base, payload[offset], payload, offset + n, offset);
      }
    }
  }

  // ---------------------------------------------------------------- the walkers as loops

  /** Whether the base addresses are unsafe for a pseudo-header: an unfinished Routing header, or a Home Address option. */
  predicate Unsafe(next: Byte, rest: seq<Byte>)
    decreases |rest|
  {
    if !Traversable(next) || LengthOf(next, rest) < 0 then false
    else
      var n := LengthOf(next, rest);
      || (HasOptions(next) && FramedOptions(rest[2..n], 0) && HasOption(rest[2..n], 0, HOME_ADDRESS))
      || (next == ROUTING && rest[3] != 0)
      || ((next == FRAGMENT ==> Atomic(rest[1..n])) && Unsafe(rest[0], rest[n..]))
  }

  method WalkUpperLayer(protocol: Byte, payload: seq<Byte>) returns (u: Option<Upper>, pseudoHeaderUnsafe: bool)
    ensures u == UpperLayer(protocol, payload, true, false)
    ensures pseudoHeaderUnsafe <==> u.Some? && Unsafe(protocol, payload)
  {
    var next, offset := protocol, 0;
    var seenHop, seenFragment := false, false;
    pseudoHeaderUnsafe := false;
    assert payload[0..] == payload;
    while true
      invariant 0 <= offset <= |payload| && (seenHop ==> offset != 0)
      invariant UpperLayer(protocol, payload, true, false) == UpperLayer(next, payload[offset..], offset == 0, seenFragment)
      invariant Unsafe(protocol, payload) <==> pseudoHeaderUnsafe || Unsafe(next, payload[offset..])
      decreases |payload| - offset
    {
      if next == NO_NEXT_HEADER {
        return Some(Upper(next, [], false)), pseudoHeaderUnsafe;
      }
      if !Traversable(next) {
        return Some(Upper(next, payload[offset..], false)), pseudoHeaderUnsafe;
      }
      var rest := payload[offset..];
      var n := LengthOf(next, rest);
      if n < 0 || (next == HOP_BY_HOP && (offset != 0 || seenHop)) {
        return None, false;
      }
      assert rest[n..] == payload[offset + n..];
      if HasOptions(next) {
        var valid, home, jumbo := InspectOptions(rest[2..n]);
        if !valid || jumbo {
          return None, false;
        }
        pseudoHeaderUnsafe := pseudoHeaderUnsafe || home;
      } else if next == ROUTING {
        pseudoHeaderUnsafe := pseudoHeaderUnsafe || rest[3] != 0;
      } else if next == FRAGMENT {
        if seenFragment || !ValidFragment(rest[1..n], |rest| - n) {
          return None, false;
        }
        if !Atomic(rest[1..n]) {
          return Some(Upper(rest[0], rest[n..], true)), pseudoHeaderUnsafe;
        }
        seenFragment := true;
      }
      seenHop := seenHop || next == HOP_BY_HOP;
      next, offset := rest[0], offset + n;
    }
  }

  method Fragment(protocol: Byte, payload: seq<Byte>) returns (v: Option<View>)
    ensures v == FragmentOf(protocol, payload)
  {
    var next, offset := protocol, 0;
    assert payload[0..] == payload;
    while Traversable(next)
      invariant 0 <= offset <= |payload|
      invariant FragmentOf(protocol, payload) == FragmentOf(next, payload[offset..])
      decreases |payload| - offset
    {
      var rest := payload[offset..];
      var n := LengthOf(next, rest);
      if n < 0 {
        return None;
      }
      if next == FRAGMENT {
        return Some(View(rest[0], rest[1..n], rest[n..]));
      }
      FragmentBehind(next, payload, offset, n);
      next, offset := payload[offset], offset + n;
    }
    return None;
  }

  lemma FragmentBehind(next: Byte, payload: seq<Byte>, offset: nat, n: nat)
    requires offset <= |payload| && Traversable(next) && next != FRAGMENT && LengthOf(next, payload[offset..]) == n
    ensures offset + n <= |payload| && FragmentOf(next, payload[offset..]) == FragmentOf(payload[offset], payload[offset + n..])
  {
    assert payload[offset..][n..] == payload[offset + n..];
  }

  method LocateFragmentHeader(protocol: Byte, payload: seq<Byte>) returns (p: Option<Place>)
    ensures p == Locate(protocol, payload, 0, -1)
  {
    var next, offset, previous := protocol, 0, -1;
    while Traversable(next)
      invariant -1 <= previous < offset <= |payload|
      invariant Locate(protocol, payload, 0, -1) == Locate(next, payload, offset, previous)
      decreases |payload| - offset
    {
      var n := LengthOf(next, payload[offset..]);
      if n < 0 {
        return None;
      }
      if next == FRAGMENT {
        return Some(Place(offset, LinkOf(previous)));
      }
      next, offset, previous := payload[offset], offset + n, offset;
    }
    return None;
  }
}
