/** Replies as a server writes them (sections 5 and 14 of RFC 8489), and what components/generic_main/stun.c reads. */
module StunReply {
  import opened Bytes
  import opened StunPacket

  // 0x2112A442, as it goes over the network.
  const MAGIC_COOKIE: seq<byte> := [0x21, 0x12, 0xa4, 0x42]

  /** An attribute with its padding. */
  datatype Attribute = Attribute(kind: nat, value: seq<byte>, padding: seq<byte>)
  {
    predicate Proper()
    {
      && kind < 65536 && |value| < 65536 && |padding| == Span(|value|) - 4 - |value|
      && (kind == MAPPED_ADDRESS || kind == XOR_MAPPED_ADDRESS ==> Plain(value).Some?)
    }
  }

  ghost predicate AllProper(attributes: seq<Attribute>)
  {
    forall k :: 0 <= k < |attributes| ==> attributes[k].Proper()
  }

  ghost predicate Without(attributes: seq<Attribute>, kind: nat)
  {
    forall k :: 0 <= k < |attributes| ==> attributes[k].kind != kind
  }

  function Big16(x: nat): (r: seq<byte>)
    requires x < 65536
    ensures |r| == 2
  {
    [(x / 256) as byte, (x % 256) as byte]
  }

  function Print(a: Attribute): (r: seq<byte>)
    requires a.Proper()
    ensures |r| == Span(|a.value|)
  {
    Big16(a.kind) + Big16(|a.value|) + (a.value + a.padding)
  }

  function Body(attributes: seq<Attribute>): (r: seq<byte>)
    requires AllProper(attributes)
  {
    if attributes == [] then [] else Print(attributes[0]) + Body(attributes[1..])
  }

  function Message(kind: seq<byte>, transaction: seq<byte>, attributes: seq<Attribute>): (r: seq<byte>)
    requires AllProper(attributes) && |Body(attributes)| < 65536
  {
    kind + Big16(|Body(attributes)|) + (MAGIC_COOKIE + transaction) + Body(attributes)
  }

  /** What the parser makes of attributes, read one after another. */
  function Meaning(attributes: seq<Attribute>, f: Found): (r: Outcome)
  {
    if attributes == [] then Outcome(if f.address.Some? then Accepted else Rejected, f)
    else if attributes[0].kind == ERROR_CODE then Outcome(Rejected, f)
    else
      match Note(attributes[0].kind, attributes[0].value, f)
      case None => Outcome(Overrun, f)
      case Some(next) => Meaning(attributes[1..], next)
  }

  /** A value is read without regard to what follows it. */
  lemma ValueAlone(v: seq<byte>, w: seq<byte>)
    requires Plain(v).Some?
    ensures Plain(v + w) == Plain(v) && Unmasked(v + w) == Unmasked(v)
  {
    assert (v + w)[2..4] == v[2..4] && (v + w)[4..8] == v[4..8];
    if |v| >= 20 {
      assert (v + w)[4..20] == v[4..20];
    }
  }

  lemma Big16Returns(x: nat, m: seq<byte>, at: nat)
    requires x < 65536 && at + 2 <= |m| && m[at..at + 2] == Big16(x)
    ensures Be16(m, at) == x
  {
    assert m[at] == m[at..at + 2][0] && m[at + 1] == m[at..at + 2][1];
  }

  /** An attribute at a place in memory is read back. */
  lemma AttributeReturns(m: seq<byte>, at: nat, a: Attribute, f: Found)
    requires a.Proper() && at + |Print(a)| <= |m| && m[at..at + |Print(a)|] == Print(a)
    ensures Kind(m, at) == a.kind && SpanAt(m, at) == |Print(a)|
    ensures Note(a.kind, m[at + 4..], f) == Note(a.kind, a.value, f)
  {
    hide Plain, Unmasked, Big16, Be16, Span;
    var printed, size := Print(a), |Print(a)|;
    SliceOfSlice(m, at, at + size, 0, 2);
    SliceOfSlice(m, at, at + size, 2, 4);
    assert printed[..2] == Big16(a.kind) && printed[2..4] == Big16(|a.value|);
    Big16Returns(a.kind, m, at);
    Big16Returns(|a.value|, m, at + 2);
    SliceOfSlice(m, at, at + size, 4, size);
    assert printed[4..] == a.value + a.padding;
    assert m[at + 4..] == m[at + 4..at + size] + m[at + size..];
    Associative(a.value, a.padding, m[at + size..]);
    if Plain(a.value).Some? {
      ValueAlone(a.value, a.padding + m[at + size..]);
    }
  }

  lemma Apart<T>(m: seq<T>, at: nat, a: seq<T>, b: seq<T>)
    requires at + |a| + |b| <= |m| && m[at..at + |a| + |b|] == a + b
    ensures m[at..at + |a|] == a && m[at + |a|..at + |a| + |b|] == b
  {
    SliceOfSlice(m, at, at + |a| + |b|, 0, |a|);
    SliceOfSlice(m, at, at + |a| + |b|, |a|, |a| + |b|);
  }

  /** A place in memory holds these bytes. */
  ghost predicate At(m: seq<byte>, at: nat, bytes: seq<byte>)
  {
    at + |bytes| <= |m| && m[at..at + |bytes|] == bytes
  }

  /** What the parser finds in front of a body. */
  lemma FirstReturns(m: seq<byte>, at: nat, a: Attribute, more: seq<byte>, f: Found)
    requires a.Proper() && At(m, at, Print(a) + more)
    ensures at + 4 <= |m| && Kind(m, at) == a.kind && SpanAt(m, at) == |Print(a)|
    ensures Note(a.kind, m[at + 4..], f) == Note(a.kind, a.value, f)
    ensures At(m, at + |Print(a)|, more)
  {
    assert |Print(a)| >= 4;
    hide Print, Note, Kind, SpanAt;
    Apart(m, at, Print(a), more);
    AttributeReturns(m, at, a, f);
  }

  /** One attribute is read as it is meant, if the rest is. */
  lemma WalkAsMeant(m: seq<byte>, at: nat, size: nat, attributes: seq<Attribute>, f: Found)
    requires attributes != [] && at + 4 <= |m| && 0 < SpanAt(m, at) <= size && Kind(m, at) == attributes[0].kind
    requires Note(Kind(m, at), m[at + 4..], f) == Note(attributes[0].kind, attributes[0].value, f)
    requires var next := Note(attributes[0].kind, attributes[0].value, f);
      next.Some? ==>
        Walk(m, at + SpanAt(m, at), size - SpanAt(m, at), next.value) == Meaning(attributes[1..], next.value)
    ensures Walk(m, at, size, f) == Meaning(attributes, f)
  {
    hide *;
    WalkOne(m, at, size, f);
    MeaningOne(attributes, f);
  }

  /** Attributes in memory are read back in order. */
  lemma {:induction false} BodyReturns(m: seq<byte>, at: nat, attributes: seq<Attribute>, f: Found)
    requires AllProper(attributes) && At(m, at, Body(attributes))
    ensures Walk(m, at, |Body(attributes)|, f) == Meaning(attributes, f)
    decreases |attributes|
  {
    BodyParts(attributes);
    hide *;
    if attributes == [] {
      WalkNone(m, at, f);
      MeaningNone(f);
    } else {
      var a, rest := attributes[0], attributes[1..];
      FirstReturns(m, at, a, Body(rest), f);
      var next := Note(a.kind, a.value, f);
      if next.Some? {
        BodyReturns(m, at + |Print(a)|, rest, next.value);
      }
      WalkAsMeant(m, at, |Body(attributes)|, attributes, f);
    }
  }

  /** The first attribute of a body and the rest. */
  lemma BodyParts(attributes: seq<Attribute>)
    requires AllProper(attributes)
    ensures attributes == [] ==> Body(attributes) == []
    ensures attributes != [] ==>
      && attributes[0].Proper() && AllProper(attributes[1..]) && |Print(attributes[0])| >= 4
      && Body(attributes) == Print(attributes[0]) + Body(attributes[1..])
      && |Body(attributes)| == |Print(attributes[0])| + |Body(attributes[1..])|
  {
    hide Print;
    if attributes != [] {
      assert attributes[0].Proper();
    }
  }

  lemma MeaningNone(f: Found)
    ensures Meaning([], f) == Outcome(if f.address.Some? then Accepted else Rejected, f)
  {
  }

  lemma MeaningOne(attributes: seq<Attribute>, f: Found)
    requires attributes != []
    ensures Meaning(attributes, f) ==
      if attributes[0].kind == ERROR_CODE then Outcome(Rejected, f)
      else
        match Note(attributes[0].kind, attributes[0].value, f)
        case None => Outcome(Overrun, f)
        case Some(next) => Meaning(attributes[1..], next)
  {
    hide Note;
  }

  /** A reply in the receive buffer is parsed into what its attributes mean. */
  lemma MessageReturns(kind: seq<byte>, transaction: seq<byte>, attributes: seq<Attribute>, behind: seq<byte>,
                       m: seq<byte>)
    requires |kind| == 2 && |transaction| == 12 && AllProper(attributes) && |Body(attributes)| < 65536
    requires m == Message(kind, transaction, attributes) + behind
    ensures Process(m, |Message(kind, transaction, attributes)|) == Meaning(attributes, NOTHING)
  {
    var body := Body(attributes);
    hide Body, Walk, Be16, Big16;
    assert m[2..4] == Big16(|body|);
    Big16Returns(|body|, m, 2);
    assert At(m, 20, body);
    BodyReturns(m, 20, attributes, NOTHING);
  }

  /** The last masked address wins. */
  lemma {:induction false} LastMaskedWins(before: seq<Attribute>, a: Attribute, after: seq<Attribute>, f: Found)
    requires AllProper(before + [a] + after) && Without(before + [a] + after, ERROR_CODE)
    requires a.kind == XOR_MAPPED_ADDRESS && Without(after, XOR_MAPPED_ADDRESS)
    ensures Meaning(before + [a] + after, f) == Outcome(Accepted, Found(Unmasked(a.value), true))
    decreases |before|
  {
    hide Plain;
    var all := before + [a] + after;
    if before == [] {
      assert all[1..] == after && all[0] == a;
      assert a.Proper();
      NothingMore(after, Found(Unmasked(a.value), true));
    } else {
      assert all[1..] == before[1..] + [a] + after;
      assert all[0].Proper();
      LastMaskedWins(before[1..], a, after, Note(all[0].kind, all[0].value, f).value);
    }
  }

  lemma {:induction false} NothingMore(after: seq<Attribute>, f: Found)
    requires AllProper(after) && Without(after, ERROR_CODE) && Without(after, XOR_MAPPED_ADDRESS)
    requires f.address.Some? && (f.masked || Without(after, MAPPED_ADDRESS))
    ensures Meaning(after, f) == Outcome(Accepted, f)
    decreases |after|
  {
    if after != [] {
      NothingMore(after[1..], f);
    }
  }

  /** Where no address is masked, the last plain one wins. */
  lemma {:induction false} LastPlainWins(before: seq<Attribute>, a: Attribute, after: seq<Attribute>, f: Found)
    requires AllProper(before + [a] + after) && Without(before + [a] + after, ERROR_CODE)
    requires Without(before + [a] + after, XOR_MAPPED_ADDRESS)
    requires a.kind == MAPPED_ADDRESS && Without(after, MAPPED_ADDRESS) && !f.masked
    ensures Meaning(before + [a] + after, f) == Outcome(Accepted, Found(Plain(a.value), false))
    decreases |before|
  {
    hide Plain;
    var all := before + [a] + after;
    if before == [] {
      assert all[1..] == after && all[0] == a;
      assert a.Proper();
      NothingMore(after, Found(Plain(a.value), false));
    } else {
      assert all[1..] == before[1..] + [a] + after;
      assert all[0].Proper();
      LastPlainWins(before[1..], a, after, Note(all[0].kind, all[0].value, f).value);
    }
  }

  // The two address attributes of RFC 8489, sections 14.1 and 14.2.

  ghost predicate ProperAddress(a: Address)
  {
    |a.port| == 2 && |a.ip| == if a.V4? then 4 else 16
  }

  function PlainValue(a: Address): (r: seq<byte>)
  {
    [0, if a.V4? then 1 else 2] + a.port + a.ip
  }

  function MaskedValue(a: Address, transaction: seq<byte>): (r: seq<byte>)
    requires ProperAddress(a) && |transaction| == 12
  {
    PlainValue(
      if a.V4? then V4(XorBytes(a.port, MAGIC_COOKIE[..2]), XorBytes(a.ip, MAGIC_COOKIE))
      else V6(XorBytes(a.port, MAGIC_COOKIE[..2]), XorBytes(a.ip, MAGIC_COOKIE + transaction)))
  }

  lemma PlainReturns(a: Address)
    requires ProperAddress(a)
    ensures Plain(PlainValue(a)) == Some(a)
  {
    var v := PlainValue(a);
    assert v[1] == (if a.V4? then 1 else 2) && v[2..4] == a.port;
    assert v[4..4 + |a.ip|] == a.ip;
  }

  /** What the client takes from a masked IPv4 address: the right address, and never the right port. */
  lemma MaskedV4Returns(a: Address, transaction: seq<byte>)
    requires ProperAddress(a) && a.V4? && |transaction| == 12
    ensures var r := Unmasked(MaskedValue(a, transaction));
      r.Some? && r.value.V4? && r.value.ip == a.ip && r.value.port != a.port
  {
    hide Plain, PlainValue;
    PlainReturns(V4(XorBytes(a.port, COOKIE[..2]), XorBytes(a.ip, COOKIE)));
    hide XorBytes;
    MaskMatters(a.port, COOKIE[..2], PORT_MASK);
    MaskMatters(a.ip, COOKIE, COOKIE);
    assert COOKIE[..2][0] != PORT_MASK[0];
  }

  lemma FourCookies(transaction: seq<byte>)
    ensures COOKIE + transaction == COOKIE + COOKIE + COOKIE + COOKIE <==> transaction == COOKIE + COOKIE + COOKIE
  {
    Associative(COOKIE, COOKIE, COOKIE);
    Associative(COOKIE, COOKIE + COOKIE, COOKIE);
    assert (COOKIE + transaction)[4..] == transaction;
    assert (COOKIE + (COOKIE + COOKIE + COOKIE))[4..] == COOKIE + COOKIE + COOKIE;
  }

  /**
   * What the client takes from a masked IPv6 address: the right address exactly when the transaction identifier
   * happens to repeat the cookie, and the right port exactly when that is zero.
   */
  lemma MaskedV6Returns(a: Address, transaction: seq<byte>)
    requires ProperAddress(a) && a.V6? && |transaction| == 12
    ensures var r := Unmasked(MaskedValue(a, transaction));
      && r.Some? && r.value.V6?
      && (r.value.ip == a.ip <==> transaction == COOKIE + COOKIE + COOKIE)
      && (r.value.port == a.port <==> a.port == [0, 0])
  {
    hide Plain, PlainValue;
    PlainReturns(V6(XorBytes(a.port, COOKIE[..2]), XorBytes(a.ip, COOKIE + transaction)));
    hide XorBytes;
    MaskMatters(a.ip, COOKIE + transaction, COOKIE + COOKIE + COOKIE + COOKIE);
    FourCookies(transaction);
  }

  /** From a server's reply to the client's address: the last masked attribute decides. */
  lemma MaskedReply(
    kind: seq<byte>, transaction: seq<byte>, before: seq<Attribute>, a: Attribute, after: seq<Attribute>,
    address: Address, behind: seq<byte>)
    requires |kind| == 2 && |transaction| == 12 && ProperAddress(address) && address.V4?
    requires AllProper(before + [a] + after) && |Body(before + [a] + after)| < 65536
    requires Without(before + [a] + after, 9) && Without(after, 0x20)
    requires a.kind == 0x20 && a.value == MaskedValue(address, transaction)
    ensures var message := Message(kind, transaction, before + [a] + after);
      var r := Process(message + behind, |message|);
      && r.verdict == Accepted && r.found.address.Some?
      && r.found.address.value.V4? && r.found.address.value.ip == address.ip
  {
    hide Body, AllProper, Without, ProperAddress, MaskedValue, Walk, Meaning, Unmasked;
    var message := Message(kind, transaction, before + [a] + after);
    MessageReturns(kind, transaction, before + [a] + after, behind, message + behind);
    LastMaskedWins(before, a, after, NOTHING);
    MaskedV4Returns(address, transaction);
  }

  /** A plain address returns whole when no masked one is present. */
  lemma PlainReply(
    kind: seq<byte>, transaction: seq<byte>, before: seq<Attribute>, a: Attribute, after: seq<Attribute>,
    address: Address, behind: seq<byte>)
    requires |kind| == 2 && |transaction| == 12 && ProperAddress(address)
    requires AllProper(before + [a] + after) && |Body(before + [a] + after)| < 65536
    requires Without(before + [a] + after, 9) && Without(before + [a] + after, 0x20)
    requires a.kind == 1 && a.value == PlainValue(address) && Without(after, 1)
    ensures var message := Message(kind, transaction, before + [a] + after);
      Process(message + behind, |message|) == Outcome(Accepted, Found(Some(address), false))
  {
    hide Body, AllProper, Without, ProperAddress, PlainValue, Walk, Meaning, Plain;
    var message := Message(kind, transaction, before + [a] + after);
    MessageReturns(kind, transaction, before + [a] + after, behind, message + behind);
    LastPlainWins(before, a, after, NOTHING);
    PlainReturns(address);
  }
}
