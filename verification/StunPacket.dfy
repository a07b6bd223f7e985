/** Parsing a STUN reply (components/generic_main/stun.c; sections 5 and 14 of RFC 8489). */
module StunPacket {
  import opened Bytes

  const MAPPED_ADDRESS: nat := 1
  const ERROR_CODE: nat := 9
  const XOR_MAPPED_ADDRESS: nat := 0x20

  // The magic cookie in network byte order.
  const COOKIE: seq<byte> := [0x21, 0x12, 0xa4, 0x42]

  // The low half of the cookie's little-endian word, as it lies in memory.
  const PORT_MASK: seq<byte> := [0xa4, 0x42]

  /** A port and an address, both in network byte order. */
  datatype Address = V4(port: seq<byte>, ip: seq<byte>) | V6(port: seq<byte>, ip: seq<byte>)

  // Exclusive or.

  function Xor(x: nat, y: nat, bits: nat): (r: nat)
    ensures r < Pow2(bits)
  {
    if bits == 0 then 0 else 2 * Xor(x / 2, y / 2, bits - 1) + (x % 2 + y % 2) % 2
  }

  lemma Halves(h: nat, b: nat)
    requires b < 2
    ensures (2 * h + b) / 2 == h && (2 * h + b) % 2 == b
  {
  }

  lemma XorOf(h: nat, b: nat, y: nat, bits: nat)
    requires b < 2 && bits > 0
    ensures Xor(2 * h + b, y, bits) == 2 * Xor(h, y / 2, bits - 1) + (b + y % 2) % 2
  {
    Halves(h, b);
  }

  lemma {:induction false} XorTwice(x: nat, y: nat, bits: nat)
    requires x < Pow2(bits)
    ensures Xor(Xor(x, y, bits), y, bits) == x
  {
    if bits > 0 {
      var h, b := x / 2, x % 2;
      assert h < Pow2(bits - 1);
      hide Xor, Pow2;
      XorTwice(h, y / 2, bits - 1);
      XorOf(h, b, y, bits);
      XorOf(Xor(h, y / 2, bits - 1), (b + y % 2) % 2, y, bits);
      BitTwice(b, y % 2);
    }
  }

  lemma BitTwice(a: nat, b: nat)
    requires a < 2 && b < 2
    ensures ((a + b) % 2 + b) % 2 == a
  {
  }

  lemma {:induction false} XorCommutes(x: nat, y: nat, bits: nat)
    ensures Xor(x, y, bits) == Xor(y, x, bits)
  {
    if bits > 0 {
      XorCommutes(x / 2, y / 2, bits - 1);
    }
  }

  function Bit(x: nat, k: nat): (r: nat)
  {
    if k == 0 then x % 2 else Bit(x / 2, k - 1)
  }

  /** A bit of the result is set exactly when it is set in one of the two. */
  lemma {:induction false} XorBits(x: nat, y: nat, bits: nat, k: nat)
    requires k < bits
    ensures Bit(Xor(x, y, bits), k) == if Bit(x, k) == Bit(y, k) then 0 else 1
  {
    Halves(Xor(x / 2, y / 2, bits - 1), (x % 2 + y % 2) % 2);
    hide Pow2;
    if k > 0 {
      XorBits(x / 2, y / 2, bits - 1, k - 1);
    }
  }

  function XorByte(x: byte, y: byte): (r: byte)
  {
    assert Pow2(8) == 256 by {
      assert Pow2(4) == 16;
    }
    Xor(x as nat, y as nat, 8) as byte
  }

  function XorBytes(a: seq<byte>, b: seq<byte>): (r: seq<byte>)
    requires |a| == |b|
    ensures |r| == |a| && forall k :: 0 <= k < |a| ==> r[k] == XorByte(a[k], b[k])
  {
    seq(|a|, k requires 0 <= k < |a| => XorByte(a[k], b[k]))
  }

  lemma XorByteTwice(x: byte, y: byte, z: byte)
    ensures XorByte(XorByte(x, y), z) == x <==> y == z
  {
    XorTwice(x as nat, y as nat, 8);
    if XorByte(XorByte(x, y), z) == x {
      var e := Xor(x as nat, y as nat, 8);
      XorTwice(y as nat, x as nat, 8);
      XorTwice(z as nat, e, 8);
      XorCommutes(z as nat, e, 8);
      XorCommutes(x as nat, y as nat, 8);
      XorCommutes(x as nat, e, 8);
    }
  }

  /** What was masked comes back under a mask exactly when that is the same mask. */
  lemma MaskMatters(s: seq<byte>, a: seq<byte>, b: seq<byte>)
    requires |s| == |a| == |b|
    ensures XorBytes(XorBytes(s, a), b) == s <==> a == b
  {
    forall k | 0 <= k < |s| ensures XorBytes(XorBytes(s, a), b)[k] == s[k] <==> a[k] == b[k] {
      XorByteTwice(s[k], a[k], b[k]);
    }
  }

  // Attributes in memory.

  function Be16(m: seq<byte>, at: nat): (r: nat)
    requires at + 2 <= |m|
    ensures r < 65536
  {
    256 * (m[at] as nat) + m[at + 1] as nat
  }

  /** The space taken by an attribute whose value has the given length, rounded up to 4 bytes. */
  function Span(length: nat): (r: nat)
    ensures r % 4 == 0 && length + 4 <= r < length + 8
  {
    var odd := length % 4;
    if odd == 0 then length + 4 else length + 4 + (4 - odd)
  }

  function Kind(m: seq<byte>, at: nat): (r: nat)
    requires at + 4 <= |m|
  {
    Be16(m, at)
  }

  function SpanAt(m: seq<byte>, at: nat): (r: nat)
    requires at + 4 <= |m|
    ensures r >= 4
  {
    Span(Be16(m, at + 2))
  }

  /** The address in a value, as it stands. None when the value goes beyond the memory. */
  function Plain(v: seq<byte>): (r: Option<Address>)
  {
    if |v| < 8 then None
    else if v[1] == 1 then Some(V4(v[2..4], v[4..8]))
    else if |v| < 20 then None
    else Some(V6(v[2..4], v[4..20]))
  }

  /** The address in a masked value. For IPv6 the port is not taken, and the cookie masks every word. */
  function Unmasked(v: seq<byte>): (r: Option<Address>)
  {
    match Plain(v)
    case None => None
    case Some(V4(port, ip)) => Some(V4(XorBytes(port, PORT_MASK), XorBytes(ip, COOKIE)))
    case Some(V6(_, ip)) => Some(V6([0, 0], XorBytes(ip, COOKIE + COOKIE + COOKIE + COOKIE)))
  }

  // The parser.

  datatype Verdict = Accepted | Rejected | Overrun

  /** The address stored so far, if any, and whether it came from a masked attribute. */
  datatype Found = Found(address: Option<Address>, masked: bool)

  datatype Outcome = Outcome(verdict: Verdict, found: Found)

  const NOTHING := Found(None, false)

  /** Take note of one attribute's address. None when reading it goes beyond the memory. */
  function Note(kind: nat, v: seq<byte>, f: Found): (r: Option<Found>)
  {
    if kind == MAPPED_ADDRESS && !f.masked then
      if Plain(v).None? then None else Some(Found(Plain(v), false))
    else if kind == XOR_MAPPED_ADDRESS then
      if Unmasked(v).None? then None else Some(Found(Unmasked(v), true))
    else Some(f)
  }

  /** Parse the attributes in the `size` bytes from `at`. */
  function Walk(m: seq<byte>, at: nat, size: nat, f: Found): (r: Outcome)
    decreases size
  {
    if size == 0 then Outcome(if f.address.Some? then Accepted else Rejected, f)
    else if at + 4 > |m| then Outcome(Overrun, f)
    else if Kind(m, at) == ERROR_CODE then Outcome(Rejected, f)
    else
      match Note(Kind(m, at), m[at + 4..], f)
      case None => Outcome(Overrun, f)
      case Some(next) =>
        if SpanAt(m, at) > size then Outcome(Rejected, next)
        else Walk(m, at + SpanAt(m, at), size - SpanAt(m, at), next)
  }

  /** Parse a packet of which `received` bytes arrived; the declared length may not be less than what did. */
  function Process(m: seq<byte>, received: int): (r: Outcome)
    requires |m| >= 20
  {
    if Be16(m, 2) < received - 20 then Outcome(Rejected, NOTHING) else Walk(m, 20, Be16(m, 2), NOTHING)
  }

  // Which packets are accepted.

  /** The cuts are where attributes start and end, without gaps, from one place to another. */
  ghost predicate Tiles(m: seq<byte>, from: nat, to: nat, cuts: seq<nat>)
  {
    && |cuts| > 0 && cuts[0] == from && cuts[|cuts| - 1] == to
    && forall k :: 0 <= k < |cuts| - 1 ==> cuts[k] + 4 <= |m| && cuts[k + 1] == cuts[k] + SpanAt(m, cuts[k])
  }

  /** The k-th attribute is of this kind. */
  ghost predicate Is(m: seq<byte>, cuts: seq<nat>, k: nat, kind: nat)
  {
    k < |cuts| - 1 && cuts[k] + 4 <= |m| && Kind(m, cuts[k]) == kind
  }

  ghost predicate Has(m: seq<byte>, cuts: seq<nat>, kind: nat)
  {
    exists k :: Is(m, cuts, k, kind)
  }

  /** The k-th attribute is the last of its kind, and its value. */
  ghost predicate LastIs(m: seq<byte>, cuts: seq<nat>, k: nat, kind: nat, v: seq<byte>)
  {
    Is(m, cuts, k, kind) && v == m[cuts[k] + 4..] && forall j :: k < j ==> !Is(m, cuts, j, kind)
  }

  /** The last masked address goes before the last plain one, and both before what was noted earlier. */
  ghost predicate Picked(m: seq<byte>, cuts: seq<nat>, f: Found, found: Found)
  {
    if Has(m, cuts, 0x20) then
      exists k, v :: LastIs(m, cuts, k, 0x20, v) && found == Found(Unmasked(v), true)
    else if !f.masked && Has(m, cuts, 1) then
      exists k, v :: LastIs(m, cuts, k, 1, v) && found == Found(Plain(v), false)
    else found == f
  }

  lemma IsLater(m: seq<byte>, cuts: seq<nat>, k: nat, kind: nat)
    requires |cuts| > 0
    ensures Is(m, cuts, k + 1, kind) <==> Is(m, cuts[1..], k, kind)
  {
  }

  lemma HasSplit(m: seq<byte>, cuts: seq<nat>, kind: nat)
    requires |cuts| > 0
    ensures Has(m, cuts, kind) <==> Is(m, cuts, 0, kind) || Has(m, cuts[1..], kind)
  {
    hide Is;
    if Has(m, cuts, kind) {
      var k: nat :| Is(m, cuts, k, kind);
      if k > 0 {
        IsLater(m, cuts, k - 1, kind);
      }
    }
    if Has(m, cuts[1..], kind) {
      var k: nat :| Is(m, cuts[1..], k, kind);
      IsLater(m, cuts, k, kind);
    }
  }

  lemma LastSplit(m: seq<byte>, cuts: seq<nat>, k: nat, kind: nat, v: seq<byte>)
    requires |cuts| > 0 && LastIs(m, cuts[1..], k, kind, v)
    ensures LastIs(m, cuts, k + 1, kind, v)
  {
    IsLater(m, cuts, k, kind);
    forall j | k + 1 < j ensures !Is(m, cuts, j, kind) {
      IsLater(m, cuts, j - 1, kind);
    }
  }

  lemma LastFirst(m: seq<byte>, cuts: seq<nat>, kind: nat)
    requires Is(m, cuts, 0, kind) && !Has(m, cuts[1..], kind)
    ensures LastIs(m, cuts, 0, kind, m[cuts[0] + 4..])
  {
    forall j: nat | 0 < j ensures !Is(m, cuts, j, kind) {
      IsLater(m, cuts, j - 1, kind);
    }
  }

  /** One more attribute in front. */
  lemma PickedInFront(m: seq<byte>, cuts: seq<nat>, f: Found, next: Found, found: Found)
    requires |cuts| > 1 && cuts[0] + 4 <= |m|
    requires Note(Kind(m, cuts[0]), m[cuts[0] + 4..], f) == Some(next) && Picked(m, cuts[1..], next, found)
    ensures Picked(m, cuts, f, found)
  {
    HasSplit(m, cuts, XOR_MAPPED_ADDRESS);
    HasSplit(m, cuts, MAPPED_ADDRESS);
    var rest := cuts[1..];
    assert Is(m, cuts, 0, Kind(m, cuts[0]));
    hide Has, LastIs, Plain, Unmasked;
    if Has(m, rest, XOR_MAPPED_ADDRESS) {
      var k, v :| LastIs(m, rest, k, XOR_MAPPED_ADDRESS, v) && found == Found(Unmasked(v), true);
      LastSplit(m, cuts, k, XOR_MAPPED_ADDRESS, v);
    } else if Kind(m, cuts[0]) == XOR_MAPPED_ADDRESS {
      LastFirst(m, cuts, XOR_MAPPED_ADDRESS);
    } else if !f.masked && Has(m, rest, MAPPED_ADDRESS) {
      var k, v :| LastIs(m, rest, k, MAPPED_ADDRESS, v) && found == Found(Plain(v), false);
      LastSplit(m, cuts, k, MAPPED_ADDRESS, v);
    } else if !f.masked && Kind(m, cuts[0]) == MAPPED_ADDRESS {
      LastFirst(m, cuts, MAPPED_ADDRESS);
    }
  }

  lemma TilesInFront(m: seq<byte>, at: nat, to: nat, cuts: seq<nat>)
    requires at + 4 <= |m| && Tiles(m, at + SpanAt(m, at), to, cuts)
    ensures Tiles(m, at, to, [at] + cuts)
  {
    hide SpanAt;
    var all := [at] + cuts;
    forall k | 0 <= k < |all| - 1 ensures all[k] + 4 <= |m| && all[k + 1] == all[k] + SpanAt(m, all[k]) {
      if k > 0 {
        assert all[k] == cuts[k - 1] && all[k + 1] == cuts[k];
      }
    }
  }

  lemma TilesBehind(m: seq<byte>, at: nat, to: nat, cuts: seq<nat>)
    requires Tiles(m, at, to, cuts) && at < to
    ensures at + 4 <= |m| && at + SpanAt(m, at) <= to && Tiles(m, at + SpanAt(m, at), to, cuts[1..])
  {
    hide SpanAt;
    var rest := cuts[1..];
    assert cuts[0] + 4 <= |m|;
    forall k | 0 <= k < |rest| - 1 ensures rest[k] + 4 <= |m| && rest[k + 1] == rest[k] + SpanAt(m, rest[k]) {
      assert rest[k] == cuts[k + 1] && rest[k + 1] == cuts[k + 2];
    }
    TilesForward(m, rest[0], to, rest);
  }

  lemma {:induction false} TilesForward(m: seq<byte>, from: nat, to: nat, cuts: seq<nat>)
    requires Tiles(m, from, to, cuts)
    ensures from <= to && (to - from) % 4 == 0
    decreases |cuts|
  {
    if |cuts| > 1 {
      var rest := cuts[1..];
      forall k | 0 <= k < |rest| - 1 ensures rest[k] + 4 <= |m| && rest[k + 1] == rest[k] + SpanAt(m, rest[k]) {
        assert rest[k] == cuts[k + 1] && rest[k + 1] == cuts[k + 2];
      }
      assert cuts[0] + 4 <= |m| && cuts[1] == cuts[0] + SpanAt(m, cuts[0]);
      TilesForward(m, rest[0], to, rest);
    }
  }

  /** Accepted attributes tile the declared length, hold no error code, and the address is the one picked. */
  lemma {:induction false} AcceptedTiles(m: seq<byte>, at: nat, size: nat, f: Found) returns (cuts: seq<nat>)
    requires Walk(m, at, size, f).verdict.Accepted?
    ensures Tiles(m, at, at + size, cuts) && !Has(m, cuts, ERROR_CODE)
    ensures Picked(m, cuts, f, Walk(m, at, size, f).found)
    decreases size
  {
    hide SpanAt, Kind, Note, Picked, Has, Tiles, Walk;
    if size == 0 {
      cuts := [at];
      TilesNone(m, at, f);
    } else {
      WalkOne(m, at, size, f);
      var next := Note(Kind(m, at), m[at + 4..], f).value;
      var rest := AcceptedTiles(m, at + SpanAt(m, at), size - SpanAt(m, at), next);
      cuts := [at] + rest;
      TilesInFront(m, at, at + size, rest);
      TilesStart(m, at + SpanAt(m, at), at + size, rest);
      assert cuts[1..] == rest;
      HasSplit(m, cuts, ERROR_CODE);
      PickedInFront(m, cuts, f, next, Walk(m, at, size, f).found);
    }
  }

  lemma TilesStart(m: seq<byte>, from: nat, to: nat, cuts: seq<nat>)
    requires Tiles(m, from, to, cuts)
    ensures cuts != []
  {
  }

  lemma TilesNone(m: seq<byte>, at: nat, f: Found)
    ensures Tiles(m, at, at, [at]) && !Has(m, [at], ERROR_CODE) && Picked(m, [at], f, Walk(m, at, 0, f).found)
  {
  }

  /** Attributes that tile the declared length, without an error code, are rejected only for want of an address. */
  lemma {:induction false} TiledIsAccepted(m: seq<byte>, at: nat, size: nat, f: Found, cuts: seq<nat>)
    requires Tiles(m, at, at + size, cuts) && !Has(m, cuts, ERROR_CODE)
    requires !Walk(m, at, size, f).verdict.Overrun? && (f.masked ==> f.address.Some?)
    ensures Walk(m, at, size, f).verdict.Accepted? <==>
      f.address.Some? || Has(m, cuts, MAPPED_ADDRESS) || Has(m, cuts, XOR_MAPPED_ADDRESS)
    decreases size
  {
    if size == 0 {
      TilesOnce(m, at, cuts);
    } else {
      TilesBehind(m, at, at + size, cuts);
      HasSplit(m, cuts, ERROR_CODE);
      HasSplit(m, cuts, MAPPED_ADDRESS);
      HasSplit(m, cuts, XOR_MAPPED_ADDRESS);
      var next := Note(Kind(m, at), m[at + 4..], f);
      hide SpanAt, Has, Tiles, Walk;
      WalkOne(m, at, size, f);
      NoteFinds(m, at, f, cuts);
      TiledIsAccepted(m, at + SpanAt(m, at), size - SpanAt(m, at), next.value, cuts[1..]);
    }
  }

  lemma TilesOnce(m: seq<byte>, at: nat, cuts: seq<nat>)
    requires Tiles(m, at, at, cuts)
    ensures |cuts| == 1
  {
    if |cuts| > 1 {
      TilesForward(m, cuts[1], at, cuts[1..]);
    }
  }

  /** An address is noted, once one was read, exactly when one of the two kinds came by. */
  lemma NoteFinds(m: seq<byte>, at: nat, f: Found, cuts: seq<nat>)
    requires |cuts| > 1 && cuts[0] == at && at + 4 <= |m| && (f.masked ==> f.address.Some?)
    requires Note(Kind(m, at), m[at + 4..], f).Some?
    ensures var next := Note(Kind(m, at), m[at + 4..], f).value;
      && (next.masked ==> next.address.Some?)
      && (next.address.Some? <==>
            f.address.Some? || Is(m, cuts, 0, MAPPED_ADDRESS) || Is(m, cuts, 0, XOR_MAPPED_ADDRESS))
  {
    hide Plain, Unmasked;
  }

  /** Attributes without gaps over the declared length, no error code among them, and an address in one. */
  ghost predicate Answers(m: seq<byte>, cuts: seq<nat>)
    requires |m| >= 20
  {
    && Tiles(m, 20, 20 + Be16(m, 2), cuts) && !Has(m, cuts, 9)
    && (Has(m, cuts, 1) || Has(m, cuts, 0x20))
  }

  /** Which packets are accepted. */
  lemma AcceptedExactly(m: seq<byte>, received: int)
    requires |m| >= 20 && !Process(m, received).verdict.Overrun?
    ensures Process(m, received).verdict.Accepted? <==>
      Be16(m, 2) >= received - 20 && exists cuts :: Answers(m, cuts)
  {
    var size := Be16(m, 2);
    hide Walk, Has, Tiles, Be16;
    if Process(m, received).verdict.Accepted? {
      var cuts := AcceptedTiles(m, 20, size, NOTHING);
      TiledIsAccepted(m, 20, size, NOTHING, cuts);
      assert Answers(m, cuts);
    } else if size >= received - 20 && exists cuts :: Answers(m, cuts) {
      var cuts :| Answers(m, cuts);
      TiledIsAccepted(m, 20, size, NOTHING, cuts);
    }
  }

  /** The address an accepted packet yields, and its declared length. */
  lemma AcceptedAddress(m: seq<byte>, received: int)
    requires |m| >= 20 && Process(m, received).verdict.Accepted?
    ensures Be16(m, 2) % 4 == 0 && Process(m, received).found.address.Some?
    ensures exists cuts :: Answers(m, cuts) && Picked(m, cuts, NOTHING, Process(m, received).found)
  {
    var size := Be16(m, 2);
    AcceptedExactly(m, received);
    AcceptedHasAddress(m, 20, size, NOTHING);
    var cuts := AcceptedTiles(m, 20, size, NOTHING);
    hide Walk, Has, Tiles, Picked, Be16;
    TiledIsAccepted(m, 20, size, NOTHING, cuts);
    TilesForward(m, 20, 20 + size, cuts);
  }

  lemma {:induction false} AcceptedHasAddress(m: seq<byte>, at: nat, size: nat, f: Found)
    requires Walk(m, at, size, f).verdict.Accepted?
    ensures Walk(m, at, size, f).found.address.Some?
    decreases size
  {
    if size != 0 {
      hide SpanAt, Kind, Note;
      var next := Note(Kind(m, at), m[at + 4..], f).value;
      AcceptedHasAddress(m, at + SpanAt(m, at), size - SpanAt(m, at), next);
    }
  }

  /** With attributes at multiples of 4, nothing beyond the memory is read when 20 bytes lie behind them. */
  lemma {:induction false} WalkStaysInside(m: seq<byte>, at: nat, size: nat, f: Found)
    requires at % 4 == 0 && |m| % 4 == 0 && at + size + 20 <= |m|
    ensures !Walk(m, at, size, f).verdict.Overrun?
    decreases size
  {
    hide Note, Walk, Kind;
    if size == 0 {
      WalkNone(m, at, f);
    } else {
      NoteFits(m, at, f);
      WalkOne(m, at, size, f);
      var next := Note(Kind(m, at), m[at + 4..], f);
      if SpanAt(m, at) <= size {
        WalkStaysInside(m, at + SpanAt(m, at), size - SpanAt(m, at), next.value);
      }
    }
  }

  lemma NoteFits(m: seq<byte>, at: nat, f: Found)
    requires at + 24 <= |m|
    ensures Note(Kind(m, at), m[at + 4..], f).Some?
  {
  }

  // The size of the receive buffer.
  const BUFFER: nat := 1024

  /** The receive buffer after some bytes arrived: what lies behind them is zero. */
  ghost predicate Arrived(m: seq<byte>, received: nat)
  {
    |m| == BUFFER && received <= BUFFER && forall k :: received <= k < BUFFER ==> m[k] == 0
  }

  /** A reply of 1006 bytes with this declared length: one attribute of 984 bytes, then the type of a masked address. */
  function Overlong(n: nat): (m: seq<byte>)
    requires n < 65536
    ensures |m| == 1024 && forall k :: 1006 <= k < 1024 ==> m[k] == 0
    ensures Be16(m, 2) == n && Be16(m, 20) == 0 && Be16(m, 22) == 980 && Be16(m, 1004) == XOR_MAPPED_ADDRESS
  {
    seq(1024, k =>
      if k == 2 then (n / 256) as byte else if k == 3 then (n % 256) as byte
      else if k == 22 then 3 else if k == 23 then 212 else if k == 1005 then 0x20 else 0)
  }

  /** Such a reply makes the parser read beyond the receive buffer. */
  lemma OverlongOverruns(n: nat, received: int)
    requires 984 < n < 65536 && received - 20 <= n
    ensures Process(Overlong(n), received).verdict.Overrun?
  {
    var m := Overlong(n);
    hide Overlong, Walk, Be16;
    WalkOne(m, 20, n, NOTHING);
    assert SpanAt(m, 20) == 984;
    WalkOne(m, 1004, n - 984, NOTHING);
    assert |m[1008..]| == 16 && m[1008..][1] == m[1009] == 0;
  }

  /** Whatever the buffer holds, the parser stays inside it exactly for declared lengths up to 984. */
  lemma StaysInsideWhateverIsThere(n: nat)
    requires n < 65536
    ensures n <= 984 <==>
      forall m, received :: |m| == BUFFER && Be16(m, 2) == n ==> !Process(m, received).verdict.Overrun?
  {
    hide Walk, Overlong;
    if n <= 984 {
      forall m, received | |m| == BUFFER && Be16(m, 2) == n ensures !Process(m, received).verdict.Overrun? {
        WalkStaysInside(m, 20, n, NOTHING);
      }
    } else {
      OverlongOverruns(n, 22);
    }
  }

  /** At a declared length of 985 the last attribute's type is cut off after one byte, so that it is no address. */
  lemma {:induction false} CutTypeStaysInside(m: seq<byte>, at: nat, size: nat, f: Found)
    requires at % 4 == 0 && |m| == BUFFER && m[1005] == 0 && at + size == 1005
    ensures !Walk(m, at, size, f).verdict.Overrun?
    decreases size
  {
    hide Walk, Plain, Unmasked;
    if size > 0 {
      WalkOne(m, at, size, f);
      if at < 1004 {
        NoteFits(m, at, f);
      }
      var next := Note(Kind(m, at), m[at + 4..], f);
      if SpanAt(m, at) <= size {
        CutTypeStaysInside(m, at + SpanAt(m, at), size - SpanAt(m, at), next.value);
      }
    } else {
      WalkNone(m, at, f);
    }
  }

  /** With zeros behind what arrived, the parser stays inside the receive buffer exactly for lengths up to 985. */
  lemma StaysInsideExactly(n: nat)
    requires n < 65536
    ensures n <= 985 <==>
      forall m, received: nat :: Arrived(m, received) && Be16(m, 2) == n ==> !Process(m, received).verdict.Overrun?
  {
    hide Walk, Overlong;
    if n <= 985 {
      forall m, received: nat | Arrived(m, received) && Be16(m, 2) == n
        ensures !Process(m, received).verdict.Overrun?
      {
        if n < 985 {
          WalkStaysInside(m, 20, n, NOTHING);
        } else if received <= 1005 {
          CutTypeStaysInside(m, 20, n, NOTHING);
        }
      }
    } else {
      OverlongOverruns(n, 1006);
      assert Arrived(Overlong(n), 1006);
    }
  }

  /** Act on the kind of an attribute that is no error code. */
  method TakeAttribute(m: array<byte>, attribute: nat, kind: nat, f: Found) returns (r: Option<Found>)
    requires attribute + 4 <= m.Length
    ensures r == Note(kind, m[..][attribute + 4..], f)
  {
    hide Plain, Unmasked;
    assert m[..][attribute + 4..] == m[attribute + 4..];
    r := Some(f);
    if kind == MAPPED_ADDRESS {
      if !f.masked {
        var address := Plain(m[attribute + 4..]);
        r := if address.None? then None else Some(Found(address, false));
      }
    } else if kind == XOR_MAPPED_ADDRESS {
      var address := Unmasked(m[attribute + 4..]);
      r := if address.None? then None else Some(Found(address, true));
    }
  }

  /** The padded size of an attribute. */
  method Increment(length: nat) returns (increment: nat)
    ensures increment == Span(length)
  {
    var odd := And(length, 3);
    MaskIsModulo(length, 2);
    assert Pow2(2) == 4;
    increment := length + 4;
    if odd != 0 {
      increment := increment + (4 - odd);
    }
  }

  /** Parse the attributes one after another, keeping the address stored last. */
  method ProcessReceivedPacket(m: array<byte>, received: int) returns (outcome: Outcome)
    requires m.Length >= 20
    ensures outcome == Process(m[..], received)
  {
    var attribute: nat, attributeSize: nat, f := 20, Be16(m[..], 2), NOTHING;
    if attributeSize < received - 20 {
      return Outcome(Rejected, NOTHING);
    }
    ghost var memory := m[..];
    hide Walk, Note, Be16, Span;
    while attributeSize > 0
      invariant Process(memory, received) == Walk(memory, attribute, attributeSize, f)
    {
      WalkOne(memory, attribute, attributeSize, f);
      if attribute + 4 > m.Length {
        return Outcome(Overrun, f);
      }
      var kind := Be16(m[..], attribute);
      if kind == ERROR_CODE {
        return Outcome(Rejected, f);
      }
      var next := TakeAttribute(m, attribute, kind, f);
      if next.None? {
        return Outcome(Overrun, f);
      }
      f := next.value;
      var increment := Increment(Be16(m[..], attribute + 2));
      if increment > attributeSize {
        return Outcome(Rejected, f);
      }
      attribute, attributeSize := attribute + increment, attributeSize - increment;
    }
    WalkNone(memory, attribute, f);
    outcome := Outcome(if f.address.Some? then Accepted else Rejected, f);
  }

  lemma WalkNone(m: seq<byte>, at: nat, f: Found)
    ensures Walk(m, at, 0, f) == Outcome(if f.address.Some? then Accepted else Rejected, f)
  {
  }

  lemma WalkOne(m: seq<byte>, at: nat, size: nat, f: Found)
    requires 0 < size
    ensures at + 4 > |m| ==> Walk(m, at, size, f) == Outcome(Overrun, f)
    ensures at + 4 <= |m| ==>
      Walk(m, at, size, f) ==
        if Kind(m, at) == ERROR_CODE then Outcome(Rejected, f)
        else
          match Note(Kind(m, at), m[at + 4..], f)
          case None => Outcome(Overrun, f)
          case Some(next) =>
            if SpanAt(m, at) > size then Outcome(Rejected, next)
            else Walk(m, at + SpanAt(m, at), size - SpanAt(m, at), next)
  {
    hide Note, Kind, SpanAt;
  }
}
