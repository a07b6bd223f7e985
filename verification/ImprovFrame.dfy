/**
 * The Improv serial framing of components/generic_main/improv_wifi.c: what the encoder writes, and the
 * byte-at-a-time decoder as a machine.
 */
module ImprovFrame {
  import opened Bytes

  // "IMPROV"
  const MAGIC: seq<byte> := [73, 77, 80, 82, 79, 86]
  const VERSION: byte := 1
  const CR: byte := 13
  const LF: byte := 10
  const SLIP: byte := 192

  function Sum(s: seq<byte>): (r: nat)
  {
    if s == [] then 0 else s[0] as nat + Sum(s[1..])
  }

  lemma {:induction false} SumAppend(a: seq<byte>, b: seq<byte>)
    ensures Sum(a + b) == Sum(a) + Sum(b)
  {
    if a == [] {
      assert a + b == b;
    } else {
      assert (a + b)[1..] == a[1..] + b;
      SumAppend(a[1..], b);
    }
  }

  // The encoder.

  function Head(kind: byte, length: byte): (r: seq<byte>)
    ensures |r| == 9
  {
    MAGIC + [VERSION, kind, length]
  }

  /** A frame up to its checksum; the length byte holds the length modulo 256. */
  function Body(kind: byte, payload: seq<byte>): (r: seq<byte>)
  {
    Head(kind, (|payload| % 256) as byte) + payload
  }

  /** A frame without the line feed that follows it. */
  function Frame(kind: byte, payload: seq<byte>): (r: seq<byte>)
  {
    Body(kind, payload) + [(Sum(Body(kind, payload)) % 256) as byte]
  }

  // The decoder. Counting line ends and matching the frame do not influence each other, except that three line
  // ends in a row end the reading.

  /** Index into the frame, type, length, payload collected, running sum. */
  datatype Matcher = Matcher(index: nat, kind: byte, length: byte, payload: seq<byte>, sum: nat)

  const FRESH := Matcher(0, 0, 0, [], 0)

  datatype Verdict =
    | Decoded(kind: byte, payload: seq<byte>)
    | BadVersion
    | BadChecksum
    | EndOfInput
    | EndImprov
    | Restart

  datatype Progress = More(m: Matcher) | Stop(verdict: Verdict)

  /** One byte of matching. The sum is not cleared when the match starts over. */
  function Match(m: Matcher, c: byte): (r: Progress)
  {
    if m.index < 6 && c != MAGIC[m.index] then
      if c == SLIP then Stop(Restart) else More(m.(index := 0))
    else if m.index == 6 && c != VERSION then Stop(BadVersion)
    else if m.index == m.length as nat + 9 then
      Stop(if c as nat == m.sum % 256 then Decoded(m.kind, m.payload) else BadChecksum)
    else
      More(Matcher(m.index + 1, if m.index == 7 then c else m.kind, if m.index == 8 then c else m.length,
                   if m.index >= 9 then m.payload + [c] else m.payload, m.sum + c as nat))
  }

  function Matches(m: Matcher, s: seq<byte>): (r: Progress)
    decreases |s|
  {
    if s == [] then More(m)
    else match Match(m, s[0]) case More(next) => Matches(next, s[1..]) case Stop(v) => Stop(v)
  }

  predicate IsEnter(c: byte)
  {
    c == CR || c == LF
  }

  function EntersAfter(enters: nat, s: seq<byte>): (r: nat)
    decreases |s|
  {
    if s == [] then enters else EntersAfter(if IsEnter(s[0]) then enters + 1 else 0, s[1..])
  }

  /** With `enters` line ends just before it, s has no third line end in a row. */
  predicate NoTriple(enters: nat, s: seq<byte>)
    decreases |s|
  {
    if s == [] then true
    else if IsEnter(s[0]) then enters < 2 && NoTriple(enters + 1, s[1..])
    else NoTriple(0, s[1..])
  }

  /** How one read ends, how many bytes it takes, and the line ends counted then. */
  datatype Reading = Reading(verdict: Verdict, taken: nat, enters: nat)

  function Read(enters: nat, m: Matcher, input: seq<byte>): (r: Reading)
    ensures r.taken <= |input|
    decreases |input|
  {
    if input == [] then Reading(EndOfInput, 0, enters)
    else if IsEnter(input[0]) && enters >= 2 then Reading(EndImprov, 1, enters)
    else
      var enters' := if IsEnter(input[0]) then enters + 1 else 0;
      match Match(m, input[0])
      case Stop(v) => Reading(v, 1, enters')
      case More(next) =>
        var rest := Read(enters', next, input[1..]);
        rest.(taken := rest.taken + 1)
  }

  /** Reading one byte more. */
  lemma ReadStep(enters: nat, m: Matcher, input: seq<byte>)
    requires input != [] && !(IsEnter(input[0]) && enters >= 2)
    ensures var enters' := if IsEnter(input[0]) then enters + 1 else 0;
      Read(enters, m, input) ==
        match Match(m, input[0])
        case Stop(v) => Reading(v, 1, enters')
        case More(next) => var rest := Read(enters', next, input[1..]); rest.(taken := rest.taken + 1)
  {
  }

  // Matching a frame.

  lemma {:induction false} MatchesSnoc(m: Matcher, a: seq<byte>, c: byte)
    ensures Matches(m, a + [c]) == match Matches(m, a) case More(next) => Match(next, c) case Stop(v) => Stop(v)
    ensures Sum(a + [c]) == Sum(a) + c as nat
    decreases |a|
  {
    if a == [] {
      assert a + [c] == [c] && [c][1..] == [];
    } else {
      assert (a + [c])[1..] == a[1..] + [c];
      match Match(m, a[0]) {
        case More(next) => MatchesSnoc(next, a[1..], c);
        case Stop(_) => SumAppend(a[1..], [c]);
      }
      assert Sum([c]) == c as nat;
    }
  }

  lemma {:induction false} MatchesAppend(m: Matcher, a: seq<byte>, b: seq<byte>)
    ensures Matches(m, a + b) == match Matches(m, a) case More(next) => Matches(next, b) case Stop(v) => Stop(v)
    decreases |a|
  {
    if a == [] {
      assert a + b == b;
    } else {
      assert (a + b)[1..] == a[1..] + b;
      match Match(m, a[0]) {
        case More(next) => MatchesAppend(next, a[1..], b);
        case Stop(_) =>
      }
    }
  }

  lemma {:induction false} MagicMatches(m: Matcher, k: nat)
    requires m.index == 0 && k <= 6
    ensures Matches(m, MAGIC[..k]) == More(m.(index := k, sum := m.sum + Sum(MAGIC[..k])))
  {
    if k > 0 {
      MagicMatches(m, k - 1);
      MatchesSnoc(m, MAGIC[..k - 1], MAGIC[k - 1]);
      assert MAGIC[..k] == MAGIC[..k - 1] + [MAGIC[k - 1]];
    }
  }

  /** The nine bytes of the header. */
  lemma HeadMatches(m: Matcher, kind: byte, length: byte)
    requires m.index == 0
    ensures Matches(m, Head(kind, length)) == More(Matcher(9, kind, length, m.payload, m.sum + Sum(Head(kind, length))))
  {
    hide Matches, Sum;
    MagicMatches(m, 6);
    assert MAGIC[..6] == MAGIC;
    MatchesSnoc(m, MAGIC, VERSION);
    MatchesSnoc(m, MAGIC + [VERSION], kind);
    MatchesSnoc(m, MAGIC + [VERSION] + [kind], length);
    assert Head(kind, length) == MAGIC + [VERSION] + [kind] + [length];
  }

  lemma {:induction false} PayloadMatches(m: Matcher, kind: byte, payload: seq<byte>, n: nat)
    requires m.index == 0 && m.payload == [] && n <= |payload| < 256
    ensures var head := Head(kind, |payload| as byte);
      Matches(m, head + payload[..n])
        == More(Matcher(9 + n, kind, |payload| as byte, payload[..n], m.sum + Sum(head + payload[..n])))
  {
    hide Sum, Head;
    var head := Head(kind, |payload| as byte);
    if n == 0 {
      HeadMatches(m, kind, |payload| as byte);
      assert head + payload[..0] == head;
    } else {
      PayloadMatches(m, kind, payload, n - 1);
      MatchesSnoc(m, head + payload[..n - 1], payload[n - 1]);
      assert payload[..n] == payload[..n - 1] + [payload[n - 1]];
      assert head + payload[..n] == head + payload[..n - 1] + [payload[n - 1]];
    }
  }

  /** A frame matched from its start is decoded if the sum so far is a multiple of 256, and rejected otherwise. */
  lemma FrameMatches(m: Matcher, kind: byte, payload: seq<byte>)
    requires m.index == 0 && m.payload == [] && |payload| < 256
    ensures Matches(m, Body(kind, payload)).More?
    ensures Matches(m, Frame(kind, payload)) == Stop(if m.sum % 256 == 0 then Decoded(kind, payload) else BadChecksum)
  {
    hide Sum, Head;
    PayloadMatches(m, kind, payload, |payload|);
    assert payload[..|payload|] == payload;
    var sum := Sum(Body(kind, payload));
    MatchesSnoc(m, Body(kind, payload), (sum % 256) as byte);
    SumsAgree(m.sum, sum);
  }

  lemma SumsAgree(before: nat, sum: nat)
    ensures sum % 256 == (before + sum) % 256 <==> before % 256 == 0
  {
  }

  // Reading through line ends.

  /** Reading bytes of which only the last can end the match. */
  lemma {:induction false} ReadThrough(enters: nat, m: Matcher, s: seq<byte>, rest: seq<byte>)
    requires s != [] && Matches(m, s[..|s| - 1]).More? && Matches(m, s).Stop?
    ensures Read(enters, m, s + rest).verdict == if NoTriple(enters, s) then Matches(m, s).verdict else EndImprov
    ensures NoTriple(enters, s) ==>
      Read(enters, m, s + rest).taken == |s| && Read(enters, m, s + rest).enters == EntersAfter(enters, s)
    decreases |s|
  {
    assert (s + rest)[0] == s[0] && (s + rest)[1..] == s[1..] + rest;
    if |s| > 1 {
      assert s[..|s| - 1][0] == s[0] && s[..|s| - 1][1..] == s[1..][..|s| - 2];
      var next := Match(m, s[0]).m;
      ReadThrough(if IsEnter(s[0]) then enters + 1 else 0, next, s[1..], rest);
    } else {
      assert s[1..] == [];
    }
  }
}
