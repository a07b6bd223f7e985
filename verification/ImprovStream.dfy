/** Sequences of Improv frames with noise between them, and the string lists inside them. */
module ImprovStream {
  import opened Bytes
  import opened ImprovFrame

  // Noise.

  /** What is collected is what came after the header. */
  ghost predicate Collected(m: Matcher)
  {
    |m.payload| == if m.index >= 9 then m.index - 9 else 0
  }

  lemma {:induction false} CollectedStays(m: Matcher, s: seq<byte>)
    requires Collected(m) && Matches(m, s).More?
    ensures Collected(Matches(m, s).m)
    decreases |s|
  {
    if s != [] {
      CollectedStays(Match(m, s[0]).m, s[1..]);
    }
  }

  /** The index counts the bytes since the match started over, if it did. */
  lemma {:induction false} IndexCounts(m: Matcher, s: seq<byte>)
    requires Matches(m, s).More?
    ensures Matches(m, s).m.index == m.index + |s| || Matches(m, s).m.index < |s|
    decreases |s|
  {
    if s != [] {
      IndexCounts(Match(m, s[0]).m, s[1..]);
    }
  }

  /** A payload decoded is all that was collected. */
  lemma DecodedIsCollected(m: Matcher, c: byte)
    requires Collected(m) && Match(m, c).Stop? && Match(m, c).verdict.Decoded?
    ensures m.index == 9 + |Match(m, c).verdict.payload|
  {
  }

  /** A frame met in the middle of a match is not what is decoded at its end. */
  lemma MidMatchMisses(m: Matcher, kind: byte, payload: seq<byte>)
    requires Collected(m) && m.index != 0 && Matches(m, Body(kind, payload)).More?
    ensures Matches(m, Frame(kind, payload)) != Stop(Decoded(kind, payload))
  {
    hide Head, Sum, Match;
    var body, checksum := Body(kind, payload), (Sum(Body(kind, payload)) % 256) as byte;
    IndexCounts(m, body);
    CollectedStays(m, body);
    MatchesSnoc(m, body, checksum);
    if Matches(m, Frame(kind, payload)) == Stop(Decoded(kind, payload)) {
      DecodedIsCollected(Matches(m, body).m, checksum);
    }
  }

  /** A reading that ends before the input and without a third line end ends where the match does. */
  lemma {:induction false} ReadIsMatch(enters: nat, m: Matcher, input: seq<byte>)
    requires !Read(enters, m, input).verdict.EndOfInput? && !Read(enters, m, input).verdict.EndImprov?
    ensures var r := Read(enters, m, input);
      && r.taken > 0 && Matches(m, input[..r.taken - 1]).More? && Matches(m, input[..r.taken]) == Stop(r.verdict)
    decreases |input|
  {
    MatchGoesOn(m, input[0]);
    hide Match;
    ReadStep(enters, m, input);
    var r := Read(enters, m, input);
    assert input[..r.taken][0] == input[0] && input[..r.taken][1..] == input[1..][..r.taken - 1];
    if Match(m, input[0]).More? {
      var next := Match(m, input[0]).m;
      ReadIsMatch(if IsEnter(input[0]) then enters + 1 else 0, next, input[1..]);
      assert input[..r.taken - 1][0] == input[0] && input[..r.taken - 1][1..] == input[1..][..r.taken - 2];
    } else {
      assert input[..0] == [];
    }
  }

  /** A byte does not end the input. */
  lemma MatchGoesOn(m: Matcher, c: byte)
    ensures Match(m, c).Stop? ==> !Match(m, c).verdict.EndOfInput? && !Match(m, c).verdict.EndImprov?
  {
  }

  /** A frame whose end is reached in the middle of a match, or after the match ended, is not decoded there. */
  lemma OnlyFromTheStart(enters: nat, noise: seq<byte>, kind: byte, payload: seq<byte>, rest: seq<byte>)
    requires var r := Read(enters, FRESH, noise + Frame(kind, payload) + rest);
      r.verdict == Decoded(kind, payload) && r.taken == |noise + Frame(kind, payload)|
    ensures Matches(FRESH, noise).More? && Matches(FRESH, noise).m.index == 0
  {
    var frame, body := Frame(kind, payload), Body(kind, payload);
    var input := noise + frame + rest;
    hide Head, Sum, Match, Read, Matches;
    ReadIsMatch(enters, FRESH, input);
    assert input[..|noise + frame|] == noise + frame;
    assert input[..|noise + frame| - 1] == noise + body;
    MatchesAppend(FRESH, noise, frame);
    MatchesAppend(FRESH, noise, body);
    FreshCollected();
    CollectedStays(FRESH, noise);
    var m := Matches(FRESH, noise).m;
    if m.index != 0 {
      MidMatchMisses(m, kind, payload);
    }
  }

  lemma FreshCollected()
    ensures Collected(FRESH)
  {
  }

  /** Noise that lets a frame after it be decoded: the match is at its start, with a sum of bytes that vanishes. */
  ghost predicate Harmless(noise: seq<byte>)
  {
    Matches(FRESH, noise).More? && Matches(FRESH, noise).m.index == 0 && Matches(FRESH, noise).m.sum % 256 == 0
  }

  /**
   * A frame after any noise is decoded at its end exactly when the noise leaves the matcher at its start, the bytes
   * of noise that looked like the beginning of a frame add up to a multiple of 256, and no third line end in a row
   * occurs. In a matcher at its start the frame is otherwise read to its end and rejected.
   */
  lemma FrameAfterNoise(enters: nat, noise: seq<byte>, kind: byte, payload: seq<byte>, rest: seq<byte>)
    requires |payload| < 256
    ensures var r := Read(enters, FRESH, noise + Frame(kind, payload) + rest);
      r.verdict == Decoded(kind, payload) && r.taken == |noise + Frame(kind, payload)|
      <==> Harmless(noise) && NoTriple(enters, noise + Frame(kind, payload))
    ensures Matches(FRESH, noise).More? && Matches(FRESH, noise).m.index == 0 ==>
      var r := Read(enters, FRESH, noise + Frame(kind, payload) + rest);
      && r.verdict == (if !NoTriple(enters, noise + Frame(kind, payload)) then EndImprov
                       else if Matches(FRESH, noise).m.sum % 256 == 0 then Decoded(kind, payload) else BadChecksum)
      && (NoTriple(enters, noise + Frame(kind, payload)) ==>
            r.taken == |noise + Frame(kind, payload)| && r.enters == EntersAfter(enters, noise + Frame(kind, payload)))
  {
    hide Match, Read, Matches, NoTriple, Frame, EntersAfter;
    var r := Read(enters, FRESH, noise + Frame(kind, payload) + rest);
    if r.verdict == Decoded(kind, payload) && r.taken == |noise + Frame(kind, payload)| {
      OnlyFromTheStart(enters, noise, kind, payload, rest);
    }
    if Matches(FRESH, noise).More? && Matches(FRESH, noise).m.index == 0 {
      FrameFromTheStart(enters, noise, kind, payload, rest);
    }
  }

  lemma FrameFromTheStart(enters: nat, noise: seq<byte>, kind: byte, payload: seq<byte>, rest: seq<byte>)
    requires |payload| < 256 && Matches(FRESH, noise).More? && Matches(FRESH, noise).m.index == 0
    ensures var r := Read(enters, FRESH, noise + Frame(kind, payload) + rest);
      && r.verdict == (if !NoTriple(enters, noise + Frame(kind, payload)) then EndImprov
                       else if Matches(FRESH, noise).m.sum % 256 == 0 then Decoded(kind, payload) else BadChecksum)
      && (NoTriple(enters, noise + Frame(kind, payload)) ==>
            r.taken == |noise + Frame(kind, payload)| && r.enters == EntersAfter(enters, noise + Frame(kind, payload)))
  {
    hide Match;
    var m, frame, body := Matches(FRESH, noise).m, Frame(kind, payload), Body(kind, payload);
    FreshCollected();
    CollectedStays(FRESH, noise);
    FrameMatches(m, kind, payload);
    MatchesAppend(FRESH, noise, frame);
    MatchesAppend(FRESH, noise, body);
    var s := noise + frame;
    assert s[..|s| - 1] == noise + body;
    ReadThrough(enters, FRESH, s, rest);
  }

  /** Noise with neither the first byte of a frame nor a SLIP byte. */
  predicate Quiet(noise: seq<byte>)
  {
    MAGIC[0] !in noise && SLIP !in noise
  }

  lemma {:induction false} QuietIsIgnored(noise: seq<byte>)
    requires Quiet(noise)
    ensures Matches(FRESH, noise) == More(FRESH)
    decreases |noise|
  {
    if noise != [] {
      assert noise[0] in noise && forall c :: c in noise[1..] ==> c in noise;
      QuietIsIgnored(noise[1..]);
    }
  }

  /** A stray "I" before the noise makes the decoder reject the frame that follows, whatever it is. */
  lemma StrayLetterSpoilsFrame(kind: byte, payload: seq<byte>, rest: seq<byte>)
    requires |payload| < 256 && NoTriple(0, [73, 32] + Frame(kind, payload))
    ensures Read(0, FRESH, [73, 32] + Frame(kind, payload) + rest).verdict == BadChecksum
  {
    var noise: seq<byte> := [73, 32];
    assert noise[1..] == [32] && noise[1..][1..] == [];
    assert Matches(FRESH, noise) == Matches(Matcher(1, 0, 0, [], 73), [32]) == More(Matcher(0, 0, 0, [], 73));
    FrameAfterNoise(0, noise, kind, payload, rest);
  }

  /** An "I" just before a frame loses it, whatever it is: the frame's own first byte ends the match begun. */
  lemma LetterInFrontLosesFrame(enters: nat, kind: byte, payload: seq<byte>, rest: seq<byte>)
    requires |payload| < 256
    ensures var r := Read(enters, FRESH, [73] + Frame(kind, payload) + rest);
      !(r.verdict == Decoded(kind, payload) && r.taken == 1 + |Frame(kind, payload)|)
  {
    var noise: seq<byte> := [73];
    assert noise[1..] == [];
    assert Matches(FRESH, noise) == More(Matcher(1, 0, 0, [], 73));
    hide Matches, Read, Frame;
    FrameAfterNoise(enters, noise, kind, payload, rest);
  }

  // Streams of frames.

  /** A frame and the noise before it. */
  datatype Packet = Packet(noise: seq<byte>, kind: byte, payload: seq<byte>)

  ghost predicate Proper(ps: seq<Packet>)
  {
    forall k :: 0 <= k < |ps| ==> Quiet(ps[k].noise) && |ps[k].payload| < 256
  }

  function Stream(ps: seq<Packet>): (r: seq<byte>)
  {
    if ps == [] then [] else ps[0].noise + Frame(ps[0].kind, ps[0].payload) + Stream(ps[1..])
  }

  /** What the encoder writes: every frame is followed by a line feed. */
  function Wire(ps: seq<Packet>): (r: seq<byte>)
  {
    if ps == [] then [] else ps[0].noise + Frame(ps[0].kind, ps[0].payload) + [LF] + Wire(ps[1..])
  }

  function Verdicts(ps: seq<Packet>): (r: seq<Verdict>)
    ensures |r| == |ps|
  {
    if ps == [] then [] else [Decoded(ps[0].kind, ps[0].payload)] + Verdicts(ps[1..])
  }

  /** Reading n times. */
  function ReadAll(enters: nat, input: seq<byte>, n: nat): (r: seq<Verdict>)
    ensures |r| == n
    decreases n
  {
    if n == 0 then []
    else
      var r := Read(enters, FRESH, input);
      [r.verdict] + ReadAll(r.enters, input[r.taken..], n - 1)
  }

  lemma {:induction false} NoTripleAppend(enters: nat, a: seq<byte>, b: seq<byte>)
    ensures NoTriple(enters, a + b) <==> NoTriple(enters, a) && NoTriple(EntersAfter(enters, a), b)
    decreases |a|
  {
    if a == [] {
      assert a + b == b;
    } else {
      assert (a + b)[1..] == a[1..] + b;
      NoTripleAppend(if IsEnter(a[0]) then enters + 1 else 0, a[1..], b);
    }
  }

  /** Repeated reading recovers the frames of a stream exactly when it has no third line end in a row. */
  lemma {:induction false} StreamReads(enters: nat, ps: seq<Packet>, tail: seq<byte>)
    requires Proper(ps)
    ensures ReadAll(enters, Stream(ps) + tail, |ps|) == Verdicts(ps) <==> NoTriple(enters, Stream(ps))
    decreases |ps|
  {
    if ps == [] {
    } else {
      var p, later, first := ps[0], Stream(ps[1..]), ps[0].noise + Frame(ps[0].kind, ps[0].payload);
      assert Verdicts(ps)[0] == Decoded(p.kind, p.payload) && Verdicts(ps)[1..] == Verdicts(ps[1..]);
      assert Stream(ps) == first + later;
      assert Proper(ps[1..]) && Quiet(p.noise);
      Associative(first, later, tail);
      QuietIsIgnored(p.noise);
      FrameAfterNoise(enters, p.noise, p.kind, p.payload, later + tail);
      NoTripleAppend(enters, first, later);
      StreamReads(EntersAfter(enters, first), ps[1..], tail);
      FirstVerdict(enters, first + (later + tail), |ps|, Verdicts(ps));
      hide Frame, Read, Matches, Quiet, NoTriple, EntersAfter, ReadAll, Verdicts, Stream;
      assert (first + (later + tail))[|first|..] == later + tail;
    }
  }

  /** Comparing a sequence of readings with expected verdicts, the first one first. */
  lemma FirstVerdict(enters: nat, input: seq<byte>, n: nat, expected: seq<Verdict>)
    requires n > 0 && |expected| == n
    ensures var r := Read(enters, FRESH, input);
      ReadAll(enters, input, n) == expected <==>
        r.verdict == expected[0] && ReadAll(r.enters, input[r.taken..], n - 1) == expected[1..]
  {
    var r := Read(enters, FRESH, input);
    var rest := ReadAll(r.enters, input[r.taken..], n - 1);
    assert ReadAll(enters, input, n)[1..] == rest;
    assert expected == [expected[0]] + expected[1..];
  }

  /** The packets with the line feed after the previous frame counted as noise. */
  function Follow(ps: seq<Packet>): (r: seq<Packet>)
    ensures |r| == |ps|
  {
    if ps == [] then [] else [ps[0].(noise := [LF] + ps[0].noise)] + Follow(ps[1..])
  }

  lemma {:induction false} FollowIsProper(ps: seq<Packet>)
    requires Proper(ps)
    ensures Proper(Follow(ps)) && Verdicts(Follow(ps)) == Verdicts(ps)
  {
    if ps != [] {
      assert Proper(ps[1..]) && Quiet(ps[0].noise);
      FollowIsProper(ps[1..]);
      assert Follow(ps)[1..] == Follow(ps[1..]);
    }
  }

  lemma {:induction false} WireFollows(ps: seq<Packet>)
    ensures [LF] + Wire(ps) == Stream(Follow(ps)) + [LF]
  {
    if ps != [] {
      hide Frame;
      WireFollows(ps[1..]);
      var frame, noise := Frame(ps[0].kind, ps[0].payload), ps[0].noise;
      assert Follow(ps)[1..] == Follow(ps[1..]);
      assert Wire(ps) == noise + frame + ([LF] + Wire(ps[1..]));
      assert Stream(Follow(ps)) == [LF] + noise + frame + Stream(Follow(ps[1..]));
    }
  }

  /**
   * The round trip of the framing. What the encoder wrote, with quiet noise before each frame, is read back as
   * the same types and payloads in order if and only if no three line ends come in a row before the last byte.
   */
  lemma WireReads(ps: seq<Packet>)
    requires Proper(ps) && ps != []
    ensures Wire(ps) != []
    ensures ReadAll(0, Wire(ps), |ps|) == Verdicts(ps) <==> NoTriple(0, Wire(ps)[..|Wire(ps)| - 1])
  {
    var qs := [ps[0]] + Follow(ps[1..]);
    WireIsStream(ps);
    assert Proper(ps[1..]) && Quiet(ps[0].noise);
    FollowIsProper(ps[1..]);
    assert qs[1..] == Follow(ps[1..]);
    hide Frame, Follow, Quiet, NoTriple, ReadAll, Wire, Stream;
    assert Proper(qs) && Verdicts(qs) == Verdicts(ps);
    assert Wire(ps)[..|Wire(ps)| - 1] == Stream(qs);
    StreamReads(0, qs, [LF]);
  }

  /** The wire's last line feed comes after the stream of its packets. */
  lemma WireIsStream(ps: seq<Packet>)
    requires ps != []
    ensures Wire(ps) == Stream([ps[0]] + Follow(ps[1..])) + [LF]
  {
    var first, later := ps[0], Follow(ps[1..]);
    assert ([first] + later)[1..] == later;
    WireFollows(ps[1..]);
    hide Frame, Follow;
    var front := first.noise + Frame(first.kind, first.payload);
    Associative(front, [LF], Wire(ps[1..]));
    Associative(front, Stream(later), [LF]);
  }

  // String lists in remote procedure results.

  function EncodeString(s: seq<byte>): (r: seq<byte>)
    ensures |r| == 1 + |s|
  {
    [(|s| % 256) as byte] + s
  }

  function EncodeAll(strings: seq<seq<byte>>): (r: seq<byte>)
  {
    if strings == [] then [] else EncodeString(strings[0]) + EncodeAll(strings[1..])
  }

  /** A string and the bytes it took; None when the data end before it. */
  datatype Taken = Taken(value: seq<byte>, used: nat)

  function DecodeString(data: seq<byte>): (r: Option<Taken>)
  {
    if data == [] || data[0] as nat >= |data| then None
    else Some(Taken(data[1..1 + data[0] as nat], 1 + data[0] as nat))
  }

  datatype TakenAll = TakenAll(values: seq<seq<byte>>, used: nat)

  function DecodeAll(data: seq<byte>, n: nat): (r: Option<TakenAll>)
    decreases n
  {
    if n == 0 then Some(TakenAll([], 0))
    else
      match DecodeString(data)
      case None => None
      case Some(t) =>
        if t.used > |data| then None
        else
          match DecodeAll(data[t.used..], n - 1)
          case None => None
          case Some(rest) => Some(TakenAll([t.value] + rest.values, t.used + rest.used))
  }

  /** A string comes back exactly when its length fits the length byte. */
  lemma StringReturns(s: seq<byte>, rest: seq<byte>)
    ensures DecodeString(EncodeString(s) + rest) == Some(Taken(s, 1 + |s|)) <==> |s| < 256
  {
    var data := EncodeString(s) + rest;
    if |s| < 256 {
      assert data[1..1 + |s|] == s;
    }
  }

  /** Encoding strings one after another and decoding as many gives the strings and uses exactly what was written. */
  lemma {:induction false} StringsReturn(strings: seq<seq<byte>>, rest: seq<byte>)
    requires forall k :: 0 <= k < |strings| ==> |strings[k]| < 256
    ensures DecodeAll(EncodeAll(strings) + rest, |strings|) == Some(TakenAll(strings, |EncodeAll(strings)|))
  {
    hide DecodeString, EncodeString, DecodeAll;
    if strings == [] {
      DecodeNone(EncodeAll(strings) + rest);
    } else {
      var first, later := EncodeString(strings[0]), EncodeAll(strings[1..]);
      StringReturns(strings[0], later + rest);
      StringsReturn(strings[1..], rest);
      Associative(first, later, rest);
      DecodeNext(first, later + rest, |strings|, strings[0], strings[1..], |later|);
      assert [strings[0]] + strings[1..] == strings;
    }
  }

  lemma DecodeNone(data: seq<byte>)
    ensures DecodeAll(data, 0) == Some(TakenAll([], 0))
  {
  }

  lemma DecodeNext(first: seq<byte>, later: seq<byte>, n: nat, s: seq<byte>, values: seq<seq<byte>>, used: nat)
    requires n > 0 && DecodeString(first + later) == Some(Taken(s, |first|))
    requires DecodeAll(later, n - 1) == Some(TakenAll(values, used))
    ensures DecodeAll(first + later, n) == Some(TakenAll([s] + values, |first| + used))
  {
    hide DecodeString;
    assert (first + later)[|first|..] == later;
  }

  /** The payload of a result: the command, the size of the strings, the strings. */
  function ResultPayload(command: byte, strings: seq<seq<byte>>): (r: seq<byte>)
  {
    [command, (|EncodeAll(strings)| % 256) as byte] + EncodeAll(strings)
  }

  /**
   * A result sent as a frame, read back and decoded: the strings return, and the size byte is exactly the number
   * of bytes they took.
   */
  lemma ResultReturns(kind: byte, command: byte, strings: seq<seq<byte>>, rest: seq<byte>)
    requires |ResultPayload(command, strings)| < 256
    requires NoTriple(0, Frame(kind, ResultPayload(command, strings)))
    ensures var verdict := Read(0, FRESH, Frame(kind, ResultPayload(command, strings)) + rest).verdict;
      && verdict == Decoded(kind, ResultPayload(command, strings)) && verdict.payload[0] == command
      && DecodeAll(verdict.payload[2..], |strings|) == Some(TakenAll(strings, verdict.payload[1] as nat))
  {
    hide Frame, Read, Matches, NoTriple, EncodeAll, DecodeAll;
    var payload := ResultPayload(command, strings);
    QuietIsIgnored([]);
    assert [] + Frame(kind, payload) == Frame(kind, payload);
    FrameAfterNoise(0, [], kind, payload, rest);
    forall k | 0 <= k < |strings| ensures |strings[k]| < 256 {
      StringFits(strings, k);
    }
    StringsReturn(strings, []);
    assert payload[2..] == EncodeAll(strings) && EncodeAll(strings) + [] == EncodeAll(strings);
  }

  lemma {:induction false} StringFits(strings: seq<seq<byte>>, k: nat)
    requires k < |strings|
    ensures |strings[k]| < |EncodeAll(strings)|
  {
    if k > 0 {
      StringFits(strings[1..], k - 1);
    }
  }
}
