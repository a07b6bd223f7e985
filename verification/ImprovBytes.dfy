/** The Improv frames and their reading, byte for byte (components/generic_main/improv_wifi.c). */
module ImprovBytes {
  import opened Bytes
  import opened ImprovFrame
  import opened ImprovStream

  /** Every byte of a frame, whose length byte is the payload's length modulo 256. */
  lemma FrameBytes(kind: byte, payload: seq<byte>, length: byte)
    requires length as int == |payload| % 256
    ensures Frame(kind, payload) ==
      [73, 77, 80, 82, 79, 86, 1, kind, length] + payload
      + [((478 + kind as int + length as int + Sum(payload)) % 256) as byte]
  {
    hide *;
    FrameParts(kind, payload, length);
    HeadBytes(kind, length);
    SumAppend(Head(kind, length), payload);
    HeadSum(kind, length);
  }

  lemma FrameParts(kind: byte, payload: seq<byte>, length: byte)
    requires length as int == |payload| % 256
    ensures Frame(kind, payload)
         == Head(kind, length) + payload + [(Sum(Head(kind, length) + payload) % 256) as byte]
  {
    hide Sum, Head;
  }

  lemma HeadBytes(kind: byte, length: byte)
    ensures Head(kind, length) == [73, 77, 80, 82, 79, 86, 1, kind, length]
  {
  }

  lemma HeadSum(kind: byte, length: byte)
    ensures Sum(Head(kind, length)) == 478 + kind as int + length as int
  {
    var tail: seq<byte> := [79, 86, 1, kind, length];
    SumOf(79, [86, 1, kind, length]);
    SumOf(86, [1, kind, length]);
    SumOf(1, [kind, length]);
    SumOf(kind, [length]);
    SumOf(length, []);
    SumOf(82, tail);
    SumOf(80, [82] + tail);
    SumOf(77, [80, 82] + tail);
    SumOf(73, [77, 80, 82] + tail);
    assert Head(kind, length) == [73] + ([77, 80, 82] + tail);
    assert [77, 80, 82] + tail == [77] + ([80, 82] + tail);
    assert [80, 82] + tail == [80] + ([82] + tail);
    assert tail == [79] + [86, 1, kind, length];
  }

  lemma SumOf(c: byte, s: seq<byte>)
    ensures Sum([c] + s) == c as int + Sum(s)
    ensures Sum([]) == 0
  {
    assert ([c] + s)[1..] == s;
  }

  /** The state frame "ready" as it goes over the line. */
  lemma ReadyFrame()
    ensures Frame(1, [2]) == [73, 77, 80, 82, 79, 86, 1, 1, 1, 2, 226]
  {
    FrameBytes(1, [2], 1);
    SumOf(2, []);
    assert [2] + [] == [2];
  }

  // Line ends.

  /** Three line ends in a row. */
  ghost predicate TripleAt(s: seq<byte>, k: nat)
  {
    && k + 2 < |s|
    && (s[k] == 13 || s[k] == 10) && (s[k + 1] == 13 || s[k + 1] == 10) && (s[k + 2] == 13 || s[k + 2] == 10)
  }

  function Lines(n: nat): (r: seq<byte>)
    ensures |r| == n && forall k :: 0 <= k < n ==> r[k] == 10
  {
    seq(n, _ => 10)
  }

  lemma LineEndNext(enters: nat, s: seq<byte>, k: nat)
    requires s != [] && (s[0] == 13 || s[0] == 10)
    ensures TripleAt(Lines(enters) + s, k) <==> TripleAt(Lines(enters + 1) + s[1..], k)
  {
    var a, b := Lines(enters) + s, Lines(enters + 1) + s[1..];
    forall i | 0 <= i < |a| ensures (a[i] == 13 || a[i] == 10) <==> (b[i] == 13 || b[i] == 10) {
      if i > enters {
        assert a[i] == s[i - enters] && b[i] == s[1..][i - enters - 1];
      }
    }
  }

  lemma OtherNext(enters: nat, s: seq<byte>, k: nat)
    requires s != [] && s[0] != 13 && s[0] != 10 && enters <= 2
    ensures TripleAt(Lines(enters) + s, k) ==> k > enters && TripleAt(s[1..], k - enters - 1)
    ensures TripleAt(s[1..], k) ==> TripleAt(Lines(enters) + s, k + enters + 1)
  {
    var a := Lines(enters) + s;
    assert a[enters] == s[0];
    forall i | enters < i < |a| ensures a[i] == s[1..][i - enters - 1] {
    }
  }

  /** Reading ends at a third line end in a row, those counted before included. */
  lemma {:induction false} NoTripleMeans(enters: nat, s: seq<byte>)
    requires enters <= 2
    ensures NoTriple(enters, s) <==> forall k: nat :: !TripleAt(Lines(enters) + s, k)
    decreases |s|
  {
    hide TripleAt;
    if s == [] {
      NoneInLines(enters);
    } else if s[0] == 13 || s[0] == 10 {
      if enters < 2 {
        NoTripleMeans(enters + 1, s[1..]);
        var later := Lines(enters + 1) + s[1..];
        if k: nat :| TripleAt(Lines(enters) + s, k) {
          LineEndNext(enters, s, k);
        }
        if k: nat :| TripleAt(later, k) {
          LineEndNext(enters, s, k);
        }
      } else {
        ThreeLines(s);
      }
    } else {
      NoTripleMeans(0, s[1..]);
      assert Lines(0) + s[1..] == s[1..];
      if k: nat :| TripleAt(Lines(enters) + s, k) {
        OtherNext(enters, s, k);
      }
      if k: nat :| TripleAt(s[1..], k) {
        OtherNext(enters, s, k);
      }
    }
  }

  lemma NoneInLines(enters: nat)
    requires enters <= 2
    ensures forall k: nat :: !TripleAt(Lines(enters) + [], k)
  {
  }

  lemma ThreeLines(s: seq<byte>)
    requires s != [] && (s[0] == 13 || s[0] == 10)
    ensures TripleAt(Lines(2) + s, 0)
  {
  }

  // How a reading ends.

  /** After quiet noise and some of the letters. */
  lemma LettersMatch(noise: seq<byte>, k: nat)
    requires Quiet(noise) && k <= 6
    ensures Matches(FRESH, noise + [73, 77, 80, 82, 79, 86][..k]) == More(Matcher(k, 0, 0, [], Sum(MAGIC[..k])))
    ensures MAGIC == [73, 77, 80, 82, 79, 86]
  {
    QuietIsIgnored(noise);
    MatchesAppend(FRESH, noise, MAGIC[..k]);
    MagicMatches(FRESH, k);
  }

  /** How a reading ends at the last byte of s. */
  lemma EndsThere(enters: nat, s: seq<byte>, c: byte, rest: seq<byte>, m: Matcher)
    requires Matches(FRESH, s) == More(m) && NoTriple(enters, s + [c])
    ensures var r := Read(enters, FRESH, s + [c] + rest);
      && (Match(m, c).Stop? ==> r.verdict == Match(m, c).verdict && r.taken == |s| + 1)
      && (Match(m, c).More? ==> r.taken != |s| + 1 || r.verdict.EndOfInput? || r.verdict.EndImprov?)
  {
    MatchesSnoc(FRESH, s, c);
    var all := s + [c];
    assert all[..|all| - 1] == s;
    var r := Read(enters, FRESH, all + rest);
    assert (all + rest)[..|all|] == all;
    hide Match;
    if Match(m, c).Stop? {
      ReadThrough(enters, FRESH, all, rest);
    } else if r.taken == |s| + 1 && !r.verdict.EndOfInput? && !r.verdict.EndImprov? {
      ReadIsMatch(enters, FRESH, all + rest);
    }
  }

  /** The seventh byte of a frame is its version; any other than 1 is rejected there, and only there. */
  lemma VersionIsChecked(enters: nat, noise: seq<byte>, v: byte, rest: seq<byte>)
    requires Quiet(noise) && NoTriple(enters, noise + [73, 77, 80, 82, 79, 86] + [v])
    ensures var r := Read(enters, FRESH, noise + [73, 77, 80, 82, 79, 86] + [v] + rest);
      r.verdict == BadVersion && r.taken == |noise| + 7 <==> v != 1
  {
    LettersMatch(noise, 6);
    assert [73, 77, 80, 82, 79, 86][..6] == [73, 77, 80, 82, 79, 86];
    hide Read, Matches, Sum, NoTriple, Quiet;
    EndsThere(enters, noise + [73, 77, 80, 82, 79, 86], v, rest, Matcher(6, 0, 0, [], Sum(MAGIC[..6])));
  }

  /** Before the version, a byte 0xc0 restarts the chip, and no other byte does. */
  lemma SlipRestarts(enters: nat, noise: seq<byte>, k: nat, c: byte, rest: seq<byte>)
    requires Quiet(noise) && k < 6 && NoTriple(enters, noise + [73, 77, 80, 82, 79, 86][..k] + [c])
    ensures var r := Read(enters, FRESH, noise + [73, 77, 80, 82, 79, 86][..k] + [c] + rest);
      r.verdict == Restart && r.taken == |noise| + k + 1 <==> c == 0xc0
  {
    LettersMatch(noise, k);
    hide Read, Matches, Sum, NoTriple, Quiet;
    EndsThere(enters, noise + [73, 77, 80, 82, 79, 86][..k], c, rest, Matcher(k, 0, 0, [], Sum(MAGIC[..k])));
  }

  /** Wherever a reading restarts the chip, the last byte taken is 0xc0. */
  lemma RestartIsSlip(enters: nat, input: seq<byte>)
    requires Read(enters, FRESH, input).verdict == Restart
    ensures var r := Read(enters, FRESH, input); 0 < r.taken <= |input| && input[r.taken - 1] == 0xc0
  {
    var r := Read(enters, FRESH, input);
    ReadIsMatch(enters, FRESH, input);
    var s := input[..r.taken - 1];
    assert input[..r.taken] == s + [input[r.taken - 1]];
    hide Read, Matches;
    MatchesSnoc(FRESH, s, input[r.taken - 1]);
  }

  /** A frame is decoded exactly if its last byte is the sum of the others, and rejected otherwise. */
  lemma ChecksumIsChecked(enters: nat, noise: seq<byte>, kind: byte, payload: seq<byte>, c: byte, rest: seq<byte>)
    requires Quiet(noise) && |payload| < 256
    requires NoTriple(enters,
      noise + ([73, 77, 80, 82, 79, 86, 1, kind, |payload| as byte] + payload) + [c])
    ensures var r := Read(enters, FRESH,
        noise + ([73, 77, 80, 82, 79, 86, 1, kind, |payload| as byte] + payload) + [c] + rest);
      && r.taken == |noise| + 9 + |payload| + 1
      && r.verdict == if c as int == (478 + kind as int + |payload| + Sum(payload)) % 256 then Decoded(kind, payload)
                      else BadChecksum
  {
    var body := [73, 77, 80, 82, 79, 86, 1, kind, |payload| as byte] + payload;
    assert body == Body(kind, payload);
    FrameBytes(kind, payload, |payload| as byte);
    SumAppend(Head(kind, |payload| as byte), payload);
    HeadSum(kind, |payload| as byte);
    QuietIsIgnored(noise);
    PayloadMatches(FRESH, kind, payload, |payload|);
    assert payload[..|payload|] == payload;
    MatchesAppend(FRESH, noise, body);
    hide Read, Matches, Sum, NoTriple, Quiet, Frame, Head, Body;
    EndsThere(enters, noise + body, c, rest,
              Matcher(9 + |payload|, kind, |payload| as byte, payload, Sum(Body(kind, payload))));
  }

  /** A third line end in a row ends the protocol, unless the match ended before. */
  lemma {:induction false} ThirdLineEndEnds(enters: nat, m: Matcher, s: seq<byte>, rest: seq<byte>)
    requires Matches(m, s).More? && !NoTriple(enters, s)
    ensures Read(enters, m, s + rest).verdict == EndImprov
    decreases |s|
  {
    hide Match;
    assert (s + rest)[0] == s[0] && (s + rest)[1..] == s[1..] + rest;
    if !(IsEnter(s[0]) && enters >= 2) {
      ReadStep(enters, m, s + rest);
      ThirdLineEndEnds(if IsEnter(s[0]) then enters + 1 else 0, Match(m, s[0]).m, s[1..], rest);
    }
  }

  /** Input that ends before the match does is taken whole. */
  lemma {:induction false} InputEnds(enters: nat, m: Matcher, s: seq<byte>)
    requires Matches(m, s).More? && NoTriple(enters, s)
    ensures Read(enters, m, s) == Reading(EndOfInput, |s|, EntersAfter(enters, s))
    decreases |s|
  {
    hide Match;
    if s != [] {
      ReadStep(enters, m, s);
      InputEnds(if IsEnter(s[0]) then enters + 1 else 0, Match(m, s[0]).m, s[1..]);
    }
  }
}
