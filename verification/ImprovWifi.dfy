/** The serial port as components/generic_main/improv_wifi.c uses it: sending, reading and the string encoders. */
module ImprovWifi {
  import opened Bytes
  import opened ImprovFrame
  import opened ImprovStream

  const ERROR_STATE: byte := 2
  const RPC_RESULT: byte := 4
  const REQUEST_DEVICE_INFORMATION: byte := 3
  const INVALID_RPC_PACKET: byte := 1

  function Ascii(s: string): (r: seq<byte>)
    ensures |r| == |s|
  {
    seq(|s|, k requires 0 <= k < |s| => (s[k] as int % 256) as byte)
  }

  /** Copy bytes behind the first `at` bytes of a buffer. */
  method Append(to: array<byte>, at: nat, bytes: seq<byte>)
    requires at + |bytes| <= to.Length
    modifies to
    ensures to[..at + |bytes|] == old(to[..at]) + bytes
  {
    forall k | 0 <= k < |bytes| {
      to[at + k] := bytes[k];
    }
    assert to[..at] == old(to[..at]) && to[at..at + |bytes|] == bytes;
    assert to[..at + |bytes|] == to[..at] + to[at..at + |bytes|];
  }

  /** Append a length-prefixed string, and return how many bytes that took. */
  method StoreString(s: seq<byte>, data: array<byte>, at: nat) returns (used: nat)
    requires at + 1 + |s| <= data.Length
    modifies data
    ensures used == |EncodeString(s)| == 1 + |s|
    ensures data[at] as int == |s| % 256 && data[at + 1..at + 1 + |s|] == s
    ensures data[..at + used] == old(data[..at]) + EncodeString(s)
  {
    Append(data, at, [(|s| % 256) as byte]);
    Append(data, at + 1, s);
    used := |s| + 1;
  }

  /** Copy out the length-prefixed string at a place, with a terminator, and return how many bytes it took. */
  method FetchString(data: array<byte>, at: nat, s: array<byte>) returns (used: nat)
    requires at < data.Length && at + data[at] as nat < data.Length && data[at] as nat < s.Length && s != data
    modifies s
    ensures used == 1 + data[at] as int && s[..used - 1] == data[at + 1..at + used] && s[used - 1] == 0
    ensures 0 < used <= s.Length && DecodeString(data[at..]) == Some(Taken(s[..used - 1], used)) && s[used - 1] == NUL
  {
    var length := data[at] as nat;
    forall k | 0 <= k < length {
      s[k] := data[at + 1 + k];
    }
    s[length] := NUL;
    assert s[..length] == data[at..][1..1 + length];
    used := length + 1;
  }

  /** Add up the first n bytes of a buffer. */
  method Checksum(buffer: array<byte>, n: nat) returns (checksum: nat)
    requires n <= buffer.Length
    ensures checksum == Sum(buffer[..n])
  {
    checksum := 0;
    for i := 0 to n
      invariant checksum == Sum(buffer[..i])
    {
      assert buffer[..i + 1] == buffer[..i] + [buffer[i]];
      SumAppend(buffer[..i], [buffer[i]]);
      assert [buffer[i]][1..] == [];
      checksum := checksum + buffer[i] as nat;
    }
  }

  /** The reader's local variables: index into the frame, type, length, running sum. */
  datatype Locals = Locals(index: nat, kind: byte, length: byte, sum: nat)

  /** The locals and the payload buffer hold what the matcher holds. */
  ghost predicate Holds(data: array<byte>, v: Locals, m: Matcher)
    reads data
  {
    && data.Length == 256 && v.index <= 9 + v.length as nat
    && m == Matcher(v.index, v.kind, v.length, if v.index >= 9 then data[..v.index - 9] else [], v.sum)
  }

  /** Act on one byte: start over, note a header field, store payload, or finish the frame. */
  method TakeByte(data: array<byte>, v: Locals, c: byte, ghost m: Matcher) returns (end: Option<Verdict>, next: Locals)
    requires Holds(data, v, m)
    modifies data
    ensures end.Some? ==> Match(m, c) == Stop(end.value) && next == v
    ensures end.Some? && end.value.Decoded? ==> end.value == Decoded(v.kind, data[..v.length as nat])
    ensures end.None? ==> Match(m, c).More? && Holds(data, next, Match(m, c).m)
  {
    next := v;
    if v.index < 6 {
      if c != MAGIC[v.index] {
        if c == SLIP {
          return Some(Restart), v;
        }
        return None, v.(index := 0);
      }
    }
    if v.index == 6 {
      if c != VERSION {
        return Some(BadVersion), v;
      }
    } else if v.index == 7 {
      next := next.(kind := c);
    } else if v.index == 8 {
      next := next.(length := c);
    }
    if v.index >= 9 && v.index < 9 + v.length as nat {
      data[v.index - 9] := c;
      assert data[..v.index - 8] == m.payload + [c];
    } else if v.index == v.length as nat + 9 {
      return Some(if c as nat != v.sum % 256 then BadChecksum else Decoded(v.kind, data[..v.length as nat])), v;
    }
    next := next.(sum := v.sum + c as nat, index := v.index + 1);
    assert data[..0] == [];
    end := None;
  }

  class Port {
    var input: seq<byte>      // what is still to be read
    var output: seq<byte>     // what was written
    var enterCount: nat

    constructor (input: seq<byte>)
      ensures this.input == input && output == [] && enterCount == 0
    {
      this.input, output, enterCount := input, [], 0;
    }

    /** Assemble a frame in a local buffer, add up its checksum, and write it with a line feed. */
    method Send(data: seq<byte>, kind: byte)
      requires |data| <= 256
      modifies this`output
      ensures output == old(output) + Frame(kind, data) + [10]
    {
      hide Sum, Head;
      var buffer := new byte[256 + 11](_ => 0);
      var length := |data|;
      ghost var none := buffer[..0];
      Append(buffer, 0, Head(kind, (length % 256) as byte));
      assert none + Head(kind, (length % 256) as byte) == Head(kind, (length % 256) as byte);
      Append(buffer, 9, data);
      var checksum := Checksum(buffer, 9 + length);
      Append(buffer, 9 + length, [(checksum % 256) as byte]);
      Append(buffer, 10 + length, [LF]);
      Associative(output, Frame(kind, data), [LF]);
      output := output + buffer[..11 + length];
    }

    /** Report a malformed packet. */
    method SendError()
      modifies this`output
      ensures output == old(output) + Frame(2, [1]) + [10]
    {
      Send([INVALID_RPC_PACKET], ERROR_STATE);
    }

    /** The answer to a request for device information: three strings and their total size. */
    method SendDeviceInformation(buildVersion: seq<byte>)
      requires |buildVersion| <= 221
      modifies this`output
      ensures output == old(output)
        + Frame(4, ResultPayload(3, [Ascii("K6BP Rigcontrol"), buildVersion, Ascii("ESP32 Audio Kit")])) + [10]
    {
      hide Frame, EncodeString, Ascii;
      var application, board := Ascii("K6BP Rigcontrol"), Ascii("ESP32 Audio Kit");
      assert |application| == 15 && |board| == 15;
      hide *;
      ThreeStrings(application, buildVersion, board);
      var data := new byte[256](_ => 0);
      data[0] := REQUEST_DEVICE_INFORMATION;
      ghost var start := data[..2];
      var used := StoreString(application, data, 2);
      var offset := 2 + used;
      used := StoreString(buildVersion, data, offset);
      offset := offset + used;
      used := StoreString(board, data, offset);
      offset := offset + used;
      ghost var strings := EncodeAll([application, buildVersion, board]);
      assert data[..offset] == start + strings;
      data[1] := ((offset - 2) % 256) as byte;
      assert data[..offset] == [data[0], data[1]] + strings;
      SentResult(REQUEST_DEVICE_INFORMATION, [application, buildVersion, board], data[..offset]);
      Send(data[..offset], RPC_RESULT);
    }

    lemma SentResult(command: byte, strings: seq<seq<byte>>, data: seq<byte>)
      requires data == [command, (|EncodeAll(strings)| % 256) as byte] + EncodeAll(strings)
      ensures data == ResultPayload(command, strings)
    {
      hide EncodeAll;
    }

    lemma ThreeStrings(a: seq<byte>, b: seq<byte>, c: seq<byte>)
      ensures EncodeAll([a, b, c]) == EncodeString(a) + EncodeString(b) + EncodeString(c)
    {
      var three := [a, b, c];
      assert three[1..] == [b, c] && three[1..][1..] == [c] && three[1..][1..][1..] == [];
      assert EncodeAll([c]) == EncodeString(c);
    }

    /**
     * Read one frame into `data`. Bytes that do not begin a frame are thrown away; a malformed frame is answered
     * with an error frame; three line ends in a row end the protocol. The bytes taken are removed from the input.
     */
    method ReadFrame(data: array<byte>) returns (verdict: Verdict, kind: byte, length: byte)
      requires data.Length == 256 && enterCount <= 2
      modifies this, data
      ensures var r := Read(old(enterCount), FRESH, old(input));
        && verdict == r.verdict && input == old(input)[r.taken..] && enterCount == r.enters <= 2
      ensures verdict.Decoded? ==> verdict == Decoded(kind, data[..length as nat])
      ensures !verdict.Decoded? ==> kind == 0 && length == 0
      ensures output == if verdict.BadVersion? || verdict.BadChecksum?
        then old(output) + Frame(2, [1]) + [10] else old(output)
    {
      kind, length := 0, 0;
      ghost var m, taken := FRESH, 0;
      ghost var all := Read(enterCount, FRESH, input);
      var v := Locals(0, 0, 0, 0);
      assert input[0..] == input;
      hide Frame, Match;
      while true
        invariant enterCount <= 2 && taken <= |old(input)| && input == old(input)[taken..]
        invariant output == old(output) && kind == 0 && length == 0 && Holds(data, v, m)
        invariant var rest := Read(enterCount, m, input); all == rest.(taken := taken + rest.taken)
        decreases |input|
      {
        if |input| == 0 {
          return EndOfInput, 0, 0;
        }
        var c := input[0];
        if (c == CR || c == LF) && enterCount >= 2 {
          input := input[1..];
          return EndImprov, 0, 0;
        }
        ReadStep(enterCount, m, input);
        input, taken := input[1..], taken + 1;
        enterCount := if c == CR || c == LF then enterCount + 1 else 0;
        var end;
        end, v := TakeByte(data, v, c, m);
        if end.Some? {
          verdict := end.value;
          if verdict.BadVersion? || verdict.BadChecksum? {
            SendError();
          } else if verdict.Decoded? {
            kind, length := v.kind, v.length;
          }
          return;
        }
        m := Match(m, c).m;
      }
    }
  }
}
