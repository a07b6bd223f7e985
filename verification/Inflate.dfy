/** The inflate driver of components/miniz/miniz.c over its circular dictionary. */
module Inflate {
  import opened Bytes

  const WINDOW: nat := 32768 // written out where it divides

  datatype Status = Done | HasMoreOutput | NeedsMoreInput | Adler32Mismatch | Failed | BadParam | NoProgress

  /** What one call of the inflator reports: input bytes taken, bytes written at the offset, its next state. */
  datatype Step = Step(status: Status, taken: nat, out: seq<byte>, state: seq<byte>)

  /**
   * The compression library, which is not part of the repository. `meaning` and `ending` give, for a
   * compressed stream, all the bytes it stands for and the status its decoding ends with. `step` is one call
   * of the inflator: its state, the remaining input, the dictionary and the offset to write at.
   */
  datatype Zlib = Zlib(
    compress: seq<byte> -> seq<byte>,
    meaning: seq<byte> -> seq<byte>,
    ending: seq<byte> -> Status,
    init: seq<byte>,
    step: (seq<byte>, seq<byte>, seq<byte>, nat) -> Step)
  {
    /** The inflator, restarted on any stream, delivers that stream's meaning. */
    ghost predicate Contract()
    {
      forall z :: Delivers(step, init, z, [], meaning(z), ending(z))
    }

    /** Decoding undoes encoding. */
    ghost predicate Inverse()
    {
      forall d :: meaning(compress(d)) == d && ending(compress(d)) == Done
    }

    /** The inflator asks for another call only when the dictionary is full up to its end. */
    ghost predicate Fills()
    {
      forall s, z, dict, at: nat :: at < WINDOW && step(s, z, dict, at).status == HasMoreOutput
        ==> |step(s, z, dict, at).out| == WINDOW - at
    }
  }

  /**
   * The dictionary after `done` has been written through it: each cell holds the most recent byte whose index
   * is congruent to the cell's, and cells not reached yet hold zero.
   */
  ghost predicate Window(dict: seq<byte>, done: seq<byte>)
  {
    && |dict| == WINDOW
    && (forall k :: 0 <= k < |done| && |done| - WINDOW <= k ==> dict[k % 32768] == done[k])
    && (forall c :: |done| <= c < WINDOW ==> dict[c] == 0)
  }

  /** Where the byte after `done` goes in the dictionary. */
  function OffsetOf(done: seq<byte>): (r: nat)
    ensures r < WINDOW
  {
    |done| % 32768
  }

  /**
   * The inflator contract. In state s, with z left to take, `done` written through the window and `rest` still
   * to come, a call whose dictionary is right takes no more input than there is, writes the next bytes of
   * `rest` inside the room up to the end of the dictionary, makes progress when it asks to be called again,
   * and otherwise has delivered everything.
   */
  ghost predicate Delivers(step: (seq<byte>, seq<byte>, seq<byte>, nat) -> Step, s: seq<byte>, z: seq<byte>,
                           done: seq<byte>, rest: seq<byte>, ending: Status)
    decreases |rest|
  {
    && ending != HasMoreOutput
    && forall dict | Window(dict, done) ::
         var r := step(s, z, dict, OffsetOf(done));
         && r.taken <= |z|
         && |r.out| <= WINDOW - OffsetOf(done)
         && r.out <= rest
         && if r.status == HasMoreOutput then
              |r.out| > 0 && Delivers(step, r.state, z[r.taken..], done + r.out, rest[|r.out|..], ending)
            else
              r.status == ending && r.out == rest
  }

  /** Writing the next bytes at the running index modulo the window size keeps the window right. */
  lemma WindowAdvances(dict: seq<byte>, done: seq<byte>, out: seq<byte>)
    requires |out| <= WINDOW - OffsetOf(done)
    requires Window(dict, done)
    ensures Window(Overwrite(dict, OffsetOf(done), out), done + out)
  {
    var j, n := |done|, |out|;
    var q, at := j / 32768, j % 32768;
    var next := Overwrite(dict, at, out);
    forall k | 0 <= k < j + n && j + n - WINDOW <= k
      ensures next[k % 32768] == (done + out)[k]
    {
      if k >= j {
        assert k % 32768 == at + (k - j);
      } else {
        assert dict[k % 32768] == done[k];
        if k >= q * 32768 {
          assert k % 32768 == k - q * 32768 < at;
        } else {
          assert k % 32768 == k - (q - 1) * 32768 >= at + n;
        }
      }
    }
  }

  /** Wrapping the dictionary offset with the mask keeps it the running index modulo the window size. */
  lemma WrapIsModulo(index: nat, n: nat)
    ensures And(index % 32768 + n, WINDOW - 1) == (index + n) % 32768
    ensures index % 32768 + n == WINDOW ==> (index + n) % 32768 == 0
  {
    assert Pow2(5) == 32;
    assert Pow2(10) == 1024;
    assert Pow2(15) == WINDOW;
    var x := index % 32768 + n;
    MaskIsModulo(x, 15);
    ModuloUnique(index + n, WINDOW, index / 32768 + x / 32768, x % 32768);
  }

  method NextOffset(dictOfs: nat, n: nat, ghost done: seq<byte>, ghost out: seq<byte>) returns (next: nat)
    requires dictOfs == OffsetOf(done) && n == |out|
    ensures next == OffsetOf(done + out)
    ensures dictOfs + n == WINDOW ==> next == 0
  {
    WrapIsModulo(|done|, n);
    next := And(dictOfs + n, WINDOW - 1);
  }

  /** The callback accepted the slices one after another. */
  ghost predicate Accepted(accept: seq<seq<byte>> -> bool, slices: seq<seq<byte>>)
  {
    forall k :: 0 < k <= |slices| ==> accept(slices[..k])
  }

  /** Slices are non-empty and fit the window; with `full`, all but the last fill it. */
  ghost predicate Sliced(slices: seq<seq<byte>>, full: bool)
  {
    && (forall k :: 0 <= k < |slices| ==> 0 < |slices[k]| <= WINDOW)
    && (full ==> forall k :: 0 <= k < |slices| - 1 ==> |slices[k]| == WINDOW)
  }

  lemma SliceAppended(accept: seq<seq<byte>> -> bool, slices: seq<seq<byte>>, slice: seq<byte>, full: bool)
    requires Accepted(accept, slices)
    requires Sliced(slices, full) && 0 < |slice| <= WINDOW
    requires full && slices != [] ==> |slices[|slices| - 1]| == WINDOW
    ensures Accepted(accept, slices + [slice]) <==> accept(slices + [slice])
    ensures forall k :: 0 < k <= |slices| ==> accept((slices + [slice])[..k])
    ensures Sliced(slices + [slice], full)
    ensures Flatten(slices + [slice]) == Flatten(slices) + slice
  {
    var all := slices + [slice];
    assert all[..|all|] == all;
    assert all[..|slices|] == slices;
    forall k | 0 < k <= |slices| ensures accept(all[..k]) {
      assert all[..k] == slices[..k];
    }
  }

  /** What a stream stands for, and how its decoding ends. */
  datatype Stream = Stream(data: seq<byte>, ending: Status)

  /** The inflator is in state s, with input taken up to `ofs`, `done` delivered and `rest` to come. */
  ghost predicate Decoding(lib: Zlib, z: Stream, input: seq<byte>, s: seq<byte>, ofs: nat,
                           done: seq<byte>, rest: seq<byte>)
    requires ofs <= |input|
  {
    done + rest == z.data && Delivers(lib.step, s, input[ofs..], done, rest, z.ending)
  }

  /**
   * One call of the inflator, which writes into the dictionary in place. The contract carries over to the
   * state it leaves.
   */
  method CallInflator(lib: Zlib, s: seq<byte>, input: seq<byte>, ofs: nat, dict: array<byte>, at: nat,
                      ghost z: Stream, ghost done: seq<byte>, ghost rest: seq<byte>)
    returns (r: Step, slice: seq<byte>, ghost done': seq<byte>, ghost rest': seq<byte>)
    requires ofs <= |input| && Decoding(lib, z, input, s, ofs, done, rest)
    requires Window(dict[..], done) && at == OffsetOf(done)
    modifies dict
    ensures r == old(lib.step(s, input[ofs..], dict[..], at))
    ensures slice == r.out && done' == done + slice && Window(dict[..], done')
    ensures ofs + r.taken <= |input| && at + |slice| <= WINDOW
    ensures done' <= z.data
    ensures r.status == HasMoreOutput ==>
      |rest'| < |rest| && Decoding(lib, z, input, r.state, ofs + r.taken, done', rest')
    ensures r.status != HasMoreOutput ==> r.status == z.ending && done' == z.data
    ensures lib.Fills() && r.status == HasMoreOutput ==> at + |slice| == WINDOW
  {
    r := lib.step(s, input[ofs..], dict[..], at);
    WindowAdvances(dict[..], done, r.out);
    forall k | 0 <= k < |r.out| {
      dict[at + k] := r.out[k];
    }
    assert dict[..] == Overwrite(old(dict[..]), at, r.out);
    assert input[ofs..][r.taken..] == input[ofs + r.taken..];
    slice := dict[at..at + |r.out|];
    done', rest' := done + slice, rest[|slice|..];
  }

  /** Every slice but perhaps the last was accepted. */
  ghost predicate AcceptedBefore(accept: seq<seq<byte>> -> bool, slices: seq<seq<byte>>)
  {
    forall k :: 0 < k < |slices| ==> accept(slices[..k])
  }

  /** The slices handed over so far were all accepted and make up `done`. */
  ghost predicate Handed(accept: seq<seq<byte>> -> bool, slices: seq<seq<byte>>, done: seq<byte>, full: bool)
  {
    && Accepted(accept, slices) && Sliced(slices, full) && Flatten(slices) == done
    && (full && slices != [] ==> |slices[|slices| - 1]| == WINDOW)
  }

  /** Hand a slice to the callback unless it is empty, and tell whether to go on. */
  method PutSlice(accept: seq<seq<byte>> -> bool, slices: seq<seq<byte>>, slice: seq<byte>,
                  ghost done: seq<byte>, ghost full: bool) returns (given: seq<seq<byte>>, proceed: bool)
    requires Handed(accept, slices, done, full) && |slice| <= WINDOW
    ensures Flatten(given) == done + slice
    ensures AcceptedBefore(accept, given) && Sliced(given, full)
    ensures proceed <==> Accepted(accept, given)
    ensures proceed && (full ==> |slice| == WINDOW) ==> Handed(accept, given, done + slice, full)
  {
    if |slice| == 0 {
      assert Flatten(slices) + slice == Flatten(slices);
      return slices, true;
    }
    SliceAppended(accept, slices, slice, full);
    given := slices + [slice];
    proceed := accept(given);
  }

  /** How an inflation ends: what was handed over, and the result for it. */
  ghost predicate Inflated(z: Stream, full: bool, accept: seq<seq<byte>> -> bool, result: int, slices: seq<seq<byte>>)
  {
    && Sliced(slices, full) && Flatten(slices) <= z.data && AcceptedBefore(accept, slices)
    && (Accepted(accept, slices) ==> Flatten(slices) == z.data && result == if z.ending == Done then 1 else 0)
    && (!Accepted(accept, slices) ==> result == 0)
  }

  lemma EndOfLoop(z: Stream, full: bool, accept: seq<seq<byte>> -> bool, result: int, slices: seq<seq<byte>>,
                  status: Status)
    requires Sliced(slices, full) && AcceptedBefore(accept, slices) && Flatten(slices) <= z.data
    requires Accepted(accept, slices) ==> Flatten(slices) == z.data && status == z.ending
    requires result == if Accepted(accept, slices) && status == Done then 1 else 0
    ensures Inflated(z, full, accept, result, slices)
  {
  }

  /** The loop's variables: decompressor, input offset, dictionary offset, slices handed over. */
  datatype Cursor = Cursor(decomp: seq<byte>, inOfs: nat, dictOfs: nat, slices: seq<seq<byte>>)

  /** Before every call of the inflator. */
  ghost predicate Running(lib: Zlib, z: Stream, input: seq<byte>, accept: seq<seq<byte>> -> bool, full: bool,
                          dict: seq<byte>, c: Cursor)
  {
    var done := Flatten(c.slices);
    && c.inOfs <= |input| && done <= z.data
    && Decoding(lib, z, input, c.decomp, c.inOfs, done, z.data[|done|..])
    && Window(dict, done) && c.dictOfs == OffsetOf(done)
    && Handed(accept, c.slices, done, full) && (full ==> c.dictOfs == 0)
  }

  // The calls of the inflator, one after another.

  function Taken(steps: seq<Step>): (r: nat)
  {
    if steps == [] then 0 else Taken(steps[..|steps| - 1]) + steps[|steps| - 1].taken
  }

  function Produced(steps: seq<Step>): (r: seq<byte>)
  {
    if steps == [] then [] else Produced(steps[..|steps| - 1]) + steps[|steps| - 1].out
  }

  function StateAfter(lib: Zlib, steps: seq<Step>): (r: seq<byte>)
  {
    if steps == [] then lib.init else steps[|steps| - 1].state
  }

  /** A call of the inflator after some others: with the state they left, the rest of the input, and the window. */
  ghost predicate NextCall(lib: Zlib, input: seq<byte>, steps: seq<Step>, r: Step)
  {
    && Taken(steps) <= |input| && (steps != [] ==> steps[|steps| - 1].status == HasMoreOutput)
    && exists dict :: Window(dict, Produced(steps)) &&
         r == lib.step(StateAfter(lib, steps), input[Taken(steps)..], dict, OffsetOf(Produced(steps)))
  }

  ghost predicate Calls(lib: Zlib, input: seq<byte>, steps: seq<Step>)
  {
    steps == [] ||
    (Calls(lib, input, steps[..|steps| - 1]) && NextCall(lib, input, steps[..|steps| - 1], steps[|steps| - 1]))
  }

  /** The loop's variables are what some calls leave. */
  ghost predicate After(lib: Zlib, input: seq<byte>, steps: seq<Step>, c: Cursor)
  {
    && Calls(lib, input, steps)
    && c.inOfs == Taken(steps) && Flatten(c.slices) == Produced(steps) && c.decomp == StateAfter(lib, steps)
  }

  lemma OneMoreCall(lib: Zlib, input: seq<byte>, steps: seq<Step>, c: Cursor, dict: seq<byte>, r: Step, next: Cursor)
    requires After(lib, input, steps, c) && c.inOfs <= |input|
    requires steps != [] ==> steps[|steps| - 1].status == HasMoreOutput
    requires Window(dict, Flatten(c.slices)) && c.dictOfs == OffsetOf(Flatten(c.slices))
    requires r == lib.step(c.decomp, input[c.inOfs..], dict, c.dictOfs)
    requires next.inOfs == c.inOfs + r.taken && next.decomp == r.state
    requires Flatten(next.slices) == Flatten(c.slices) + r.out
    ensures After(lib, input, steps + [r], next)
  {
    hide Flatten, Window, OffsetOf;
    assert (steps + [r])[..|steps|] == steps;
    assert NextCall(lib, input, steps, r);
  }

  /** One turn of the driver's loop. */
  method Turn(lib: Zlib, ghost z: Stream, input: seq<byte>, accept: seq<seq<byte>> -> bool, ghost full: bool,
              dict: array<byte>, c: Cursor) returns (finished: bool, result: int, next: Cursor, ghost r: Step)
    requires Running(lib, z, input, accept, full, dict[..], c) && (full ==> lib.Fills())
    modifies dict
    ensures next.inOfs <= |input|
    ensures r == old(lib.step(c.decomp, input[c.inOfs..], dict[..], c.dictOfs))
    ensures next.inOfs == c.inOfs + r.taken && next.decomp == r.state
    ensures Flatten(next.slices) == Flatten(c.slices) + r.out
    ensures finished <==> r.status != HasMoreOutput || !Accepted(accept, next.slices)
    ensures finished ==> Inflated(z, full, accept, result, next.slices)
    ensures !finished ==> Running(lib, z, input, accept, full, dict[..], next)
    ensures !finished ==> |Flatten(c.slices)| < |Flatten(next.slices)| <= |z.data|
  {
    hide Delivers, Window, Flatten, Sliced, Accepted, AcceptedBefore, OffsetOf;
    ghost var done := Flatten(c.slices);
    ghost var rest := z.data[|done|..];
    var s, slice;
    s, slice, done, rest := CallInflator(lib, c.decomp, input, c.inOfs, dict, c.dictOfs, z, done, rest);
    r := s;
    var slices, proceed := PutSlice(accept, c.slices, slice, Flatten(c.slices), full);
    next := Cursor(s.state, c.inOfs + s.taken, c.dictOfs, slices);
    finished, result := !proceed || s.status != HasMoreOutput, 0;
    if finished {
      result := if proceed && s.status == Done then 1 else 0;
      EndOfLoop(z, full, accept, result, slices, s.status);
      return;
    }
    var dictOfs := NextOffset(c.dictOfs, |slice|, Flatten(c.slices), slice);
    next := Cursor(s.state, c.inOfs + s.taken, dictOfs, slices);
    assert rest == z.data[|done|..];
  }

  /**
   * Inflate `input`, handing each produced slice to the callback. The callback is any function of the slices
   * handed over so far; `memory` says whether the dictionary could be allocated.
   */
  method DecompressMemToCallback(lib: Zlib, input: seq<byte>, accept: seq<seq<byte>> -> bool, memory: bool)
    returns (result: int, consumed: nat, slices: seq<seq<byte>>, ghost steps: seq<Step>)
    requires lib.Contract()
    ensures !memory ==> result == -1 && slices == [] && consumed == |input|
    ensures consumed <= |input|
    ensures memory ==>
      && Calls(lib, input, steps) && consumed == Taken(steps) && Flatten(slices) == Produced(steps)
      && steps != [] && (steps[|steps| - 1].status != HasMoreOutput || !Accepted(accept, slices))
    ensures memory ==> Inflated(Stream(lib.meaning(input), lib.ending(input)), lib.Fills(), accept, result, slices)
  {
    if !memory {
      return -1, |input|, [], [];
    }
    ghost var z, full := Stream(lib.meaning(input), lib.ending(input)), lib.Fills();
    var dict := new byte[WINDOW](_ => 0);
    var c, finished := Cursor(lib.init, 0, 0, []), false;
    steps := [];
    assert Flatten(c.slices) == [] && input[0..] == input && z.data[0..] == z.data;
    while true
      invariant dict.Length == WINDOW && Running(lib, z, input, accept, full, dict[..], c)
      invariant After(lib, input, steps, c) && (steps != [] ==> steps[|steps| - 1].status == HasMoreOutput)
      decreases |z.data| - |Flatten(c.slices)|
    {
      ghost var before, window, r := c, dict[..], lib.step(c.decomp, input[c.inOfs..], dict[..], c.dictOfs);
      finished, result, c, r := Turn(lib, z, input, accept, full, dict, c);
      OneMoreCall(lib, input, steps, before, window, r, c);
      steps := steps + [r];
      if finished {
        return result, c.inOfs, c.slices, steps;
      }
    }
  }

  /** An inflator for streams that are their own contents. */
  function StoredStep(s: seq<byte>, z: seq<byte>, dict: seq<byte>, at: nat): (r: Step)
  {
    var room := if at < WINDOW then WINDOW - at else 0;
    if |z| <= room then Step(Done, |z|, z, s) else Step(HasMoreOutput, room, z[..room], s)
  }

  const STORED := Zlib((d: seq<byte>) => d, (z: seq<byte>) => z, (z: seq<byte>) => Done, [], StoredStep)

  /** The assumptions made about the compression library can be met together. */
  lemma AssumptionsAreConsistent()
    ensures STORED.Contract() && STORED.Inverse() && STORED.Fills()
  {
    forall z: seq<byte> ensures Delivers(StoredStep, [], z, [], z, Done) {
      StoredDelivers(z, []);
    }
  }

  lemma {:induction false} StoredDelivers(z: seq<byte>, done: seq<byte>)
    ensures Delivers(StoredStep, [], z, done, z, Done)
    decreases |z|
  {
    var room := WINDOW - OffsetOf(done);
    if |z| > room {
      StoredDelivers(z[room..], done + z[..room]);
    }
  }
}
