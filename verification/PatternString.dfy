/** Replacing {name} in a template (components/generic_main/pattern_string.c). */
module PatternString {
  import opened Bytes

  const OPEN: byte := 123
  const CLOSE: byte := 125

  /** A call of the coroutine: the name asked for and the size of the output area. */
  datatype Question = Question(name: seq<byte>, size: nat)

  /**
   * The caller's coroutine. Its answer may depend on all it was asked before. It is given a name and the size of
   * the output area, which it may overwrite; None is its refusal, otherwise it leaves the whole area as returned.
   */
  datatype Coroutine = Coroutine(answer: (seq<Question>, seq<byte>, nat) -> Option<seq<byte>>, asked: seq<Question>)
  {
    function Reply(name: seq<byte>, size: nat): (r: Option<seq<byte>>)
    {
      answer(asked, name, size)
    }

    function After(name: seq<byte>, size: nat): (r: Coroutine)
      ensures r.answer == answer
    {
      this.(asked := asked + [Question(name, size)])
    }

    /** The coroutine stays inside the area and leaves a terminated string in it. */
    ghost predicate Terminates()
    {
      forall before, name, size ::
        answer(before, name, size).Some? ==>
          |answer(before, name, size).value| == size && NUL in answer(before, name, size).value
    }
  }

  /** Position of the first c. */
  function Index(s: seq<byte>, c: byte): (r: Option<nat>)
    ensures r.None? <==> c !in s
    ensures r.Some? ==> r.value < |s| && s[r.value] == c && c !in s[..r.value]
  {
    if s == [] then None
    else if s[0] == c then Some(0)
    else
      var rest := Index(s[1..], c);
      if rest.None? then None else Some(rest.value + 1)
  }

  lemma {:induction false} IndexOf(a: seq<byte>, c: byte, b: seq<byte>)
    requires c !in a
    ensures Index(a + [c] + b, c) == Some(|a|)
  {
    var s := a + [c] + b;
    if a == [] {
      assert s[0] == c;
    } else {
      assert s[0] == a[0] && s[0] in a;
      assert s[1..] == a[1..] + [c] + b;
      IndexOf(a[1..], c, b);
    }
  }

  /** The first replacement of a template: the text before it, its name, and what follows it. */
  datatype Split = Plain | Malformed | Replace(leading: seq<byte>, name: seq<byte>, rest: seq<byte>)

  function SplitFirst(t: seq<byte>): (r: Split)
    ensures r.Replace? ==> |r.leading| + |r.name| + |r.rest| + 2 == |t|
    ensures r.Plain? <==> OPEN !in t
  {
    var open := Index(t, OPEN);
    if open.None? then Plain
    else
      var after := t[open.value + 1..];
      var close := Index(after, CLOSE);
      if close.None? || close.value == 0 then Malformed
      else
        var name := after[..close.value];
        if OPEN in name then Malformed
        else Replace(t[..open.value], name, after[close.value + 1..])
  }

  /**
   * A replacement's text before it and its value, when `size` bytes are left. The name is put into the output area
   * before the coroutine is called and must fit there too.
   */
  function Placed(leading: seq<byte>, name: seq<byte>, c: Coroutine, size: nat): (r: Option<seq<byte>>)
    ensures r.Some? ==> |leading| <= |r.value| <= size
  {
    if |leading| + |name| >= size then None
    else
      var area := c.Reply(name, size - |leading|);
      if area.None? then None
      else
        var value := CString(area.value);
        if value.None? || |leading| + |value.value| > size then None else Some(leading + value.value)
  }

  /** The expansion of a template into a buffer with `size` bytes left, or None where the function fails. */
  function Expand(t: seq<byte>, c: Coroutine, size: nat): (r: Option<seq<byte>>)
    decreases |t|
  {
    match SplitFirst(t)
    case Malformed => None
    case Plain => if |t| >= size then None else Some(t)
    case Replace(leading, name, rest) =>
      match Placed(leading, name, c, size)
      case None => None
      case Some(text) =>
        match Expand(rest, c.After(name, size - |leading|), size - |text|)
        case None => None
        case Some(more) => Some(text + more)
  }

  /** The text behind the last replacement is what does not fit; in that case the buffer is left empty. */
  predicate LastTooLong(t: seq<byte>, c: Coroutine, size: nat)
    decreases |t|
  {
    match SplitFirst(t)
    case Malformed => false
    case Plain => |t| >= size
    case Replace(leading, name, rest) =>
      match Placed(leading, name, c, size)
      case None => false
      case Some(text) => LastTooLong(rest, c.After(name, size - |leading|), size - |text|)
  }

  lemma LastTooLongNext(t: seq<byte>, r: Split, c: Coroutine, size: nat)
    requires r == SplitFirst(t) && r.Replace? && Placed(r.leading, r.name, c, size).Some?
    ensures |r.leading| <= size
    ensures LastTooLong(t, c, size)
         == LastTooLong(r.rest, Next(r, c, size), size - |Placed(r.leading, r.name, c, size).value|)
    ensures LastTooLong(t, c, size) ==> Expand(t, c, size).None?
  {
    hide SplitFirst, Placed;
    if LastTooLong(t, c, size) {
      LastTooLongFails(t, c, size);
    }
  }

  lemma {:induction false} LastTooLongFails(t: seq<byte>, c: Coroutine, size: nat)
    requires LastTooLong(t, c, size)
    ensures Expand(t, c, size).None?
    decreases |t|
  {
    hide SplitFirst, Placed;
    var r := SplitFirst(t);
    if r.Replace? {
      LastTooLongFails(r.rest, Next(r, c, size), size - |Placed(r.leading, r.name, c, size).value|);
    }
  }

  /** The whole is a text that is done and what is left. */
  ghost predicate Extends(all: Option<seq<byte>>, done: seq<byte>, left: Option<seq<byte>>)
  {
    all == match left case None => None case Some(more) => Some(done + more)
  }

  /** The coroutine after the first replacement of a template. */
  function Next(r: Split, c: Coroutine, size: nat): (n: Coroutine)
    requires r.Replace? && |r.leading| <= size
    ensures n.answer == c.answer
  {
    c.After(r.name, size - |r.leading|)
  }

  lemma ExpandReplace(t: seq<byte>, r: Split, c: Coroutine, size: nat)
    requires r == SplitFirst(t) && r.Replace?
    ensures match Placed(r.leading, r.name, c, size)
      case None => Expand(t, c, size).None?
      case Some(text) => Extends(Expand(t, c, size), text, Expand(r.rest, Next(r, c, size), size - |text|))
  {
    hide SplitFirst, Placed;
  }

  lemma ExpandReplaced(t: seq<byte>, leading: seq<byte>, name: seq<byte>, rest: seq<byte>, c: Coroutine, size: nat,
                       text: seq<byte>, next: Coroutine)
    requires SplitFirst(t) == Replace(leading, name, rest) && Placed(leading, name, c, size) == Some(text)
    requires |leading| <= size && next == c.After(name, size - |leading|)
    ensures Extends(Expand(t, c, size), text, Expand(rest, next, size - |text|))
  {
    hide SplitFirst, Placed, Extends, Expand;
    ExpandReplace(t, Replace(leading, name, rest), c, size);
  }

  // Templates by their parts.

  /** Text without an opening brace, then a replacement. */
  datatype Part = Part(leading: seq<byte>, name: seq<byte>)

  predicate ProperPart(p: Part)
  {
    123 !in p.leading && p.name != [] && 123 !in p.name && 125 !in p.name
  }

  ghost predicate Proper(parts: seq<Part>, last: seq<byte>)
  {
    123 !in last && forall k :: 0 <= k < |parts| ==> ProperPart(parts[k])
  }

  function Print(parts: seq<Part>, last: seq<byte>): (r: seq<byte>)
  {
    if parts == [] then last
    else parts[0].leading + [123] + parts[0].name + [125] + Print(parts[1..], last)
  }

  /** A part at the front is what is split off. */
  lemma SplitPart(p: Part, rest: seq<byte>)
    requires ProperPart(p)
    ensures SplitFirst(p.leading + [OPEN] + p.name + [CLOSE] + rest) == Replace(p.leading, p.name, rest)
  {
    hide Index;
    var t, after := p.leading + [OPEN] + p.name + [CLOSE] + rest, p.name + [CLOSE] + rest;
    assert t == p.leading + [OPEN] + after;
    IndexOf(p.leading, OPEN, after);
    assert t[|p.leading| + 1..] == after;
    IndexOf(p.name, CLOSE, rest);
    assert t[..|p.leading|] == p.leading && after[..|p.name|] == p.name && after[|p.name| + 1..] == rest;
  }

  /** What is split off is a part at the front. */
  lemma SplitIsPart(t: seq<byte>)
    requires SplitFirst(t).Replace?
    ensures var r := SplitFirst(t);
      t == r.leading + [OPEN] + r.name + [CLOSE] + r.rest && ProperPart(Part(r.leading, r.name))
  {
    hide Index;
    var open := Index(t, OPEN).value;
    var after := t[open + 1..];
    var close := Index(after, CLOSE).value;
    Around(t, open);
    Around(after, close);
    Regroup(t[..open] + [OPEN], after[..close], [CLOSE], after[close + 1..]);
  }

  lemma Regroup<T>(a: seq<T>, b: seq<T>, c: seq<T>, d: seq<T>)
    ensures a + (b + c + d) == a + b + c + d
  {
  }

  lemma PartInFront(p: Part, parts: seq<Part>, last: seq<byte>)
    requires ProperPart(p) && Proper(parts, last)
    ensures Proper([p] + parts, last)
    ensures Print([p] + parts, last) == p.leading + [OPEN] + p.name + [CLOSE] + Print(parts, last)
  {
    hide ProperPart;
    assert ([p] + parts)[1..] == parts;
  }

  lemma Around(s: seq<byte>, i: nat)
    requires i < |s|
    ensures s == s[..i] + [s[i]] + s[i + 1..]
  {
  }

  /** Whatever expands is a template of proper parts. */
  lemma {:induction false} ExpandedIsProper(t: seq<byte>, c: Coroutine, size: nat)
    returns (parts: seq<Part>, last: seq<byte>)
    requires Expand(t, c, size).Some?
    ensures Proper(parts, last) && t == Print(parts, last)
    decreases |t|
  {
    hide SplitFirst, Placed, ProperPart;
    var split := SplitFirst(t);
    if split.Plain? {
      parts, last := [], t;
    } else {
      var text := Placed(split.leading, split.name, c, size).value;
      hide Print, Proper;
      SplitIsPart(t);
      var more;
      more, last := ExpandedIsProper(split.rest, Next(split, c, size), size - |text|);
      PartInFront(Part(split.leading, split.name), more, last);
      parts := [Part(split.leading, split.name)] + more;
    }
  }

  // What a template means when names have fixed values.

  type Environment = seq<byte> -> Option<seq<byte>>

  /** A coroutine that looks names up and refuses values that do not fit. */
  ghost predicate LooksUp(c: Coroutine, env: Environment)
  {
    forall before, name, size :: Answers(c, env, before, name, size)
  }

  ghost predicate Answers(c: Coroutine, env: Environment, before: seq<Question>, name: seq<byte>, size: nat)
  {
    var r := c.answer(before, name, size);
    && (r.Some? <==> env(name).Some? && |env(name).value| < size)
    && (r.Some? ==> CString(r.value) == env(name))
  }

  /** The parts with every name replaced by its value. */
  function Text(parts: seq<Part>, env: Environment): (r: Option<seq<byte>>)
  {
    if parts == [] then Some([])
    else
      match env(parts[0].name)
      case None => None
      case Some(value) =>
        match Text(parts[1..], env)
        case None => None
        case Some(more) => Some(parts[0].leading + value + more)
  }

  function Max(a: nat, b: nat): (r: nat)
  {
    if a < b then b else a
  }

  /** The k-th name and its value each fit behind the text that precedes them. */
  ghost predicate PartFits(parts: seq<Part>, env: Environment, size: nat, k: nat)
    requires k < |parts|
  {
    && Text(parts[..k], env).Some? && env(parts[k].name).Some?
    && |Text(parts[..k], env).value| + |parts[k].leading| + Max(|parts[k].name|, |env(parts[k].name).value|) < size
  }

  /** All names and values fit one after another, and so does the whole text with its terminator. */
  ghost predicate Fits(parts: seq<Part>, last: seq<byte>, env: Environment, size: nat)
  {
    && Text(parts, env).Some? && |Text(parts, env).value| + |last| < size
    && forall k :: 0 <= k < |parts| ==> PartFits(parts, env, size, k)
  }

  /** One more part in front of a text. */
  lemma TextInFront(p: Part, parts: seq<Part>, env: Environment)
    ensures Text([p] + parts, env) ==
      if env(p.name).Some? && Text(parts, env).Some? then Some(p.leading + env(p.name).value + Text(parts, env).value)
      else None
  {
    assert ([p] + parts)[1..] == parts;
  }

  lemma FirstFits(p: Part, parts: seq<Part>, env: Environment, size: nat)
    requires env(p.name).Some?
    ensures PartFits([p] + parts, env, size, 0) <==> |p.leading| + Max(|p.name|, |env(p.name).value|) < size
  {
    assert ([p] + parts)[..0] == [];
    assert Text([], env) == Some([]);
  }

  lemma LaterFits(p: Part, parts: seq<Part>, env: Environment, size: nat, k: nat)
    requires env(p.name).Some? && |p.leading| + |env(p.name).value| <= size && k < |parts|
    ensures PartFits([p] + parts, env, size, k + 1)
       <==> PartFits(parts, env, size - |p.leading| - |env(p.name).value|, k)
  {
    TextInFront(p, parts[..k], env);
    assert ([p] + parts)[..k + 1] == [p] + parts[..k];
    hide Max;
  }

  /** Whether the later parts fit behind the first one. */
  lemma FitsInFront(p: Part, parts: seq<Part>, last: seq<byte>, env: Environment, size: nat, left: nat)
    requires env(p.name).Some? && |p.leading| + Max(|p.name|, |env(p.name).value|) < size
    requires |p.leading| + |env(p.name).value| + left == size
    ensures Fits([p] + parts, last, env, size) <==> Fits(parts, last, env, left)
  {
    var all := [p] + parts;
    TextInFront(p, parts, env);
    FirstFits(p, parts, env, size);
    hide Text, Max, PartFits;
    forall k | 0 <= k < |parts| ensures PartFits(all, env, size, k + 1) <==> PartFits(parts, env, left, k) {
      LaterFits(p, parts, env, size, k);
    }
    if Fits(all, last, env, size) {
      forall k | 0 <= k < |parts| ensures PartFits(parts, env, left, k) {
        assert PartFits(all, env, size, k + 1);
      }
    }
    if Fits(parts, last, env, left) {
      forall k | 0 <= k < |all| ensures PartFits(all, env, size, k) {
        if k > 0 {
          assert PartFits(parts, env, left, k - 1);
        }
      }
    }
  }

  lemma FitsNot(p: Part, parts: seq<Part>, last: seq<byte>, env: Environment, size: nat)
    requires env(p.name).Some? ==> |p.leading| + Max(|p.name|, |env(p.name).value|) >= size
    ensures !Fits([p] + parts, last, env, size)
  {
    TextInFront(p, parts, env);
    if env(p.name).Some? {
      FirstFits(p, parts, env, size);
    }
  }

  lemma PlacedValue(p: Part, c: Coroutine, env: Environment, size: nat)
    requires LooksUp(c, env)
    ensures Placed(p.leading, p.name, c, size) ==
      if env(p.name).None? || |p.leading| + Max(|p.name|, |env(p.name).value|) >= size then None
      else Some(p.leading + env(p.name).value)
    ensures env(p.name).Some? ==> |env(p.name).value| <= Max(|p.name|, |env(p.name).value|)
  {
    hide CString;
    if |p.leading| + |p.name| < size {
      var area := c.Reply(p.name, size - |p.leading|);
      assert Answers(c, env, c.asked, p.name, size - |p.leading|);
    }
  }

  /** A part at the front that is unknown or does not fit. */
  lemma PartRefused(t: seq<byte>, p: Part, rest: seq<byte>, c: Coroutine, env: Environment, size: nat)
    requires SplitFirst(t) == Replace(p.leading, p.name, rest) && LooksUp(c, env)
    requires env(p.name).None? || |p.leading| + Max(|p.name|, |env(p.name).value|) >= size
    ensures Expand(t, c, size).None?
  {
    PlacedValue(p, c, env, size);
    hide SplitFirst, Placed, LooksUp, Max, Expand;
    ExpandReplace(t, Replace(p.leading, p.name, rest), c, size);
  }

  /** A part at the front that is replaced. */
  lemma PartExpands(t: seq<byte>, p: Part, rest: seq<byte>, c: Coroutine, env: Environment, size: nat,
                    value: seq<byte>, next: Coroutine, left: nat)
    requires SplitFirst(t) == Replace(p.leading, p.name, rest) && LooksUp(c, env) && env(p.name) == Some(value)
    requires |p.leading| + Max(|p.name|, |value|) < size
    requires |p.leading| <= size && next == c.After(p.name, size - |p.leading|)
    requires |p.leading| + |value| + left == size
    ensures Extends(Expand(t, c, size), p.leading + value, Expand(rest, next, left))
  {
    hide *;
    PlacedText(p, c, env, size, value);
    ExpandReplaced(t, p.leading, p.name, rest, c, size, p.leading + value, next);
    LengthLeft(p.leading, value, size, left);
  }

  lemma LengthLeft(a: seq<byte>, b: seq<byte>, size: nat, left: nat)
    requires |a| + |b| + left == size
    ensures size - |a + b| == left
  {
  }

  lemma PlacedText(p: Part, c: Coroutine, env: Environment, size: nat, value: seq<byte>)
    requires LooksUp(c, env) && env(p.name) == Some(value) && |p.leading| + Max(|p.name|, |value|) < size
    ensures Placed(p.leading, p.name, c, size) == Some(p.leading + value)
  {
    hide Placed, LooksUp, Max;
    PlacedValue(p, c, env, size);
  }

  /** A meaning of the rest is one of the whole. */
  lemma Completed(all: Option<seq<byte>>, front: seq<byte>, left: Option<seq<byte>>, fits: bool, text: seq<byte>,
                  last: seq<byte>)
    requires Extends(all, front, left) && left == if fits then Some(text + last) else None
    ensures all == if fits then Some(front + text + last) else None
  {
    Associative(front, text, last);
  }

  /** One step of the induction below. */
  lemma ExpandMeansStep(p: Part, rest: seq<Part>, last: seq<byte>, c: Coroutine, env: Environment, size: nat,
                        value: seq<byte>, next: Coroutine, left: nat)
    requires ProperPart(p) && Proper(rest, last) && LooksUp(c, env) && env(p.name) == Some(value)
    requires |p.leading| + Max(|p.name|, |value|) < size
    requires |p.leading| <= size && next == c.After(p.name, size - |p.leading|)
    requires |p.leading| + |value| + left == size
    requires Meant(rest, last, next, env, left)
    ensures Meant([p] + rest, last, c, env, size)
  {
    var all := [p] + rest;
    PartInFront(p, rest, last);
    hide ProperPart, Print, Expand, Text, LooksUp, Proper, Max, Fits, Extends;
    SplitPart(p, Print(rest, last));
    PartExpands(Print(all, last), p, Print(rest, last), c, env, size, value, next, left);
    FitsInFront(p, rest, last, env, size, left);
    TextInFront(p, rest, env);
    var fits := Fits(rest, last, env, left);
    var text := if fits then FitsText(rest, last, env, left) else [];
    Completed(Expand(Print(all, last), c, size), p.leading + value, Expand(Print(rest, last), next, left),
              fits, text, last);
    assert Fits(all, last, env, size) == fits;
    if fits {
      assert Text(all, env) == Some(p.leading + value + text);
      assert Expand(Print(all, last), c, size) == Some(p.leading + value + text + last);
    } else {
      assert Expand(Print(all, last), c, size) == None;
    }
  }

  ghost function FitsText(parts: seq<Part>, last: seq<byte>, env: Environment, size: nat): (r: seq<byte>)
    requires Fits(parts, last, env, size)
    ensures Text(parts, env) == Some(r)
  {
    Text(parts, env).value
  }

  /** Expansion yields the text with every name replaced, exactly when everything fits. */
  ghost predicate Meant(parts: seq<Part>, last: seq<byte>, c: Coroutine, env: Environment, size: nat)
  {
    Expand(Print(parts, last), c, size) ==
      if Fits(parts, last, env, size) then Some(Text(parts, env).value + last) else None
  }

  /**
   * What the function computes, when names stand for fixed values: the text with every name replaced, exactly
   * when all names are known and everything, names included, fits.
   */
  lemma {:induction false} ExpandMeans(parts: seq<Part>, last: seq<byte>, c: Coroutine, env: Environment, size: nat)
    requires Proper(parts, last) && LooksUp(c, env) && size > 0
    ensures Expand(Print(parts, last), c, size) ==
      if Fits(parts, last, env, size) then Some(Text(parts, env).value + last) else None
    decreases |parts|
  {
    if parts == [] {
      PlainMeans(last, c, env, size);
    } else {
      var p, rest := parts[0], parts[1..];
      assert ProperPart(p) && Proper(rest, last);
      PartInFront(p, rest, last);
      hide ProperPart, Print, Expand, Fits, Text, LooksUp, Proper, Max;
      assert parts == [p] + rest;
      var value := env(p.name);
      if value.None? || |p.leading| + Max(|p.name|, |value.value|) >= size {
        SplitPart(p, Print(rest, last));
        PartRefused(Print(parts, last), p, Print(rest, last), c, env, size);
        FitsNot(p, rest, last, env, size);
      } else {
        MaxBounds(|p.name|, |value.value|);
        var next, left := c.After(p.name, size - |p.leading|), size - |p.leading| - |value.value|;
        LooksUpLater(c, next, env);
        ExpandMeans(rest, last, next, env, left);
        ExpandMeansStep(p, rest, last, c, env, size, value.value, next, left);
      }
    }
  }

  lemma LooksUpLater(c: Coroutine, next: Coroutine, env: Environment)
    requires LooksUp(c, env) && next.answer == c.answer
    ensures LooksUp(next, env)
  {
    forall before, name, size ensures Answers(next, env, before, name, size) {
      assert Answers(c, env, before, name, size);
    }
  }

  lemma MaxBounds(a: nat, b: nat)
    ensures a <= Max(a, b) && b <= Max(a, b)
  {
  }

  lemma PlainMeans(last: seq<byte>, c: Coroutine, env: Environment, size: nat)
    requires OPEN !in last && size > 0
    ensures Print([], last) == last
    ensures Expand(last, c, size) == if Fits([], last, env, size) then Some(Text([], env).value + last) else None
  {
    hide SplitFirst;
    assert Text([], env) == Some([]);
    assert [] + last == last;
  }

  // The function itself.

  /** There is always room for the terminator. */
  lemma {:induction false} RoomForTerminator(t: seq<byte>, c: Coroutine, size: nat)
    requires Expand(t, c, size).Some?
    ensures |Expand(t, c, size).value| < size
    decreases |t|
  {
    hide SplitFirst, Placed;
    var split := SplitFirst(t);
    if split.Replace? {
      RoomForTerminator(split.rest, Next(split, c, size), size - |Placed(split.leading, split.name, c, size).value|);
    }
  }

  method Store(buffer: array<byte>, at: nat, bytes: seq<byte>)
    requires at + |bytes| <= buffer.Length
    modifies buffer
    ensures buffer[..at] == old(buffer[..at]) && buffer[at..at + |bytes|] == bytes
  {
    forall k | 0 <= k < |bytes| {
      buffer[at + k] := bytes[k];
    }
  }

  /** Copy the text before a replacement, then the name, which the coroutine overwrites with its value. */
  method PutReplacement(leading: seq<byte>, name: seq<byte>, c: Coroutine, buffer: array<byte>, out: nat)
    returns (next: Option<nat>)
    requires out < buffer.Length && c.Terminates()
    modifies buffer
    ensures next.Some? <==> Placed(leading, name, c, buffer.Length - out).Some?
    ensures next.Some? ==> out <= next.value < buffer.Length && buffer[next.value] == NUL
    ensures next.Some? ==>
      buffer[..next.value] == old(buffer[..out]) + Placed(leading, name, c, buffer.Length - out).value
  {
    hide CString;
    if |leading| > buffer.Length - out - 1 {
      return None;
    }
    Store(buffer, out, leading);
    var at := out + |leading|;
    var remaining := buffer.Length - at;
    ghost var kept := buffer[..at];
    assert kept == old(buffer[..out]) + leading;
    if |name| > remaining - 1 {
      return None;
    }
    Store(buffer, at, name + [NUL]);
    assert buffer[..at] == kept;
    var area := c.Reply(name, remaining);
    if area.None? {
      return None;
    }
    Store(buffer, at, area.value);
    assert buffer[at..] == buffer[at..at + |area.value|] == area.value;
    var size := |CString(buffer[at..]).value|;
    Behind(buffer[..], at, kept, area.value);
    Associative(old(buffer[..out]), leading, CString(area.value).value);
    next := Some(at + size);
  }

  lemma Behind(s: seq<byte>, at: nat, kept: seq<byte>, area: seq<byte>)
    requires at <= |s| && s[..at] == kept && s[at..] == area && CString(area).Some?
    ensures var end := at + |CString(area).value|; end < |s| && s[..end] == kept + CString(area).value && s[end] == NUL
  {
  }

  lemma ExtendsTwice(
    all: Option<seq<byte>>, done: seq<byte>, mid: Option<seq<byte>>, more: seq<byte>, left: Option<seq<byte>>)
    requires Extends(all, done, mid) && Extends(mid, more, left)
    ensures Extends(all, done + more, left)
  {
    if left.Some? {
      Associative(done, more, left.value);
    }
  }

  /** `start`, the rest of the template, completes what has been written. */
  ghost predicate Progress(
    t: seq<byte>, first: Coroutine, start: seq<byte>, c: Coroutine, size: nat, done: seq<byte>)
  {
    && |done| < size && IsCString(done) && IsCString(start)
    && Extends(Expand(t, first, size), done, Expand(start, c, size - |done|))
    && LastTooLong(t, first, size) == LastTooLong(start, c, size - |done|)
  }

  lemma ProgressFirst(t: seq<byte>, c: Coroutine, size: nat)
    requires size > 0 && IsCString(t)
    ensures Progress(t, c, t, c, size, [])
  {
    hide Expand, LastTooLong;
    var all := Expand(t, c, size);
    if all.Some? {
      assert [] + all.value == all.value;
    }
  }

  /** One replacement more. */
  lemma ProgressNext(t: seq<byte>, first: Coroutine, start: seq<byte>, c: Coroutine, size: nat,
                     done: seq<byte>, more: seq<byte>)
    requires Progress(t, first, start, c, size, done) && SplitFirst(start).Replace? && |done| + |more| < size
    requires Placed(SplitFirst(start).leading, SplitFirst(start).name, c, size - |done|) == Some(more)
    ensures Progress(t, first, SplitFirst(start).rest, Next(SplitFirst(start), c, size - |done|), size, done + more)
  {
    hide SplitFirst, Placed, Expand, Extends, CString, IsCString, Next, LastTooLong;
    var r := SplitFirst(start);
    LastTooLongNext(start, r, c, size - |done|);
    SplitIsCString(start);
    PlacedIsText(r.leading, r.name, c, size - |done|);
    Together(done, more);
    ExpandReplace(start, r, c, size - |done|);
    hide Progress;
    ProgressTogether(t, first, start, c, r.rest, Next(r, c, size - |done|), size, done, more);
  }

  lemma ProgressTogether(t: seq<byte>, first: Coroutine, start: seq<byte>, c: Coroutine,
                         rest: seq<byte>, next: Coroutine, size: nat, done: seq<byte>, more: seq<byte>)
    requires Progress(t, first, start, c, size, done) && |done| + |more| < size
    requires Extends(Expand(start, c, size - |done|), more, Expand(rest, next, size - |done| - |more|))
    requires IsCString(done + more) && IsCString(rest)
    requires LastTooLong(start, c, size - |done|) == LastTooLong(rest, next, size - |done| - |more|)
    ensures Progress(t, first, rest, next, size, done + more)
  {
    hide Expand, Extends, IsCString, LastTooLong;
    ExtendsTwice(Expand(t, first, size), done, Expand(start, c, size - |done|), more,
                 Expand(rest, next, size - |done| - |more|));
  }

  lemma SplitIsCString(t: seq<byte>)
    requires IsCString(t) && SplitFirst(t).Replace?
    ensures IsCString(SplitFirst(t).leading) && IsCString(SplitFirst(t).rest)
  {
    var open := Index(t, OPEN).value;
    var after := t[open + 1..];
    var close := Index(after, CLOSE).value;
    hide Index;
    SliceIsCString(t, 0, open);
    SliceIsCString(t, open + 1, |t|);
    SliceIsCString(after, close + 1, |after|);
  }

  lemma SliceIsCString(t: seq<byte>, a: nat, b: nat)
    requires IsCString(t) && a <= b <= |t|
    ensures IsCString(t[a..b])
    ensures b == |t| ==> t[a..b] == t[a..]
    ensures a == 0 ==> t[a..b] == t[..b]
  {
  }

  lemma PlacedIsText(leading: seq<byte>, name: seq<byte>, c: Coroutine, size: nat)
    requires IsCString(leading) && Placed(leading, name, c, size).Some?
    ensures IsCString(Placed(leading, name, c, size).value)
  {
  }

  lemma Together(a: seq<byte>, b: seq<byte>)
    requires IsCString(a) && IsCString(b)
    ensures IsCString(a + b)
  {
  }

  /** Where the loop can stop: on a malformed or refused replacement, and on text without any. */
  lemma ProgressLast(t: seq<byte>, first: Coroutine, start: seq<byte>, c: Coroutine, size: nat, done: seq<byte>)
    requires Progress(t, first, start, c, size, done)
    ensures SplitFirst(start).Malformed? ==> Expand(t, first, size).None? && !LastTooLong(t, first, size)
    ensures var r := SplitFirst(start);
      r.Replace? && Placed(r.leading, r.name, c, size - |done|).None? ==>
        Expand(t, first, size).None? && !LastTooLong(t, first, size)
    ensures SplitFirst(start).Plain? ==>
      Expand(t, first, size) == if |start| >= size - |done| then None else Some(done + start)
    ensures start == [] ==> Expand(t, first, size) == Some(done)
  {
    hide SplitFirst, Placed;
    assert start == [] ==> done + start == done;
  }

  /** A terminated text is the C string in the buffer. */
  lemma Terminated(s: seq<byte>, text: seq<byte>)
    requires |text| < |s| && s[..|text|] == text && s[|text|] == NUL && IsCString(text)
    ensures CString(s) == Some(text)
  {
    CStringOf(s, text);
  }

  /** Copy the text after the last replacement, with its terminator. */
  method PutLast(buffer: array<byte>, out: nat, last: seq<byte>)
    requires out + |last| < buffer.Length && IsCString(buffer[..out]) && IsCString(last)
    modifies buffer
    ensures CString(buffer[..]) == Some(old(buffer[..out]) + last)
  {
    hide CString;
    Store(buffer, out, last + [NUL]);
    assert buffer[out..out + |last|] == buffer[out..out + |last + [NUL]|][..|last|] == last;
    assert buffer[out + |last|] == buffer[out..out + |last + [NUL]|][|last|];
    assert buffer[..out + |last|] == buffer[..out] + buffer[out..out + |last|];
    Terminated(buffer[..], old(buffer[..out]) + last);
  }

  /** What the loop keeps: the buffer holds the text that is done, and the rest of the template completes it. */
  ghost predicate Kept(t: seq<byte>, first: Coroutine, start: seq<byte>, c: Coroutine, buffer: array<byte>, out: nat)
    reads buffer
  {
    && out < buffer.Length && Progress(t, first, start, c, buffer.Length, buffer[..out])
    && (start == [] ==> buffer[out] == NUL)
  }

  lemma KeptMeans(t: seq<byte>, first: Coroutine, start: seq<byte>, c: Coroutine, buffer: array<byte>, out: nat)
    ensures Kept(t, first, start, c, buffer, out) <==>
      && out < buffer.Length && Progress(t, first, start, c, buffer.Length, buffer[..out])
      && (start == [] ==> buffer[out] == NUL)
    ensures Kept(t, first, start, c, buffer, out) ==> IsCString(start) && IsCString(buffer[..out])
  {
  }

  /** One replacement in the buffer; `asked` is the coroutine after it. */
  method ReplaceNext(t: seq<byte>, ghost first: Coroutine, start: seq<byte>, c: Coroutine,
                     buffer: array<byte>, out: nat)
    returns (next: Option<nat>, asked: Coroutine)
    requires c.Terminates() && Kept(t, first, start, c, buffer, out) && SplitFirst(start).Replace?
    modifies buffer
    ensures next.Some? ==> Kept(t, first, SplitFirst(start).rest, asked, buffer, next.value) && asked.answer == c.answer
    ensures next.None? ==> Expand(t, first, buffer.Length).None? && !LastTooLong(t, first, buffer.Length)
  {
    ProgressLast(t, first, start, c, buffer.Length, buffer[..out]);
    hide Expand, SplitFirst, Placed, CString, IsCString, Progress, Next, LastTooLong;
    ghost var done := buffer[..out];
    var split := SplitFirst(start);
    asked := c;
    next := PutReplacement(split.leading, split.name, c, buffer, out);
    if next.Some? {
      asked := Next(split, c, buffer.Length - out);
      ghost var more := Placed(split.leading, split.name, c, buffer.Length - out).value;
      ProgressNext(t, first, start, c, buffer.Length, done, more);
    }
  }

  /**
   * Write the expansion of a template, with its terminator, into the buffer. The result is 0 exactly when there
   * is one that fits. `start` is the rest of the template, `c` the coroutine after what it was asked so far.
   */
  method GmPatternString(t: seq<byte>, coroutine: Coroutine, buffer: array<byte>) returns (status: int)
    requires IsCString(t) && coroutine.Terminates() && buffer.Length > 0
    modifies buffer
    ensures status == if Expand(t, coroutine, buffer.Length).Some? then 0 else -1
    ensures status == 0 ==> CString(buffer[..]) == Expand(t, coroutine, buffer.Length)
    ensures LastTooLong(t, coroutine, buffer.Length) ==> status == -1 && buffer[0] == 0
  {
    var start, c, out: nat := t, coroutine, 0;
    buffer[0] := NUL;
    ProgressFirst(t, c, buffer.Length);
    if LastTooLong(t, c, buffer.Length) {
      LastTooLongFails(t, c, buffer.Length);
    }
    assert buffer[..0] == [];
    hide Expand, SplitFirst, Placed, CString, IsCString, Progress, Kept, LastTooLong;
    KeptMeans(t, coroutine, start, c, buffer, out);
    while start != []
      invariant Kept(t, coroutine, start, c, buffer, out) && c.answer == coroutine.answer
      decreases |start|
    {
      KeptMeans(t, coroutine, start, c, buffer, out);
      ProgressLast(t, coroutine, start, c, buffer.Length, buffer[..out]);
      var split := SplitFirst(start);
      match split
      case Malformed =>
        return -1;
      case Plain =>
        if |start| > buffer.Length - out - 1 {
          buffer[0] := NUL;
          return -1;
        }
        PutLast(buffer, out, start);
        return 0;
      case Replace(_, _, rest) =>
        var next;
        next, c := ReplaceNext(t, coroutine, start, c, buffer, out);
        if next.None? {
          return -1;
        }
        start, out := rest, next.value;
    }
    KeptMeans(t, coroutine, start, c, buffer, out);
    ProgressLast(t, coroutine, start, c, buffer.Length, buffer[..out]);
    Terminated(buffer[..], buffer[..out]);
    status := 0;
  }
}
