/**
 * Which pieces of text the template engine's calls emit, and which of them the self-flushing buffer cuts off
 * (components/generic_main/web_template.c). The buffer is sent when it is more than half full.
 */
module HtmlBuffer {
  import opened Bytes
  import opened HtmlMachine

  const BUFFER_SIZE: nat := 2048
  const LONGEST_PIECE: nat := 1023

  /** The buffer's index after a piece. */
  function Fill(index: nat, piece: string): (r: nat)
    ensures r <= BUFFER_SIZE / 2
  {
    if index + |piece| > BUFFER_SIZE / 2 then 0 else index + |piece|
  }

  function FillAll(index: nat, pieces: seq<string>): (r: nat)
    decreases |pieces|
  {
    if pieces == [] then index else FillAll(Fill(index, pieces[0]), pieces[1..])
  }

  /** How many of the pieces do not fit, with their terminator, into what the buffer has left. */
  function Cuts(index: nat, pieces: seq<string>): (r: nat)
    decreases |pieces|
  {
    if pieces == [] then 0
    else (if index + |pieces[0]| < BUFFER_SIZE then 0 else 1) + Cuts(Fill(index, pieces[0]), pieces[1..])
  }

  function CompletionPieces(st: State): (r: seq<string>)
  {
    if TopOpen(st) then [">"] else []
  }

  /** What a call emits, piece by piece. */
  function Pieces(st: State, call: Call): (r: seq<string>)
  {
    match call
    case BeginTag(name, _) => CompletionPieces(st) + ["<" + name]
    case Attr(name, value) => [AttrOpening(name), value, "\""]
    case Text(value) => CompletionPieces(st) + [value]
    case End =>
      var done := FinishCurrentTag(st);
      if CanEnd(done) then CompletionPieces(st) + [EndTag(done.stack[|done.stack| - 1].name)] else CompletionPieces(st)
  }

  /** A call adds exactly its pieces to the text. */
  lemma PiecesAreText(st: State, call: Call)
    ensures Step(st, call).text == st.text + Flatten(Pieces(st, call))
  {
    hide Flatten, EndTag, AttrOpening;
    assert st.text + "" == st.text;
    match call {
      case BeginTag(name, _) => OneOrTwo(st, "<" + name);
      case Text(value) => OneOrTwo(st, value);
      case Attr(name, value) =>
        FlattenThree(AttrOpening(name), value, "\"");
      case End =>
        var done := FinishCurrentTag(st);
        OneOrTwo(st, if CanEnd(done) then EndTag(done.stack[|done.stack| - 1].name) else "");
        JustCompletion(st);
    }
  }

  lemma FlattenThree(a: string, b: string, c: string)
    ensures Flatten([a, b, c]) == a + b + c
  {
    assert [a, b, c][..2] == [a, b] && [a, b][..1] == [a];
    FlattenOne(a);
  }

  lemma JustCompletion(st: State)
    ensures FinishCurrentTag(st).text == st.text + Flatten(CompletionPieces(st))
  {
    FlattenOne(">");
    assert st.text + "" == st.text;
  }

  lemma OneOrTwo(st: State, piece: string)
    ensures FinishCurrentTag(st).text + piece == st.text + Flatten(CompletionPieces(st) + [piece])
  {
    JustCompletion(st);
    FlattenAppend(CompletionPieces(st), [piece]);
    FlattenOne(piece);
    Associative(st.text, Flatten(CompletionPieces(st)), piece);
  }

  /** The index after a call; finishing the document empties the buffer. */
  function IndexAfter(st: State, index: nat, call: Call): (r: nat)
  {
    if Step(st, call).finished > st.finished then 0 else FillAll(index, Pieces(st, call))
  }

  function RunIndex(st: State, index: nat, calls: seq<Call>): (r: nat)
  {
    if calls == [] then index
    else
      var before := calls[..|calls| - 1];
      IndexAfter(Run(st, before), RunIndex(st, index, before), calls[|calls| - 1])
  }

  /** How many pieces of a run of calls are cut off. */
  function RunCuts(st: State, index: nat, calls: seq<Call>): (r: nat)
  {
    if calls == [] then 0
    else
      var before, last := calls[..|calls| - 1], calls[|calls| - 1];
      RunCuts(st, index, before) + Cuts(RunIndex(st, index, before), Pieces(Run(st, before), last))
  }

  // Short pieces.

  /**
   * When two texts are cut off: the buffer takes less than 2048 characters, and is emptied once it has more than
   * 1024.
   */
  lemma TwoTexts(a: string, b: string)
    ensures RunCuts(START, 0, [Text(a), Text(b)]) == 0 <==>
      |a| < 2048 && |b| < 2048 && (|a| <= 1024 ==> |a| + |b| < 2048)
  {
    var calls := [Text(a), Text(b)];
    assert calls[..1] == [Text(a)] && calls[..1][..0] == [];
    var st := Step(START, Text(a));
    assert Run(START, [Text(a)]) == st by {
      RunOne(START, Text(a));
    }
    assert Pieces(START, Text(a)) == [a] && Pieces(st, Text(b)) == [b];
    CutsOne(0, a);
    CutsOne(Fill(0, a), b);
    hide Cuts, FillAll;
    assert RunIndex(START, 0, [Text(a)]) == Fill(0, a);
    assert RunCuts(START, 0, [Text(a)]) == Cuts(0, [a]);
  }

  /** Pieces of a length are never cut off exactly when that is at most 1023. */
  lemma LongestPiece(n: nat)
    ensures (forall index: nat, piece: string ::
               index <= 1024 && |piece| == n ==> Cuts(index, [piece]) == 0)
       <==> n <= 1023
  {
    forall index: nat, piece: string | index <= 1024 && |piece| == n
      ensures Cuts(index, [piece]) == 0 <==> index + n < 2048
    {
      CutsOne(index, piece);
    }
    var longest: string := seq(n, _ => 'x');
    assert |longest| == n;
    CutsOne(1024, longest);
  }

  lemma CutsOne(index: nat, piece: string)
    ensures Cuts(index, [piece]) == (if index + |piece| < BUFFER_SIZE then 0 else 1)
    ensures FillAll(index, [piece]) == Fill(index, piece)
    ensures Cuts(index, []) == 0 && FillAll(index, []) == index
  {
    assert [piece][1..] == [];
  }

  lemma {:induction false} CutsAppend(index: nat, a: seq<string>, b: seq<string>)
    ensures FillAll(index, a + b) == FillAll(FillAll(index, a), b)
    ensures Cuts(index, a + b) == Cuts(index, a) + Cuts(FillAll(index, a), b)
    decreases |a|
  {
    if a == [] {
      assert a + b == b;
    } else {
      assert (a + b)[1..] == a[1..] + b;
      CutsAppend(Fill(index, a[0]), a[1..], b);
    }
  }

  /** A text longer than the buffer is cut off wherever it comes. */
  lemma LongTextIsCut(st: State, index: nat, before: seq<Call>, value: string, after: seq<Call>)
    requires |value| >= 2048
    ensures RunCuts(st, index, before + [Text(value)] + after) > 0
    decreases |after|
  {
    hide Cuts, Step, CompletionPieces, IndexAfter;
    var all := before + [Text(value)] + after;
    if after == [] {
      assert all[..|before|] == before && all[|before|] == Text(value);
      LongPieceIsCut(RunIndex(st, index, before), CompletionPieces(Run(st, before)), value);
    } else {
      assert all[..|all| - 1] == before + [Text(value)] + after[..|after| - 1];
      LongTextIsCut(st, index, before, value, after[..|after| - 1]);
    }
  }

  lemma LongPieceIsCut(index: nat, pieces: seq<string>, piece: string)
    requires |piece| >= BUFFER_SIZE
    ensures Cuts(index, pieces + [piece]) > 0
  {
    CutsAppend(index, pieces, [piece]);
    CutsOne(FillAll(index, pieces), piece);
  }

  ghost predicate Short(pieces: seq<string>)
  {
    forall k :: 0 <= k < |pieces| ==> |pieces[k]| <= LONGEST_PIECE
  }

  lemma {:induction false} ShortFits(index: nat, pieces: seq<string>)
    requires index <= BUFFER_SIZE / 2 && Short(pieces)
    ensures Cuts(index, pieces) == 0 && FillAll(index, pieces) <= BUFFER_SIZE / 2
    decreases |pieces|
  {
    if pieces != [] {
      ShortFits(Fill(index, pieces[0]), pieces[1..]);
    }
  }

  /** Calls with names of at most 1020 characters and other text of at most 1023. */
  predicate Fits(call: Call)
  {
    match call
    case BeginTag(name, _) => |name| <= LONGEST_PIECE - 3
    case Attr(name, value) => |name| <= LONGEST_PIECE - 3 && |value| <= LONGEST_PIECE
    case Text(value) => |value| <= LONGEST_PIECE
    case End => true
  }

  ghost predicate NamesFit(tags: seq<Tag>)
  {
    forall k :: 0 <= k < |tags| ==> |tags[k].name| <= LONGEST_PIECE - 3
  }

  lemma FittingCallIsShort(st: State, call: Call)
    requires NamesFit(st.stack) && Fits(call)
    ensures NamesFit(Step(st, call).stack) && Short(Pieces(st, call))
  {
  }

  /** Nothing is cut off in a run of such calls. */
  lemma {:induction false} FittingRunIsWhole(st: State, index: nat, calls: seq<Call>)
    requires index <= BUFFER_SIZE / 2 && NamesFit(st.stack) && forall c :: c in calls ==> Fits(c)
    ensures RunCuts(st, index, calls) == 0 && RunIndex(st, index, calls) <= BUFFER_SIZE / 2
    ensures NamesFit(Run(st, calls).stack)
    decreases |calls|
  {
    if calls != [] {
      var before, last := calls[..|calls| - 1], calls[|calls| - 1];
      hide Short, Cuts, FillAll, Pieces, Step, Fits, NamesFit;
      FittingRunIsWhole(st, index, before);
      FittingCallIsShort(Run(st, before), last);
      ShortFits(RunIndex(st, index, before), Pieces(Run(st, before), last));
    }
  }
}
