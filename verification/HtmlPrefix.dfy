/** Runs of legal calls are exactly the beginnings of documents (components/generic_main/web_template.c). */
module HtmlPrefix {
  import opened HtmlMachine

  /** An element begun: what has been given for it so far. */
  datatype Frame = Frame(name: string, attrs: seq<Attribute>, open: bool, nesting: bool, children: seq<Doc>)

  /** A document under construction: the finished part and the elements begun, outermost first. */
  datatype Partial = Partial(docs: seq<Doc>, frames: seq<Frame>)

  const EMPTY := Partial([], [])

  /** The calls that give an element so far. */
  function FrameCalls(f: Frame): (r: seq<Call>)
  {
    [BeginTag(f.name, f.nesting)] + AttrCalls(f.attrs) + CallsAll(f.children)
  }

  function FramesCalls(frames: seq<Frame>): (r: seq<Call>)
  {
    if frames == [] then [] else FramesCalls(frames[..|frames| - 1]) + FrameCalls(frames[|frames| - 1])
  }

  function PartialCalls(p: Partial): (r: seq<Call>)
  {
    CallsAll(p.docs) + FramesCalls(p.frames)
  }

  function Below(p: Partial): (r: Partial)
    requires p.frames != []
  {
    p.(frames := p.frames[..|p.frames| - 1])
  }

  function Top(p: Partial): (r: Frame)
    requires p.frames != []
  {
    p.frames[|p.frames| - 1]
  }

  function Push(p: Partial, f: Frame): (r: Partial)
  {
    p.(frames := p.frames + [f])
  }

  /** A complete document goes to the innermost element begun. */
  function AddDoc(p: Partial, doc: Doc): (r: Partial)
  {
    if p.frames == [] then p.(docs := p.docs + [doc])
    else Push(Below(p), Top(p).(children := Top(p).children + [doc]))
  }

  function Complete(p: Partial): (r: Partial)
  {
    if p.frames == [] || !Top(p).open then p
    else if Top(p).nesting then Push(Below(p), Top(p).(open := false))
    else AddDoc(Below(p), Void(Top(p).name, Top(p).attrs))
  }

  function EndTop(p: Partial): (r: Partial)
    requires p.frames != []
  {
    AddDoc(Below(p), Element(Top(p).name, Top(p).attrs, Top(p).children))
  }

  /** What a call adds to the document. */
  function Grow(p: Partial, call: Call): (r: Partial)
  {
    match call
    case BeginTag(name, nesting) => Push(Complete(p), Frame(name, [], true, nesting, []))
    case Attr(name, value) =>
      if p.frames == [] then p else Push(Below(p), Top(p).(attrs := Top(p).attrs + [Attribute(name, value)]))
    case Text(value) => AddDoc(Complete(p), Words(value))
    case End => if Complete(p).frames == [] then Complete(p) else EndTop(Complete(p))
  }

  /** The partial document that some calls give. */
  function Grown(calls: seq<Call>): (r: Partial)
  {
    if calls == [] then EMPTY else Grow(Grown(calls[..|calls| - 1]), calls[|calls| - 1])
  }

  // Growing a document and adding to its calls are the same thing.

  lemma PushCalls(p: Partial, f: Frame)
    ensures PartialCalls(Push(p, f)) == PartialCalls(p) + FrameCalls(f)
  {
    hide FrameCalls, CallsAll;
    assert (p.frames + [f])[..|p.frames|] == p.frames;
  }

  lemma TopCalls(p: Partial)
    requires p.frames != []
    ensures PartialCalls(p) == PartialCalls(Below(p)) + FrameCalls(Top(p))
  {
    hide FrameCalls, PartialCalls;
    assert p == Push(Below(p), Top(p));
    PushCalls(Below(p), Top(p));
  }

  lemma CallsMore(docs: seq<Doc>, doc: Doc)
    ensures CallsAll(docs + [doc]) == CallsAll(docs) + Calls(doc)
  {
    assert (docs + [doc])[..|docs|] == docs;
  }

  lemma AddDocCalls(p: Partial, doc: Doc)
    ensures PartialCalls(AddDoc(p, doc)) == PartialCalls(p) + Calls(doc)
  {
    hide Calls, CallsAll, AttrCalls;
    if p.frames == [] {
      CallsMore(p.docs, doc);
    } else {
      var top := Top(p);
      CallsMore(top.children, doc);
      TopCalls(p);
      PushCalls(Below(p), top.(children := top.children + [doc]));
    }
  }

  lemma CompleteCalls(p: Partial)
    requires p.frames != [] && Top(p).open ==> Top(p).children == []
    ensures PartialCalls(Complete(p)) == PartialCalls(p)
  {
    hide PartialCalls, AttrCalls;
    if p.frames != [] && Top(p).open {
      var top := Top(p);
      TopCalls(p);
      assert FrameCalls(top) == [BeginTag(top.name, top.nesting)] + AttrCalls(top.attrs);
      if top.nesting {
        PushCalls(Below(p), top.(open := false));
      } else {
        AddDocCalls(Below(p), Void(top.name, top.attrs));
      }
    }
  }

  lemma EndCalls(p: Partial)
    requires p.frames != [] && Top(p).nesting
    ensures PartialCalls(EndTop(p)) == PartialCalls(p) + [End]
  {
    hide PartialCalls, AttrCalls, CallsAll;
    var top := Top(p);
    TopCalls(p);
    AddDocCalls(Below(p), Element(top.name, top.attrs, top.children));
  }

  lemma AttrCallsMore(p: Partial, name: string, value: string)
    requires p.frames != [] && Top(p).children == []
    ensures PartialCalls(Grow(p, Attr(name, value))) == PartialCalls(p) + [Attr(name, value)]
  {
    hide PartialCalls;
    var top := Top(p);
    var attrs := top.attrs + [Attribute(name, value)];
    assert attrs[..|top.attrs|] == top.attrs;
    TopCalls(p);
    PushCalls(Below(p), top.(attrs := attrs));
  }

  // The stack.

  function FrameTag(f: Frame): (r: Tag)
  {
    Tag(f.name, f.open, f.nesting)
  }

  /** A stack of tags is that of the elements begun; an open tag has no contents yet. */
  ghost predicate Shaped(stack: seq<Tag>, frames: seq<Frame>)
  {
    && |stack| == |frames|
    && forall k :: 0 <= k < |frames| ==>
         stack[k] == FrameTag(frames[k]) && (frames[k].open ==> frames[k].children == [])
  }

  lemma PushShaped(stack: seq<Tag>, frames: seq<Frame>, f: Frame)
    requires Shaped(stack, frames) && (f.open ==> f.children == [])
    ensures Shaped(stack + [FrameTag(f)], frames + [f])
  {
  }

  lemma BelowShaped(stack: seq<Tag>, frames: seq<Frame>)
    requires Shaped(stack, frames) && frames != []
    ensures Shaped(stack[..|stack| - 1], frames[..|frames| - 1])
    ensures stack[|stack| - 1] == FrameTag(frames[|frames| - 1])
    ensures frames[|frames| - 1].open ==> frames[|frames| - 1].children == []
    ensures stack == stack[..|stack| - 1] + [FrameTag(frames[|frames| - 1])]
  {
  }

  lemma AddDocShaped(stack: seq<Tag>, p: Partial, doc: Doc)
    requires Shaped(stack, p.frames) && (p.frames != [] ==> !Top(p).open)
    ensures Shaped(stack, AddDoc(p, doc).frames)
  {
    if p.frames != [] {
      BelowShaped(stack, p.frames);
      hide Shaped;
      PushShaped(stack[..|stack| - 1], Below(p).frames, Top(p).(children := Top(p).children + [doc]));
    }
  }

  /** All but the top tag are closed and nest. */
  lemma BelowTop(st: State, p: Partial)
    requires Sound(st) && Shaped(st.stack, p.frames) && |p.frames| > 1
    ensures !Top(Below(p)).open && Top(Below(p)).nesting
  {
    var k := |p.frames| - 2;
    assert st.stack[k] == FrameTag(p.frames[k]);
  }

  lemma CompleteShaped(st: State, p: Partial)
    requires Sound(st) && Shaped(st.stack, p.frames)
    ensures Shaped(FinishCurrentTag(st).stack, Complete(p).frames)
    ensures Complete(p).frames != [] ==> !Top(Complete(p)).open && Top(Complete(p)).nesting
  {
    if p.frames != [] {
      BelowShaped(st.stack, p.frames);
      if |p.frames| > 1 {
        BelowTop(st, p);
      }
      hide Shaped;
      if Top(p).open && Top(p).nesting {
        PushShaped(st.stack[..|st.stack| - 1], Below(p).frames, Top(p).(open := false));
      } else if Top(p).open {
        AddDocShaped(st.stack[..|st.stack| - 1], Below(p), Void(Top(p).name, Top(p).attrs));
      }
    } else {
      assert st.stack == [];
    }
  }

  /** The call does to the stack what it does to the document. */
  ghost predicate Grows(st: State, p: Partial, call: Call)
  {
    Shaped(Step(st, call).stack, Grow(p, call).frames) && PartialCalls(Grow(p, call)) == PartialCalls(p) + [call]
  }

  lemma TagGrows(st: State, p: Partial, name: string, nesting: bool)
    requires Shaped(FinishCurrentTag(st).stack, Complete(p).frames) && PartialCalls(Complete(p)) == PartialCalls(p)
    ensures Grows(st, p, BeginTag(name, nesting))
  {
    hide PartialCalls, Shaped, FinishCurrentTag, Complete;
    var f := Frame(name, [], true, nesting, []);
    assert FrameCalls(f) == [BeginTag(name, nesting)];
    PushCalls(Complete(p), f);
    PushShaped(FinishCurrentTag(st).stack, Complete(p).frames, f);
  }

  lemma TextGrows(st: State, p: Partial, value: string)
    requires Shaped(FinishCurrentTag(st).stack, Complete(p).frames) && PartialCalls(Complete(p)) == PartialCalls(p)
    requires Complete(p).frames != [] ==> !Top(Complete(p)).open
    ensures Grows(st, p, Text(value))
  {
    hide PartialCalls, Shaped, FinishCurrentTag, Complete, AddDoc;
    AddDocCalls(Complete(p), Words(value));
    AddDocShaped(FinishCurrentTag(st).stack, Complete(p), Words(value));
  }

  lemma AttrGrows(st: State, p: Partial, name: string, value: string)
    requires Shaped(st.stack, p.frames) && TopOpen(st)
    ensures Grows(st, p, Attr(name, value))
  {
    assert p.frames != [] by {
      assert |st.stack| == |p.frames|;
    }
    BelowShaped(st.stack, p.frames);
    hide PartialCalls, Shaped;
    AttrCallsMore(p, name, value);
    PushShaped(st.stack[..|st.stack| - 1], Below(p).frames,
               Top(p).(attrs := Top(p).attrs + [Attribute(name, value)]));
  }

  lemma EndGrows(st: State, p: Partial)
    requires Sound(st) && Shaped(FinishCurrentTag(st).stack, Complete(p).frames)
    requires PartialCalls(Complete(p)) == PartialCalls(p) && CanEnd(FinishCurrentTag(st))
    ensures Grows(st, p, End)
  {
    var done, whole := FinishCurrentTag(st), Complete(p);
    StepSound(st, End);
    assert whole.frames != [] by {
      assert |done.stack| == |whole.frames|;
    }
    BelowShaped(done.stack, whole.frames);
    if |whole.frames| > 1 {
      BelowTop(done, whole);
    }
    hide PartialCalls, Shaped, FinishCurrentTag, Complete, AddDoc, Sound;
    EndCalls(whole);
    AddDocShaped(done.stack[..|done.stack| - 1], Below(whole),
                 Element(Top(whole).name, Top(whole).attrs, Top(whole).children));
  }

  /** Every legal call grows the partial document the machine's stack is that of, and by exactly that call. */
  lemma GrowRepresents(st: State, p: Partial, call: Call)
    requires Sound(st) && Shaped(st.stack, p.frames) && Legal(st, call)
    ensures Shaped(Step(st, call).stack, Grow(p, call).frames)
    ensures PartialCalls(Grow(p, call)) == PartialCalls(p) + [call]
  {
    CompleteShaped(st, p);
    assert p.frames != [] && Top(p).open ==> Top(p).children == [];
    CompleteCalls(p);
    hide PartialCalls, Shaped, Step, FinishCurrentTag, Complete, Grow;
    match call {
      case BeginTag(name, nesting) => TagGrows(st, p, name, nesting);
      case Text(value) => TextGrows(st, p, value);
      case Attr(name, value) => AttrGrows(st, p, name, value);
      case End => EndGrows(st, p);
    }
  }

  lemma LegalFront(st: State, calls: seq<Call>)
    requires LegalRun(st, calls) && calls != []
    ensures LegalRun(st, calls[..|calls| - 1]) && Legal(Run(st, calls[..|calls| - 1]), calls[|calls| - 1])
  {
    hide Run, Legal;
    var before := calls[..|calls| - 1];
    forall k | 0 <= k < |before| ensures Legal(Run(st, before[..k]), before[k]) {
      assert before[..k] == calls[..k];
    }
    assert Legal(Run(st, calls[..|before|]), calls[|before|]);
  }

  /** After legal calls the document they give has their stack, and it is given by just those calls. */
  lemma {:induction false} RunRepresents(calls: seq<Call>)
    requires LegalRun(START, calls)
    ensures Sound(Run(START, calls)) && Shaped(Run(START, calls).stack, Grown(calls).frames)
    ensures PartialCalls(Grown(calls)) == calls
  {
    hide Sound, Shaped, Step, Grow, PartialCalls, Legal, LegalRun;
    if calls == [] {
      StartRepresents();
    } else {
      var before, last := calls[..|calls| - 1], calls[|calls| - 1];
      LegalFront(START, calls);
      RunRepresents(before);
      StepSound(Run(START, before), last);
      GrowRepresents(Run(START, before), Grown(before), last);
    }
  }

  lemma StartRepresents()
    ensures Sound(START) && Shaped(START.stack, EMPTY.frames) && PartialCalls(EMPTY) == []
    ensures PartialText(EMPTY) == ""
  {
  }

  // Ending what is begun.

  function Ends(n: nat): (r: seq<Call>)
    ensures |r| == n
  {
    seq(n, _ => End)
  }

  /** How many tags on the stack still need an end. */
  function Pending(st: State): (r: nat)
  {
    |FinishCurrentTag(st).stack|
  }

  /** One end more leaves one tag less. */
  lemma EndLowers(st: State)
    requires Sound(st) && Pending(st) > 0
    ensures Legal(st, End) && Pending(Step(st, End)) == Pending(st) - 1 && Sound(Step(st, End))
  {
    StepSound(st, End);
  }

  lemma EndsNext(calls: seq<Call>, n: nat)
    requires n > 0
    ensures calls + Ends(n) == calls + [End] + Ends(n - 1)
  {
    assert Ends(n) == [End] + Ends(n - 1);
  }

  /** Ending the tags of a stack is legal and empties it. */
  lemma {:induction false} EndsLegal(calls: seq<Call>)
    requires LegalRun(START, calls)
    ensures LegalRun(START, calls + Ends(Pending(Run(START, calls))))
    ensures Pending(Run(START, calls + Ends(Pending(Run(START, calls))))) == 0
    decreases Pending(Run(START, calls))
  {
    var st := Run(START, calls);
    RunSound(START, calls);
    if Pending(st) == 0 {
      assert calls + Ends(0) == calls;
    } else {
      EndLowers(st);
      hide LegalRun, Legal, Step, Pending, Sound, Run;
      LegalOne(st, End);
      RunOne(st, End);
      LegalAppend(START, calls, [End]);
      RunAppend(START, calls, [End]);
      EndsNext(calls, Pending(st));
      EndsLegal(calls + [End]);
    }
  }

  /** Legal calls that leave nothing to end are the calls of the documents they give. */
  lemma ClosedIsForest(calls: seq<Call>)
    requires LegalRun(START, calls) && Pending(Run(START, calls)) == 0
    ensures CallsAll(Complete(Grown(calls)).docs) == calls
  {
    RunRepresents(calls);
    var st, p := Run(START, calls), Grown(calls);
    CompleteShaped(st, p);
    assert |Complete(p).frames| == 0;
    assert p.frames != [] && Top(p).open ==> Top(p).children == [] by {
      if p.frames != [] {
        BelowShaped(st.stack, p.frames);
      }
    }
    hide Complete, Grown, Run, LegalRun, CallsAll, FrameCalls;
    CompleteCalls(p);
    assert PartialCalls(Complete(p)) == CallsAll(Complete(p).docs) + [];
  }

  lemma ForestPrinted(docs: seq<Doc>)
    ensures FinishCurrentTag(Run(START, CallsAll(docs))) == State([], RenderAll(docs), Finishes(docs))
  {
    hide Run, RenderAll, CallsAll, Finishes;
    ForestPrints(START, docs);
    assert FinishCurrentTag(START) == START;
    assert "" + RenderAll(docs) == RenderAll(docs);
  }

  lemma RunGrows(st: State, more: seq<Call>)
    requires Sound(st)
    ensures st.text <= FinishCurrentTag(Run(st, more)).text
  {
    RunSound(st, more);
    hide Run;
  }

  /**
   * After any legal calls, ending the tags still on the stack completes a sequence of documents: calls and ends
   * together are the calls of those documents in tree order, their rendering is what is printed then, and what
   * was printed before is the beginning of it.
   */
  lemma PrefixOfForest(calls: seq<Call>) returns (docs: seq<Doc>)
    requires LegalRun(START, calls)
    ensures calls + Ends(Pending(Run(START, calls))) == CallsAll(docs)
    ensures FinishCurrentTag(Run(START, CallsAll(docs))) == State([], RenderAll(docs), Finishes(docs))
    ensures Run(START, calls).text <= RenderAll(docs)
  {
    EndsLegal(calls);
    RunSound(START, calls);
    hide *;
    var ends := Ends(Pending(Run(START, calls)));
    ClosedIsForest(calls + ends);
    docs := Complete(Grown(calls + ends)).docs;
    ForestPrinted(docs);
    RunAppend(START, calls, ends);
    RunGrows(Run(START, calls), ends);
  }

  lemma LegalPrefix(st: State, a: seq<Call>, b: seq<Call>)
    requires LegalRun(st, a + b)
    ensures LegalRun(st, a)
  {
    hide Run, Legal;
    forall k | 0 <= k < |a| ensures Legal(Run(st, a[..k]), a[k]) {
      assert (a + b)[..k] == a[..k];
      assert Legal(Run(st, (a + b)[..k]), (a + b)[k]);
    }
  }

  /** Calls are legal exactly when some ends after them make them the calls of some documents. */
  lemma LegalIsPrefix(calls: seq<Call>)
    ensures LegalRun(START, calls) <==> exists n: nat, docs :: calls + Ends(n) == CallsAll(docs)
  {
    hide *;
    if LegalRun(START, calls) {
      var docs := PrefixOfForest(calls);
      assert calls + Ends(Pending(Run(START, calls))) == CallsAll(docs);
    }
    if exists n: nat, docs :: calls + Ends(n) == CallsAll(docs) {
      var n: nat, docs :| calls + Ends(n) == CallsAll(docs);
      StartRepresents();
      ForestLegal(START, docs);
      LegalPrefix(START, calls, Ends(n));
    }
  }

  // What is printed of a document under construction.

  function FrameText(f: Frame): (r: string)
  {
    if f.open then RenderHead(f.name, f.attrs) else RenderHead(f.name, f.attrs) + ">" + RenderAll(f.children)
  }

  function FramesText(frames: seq<Frame>): (r: string)
  {
    if frames == [] then "" else FramesText(frames[..|frames| - 1]) + FrameText(frames[|frames| - 1])
  }

  function PartialText(p: Partial): (r: string)
  {
    RenderAll(p.docs) + FramesText(p.frames)
  }

  lemma PushText(p: Partial, f: Frame)
    ensures PartialText(Push(p, f)) == PartialText(p) + FrameText(f)
  {
    hide FrameText, RenderAll;
    assert (p.frames + [f])[..|p.frames|] == p.frames;
    Concatenate(RenderAll(p.docs), FramesText(p.frames), FrameText(f));
  }

  lemma Concatenate(a: string, b: string, c: string)
    ensures (a + b) + c == a + (b + c)
  {
  }

  lemma TopText(p: Partial)
    requires p.frames != []
    ensures PartialText(p) == PartialText(Below(p)) + FrameText(Top(p))
  {
    hide FrameText, PartialText;
    assert p == Push(Below(p), Top(p));
    PushText(Below(p), Top(p));
  }

  lemma RenderMore(docs: seq<Doc>, doc: Doc)
    ensures RenderAll(docs + [doc]) == RenderAll(docs) + Render(doc)
  {
    assert (docs + [doc])[..|docs|] == docs;
  }

  lemma FrameMore(f: Frame, doc: Doc)
    requires !f.open
    ensures FrameText(f.(children := f.children + [doc])) == FrameText(f) + Render(doc)
  {
    hide RenderHead, RenderAll, Render;
    RenderMore(f.children, doc);
    Concatenate(RenderHead(f.name, f.attrs) + ">", RenderAll(f.children), Render(doc));
  }

  lemma AddDocText(p: Partial, doc: Doc)
    requires p.frames != [] ==> !Top(p).open
    ensures PartialText(AddDoc(p, doc)) == PartialText(p) + Render(doc)
  {
    if p.frames == [] {
      hide RenderAll, Render;
      RenderMore(p.docs, doc);
      assert FramesText([]) == "";
    } else {
      hide FrameText, PartialText, Render;
      FrameMore(Top(p), doc);
      TopText(p);
      PushText(Below(p), Top(p).(children := Top(p).children + [doc]));
      Concatenate(PartialText(Below(p)), FrameText(Top(p)), Render(doc));
    }
  }

  lemma CompleteText(p: Partial)
    requires p.frames != [] && Top(p).open ==> Top(p).children == []
    requires |p.frames| > 1 ==> !Top(Below(p)).open
    ensures PartialText(Complete(p)) == PartialText(p) + if p.frames != [] && Top(p).open then ">" else ""
  {
    hide PartialText, RenderHead;
    if p.frames != [] && Top(p).open {
      var top := Top(p);
      TopText(p);
      Concatenate(PartialText(Below(p)), RenderHead(top.name, top.attrs), ">");
      if top.nesting {
        PushText(Below(p), top.(open := false));
        assert RenderAll([]) == "";
      } else {
        AddDocText(Below(p), Void(top.name, top.attrs));
      }
    }
  }

  lemma AttributeText(p: Partial, name: string, value: string)
    requires p.frames != [] && Top(p).open
    ensures PartialText(Grow(p, Attr(name, value))) == PartialText(p) + AttrText(name, value)
  {
    hide PartialText, AttrText;
    var top := Top(p);
    var attrs := top.attrs + [Attribute(name, value)];
    assert attrs[..|top.attrs|] == top.attrs;
    TopText(p);
    PushText(Below(p), top.(attrs := attrs));
    Concatenate("<" + top.name, RenderAttrs(top.attrs), AttrText(name, value));
    Concatenate(PartialText(Below(p)), FrameText(top), AttrText(name, value));
  }

  lemma EndText(p: Partial)
    requires p.frames != [] && !Top(p).open
    requires |p.frames| > 1 ==> !Top(Below(p)).open
    ensures PartialText(EndTop(p)) == PartialText(p) + EndTag(Top(p).name)
  {
    hide PartialText, RenderHead, RenderAll, EndTag;
    var top := Top(p);
    TopText(p);
    AddDocText(Below(p), Element(top.name, top.attrs, top.children));
    Concatenate(PartialText(Below(p)), FrameText(top), EndTag(top.name));
  }

  lemma TagText(p: Partial, name: string, nesting: bool)
    ensures PartialText(Push(p, Frame(name, [], true, nesting, []))) == PartialText(p) + ("<" + name)
  {
    hide PartialText;
    PushText(p, Frame(name, [], true, nesting, []));
    assert RenderHead(name, []) == "<" + name;
  }

  /** What the top of a stack says of the document. */
  lemma TopShaped(st: State, p: Partial)
    requires Sound(st) && Shaped(st.stack, p.frames)
    ensures TopOpen(st) <==> p.frames != [] && Top(p).open
    ensures TopOpen(st) ==> Top(p).children == []
    ensures st.stack != [] <==> p.frames != []
    ensures p.frames != [] ==> st.stack[|st.stack| - 1] == FrameTag(Top(p))
    ensures |p.frames| > 1 ==> !Top(Below(p)).open
  {
    assert |st.stack| == |p.frames|;
    if p.frames != [] {
      BelowShaped(st.stack, p.frames);
    }
    if |p.frames| > 1 {
      BelowTop(st, p);
    }
  }

  /** Completing the top tag prints what completing the document does, and leaves no open tag. */
  lemma CompletePrints(st: State, p: Partial)
    requires Sound(st) && Shaped(st.stack, p.frames) && st.text == PartialText(p)
    ensures var done, whole := FinishCurrentTag(st), Complete(p);
      && done.text == PartialText(whole)
      && (whole.frames != [] ==> !Top(whole).open) && (|whole.frames| > 1 ==> !Top(Below(whole)).open)
      && (CanEnd(done) ==> whole.frames != [] && Top(whole).name == done.stack[|done.stack| - 1].name)
  {
    StepSound(st, End);
    CompleteShaped(st, p);
    TopShaped(st, p);
    TopShaped(FinishCurrentTag(st), Complete(p));
    hide PartialText, Shaped, Sound, Complete, Step;
    CompleteText(p);
    assert st.text + "" == st.text;
  }

  /** What a legal call adds to the text is what it adds to the document's. */
  lemma GrowPrints(st: State, p: Partial, call: Call)
    requires Sound(st) && Shaped(st.stack, p.frames) && Legal(st, call) && st.text == PartialText(p)
    ensures Step(st, call).text == PartialText(Grow(p, call))
  {
    TopShaped(st, p);
    CompletePrints(st, p);
    var whole := Complete(p);
    hide PartialText, Shaped, Complete, EndTop, AddDoc, Sound, AttrText, EndTag, Render, Push, FinishCurrentTag, Top;
    match call {
      case BeginTag(name, nesting) =>
        TagText(whole, name, nesting);
      case Text(value) =>
        AddDocText(whole, Words(value));
        WordsText(value);
      case Attr(name, value) =>
        AttributeText(p, name, value);
        assert Grow(p, call) == Grow(p, Attr(name, value));
      case End =>
        EndText(whole);
    }
  }

  lemma WordsText(value: string)
    ensures Render(Words(value)) == value
  {
  }

  /** After legal calls, what was printed is exactly the text of the document they give. */
  lemma {:induction false} RunPrints(calls: seq<Call>)
    requires LegalRun(START, calls)
    ensures Run(START, calls).text == PartialText(Grown(calls))
  {
    hide Sound, Shaped, Step, Grow, PartialText, Legal, LegalRun;
    if calls == [] {
      StartRepresents();
    } else {
      var before, last := calls[..|calls| - 1], calls[|calls| - 1];
      LegalFront(START, calls);
      RunRepresents(before);
      RunPrints(before);
      GrowPrints(Run(START, before), Grown(before), last);
    }
  }
}
