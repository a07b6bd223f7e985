/**
 * The HTML template engine of components/generic_main/web_template.c as a machine over its tag stack: what each
 * call does to the stack and what it adds to the text, without the output buffer.
 */
module HtmlMachine {

  /** A tag on the stack. An open tag still lacks its '>'; a void tag is one that does not nest. */
  datatype Tag = Tag(name: string, open: bool, nesting: bool)

  /** The stack above the root, bottom first; all text emitted; how often the document was finished. */
  datatype State = State(stack: seq<Tag>, text: string, finished: nat)

  datatype Call =
    | BeginTag(name: string, nesting: bool)
    | Attr(name: string, value: string)
    | Text(value: string)
    | End

  const START := State([], "", 0)

  function Emit(st: State, s: string): (r: State)
  {
    st.(text := st.text + s)
  }

  function AttrOpening(name: string): (r: string)
    ensures |r| == |name| + 3
  {
    " " + name + "=\""
  }

  function AttrText(name: string, value: string): (r: string)
  {
    AttrOpening(name) + value + "\""
  }

  function EndTag(name: string): (r: string)
    ensures |r| == |name| + 3
  {
    "</" + name + ">"
  }

  predicate TopOpen(st: State)
  {
    st.stack != [] && st.stack[|st.stack| - 1].open
  }

  /** Complete the tag at the top: a nesting tag is closed and stays, a void tag leaves the stack. */
  function FinishCurrentTag(st: State): (r: State)
  {
    if !TopOpen(st) then st
    else
      var below, top := st.stack[..|st.stack| - 1], st.stack[|st.stack| - 1];
      Emit(st, ">").(stack := if top.nesting then below + [top.(open := false)] else below)
  }

  predicate CanEnd(st: State)
  {
    st.stack != [] && st.stack[|st.stack| - 1].nesting
  }

  /** The end of a call that emptied the stack also finishes the document. */
  function Step(st: State, call: Call): (r: State)
  {
    match call
    case BeginTag(name, nesting) =>
      var done := FinishCurrentTag(st);
      Emit(done, "<" + name).(stack := done.stack + [Tag(name, true, nesting)])
    case Attr(name, value) =>
      Emit(st, AttrText(name, value))
    case Text(value) =>
      Emit(FinishCurrentTag(st), value)
    case End =>
      var done := FinishCurrentTag(st);
      if !CanEnd(done) then done
      else
        var below, top := done.stack[..|done.stack| - 1], done.stack[|done.stack| - 1];
        Emit(done, EndTag(top.name)).(stack := below, finished := done.finished + if below == [] then 1 else 0)
  }

  function Run(st: State, calls: seq<Call>): (r: State)
  {
    if calls == [] then st else Step(Run(st, calls[..|calls| - 1]), calls[|calls| - 1])
  }

  /** Calls the engine does not complain about: an attribute needs an open tag, an end a tag to end. */
  predicate Legal(st: State, call: Call)
  {
    match call
    case Attr(_, _) => TopOpen(st)
    case End => CanEnd(FinishCurrentTag(st))
    case _ => true
  }

  ghost predicate LegalRun(st: State, calls: seq<Call>)
  {
    forall k :: 0 <= k < |calls| ==> Legal(Run(st, calls[..k]), calls[k])
  }

  // The invariant of the stack.

  /** Only the top tag can be open; every tag below it is a closed, nesting tag, and a void tag is open. */
  ghost predicate Sound(st: State)
  {
    && (forall k :: 0 <= k < |st.stack| - 1 ==> !st.stack[k].open && st.stack[k].nesting)
    && (st.stack != [] ==> var top := st.stack[|st.stack| - 1]; top.open || top.nesting)
  }

  /** Every call keeps the invariant; a void tag is gone after any call but an attribute. */
  lemma StepSound(st: State, call: Call)
    requires Sound(st)
    ensures Sound(Step(st, call)) && Sound(FinishCurrentTag(st)) && !TopOpen(FinishCurrentTag(st))
    ensures st.text <= Step(st, call).text
    ensures TopOpen(Step(st, call)) <==> call.BeginTag? || (call.Attr? && TopOpen(st))
  {
  }

  lemma {:induction false} RunSound(st: State, calls: seq<Call>)
    requires Sound(st)
    ensures Sound(Run(st, calls)) && st.text <= Run(st, calls).text
  {
    if calls != [] {
      RunSound(st, calls[..|calls| - 1]);
      StepSound(Run(st, calls[..|calls| - 1]), calls[|calls| - 1]);
    }
  }

  lemma {:induction false} RunAppend(st: State, a: seq<Call>, b: seq<Call>)
    ensures Run(st, a + b) == Run(Run(st, a), b)
    decreases |b|
  {
    if b == [] {
      assert a + b == a;
    } else {
      assert (a + b)[..|a + b| - 1] == a + b[..|b| - 1];
      RunAppend(st, a, b[..|b| - 1]);
    }
  }

  // Documents.

  datatype Attribute = Attribute(name: string, value: string)

  datatype Doc =
    | Element(name: string, attrs: seq<Attribute>, children: seq<Doc>)
    | Void(name: string, attrs: seq<Attribute>)
    | Words(value: string)

  function RenderAttrs(attrs: seq<Attribute>): (r: string)
  {
    if attrs == [] then ""
    else RenderAttrs(attrs[..|attrs| - 1]) + AttrText(attrs[|attrs| - 1].name, attrs[|attrs| - 1].value)
  }

  function RenderHead(name: string, attrs: seq<Attribute>): (r: string)
  {
    "<" + name + RenderAttrs(attrs)
  }

  /** The text of a document; void elements have no end tag. */
  function Render(doc: Doc): (r: string)
    decreases doc, 1
  {
    match doc
    case Element(name, attrs, children) => RenderHead(name, attrs) + ">" + RenderAll(children) + EndTag(name)
    case Void(name, attrs) => RenderHead(name, attrs) + ">"
    case Words(value) => value
  }

  function RenderAll(docs: seq<Doc>): (r: string)
    decreases docs, 0
  {
    if docs == [] then "" else RenderAll(docs[..|docs| - 1]) + Render(docs[|docs| - 1])
  }

  function AttrCalls(attrs: seq<Attribute>): (r: seq<Call>)
  {
    if attrs == [] then []
    else AttrCalls(attrs[..|attrs| - 1]) + [Attr(attrs[|attrs| - 1].name, attrs[|attrs| - 1].value)]
  }

  /** The calls that print a document, in tree order. */
  function Calls(doc: Doc): (r: seq<Call>)
    decreases doc, 1
  {
    match doc
    case Element(name, attrs, children) => [BeginTag(name, true)] + AttrCalls(attrs) + CallsAll(children) + [End]
    case Void(name, attrs) => [BeginTag(name, false)] + AttrCalls(attrs)
    case Words(value) => [Text(value)]
  }

  function CallsAll(docs: seq<Doc>): (r: seq<Call>)
    decreases docs, 0
  {
    if docs == [] then [] else CallsAll(docs[..|docs| - 1]) + Calls(docs[|docs| - 1])
  }

  /** How often a document is finished when these are printed on an empty stack. */
  function Finishes(docs: seq<Doc>): (r: nat)
  {
    if docs == [] then 0 else Finishes(docs[..|docs| - 1]) + if docs[|docs| - 1].Element? then 1 else 0
  }

  /** A machine that has printed more text, and finished documents if nothing encloses it. */
  function Advance(done: State, text: string, finishes: nat): (r: State)
  {
    State(done.stack, done.text + text, done.finished + if done.stack == [] then finishes else 0)
  }

  lemma AdvanceTwice(done: State, a: string, m: nat, b: string, n: nat)
    ensures Advance(Advance(done, a, m), b, n) == Advance(done, a + b, m + n)
  {
    assert done.text + a + b == done.text + (a + b);
  }

  lemma {:induction false} AttrsPrint(st: State, attrs: seq<Attribute>)
    ensures Run(st, AttrCalls(attrs)) == Emit(st, RenderAttrs(attrs))
  {
    hide AttrText;
    if attrs == [] {
      assert st.text + "" == st.text;
    } else {
      var before, last := attrs[..|attrs| - 1], attrs[|attrs| - 1];
      AttrsPrint(st, before);
      assert AttrCalls(attrs)[..|AttrCalls(attrs)| - 1] == AttrCalls(before);
      EmitTwice(st, RenderAttrs(before), AttrText(last.name, last.value));
    }
  }

  lemma EmitTwice(st: State, a: string, b: string)
    ensures Emit(Emit(st, a), b) == Emit(st, a + b)
  {
    assert st.text + a + b == st.text + (a + b);
  }

  lemma RunOne(st: State, call: Call)
    ensures Run(st, [call]) == Step(st, call)
  {
    assert [call][..0] == [];
    assert Run(st, []) == st;
  }

  /** The state just after a tag and its attributes. */
  lemma HeadPrints(st: State, name: string, nesting: bool, attrs: seq<Attribute>)
    ensures var done := FinishCurrentTag(st);
      Run(st, [BeginTag(name, nesting)] + AttrCalls(attrs))
        == Emit(done, RenderHead(name, attrs)).(stack := done.stack + [Tag(name, true, nesting)])
  {
    hide RenderAttrs, Run, FinishCurrentTag;
    RunOne(st, BeginTag(name, nesting));
    RunAppend(st, [BeginTag(name, nesting)], AttrCalls(attrs));
    AttrsPrint(Step(st, BeginTag(name, nesting)), attrs);
    EmitTwice(FinishCurrentTag(st), "<" + name, RenderAttrs(attrs));
  }

  /** Issuing a document's calls prints the document and leaves the stack as it was. */
  lemma {:induction false} TreePrints(st: State, doc: Doc)
    requires Sound(st)
    ensures FinishCurrentTag(Run(st, Calls(doc)))
         == Advance(FinishCurrentTag(st), Render(doc), if doc.Element? then 1 else 0)
    decreases doc, 1
  {
    var done := FinishCurrentTag(st);
    match doc {
      case Words(value) =>
        RunOne(st, Text(value));
      case Void(name, attrs) =>
        HeadPrints(st, name, false, attrs);
        assert (done.stack + [Tag(name, true, false)])[..|done.stack|] == done.stack;
        EmitTwice(done, RenderHead(name, attrs), ">");
      case Element(name, attrs, children) =>
        ElementPrints(st, name, attrs, children);
    }
  }

  lemma {:induction false} ElementPrints(st: State, name: string, attrs: seq<Attribute>, children: seq<Doc>)
    requires Sound(st)
    ensures FinishCurrentTag(Run(st, Calls(Element(name, attrs, children))))
         == Advance(FinishCurrentTag(st), Render(Element(name, attrs, children)), 1)
    decreases children, 1
  {
    hide AttrCalls, RenderHead, Run, EndTag;
    var done := FinishCurrentTag(st);
    var head := [BeginTag(name, true)] + AttrCalls(attrs);
    HeadPrints(st, name, true, attrs);
    var inside := Run(st, head);
    RunSound(st, head);
    ForestPrints(inside, children);
    RunAppend(st, head, CallsAll(children));
    RunAppend(st, head + CallsAll(children), [End]);
    var full := Run(inside, CallsAll(children));
    RunOne(full, End);
    EndPrints(done, name, RenderHead(name, attrs), RenderAll(children), inside, full);
    StepSound(st, End);
  }

  /** Closing a tag whose contents have been printed. */
  lemma EndPrints(done: State, name: string, head: string, contents: string, inside: State, full: State)
    requires inside == Emit(done, head).(stack := done.stack + [Tag(name, true, true)])
    requires FinishCurrentTag(full).stack == FinishCurrentTag(inside).stack
    requires FinishCurrentTag(full).text == FinishCurrentTag(inside).text + contents
    requires FinishCurrentTag(full).finished == FinishCurrentTag(inside).finished
    ensures Step(full, End) == Advance(done, head + ">" + contents + EndTag(name), 1)
  {
    hide EndTag;
    assert inside.stack[..|done.stack|] == done.stack;
    var closed := FinishCurrentTag(full);
    assert closed.stack[..|done.stack|] == done.stack;
    assert closed.text + EndTag(name) == done.text + (head + ">" + contents + EndTag(name));
  }

  lemma {:induction false} ForestPrints(st: State, docs: seq<Doc>)
    requires Sound(st)
    ensures FinishCurrentTag(Run(st, CallsAll(docs))) == Advance(FinishCurrentTag(st), RenderAll(docs), Finishes(docs))
    decreases docs, 0
  {
    var done := FinishCurrentTag(st);
    if docs == [] {
      assert done.text + "" == done.text;
    } else {
      hide FinishCurrentTag, Run, Render, Calls, Sound;
      var before, last := docs[..|docs| - 1], docs[|docs| - 1];
      ForestPrints(st, before);
      RunSound(st, CallsAll(before));
      TreePrints(Run(st, CallsAll(before)), last);
      RunAppend(st, CallsAll(before), Calls(last));
      AdvanceTwice(done, RenderAll(before), Finishes(before), Render(last), if last.Element? then 1 else 0);
    }
  }

  // Printing a document makes only legal calls.

  lemma LegalAppend(st: State, a: seq<Call>, b: seq<Call>)
    requires LegalRun(st, a) && LegalRun(Run(st, a), b)
    ensures LegalRun(st, a + b)
  {
    var all := a + b;
    forall k | 0 <= k < |all| ensures Legal(Run(st, all[..k]), all[k]) {
      if k < |a| {
        assert all[..k] == a[..k];
      } else {
        assert all[..k] == a + b[..k - |a|];
        RunAppend(st, a, b[..k - |a|]);
      }
    }
  }

  lemma LegalOne(st: State, call: Call)
    requires Legal(st, call)
    ensures LegalRun(st, [call])
  {
    assert [call][..0] == [];
    assert Run(st, []) == st;
  }

  lemma {:induction false} AttrsLegal(st: State, attrs: seq<Attribute>)
    requires TopOpen(st)
    ensures LegalRun(st, AttrCalls(attrs))
  {
    if attrs != [] {
      var before, last := attrs[..|attrs| - 1], attrs[|attrs| - 1];
      AttrsLegal(st, before);
      AttrsPrint(st, before);
      LegalOne(Run(st, AttrCalls(before)), Attr(last.name, last.value));
      LegalAppend(st, AttrCalls(before), [Attr(last.name, last.value)]);
    }
  }

  lemma {:induction false} TreeLegal(st: State, doc: Doc)
    requires Sound(st)
    ensures LegalRun(st, Calls(doc))
    decreases doc, 1
  {
    match doc {
      case Words(value) =>
        LegalOne(st, Text(value));
      case Void(name, attrs) =>
        HeadLegal(st, name, false, attrs);
      case Element(name, attrs, children) =>
        var head := [BeginTag(name, true)] + AttrCalls(attrs);
        HeadLegal(st, name, true, attrs);
        HeadPrints(st, name, true, attrs);
        RunSound(st, head);
        ForestLegal(Run(st, head), children);
        LegalAppend(st, head, CallsAll(children));
        ForestPrints(Run(st, head), children);
        RunAppend(st, head, CallsAll(children));
        LegalOne(Run(st, head + CallsAll(children)), End);
        LegalAppend(st, head + CallsAll(children), [End]);
    }
  }

  lemma HeadLegal(st: State, name: string, nesting: bool, attrs: seq<Attribute>)
    ensures LegalRun(st, [BeginTag(name, nesting)] + AttrCalls(attrs))
  {
    LegalOne(st, BeginTag(name, nesting));
    RunOne(st, BeginTag(name, nesting));
    AttrsLegal(Run(st, [BeginTag(name, nesting)]), attrs);
    LegalAppend(st, [BeginTag(name, nesting)], AttrCalls(attrs));
  }

  lemma {:induction false} ForestLegal(st: State, docs: seq<Doc>)
    requires Sound(st)
    ensures LegalRun(st, CallsAll(docs))
    decreases docs, 0
  {
    if docs != [] {
      var before, last := docs[..|docs| - 1], docs[|docs| - 1];
      ForestLegal(st, before);
      RunSound(st, CallsAll(before));
      TreeLegal(Run(st, CallsAll(before)), last);
      LegalAppend(st, CallsAll(before), Calls(last));
    }
  }
}
