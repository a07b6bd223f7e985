/** The template engine's mutable state: the linked tag stack and the self-flushing output buffer. */
module WebTemplate {
  import opened Bytes
  import opened HtmlBuffer
  import opened HtmlMachine
  import HtmlReader

  /** What the web server is told: send these characters, or the document is finished. */
  datatype Event = Send(text: string) | Finish

  function SentText(events: seq<Event>): (r: string)
  {
    if events == [] then ""
    else
      var before, last := SentText(events[..|events| - 1]), events[|events| - 1];
      if last.Send? then before + last.text else before
  }

  function FinishCount(events: seq<Event>): (r: nat)
  {
    if events == [] then 0
    else FinishCount(events[..|events| - 1]) + if events[|events| - 1].Finish? then 1 else 0
  }

  lemma OneMoreEvent(events: seq<Event>, e: Event)
    ensures SentText(events + [e]) == if e.Send? then SentText(events) + e.text else SentText(events)
    ensures FinishCount(events + [e]) == FinishCount(events) + if e.Finish? then 1 else 0
  {
    assert (events + [e])[..|events|] == events;
  }

  /** What is left of a piece of text formatted into `room` characters, terminator included. */
  function Kept(s: string, room: nat): (r: string)
    requires room > 0
  {
    if |s| < room then s else s[..room - 1] + ['\0']
  }

  /** The part of an index that lies in the buffer. */
  function Stored(index: nat): (r: nat)
  {
    if index <= BUFFER_SIZE then index else BUFFER_SIZE
  }

  /** The first n characters of some memory. */
  function First(memory: nat -> char, n: nat): (r: string)
    ensures |r| == n
  {
    seq(n, k requires 0 <= k < n => memory(k))
  }

  class TagNode {
    var name: string
    var parent: TagNode?
    var open: bool
    var nesting: bool
    ghost const depth: nat // distance from the root

    constructor (name: string, open: bool, nesting: bool, parent: TagNode?, ghost depth: nat)
      ensures this.name == name && this.open == open && this.nesting == nesting && this.parent == parent
      ensures this.depth == depth
    {
      this.name, this.open, this.nesting, this.parent, this.depth := name, open, nesting, parent, depth;
    }
  }

  /**
   * From c, parent links lead through the nodes, top last, down to the root, and the nodes say what the tags
   * say. Depth counts from the root, so that all nodes differ.
   */
  ghost predicate Linked(root: TagNode, c: TagNode, nodes: seq<TagNode>, tags: seq<Tag>)
    reads nodes
    ensures Linked(root, c, nodes, tags) ==> forall n :: n in nodes ==> 0 < n.depth <= |nodes|
    decreases |nodes|
  {
    && |nodes| == |tags|
    && if nodes == [] then c == root
       else
         var last := |nodes| - 1;
         && c == nodes[last] && c.depth == |nodes| && tags[last] == Tag(c.name, c.open, c.nesting)
         && c.parent != null && Linked(root, c.parent, nodes[..last], tags[..last])
  }

  lemma KeptMeans(s: string, index: nat)
    requires index < BUFFER_SIZE
    ensures var kept := Kept(s, BUFFER_SIZE - index);
      && index + |kept| == Stored(index + |s|)
      && if index + |s| < BUFFER_SIZE then kept == s else '\0' in kept
  {
    var kept := Kept(s, BUFFER_SIZE - index);
    assert index + |s| >= BUFFER_SIZE ==> kept[|kept| - 1] == '\0';
  }

  lemma KeptStored(memory: seq<char>, at: nat, s: string)
    requires at < |memory|
    ensures var room := |memory| - at;
      var n := if |s| < room then |s| else room - 1;
      at + n < |memory| && at + |Kept(s, room)| <= |memory|
      && Overwrite(memory, at, s[..n] + ['\0'])[..at + |Kept(s, room)|] == memory[..at] + Kept(s, room)
  {
  }

  class Template {
    const root: TagNode
    var current: TagNode
    const buffer: array<char>
    const behind: nat -> char // the memory after the buffer
    var bufIndex: nat
    var events: seq<Event>
    var complaints: nat

    // The machine this object implements: its stack, everything it was to emit, and how often the document was
    // finished. The nodes run from the root's child to the current one.
    ghost var nodes: seq<TagNode>
    ghost var tags: seq<Tag>
    ghost var meant: string
    ghost var finished: nat

    // What was emitted in fact, and how many pieces of it were cut off.
    ghost var text: string
    ghost var cuts: nat

    ghost function Nodes(): (r: set<TagNode>)
      reads this`nodes
    {
      set n | n in nodes
    }

    ghost function Machine(): (r: State)
      reads this`tags, this`meant, this`finished
    {
      State(tags, meant, finished)
    }

    /** What the index takes for the buffer's contents; beyond the buffer's end that is whatever lies there. */
    ghost function Waiting(): (r: string)
      reads this`bufIndex, buffer
      requires buffer.Length == BUFFER_SIZE
    {
      buffer[..Stored(bufIndex)] + First(behind, bufIndex - Stored(bufIndex))
    }

    /**
     * What was sent, followed by what waits in the buffer, is the text. It is what was meant until a piece is cut
     * off, which leaves a terminator in it.
     */
    ghost predicate Conserved()
      reads this`bufIndex, this`events, this`text, this`meant, this`cuts, this`finished, buffer
    {
      && buffer.Length == BUFFER_SIZE
      && text == SentText(events) + Waiting()
      && (if cuts == 0 then text == meant else '\0' in text)
      && finished == FinishCount(events)
    }

    /** Between calls the buffer is at most half full. */
    ghost predicate BufferValid()
      reads this`bufIndex, this`events, this`text, this`meant, this`cuts, this`finished, buffer
    {
      Conserved() && bufIndex <= BUFFER_SIZE / 2
    }

    ghost predicate StackValid()
      reads this`current, this`nodes, this`tags, root, nodes
    {
      && root.depth == 0 && root.parent == null && !root.open && !root.nesting
      && Linked(root, current, nodes, tags)
    }

    ghost predicate Valid()
      reads this, root, nodes, buffer
    {
      BufferValid() && StackValid()
    }

    constructor (behind: nat -> char)
      ensures Valid() && Machine() == START && events == [] && complaints == cuts == bufIndex == 0 && nodes == []
      ensures fresh(root) && fresh(buffer)
    {
      var bottom := new TagNode("", false, false, null, 0);
      root := bottom;
      this.behind := behind;
      buffer := new char[BUFFER_SIZE](_ => '\0');
      bufIndex, events, complaints := 0, [], 0;
      nodes, tags, meant, finished, text, cuts := [], [], "", 0, "", 0;
      current := bottom;
    }

    lemma NothingWaits()
      requires buffer.Length == BUFFER_SIZE && bufIndex == 0
      ensures Waiting() == "" && SentText(events) + Waiting() == SentText(events)
    {
    }

    /** Hand the buffer to the web server, with what lies behind it if the index is beyond its end. */
    method Flush()
      requires Conserved()
      modifies this`bufIndex, this`events
      ensures BufferValid() && bufIndex == 0
      ensures events == old(events) + [Send(old(Waiting()))]
    {
      var waiting := buffer[..Stored(bufIndex)] + First(behind, bufIndex - Stored(bufIndex));
      OneMoreEvent(events, Send(waiting));
      events := events + [Send(waiting)];
      bufIndex := 0;
      NothingWaits();
    }

    /** vsnprintf at the buffer's index: as much of the text as fits before a terminator. */
    method Format(s: string)
      requires buffer.Length == BUFFER_SIZE && bufIndex < BUFFER_SIZE
      modifies buffer
      ensures bufIndex + |Kept(s, BUFFER_SIZE - bufIndex)| <= BUFFER_SIZE
      ensures buffer[..bufIndex + |Kept(s, BUFFER_SIZE - bufIndex)|]
           == old(buffer[..bufIndex]) + Kept(s, BUFFER_SIZE - bufIndex)
    {
      var room := BUFFER_SIZE - bufIndex;
      var n := if |s| < room then |s| else room - 1;
      KeptStored(buffer[..], bufIndex, s);
      hide Kept;
      ghost var stored := Overwrite(buffer[..], bufIndex, s[..n] + ['\0']);
      forall k | 0 <= k < n {
        buffer[bufIndex + k] := s[k];
      }
      buffer[bufIndex + n] := '\0';
      assert buffer[..] == stored;
    }

    /** What a piece formatted at an index adds to the buffer's contents. */
    ghost function Formatted(s: string, index: nat): (r: string)
      requires index < BUFFER_SIZE
    {
      Kept(s, BUFFER_SIZE - index) + First(behind, index + |s| - Stored(index + |s|))
    }

    lemma FormattedMeans(s: string, index: nat)
      requires index < BUFFER_SIZE
      ensures |Formatted(s, index)| == |s|
      ensures if index + |s| < BUFFER_SIZE then Formatted(s, index) == s else '\0' in Formatted(s, index)
    {
      KeptMeans(s, index);
      hide Kept;
    }

    /** Format a piece behind the buffer's contents and take its length for what was added. */
    method Place(s: string)
      requires buffer.Length == BUFFER_SIZE && bufIndex < BUFFER_SIZE
      modifies this`bufIndex, buffer
      ensures bufIndex == old(bufIndex) + |s| && Waiting() == old(Waiting()) + Formatted(s, old(bufIndex))
    {
      KeptMeans(s, bufIndex);
      hide Kept, First;
      ghost var start, kept := buffer[..bufIndex], Kept(s, BUFFER_SIZE - bufIndex);
      assert First(behind, 0) == "" && start + "" == start;
      Format(s);
      bufIndex := bufIndex + |s|;
      Associative(start, kept, First(behind, bufIndex - Stored(bufIndex)));
    }

    /** The buffer took these pieces, and complained of each one cut off. */
    ghost predicate Printed(pieces: seq<string>, index: nat, cutsBefore: nat, complaintsBefore: nat)
      reads this`bufIndex, this`cuts, this`complaints
    {
      && bufIndex == FillAll(index, pieces)
      && cuts == cutsBefore + Cuts(index, pieces) && complaints == complaintsBefore + Cuts(index, pieces)
    }

    /** Put a piece of text into the buffer; what does not fit is cut off and complained about. */
    method Put(s: string)
      requires BufferValid()
      modifies this`bufIndex, this`complaints, this`text, this`meant, this`cuts, buffer
      ensures Conserved() && bufIndex == old(bufIndex) + |s| && meant == old(meant) + s
      ensures cuts == old(cuts) + if old(bufIndex) + |s| < BUFFER_SIZE then 0 else 1
      ensures complaints == old(complaints) + if old(bufIndex) + |s| < BUFFER_SIZE then 0 else 1
    {
      ghost var added := Formatted(s, bufIndex);
      FormattedMeans(s, bufIndex);
      Associative(SentText(events), Waiting(), added);
      hide Formatted, SentText, FinishCount, Waiting;
      Place(s);
      text, meant := text + added, meant + s;
      if bufIndex >= BUFFER_SIZE {
        complaints, cuts := complaints + 1, cuts + 1;
      }
    }

    /** Emit a piece of text, and send the buffer once it is more than half full. */
    method Emit(s: string)
      requires BufferValid()
      modifies this`bufIndex, this`events, this`complaints, this`text, this`meant, this`cuts, buffer
      ensures BufferValid() && old(events) <= events && meant == old(meant) + s
      ensures Printed([s], old(bufIndex), old(cuts), old(complaints))
    {
      CutsOne(bufIndex, s);
      hide Conserved, Cuts, FillAll;
      Put(s);
      if bufIndex > BUFFER_SIZE / 2 {
        Flush();
      }
    }

    /** Free the current node and go back to its parent. */
    method PopCurrent()
      requires StackValid() && nodes != []
      modifies this`current, this`nodes, this`tags
      ensures StackValid() && nodes == old(nodes)[..|old(nodes)| - 1] && tags == old(tags)[..|old(tags)| - 1]
    {
      current := current.parent;
      nodes, tags := nodes[..|nodes| - 1], tags[..|tags| - 1];
    }

    method CloseCurrent()
      requires StackValid() && nodes != []
      modifies current`open, this`tags
      ensures StackValid()
      ensures tags == old(tags)[..|old(tags)| - 1] + [old(tags)[|old(tags)| - 1].(open := false)]
    {
      ghost var below, rest := nodes[..|nodes| - 1], tags[..|tags| - 1];
      assert Linked(root, current.parent, below, rest);
      assert current !in below;
      current.open := false;
      tags := rest + [tags[|tags| - 1].(open := false)];
      assert tags[..|tags| - 1] == rest;
    }

    /** A new node becomes the current one. */
    method Splice(name: string, nesting: bool)
      requires StackValid()
      modifies this`current, this`nodes, this`tags
      ensures StackValid() && tags == old(tags) + [Tag(name, true, nesting)]
      ensures |nodes| == |old(nodes)| + 1 && nodes[..|old(nodes)|] == old(nodes) && fresh(nodes[|old(nodes)|])
    {
      ghost var before, rest := nodes, tags;
      var h := new TagNode(name, true, nesting, current, |nodes| + 1);
      current := h;
      nodes, tags := before + [h], rest + [Tag(name, true, nesting)];
      assert nodes[..|before|] == before && tags[..|before|] == rest;
    }

    /** finish_current_tag: complete the tag at the top. */
    method CompleteTag()
      requires Valid()
      modifies this, buffer, Nodes()
      ensures Valid() && Machine() == FinishCurrentTag(old(Machine()))
      ensures Printed(CompletionPieces(old(Machine())), old(bufIndex), old(cuts), old(complaints))
      ensures nodes <= old(nodes) && old(events) <= events
    {
      LinkedTop();
      CutsOne(bufIndex, "");
      hide SentText, FinishCount, Conserved, Cuts, FillAll;
      if current.open {
        Emit(">");
        if current.nesting {
          CloseCurrent();
        } else {
          PopCurrent();
        }
      }
    }

    /**
     * A call did what the machine does, and complained of every piece cut off and if the machine's user should not
     * have made it.
     */
    ghost predicate Did(before: State, call: Call, index: nat, cutsBefore: nat, complaintsBefore: nat)
      reads this`tags, this`meant, this`finished, this`bufIndex, this`cuts, this`complaints
    {
      var lost := Cuts(index, Pieces(before, call));
      && Machine() == Step(before, call) && bufIndex == IndexAfter(before, index, call)
      && cuts == cutsBefore + lost
      && complaints == complaintsBefore + lost + if Legal(before, call) then 0 else 1
    }

    method HtmlTag(name: string, nesting: bool)
      requires Valid()
      modifies this, buffer, Nodes()
      ensures Valid() && Did(old(Machine()), BeginTag(name, nesting), old(bufIndex), old(cuts), old(complaints))
      ensures fresh(Nodes() - old(Nodes()))
    {
      CutsAppend(bufIndex, CompletionPieces(Machine()), ["<" + name]);
      hide Conserved, Linked, Cuts, FillAll, CompletionPieces;
      CompleteTag();
      Emit("<" + name);
      Splice(name, nesting);
    }

    method HtmlAttr(name: string, value: string)
      requires Valid()
      modifies this, buffer
      ensures Valid() && Did(old(Machine()), Attr(name, value), old(bufIndex), old(cuts), old(complaints))
      ensures nodes == old(nodes)
    {
      LinkedTop();
      hide Conserved, Linked;
      if !current.open {
        complaints := complaints + 1;
      }
      EmitAttr(name, value);
    }

    method EmitAttr(name: string, value: string)
      requires BufferValid()
      modifies this`bufIndex, this`events, this`complaints, this`text, this`meant, this`cuts, buffer
      ensures BufferValid() && old(events) <= events && meant == old(meant) + AttrText(name, value)
      ensures Printed([AttrOpening(name), value, "\""], old(bufIndex), old(cuts), old(complaints))
    {
      AttrPieces(meant, name, value);
      CutsAppend(bufIndex, [AttrOpening(name)], [value]);
      CutsAppend(bufIndex, [AttrOpening(name), value], ["\""]);
      hide Conserved, AttrOpening, AttrText, Cuts, FillAll;
      Emit(AttrOpening(name));
      Emit(value);
      Emit("\"");
      assert [AttrOpening(name)] + [value] == [AttrOpening(name), value];
      assert [AttrOpening(name), value] + ["\""] == [AttrOpening(name), value, "\""];
    }

    lemma AttrPieces(before: string, name: string, value: string)
      ensures before + AttrOpening(name) + value + "\"" == before + AttrText(name, value)
    {
    }

    method HtmlText(value: string)
      requires Valid()
      modifies this, buffer, Nodes()
      ensures Valid() && Did(old(Machine()), Text(value), old(bufIndex), old(cuts), old(complaints))
      ensures nodes <= old(nodes)
    {
      CutsAppend(bufIndex, CompletionPieces(Machine()), [value]);
      hide Conserved, Linked, Cuts, FillAll, CompletionPieces;
      CompleteTag();
      Emit(value);
    }

    method HtmlEnd()
      requires Valid()
      modifies this, buffer, Nodes()
      ensures Valid() && Did(old(Machine()), End, old(bufIndex), old(cuts), old(complaints)) && nodes <= old(nodes)
      ensures finished != old(finished) ==>
        finished == old(finished) + 1 && bufIndex == 0 && events != [] && events[|events| - 1] == Finish
    {
      ghost var before, index := Machine(), bufIndex;
      EndMeans(before, index);
      hide Conserved, Linked, EndTag, Cuts, FillAll, CompletionPieces;
      hide FinishCurrentTag, Step, Pieces, IndexAfter, Legal;
      CompleteTag();
      LinkedTop();
      if current.nesting {
        EndCurrent();
      } else {
        complaints := complaints + 1;
      }
    }

    /** Print the end tag of the current node and leave it; leaving the last one finishes the document. */
    method EndCurrent()
      requires Valid() && tags != [] && tags[|tags| - 1] == Tag(current.name, current.open, current.nesting)
      modifies this, buffer
      ensures Valid() && nodes <= old(nodes) && tags == old(tags)[..|old(tags)| - 1]
      ensures finished == old(finished) + if tags == [] then 1 else 0
      ensures tags == [] ==> bufIndex == 0 && events != [] && events[|events| - 1] == Finish
      ensures meant == old(meant) + EndTag(old(current.name))
      ensures cuts == old(cuts) + Cuts(old(bufIndex), [EndTag(old(current.name))])
      ensures complaints == old(complaints) + Cuts(old(bufIndex), [EndTag(old(current.name))])
      ensures tags != [] ==> bufIndex == FillAll(old(bufIndex), [EndTag(old(current.name))])
    {
      LinkedTop();
      hide Conserved, Linked, EndTag, Cuts, FillAll;
      Emit(EndTag(current.name));
      PopCurrent();
      FinishAtRoot();
    }

    /** Back at the root, send the rest and finish the document. */
    method FinishAtRoot()
      requires Valid()
      modifies this`bufIndex, this`events, this`finished
      ensures Valid() && finished == old(finished) + if tags == [] then 1 else 0
      ensures tags == [] ==> bufIndex == 0 && events != [] && events[|events| - 1] == Finish
      ensures tags != [] ==> bufIndex == old(bufIndex)
    {
      LinkedTop();
      hide Conserved, Linked;
      if current == root {
        Flush();
        FinishDocument();
      }
    }

    /** gm_web_finish */
    method FinishDocument()
      requires Valid() && bufIndex == 0
      modifies this`events, this`finished
      ensures Valid() && events == old(events) + [Finish] && finished == old(finished) + 1
    {
      OneMoreEvent(events, Finish);
      hide SentText, FinishCount, Linked, First, Stored;
      events, finished := events + [Finish], finished + 1;
    }

    /** The current node is what the stack's top says; it is the root exactly when the stack is empty. */
    lemma LinkedTop()
      requires StackValid()
      ensures (current == root <==> tags == []) && (nodes == [] <==> tags == [])
      ensures tags == [] ==> !current.open && !current.nesting
      ensures tags != [] ==> tags[|tags| - 1] == Tag(current.name, current.open, current.nesting)
    {
    }

    /** With an empty buffer, everything emitted was sent. */
    lemma AllSent()
      requires Valid() && bufIndex == 0
      ensures SentText(events) == text && FinishCount(events) == finished
      ensures if cuts == 0 then text == meant else '\0' in text
    {
      NothingWaits();
    }

    /** Calls that print and finish one document from the start. */
    method PrintOnce(most: seq<Call>, ghost whole: string)
      requires Valid() && Machine() == START && bufIndex == cuts == complaints == 0
      requires LegalRun(START, most) && Legal(Run(START, most), End) && Run(START, most).finished == 0
      requires Step(Run(START, most), End) == State([], whole, 1) && '\0' !in whole
      modifies this, buffer, Nodes()
      ensures FinishCount(events) == 1 && events != [] && events[|events| - 1] == Finish && tags == []
      ensures complaints == RunCuts(START, 0, most) + Cuts(RunIndex(START, 0, most), Pieces(Run(START, most), End))
      ensures SentText(events) == whole <==> complaints == 0
    {
      hide Valid, Run, RunCuts, RunIndex, Cuts, Pieces, Step, Legal, LegalRun, IndexAfter, SentText, FinishCount;
      IssueAll(most);
      HtmlEnd();
      AllSent();
    }

    /** One call of the interface. */
    method Issue(call: Call)
      requires Valid()
      modifies this, buffer, Nodes()
      ensures Valid() && Did(old(Machine()), call, old(bufIndex), old(cuts), old(complaints))
      ensures fresh(Nodes() - old(Nodes()))
    {
      match call {
        case BeginTag(name, nesting) => HtmlTag(name, nesting);
        case Attr(name, value) => HtmlAttr(name, value);
        case Text(value) => HtmlText(value);
        case End => HtmlEnd();
      }
    }

    /** Any run of calls does what the machine does, and complains only of pieces cut off if the calls are legal. */
    method IssueAll(calls: seq<Call>)
      requires Valid()
      modifies this, buffer, Nodes()
      ensures Valid() && Machine() == Run(old(Machine()), calls)
      ensures bufIndex == RunIndex(old(Machine()), old(bufIndex), calls)
      ensures cuts == old(cuts) + RunCuts(old(Machine()), old(bufIndex), calls)
      ensures LegalRun(old(Machine()), calls) ==>
        complaints == old(complaints) + RunCuts(old(Machine()), old(bufIndex), calls)
      ensures fresh(Nodes() - old(Nodes()))
    {
      ghost var start, index := Machine(), bufIndex;
      hide BufferValid, StackValid, Step, Legal, Cuts, Pieces, IndexAfter;
      for i := 0 to |calls|
        invariant Valid() && Machine() == Run(start, calls[..i]) && bufIndex == RunIndex(start, index, calls[..i])
        invariant cuts == old(cuts) + RunCuts(start, index, calls[..i])
        invariant LegalRun(start, calls) ==> complaints == old(complaints) + RunCuts(start, index, calls[..i])
        invariant fresh(Nodes() - old(Nodes()))
      {
        assert calls[..i + 1][..i] == calls[..i];
        Issue(calls[i]);
      }
      assert calls[..|calls|] == calls;
    }
  }

  /** What the end of a tag prints and leaves. */
  lemma EndMeans(before: State, index: nat)
    ensures var done := FinishCurrentTag(before);
      && (Legal(before, End) <==> CanEnd(done)) && done.finished == before.finished
      && (!CanEnd(done) ==>
            Step(before, End) == done && Pieces(before, End) == CompletionPieces(before)
            && IndexAfter(before, index, End) == FillAll(index, CompletionPieces(before)))
      && (CanEnd(done) ==>
            var below, end := done.stack[..|done.stack| - 1], EndTag(done.stack[|done.stack| - 1].name);
            var index' := FillAll(index, CompletionPieces(before));
            && Step(before, End) == State(below, done.text + end, done.finished + if below == [] then 1 else 0)
            && Cuts(index, Pieces(before, End)) == Cuts(index, CompletionPieces(before)) + Cuts(index', [end])
            && IndexAfter(before, index, End) == if below == [] then 0 else FillAll(index', [end]))
  {
    hide EndTag, Cuts, FillAll, CompletionPieces;
    var done := FinishCurrentTag(before);
    if CanEnd(done) {
      CutsAppend(index, CompletionPieces(before), [EndTag(done.stack[|done.stack| - 1].name)]);
    }
  }

  /** The calls that print a document after some text. */
  function AllCalls(prologue: string, doc: Doc): (r: seq<Call>)
  {
    [Text(prologue)] + Calls(doc)
  }

  /**
   * Print a document after some text. The document is finished once, after everything was sent; the client is sent
   * exactly the text and the rendered document if and only if no piece of it was too long for what the buffer had
   * left, of which the engine complains.
   */
  method PrintDocument(
    prologue: string, name: string, attrs: seq<Attribute>, children: seq<Doc>, behind: nat -> char)
    returns (t: Template)
    requires '\0' !in prologue + Render(Element(name, attrs, children))
    ensures FinishCount(t.events) == 1 && t.events[|t.events| - 1] == Finish && t.tags == []
    ensures var lost := RunCuts(START, 0, AllCalls(prologue, Element(name, attrs, children)));
      && t.complaints == lost
      && (SentText(t.events) == prologue + Render(Element(name, attrs, children)) <==> lost == 0)
      && (lost == 0 && prologue == "" ==>
            forall voids | HtmlReader.Good(Element(name, attrs, children), voids) ::
              HtmlReader.ReadText(SentText(t.events), voids)
                == Some([HtmlReader.MergedDoc(Element(name, attrs, children))]))
  {
    hide AllCalls, Calls, Render, Run, RunCuts, RunIndex, Cuts, Pieces, Step, Legal, LegalRun, SentText, FinishCount;
    hide HtmlReader.ReadText, HtmlReader.Good, HtmlReader.MergedDoc;
    var doc := Element(name, attrs, children);
    LastIsEnd(prologue, doc);
    var calls := AllCalls(prologue, doc);
    var most := calls[..|calls| - 1];
    t := new Template(behind);
    DocumentPrints(prologue, doc, most);
    t.PrintOnce(most, prologue + Render(doc));
    forall voids | HtmlReader.Good(doc, voids)
      ensures HtmlReader.ReadText(Render(doc), voids) == Some([HtmlReader.MergedDoc(doc)])
    {
      HtmlReader.ReadsOne(doc, voids);
    }
    assert "" + Render(doc) == Render(doc);
  }

  lemma LastIsEnd(prologue: string, doc: Doc)
    requires doc.Element?
    ensures var calls := AllCalls(prologue, doc); calls != [] && calls == calls[..|calls| - 1] + [End]
  {
    hide AttrCalls, CallsAll;
  }

  /** A paragraph of 3000 characters is cut off, and what is sent is not its rendering. */
  method CutParagraph(behind: nat -> char) returns (t: Template, value: string)
    ensures |value| == 3000 && t.complaints > 0
    ensures SentText(t.events) != Render(Element("p", [], [Words(value)]))
  {
    value := seq(3000, _ => 'x');
    ParagraphCalls(value);
    LongTextIsCut(START, 0, [Text(""), BeginTag("p", true)], value, [End]);
    hide Render, Calls, RunCuts;
    t := PrintDocument("", "p", [], [Words(value)], behind);
    assert "" + Render(Element("p", [], [Words(value)])) == Render(Element("p", [], [Words(value)]));
  }

  lemma OneChild(doc: Doc)
    ensures CallsAll([doc]) == Calls(doc) && RenderAll([doc]) == Render(doc)
  {
    hide Calls, Render;
    assert [doc][..0] == [];
  }

  lemma NoAttrs()
    ensures AttrCalls([]) == [] && RenderAttrs([]) == ""
  {
  }

  lemma ParagraphCalls(value: string)
    requires '\0' !in value
    ensures AllCalls("", Element("p", [], [Words(value)])) == [Text(""), BeginTag("p", true)] + [Text(value)] + [End]
    ensures '\0' !in "" + Render(Element("p", [], [Words(value)]))
  {
    OneChild(Words(value));
    NoAttrs();
    hide AttrCalls, RenderAttrs, CallsAll, RenderAll;
    assert Render(Words(value)) == value;
    assert Render(Element("p", [], [Words(value)])) == "<p" + ">" + value + "</p>";
  }

  /** What the machine does for a whole document. */
  lemma DocumentPrints(prologue: string, doc: Doc, most: seq<Call>)
    requires doc.Element? && AllCalls(prologue, doc) == most + [End]
    ensures LegalRun(START, most) && Legal(Run(START, most), End) && Run(START, most).finished == 0
    ensures RunCuts(START, 0, AllCalls(prologue, doc)) ==
      RunCuts(START, 0, most) + Cuts(RunIndex(START, 0, most), Pieces(Run(START, most), End))
    ensures Step(Run(START, most), End) == State([], prologue + Render(doc), 1)
  {
    CutsOfLast(most, End);
    EndMeans(Run(START, most), 0);
    hide *;
    DocumentIsLegal(prologue, doc);
    LegalParts(START, most, End);
    RunAppend(START, most, [End]);
    RunOne(Run(START, most), End);
    DocumentRuns(prologue, doc);
  }

  lemma CutsOfLast(most: seq<Call>, last: Call)
    ensures RunCuts(START, 0, most + [last]) ==
      RunCuts(START, 0, most) + Cuts(RunIndex(START, 0, most), Pieces(Run(START, most), last))
  {
    hide Cuts, Pieces, IndexAfter, Step;
    assert (most + [last])[..|most|] == most;
  }

  lemma DocumentIsLegal(prologue: string, doc: Doc)
    ensures LegalRun(START, AllCalls(prologue, doc))
  {
    var st := Step(START, Text(prologue));
    assert st == State([], prologue, 0);
    hide Calls, Run, Legal, Step, LegalRun;
    RunOne(START, Text(prologue));
    LegalText(prologue);
    TreeLegal(st, doc);
    LegalAppend(START, [Text(prologue)], Calls(doc));
  }

  lemma DocumentRuns(prologue: string, doc: Doc)
    requires doc.Element?
    ensures Run(START, AllCalls(prologue, doc)) == State([], prologue + Render(doc), 1)
  {
    var st := Step(START, Text(prologue));
    assert st == State([], prologue, 0);
    var most := AllCalls(prologue, doc)[..|AllCalls(prologue, doc)| - 1];
    assert AllCalls(prologue, doc) == most + [End];
    hide Calls, Run, Render, Step, FinishCurrentTag;
    RunOne(START, Text(prologue));
    TreePrints(st, doc);
    RunAppend(START, [Text(prologue)], Calls(doc));
    RunAppend(START, most, [End]);
    RunOne(Run(START, most), End);
    RunSound(START, most);
    StepSound(Run(START, most), End);
    LastStep(st, Step(Run(START, most), End), Render(doc));
  }

  lemma LegalText(prologue: string)
    ensures LegalRun(START, [Text(prologue)])
  {
    LegalOne(START, Text(prologue));
  }

  lemma LastStep(st: State, last: State, text: string)
    requires st.stack == [] && !TopOpen(last) && FinishCurrentTag(last) == Advance(FinishCurrentTag(st), text, 1)
    ensures last == State([], st.text + text, st.finished + 1)
  {
  }

  lemma LegalParts(st: State, most: seq<Call>, last: Call)
    requires LegalRun(st, most + [last])
    ensures LegalRun(st, most) && Legal(Run(st, most), last)
  {
    hide Run, Legal;
    var all := most + [last];
    forall k | 0 <= k < |most| ensures Legal(Run(st, most[..k]), most[k]) {
      assert all[..k] == most[..k];
      assert Legal(Run(st, all[..k]), all[k]);
    }
    assert all[..|most|] == most;
    assert Legal(Run(st, all[..|most|]), all[|most|]);
  }
}
