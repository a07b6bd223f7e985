/**
 * A reader of the text that the template engine prints, written from the characters alone. A document whose names,
 * values and texts hold none of the characters that end them is read back from its text.
 */
module HtmlReader {
  import opened Bytes
  import opened HtmlMachine
  import opened HtmlPrefix

  datatype Token = Open(name: string, attrs: seq<Attribute>) | Close(name: string) | Chars(text: string)

  /** How many characters come before the first a or b. */
  function Until(s: string, a: char, b: char): (n: nat)
    ensures n <= |s|
  {
    if s == "" || s[0] == a || s[0] == b then 0 else 1 + Until(s[1..], a, b)
  }

  /** The attributes of a tag, and the text behind its '>'. */
  datatype Head = Head(attrs: seq<Attribute>, rest: string)

  /** Read what follows a tag's name: attributes with their values in quotes, and '>'. */
  function ReadHead(s: string): (r: Option<Head>)
    ensures r.Some? ==> |r.value.rest| < |s|
    decreases |s|
  {
    if s == "" then None
    else if s[0] == '>' then Some(Head([], s[1..]))
    else if s[0] != ' ' then None
    else
      var at := 1 + Until(s[1..], '=', '=');
      if at + 2 > |s| || s[at] != '=' || s[at + 1] != '"' then None
      else
        var value := s[at + 2..];
        var n := Until(value, '"', '"');
        if n >= |value| then None
        else
          match ReadHead(value[n + 1..])
          case None => None
          case Some(more) => Some(Head([Attribute(s[1..at], value[..n])] + more.attrs, more.rest))
  }

  function Prepend(tokens: seq<Token>, more: Option<seq<Token>>): (r: Option<seq<Token>>)
  {
    match more case None => None case Some(others) => Some(tokens + others)
  }

  /** Start tags, end tags and the text between them. */
  function ReadTokens(s: string): (r: Option<seq<Token>>)
    decreases |s|
  {
    if s == "" then Some([])
    else if s[0] != '<' then
      var n := Until(s, '<', '<');
      if n == 0 then None else Prepend([Chars(s[..n])], ReadTokens(s[n..]))
    else if |s| > 1 && s[1] == '/' then
      var n := Until(s[2..], '>', '>');
      if n >= |s| - 2 then None else Prepend([Close(s[2..2 + n])], ReadTokens(s[3 + n..]))
    else
      var n := Until(s[1..], ' ', '>');
      match ReadHead(s[1 + n..])
      case None => None
      case Some(head) => Prepend([Open(s[1..1 + n], head.attrs)], ReadTokens(head.rest))
  }

  /** An element begun, and the documents before it. */
  datatype Begun = Begun(name: string, attrs: seq<Attribute>, before: seq<Doc>)

  /** The elements begun, and the documents of the innermost one so far. */
  datatype Nest = Nest(begun: seq<Begun>, docs: seq<Doc>)

  function Top(nest: Nest): (r: Begun)
    requires nest.begun != []
  {
    nest.begun[|nest.begun| - 1]
  }

  /** Every end tag must name the element begun last; void elements have none. */
  function Take(token: Token, voids: set<string>, nest: Nest): (r: Option<Nest>)
  {
    if token.Chars? then Some(nest.(docs := nest.docs + [Words(token.text)]))
    else if token.Open? then
      if token.name in voids then Some(nest.(docs := nest.docs + [Void(token.name, token.attrs)]))
      else Some(Nest(nest.begun + [Begun(token.name, token.attrs, nest.docs)], []))
    else if nest.begun == [] || Top(nest).name != token.name then None
    else
      Some(Nest(nest.begun[..|nest.begun| - 1],
                Top(nest).before + [Element(token.name, Top(nest).attrs, nest.docs)]))
  }

  /** Nest the tokens; all elements must be ended. */
  function Build(tokens: seq<Token>, voids: set<string>, nest: Nest): (r: Option<seq<Doc>>)
    decreases |tokens|
  {
    if tokens == [] then if nest.begun == [] then Some(nest.docs) else None
    else
      var next := Take(tokens[0], voids, nest);
      if next.None? then None else Build(tokens[1..], voids, next.value)
  }

  /** The documents that a text spells, given which elements are void. */
  function ReadText(s: string, voids: set<string>): (r: Option<seq<Doc>>)
  {
    match ReadTokens(s) case None => None case Some(tokens) => Build(tokens, voids, Nest([], []))
  }

  // Documents that can be told from their text.

  predicate GoodName(name: string)
  {
    ' ' !in name && '>' !in name && (name != "" ==> name[0] != '/')
  }

  predicate GoodAttrs(attrs: seq<Attribute>)
  {
    forall k :: 0 <= k < |attrs| ==> '=' !in attrs[k].name && '"' !in attrs[k].value
  }

  /** Names, values and texts hold none of the characters that end them, and void elements are those that are void. */
  predicate Good(doc: Doc, voids: set<string>)
    decreases doc, 1
  {
    match doc
    case Words(value) => '<' !in value
    case Void(name, attrs) => GoodName(name) && GoodAttrs(attrs) && name in voids
    case Element(name, attrs, children) =>
      GoodName(name) && GoodAttrs(attrs) && name !in voids && GoodAll(children, voids)
  }

  predicate GoodAll(docs: seq<Doc>, voids: set<string>)
    decreases docs, 0
  {
    docs == [] || (GoodAll(docs[..|docs| - 1], voids) && Good(docs[|docs| - 1], voids))
  }

  function EndsInWords(docs: seq<Doc>): (r: bool)
  {
    docs != [] && docs[|docs| - 1].Words?
  }

  /** No text is empty or next to another. */
  predicate Separate(docs: seq<Doc>)
    decreases docs, 0
  {
    docs == [] ||
    (Separate(docs[..|docs| - 1]) && SeparateDoc(docs[|docs| - 1])
     && !(EndsInWords(docs[..|docs| - 1]) && docs[|docs| - 1].Words?))
  }

  predicate SeparateDoc(doc: Doc)
    decreases doc, 1
  {
    match doc
    case Words(value) => value != ""
    case Void(_, _) => true
    case Element(_, _, children) => Separate(children)
  }

  function TokensOf(doc: Doc): (r: seq<Token>)
    decreases doc, 1
  {
    match doc
    case Words(value) => [Chars(value)]
    case Void(name, attrs) => [Open(name, attrs)]
    case Element(name, attrs, children) => [Open(name, attrs)] + TokensAll(children) + [Close(name)]
  }

  function TokensAll(docs: seq<Doc>): (r: seq<Token>)
    decreases docs, 0
  {
    if docs == [] then [] else TokensAll(docs[..|docs| - 1]) + TokensOf(docs[|docs| - 1])
  }

  // Reading tokens.

  lemma {:induction false} UntilOf(front: string, c: char, rest: string, a: char, b: char)
    requires a !in front && b !in front && (c == a || c == b)
    ensures Until(front + [c] + rest, a, b) == |front|
  {
    var s := front + [c] + rest;
    if front == "" {
      assert s[0] == c;
    } else {
      assert s[0] == front[0] && s[0] in front;
      assert s[1..] == front[1..] + [c] + rest;
      UntilOf(front[1..], c, rest, a, b);
    }
  }

  lemma {:induction false} UntilEnd(s: string, a: char, b: char)
    requires a !in s && b !in s
    ensures Until(s, a, b) == |s|
  {
    if s != "" {
      assert s[0] in s;
      UntilEnd(s[1..], a, b);
    }
  }

  lemma {:induction false} AttrsFromFront(attrs: seq<Attribute>)
    requires attrs != []
    ensures RenderAttrs(attrs) == AttrText(attrs[0].name, attrs[0].value) + RenderAttrs(attrs[1..])
  {
    hide AttrText;
    var last := |attrs| - 1;
    if last == 0 {
      var none: seq<Attribute> := [];
      assert attrs[..0] == none && attrs[1..] == none;
      assert RenderAttrs(none) == "";
    } else {
      AttrsFromFront(attrs[..last]);
      assert attrs[..last][1..] == attrs[1..][..last - 1] && attrs[1..][last - 1] == attrs[last];
    }
  }

  /** One attribute is read from its characters. */
  lemma AttrReads(name: string, value: string, rest: string)
    requires '=' !in name && '"' !in value
    ensures ReadHead(AttrText(name, value) + rest) ==
      match ReadHead(rest)
      case None => None
      case Some(more) => Some(Head([Attribute(name, value)] + more.attrs, more.rest))
  {
    var s, at := AttrText(name, value) + rest, 1 + |name|;
    assert s == " " + name + "=\"" + value + "\"" + rest;
    assert s[1..] == name + ['='] + ("\"" + value + "\"" + rest);
    UntilOf(name, '=', "\"" + value + "\"" + rest, '=', '=');
    assert s[0] == ' ' && s[at] == '=' && s[at + 1] == '"' && s[1..at] == name;
    assert s[at + 2..] == value + ['"'] + rest;
    UntilOf(value, '"', rest, '"', '"');
    assert (value + ['"'] + rest)[|value| + 1..] == rest && (value + ['"'] + rest)[..|value|] == value;
  }

  lemma EndOfHead(rest: string)
    ensures ReadHead(">" + rest) == Some(Head([], rest))
  {
    assert (">" + rest)[1..] == rest;
  }

  lemma {:induction false} HeadReads(attrs: seq<Attribute>, rest: string)
    requires GoodAttrs(attrs)
    ensures ReadHead(RenderAttrs(attrs) + (">" + rest)) == Some(Head(attrs, rest))
    decreases |attrs|
  {
    hide ReadHead, AttrText;
    if attrs == [] {
      EndOfHead(rest);
      assert "" + (">" + rest) == ">" + rest;
    } else {
      var first, others := attrs[0], attrs[1..];
      AttrsFromFront(attrs);
      HeadReads(others, rest);
      AttrReads(first.name, first.value, RenderAttrs(others) + (">" + rest));
      Concatenate(AttrText(first.name, first.value), RenderAttrs(others), ">" + rest);
      assert [first] + others == attrs;
    }
  }

  lemma AttrsBegin(attrs: seq<Attribute>)
    ensures attrs == [] ==> RenderAttrs(attrs) == ""
    ensures attrs != [] ==> RenderAttrs(attrs) != "" && RenderAttrs(attrs)[0] == ' '
  {
    if attrs != [] {
      AttrsFromFront(attrs);
    }
  }

  /** What follows a start tag's name is read as the rest of the tag. */
  lemma StartTagReads(name: string, tail: string, head: Head)
    requires GoodName(name) && tail != "" && (tail[0] == ' ' || tail[0] == '>') && ReadHead(tail) == Some(head)
    ensures ReadTokens("<" + (name + tail)) == Prepend([Open(name, head.attrs)], ReadTokens(head.rest))
  {
    hide ReadHead, Prepend;
    var s := "<" + (name + tail);
    assert tail == [tail[0]] + tail[1..] && s[1..] == name + [tail[0]] + tail[1..];
    UntilOf(name, tail[0], tail[1..], ' ', '>');
    assert s[1] == (if name == "" then tail[0] else name[0]);
    assert s[1..1 + |name|] == name && s[1 + |name|..] == tail;
  }

  /** A start tag is read from its characters. */
  lemma OpenReads(name: string, attrs: seq<Attribute>, rest: string)
    requires GoodName(name) && GoodAttrs(attrs)
    ensures ReadTokens(RenderHead(name, attrs) + (">" + rest)) == Prepend([Open(name, attrs)], ReadTokens(rest))
  {
    hide RenderAttrs, ReadHead, ReadTokens, GoodName, GoodAttrs, Prepend;
    var tail := RenderAttrs(attrs) + (">" + rest);
    AttrsBegin(attrs);
    HeadReads(attrs, rest);
    StartTagReads(name, tail, Head(attrs, rest));
    Concatenate("<", name, RenderAttrs(attrs));
    assert RenderHead(name, attrs) + (">" + rest) == "<" + (name + tail);
  }

  /** An end tag is read from its characters. */
  lemma CloseReads(name: string, rest: string)
    requires GoodName(name)
    ensures ReadTokens("</" + name + ">" + rest) == Prepend([Close(name)], ReadTokens(rest))
  {
    var s := "</" + name + ">" + rest;
    assert s[2..] == name + ['>'] + rest;
    UntilOf(name, '>', rest, '>', '>');
    assert s[0] == '<' && s[1] == '/' && s[2..2 + |name|] == name && s[3 + |name|..] == rest;
  }

  /** What can follow a text. */
  predicate NoText(rest: string)
  {
    rest == "" || rest[0] == '<'
  }

  lemma WordsRead(value: string, rest: string)
    requires value != "" && '<' !in value && NoText(rest)
    ensures ReadTokens(value + rest) == Prepend([Chars(value)], ReadTokens(rest))
  {
    var s := value + rest;
    assert s[0] == value[0] && s[0] in value;
    if rest == "" {
      assert s == value;
      UntilEnd(value, '<', '<');
    } else {
      assert rest == ['<'] + rest[1..] && s == value + ['<'] + rest[1..];
      UntilOf(value, '<', rest[1..], '<', '<');
    }
    assert s[..|value|] == value && s[|value|..] == rest;
  }

  lemma PrependTwice(a: seq<Token>, b: seq<Token>, more: Option<seq<Token>>)
    ensures Prepend(a, Prepend(b, more)) == Prepend(a + b, more)
  {
    if more.Some? {
      assert a + (b + more.value) == a + b + more.value;
    }
  }

  lemma {:induction false} DocReads(doc: Doc, voids: set<string>, rest: string)
    requires Good(doc, voids) && SeparateDoc(doc) && (doc.Words? ==> NoText(rest))
    ensures ReadTokens(Render(doc) + rest) == Prepend(TokensOf(doc), ReadTokens(rest))
    decreases doc, 1
  {
    hide ReadTokens, GoodName, GoodAttrs, NoText, Prepend, RenderHead;
    match doc {
      case Words(value) =>
        WordsRead(value, rest);
      case Void(name, attrs) =>
        Concatenate(RenderHead(name, attrs), ">", rest);
        OpenReads(name, attrs, rest);
      case Element(name, attrs, children) =>
        ElementReads(name, attrs, children, voids, rest);
    }
  }

  lemma {:induction false} ElementReads(
    name: string, attrs: seq<Attribute>, children: seq<Doc>, voids: set<string>, rest: string)
    requires Good(Element(name, attrs, children), voids) && Separate(children)
    ensures ReadTokens(Render(Element(name, attrs, children)) + rest)
         == Prepend(TokensOf(Element(name, attrs, children)), ReadTokens(rest))
    decreases children, 1
  {
    hide ReadTokens, GoodName, GoodAttrs, Prepend, RenderHead, RenderAll, TokensAll;
    var inner, end := RenderAll(children), "</" + name + ">" + rest;
    assert Render(Element(name, attrs, children)) + rest == RenderHead(name, attrs) + (">" + (inner + end));
    OpenReads(name, attrs, inner + end);
    assert end[0] == '<';
    TokensRead(children, voids, end);
    CloseReads(name, rest);
    PrependTwice(TokensAll(children), [Close(name)], ReadTokens(rest));
    PrependTwice([Open(name, attrs)], TokensAll(children) + [Close(name)], ReadTokens(rest));
    assert [Open(name, attrs)] + (TokensAll(children) + [Close(name)])
        == [Open(name, attrs)] + TokensAll(children) + [Close(name)];
  }

  lemma RenderBegins(doc: Doc)
    requires !doc.Words?
    ensures Render(doc) != "" && Render(doc)[0] == '<'
  {
  }

  /** The tokens of documents are read from their text. */
  lemma {:induction false} TokensRead(docs: seq<Doc>, voids: set<string>, rest: string)
    requires GoodAll(docs, voids) && Separate(docs) && (EndsInWords(docs) ==> NoText(rest))
    ensures ReadTokens(RenderAll(docs) + rest) == Prepend(TokensAll(docs), ReadTokens(rest))
    decreases docs, 0
  {
    hide ReadTokens, Good, SeparateDoc, Render, TokensOf;
    if docs == [] {
      assert "" + rest == rest;
      PrependNone(ReadTokens(rest));
    } else {
      var before, last := docs[..|docs| - 1], docs[|docs| - 1];
      if !last.Words? {
        RenderBegins(last);
      }
      Concatenate(RenderAll(before), Render(last), rest);
      TokensRead(before, voids, Render(last) + rest);
      DocReads(last, voids, rest);
      PrependTwice(TokensAll(before), TokensOf(last), ReadTokens(rest));
    }
  }

  lemma PrependNone(more: Option<seq<Token>>)
    ensures Prepend([], more) == more
  {
    if more.Some? {
      assert [] + more.value == more.value;
    }
  }

  // Nesting tokens.

  lemma BuildNext(token: Token, more: seq<Token>, voids: set<string>, nest: Nest)
    ensures Build([token] + more, voids, nest) ==
      if Take(token, voids, nest).None? then None else Build(more, voids, Take(token, voids, nest).value)
  {
    assert ([token] + more)[1..] == more;
  }

  lemma {:induction false} DocBuilds(doc: Doc, more: seq<Token>, voids: set<string>, nest: Nest)
    requires Good(doc, voids)
    ensures Build(TokensOf(doc) + more, voids, nest) == Build(more, voids, nest.(docs := nest.docs + [doc]))
    decreases doc, 1
  {
    hide Build, GoodName, GoodAttrs;
    match doc {
      case Words(value) =>
        BuildNext(Chars(value), more, voids, nest);
      case Void(name, attrs) =>
        BuildNext(Open(name, attrs), more, voids, nest);
      case Element(name, attrs, children) =>
        var inner, end := TokensAll(children), [Close(name)] + more;
        var inside := Nest(nest.begun + [Begun(name, attrs, nest.docs)], []);
        assert TokensOf(doc) + more == [Open(name, attrs)] + (inner + end);
        BuildNext(Open(name, attrs), inner + end, voids, nest);
        AllBuild(children, end, voids, inside);
        assert [] + children == children && inside.begun[..|inside.begun| - 1] == nest.begun;
        BuildNext(Close(name), more, voids, inside.(docs := children));
    }
  }

  lemma {:induction false} AllBuild(all: seq<Doc>, more: seq<Token>, voids: set<string>, nest: Nest)
    requires GoodAll(all, voids)
    ensures Build(TokensAll(all) + more, voids, nest) == Build(more, voids, nest.(docs := nest.docs + all))
    decreases all, 0
  {
    hide Build, Good, TokensOf;
    if all == [] {
      assert [] + more == more && nest.docs + all == nest.docs;
    } else {
      var before, last := all[..|all| - 1], all[|all| - 1];
      assert TokensAll(all) + more == TokensAll(before) + (TokensOf(last) + more);
      AllBuild(before, TokensOf(last) + more, voids, nest);
      DocBuilds(last, more, voids, nest.(docs := nest.docs + before));
      assert nest.docs + before + [last] == nest.docs + all;
    }
  }

  /** Documents are read back from their text. */
  lemma ReadsBack(docs: seq<Doc>, voids: set<string>)
    requires GoodAll(docs, voids) && Separate(docs)
    ensures ReadText(RenderAll(docs), voids) == Some(docs)
  {
    hide GoodAll, Separate, TokensAll, RenderAll, EndsInWords;
    TokensRead(docs, voids, "");
    assert RenderAll(docs) + "" == RenderAll(docs);
    assert ReadTokens("") == Some([]);
    assert TokensAll(docs) + [] == TokensAll(docs);
    AllBuild(docs, [], voids, Nest([], []));
    assert [] + docs == docs;
  }

  // Texts next to each other are read as one.

  /** One document more, a text joined to a text before it. */
  function Attach(docs: seq<Doc>, doc: Doc): (r: seq<Doc>)
  {
    if doc == Words("") then docs
    else if doc.Words? && EndsInWords(docs) then
      docs[..|docs| - 1] + [Words(docs[|docs| - 1].value + doc.value)]
    else docs + [doc]
  }

  function Merged(docs: seq<Doc>): (r: seq<Doc>)
    decreases docs, 0
  {
    if docs == [] then [] else Attach(Merged(docs[..|docs| - 1]), MergedDoc(docs[|docs| - 1]))
  }

  function MergedDoc(doc: Doc): (r: Doc)
    decreases doc, 1
  {
    match doc case Element(name, attrs, children) => Element(name, attrs, Merged(children)) case _ => doc
  }

  lemma AttachKeeps(docs: seq<Doc>, doc: Doc, voids: set<string>)
    requires GoodAll(docs, voids) && Separate(docs) && Good(doc, voids) && (doc.Words? || SeparateDoc(doc))
    ensures GoodAll(Attach(docs, doc), voids) && Separate(Attach(docs, doc))
    ensures RenderAll(Attach(docs, doc)) == RenderAll(docs) + Render(doc)
  {
    hide GoodName, GoodAttrs, RenderHead;
    var all := Attach(docs, doc);
    if doc == Words("") {
      assert RenderAll(docs) + "" == RenderAll(docs);
    } else if doc.Words? && EndsInWords(docs) {
      var before, last := docs[..|docs| - 1], docs[|docs| - 1];
      assert all[..|all| - 1] == before && all[|all| - 1] == Words(last.value + doc.value);
      Concatenate(RenderAll(before), last.value, doc.value);
    } else {
      assert all[..|all| - 1] == docs && all[|all| - 1] == doc;
    }
  }

  lemma {:induction false} MergedKeeps(docs: seq<Doc>, voids: set<string>)
    requires GoodAll(docs, voids)
    ensures GoodAll(Merged(docs), voids) && Separate(Merged(docs)) && RenderAll(Merged(docs)) == RenderAll(docs)
    decreases docs, 0
  {
    hide Good, SeparateDoc, Render, Attach, MergedDoc;
    if docs != [] {
      var before, last := docs[..|docs| - 1], docs[|docs| - 1];
      MergedKeeps(before, voids);
      MergedDocKeeps(last, voids);
      AttachKeeps(Merged(before), MergedDoc(last), voids);
    }
  }

  lemma {:induction false} MergedDocKeeps(doc: Doc, voids: set<string>)
    requires Good(doc, voids)
    ensures Good(MergedDoc(doc), voids) && Render(MergedDoc(doc)) == Render(doc)
    ensures MergedDoc(doc).Words? || SeparateDoc(MergedDoc(doc))
    decreases doc, 1
  {
    hide GoodName, GoodAttrs, RenderHead;
    if doc.Element? {
      MergedKeeps(doc.children, voids);
    }
  }

  /** Any good documents are read back from their text, texts next to each other as one. */
  lemma ReadsMerged(docs: seq<Doc>, voids: set<string>)
    requires GoodAll(docs, voids)
    ensures ReadText(RenderAll(docs), voids) == Some(Merged(docs))
  {
    hide ReadText, RenderAll, GoodAll, Separate, Merged;
    MergedKeeps(docs, voids);
    ReadsBack(Merged(docs), voids);
  }

  /** So is one element. */
  lemma ReadsOne(doc: Doc, voids: set<string>)
    requires doc.Element? && Good(doc, voids)
    ensures ReadText(Render(doc), voids) == Some([MergedDoc(doc)])
  {
    var none: seq<Doc> := [];
    assert [doc][..0] == none;
    assert GoodAll(none, voids);
    assert RenderAll([doc]) == RenderAll(none) + Render(doc) == Render(doc);
    assert Merged([doc]) == Attach(Merged(none), MergedDoc(doc)) == [MergedDoc(doc)];
    ReadsMerged([doc], voids);
  }

  // What any legal calls print is balanced.

  predicate GoodCall(call: Call, voids: set<string>)
  {
    match call
    case BeginTag(name, nesting) => GoodName(name) && (nesting <==> name !in voids)
    case Attr(name, value) => '=' !in name && '"' !in value
    case Text(value) => '<' !in value
    case End => true
  }

  ghost predicate GoodCalls(calls: seq<Call>, voids: set<string>)
  {
    forall c :: c in calls ==> GoodCall(c, voids)
  }

  lemma GoodParts(a: seq<Call>, b: seq<Call>, voids: set<string>)
    requires GoodCalls(a + b, voids)
    ensures GoodCalls(a, voids) && GoodCalls(b, voids)
  {
    hide GoodCall;
    assert forall c :: c in a || c in b ==> c in a + b;
  }

  lemma {:induction false} AttrsAreGood(attrs: seq<Attribute>, voids: set<string>)
    requires GoodCalls(AttrCalls(attrs), voids)
    ensures GoodAttrs(attrs)
  {
    if attrs != [] {
      var before, last := attrs[..|attrs| - 1], attrs[|attrs| - 1];
      GoodParts(AttrCalls(before), [Attr(last.name, last.value)], voids);
      AttrsAreGood(before, voids);
      assert Attr(last.name, last.value) in [Attr(last.name, last.value)];
    }
  }

  lemma {:induction false} DocIsGood(doc: Doc, voids: set<string>)
    requires GoodCalls(Calls(doc), voids)
    ensures Good(doc, voids)
    decreases doc, 1
  {
    match doc {
      case Words(value) =>
        assert Text(value) in Calls(doc);
      case Void(name, attrs) =>
        GoodParts([BeginTag(name, false)], AttrCalls(attrs), voids);
        assert BeginTag(name, false) in [BeginTag(name, false)];
        AttrsAreGood(attrs, voids);
      case Element(name, attrs, children) =>
        GoodParts([BeginTag(name, true)] + AttrCalls(attrs) + CallsAll(children), [End], voids);
        GoodParts([BeginTag(name, true)] + AttrCalls(attrs), CallsAll(children), voids);
        GoodParts([BeginTag(name, true)], AttrCalls(attrs), voids);
        assert BeginTag(name, true) in [BeginTag(name, true)];
        AttrsAreGood(attrs, voids);
        AllAreGood(children, voids);
    }
  }

  lemma {:induction false} AllAreGood(docs: seq<Doc>, voids: set<string>)
    requires GoodCalls(CallsAll(docs), voids)
    ensures GoodAll(docs, voids)
    decreases docs, 0
  {
    if docs != [] {
      GoodParts(CallsAll(docs[..|docs| - 1]), Calls(docs[|docs| - 1]), voids);
      AllAreGood(docs[..|docs| - 1], voids);
      DocIsGood(docs[|docs| - 1], voids);
    }
  }

  /** The machine after some calls and the ends of the tags they leave. */
  function Closed(calls: seq<Call>): (r: State)
  {
    FinishCurrentTag(Run(START, calls + HtmlPrefix.Ends(Pending(Run(START, calls)))))
  }

  /** What any legal calls have printed, with the ends of the tags still on the stack, reads as balanced documents. */
  lemma PrintedIsBalanced(calls: seq<Call>, voids: set<string>)
    requires LegalRun(START, calls) && GoodCalls(calls, voids)
    ensures ReadText(Closed(calls).text, voids).Some? && Closed(calls).stack == []
    ensures Run(START, calls).text <= Closed(calls).text
  {
    var ends := HtmlPrefix.Ends(Pending(Run(START, calls)));
    assert GoodCalls(calls + ends, voids) by {
      hide Run, LegalRun;
      assert forall c :: c in ends ==> c == End;
    }
    hide ReadText, FinishCurrentTag, Run, LegalRun, GoodCalls, GoodAll, RenderAll, CallsAll, Pending;
    var docs := PrefixOfForest(calls);
    AllAreGood(docs, voids);
    ReadsMerged(docs, voids);
  }
}
