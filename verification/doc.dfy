/** The page assembler of doc.mjs: `new Doc(options)` parses a fixed page
    skeleton, and `build()` reads six template files, appends their
    fragments to <head> and <body> in a fixed order, appends a script
    element, and writes the assembly time into the first #time element.
    The file system, the HTML parser and the clock are parameters here; the
    document is its <html> attributes and the child lists of <head> and
    <body>. */
module Doc {
  import opened Optional
  import opened Segments

  /** A DOM node: text, or an element with attributes and children. */
  datatype Node =
    | Text(text: string)
    | Element(tag: string, attributes: map<string, string>, children: seq<Node>)

  /** A page: the <html> element's lang and prefix attributes and the
      children of <head> and <body>. */
  datatype Document = Document(lang: string, prefix: string, head: seq<Node>, body: seq<Node>)

  /** What the constructor parses: an <html lang="en"
      prefix="og: http://ogp.me/ns#"> with empty head and body. */
  function Skeleton(): (r: Document)
  {
    Document("en", "og: http://ogp.me/ns#", [], [])
  }

  /** The six slots, in the order `build` reads and appends them. */
  function Slots(): (r: seq<string>)
  {
    ["head", "header", "nav", "aside", "main", "footer"]
  }

  /** `this.options[slot] || 'default'`: an absent or empty option selects
      the "default" template. */
  function TemplateName(options: map<string, string>, slot: string): (r: string)
    ensures r != ""
    ensures r == "default" <==> (slot !in options || options[slot] == "" || options[slot] == "default")
    ensures r != "default" ==> slot in options && r == options[slot]
  {
    if slot in options && options[slot] != "" then options[slot] else "default"
  }

  /** The file a slot's template is read from. */
  function TemplatePath(slot: string, name: string): (r: string)
  {
    "templates/" + slot + "/" + name + ".html"
  }

  /** The six files `build` reads, slot by slot. */
  function TemplatePaths(options: map<string, string>): (r: seq<string>)
    ensures |r| == 6
  {
    seq(6, i requires 0 <= i < 6 => TemplatePath(Slots()[i], TemplateName(options, Slots()[i])))
  }

  /** The element `build` appends last: <script src="script.js">. */
  function ScriptElement(): (r: Node)
  {
    Element("script", map["src" := "script.js"], [])
  }

  // ---------------------------------------------------------------------
  // The elapsed-time message.

  function DigitChar(d: int): (r: char)
    requires 0 <= d < 10
  {
    (d + '0' as int) as char
  }

  /** The decimal digits of a natural number, as a template literal writes it. */
  function NatToString(n: nat): (r: string)
    ensures r != ""
    ensures forall i :: 0 <= i < |r| ==> '0' <= r[i] <= '9'
    decreases n
  {
    if n < 10 then [DigitChar(n)] else NatToString(n / 10) + [DigitChar(n % 10)]
  }

  /** The number a string of decimal digits denotes. */
  function DigitsValue(s: string): (r: int)
  {
    if s == [] then 0 else DigitsValue(s[..|s| - 1]) * 10 + (Last(s) as int - '0' as int)
  }

  /** Reading the digits back gives the number: the message states the
      elapsed time exactly. */
  lemma {:induction false} NatToStringValue(n: nat)
    ensures DigitsValue(NatToString(n)) == n
    decreases n
  {
    var r := NatToString(n);
    if n >= 10 {
      NatToStringValue(n / 10);
      assert r[..|r| - 1] == NatToString(n / 10);
    }
  }

  /** `${qty}` for an integer, with a leading '-' when negative. */
  function IntToString(x: int): (r: string)
  {
    if x < 0 then "-" + NatToString(-x) else NatToString(x)
  }

  /** The text written into the #time element. */
  function TimeMessage(elapsed: int): (r: string)
  {
    "Server Assembled HTML File in " + IntToString(elapsed) + " Milliseconds"
  }

  // ---------------------------------------------------------------------
  // `querySelector("#time")` and the `textContent` overwrite.

  /** An element whose id is "time". */
  predicate IsTime(n: Node)
  {
    n.Element? && "id" in n.attributes && n.attributes["id"] == "time"
  }

  /** The first #time element in tree order: an element before its
      children, its children before its later siblings. */
  function FirstTime(nodes: seq<Node>): (r: Option<Node>)
    ensures r.Some? ==> IsTime(r.value)
    decreases nodes
  {
    if nodes == [] then None
    else if IsTime(nodes[0]) then Some(nodes[0])
    else
      var inner := if nodes[0].Element? then FirstTime(nodes[0].children) else None;
      if inner.Some? then inner else FirstTime(nodes[1..])
  }

  /** An element after `textContent = msg`: its children are one text node. */
  function Retext(e: Node, msg: string): (r: Node)
    requires e.Element?
  {
    e.(children := [Text(msg)])
  }

  /** Overwrite the text of the first #time element; the flag says whether
      there was one. */
  function StampNodes(nodes: seq<Node>, msg: string): (r: (seq<Node>, bool))
    decreases nodes
  {
    if nodes == [] then ([], false)
    else if IsTime(nodes[0]) then ([Retext(nodes[0], msg)] + nodes[1..], true)
    else
      var inner := if nodes[0].Element? then StampNodes(nodes[0].children, msg) else ([], false);
      if inner.1 then ([nodes[0].(children := inner.0)] + nodes[1..], true)
      else
        var rest := StampNodes(nodes[1..], msg);
        ([nodes[0]] + rest.0, rest.1)
  }

  /** A node with the children of every #time element dropped: what the
      stamp is not allowed to change. */
  function EraseNode(n: Node): (r: Node)
    decreases n, 1
  {
    match n
    case Text(_) => n
    case Element(tag, attributes, children) =>
      Element(tag, attributes, if IsTime(n) then [] else Erase(children))
  }

  function Erase(nodes: seq<Node>): (r: seq<Node>)
    ensures |r| == |nodes|
    ensures forall i :: 0 <= i < |nodes| ==> r[i] == EraseNode(nodes[i])
    decreases nodes, 0
  {
    seq(|nodes|, i requires 0 <= i < |nodes| => EraseNode(nodes[i]))
  }

  /** The nodes with the children of the element `FirstTime` finds
      removed, and nothing else touched: what the stamp must leave as it is. */
  function BlankFirst(nodes: seq<Node>): (r: seq<Node>)
    ensures |r| == |nodes|
    ensures FirstTime(nodes).None? ==> r == nodes
    decreases nodes
  {
    if nodes == [] then []
    else
      var n := nodes[0];
      if IsTime(n) then [n.(children := [])] + nodes[1..]
      else if n.Element? && FirstTime(n.children).Some? then
        [n.(children := BlankFirst(n.children))] + nodes[1..]
      else [n] + BlankFirst(nodes[1..])
  }

  /** The stamp finds a #time element exactly when querySelector does; when
      there is none it changes nothing; otherwise querySelector afterwards
      finds the same element holding just the message, and blanking that
      one element's children gives the same nodes before and after: every
      other node, later #time elements included, is unchanged. */
  lemma {:induction false} StampNodesSpec(nodes: seq<Node>, msg: string)
    ensures var (r, done) := StampNodes(nodes, msg);
      && (done <==> FirstTime(nodes).Some?)
      && (!done ==> r == nodes)
      && (done ==> FirstTime(r) == Some(Retext(FirstTime(nodes).value, msg)))
      && BlankFirst(r) == BlankFirst(nodes)
      && Erase(r) == Erase(nodes)
    decreases nodes
  {
    if nodes != [] {
      var n := nodes[0];
      var (r, done) := StampNodes(nodes, msg);
      if IsTime(n) {
        assert r[0] == Retext(n, msg) && r[1..] == nodes[1..];
        assert IsTime(r[0]);
        assert r[0].(children := []) == n.(children := []);
        assert EraseNode(r[0]) == EraseNode(n);
      } else {
        var inner := if n.Element? then StampNodes(n.children, msg) else ([], false);
        if n.Element? {
          StampNodesSpec(n.children, msg);
        }
        StampNodesSpec(nodes[1..], msg);
        if inner.1 {
          var m := n.(children := inner.0);
          assert r == [m] + nodes[1..];
          assert !IsTime(m);
          assert FirstTime(r) == FirstTime(inner.0);
          assert FirstTime(m.children).Some?;
          assert BlankFirst(r) == [m.(children := BlankFirst(inner.0))] + nodes[1..];
          assert m.(children := BlankFirst(inner.0)) == n.(children := BlankFirst(n.children));
          assert EraseNode(m) == EraseNode(n);
        } else {
          var rest := StampNodes(nodes[1..], msg);
          assert r == [n] + rest.0;
          assert r[1..] == rest.0;
          if n.Element? {
            assert FirstTime(n.children).None?;
          }
          assert BlankFirst(r) == [n] + BlankFirst(rest.0);
        }
      }
    }
  }

  /** `document.querySelector("#time")`: <head> is searched before <body>;
      the <html>, <head> and <body> elements themselves carry no id. */
  function QueryTime(d: Document): (r: Option<Node>)
    ensures r.Some? ==> IsTime(r.value)
  {
    match FirstTime(d.head)
    case Some(e) => Some(e)
    case None => FirstTime(d.body)
  }

  /** `if (timeElement) timeElement.textContent = text`. */
  function StampDocument(d: Document, msg: string): (r: Document)
  {
    var (head, inHead) := StampNodes(d.head, msg);
    if inHead then d.(head := head) else d.(body := StampNodes(d.body, msg).0)
  }

  /** The page with the children of the element `QueryTime` finds removed:
      the first #time element of <head>, or failing that of <body>. */
  function BlankQueried(d: Document): (r: Document)
    ensures QueryTime(d).None? ==> r == d
  {
    if FirstTime(d.head).Some? then d.(head := BlankFirst(d.head)) else d.(body := BlankFirst(d.body))
  }

  /** Without a #time element the page is unchanged; with one, querySelector
      afterwards finds that element holding just the message, and blanking
      that one element's children gives the same page before and after. */
  lemma StampDocumentSpec(d: Document, msg: string)
    ensures var s := StampDocument(d, msg);
      && (QueryTime(d).None? ==> s == d)
      && (QueryTime(d).Some? ==> QueryTime(s) == Some(Retext(QueryTime(d).value, msg)))
      && BlankQueried(s) == BlankQueried(d)
      && s.lang == d.lang && s.prefix == d.prefix
      && Erase(s.head) == Erase(d.head) && Erase(s.body) == Erase(d.body)
  {
    StampNodesSpec(d.head, msg);
    StampNodesSpec(d.body, msg);
  }

  // ---------------------------------------------------------------------
  // build()

  /** Every template read succeeds. */
  predicate AllRead(options: map<string, string>, read: string -> Option<string>)
  {
    forall i :: 0 <= i < 6 ==> read(TemplatePaths(options)[i]).Some?
  }

  /** The six parsed fragments, slot by slot. */
  function Fragments(options: map<string, string>, read: string -> Option<string>, parse: string -> seq<Node>): (f: seq<seq<Node>>)
    requires AllRead(options, read)
    ensures |f| == 6
  {
    seq(6, i requires 0 <= i < 6 => parse(read(TemplatePaths(options)[i]).value))
  }

  /** The skeleton with the fragments appended: the head fragment into
      <head>; header, nav, aside, main, footer and the script into <body>. */
  function Assemble(f: seq<seq<Node>>): (r: Document)
    requires |f| == 6
  {
    Skeleton().(head := f[0], body := f[1] + f[2] + f[3] + f[4] + f[5] + [ScriptElement()])
  }

  /** `new Doc(options).build()`, with `read` for `fs.readFile` (None when
      it fails), `parse` for `JSDOM.fragment`, and `elapsed` for
      `Date.now() - this.start`. The result is the assembled document, or
      None when `Promise.all` rejects. */
  function Build(options: map<string, string>, read: string -> Option<string>,
                 parse: string -> seq<Node>, elapsed: int): (r: Option<Document>)
  {
    if AllRead(options, read)
    then Some(StampDocument(Assemble(Fragments(options, read, parse)), TimeMessage(elapsed)))
    else None
  }

  /** All or nothing: `build` yields a document exactly when every one of the
      six reads succeeds; one failed read and there is no page at all. */
  lemma BuildAllOrNothing(options: map<string, string>, read: string -> Option<string>,
                          parse: string -> seq<Node>, elapsed: int)
    ensures Build(options, read, parse, elapsed).None?
            <==> exists i :: 0 <= i < 6 && read(TemplatePaths(options)[i]).None?
  {
  }

  /** `build` reads the six template files and nothing else: two file
      systems that agree on them give the same page. */
  lemma BuildReadsOnlyTemplates(options: map<string, string>, read1: string -> Option<string>,
                                read2: string -> Option<string>, parse: string -> seq<Node>, elapsed: int)
    requires forall i :: 0 <= i < 6 ==> read1(TemplatePaths(options)[i]) == read2(TemplatePaths(options)[i])
    ensures Build(options, read1, parse, elapsed) == Build(options, read2, parse, elapsed)
  {
    if AllRead(options, read1) {
      assert Fragments(options, read1, parse) == Fragments(options, read2, parse);
    }
  }

  /** Each slot reads templates/<slot>/<name>.html, with <name> the option
      for that slot or "default". */
  lemma TemplatePathsBySlot(options: map<string, string>)
    ensures TemplatePaths(options)[0] == "templates/head/" + TemplateName(options, "head") + ".html"
    ensures TemplatePaths(options)[1] == "templates/header/" + TemplateName(options, "header") + ".html"
    ensures TemplatePaths(options)[2] == "templates/nav/" + TemplateName(options, "nav") + ".html"
    ensures TemplatePaths(options)[3] == "templates/aside/" + TemplateName(options, "aside") + ".html"
    ensures TemplatePaths(options)[4] == "templates/main/" + TemplateName(options, "main") + ".html"
    ensures TemplatePaths(options)[5] == "templates/footer/" + TemplateName(options, "footer") + ".html"
  {
    assert "templates/" + "head" + "/" == "templates/head/";
    assert "templates/" + "header" + "/" == "templates/header/";
    assert "templates/" + "nav" + "/" == "templates/nav/";
    assert "templates/" + "aside" + "/" == "templates/aside/";
    assert "templates/" + "main" + "/" == "templates/main/";
    assert "templates/" + "footer" + "/" == "templates/footer/";
  }

  /** The second piece of a template path is its slot. */
  lemma TemplatePathSlot(slot: string, name: string)
    requires '/' !in slot
    ensures |Split(TemplatePath(slot, name))| >= 3
    ensures Split(TemplatePath(slot, name))[1] == slot
  {
    var rest := name + ".html";
    assert TemplatePath(slot, name) == "templates" + "/" + (slot + "/" + rest);
    SplitSlash("templates", slot + "/" + rest);
    SplitSlash(slot, rest);
    assert '/' !in "templates";
    SplitNoSlash("templates");
    SplitNoSlash(slot);
  }

  /** The six reads use six different path strings, whatever the options
      say. Option values are not checked, so a value holding ".." can still
      name the file of another slot. */
  lemma TemplatePathsDistinct(options: map<string, string>)
    ensures Distinct(TemplatePaths(options))
  {
    var p := TemplatePaths(options);
    forall i, j | 0 <= i < j < 6
      ensures p[i] != p[j]
    {
      var s := Slots();
      assert '/' !in s[i] && '/' !in s[j] && s[i] != s[j];
      TemplatePathSlot(s[i], TemplateName(options, s[i]));
      TemplatePathSlot(s[j], TemplateName(options, s[j]));
    }
  }

  /** What a node erases to when it erases to the script element. */
  lemma ErasedScript(n: Node)
    requires EraseNode(n) == ScriptElement()
    ensures n == ScriptElement()
  {
  }

  /** The page `build` returns keeps the skeleton's <html> attributes; its
      <head> holds the head fragment alone; its <body> holds the header, nav,
      aside, main and footer fragments in that order and ends with the
      script element; and blanking the children of the first #time element
      gives the assembled page back, so the overwrite changed nothing else. */
  lemma BuildLayout(options: map<string, string>, read: string -> Option<string>,
                    parse: string -> seq<Node>, elapsed: int)
    requires Build(options, read, parse, elapsed).Some?
    ensures var d := Build(options, read, parse, elapsed).value;
      var f := Fragments(options, read, parse);
      && d.lang == "en" && d.prefix == "og: http://ogp.me/ns#"
      && Erase(d.head) == Erase(f[0])
      && Erase(d.body) == Erase(f[1] + f[2] + f[3] + f[4] + f[5] + [ScriptElement()])
      && |d.body| == |f[1]| + |f[2]| + |f[3]| + |f[4]| + |f[5]| + 1
      && Last(d.body) == ScriptElement()
      && BlankQueried(d) == BlankQueried(Assemble(f))
  {
    var d := Build(options, read, parse, elapsed).value;
    var f := Fragments(options, read, parse);
    var a := Assemble(f);
    StampDocumentSpec(a, TimeMessage(elapsed));
    var k := |d.body| - 1;
    assert Erase(d.body)[k] == EraseNode(d.body[k]);
    assert Erase(a.body)[k] == EraseNode(ScriptElement());
    assert EraseNode(ScriptElement()) == ScriptElement() by {
      assert !IsTime(ScriptElement());
    }
    ErasedScript(d.body[k]);
  }

  /** The message lands in the first #time element, if the page has one;
      a page without one is returned as assembled. */
  lemma BuildStampsTime(options: map<string, string>, read: string -> Option<string>,
                        parse: string -> seq<Node>, elapsed: int)
    requires Build(options, read, parse, elapsed).Some?
    ensures var d := Build(options, read, parse, elapsed).value;
      var a := Assemble(Fragments(options, read, parse));
      && (QueryTime(a).None? ==> d == a)
      && (QueryTime(a).Some? ==> QueryTime(d) == Some(Retext(QueryTime(a).value, TimeMessage(elapsed))))
  {
    StampDocumentSpec(Assemble(Fragments(options, read, parse)), TimeMessage(elapsed));
  }
}
