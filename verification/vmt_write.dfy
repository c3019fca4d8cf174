/** A writer for material trees, the inverse the parser is measured
    against: every name and value is written as a quoted string with `"`
    and `\` escaped, a leaf as `"name" "value"` and a block as
    `"name" {...}`. Parsing what the writer produced gives back the tree. */
module VmtWrite {
  import opened Vmt

  /** The escaped body of a quoted string: a backslash before every `"`
      and every `\`. */
  function Escape(s: string): (r: string)
    ensures |r| >= |s|
  {
    if |s| == 0 then ""
    else if s[0] == '"' || s[0] == '\\' then ['\\', s[0]] + Escape(s[1..])
    else [s[0]] + Escape(s[1..])
  }

  function Quote(s: string): (r: string) {
    "\"" + Escape(s) + "\""
  }

  /** A tree the writer can represent: every name is non-empty (an empty
      name ends a body) and a node with children carries no value (a block
      is read back with an empty value). */
  predicate Writable(n: Node) {
    |n.name| > 0 && (|n.children| > 0 ==> n.value == "") && AllWritable(n.children)
  }

  predicate AllWritable(cs: seq<Node>)
    decreases cs
  {
    |cs| == 0 || (Writable(cs[0]) && AllWritable(cs[1..]))
  }

  /** One child: its quoted name, then its quoted value or its braced body,
      then a line feed. */
  function WriteNode(n: Node): (r: string)
    decreases n, 1
  {
    Quote(n.name) + " " +
    (if |n.children| == 0 then Quote(n.value) else "{" + WriteChildren(n.children) + "}") +
    "\n"
  }

  function WriteChildren(cs: seq<Node>): (r: string)
    decreases cs, 0
  {
    if |cs| == 0 then "" else WriteNode(cs[0]) + WriteChildren(cs[1..])
  }

  /** A whole material: the shader name, then the root's children in braces. */
  function WriteFile(shader: string, cs: seq<Node>): (r: string) {
    Quote(shader) + " {" + WriteChildren(cs) + "}"
  }

  /** The quoted-string loop undoes `Escape` and stops at the closing quote. */
  lemma {:induction false} QuotedBodyOfEscape(s: string, rest: string)
    ensures QuotedBody(Escape(s) + "\"" + rest) == (s, "\"" + rest)
    decreases |s|
  {
    var t := Escape(s) + "\"" + rest;
    if |s| == 0 {
      assert t == "\"" + rest;
    } else if s[0] == '"' || s[0] == '\\' {
      assert t[2..] == Escape(s[1..]) + "\"" + rest;
      QuotedBodyOfEscape(s[1..], rest);
      assert [s[0]] + s[1..] == s;
    } else {
      assert t[1..] == Escape(s[1..]) + "\"" + rest;
      QuotedBodyOfEscape(s[1..], rest);
      assert [s[0]] + s[1..] == s;
    }
  }

  /** `ReadToken` reads a quoted string back and leaves what follows it. */
  lemma ReadQuoted(s: string, rest: string)
    ensures ReadToken(Quote(s) + rest) == (s, rest)
  {
    var t := Quote(s) + rest;
    assert t == "\"" + (Escape(s) + "\"" + rest);
    assert t[1..] == Escape(s) + "\"" + rest;
    QuotedBodyOfEscape(s, rest);
    assert ("\"" + rest)[1..] == rest;
  }

  /** Skipping white space stops at once at a quote or a brace. */
  lemma SkipWsAtDelimiter(t: string)
    requires |t| > 0 && (t[0] == '"' || t[0] == '{' || t[0] == '}')
    ensures SkipWs(t) == t
  {
  }

  lemma SkipWsOneSpace(c: char, t: string)
    requires IsSpace(c)
    requires |t| > 0 && (t[0] == '"' || t[0] == '{' || t[0] == '}')
    ensures SkipWs([c] + t) == t
  {
    assert ([c] + t)[1..] == t;
  }

  lemma WriteChildrenStart(cs: seq<Node>, rest: string)
    ensures |WriteChildren(cs) + "}" + rest| > 0
    ensures (WriteChildren(cs) + "}" + rest)[0] == (if |cs| == 0 then '}' else '"')
  {
  }

  /** A text starting with a quoted non-empty name goes on with a child of
      that name; what follows the name is read after its white space. */
  lemma EntryOfQuotedName(name: string, tail: string)
    requires |name| > 0
    ensures EntryAt(Quote(name) + tail, name, SkipWs(tail))
  {
    var t := Quote(name) + tail;
    SkipWsAtDelimiter(t);
    ReadQuoted(name, tail);
  }

  /** One turn of the `ParseNode` loop over a written leaf: the child
      `name = value` is appended and parsing goes on after the value. */
  lemma ParseLeafStep(name: string, value: string, after: string, node: Node)
    requires |name| > 0
    ensures ParseNode(Quote(name) + " " + Quote(value) + after, node)
         == ParseNode(after, AddChild(node, Node(name, value, [])))
  {
    var tail := " " + Quote(value) + after;
    assert Quote(name) + " " + Quote(value) + after == Quote(name) + tail;
    EntryOfQuotedName(name, tail);
    assert tail == [' '] + (Quote(value) + after);
    SkipWsOneSpace(' ', Quote(value) + after);
    ReadQuoted(value, after);
    ParseNodeLeafChild(Quote(name) + tail, node, name, Quote(value) + after);
  }

  /** A line feed before a child or a closing brace changes nothing. */
  lemma ParseAfterLineFeed(after: string, node: Node)
    requires |after| > 0 && (after[0] == '"' || after[0] == '}')
    ensures ParseNode("\n" + after, node) == ParseNode(after, node)
  {
    SkipWsOneSpace('\n', after);
    SkipWsAtDelimiter(after);
  }

  /** One turn of the `ParseNode` loop over a written block: its body is
      parsed into a fresh node named `name`, which is appended, and parsing
      goes on where the body's parse stopped. */
  lemma ParseBlockStep(name: string, body: string, node: Node)
    requires |name| > 0
    ensures ParseNode(Quote(name) + " {" + body, node)
         == var (child, u3) := ParseNode(body, NewNode(name)); ParseNode(u3, AddChild(node, child))
  {
    var tail := " {" + body;
    assert Quote(name) + " {" + body == Quote(name) + tail;
    EntryOfQuotedName(name, tail);
    assert tail == [' '] + ("{" + body);
    SkipWsOneSpace(' ', "{" + body);
    assert ("{" + body)[1..] == body;
    ParseNodeBlockChild(Quote(name) + tail, node, name, "{" + body);
  }

  /** The body the writer produces parses back to exactly the children it
      was written from, appended to the node being built, and the parse
      stops just after the closing brace. */
  lemma {:induction false} ParseWrittenChildren(cs: seq<Node>, node: Node, rest: string)
    requires AllWritable(cs)
    ensures ParseNode(WriteChildren(cs) + "}" + rest, node) == (node.(children := node.children + cs), rest)
    decreases cs, 2
  {
    if |cs| == 0 {
      ParseWrittenEnd(node, rest);
    } else {
      ParseWrittenHead(cs, node, rest);
      ParseWrittenChildren(cs[1..], AddChild(node, cs[0]), rest);
      AppendHeadThenTail(node, cs);
    }
  }

  lemma ParseWrittenEnd(node: Node, rest: string)
    ensures ParseNode(WriteChildren([]) + "}" + rest, node) == (node.(children := node.children + []), rest)
  {
    assert WriteChildren([]) + "}" + rest == "}" + rest;
    assert node.children + [] == node.children;
  }

  lemma AppendHeadThenTail(node: Node, cs: seq<Node>)
    requires |cs| > 0
    ensures var n1 := AddChild(node, cs[0]); n1.(children := n1.children + cs[1..]) == node.(children := node.children + cs)
  {
    assert node.children + [cs[0]] + cs[1..] == node.children + cs;
  }

  /** The first written child is read back and appended, and parsing goes
      on at the children written after it. */
  lemma {:induction false} ParseWrittenHead(cs: seq<Node>, node: Node, rest: string)
    requires |cs| > 0 && AllWritable(cs)
    ensures ParseNode(WriteChildren(cs) + "}" + rest, node)
         == ParseNode(WriteChildren(cs[1..]) + "}" + rest, AddChild(node, cs[0]))
    decreases cs, 1
  {
    var after := WriteChildren(cs[1..]) + "}" + rest;
    WriteChildrenStart(cs[1..], rest);
    WriteChildrenCons(cs, rest);
    if |cs[0].children| == 0 {
      ParseWrittenLeaf(cs[0], after, node);
    } else {
      ParseWrittenBlock(cs, after, node);
    }
  }

  lemma WriteChildrenCons(cs: seq<Node>, rest: string)
    requires |cs| > 0
    ensures WriteChildren(cs) + "}" + rest == WriteNode(cs[0]) + (WriteChildren(cs[1..]) + "}" + rest)
  {
    Concat4(WriteNode(cs[0]), WriteChildren(cs[1..]), "}", rest);
  }

  lemma Concat4(a: string, b: string, c: string, d: string)
    ensures a + b + c + d == a + (b + c + d)
  {
  }

  lemma ParseWrittenLeaf(c: Node, after: string, node: Node)
    requires Writable(c) && |c.children| == 0
    requires |after| > 0 && (after[0] == '"' || after[0] == '}')
    ensures ParseNode(WriteNode(c) + after, node) == ParseNode(after, AddChild(node, c))
  {
    assert WriteNode(c) + after == Quote(c.name) + " " + Quote(c.value) + ("\n" + after);
    ParseLeafStep(c.name, c.value, "\n" + after, node);
    assert Node(c.name, c.value, []) == c;
    ParseAfterLineFeed(after, AddChild(node, c));
  }

  lemma {:induction false} ParseWrittenBlock(cs: seq<Node>, after: string, node: Node)
    requires |cs| > 0 && AllWritable(cs) && |cs[0].children| > 0
    requires |after| > 0 && (after[0] == '"' || after[0] == '}')
    ensures ParseNode(WriteNode(cs[0]) + after, node) == ParseNode(after, AddChild(node, cs[0]))
    decreases cs, 0
  {
    var c := cs[0];
    var inner := WriteChildren(c.children) + "}" + ("\n" + after);
    assert WriteNode(c) + after == Quote(c.name) + " {" + inner;
    ParseBlockStep(c.name, inner, node);
    ParseWrittenChildren(c.children, NewNode(c.name), "\n" + after);
    BlockNodeRebuilt(c);
    ParseAfterLineFeed(after, AddChild(node, c));
  }

  lemma BlockNodeRebuilt(c: Node)
    requires c.value == ""
    ensures NewNode(c.name).(children := NewNode(c.name).children + c.children) == c
  {
    assert [] + c.children == c.children;
  }

  /** Parsing a written material into a fresh file succeeds, recovers the
      shader name, and rebuilds the root with exactly the written children. */
  lemma ParseWrittenFile(shader: string, cs: seq<Node>)
    requires |shader| > 0 && AllWritable(cs)
    ensures Parse(EmptyFile(), WriteFile(shader, cs)) == (VmtFile(Node(shader, "", cs), shader), true)
  {
    var body := WriteChildren(cs) + "}" + "";
    var root := SetName(EmptyFile().root, shader);
    assert WriteFile(shader, cs) == Quote(shader) + " {" + body;
    ParseFileHeader(shader, body);
    ParseWrittenChildren(cs, root, "");
    BlockNodeRebuilt(Node(shader, "", cs));
  }

  /** `Parse` reads the quoted shader name and the opening brace, then
      parses the body into the root renamed after the shader. */
  lemma ParseFileHeader(shader: string, body: string)
    requires |shader| > 0
    ensures Parse(EmptyFile(), Quote(shader) + " {" + body)
         == (VmtFile(ParseNode(body, SetName(EmptyFile().root, shader)).0, shader), true)
  {
    var t := Quote(shader) + " {" + body;
    var tail := " {" + body;
    assert t == Quote(shader) + tail;
    SkipWsAtDelimiter(t);
    ReadQuoted(shader, tail);
    assert tail == [' '] + ("{" + body);
    SkipWsOneSpace(' ', "{" + body);
    assert ("{" + body)[1..] == body;
  }

  // ---------------------------------------------------------------------
  // What the parser builds is writable

  lemma {:induction false} AllWritableAppend(cs: seq<Node>, c: Node)
    requires AllWritable(cs) && Writable(c)
    ensures AllWritable(cs + [c])
    decreases |cs|
  {
    if |cs| == 0 {
      assert [] + [c] == [c];
    } else {
      assert (cs + [c])[1..] == cs[1..] + [c];
      AllWritableAppend(cs[1..], c);
    }
  }

  /** Every child `ParseNode` adds has a non-empty name, and a block child
      has an empty value, so the parsed tree is one the writer can write. */
  lemma {:induction false} ParseNodeWritable(t: string, node: Node)
    requires AllWritable(node.children)
    ensures AllWritable(ParseNode(t, node).0.children)
    decreases |t|, 1
  {
    if |t| > 0 {
      var u := SkipWs(t);
      if |u| > 0 && u[0] != '}' {
        var (name, u1) := ReadToken(u);
        if |name| > 0 {
          var u2 := SkipWs(u1);
          if |u2| > 0 && u2[0] == '{' {
            ParseNodeWritableBlock(t, node, name, u2);
          } else {
            ParseNodeWritableLeaf(t, node, name, u2);
          }
        }
      }
    }
  }

  lemma {:induction false} ParseNodeWritableBlock(t: string, node: Node, name: string, u2: string)
    requires AllWritable(node.children)
    requires |t| > 0 && EntryAt(t, name, u2) && |u2| < |t| && |u2| > 0 && u2[0] == '{'
    ensures AllWritable(ParseNode(t, node).0.children)
    decreases |t|, 0
  {
    var (child, u3) := ParseNode(u2[1..], NewNode(name));
    ParseNodeBlockChild(t, node, name, u2);
    ParseNodeWritable(u2[1..], NewNode(name));
    assert Writable(child);
    AllWritableAppend(node.children, child);
    ParseNodeWritable(u3, AddChild(node, child));
  }

  lemma {:induction false} ParseNodeWritableLeaf(t: string, node: Node, name: string, u2: string)
    requires AllWritable(node.children)
    requires |t| > 0 && EntryAt(t, name, u2) && |u2| < |t| && !(|u2| > 0 && u2[0] == '{')
    ensures AllWritable(ParseNode(t, node).0.children)
    decreases |t|, 0
  {
    var (value, u3) := ReadToken(u2);
    var c := Node(name, value, []);
    ParseNodeLeafChild(t, node, name, u2);
    assert Writable(c);
    AllWritableAppend(node.children, c);
    ParseNodeWritable(u3, AddChild(node, c));
  }

  /** A material parsed into a fresh file is written and parsed again to
      the same material. */
  lemma ReparseParsed(content: string)
    requires Parse(EmptyFile(), content).1
    ensures var f := Parse(EmptyFile(), content).0;
      Parse(EmptyFile(), WriteFile(f.shader, f.root.children)) == (f, true)
  {
    var f := Parse(EmptyFile(), content).0;
    ParsedRootWritable(content);
    ParseWrittenFile(f.shader, f.root.children);
  }

  /** The root of a successful parse into a fresh file is named after the
      shader, has no value, and only writable children. */
  lemma ParsedRootWritable(content: string)
    requires Parse(EmptyFile(), content).1
    ensures var f := Parse(EmptyFile(), content).0;
      |f.shader| > 0 && f.root == Node(f.shader, "", f.root.children) && AllWritable(f.root.children)
  {
    var (shader, u1) := ReadToken(SkipWs(content));
    ReadTokenAfterSkip(content);
    var u2 := SkipWs(u1);
    ParseNodeWritable(u2[1..], SetName(EmptyFile().root, shader));
  }

  lemma {:induction false} AllWritableAt(cs: seq<Node>, i: nat)
    requires AllWritable(cs) && i < |cs|
    ensures Writable(cs[i])
    decreases i
  {
    if i > 0 {
      AllWritableAt(cs[1..], i - 1);
    }
  }
}
