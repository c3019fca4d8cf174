/** `VMTFile` and `VMTNode`: a material is a KeyValues-style text, a shader
    name followed by a brace-enclosed list of `name value` pairs and named
    sub-blocks. The parser is a cursor over the text; here the cursor is
    the unread remainder of the text, so "the position never decreases and
    never passes the end" reads "the remainder is a suffix of the input". */
module Vmt {
  import opened Bytes

  // ---------------------------------------------------------------------
  // The node tree (`VMTNode`)

  /** A node: its name, its value (empty for a block) and its children in
      insertion order. */
  datatype Node = Node(name: string, value: string, children: seq<Node>)

  /** `VMTNode(name)`: a node with no value and no children. */
  function NewNode(name: string): (n: Node)
    ensures n.name == name && n.value == "" && |n.children| == 0
  {
    Node(name, "", [])
  }

  function SetName(n: Node, name: string): (r: Node)
    ensures r.name == name && r.value == n.value && r.children == n.children
  {
    n.(name := name)
  }

  function SetValue(n: Node, value: string): (r: Node)
    ensures r.value == value && r.name == n.name && r.children == n.children
  {
    n.(value := value)
  }

  /** `AddChild`: a copy of `c` goes after the existing children. */
  function AddChild(n: Node, c: Node): (r: Node)
    ensures r.name == n.name && r.value == n.value
    ensures |r.children| == |n.children| + 1 && r.children[|n.children|] == c
    ensures r.children[..|n.children|] == n.children
  {
    n.(children := n.children + [c])
  }

  /** A setter only changes its own field: setting one never disturbs what
      the other getter returns, the last value set wins, and the two
      setters commute. */
  lemma SettersIndependent(n: Node, a: string, b: string)
    ensures SetName(SetName(n, a), b) == SetName(n, b)
    ensures SetValue(SetValue(n, a), b) == SetValue(n, b)
    ensures SetName(SetValue(n, a), b) == SetValue(SetName(n, b), a)
    ensures SetName(n, n.name) == n && SetValue(n, n.value) == n
  {
  }

  /** Adding children one after another lists them in the order added. */
  lemma {:induction false} AddChildrenInOrder(n: Node, cs: seq<Node>)
    ensures AddAll(n, cs).children == n.children + cs
    ensures AddAll(n, cs).name == n.name && AddAll(n, cs).value == n.value
    decreases |cs|
  {
    if |cs| > 0 {
      AddChildrenInOrder(AddChild(n, cs[0]), cs[1..]);
      assert n.children + [cs[0]] + cs[1..] == n.children + cs;
    }
  }

  /** `AddChild` applied to each of `cs` in turn. */
  function AddAll(n: Node, cs: seq<Node>): Node
    decreases |cs|
  {
    if |cs| == 0 then n else AddAll(AddChild(n, cs[0]), cs[1..])
  }

  // ---------------------------------------------------------------------
  // The cursor

  /** `r` is what is left of `t` after reading some of it. */
  predicate IsSuffix(r: string, t: string) {
    |r| <= |t| && r == t[|t| - |r|..]
  }

  lemma SuffixTrans(a: string, b: string, c: string)
    requires IsSuffix(a, b) && IsSuffix(b, c)
    ensures IsSuffix(a, c)
  {
    assert c[|c| - |b|..][|b| - |a|..] == c[|c| - |a|..];
  }

  lemma SuffixOfTail(t: string, k: nat)
    requires k <= |t|
    ensures IsSuffix(t[k..], t)
  {
  }

  /** `std::isspace` in the "C" locale: space, tab, line feed, vertical tab,
      form feed and carriage return. */
  predicate IsSpace(c: char) {
    c == ' ' || c == '\t' || c == '\n' || c == '\r' || c as int == 0x0B || c as int == 0x0C
  }

  /** The text starts a `//` comment. */
  predicate CommentStart(t: string) {
    |t| >= 2 && t[0] == '/' && t[1] == '/'
  }

  /** The inner loop of `SkipWhitespace`: everything up to, not including,
      the next line feed. */
  function SkipLine(t: string): (r: string)
    ensures |r| <= |t|
    ensures |r| == 0 || r[0] == '\n'
    ensures |t| > 0 && t[0] != '\n' ==> |r| < |t|
    decreases |t|
  {
    if |t| == 0 || t[0] == '\n' then t else SkipLine(t[1..])
  }

  /** The comment loop passes over exactly the characters before the next
      line feed. */
  lemma {:induction false} SkipLineSuffix(t: string)
    ensures IsSuffix(SkipLine(t), t)
    ensures forall i :: 0 <= i < |t| - |SkipLine(t)| ==> t[i] != '\n'
    decreases |t|
  {
    if |t| > 0 && t[0] != '\n' {
      var r := SkipLine(t[1..]);
      SkipLineSuffix(t[1..]);
      SuffixTrans(r, t[1..], t);
      assert forall i :: 1 <= i < |t| - |r| ==> t[i] == t[1..][i - 1];
    }
  }

  /** `SkipWhitespace`: white space and `//` comments are passed over; the
      remainder is empty or starts with neither. */
  function SkipWs(t: string): (r: string)
    ensures |r| <= |t|
    ensures |r| == 0 || (!IsSpace(r[0]) && !CommentStart(r))
    decreases |t|
  {
    if |t| == 0 then t
    else if IsSpace(t[0]) then SkipWs(t[1..])
    else if CommentStart(t) then SkipWs(SkipLine(t))
    else t
  }

  /** The cursor of `SkipWhitespace` never moves back and never passes the
      end of the text: what is left is a suffix of it. */
  lemma {:induction false} SkipWsSuffix(t: string)
    ensures IsSuffix(SkipWs(t), t)
    decreases |t|
  {
    if |t| > 0 && IsSpace(t[0]) {
      SkipWsSuffix(t[1..]);
      SuffixTrans(SkipWs(t[1..]), t[1..], t);
    } else if |t| > 0 && CommentStart(t) {
      SkipLineSuffix(t);
      SkipWsSuffix(SkipLine(t));
      SuffixTrans(SkipWs(SkipLine(t)), SkipLine(t), t);
    }
  }

  /** Skipping twice skips no more than skipping once, which is why
      `ReadToken` may skip again after `ParseNode` has. */
  lemma SkipWsIdempotent(t: string)
    ensures SkipWs(SkipWs(t)) == SkipWs(t)
  {
  }

  /** In a text without comments, exactly the leading white space is
      skipped. */
  lemma {:induction false} SkipWsWithoutComments(t: string)
    requires forall i :: 0 <= i < |t| ==> t[i] != '/'
    ensures var r := SkipWs(t);
      (forall i :: 0 <= i < |t| - |r| ==> IsSpace(t[i])) && (|r| == 0 || !IsSpace(r[0]))
    decreases |t|
  {
    if |t| > 0 && IsSpace(t[0]) {
      SkipWsWithoutComments(t[1..]);
      var r := SkipWs(t);
      forall i | 1 <= i < |t| - |r| ensures IsSpace(t[i]) {
        assert t[i] == t[1..][i - 1];
      }
    }
  }

  /** A comment runs to the end of its line: the text after `// ...` is
      read from the line feed on. */
  lemma SkipWsComment(c: string, rest: string)
    requires CommentStart(c) && forall i :: 0 <= i < |c| ==> c[i] != '\n'
    ensures SkipWs(c + "\n" + rest) == SkipWs(rest)
  {
    SkipLineStops(c, "\n" + rest);
    assert c + "\n" + rest == c + ("\n" + rest);
    assert ("\n" + rest)[1..] == rest;
  }

  lemma {:induction false} SkipLineStops(c: string, rest: string)
    requires forall i :: 0 <= i < |c| ==> c[i] != '\n'
    requires |rest| > 0 && rest[0] == '\n'
    ensures SkipLine(c + rest) == rest
    decreases |c|
  {
    if |c| > 0 {
      assert (c + rest)[1..] == c[1..] + rest;
      SkipLineStops(c[1..], rest);
    } else {
      assert c + rest == rest;
    }
  }

  // ---------------------------------------------------------------------
  // Tokens

  /** The loop of `ReadQuotedString` after the opening quote: a backslash
      that is not the last character is dropped and the character after it
      copied as it is; the loop stops at an unescaped quote or at the end.
      The remainder starts at that quote. */
  function QuotedBody(t: string): (r: (string, string))
    ensures |r.1| <= |t|
    ensures |r.1| == 0 || r.1[0] == '"'
    decreases |t|
  {
    if |t| == 0 || t[0] == '"' then ("", t)
    else if t[0] == '\\' && |t| >= 2 then
      var (s, rest) := QuotedBody(t[2..]);
      ([t[1]] + s, rest)
    else
      var (s, rest) := QuotedBody(t[1..]);
      ([t[0]] + s, rest)
  }

  lemma {:induction false} QuotedBodySuffix(t: string)
    ensures IsSuffix(QuotedBody(t).1, t)
    decreases |t|
  {
    if |t| > 0 && t[0] != '"' {
      var k := if t[0] == '\\' && |t| >= 2 then 2 else 1;
      QuotedBodySuffix(t[k..]);
      SuffixTrans(QuotedBody(t[k..]).1, t[k..], t);
    }
  }

  /** `ReadQuotedString`: nothing is read unless the text starts with a
      quote; the closing quote is consumed when there is one. */
  function ReadQuotedString(t: string): (r: (string, string))
    ensures |r.1| <= |t|
    ensures |t| > 0 && t[0] == '"' ==> |r.1| < |t|
    ensures !(|t| > 0 && t[0] == '"') ==> r == ("", t)
  {
    if |t| == 0 || t[0] != '"' then ("", t)
    else
      var (s, rest) := QuotedBody(t[1..]);
      if |rest| > 0 then (s, rest[1..]) else (s, rest)
  }

  lemma ReadQuotedStringSuffix(t: string)
    ensures IsSuffix(ReadQuotedString(t).1, t)
  {
    if |t| > 0 && t[0] == '"' {
      var rest := QuotedBody(t[1..]).1;
      QuotedBodySuffix(t[1..]);
      SuffixTrans(rest, t[1..], t);
      if |rest| > 0 {
        SuffixTrans(rest[1..], rest, t);
      }
    }
  }

  /** The quoted-string reader on an unterminated string: every character
      up to the end is copied, and the remainder is empty. */
  lemma {:induction false} UnterminatedRunsToEnd(s: string)
    requires forall i :: 0 <= i < |s| ==> s[i] != '"' && s[i] != '\\'
    ensures QuotedBody(s) == (s, "")
    decreases |s|
  {
    if |s| > 0 {
      UnterminatedRunsToEnd(s[1..]);
      assert [s[0]] + s[1..] == s;
    }
  }

  /** A backslash as the last character of the text has nothing to escape
      and is kept: an unterminated string ending in one reads to the end
      with the backslash in place. */
  lemma {:induction false} TrailingBackslashKept(s: string)
    requires forall i :: 0 <= i < |s| ==> s[i] != '"' && s[i] != '\\'
    ensures QuotedBody(s + "\\") == (s + "\\", "")
    decreases |s|
  {
    var t := s + "\\";
    if |s| > 0 {
      assert t[0] == s[0] && s[0] != '"' && s[0] != '\\';
      assert t[1..] == s[1..] + "\\";
      TrailingBackslashKept(s[1..]);
      assert QuotedBody(t[1..]) == (s[1..] + "\\", "");
      assert QuotedBody(t).0 == [t[0]] + QuotedBody(t[1..]).0;
      assert QuotedBody(t).1 == QuotedBody(t[1..]).1;
      assert [s[0]] + (s[1..] + "\\") == t;
    } else {
      assert t == "\\" && |t| == 1;
      assert QuotedBody(t[1..]) == ("", "");
      assert QuotedBody(t) == ([t[0]] + QuotedBody(t[1..]).0, QuotedBody(t[1..]).1);
      assert [t[0]] + "" == t;
    }
  }

  /** The same through the reader: an opening quote, then text free of
      quotes and backslashes, then a final backslash reads to the end. */
  lemma UnterminatedTrailingBackslash(s: string)
    requires forall i :: 0 <= i < |s| ==> s[i] != '"' && s[i] != '\\'
    ensures ReadQuotedString("\"" + s + "\\") == (s + "\\", "")
  {
    TrailingBackslashKept(s);
    assert ("\"" + s + "\\")[1..] == s + "\\";
  }

  /** A backslash followed by any character, a quote included, copies that
      character and reading goes on after it. */
  lemma EscapeCopies(c: char, t: string)
    ensures QuotedBody(['\\', c] + t) == ([c] + QuotedBody(t).0, QuotedBody(t).1)
  {
    assert (['\\', c] + t)[2..] == t;
  }

  /** A backslash as the last character has nothing to escape and is kept;
      an escaped quote is copied and does not end the string. */
  lemma EscapeEdgeCases()
    ensures ReadQuotedString("\"a\\") == ("a\\", "")
    ensures ReadQuotedString("\"\\\"\" x") == ("\"", " x")
  {
    assert "\"a\\"[1..] == "a\\";
    assert "a\\"[1..] == "\\";
    assert "\\"[1..] == "";
    assert QuotedBody("") == ("", "");
    assert ['\\'] + "" == "\\";
    assert QuotedBody("\\") == ("\\", "");
    assert ['a'] + "\\" == "a\\";
    assert QuotedBody("a\\") == ("a\\", "");
    assert "\"\\\"\" x"[1..] == "\\\"\" x";
    assert "\\\"\" x"[2..] == "\" x";
    assert QuotedBody("\" x") == ("", "\" x");
    assert "\\\"\" x"[1] == '"';
    assert ['"'] + "" == "\"";
    assert QuotedBody("\\\"\" x") == ("\"", "\" x");
    assert "\" x"[1..] == " x";
  }

  /** A character that may appear in a bare token. */
  predicate TokenChar(c: char) {
    !IsSpace(c) && c != '{' && c != '}'
  }

  /** The bare-token loop of `ReadToken`: the longest prefix of token
      characters, possibly empty. */
  function BareRun(t: string): (r: (string, string))
    ensures |r.0| + |r.1| == |t|
    ensures forall i :: 0 <= i < |r.0| ==> TokenChar(r.0[i])
    ensures |r.1| == 0 || !TokenChar(r.1[0])
    decreases |t|
  {
    if |t| == 0 || !TokenChar(t[0]) then ("", t)
    else
      var (s, rest) := BareRun(t[1..]);
      ([t[0]] + s, rest)
  }

  /** The bare run and the remainder put together are the text. */
  lemma {:induction false} BareRunSplits(t: string)
    ensures BareRun(t).0 + BareRun(t).1 == t
    decreases |t|
  {
    if |t| > 0 && TokenChar(t[0]) {
      var p := BareRun(t[1..]);
      BareRunSplits(t[1..]);
      assert BareRun(t) == ([t[0]] + p.0, p.1);
      assert ([t[0]] + p.0) + p.1 == [t[0]] + t[1..] == t;
    }
  }

  lemma BareRunSuffix(t: string)
    ensures IsSuffix(BareRun(t).1, t)
  {
    var (w, rest) := BareRun(t);
    BareRunSplits(t);
    assert t[|t| - |rest|..] == (w + rest)[|w|..];
  }

  /** `ReadToken`: after white space, "" at the end of the text, a quoted
      string at a quote, otherwise a bare run. A non-empty token always
      consumes input. */
  function ReadToken(t: string): (r: (string, string))
    ensures |r.1| <= |t|
    ensures |r.0| > 0 ==> |r.1| < |t|
  {
    var u := SkipWs(t);
    if |u| == 0 then ("", u)
    else if u[0] == '"' then ReadQuotedString(u)
    else BareRun(u)
  }

  /** The cursor of `ReadToken` never moves back and never passes the end. */
  lemma ReadTokenSuffix(t: string)
    ensures IsSuffix(ReadToken(t).1, t)
  {
    var u := SkipWs(t);
    SkipWsSuffix(t);
    if |u| > 0 && u[0] == '"' {
      ReadQuotedStringSuffix(u);
      SuffixTrans(ReadToken(t).1, u, t);
    } else if |u| > 0 {
      BareRunSuffix(u);
      SuffixTrans(ReadToken(t).1, u, t);
    }
  }

  /** The three outcomes of `ReadToken`, stated on what follows the white
      space: the end of the text, a quoted string, or a bare word that is
      exactly the run of token characters. */
  lemma ReadTokenCases(t: string)
    ensures |SkipWs(t)| == 0 ==> ReadToken(t) == ("", [])
    ensures |SkipWs(t)| > 0 && SkipWs(t)[0] == '"' ==> ReadToken(t) == ReadQuotedString(SkipWs(t))
    ensures |SkipWs(t)| > 0 && SkipWs(t)[0] != '"' ==>
      ReadToken(t).0 + ReadToken(t).1 == SkipWs(t) &&
      (forall i :: 0 <= i < |ReadToken(t).0| ==> TokenChar(ReadToken(t).0[i])) &&
      (|ReadToken(t).1| == 0 || !TokenChar(ReadToken(t).1[0]))
  {
    var u := SkipWs(t);
    if |u| > 0 && u[0] != '"' {
      BareRunSplits(u);
    }
  }

  // ---------------------------------------------------------------------
  // Parsing

  /** `ParseNode`: reads `name value` pairs and `name { ... }` blocks into
      the children of `node` until a closing brace (consumed), the end of
      the text, or an empty name (an empty quoted string, which is
      consumed, or a stray brace, which is not). A block child has an empty
      value and the children of its own recursive parse. Every turn of the
      loop that goes on reads a non-empty name, so the remainder shrinks. */
  function ParseNode(t: string, node: Node): (r: (Node, string))
    ensures |r.1| <= |t|
    decreases |t|
  {
    if |t| == 0 then (node, t)
    else
      var u := SkipWs(t);
      if |u| == 0 then (node, u)
      else if u[0] == '}' then (node, u[1..])
      else
        var (name, u1) := ReadToken(u);
        if |name| == 0 then (node, u1)
        else
          var u2 := SkipWs(u1);
          if |u2| > 0 && u2[0] == '{' then
            var (child, u3) := ParseNode(u2[1..], NewNode(name));
            ParseNode(u3, AddChild(node, child))
          else
            var (value, u3) := ReadToken(u2);
            ParseNode(u3, AddChild(node, SetValue(NewNode(name), value)))
  }

  /** The cursor of `ParseNode` never moves back and never passes the end:
      what is left is a suffix of the text. */
  lemma {:induction false} ParseNodeSuffix(t: string, node: Node)
    ensures IsSuffix(ParseNode(t, node).1, t)
    decreases |t|, 1
  {
    if |t| > 0 {
      var u := SkipWs(t);
      SkipWsSuffix(t);
      if |u| > 0 && u[0] == '}' {
        SuffixTrans(u[1..], u, t);
      } else if |u| > 0 {
        var (name, u1) := ReadToken(u);
        ReadTokenSuffix(u);
        SuffixTrans(u1, u, t);
        if |name| > 0 {
          var u2 := SkipWs(u1);
          SkipWsSuffix(u1);
          SuffixTrans(u2, u1, t);
          if |u2| > 0 && u2[0] == '{' {
            ParseNodeSuffixBlock(t, node, name, u2);
          } else {
            ParseNodeSuffixLeaf(t, node, name, u2);
          }
        }
      }
    }
  }

  /** The child that is read next, when the text goes on with a name. */
  predicate EntryAt(t: string, name: string, u2: string) {
    var u := SkipWs(t);
    |u| > 0 && u[0] != '}' && name == ReadToken(u).0 && |name| > 0 && u2 == SkipWs(ReadToken(u).1)
  }

  lemma {:induction false} ParseNodeSuffixBlock(t: string, node: Node, name: string, u2: string)
    requires |t| > 0 && EntryAt(t, name, u2) && IsSuffix(u2, t) && |u2| > 0 && u2[0] == '{'
    ensures IsSuffix(ParseNode(t, node).1, t)
    decreases |t|, 0
  {
    var (child, u3) := ParseNode(u2[1..], NewNode(name));
    ParseNodeSuffix(u2[1..], NewNode(name));
    SuffixTrans(u2[1..], u2, t);
    SuffixTrans(u3, u2[1..], t);
    ParseNodeSuffix(u3, AddChild(node, child));
    SuffixTrans(ParseNode(u3, AddChild(node, child)).1, u3, t);
  }

  lemma {:induction false} ParseNodeSuffixLeaf(t: string, node: Node, name: string, u2: string)
    requires |t| > 0 && EntryAt(t, name, u2) && IsSuffix(u2, t) && !(|u2| > 0 && u2[0] == '{')
    ensures IsSuffix(ParseNode(t, node).1, t)
    decreases |t|, 0
  {
    var (value, u3) := ReadToken(u2);
    ReadTokenSuffix(u2);
    SuffixTrans(u3, u2, t);
    var c := SetValue(NewNode(name), value);
    ParseNodeSuffix(u3, AddChild(node, c));
    SuffixTrans(ParseNode(u3, AddChild(node, c)).1, u3, t);
  }

  /** A name followed by `{`: the child gets that name, an empty value and
      the children of a recursive parse of the block; it is appended and
      the loop goes on where the block's parse stopped. */
  lemma ParseNodeBlockChild(t: string, node: Node, name: string, u2: string)
    requires |t| > 0 && EntryAt(t, name, u2) && |u2| > 0 && u2[0] == '{'
    ensures var (child, u3) := ParseNode(u2[1..], NewNode(name));
      child.name == name && child.value == "" &&
      ParseNode(t, node) == ParseNode(u3, AddChild(node, child))
  {
    ParseNodeKeeps(u2[1..], NewNode(name));
  }

  /** A name followed by anything else: the next token is the child's
      value, the child has no children, and it is appended. */
  lemma ParseNodeLeafChild(t: string, node: Node, name: string, u2: string)
    requires |t| > 0 && EntryAt(t, name, u2) && !(|u2| > 0 && u2[0] == '{')
    ensures ParseNode(t, node) == ParseNode(ReadToken(u2).1, AddChild(node, Node(name, ReadToken(u2).0, [])))
  {
    assert SetValue(NewNode(name), ReadToken(u2).0) == Node(name, ReadToken(u2).0, []);
  }

  /** `ParseNode` only appends: the node keeps its name, its value and its
      existing children, in front of the new ones. */
  lemma {:induction false} ParseNodeKeeps(t: string, node: Node)
    ensures var r := ParseNode(t, node).0;
      r.name == node.name && r.value == node.value &&
      |node.children| <= |r.children| && r.children[..|node.children|] == node.children
    decreases |t|
  {
    if |t| > 0 {
      var u := SkipWs(t);
      if |u| > 0 && u[0] != '}' {
        var (name, u1) := ReadToken(u);
        if |name| > 0 {
          var u2 := SkipWs(u1);
          var c, u3;
          if |u2| > 0 && u2[0] == '{' {
            c, u3 := ParseNode(u2[1..], NewNode(name)).0, ParseNode(u2[1..], NewNode(name)).1;
          } else {
            c, u3 := SetValue(NewNode(name), ReadToken(u2).0), ReadToken(u2).1;
          }
          assert ParseNode(t, node) == ParseNode(u3, AddChild(node, c));
          ParseNodeKeeps(u3, AddChild(node, c));
          PrefixOfAdded(node, c, ParseNode(u3, AddChild(node, c)).0);
        }
      }
    }
  }

  lemma PrefixOfAdded(node: Node, c: Node, r: Node)
    requires |AddChild(node, c).children| <= |r.children|
    requires r.children[..|AddChild(node, c).children|] == AddChild(node, c).children
    ensures |node.children| <= |r.children| && r.children[..|node.children|] == node.children
  {
    assert r.children[..|node.children|] == r.children[..|node.children| + 1][..|node.children|];
  }

  /** The three ways the loop of `ParseNode` ends without adding a child:
      the end of the text, a closing brace (consumed), or an empty name
      (stopped after the empty token; a stray `{` reads as an empty bare
      token and is left unread). */
  lemma ParseNodeStops(t: string, node: Node)
    ensures |SkipWs(t)| == 0 ==> ParseNode(t, node) == (node, [])
    ensures |SkipWs(t)| > 0 && SkipWs(t)[0] == '}' ==> ParseNode(t, node) == (node, SkipWs(t)[1..])
    ensures |SkipWs(t)| > 0 && SkipWs(t)[0] == '{' ==> ParseNode(t, node) == (node, SkipWs(t))
    ensures |SkipWs(t)| > 0 && SkipWs(t)[0] != '}' && ReadToken(t).0 == "" ==>
      ParseNode(t, node) == (node, ReadToken(t).1)
  {
    var u := SkipWs(t);
    SkipWsIdempotent(t);
    if |u| > 0 && u[0] == '{' {
      assert BareRun(u) == ("", u);
    }
  }

  /** The state of a `VMTFile`: the root node and the shader name. */
  datatype VmtFile = VmtFile(root: Node, shader: string)

  /** A constructed `VMTFile`: an unnamed empty root and no shader. */
  function EmptyFile(): (f: VmtFile)
    ensures f.root == NewNode("") && f.shader == ""
  {
    VmtFile(NewNode(""), "")
  }

  /** `Parse`: the first token is the shader, stored even when parsing then
      fails; it must be non-empty and followed by `{`. On success the root
      takes the shader's name and the body's children are appended to the
      root's existing ones; a missing closing brace is not an error. A
      failed parse leaves the root alone. */
  function Parse(f: VmtFile, content: string): (r: (VmtFile, bool))
    ensures r.0.shader == ReadToken(content).0
    ensures r.1 <==> (|ReadToken(content).0| > 0 &&
      var u := SkipWs(ReadToken(content).1); |u| > 0 && u[0] == '{')
    ensures !r.1 ==> r.0.root == f.root
    ensures r.1 ==> (r.0.root.name == r.0.shader && r.0.root.value == f.root.value &&
      |f.root.children| <= |r.0.root.children| && r.0.root.children[..|f.root.children|] == f.root.children)
  {
    var (shader, u1) := ReadToken(SkipWs(content));
    ReadTokenAfterSkip(content);
    if |shader| == 0 then (f.(shader := shader), false)
    else
      var u2 := SkipWs(u1);
      if |u2| == 0 || u2[0] != '{' then (f.(shader := shader), false)
      else
        var (root, _) := ParseNode(u2[1..], SetName(f.root, shader));
        ParseNodeKeeps(u2[1..], SetName(f.root, shader));
        (VmtFile(root, shader), true)
  }

  /** `Parse` skips white space before calling `ReadToken`, which skips it
      again to no effect. */
  lemma ReadTokenAfterSkip(t: string)
    ensures ReadToken(SkipWs(t)) == ReadToken(t)
  {
    SkipWsIdempotent(t);
  }

  // ---------------------------------------------------------------------
  // Lookup

  /** `::tolower` in the "C" locale: only 'A' to 'Z' change. */
  function ToLower(c: char): (r: char)
    ensures !('A' <= r <= 'Z')
    ensures 'a' <= c <= 'z' || !('A' <= c <= 'Z') ==> r == c
  {
    if 'A' <= c <= 'Z' then (c as int + 32) as char else c
  }

  /** A string with every character passed through `ToLower`. */
  function Lower(s: string): (r: string)
    ensures |r| == |s| && forall i :: 0 <= i < |s| ==> r[i] == ToLower(s[i])
  {
    seq(|s|, i requires 0 <= i < |s| => ToLower(s[i]))
  }

  /** Lowering is idempotent and never changes a string without capitals. */
  lemma LowerIdempotent(s: string)
    ensures Lower(Lower(s)) == Lower(s)
    ensures (forall i :: 0 <= i < |s| ==> !('A' <= s[i] <= 'Z')) ==> Lower(s) == s
  {
  }

  /** Two names match when they agree after lowering. */
  predicate SameName(a: string, b: string) {
    Lower(a) == Lower(b)
  }

  /** `FindChild` from child `i` on. */
  function FindFrom(cs: seq<Node>, name: string, i: nat): (r: Option<nat>)
    requires i <= |cs|
    ensures r.Some? ==> (i <= r.value < |cs| && SameName(cs[r.value].name, name) &&
      forall j :: i <= j < r.value ==> !SameName(cs[j].name, name))
    ensures r.None? ==> forall j :: i <= j < |cs| ==> !SameName(cs[j].name, name)
    decreases |cs| - i
  {
    if i == |cs| then None
    else if Lower(cs[i].name) == Lower(name) then Some(i)
    else FindFrom(cs, name, i + 1)
  }

  /** `VMTNode::FindChild`: the index of the first immediate child whose
      name matches ignoring case, or none (the null pointer). */
  function FindChild(n: Node, name: string): (r: Option<nat>)
    ensures r.Some? ==> (r.value < |n.children| && SameName(n.children[r.value].name, name) &&
      forall j :: 0 <= j < r.value ==> !SameName(n.children[j].name, name))
    ensures r.None? ==> forall j :: 0 <= j < |n.children| ==> !SameName(n.children[j].name, name)
  {
    FindFrom(n.children, name, 0)
  }

  /** The lookup depends on the name only up to case. */
  lemma FindChildIgnoresCase(n: Node, a: string, b: string)
    requires SameName(a, b)
    ensures FindChild(n, a) == FindChild(n, b)
  {
    var ra, rb := FindChild(n, a), FindChild(n, b);
    if ra.Some? && rb.Some? {
      assert !(ra.value < rb.value) && !(rb.value < ra.value);
    }
  }

  /** Adding a child never changes a lookup that already succeeds, and a
      failed lookup finds the new child exactly when its name matches. */
  lemma FindChildAfterAdd(n: Node, c: Node, name: string)
    ensures FindChild(n, name).Some? ==> FindChild(AddChild(n, c), name) == FindChild(n, name)
    ensures FindChild(n, name).None? ==>
      FindChild(AddChild(n, c), name) == (if SameName(c.name, name) then Some(|n.children|) else None)
  {
    var r, r' := FindChild(n, name), FindChild(AddChild(n, c), name);
    var cs := AddChild(n, c).children;
    assert forall j :: 0 <= j < |n.children| ==> cs[j] == n.children[j];
    if r.Some? && r'.Some? {
      assert !(r.value < r'.value) && !(r'.value < r.value);
    }
  }

  /** `GetBaseTexture`: the value of the root's `$basetexture` child, found
      ignoring case, or "" when there is none. */
  function GetBaseTexture(f: VmtFile): (r: string)
    ensures (forall j :: 0 <= j < |f.root.children| ==> !SameName(f.root.children[j].name, "$basetexture")) ==> r == ""
    ensures forall i :: (0 <= i < |f.root.children| && SameName(f.root.children[i].name, "$basetexture") &&
      (forall j :: 0 <= j < i ==> !SameName(f.root.children[j].name, "$basetexture"))) ==>
        r == f.root.children[i].value
  {
    match FindChild(f.root, "$basetexture")
    case Some(i) => f.root.children[i].value
    case None => ""
  }
}
