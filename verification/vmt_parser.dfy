/** `VMTParser`: the viewer's wrapper around a material. It owns a
    `VMTFile` from construction on, so its "loaded" test never fails, and
    it offers the shader name, the base texture, a case-insensitive
    single-parameter lookup and a flattened name-to-value map of the
    root's children. */
module VmtParser {
  import opened Bytes
  import opened Vmt
  import VmtWrite

  /** The parser's state: the material it owns (`vmtFile_`, allocated by
      the constructor and never released before the parser). */
  datatype Parser = Parser(file: VmtFile)

  /** A constructed parser holds an empty material. */
  function NewParser(): (p: Parser)
    ensures p.file.shader == "" && p.file.root == NewNode("")
  {
    Parser(EmptyFile())
  }

  /** `loadFile` over the text already read: parse into the owned material. */
  function LoadText(p: Parser, content: string): (r: (Parser, bool))
    ensures r.1 == Parse(p.file, content).1 && r.0.file == Parse(p.file, content).0
  {
    var (f, ok) := Parse(p.file, content);
    (Parser(f), ok)
  }

  /** `VMTFile::GetRoot`: the address of the root member, never null. */
  function GetRoot(f: VmtFile): (r: Option<Node>)
    ensures r.Some? && r.value == f.root
  {
    Some(f.root)
  }

  /** `isLoaded`: the owned material exists and its root is not null,
      which always holds, whether or not a load succeeded. */
  function IsLoaded(p: Parser): (r: bool)
    ensures r
  {
    GetRoot(p.file).Some?
  }

  /** `getShader`: the stored shader name (empty on a fresh parser, and the
      first token even after a failed parse). */
  function GetShader(p: Parser): (r: string)
    ensures r == p.file.shader
  {
    if !IsLoaded(p) then "" else p.file.shader
  }

  /** `getBaseTexture`: the material's base texture, "" when absent. */
  function GetBaseTexture(p: Parser): (r: string)
    ensures (forall j :: 0 <= j < |p.file.root.children| ==> !SameName(p.file.root.children[j].name, "$basetexture")) ==> r == ""
    ensures forall i :: (0 <= i < |p.file.root.children| && SameName(p.file.root.children[i].name, "$basetexture") &&
      (forall j :: 0 <= j < i ==> !SameName(p.file.root.children[j].name, "$basetexture"))) ==>
        r == p.file.root.children[i].value
  {
    if !IsLoaded(p) then "" else Vmt.GetBaseTexture(p.file)
  }

  /** `getParameter`: the value of the first root child whose name matches
      ignoring case, "" when there is none. */
  function GetParameter(p: Parser, name: string): (r: string)
    ensures (forall j :: 0 <= j < |p.file.root.children| ==> !SameName(p.file.root.children[j].name, name)) ==> r == ""
    ensures forall i :: (0 <= i < |p.file.root.children| && SameName(p.file.root.children[i].name, name) &&
      (forall j :: 0 <= j < i ==> !SameName(p.file.root.children[j].name, name))) ==>
        r == p.file.root.children[i].value
  {
    if !IsLoaded(p) then ""
    else
      match FindChild(GetRoot(p.file).value, name)
      case Some(i) => p.file.root.children[i].value
      case None => ""
  }

  /** `getBaseTexture` is `getParameter("$basetexture")`. */
  lemma BaseTextureIsParameter(p: Parser)
    ensures GetBaseTexture(p) == GetParameter(p, "$basetexture")
  {
  }

  /** A missing parameter and a parameter whose value is empty read the
      same. */
  lemma AbsentLooksEmpty(shader: string)
    ensures var absent := Parser(VmtFile(Node(shader, "", []), shader));
      var empty := Parser(VmtFile(Node(shader, "", [Node("$surfaceprop", "", [])]), shader));
      GetParameter(absent, "$surfaceprop") == GetParameter(empty, "$surfaceprop") == ""
  {
  }

  // ---------------------------------------------------------------------
  // The flattened parameter map

  /** Child `i` is the last child spelled exactly like it. */
  predicate LastOfName(cs: seq<Node>, i: nat, n: nat)
    requires i < n <= |cs|
  {
    forall j :: i < j < n ==> cs[j].name != cs[i].name
  }

  /** `m` maps the exact name of every one of the first `n` children, and
      nothing else, to the value of the last child so named. */
  ghost predicate IsParameterMap(cs: seq<Node>, n: nat, m: map<string, string>)
    requires n <= |cs|
  {
    (forall k :: k in m <==> exists i :: 0 <= i < n && cs[i].name == k) &&
    (forall i :: 0 <= i < n && LastOfName(cs, i, n) ==> cs[i].name in m && m[cs[i].name] == cs[i].value)
  }

  /** The parameter map of a list of children is unique. */
  lemma ParameterMapUnique(cs: seq<Node>, m: map<string, string>, m': map<string, string>)
    requires IsParameterMap(cs, |cs|, m) && IsParameterMap(cs, |cs|, m')
    ensures m == m'
  {
    forall k | k in m
      ensures k in m' && m[k] == m'[k]
    {
      var i :| 0 <= i < |cs| && cs[i].name == k;
      var last := LastIndexOf(cs, i);
      assert LastOfName(cs, last, |cs|);
    }
  }

  /** The last child spelled like child `i`. */
  lemma LastIndexOf(cs: seq<Node>, i: nat) returns (last: nat)
    requires i < |cs|
    ensures i <= last < |cs| && cs[last].name == cs[i].name && LastOfName(cs, last, |cs|)
    decreases |cs| - i
  {
    if LastOfName(cs, i, |cs|) {
      last := i;
    } else {
      var j :| i < j < |cs| && cs[j].name == cs[i].name;
      last := LastIndexOf(cs, j);
    }
  }

  /** `extractParameters`: each root child in turn sets the entry under its
      exact name to its value, so a later child overwrites an earlier one
      spelled the same. */
  method ExtractParameters(root: Node) returns (params: map<string, string>)
    ensures IsParameterMap(root.children, |root.children|, params)
  {
    var cs := root.children;
    params := map[];
    var n := 0;
    while n < |cs|
      invariant n <= |cs|
      invariant forall k :: k in params <==> exists i :: 0 <= i < n && cs[i].name == k
      invariant forall i :: 0 <= i < n && LastOfName(cs, i, n) ==> cs[i].name in params && params[cs[i].name] == cs[i].value
    {
      params := params[cs[n].name := cs[n].value];
      n := n + 1;
    }
  }

  /** `getAllParameters`: the flattened map of the root's children. */
  method GetAllParameters(p: Parser) returns (params: map<string, string>)
    ensures IsParameterMap(p.file.root.children, |p.file.root.children|, params)
  {
    if !IsLoaded(p) {
      return map[];
    }
    params := ExtractParameters(GetRoot(p.file).value);
  }

  /** The map's keys keep their case: two children spelled `$BaseTexture`
      and `$basetexture` give two entries. */
  lemma KeysAreCaseSensitive(m: map<string, string>)
    requires IsParameterMap([Node("$BaseTexture", "a", []), Node("$basetexture", "b", [])], 2, m)
    ensures m == map["$BaseTexture" := "a", "$basetexture" := "b"]
  {
    var cs := [Node("$BaseTexture", "a", []), Node("$basetexture", "b", [])];
    var m' := map["$BaseTexture" := "a", "$basetexture" := "b"];
    assert "$BaseTexture" != "$basetexture" by {
      assert "$BaseTexture"[1] != "$basetexture"[1];
    }
    assert LastOfName(cs, 0, 2) && LastOfName(cs, 1, 2);
    assert IsParameterMap(cs, 2, m');
    ParameterMapUnique(cs, m, m');
  }

  /** ... while `getParameter` ignores case: looking up `$basetexture`
      on the same children finds the first of the two. */
  lemma LookupIgnoresCase()
    ensures var p := Parser(VmtFile(Node("s", "", [Node("$BaseTexture", "a", []), Node("$basetexture", "b", [])]), "s"));
      GetParameter(p, "$basetexture") == "a"
  {
    assert Lower("$BaseTexture") == Lower("$basetexture") by {
      assert Lower("$BaseTexture") == "$basetexture";
      assert Lower("$basetexture") == "$basetexture";
    }
  }

  /** Repeated exact names: the last value wins. */
  lemma LastValueWins(m: map<string, string>)
    requires IsParameterMap([Node("$alpha", "0", []), Node("$alpha", "1", [])], 2, m)
    ensures m == map["$alpha" := "1"]
  {
    var cs := [Node("$alpha", "0", []), Node("$alpha", "1", [])];
    assert LastOfName(cs, 1, 2);
    assert IsParameterMap(cs, 2, map["$alpha" := "1"]);
    ParameterMapUnique(cs, m, map["$alpha" := "1"]);
  }

  /** After a successful load into a fresh parser, a child holding a
      nested block has no value, so its entry in the map is "". */
  lemma BlocksMapToEmpty(content: string, m: map<string, string>)
    requires LoadText(NewParser(), content).1
    requires var cs := LoadText(NewParser(), content).0.file.root.children; IsParameterMap(cs, |cs|, m)
    ensures var cs := LoadText(NewParser(), content).0.file.root.children;
      forall i :: 0 <= i < |cs| && |cs[i].children| > 0 && LastOfName(cs, i, |cs|) ==> m[cs[i].name] == ""
  {
    var cs := LoadText(NewParser(), content).0.file.root.children;
    VmtWrite.ParsedRootWritable(content);
    forall i | 0 <= i < |cs| && |cs[i].children| > 0 && LastOfName(cs, i, |cs|)
      ensures m[cs[i].name] == ""
    {
      VmtWrite.AllWritableAt(cs, i);
    }
  }
}
