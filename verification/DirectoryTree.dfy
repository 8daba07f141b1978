/** Paths and the directory tree: normalisation of a path into components,
    walking components, and printing a node's path. */
module DirectoryTree {
  import opened Options

  datatype Error = ENOTDIR | ENOENT
  datatype Result<+T> = Ok(value: T) | Err(error: Error)

  type Id = nat

  /** A node with its directory listing loaded; `father` is the weak pointer,
      empty at the root. */
  datatype Node = Node(name: string, father: Option<Id>, isDir: bool, children: map<string, Id>)

  datatype Tree = Tree(nodes: map<Id, Node>, root: Id)

  // ---------------------------------------------------------------------
  // Paths
  // ---------------------------------------------------------------------

  /** `path.split('/')`. */
  function Split(path: string): (parts: seq<string>)
    ensures |parts| >= 1
  {
    if path == "" then [""]
    else if path[0] == '/' then [""] + Split(path[1..])
    else var rest := Split(path[1..]); [[path[0]] + rest[0]] + rest[1..]
  }

  /** `parts.join("/")`. */
  function Join(parts: seq<string>): string
    requires parts != []
  {
    if |parts| == 1 then parts[0] else parts[0] + "/" + Join(parts[1..])
  }

  /** The parts hold no '/' and joined give the path. */
  lemma {:induction false} JoinSplit(path: string)
    ensures Join(Split(path)) == path && forall i :: 0 <= i < |Split(path)| ==> '/' !in Split(path)[i]
    decreases |path|
  {
    if path != "" {
      JoinSplit(path[1..]);
      var rest := Split(path[1..]);
      assert path == [path[0]] + path[1..];
      if path[0] == '/' {
        assert ([""] + rest)[1..] == rest;
      } else if |rest| > 1 {
        var parts := [[path[0]] + rest[0]] + rest[1..];
        assert parts[1..] == rest[1..];
        assert [path[0]] + (rest[0] + "/" + Join(rest[1..])) == ([path[0]] + rest[0]) + "/" + Join(rest[1..]);
      }
    }
  }

  /** One step of the fold in `parse_dir_path`, on its stack of components. */
  function Push(stack: seq<string>, part: string): seq<string> {
    if part == "" || part == "." then stack
    else if part == ".." then
      if stack == [] || stack[|stack| - 1] == ".." then stack + [part] else stack[..|stack| - 1]
    else stack + [part]
  }

  function Normal(parts: seq<string>): seq<string> {
    if parts == [] then [] else Push(Normal(parts[..|parts| - 1]), parts[|parts| - 1])
  }

  method ParseDirPath(path: string) returns (stack: seq<string>)
    ensures stack == Normal(Split(path))
  {
    stack := [];
    var parts := Split(path);
    var i := 0;
    while i < |parts|
      invariant i <= |parts| && stack == Normal(parts[..i])
    {
      var s := parts[i];
      if s == "" || s == "." {
      } else if s == ".." {
        if stack == [] || stack[|stack| - 1] == ".." {
          stack := stack + [s];
        } else {
          stack := stack[..|stack| - 1];
        }
      } else {
        stack := stack + [s];
      }
      assert parts[..i + 1][..i] == parts[..i];
      i := i + 1;
    }
    assert parts[..i] == parts;
  }

  predicate IsName(s: string) {
    s != "" && s != "." && s != ".."
  }

  /** Some ".." entries, then only names. */
  predicate InNormalForm(stack: seq<string>) {
    && (forall i :: 0 <= i < |stack| ==> IsName(stack[i]) || stack[i] == "..")
    && (forall i, j :: 0 <= i < j < |stack| && stack[j] == ".." ==> stack[i] == "..")
  }

  lemma PushForm(stack: seq<string>, part: string)
    requires InNormalForm(stack)
    ensures InNormalForm(Push(stack, part))
  {
  }

  lemma PushLast(stack: seq<string>, part: string)
    requires InNormalForm(stack + [part])
    ensures InNormalForm(stack) && Push(stack, part) == stack + [part]
  {
    var all := stack + [part];
    assert forall i :: 0 <= i < |stack| ==> stack[i] == all[i];
    assert all[|stack|] == part;
  }

  /** Normalisation always reaches normal form, and changes nothing exactly
      when it is already there. */
  lemma {:induction false} NormalForm(parts: seq<string>)
    ensures InNormalForm(Normal(parts))
    ensures Normal(parts) == parts <==> InNormalForm(parts)
  {
    if parts != [] {
      var front, last := parts[..|parts| - 1], parts[|parts| - 1];
      NormalForm(front);
      PushForm(Normal(front), last);
      assert parts == front + [last];
      if InNormalForm(parts) {
        PushLast(front, last);
      }
    }
  }

  // ---------------------------------------------------------------------
  // Walking
  // ---------------------------------------------------------------------

  ghost predicate WellFormed(t: Tree) {
    && t.root in t.nodes
    && (forall n {:trigger t.nodes[n].father} :: n in t.nodes && t.nodes[n].father.Some? ==> t.nodes[n].father.value in t.nodes)
    && (forall n, k {:trigger t.nodes[n].children[k]} :: n in t.nodes && k in t.nodes[n].children ==>
          t.nodes[n].children[k] in t.nodes && t.nodes[t.nodes[n].children[k]].father == Some(n))
  }

  /** Follow one component that is ".." or a name. */
  function Enter(t: Tree, n: Id, part: string): Result<Id>
    requires n in t.nodes
  {
    if part == ".." then
      if t.nodes[n].father.Some? then Ok(t.nodes[n].father.value) else Ok(n)
    else if !t.nodes[n].isDir then Err(ENOTDIR)
    else if part in t.nodes[n].children then Ok(t.nodes[n].children[part])
    else Err(ENOENT)
  }

  /** `cd_comp`: follow the components in order, stopping at the first error. */
  ghost function CdComp(t: Tree, n: Id, parts: seq<string>): (r: Result<Id>)
    requires WellFormed(t) && n in t.nodes
    ensures r.Ok? ==> r.value in t.nodes
    decreases |parts|
  {
    if parts == [] then Ok(n)
    else
      match CdComp(t, n, parts[..|parts| - 1])
      case Err(e) => Err(e)
      case Ok(m) => Enter(t, m, parts[|parts| - 1])
  }

  /** The meaning of a raw path: component by component, "" and "." stay. */
  ghost function RawWalk(t: Tree, n: Id, parts: seq<string>): (r: Result<Id>)
    requires WellFormed(t) && n in t.nodes
    ensures r.Ok? ==> r.value in t.nodes
    decreases |parts|
  {
    if parts == [] then Ok(n)
    else
      match RawWalk(t, n, parts[..|parts| - 1])
      case Err(e) => Err(e)
      case Ok(m) =>
        var part := parts[|parts| - 1];
        if part == "" || part == "." then Ok(m) else Enter(t, m, part)
  }

  /** One step: ".." goes to the father and stays where there is none; a name goes to
      the entry of that name in a directory. */
  ghost predicate StepTo(t: Tree, a: Id, part: string, b: Id) {
    && a in t.nodes && b in t.nodes
    && if part == ".." then (if t.nodes[a].father.Some? then b == t.nodes[a].father.value else b == a)
       else t.nodes[a].isDir && part in t.nodes[a].children && b == t.nodes[a].children[part]
  }

  /** The nodes met on the way, from n on. */
  ghost predicate Trail(t: Tree, n: Id, parts: seq<string>, trail: seq<Id>) {
    |trail| == |parts| + 1 && trail[0] == n && forall i :: 0 <= i < |parts| ==> StepTo(t, trail[i], parts[i], trail[i + 1])
  }

  /** A name cannot be followed: the node is no directory, or has no such entry. */
  ghost predicate Blocked(t: Tree, a: Id, part: string, e: Error) {
    && a in t.nodes && part != ".."
    && (!t.nodes[a].isDir ==> e == ENOTDIR)
    && (t.nodes[a].isDir ==> e == ENOENT && part !in t.nodes[a].children)
  }

  /** `cd_comp`: the nodes met lead to the result, or to the first component that
      cannot be followed and its error. */
  method WalkComponents(t: Tree, n: Id, parts: seq<string>) returns (r: Result<Id>, ghost trail: seq<Id>)
    requires WellFormed(t) && n in t.nodes
    ensures r == CdComp(t, n, parts)
    ensures r.Ok? ==> Trail(t, n, parts, trail) && trail[|parts|] == r.value
    ensures r.Err? ==>
      && 0 < |trail| <= |parts| && Trail(t, n, parts[..|trail| - 1], trail)
      && Blocked(t, trail[|trail| - 1], parts[|trail| - 1], r.error)
  {
    var current := n;
    trail := [n];
    var i := 0;
    while i < |parts|
      invariant i <= |parts| && current in t.nodes && CdComp(t, n, parts[..i]) == Ok(current)
      invariant Trail(t, n, parts[..i], trail) && trail[i] == current
    {
      assert parts[..i + 1][..i] == parts[..i];
      if parts[i] == ".." {
        if t.nodes[current].father.Some? {
          current := t.nodes[current].father.value;
        }
      } else {
        if !t.nodes[current].isDir {
          CdCompFails(t, n, parts, i + 1);
          return Err(ENOTDIR), trail;
        }
        if parts[i] !in t.nodes[current].children {
          CdCompFails(t, n, parts, i + 1);
          return Err(ENOENT), trail;
        }
        current := t.nodes[current].children[parts[i]];
      }
      trail := trail + [current];
      i := i + 1;
    }
    assert parts[..i] == parts;
    return Ok(current), trail;
  }

  /** An error on a prefix is the error of the whole walk. */
  lemma {:induction false} CdCompFails(t: Tree, n: Id, parts: seq<string>, k: nat)
    requires WellFormed(t) && n in t.nodes && k <= |parts| && CdComp(t, n, parts[..k]).Err?
    ensures CdComp(t, n, parts) == CdComp(t, n, parts[..k])
    decreases |parts|
  {
    if k == |parts| {
      assert parts[..k] == parts;
    } else {
      var front := parts[..|parts| - 1];
      assert front[..k] == parts[..k];
      CdCompFails(t, n, front, k);
    }
  }

  /** Every prefix of the path can be walked in normal form. */
  ghost predicate PrefixesWalk(t: Tree, n: Id, parts: seq<string>)
    requires WellFormed(t) && n in t.nodes
  {
    CdComp(t, n, Normal(parts)).Ok? && (parts != [] ==> PrefixesWalk(t, n, parts[..|parts| - 1]))
  }

  /** Normalisation preserves meaning: where the raw walk succeeds, the walk of
      the normal form reaches the same node; and the raw walk succeeds exactly
      when the normal form of every prefix of the path can be walked. */
  lemma {:induction false} NormalPreservesMeaning(t: Tree, n: Id, parts: seq<string>)
    requires WellFormed(t) && n in t.nodes
    ensures RawWalk(t, n, parts).Ok? ==> CdComp(t, n, Normal(parts)) == RawWalk(t, n, parts)
    ensures RawWalk(t, n, parts).Ok? <==> PrefixesWalk(t, n, parts)
    decreases |parts|
  {
    if parts != [] {
      var front, last := parts[..|parts| - 1], parts[|parts| - 1];
      NormalPreservesMeaning(t, n, front);
      if RawWalk(t, n, front).Ok? {
        PushPreservesMeaning(t, n, Normal(front), last);
      }
    }
  }

  /** Pushing one component on a stack that can be walked. */
  lemma PushPreservesMeaning(t: Tree, n: Id, stack: seq<string>, part: string)
    requires WellFormed(t) && n in t.nodes && CdComp(t, n, stack).Ok?
    ensures CdComp(t, n, Push(stack, part)) ==
              if part == "" || part == "." then CdComp(t, n, stack) else Enter(t, CdComp(t, n, stack).value, part)
  {
    assert (stack + [part])[..|stack|] == stack;
  }

  lemma NormalCancels(name: string)
    requires IsName(name)
    ensures Normal([name, ".."]) == []
  {
    assert [name, ".."][..1] == [name] && [name][..0] == [];
    assert Normal([]) == [] && Normal([name]) == Push([], name) == [name];
    assert Normal([name, ".."]) == Push([name], "..");
  }

  lemma RawNameFails(t: Tree, n: Id, name: string)
    requires WellFormed(t) && n in t.nodes && IsName(name) && Enter(t, n, name).Err?
    ensures RawWalk(t, n, [name, ".."]).Err?
  {
    assert [name, ".."][..1] == [name] && [name][..0] == [];
    assert RawWalk(t, n, [name]) == Enter(t, n, name);
  }

  /** The converse fails at every node: a name that is later cancelled need not
      exist. */
  lemma CancelledNameNeedNotExist(t: Tree, n: Id, name: string)
    requires WellFormed(t) && n in t.nodes && IsName(name) && Enter(t, n, name).Err?
    ensures RawWalk(t, n, [name, ".."]).Err? && CdComp(t, n, Normal([name, ".."])) == Ok(n)
  {
    NormalCancels(name);
    RawNameFails(t, n, name);
  }

  /** For instance in an empty root directory. */
  lemma CancelledInEmptyRoot()
    ensures var t := Tree(map[0 := Node("", None, true, map[])], 0);
      WellFormed(t) && RawWalk(t, 0, ["x", ".."]).Err? && CdComp(t, 0, Normal(["x", ".."])) == Ok(0)
  {
    CancelledNameNeedNotExist(Tree(map[0 := Node("", None, true, map[])], 0), 0, "x");
  }

  // ---------------------------------------------------------------------
  // get_cwd
  // ---------------------------------------------------------------------

  /** Father pointers lead to the root; `depth` witnesses that they end. */
  ghost predicate Rooted(t: Tree, depth: map<Id, nat>) {
    && WellFormed(t)
    && depth.Keys == t.nodes.Keys
    && (forall n {:trigger t.nodes[n].father} :: n in t.nodes && t.nodes[n].father.Some? ==> depth[t.nodes[n].father.value] < depth[n])
  }

  ghost function PathNames(t: Tree, depth: map<Id, nat>, n: Id): (names: seq<string>)
    requires Rooted(t, depth) && n in t.nodes
    ensures names != []
    decreases depth[n]
  {
    if t.nodes[n].father.None? then [t.nodes[n].name]
    else PathNames(t, depth, t.nodes[n].father.value) + [t.nodes[n].name]
  }

  ghost function Cwd(t: Tree, depth: map<Id, nat>, n: Id): string
    requires Rooted(t, depth) && n in t.nodes
  {
    var names := PathNames(t, depth, n);
    if |names| == 1 then "/" else Join(names)
  }

  function Reversed(s: seq<string>): (r: seq<string>)
    ensures |r| == |s|
  {
    if s == [] then [] else Reversed(s[1..]) + [s[0]]
  }

  lemma {:induction false} ReversedSnoc(s: seq<string>, x: string)
    ensures Reversed(s + [x]) == [x] + Reversed(s)
  {
    if s == [] {
      assert ([x])[1..] == [];
      assert s + [x] == [x];
    } else {
      assert (s + [x])[1..] == s[1..] + [x];
      ReversedSnoc(s[1..], x);
    }
  }

  method GetCwd(t: Tree, n: Id, ghost depth: map<Id, nat>) returns (path: string)
    requires Rooted(t, depth) && n in t.nodes
    ensures path == Cwd(t, depth, n)
  {
    var pathv: seq<string> := [];
    var current := n;
    while t.nodes[current].father.Some?
      invariant current in t.nodes
      invariant PathNames(t, depth, current) + Reversed(pathv) == PathNames(t, depth, n)
      decreases depth[current]
    {
      ReversedSnoc(pathv, t.nodes[current].name);
      pathv := pathv + [t.nodes[current].name];
      current := t.nodes[current].father.value;
    }
    ReversedSnoc(pathv, t.nodes[current].name);
    pathv := pathv + [t.nodes[current].name];
    pathv := Reversed(pathv);
    if |pathv| == 1 {
      return "/";
    } else {
      return Join(pathv);
    }
  }

  ghost function CdPath(t: Tree, n: Id, path: string): Result<Id>
    requires WellFormed(t) && n in t.nodes
  {
    CdComp(t, if path != "" && path[0] == '/' then t.root else n, Normal(Split(path)))
  }

  /** A path that begins with '/' is walked from the root, any other from the node
      itself, component by component, wherever that walk succeeds. */
  lemma CdPathMeaning(t: Tree, n: Id, path: string)
    requires WellFormed(t) && n in t.nodes
    ensures path != "" && path[0] == '/' && RawWalk(t, t.root, Split(path)).Ok? ==> CdPath(t, n, path) == RawWalk(t, t.root, Split(path))
    ensures (path == "" || path[0] != '/') && RawWalk(t, n, Split(path)).Ok? ==> CdPath(t, n, path) == RawWalk(t, n, Split(path))
  {
    NormalPreservesMeaning(t, t.root, Split(path));
    NormalPreservesMeaning(t, n, Split(path));
  }

  /** `cd_path`. */
  method ChangeDir(t: Tree, n: Id, path: string) returns (r: Result<Id>)
    requires WellFormed(t) && n in t.nodes
    ensures r == CdPath(t, n, path)
    ensures path != "" && path[0] == '/' && RawWalk(t, t.root, Split(path)).Ok? ==> r == RawWalk(t, t.root, Split(path))
    ensures (path == "" || path[0] != '/') && RawWalk(t, n, Split(path)).Ok? ==> r == RawWalk(t, n, Split(path))
  {
    CdPathMeaning(t, n, path);
    var components := ParseDirPath(path);
    var start := n;
    if path != "" && path[0] == '/' {
      start := t.root;
    }
    ghost var trail;
    r, trail := WalkComponents(t, start, components);
  }

  /** Every node but the root is listed in its father under its own name, and
      that name is an ordinary file name. */
  ghost predicate NamesMatchKeys(t: Tree) {
    && (forall n {:trigger t.nodes[n].father} :: n in t.nodes && t.nodes[n].father.None? ==> n == t.root && t.nodes[n].name == "")
    && (forall n {:trigger t.nodes[n].father} :: n in t.nodes && t.nodes[n].father.Some? && t.nodes[n].father.value in t.nodes ==>
          var f := t.nodes[t.nodes[n].father.value];
          f.isDir && t.nodes[n].name in f.children && f.children[t.nodes[n].name] == n)
    && (forall n {:trigger t.nodes[n].father} :: n in t.nodes && t.nodes[n].father.Some? ==>
          IsName(t.nodes[n].name) && '/' !in t.nodes[n].name)
  }

  lemma {:induction false} SplitName(name: string, rest: string)
    requires '/' !in name
    ensures Split(name + "/" + rest) == [name] + Split(rest)
    ensures Split(name) == [name]
    decreases |name|
  {
    if name == "" {
      assert name + "/" + rest == "/" + rest;
      assert ("/" + rest)[1..] == rest;
    } else {
      assert (name + "/" + rest)[1..] == name[1..] + "/" + rest;
      SplitName(name[1..], rest);
      assert [name[0]] + name[1..] == name;
    }
  }

  lemma {:induction false} SplitJoin(parts: seq<string>)
    requires parts != [] && forall i :: 0 <= i < |parts| ==> '/' !in parts[i]
    ensures Split(Join(parts)) == parts
    decreases |parts|
  {
    if |parts| == 1 {
      SplitName(parts[0], "");
    } else {
      SplitJoin(parts[1..]);
      SplitName(parts[0], Join(parts[1..]));
      assert Join(parts) == parts[0] + "/" + Join(parts[1..]);
      assert parts == [parts[0]] + parts[1..];
    }
  }

  lemma NormalSnoc(front: seq<string>, x: string)
    requires front != [] && Normal(front) == front[1..] && IsName(x)
    ensures Normal(front + [x]) == (front + [x])[1..]
  {
    assert (front + [x])[..|front|] == front;
  }

  /** A node's path names: the root's empty one, then ordinary names, which
      normalisation keeps. */
  lemma {:induction false} NamesAreNormal(t: Tree, depth: map<Id, nat>, n: Id)
    requires Rooted(t, depth) && NamesMatchKeys(t) && n in t.nodes
    ensures var names := PathNames(t, depth, n);
      && names[0] == ""
      && (forall i :: 0 <= i < |names| ==> '/' !in names[i])
      && Normal(names) == names[1..]
    decreases depth[n]
  {
    if t.nodes[n].father.Some? {
      var f := t.nodes[n].father.value;
      NamesAreNormal(t, depth, f);
      NormalSnoc(PathNames(t, depth, f), t.nodes[n].name);
    } else {
      assert Normal([""]) == Normal([""][..0]);
    }
  }

  lemma CdCompSnoc(t: Tree, n: Id, parts: seq<string>, part: string)
    requires WellFormed(t) && n in t.nodes && CdComp(t, n, parts).Ok?
    ensures CdComp(t, n, parts + [part]) == Enter(t, CdComp(t, n, parts).value, part)
  {
    assert (parts + [part])[..|parts|] == parts;
  }

  lemma SnocTail(front: seq<string>, x: string)
    requires front != []
    ensures (front + [x])[1..] == front[1..] + [x]
  {
  }

  lemma EnterByName(t: Tree, n: Id)
    requires WellFormed(t) && NamesMatchKeys(t) && n in t.nodes && t.nodes[n].father.Some?
    ensures Enter(t, t.nodes[n].father.value, t.nodes[n].name) == Ok(n)
  {
  }

  /** Walking a node's own path names, without the root's empty one, leads to it. */
  lemma {:induction false} NamesLeadToNode(t: Tree, depth: map<Id, nat>, n: Id)
    requires Rooted(t, depth) && NamesMatchKeys(t) && n in t.nodes
    ensures CdComp(t, t.root, PathNames(t, depth, n)[1..]) == Ok(n)
    ensures |PathNames(t, depth, n)| == 1 ==> n == t.root
    decreases depth[n]
  {
    if t.nodes[n].father.Some? {
      EnterByName(t, n);
      var f := t.nodes[n].father.value;
      NamesLeadToNode(t, depth, f);
      var front := PathNames(t, depth, f);
      SnocTail(front, t.nodes[n].name);
      CdCompSnoc(t, t.root, front[1..], t.nodes[n].name);
    }
  }

  /** The path printed for a node leads back to that node, from anywhere. */
  lemma CwdRoundTrip(t: Tree, depth: map<Id, nat>, n: Id, start: Id)
    requires Rooted(t, depth) && NamesMatchKeys(t) && n in t.nodes && start in t.nodes
    ensures CdPath(t, start, Cwd(t, depth, n)) == Ok(n)
  {
    NamesAreNormal(t, depth, n);
    NamesLeadToNode(t, depth, n);
    var names := PathNames(t, depth, n);
    if |names| == 1 {
      assert Split("/") == ["", ""] by { assert "/"[1..] == ""; }
      assert ["", ""][..1] == [""] && [""][..0] == [];
      assert Normal([""]) == [];
      assert Normal(["", ""]) == [];
    } else {
      SplitJoin(names);
      assert Join(names) == "" + "/" + Join(names[1..]);
      assert Join(names)[0] == '/';
    }
  }

  /** The path printed for a node has the names from the root down as its parts; for
      the root itself it is "/". */
  lemma CwdSplits(t: Tree, depth: map<Id, nat>, n: Id)
    requires Rooted(t, depth) && NamesMatchKeys(t) && n in t.nodes
    ensures if t.nodes[n].father.None? then Cwd(t, depth, n) == "/" else Split(Cwd(t, depth, n)) == PathNames(t, depth, n)
  {
    NamesAreNormal(t, depth, n);
    SplitJoin(PathNames(t, depth, n));
  }
}
