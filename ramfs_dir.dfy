/** The directories of the RAM filesystem. Each directory node holds a weak
    link to its parent and an ordered map from names to child nodes; a child
    is a file or another directory. The shared, reference-counted nodes are
    modelled as a table from node numbers to nodes: a parent link or a child
    entry is the number of the node it refers to. */
module RamFsDir {
  import opened Options
  import opened RamFsPath
  import opened NameOrder

  /** The node kinds a creation request may name. */
  datatype NodeType = Fifo | CharDevice | Dir | BlockDevice | File | SymLink | Socket

  /** The error kinds the directory operations report. */
  datatype FsError = AlreadyExists | DirectoryNotEmpty | InvalidInput | NotADirectory | NotFound | Unsupported

  datatype FsResult<T> = Ok(value: T) | Err(error: FsError)

  type NodeId = nat

  /** A file, whose contents are not modelled, or a directory. */
  datatype Node = FileNode | DirNode(parent: Option<NodeId>, children: map<string, NodeId>)

  type Table = map<NodeId, Node>

  /** What a state-changing operation answers, with the table after it. */
  datatype Outcome = Outcome(result: FsResult<()>, table: Table)

  /** Every parent link and child entry refers to a node of the table. */
  ghost predicate Closed(t: Table)
  {
    forall i :: i in t && t[i].DirNode? ==>
      && (t[i].parent.Some? ==> t[i].parent.value in t)
      && (forall n :: n in t[i].children ==> t[i].children[n] in t)
  }

  /** The names `""`, `"."` and `".."`, which name no child. */
  predicate IsDotName(name: string)
  {
    name == "" || name == "." || name == ".."
  }

  // ---------------------------------------------------------------------
  // Reading a directory
  // ---------------------------------------------------------------------

  /** `get_entries`: the names of the children, each once, in ascending order. */
  function GetEntries(children: map<string, NodeId>): (names: seq<string>)
    ensures forall n :: n in names <==> n in children
    ensures forall i, j :: 0 <= i < j < |names| ==> Below(names[i], names[j])
  {
    SortedNames(children.Keys)
  }

  /** `exist`: the name is one of the entries. */
  function Exist(children: map<string, NodeId>, name: string): (b: bool)
    ensures b <==> name in GetEntries(children)
  {
    name in children
  }

  /** One step of a path walk from directory `d`: `""` and `"."` stay,
      `".."` goes to the parent, any other name to the child of that name. */
  function LookupStep(t: Table, d: NodeId, name: string): (r: FsResult<NodeId>)
    requires Closed(t) && d in t && t[d].DirNode?
    ensures r.Ok? ==> r.value in t
    ensures r.Err? ==> r.error == NotFound
    ensures !IsDotName(name) ==> (r.Ok? <==> name in t[d].children)
  {
    if name == "" || name == "." then Ok(d)
    else if name == ".." then
      match t[d].parent
      case Some(p) => Ok(p)
      case None => Err(NotFound)
    else if name in t[d].children then Ok(t[d].children[name])
    else Err(NotFound)
  }

  /** `lookup`: walks `path` one component at a time from node `id`; a file
      answers `NotADirectory` to any walk. */
  function Lookup(t: Table, id: NodeId, path: string): (r: FsResult<NodeId>)
    requires Closed(t) && id in t
    ensures r.Ok? ==> r.value in t
    decreases |path|
  {
    if t[id].FileNode? then Err(NotADirectory)
    else
      var s := SplitPath(path);
      var step := LookupStep(t, id, s.name);
      if step.Err? then step
      else match s.rest
        case None => step
        case Some(rest) => Lookup(t, step.value, rest)
  }

  /** Where `create` and `remove` act: the directory reached by walking all
      components but the last, and that last component. */
  datatype Target = Target(dir: NodeId, name: string)

  /** The walk that `create` and `remove` share: every component followed
      by a slash is resolved as `lookup` resolves it, and the walk stops at
      the last component, which holds no slash. */
  function ResolveParent(t: Table, id: NodeId, path: string): (r: FsResult<Target>)
    requires Closed(t) && id in t
    ensures r.Ok? ==> r.value.dir in t && t[r.value.dir].DirNode? && '/' !in r.value.name
    decreases |path|
  {
    if t[id].FileNode? then Err(NotADirectory)
    else
      var s := SplitPath(path);
      match s.rest
      case None => Ok(Target(id, s.name))
      case Some(rest) =>
        var step := LookupStep(t, id, s.name);
        if step.Err? then Err(step.error)
        else ResolveParent(t, step.value, rest)
  }

  /** A walk that reaches a directory and a last component that is a
      plain name ends, in `lookup`, at the child of that name. */
  lemma {:induction false} ResolveThenLookup(t: Table, id: NodeId, path: string)
    requires Closed(t) && id in t && ResolveParent(t, id, path).Ok?
    requires !IsDotName(ResolveParent(t, id, path).value.name)
    ensures var g := ResolveParent(t, id, path).value;
      Lookup(t, id, path) == if g.name in t[g.dir].children then Ok(t[g.dir].children[g.name]) else Err(NotFound)
    decreases |path|
  {
    var s := SplitPath(path);
    if s.rest.Some? {
      ResolveThenLookup(t, LookupStep(t, id, s.name).value, s.rest.value);
    }
  }

  // ---------------------------------------------------------------------
  // Changing a directory
  // ---------------------------------------------------------------------

  /** The table with the children of directory `d` replaced by `c`. */
  function WithChildren(t: Table, d: NodeId, c: map<string, NodeId>): (t2: Table)
    requires Closed(t) && d in t && t[d].DirNode?
    requires forall n :: n in c ==> c[n] in t
    ensures Closed(t2) && t2.Keys == t.Keys
  {
    t[d := DirNode(t[d].parent, c)]
  }

  /** The node `create_node` makes for a kind it supports: an empty file, or
      an empty directory whose parent is `d`. */
  function NewNode(ty: NodeType, d: NodeId): Node
  {
    if ty == File then FileNode else DirNode(Some(d), map[])
  }

  /** `create_node` in directory `d`, the new node numbered `newId`. */
  function CreateNodeIn(t: Table, d: NodeId, name: string, ty: NodeType, newId: NodeId): (o: Outcome)
    requires Closed(t) && d in t && t[d].DirNode? && newId !in t
    ensures Closed(o.table)
    ensures name in t[d].children ==> o == Outcome(Err(AlreadyExists), t)
    ensures name !in t[d].children && ty != File && ty != Dir ==> o == Outcome(Err(Unsupported), t)
    ensures o.result.Ok? <==> name !in t[d].children && (ty == File || ty == Dir)
    ensures o.result.Ok? ==>
      && o.table.Keys == t.Keys + {newId}
      && o.table[d].DirNode?
      && o.table[d].children.Keys == t[d].children.Keys + {name}
      && o.table[d].children[name] == newId
  {
    if name in t[d].children then Outcome(Err(AlreadyExists), t)
    else if ty != File && ty != Dir then Outcome(Err(Unsupported), t)
    else
      var t1 := t[newId := NewNode(ty, d)];
      Outcome(Ok(()), WithChildren(t1, d, t1[d].children[name := newId]))
  }

  /** `remove_node` in directory `d`. */
  function RemoveNodeIn(t: Table, d: NodeId, name: string): (o: Outcome)
    requires Closed(t) && d in t && t[d].DirNode?
    ensures Closed(o.table)
    ensures name !in t[d].children ==> o == Outcome(Err(NotFound), t)
    ensures name in t[d].children && t[t[d].children[name]].DirNode? && t[t[d].children[name]].children != map[] ==>
      o == Outcome(Err(DirectoryNotEmpty), t)
    ensures o.result.Ok? <==>
      name in t[d].children && !(t[t[d].children[name]].DirNode? && t[t[d].children[name]].children != map[])
    ensures o.result.Ok? ==> o.table == WithChildren(t, d, t[d].children - {name}) && name in t[d].children
  {
    if name !in t[d].children then Outcome(Err(NotFound), t)
    else
      var child := t[t[d].children[name]];
      if child.DirNode? && child.children != map[] then Outcome(Err(DirectoryNotEmpty), t)
      else Outcome(Ok(()), WithChildren(t, d, t[d].children - {name}))
  }

  /** `create`: resolve the path, then create its last component; a last
      component `""`, `"."` or `".."` names something that already exists
      and is answered `Ok` with nothing changed. */
  function CreateAt(t: Table, id: NodeId, path: string, ty: NodeType, newId: NodeId): (o: Outcome)
    requires Closed(t) && id in t && newId !in t
    ensures Closed(o.table)
    ensures o.table == t || o.result.Ok?
  {
    match ResolveParent(t, id, path)
    case Err(e) => Outcome(Err(e), t)
    case Ok(g) =>
      if IsDotName(g.name) then Outcome(Ok(()), t)
      else CreateNodeIn(t, g.dir, g.name, ty, newId)
  }

  /** `remove`: resolve the path, then remove its last component; a last
      component `""`, `"."` or `".."` is `InvalidInput`. */
  function RemoveAt(t: Table, id: NodeId, path: string): (o: Outcome)
    requires Closed(t) && id in t
    ensures Closed(o.table)
    ensures o.table == t || o.result.Ok?
    ensures IsDotName(SplitPath(path).name) && SplitPath(path).rest.None? && t[id].DirNode? ==>
      o == Outcome(Err(InvalidInput), t)
  {
    match ResolveParent(t, id, path)
    case Err(e) => Outcome(Err(e), t)
    case Ok(g) =>
      if IsDotName(g.name) then Outcome(Err(InvalidInput), t)
      else RemoveNodeIn(t, g.dir, g.name)
  }

  /** One step of `create`'s walk: a last component is created (or, when
      it is a dot name, accepted), any other is resolved and the walk goes
      on from there. */
  lemma CreateAtStep(t: Table, id: NodeId, path: string, ty: NodeType, newId: NodeId)
    requires Closed(t) && id in t && newId !in t && t[id].DirNode?
    ensures var s := SplitPath(path);
      CreateAt(t, id, path, ty, newId) ==
        if s.rest.None? then
          (if IsDotName(s.name) then Outcome(Ok(()), t) else CreateNodeIn(t, id, s.name, ty, newId))
        else if LookupStep(t, id, s.name).Err? then Outcome(Err(NotFound), t)
        else CreateAt(t, LookupStep(t, id, s.name).value, s.rest.value, ty, newId)
  {
  }

  /** `t2` keeps every node of `t`, of the same kind, with the same parent
      and at least the same children. */
  ghost predicate Extends(t: Table, t2: Table)
  {
    forall i :: i in t ==>
      && i in t2
      && (t[i].FileNode? <==> t2[i].FileNode?)
      && (t[i].DirNode? ==>
            && t2[i].parent == t[i].parent
            && forall n :: n in t[i].children ==> n in t2[i].children && t2[i].children[n] == t[i].children[n])
  }

  /** Adding nodes and children does not change where a walk that worked
      before ends. */
  lemma {:induction false} ResolveParentExtends(t: Table, t2: Table, id: NodeId, path: string)
    requires Closed(t) && Closed(t2) && Extends(t, t2) && id in t
    requires ResolveParent(t, id, path).Ok?
    ensures ResolveParent(t2, id, path) == ResolveParent(t, id, path)
    decreases |path|
  {
    var s := SplitPath(path);
    if s.rest.Some? {
      ResolveParentExtends(t, t2, LookupStep(t, id, s.name).value, s.rest.value);
    }
  }

  /** After a `create` that made a node, `lookup` of the same path finds
      that node. */
  lemma CreateThenLookup(t: Table, id: NodeId, path: string, ty: NodeType, newId: NodeId)
    requires Closed(t) && id in t && newId !in t
    requires CreateAt(t, id, path, ty, newId).table != t
    ensures Lookup(CreateAt(t, id, path, ty, newId).table, id, path) == Ok(newId)
  {
    var g := ResolveParent(t, id, path).value;
    var t2 := CreateAt(t, id, path, ty, newId).table;
    assert Extends(t, t2);
    ResolveParentExtends(t, t2, id, path);
    ResolveThenLookup(t2, id, path);
  }

  /** After a `remove` that succeeded, `lookup` of the same path finds
      nothing. */
  lemma RemoveThenLookup(t: Table, id: NodeId, path: string)
    requires Closed(t) && id in t && RemoveAt(t, id, path).result.Ok?
    ensures Lookup(RemoveAt(t, id, path).table, id, path) == Err(NotFound)
  {
    var g := ResolveParent(t, id, path).value;
    DropThenLookup(t, id, path, g.dir, g.name);
  }

  lemma {:induction false} DropThenLookup(t: Table, id: NodeId, path: string, d: NodeId, name: string)
    requires Closed(t) && id in t && d in t && t[d].DirNode?
    requires ResolveParent(t, id, path) == Ok(Target(d, name)) && !IsDotName(name)
    ensures Lookup(WithChildren(t, d, t[d].children - {name}), id, path) == Err(NotFound)
    decreases |path|
  {
    var t2 := WithChildren(t, d, t[d].children - {name});
    var s := SplitPath(path);
    if s.rest.Some? {
      if !(id == d && s.name == name) {
        assert LookupStep(t2, id, s.name) == LookupStep(t, id, s.name);
        DropThenLookup(t, LookupStep(t, id, s.name).value, s.rest.value, d, name);
      }
    }
  }

  // ---------------------------------------------------------------------
  // Walking a joined path
  // ---------------------------------------------------------------------

  /** `lookup` only looks at the path without its leading slashes. */
  lemma LookupTrimmed(t: Table, id: NodeId, p: string)
    requires Closed(t) && id in t
    ensures Lookup(t, id, p) == Lookup(t, id, TrimStart(p))
  {
    SplitPathTrimmed(p);
  }

  /** `lookup` of a plain name in a directory is its child of that name. */
  lemma LookupName(t: Table, d: NodeId, n: string)
    requires Closed(t) && d in t && t[d].DirNode? && '/' !in n && !IsDotName(n)
    ensures Lookup(t, d, n) == if n in t[d].children then Ok(t[d].children[n]) else Err(NotFound)
  {
    SplitPathOfName(n);
  }

  /** `lookup` of a path joined by a slash to a component without slashes
      walks the path, then takes that component from where the path ends. */
  lemma {:induction false} LookupAppend(t: Table, id: NodeId, p: string, n: string)
    requires Closed(t) && id in t && '/' !in n
    ensures Lookup(t, id, p + "/" + n) ==
      match Lookup(t, id, p)
      case Ok(x) => Lookup(t, x, n)
      case Err(e) => Err(e)
    decreases |p|
  {
    if t[id].DirNode? {
      SplitPathAppend(p, n);
      var s := SplitPath(p);
      if TrimStart(p) == [] {
        SplitPathOfName(n);
      } else if s.rest.Some? && LookupStep(t, id, s.name).Ok? {
        LookupAppend(t, LookupStep(t, id, s.name).value, s.rest.value, n);
      }
    }
  }

  // ---------------------------------------------------------------------
  // Renaming
  // ---------------------------------------------------------------------

  /** The children after `rename`: the node is entered under the new name
      first, then the entry `src` is deleted, so when the two names are the
      same the entry is simply gone. */
  function RenamedChildren(c: map<string, NodeId>, src: string, dstName: string, node: NodeId): (r: map<string, NodeId>)
    ensures src !in r
    ensures src != dstName ==> dstName in r && r[dstName] == node
    ensures src == dstName ==> r == c - {src}
    ensures forall n :: n in c && n != src && n != dstName ==> n in r && r[n] == c[n]
    ensures forall n :: n in r ==> n in c || n == dstName
  {
    c[dstName := node] - {src}
  }

  /** `rename` in directory `d`: `NotFound` unless `src` resolves,
      `AlreadyExists` when `dst` does; otherwise only the children of `d`
      change, to `RenamedChildren` of the node `src` resolves to and the
      last component of `dst`. */
  function RenameIn(t: Table, d: NodeId, src: string, dst: string): (o: Outcome)
    requires Closed(t) && d in t && t[d].DirNode?
    ensures Closed(o.table)
    ensures Lookup(t, d, src).Err? ==> o == Outcome(Err(NotFound), t)
    ensures Lookup(t, d, src).Ok? && Lookup(t, d, dst).Ok? ==> o == Outcome(Err(AlreadyExists), t)
    ensures o.result.Ok? <==> Lookup(t, d, src).Ok? && Lookup(t, d, dst).Err?
    ensures o.result.Ok? ==>
      && o.table.Keys == t.Keys
      && (forall i :: i in t && i != d ==> o.table[i] == t[i])
      && o.table[d] == DirNode(t[d].parent,
                               RenamedChildren(t[d].children, src, SplitRPath(dst).name, Lookup(t, d, src).value))
  {
    match Lookup(t, d, src)
    case Err(_) => Outcome(Err(NotFound), t)
    case Ok(node) =>
      if Lookup(t, d, dst).Ok? then Outcome(Err(AlreadyExists), t)
      else
        var c := RenamedChildren(t[d].children, src, SplitRPath(dst).name, node);
        assert forall n :: n in c ==> c[n] in t by {
          forall n | n in c
            ensures c[n] in t
          {
            if n != SplitRPath(dst).name {
              assert n in t[d].children;
            }
          }
        }
        Outcome(Ok(()), WithChildren(t, d, c))
  }

  /** After a `rename` that succeeded, the node is under the last component
      of `dst` in `d` when that name differs from `src`; when it is `src`
      itself, that name now leads nowhere. */
  lemma RenameThenLookup(t: Table, d: NodeId, src: string, dst: string)
    requires Closed(t) && d in t && t[d].DirNode? && RenameIn(t, d, src, dst).result.Ok?
    requires !IsDotName(SplitRPath(dst).name)
    ensures var name := SplitRPath(dst).name;
      && (src != name ==> Lookup(RenameIn(t, d, src, dst).table, d, name) == Lookup(t, d, src))
      && (src == name ==> Lookup(RenameIn(t, d, src, dst).table, d, name) == Err(NotFound))
  {
    SplitPathOfName(SplitRPath(dst).name);
  }

  /** A root directory holding two children: the file `f` (node 1) and the
      empty directory `d` (node 2). */
  function FileAndEmptyDirTree(): (t: Table)
    ensures Closed(t) && 0 in t && t[0].DirNode?
  {
    map[0 := DirNode(None, map["f" := 1, "d" := 2]), 1 := FileNode, 2 := DirNode(Some(0), map[])]
  }

  /** In that directory `f` and `d` resolve, `d/f` does not, and `d/f`
      splits into `d` and `f`. */
  lemma FileAndEmptyDirLookups()
    ensures Lookup(FileAndEmptyDirTree(), 0, "f") == Ok(1)
    ensures Lookup(FileAndEmptyDirTree(), 0, "d") == Ok(2)
    ensures Lookup(FileAndEmptyDirTree(), 0, "d/f") == Err(NotFound)
    ensures SplitRPath("d/f") == RSplit(Some("d"), "f")
  {
    var t := FileAndEmptyDirTree();
    LookupName(t, 0, "f");
    LookupName(t, 0, "d");
    LookupName(t, 2, "f");
    assert "d/f" == "d" + "/" + "f";
    LookupAppend(t, 0, "d", "f");
    SplitRPathOfJoin("d", "f");
  }

  /** As written, `rename("f", "d/f")` in that directory passes both checks
      and answers `Ok`, yet leaves the file under no name: neither `f` nor
      `d/f` resolves afterwards. */
  lemma RenameAsWrittenLosesNode()
    ensures RenameIn(FileAndEmptyDirTree(), 0, "f", "d/f").result == Ok(())
    ensures Lookup(RenameIn(FileAndEmptyDirTree(), 0, "f", "d/f").table, 0, "f") == Err(NotFound)
    ensures Lookup(RenameIn(FileAndEmptyDirTree(), 0, "f", "d/f").table, 0, "d/f") == Err(NotFound)
  {
    var t := FileAndEmptyDirTree();
    FileAndEmptyDirLookups();
    RenameThenLookup(t, 0, "f", "d/f");
    var t2 := RenameIn(t, 0, "f", "d/f").table;
    assert "d" in t[0].children;
    assert t2[0].children["d"] == 2 && t2[2] == t[2];
    LookupName(t2, 0, "d");
    LookupName(t2, 2, "f");
    assert "d/f" == "d" + "/" + "f";
    LookupAppend(t2, 0, "d", "f");
  }

  // ---------------------------------------------------------------------
  // Renaming as intended
  // ---------------------------------------------------------------------

  /** Where the intended `rename` enters the node: in the directory that the
      part of `dst` before its last slash names, looked up from `d` (`d`
      itself when there is no slash), under the last component. */
  function RenameTarget(t: Table, d: NodeId, dst: string): (r: FsResult<Target>)
    requires Closed(t) && d in t && t[d].DirNode?
    ensures r.Ok? ==> r.value.dir in t && t[r.value.dir].DirNode? && r.value.name == SplitRPath(dst).name
  {
    var rs := SplitRPath(dst);
    match rs.dir
    case None => Ok(Target(d, rs.name))
    case Some(prefix) =>
      match Lookup(t, d, prefix)
      case Err(_) => Err(NotFound)
      case Ok(p) => if t[p].FileNode? then Err(NotADirectory) else Ok(Target(p, rs.name))
  }

  /** The destination's directory and last component are where `lookup`
      of the whole destination ends. */
  lemma RenameTargetLookup(t: Table, d: NodeId, dst: string)
    requires Closed(t) && d in t && t[d].DirNode? && RenameTarget(t, d, dst).Ok?
    ensures var g := RenameTarget(t, d, dst).value;
      Lookup(t, d, dst) == Lookup(t, g.dir, g.name)
  {
    var rs := SplitRPath(dst);
    LookupTrimmed(t, d, dst);
    if rs.dir.Some? {
      LookupAppend(t, d, rs.dir.value, rs.name);
    }
  }

  /** `rename` as its commented-out draft in the same function means it:
      after the same two checks, a prefix of `dst` that names nothing is
      `NotFound` and one that names a file `NotADirectory`; otherwise the
      node is entered under the last component of `dst` in the directory
      the prefix names, then the entry `src` of `d` is deleted. */
  function RenameInFixed(t: Table, d: NodeId, src: string, dst: string): (o: Outcome)
    requires Closed(t) && d in t && t[d].DirNode?
    ensures Closed(o.table)
    ensures Lookup(t, d, src).Err? ==> o == Outcome(Err(NotFound), t)
    ensures Lookup(t, d, src).Ok? && Lookup(t, d, dst).Ok? ==> o == Outcome(Err(AlreadyExists), t)
    ensures o.result.Ok? <==> Lookup(t, d, src).Ok? && Lookup(t, d, dst).Err? && RenameTarget(t, d, dst).Ok?
    ensures o.result.Err? ==> o.table == t
  {
    match Lookup(t, d, src)
    case Err(_) => Outcome(Err(NotFound), t)
    case Ok(node) =>
      if Lookup(t, d, dst).Ok? then Outcome(Err(AlreadyExists), t)
      else match RenameTarget(t, d, dst)
        case Err(e) => Outcome(Err(e), t)
        case Ok(g) =>
          var t1 := WithChildren(t, g.dir, t[g.dir].children[g.name := node]);
          Outcome(Ok(()), WithChildren(t1, d, t1[d].children - {src}))
  }

  /** After the intended `rename` succeeds, the node is the child named by
      the last component of `dst` in the directory its prefix named; `dst`
      resolves to it whenever that prefix still names the same directory
      (always, when `dst` has no prefix); and `src`, when it is a plain
      name, no longer resolves. */
  lemma RenameFixedThenLookup(t: Table, d: NodeId, src: string, dst: string)
    requires Closed(t) && d in t && t[d].DirNode? && RenameInFixed(t, d, src, dst).result.Ok?
    requires !IsDotName(SplitRPath(dst).name)
    ensures var g := RenameTarget(t, d, dst).value;
      var t2 := RenameInFixed(t, d, src, dst).table;
      && Lookup(t2, g.dir, g.name) == Lookup(t, d, src)
      && (RenameTarget(t2, d, dst) == RenameTarget(t, d, dst) ==> Lookup(t2, d, dst) == Lookup(t, d, src))
      && (SplitRPath(dst).dir.None? ==> Lookup(t2, d, dst) == Lookup(t, d, src))
      && ('/' !in src && !IsDotName(src) ==> Lookup(t2, d, src) == Err(NotFound))
  {
    var g := RenameTarget(t, d, dst).value;
    var t2 := RenameInFixed(t, d, src, dst).table;
    RenameTargetLookup(t, d, dst);
    SplitPathOfName(g.name);
    if g.dir == d && g.name == src {
      assert false;
    }
    assert g.name in t2[g.dir].children;
    if RenameTarget(t2, d, dst) == RenameTarget(t, d, dst) {
      RenameTargetLookup(t2, d, dst);
    }
    if '/' !in src && !IsDotName(src) {
      SplitPathOfName(src);
    }
  }

  /** The intended `rename("f", "d/f")` in `FileAndEmptyDirTree` moves the
      file into `d`, where `d/f` then finds it, and `f` is gone. */
  lemma RenameFixedMovesNode()
    ensures RenameInFixed(FileAndEmptyDirTree(), 0, "f", "d/f").result == Ok(())
    ensures Lookup(RenameInFixed(FileAndEmptyDirTree(), 0, "f", "d/f").table, 0, "d/f") == Ok(1)
    ensures Lookup(RenameInFixed(FileAndEmptyDirTree(), 0, "f", "d/f").table, 0, "f") == Err(NotFound)
  {
    var t := FileAndEmptyDirTree();
    FileAndEmptyDirLookups();
    assert RenameTarget(t, 0, "d/f") == Ok(Target(2, "f"));
    var t2 := RenameInFixed(t, 0, "f", "d/f").table;
    assert "d" in t2[0].children && t2[0].children["d"] == 2;
    LookupName(t2, 0, "d");
    assert RenameTarget(t2, 0, "d/f") == Ok(Target(2, "f"));
    RenameFixedThenLookup(t, 0, "f", "d/f");
  }


  // ---------------------------------------------------------------------
  // The node table
  // ---------------------------------------------------------------------

  class RamFs {
    /** Every node made so far, by number. */
    var nodes: Table
    /** The number the next node gets. */
    var next: NodeId

    ghost predicate Valid()
      reads this
    {
      Closed(nodes) && forall i :: i in nodes ==> i < next
    }

    /** A filesystem holding only its root, node 0: an empty directory with
        no parent. */
    constructor ()
      ensures Valid()
      ensures nodes == map[0 := DirNode(None, map[])] && next == 1
    {
      nodes := map[0 := DirNode(None, map[])];
      next := 1;
    }

    /** `DirNode::new`: a new, empty directory with the given parent. */
    method NewDir(parent: Option<NodeId>) returns (id: NodeId)
      requires Valid() && (parent.Some? ==> parent.value in nodes)
      modifies this
      ensures Valid()
      ensures id == old(next) && id !in old(nodes)
      ensures nodes == old(nodes)[id := DirNode(parent, map[])] && next == old(next) + 1
    {
      id := next;
      nodes := nodes[id := DirNode(parent, map[])];
      next := next + 1;
    }

    /** `set_parent`: replaces the parent link of directory `id`. */
    method SetParent(id: NodeId, parent: Option<NodeId>)
      requires Valid() && id in nodes && nodes[id].DirNode? && (parent.Some? ==> parent.value in nodes)
      modifies this`nodes
      ensures Valid()
      ensures nodes == old(nodes)[id := DirNode(parent, old(nodes)[id].children)]
    {
      nodes := nodes[id := DirNode(parent, nodes[id].children)];
    }

    /** `create_node`: `AlreadyExists` when the name is taken, `Unsupported`
        for a kind other than a file or a directory, otherwise a new node
        entered under the name. */
    method CreateNode(d: NodeId, name: string, ty: NodeType) returns (r: FsResult<()>)
      requires Valid() && d in nodes && nodes[d].DirNode?
      modifies this
      ensures Valid()
      ensures Outcome(r, nodes) == CreateNodeIn(old(nodes), d, name, ty, old(next))
      ensures next == if r.Ok? then old(next) + 1 else old(next)
    {
      if Exist(nodes[d].children, name) {
        return Err(AlreadyExists);
      }
      var child: NodeId;
      if ty == File {
        child := next;
        nodes := nodes[child := FileNode];
        next := next + 1;
      } else if ty == Dir {
        child := NewDir(Some(d));
      } else {
        return Err(Unsupported);
      }
      nodes := nodes[d := DirNode(nodes[d].parent, nodes[d].children[name := child])];
      return Ok(());
    }

    /** `remove_node`: `NotFound` when the name is absent,
        `DirectoryNotEmpty` when it names a directory with children,
        otherwise the entry is deleted. */
    method RemoveNode(d: NodeId, name: string) returns (r: FsResult<()>)
      requires Valid() && d in nodes && nodes[d].DirNode?
      modifies this`nodes
      ensures Valid()
      ensures Outcome(r, nodes) == RemoveNodeIn(old(nodes), d, name)
    {
      var children := nodes[d].children;
      if name !in children {
        return Err(NotFound);
      }
      var node := nodes[children[name]];
      if node.DirNode? && node.children != map[] {
        return Err(DirectoryNotEmpty);
      }
      nodes := nodes[d := DirNode(nodes[d].parent, children - {name})];
      return Ok(());
    }

    /** `create` from node `id`: walks the path down, then creates its last
        component in the directory reached. */
    method Create(id: NodeId, path: string, ty: NodeType) returns (r: FsResult<()>)
      requires Valid() && id in nodes
      modifies this
      ensures Valid()
      ensures Outcome(r, nodes) == CreateAt(old(nodes), id, path, ty, old(next))
      ensures next == if old(next) in nodes then old(next) + 1 else old(next)
      decreases |path|
    {
      if nodes[id].FileNode? {
        return Err(NotADirectory);
      }
      var s := SplitPath(path);
      CreateAtStep(nodes, id, path, ty, next);
      if s.rest.Some? {
        var step := LookupStep(nodes, id, s.name);
        if step.Err? {
          return Err(step.error);
        }
        r := Create(step.value, s.rest.value, ty);
      } else if IsDotName(s.name) {
        return Ok(());
      } else {
        r := CreateNode(id, s.name, ty);
      }
    }

    /** `remove` from node `id`: walks the path down, then removes its last
        component from the directory reached. */
    method Remove(id: NodeId, path: string) returns (r: FsResult<()>)
      requires Valid() && id in nodes
      modifies this`nodes
      ensures Valid()
      ensures Outcome(r, nodes) == RemoveAt(old(nodes), id, path)
      decreases |path|
    {
      if nodes[id].FileNode? {
        return Err(NotADirectory);
      }
      var s := SplitPath(path);
      if s.rest.Some? {
        var step := LookupStep(nodes, id, s.name);
        if step.Err? {
          return Err(step.error);
        }
        r := Remove(step.value, s.rest.value);
      } else if IsDotName(s.name) {
        return Err(InvalidInput);
      } else {
        r := RemoveNode(id, s.name);
      }
    }

    /** `rename` in directory `d`: the node is entered under the last
        component of `dst`, then the entry `src` is deleted. */
    method Rename(d: NodeId, src: string, dst: string) returns (r: FsResult<()>)
      requires Valid() && d in nodes && nodes[d].DirNode?
      modifies this`nodes
      ensures Valid()
      ensures Outcome(r, nodes) == RenameIn(old(nodes), d, src, dst)
    {
      var found := Lookup(nodes, d, src);
      if found.Err? {
        return Err(NotFound);
      }
      if Lookup(nodes, d, dst).Ok? {
        return Err(AlreadyExists);
      }
      var dstName := SplitRPath(dst).name;
      var children := nodes[d].children;
      children := children[dstName := found.value];
      children := children - {src};
      assert children == RenamedChildren(nodes[d].children, src, dstName, found.value);
      nodes := nodes[d := DirNode(nodes[d].parent, children)];
      return Ok(());
    }

    /** `rename` as intended: the node is entered in the directory the
        prefix of `dst` names, then the entry `src` of `d` is deleted. */
    method RenameFixed(d: NodeId, src: string, dst: string) returns (r: FsResult<()>)
      requires Valid() && d in nodes && nodes[d].DirNode?
      modifies this`nodes
      ensures Valid()
      ensures Outcome(r, nodes) == RenameInFixed(old(nodes), d, src, dst)
    {
      var found := Lookup(nodes, d, src);
      if found.Err? {
        return Err(NotFound);
      }
      if Lookup(nodes, d, dst).Ok? {
        return Err(AlreadyExists);
      }
      var target := RenameTarget(nodes, d, dst);
      if target.Err? {
        return Err(target.error);
      }
      var g := target.value;
      ghost var expected := RenameInFixed(nodes, d, src, dst).table;
      nodes := nodes[g.dir := DirNode(nodes[g.dir].parent, nodes[g.dir].children[g.name := found.value])];
      nodes := nodes[d := DirNode(nodes[d].parent, nodes[d].children - {src})];
      assert nodes == expected;
      return Ok(());
    }
  }
}
