/** Path splitting for the RAM filesystem's directories. A path is split one
    component at a time: leading slashes are stripped, then the path is cut
    at its first slash (`split_path`) or at its last one (`split_rpath`).
    Paths are modelled as sequences of characters; since `/` is a one-byte
    character, byte and character positions of a slash cut the same way. */
module RamFsPath {
  import opened Options

  /** `split_path`'s answer: the first component and, when a slash
      followed it, everything after that slash. */
  datatype Split = Split(name: string, rest: Option<string>)

  /** `split_rpath`'s answer: everything before the last slash, when there
      is one, and the last component. */
  datatype RSplit = RSplit(dir: Option<string>, name: string)

  /** `trim_start_matches('/')`: a path no longer than `p` that does not
      start with a slash. */
  function TrimStart(p: string): (t: string)
    ensures |t| <= |p|
    ensures t == [] || t[0] != '/'
    decreases |p|
  {
    if p != [] && p[0] == '/' then TrimStart(p[1..]) else p
  }

  /** What `TrimStart` keeps is a suffix of the path, and everything it
      drops before that suffix is a slash. */
  lemma {:induction false} TrimStartDropsSlashes(p: string)
    ensures TrimStart(p) == p[|p| - |TrimStart(p)|..]
    ensures forall i :: 0 <= i < |p| - |TrimStart(p)| ==> p[i] == '/'
    decreases |p|
  {
    if p != [] && p[0] == '/' {
      TrimStartDropsSlashes(p[1..]);
      assert forall i :: 1 <= i < |p| - |TrimStart(p)| ==> p[i] == p[1..][i - 1];
    }
  }

  /** A path with a slash at `n` is what comes before it, the slash and
      what comes after it. */
  lemma JoinAt(t: string, n: nat)
    requires n < |t| && t[n] == '/'
    ensures t == t[..n] + "/" + t[n + 1..]
  {
  }

  /** `find`: the position of the first `c` in `t`, if any. */
  function Find(t: string, c: char): (n: Option<nat>)
    ensures n.None? ==> c !in t
    ensures n.Some? ==> n.value < |t| && t[n.value] == c && c !in t[..n.value]
    decreases |t|
  {
    if t == [] then None
    else if t[0] == c then Some(0)
    else match Find(t[1..], c)
      case None => None
      case Some(k) =>
        assert t[..k + 1] == [t[0]] + t[1..][..k];
        Some(k + 1)
  }

  /** `rfind`: the position of the last `c` in `t`, if any. */
  function RFind(t: string, c: char): (n: Option<nat>)
    ensures n.None? ==> c !in t
    ensures n.Some? ==> n.value < |t| && t[n.value] == c && c !in t[n.value + 1..]
    decreases |t|
  {
    if t == [] then None
    else if t[|t| - 1] == c then Some(|t| - 1)
    else
      var n := RFind(t[..|t| - 1], c);
      assert t == t[..|t| - 1] + [t[|t| - 1]];
      n
  }

  /** `split_path`: the path without its leading slashes is the first
      component alone, which then holds no slash, or the first component, a
      slash and the rest. */
  function SplitPath(path: string): (s: Split)
    ensures var t := TrimStart(path);
      && (s.rest.None? ==> s.name == t && '/' !in t)
      && (s.rest.Some? ==> s.name + "/" + s.rest.value == t && '/' !in s.name)
  {
    var t := TrimStart(path);
    match Find(t, '/')
    case None => Split(t, None)
    case Some(n) =>
      JoinAt(t, n);
      Split(t[..n], Some(t[n + 1..]))
  }

  /** `split_rpath`: the path without its leading slashes is the last
      component alone, which then holds no slash, or a prefix, a slash and
      the last component. */
  function SplitRPath(path: string): (s: RSplit)
    ensures var t := TrimStart(path);
      && (s.dir.None? ==> s.name == t && '/' !in t)
      && (s.dir.Some? ==> s.dir.value + "/" + s.name == t && '/' !in s.name)
  {
    var t := TrimStart(path);
    match RFind(t, '/')
    case None => RSplit(None, t)
    case Some(n) =>
      JoinAt(t, n);
      RSplit(Some(t[..n]), t[n + 1..])
  }

  /** A path that does not start with a slash is left as it is. */
  lemma TrimStartNoSlash(p: string)
    requires p == [] || p[0] != '/'
    ensures TrimStart(p) == p
  {
  }

  /** Stripping the slashes off a concatenation strips them off the first
      part, and off the second part as well when the first was all slashes. */
  lemma {:induction false} TrimStartAppend(a: string, b: string)
    ensures TrimStart(a + b) == if TrimStart(a) == [] then TrimStart(b) else TrimStart(a) + b
    decreases |a|
  {
    if a == [] {
      assert a + b == b;
    } else if a[0] == '/' {
      assert (a + b)[1..] == a[1..] + b;
      TrimStartAppend(a[1..], b);
    } else {
      assert (a + b)[0] == a[0];
    }
  }

  /** Splitting a component followed by a slash and a rest gives them back:
      `split_path` inverts joining at the first slash. */
  lemma SplitPathOfJoin(head: string, rest: string)
    requires head != [] && '/' !in head
    ensures SplitPath(head + "/" + rest) == Split(head, Some(rest))
  {
    var p := head + "/" + rest;
    TrimStartNoSlash(p);
    assert p[|head|] == '/';
    match Find(p, '/')
    case None =>
      assert false;
    case Some(n) =>
      if n < |head| {
        assert false;
      } else if n > |head| {
        assert false;
      }
      assert p[..n] == head;
      assert p[n + 1..] == rest;
  }

  /** `split_path` only looks at the path without its leading slashes. */
  lemma SplitPathTrimmed(p: string)
    ensures SplitPath(p) == SplitPath(TrimStart(p))
  {
    TrimStartNoSlash(TrimStart(p));
  }

  /** Splitting a path joined by a slash to a component without slashes:
      when the path is all slashes the component stands alone; otherwise
      the first component is the path's own and the component is joined to
      what follows it. */
  lemma SplitPathAppend(p: string, n: string)
    requires '/' !in n
    ensures var s := SplitPath(p);
      SplitPath(p + "/" + n) ==
        if TrimStart(p) == [] then Split(n, None)
        else if s.rest.None? then Split(s.name, Some(n))
        else Split(s.name, Some(s.rest.value + "/" + n))
  {
    var s := SplitPath(p);
    if TrimStart(p) == [] || s.rest.None? {
      TrimStartOfJoin(p, n);
      SplitPathTrimmed(p + "/" + n);
      if TrimStart(p) == [] {
        SplitPathOfName(n);
      } else {
        SplitPathOfJoin(TrimStart(p), n);
      }
    } else {
      SplitPathAppendRest(p, n);
    }
  }

  /** `SplitPathAppend` for a path with a slash after its leading ones. */
  lemma SplitPathAppendRest(p: string, n: string)
    requires '/' !in n && TrimStart(p) != [] && SplitPath(p).rest.Some?
    ensures SplitPath(p + "/" + n) == Split(SplitPath(p).name, Some(SplitPath(p).rest.value + "/" + n))
  {
    var s := SplitPath(p);
    var r := s.rest.value;
    HeadOfJoin(s.name, r);
    JoinAssoc(s.name, r, n);
    TrimStartOfJoin(p, n);
    SplitPathTrimmed(p + "/" + n);
    SplitPathOfJoin(s.name, r + "/" + n);
  }

  /** A join that does not start with a slash has a non-empty head. */
  lemma HeadOfJoin(a: string, b: string)
    requires (a + "/" + b)[0] != '/'
    ensures a != []
  {
  }

  /** Joining by slashes is associative. */
  lemma JoinAssoc(a: string, b: string, c: string)
    ensures (a + "/" + b) + "/" + c == a + "/" + (b + "/" + c)
  {
  }

  /** A single component without slashes splits into itself and no rest. */
  lemma SplitPathOfName(name: string)
    requires '/' !in name
    ensures SplitPath(name) == Split(name, None)
  {
    TrimStartNoSlash(name);
  }

  /** The last slash of a prefix, a slash and a component without slashes
      is the one before the component. */
  lemma RFindOfJoin(u: string, name: string)
    requires '/' !in name
    ensures RFind(u + "/" + name, '/') == Some(|u|)
  {
    var t := u + "/" + name;
    assert t[|u|] == '/';
    assert t[|u| + 1..] == name;
    match RFind(t, '/')
    case None =>
      assert false;
    case Some(n) =>
      if n < |u| {
        assert false;
      } else if n > |u| {
        assert false;
      }
  }

  /** `split_rpath` only looks at the path without its leading slashes. */
  lemma SplitRPathTrimmed(p: string)
    ensures SplitRPath(p) == SplitRPath(TrimStart(p))
  {
    TrimStartNoSlash(TrimStart(p));
  }

  /** Splitting a prefix, a slash and a component without slashes at the
      last slash gives them back: `split_rpath` inverts joining there. */
  lemma SplitRPathOfJoin(dir: string, name: string)
    requires dir != [] && dir[0] != '/' && '/' !in name
    ensures SplitRPath(dir + "/" + name) == RSplit(Some(dir), name)
  {
    var t := dir + "/" + name;
    TrimStartNoSlash(t);
    RFindOfJoin(dir, name);
    assert t[..|dir|] == dir;
    assert t[|dir| + 1..] == name;
    assert SplitRPath(t) == RSplit(Some(t[..|dir|]), t[|dir| + 1..]);
  }

  /** A single component without slashes splits into no prefix and itself. */
  lemma SplitRPathOfName(name: string)
    requires '/' !in name
    ensures SplitRPath(name) == RSplit(None, name)
  {
    TrimStartNoSlash(name);
    match RFind(name, '/')
    case None =>
    case Some(n) =>
      assert false;
  }

  /** Whatever comes before it, the last component after a slash is what
      `split_rpath` names. */
  lemma SplitRPathName(dir: string, name: string)
    requires '/' !in name
    ensures SplitRPath(dir + "/" + name).name == name
  {
    var p := dir + "/" + name;
    TrimStartOfJoin(dir, name);
    SplitRPathTrimmed(p);
    if TrimStart(dir) == [] {
      SplitRPathOfName(name);
    } else {
      SplitRPathOfJoin(TrimStart(dir), name);
    }
  }

  /** Leading slashes of a joined path come off the prefix, or off the
      whole prefix and the joining slash when the prefix is all slashes. */
  lemma TrimStartOfJoin(dir: string, name: string)
    requires '/' !in name
    ensures TrimStart(dir + "/" + name) == if TrimStart(dir) == [] then name else TrimStart(dir) + "/" + name
  {
    assert dir + "/" + name == dir + ("/" + name);
    TrimStartAppend(dir, "/" + name);
    if TrimStart(dir) == [] {
      assert ("/" + name)[1..] == name;
      TrimStartNoSlash(name);
    } else {
      assert TrimStart(dir) + ("/" + name) == TrimStart(dir) + "/" + name;
    }
  }
}
