/**
 * The in-memory file system as a tree of values: lookup, insertion, and how any history of
 * insertions determines every later lookup.
 */
module FileTree {
  import opened Common

  datatype File = File(name: string, content: nat)

  datatype Tree = FileNode(file: File) | DirectoryNode(name: string, children: seq<Tree>)

  type Path = seq<string>

  predicate IsDirectoryNamed(t: Tree, name: string) { t.DirectoryNode? && t.name == name }

  predicate IsFileNamed(t: Tree, name: string) { t.FileNode? && t.file.name == name }

  // ---------------------------------------------------------------------------
  // Lookup and insertion
  // ---------------------------------------------------------------------------

  /** The first node found at the path. */
  function GetNode(t: Tree, path: Path): Option<Tree>
    decreases |path|, 0
  {
    if |path| == 0 then None
    else
      match t
      case FileNode(file) => if path[0] == file.name && |path| == 1 then Some(t) else None
      case DirectoryNode(name, children) =>
        if path[0] != name then None
        else if |path| == 1 then Some(t)
        else GetAmong(children, path[1..])
  }

  function GetAmong(ts: seq<Tree>, path: Path): Option<Tree>
    decreases |path|, 1 + |ts|
  {
    if |ts| == 0 then None
    else if GetNode(ts[0], path).Some? then GetNode(ts[0], path)
    else GetAmong(ts[1..], path)
  }

  predicate HasDirectoryChild(ts: seq<Tree>, name: string) { exists c :: c in ts && IsDirectoryNamed(c, name) }

  predicate HasFileChild(ts: seq<Tree>, name: string) { exists c :: c in ts && IsFileNamed(c, name) }

  /** The tree afterwards, and whether the file was inserted. Missing directories are made on the way. */
  function PutNode(t: Tree, path: Path, file: File): (r: (Tree, bool))
    ensures t.FileNode? ==> r == (t, false)
    ensures t.DirectoryNode? ==> IsDirectoryNamed(r.0, t.name)
    decreases |path|, 0
  {
    match t
    case FileNode(_) => (t, false)
    case DirectoryNode(name, children) =>
      if |path| == 0 || path[0] != name then (t, false)
      else
        var rest := path[1..];
        if |rest| == 1 then
          if !HasFileChild(children, rest[0]) && file.name == rest[0]
          then (DirectoryNode(name, children + [FileNode(file)]), true)
          else (t, false)
        else if |rest| > 0 && !HasDirectoryChild(children, rest[0]) then
          var (made, ok) := PutNode(DirectoryNode(rest[0], []), rest, file);
          (DirectoryNode(name, children + [made]), ok)
        else
          var (ts, ok) := PutAmong(children, rest, file);
          (DirectoryNode(name, ts), ok)
  }

  /** Offers the file to one child after the other until one takes it. */
  function PutAmong(ts: seq<Tree>, path: Path, file: File): (r: (seq<Tree>, bool))
    ensures |r.0| == |ts|
    decreases |path|, 1 + |ts|
  {
    if |ts| == 0 then ([], false)
    else
      var (t, ok) := PutNode(ts[0], path, file);
      if ok then ([t] + ts[1..], true)
      else
        var (rest, found) := PutAmong(ts[1..], path, file);
        ([t] + rest, found)
  }

  /** Children before number i of `ts` have refused the file, and become those of `us`. */
  ghost predicate RefusedBefore(ts: seq<Tree>, us: seq<Tree>, i: nat, path: Path, file: File) {
    && i <= |ts| == |us| && us[i..] == ts[i..]
    && PutAmong(ts, path, file).0 == us[..i] + PutAmong(ts[i..], path, file).0
    && PutAmong(ts, path, file).1 == PutAmong(ts[i..], path, file).1
  }

  lemma NoneRefused(ts: seq<Tree>, path: Path, file: File)
    ensures RefusedBefore(ts, ts, 0, path, file)
  {
    assert ts[0..] == ts;
    assert ts[..0] + PutAmong(ts, path, file).0 == PutAmong(ts, path, file).0;
  }

  lemma OfferNext(ts: seq<Tree>, us: seq<Tree>, i: nat, path: Path, file: File)
    requires i < |ts| && RefusedBefore(ts, us, i, path, file)
    ensures us[i] == ts[i]
    ensures PutNode(ts[i], path, file).1 ==>
              PutAmong(ts, path, file) == (us[i := PutNode(ts[i], path, file).0], true)
    ensures !PutNode(ts[i], path, file).1 ==>
              RefusedBefore(ts, us[i := PutNode(ts[i], path, file).0], i + 1, path, file)
  {
    var t := PutNode(ts[i], path, file).0;
    assert us[i] == us[i..][0] && us[i..][1..] == us[i + 1..] && ts[i..][1..] == ts[i + 1..];
    if PutNode(ts[i], path, file).1 {
      assert us[..i] + ([t] + ts[i + 1..]) == us[i := t];
    } else {
      assert us[..i] + ([t] + PutAmong(ts[i + 1..], path, file).0)
          == us[i := t][..i + 1] + PutAmong(ts[i + 1..], path, file).0;
    }
  }

  // ---------------------------------------------------------------------------
  // What can be observed of a tree
  // ---------------------------------------------------------------------------

  /** The file a lookup finds; a directory of that name listed earlier hides it. */
  function FileAt(t: Tree, path: Path): Option<File> {
    match GetNode(t, path)
    case Some(FileNode(f)) => Some(f)
    case _ => None
  }

  predicate HasDirectory(t: Tree, path: Path)
    decreases |path|
  {
    && t.DirectoryNode? && |path| > 0 && path[0] == t.name
    && (|path| > 1 ==> exists c :: c in t.children && HasDirectory(c, path[1..]))
  }

  /** A file is stored there, whether or not lookups find it. */
  predicate HasFile(t: Tree, path: Path)
    decreases |path|
  {
    if t.FileNode? then |path| == 1 && path[0] == t.file.name
    else |path| > 1 && path[0] == t.name && exists c :: c in t.children && HasFile(c, path[1..])
  }

  /** Sibling directories have different names, and so have sibling files. */
  ghost predicate UniqueNames(t: Tree)
    decreases t
  {
    t.DirectoryNode? ==>
      && (forall c :: c in t.children ==> UniqueNames(c))
      && (forall i, j :: 0 <= i < j < |t.children| && t.children[i].DirectoryNode? && t.children[j].DirectoryNode?
            ==> t.children[i].name != t.children[j].name)
      && (forall i, j :: 0 <= i < j < |t.children| && t.children[i].FileNode? && t.children[j].FileNode?
            ==> t.children[i].file.name != t.children[j].file.name)
  }

  /** Strictly below, in the directory hierarchy. */
  predicate Above(p: Path, q: Path) { |p| < |q| && p == q[..|p|] }

  predicate Fits(path: Path, file: File) { |path| > 1 && file.name == path[|path| - 1] }

  // ---------------------------------------------------------------------------
  // Children
  // ---------------------------------------------------------------------------

  lemma {:induction false} GetAmongAppended(ts: seq<Tree>, t: Tree, path: Path)
    ensures GetAmong(ts + [t], path) == if GetAmong(ts, path).Some? then GetAmong(ts, path) else GetNode(t, path)
    decreases |ts|
  {
    if |ts| == 0 {
      assert (ts + [t])[1..] == [];
    } else {
      assert (ts + [t])[1..] == ts[1..] + [t];
      GetAmongAppended(ts[1..], t, path);
    }
  }

  lemma {:induction false} NoneAmong(ts: seq<Tree>, path: Path)
    requires forall i :: 0 <= i < |ts| ==> GetNode(ts[i], path).None?
    ensures GetAmong(ts, path).None?
    decreases |ts|
  {
    if |ts| > 0 { NoneAmong(ts[1..], path); }
  }

  /** Only one child can answer a longer path, so its place in the list does not matter. */
  lemma {:induction false} OnlyOneAmong(ts: seq<Tree>, path: Path, k: nat)
    requires k < |ts| && forall i :: 0 <= i < |ts| && i != k ==> GetNode(ts[i], path).None?
    ensures GetAmong(ts, path) == GetNode(ts[k], path)
    decreases |ts|
  {
    if k == 0 {
      NoneAmong(ts[1..], path);
    } else {
      OnlyOneAmong(ts[1..], path, k - 1);
    }
  }

  /** Replacing a directory by one of the same name does not change which child answers a name. */
  lemma {:induction false} SameNameAmong(ts: seq<Tree>, us: seq<Tree>, name: string)
    requires |ts| == |us|
    requires forall i :: 0 <= i < |ts| ==>
               ts[i] == us[i] || (ts[i].DirectoryNode? && IsDirectoryNamed(us[i], ts[i].name))
    ensures var a, b := GetAmong(ts, [name]), GetAmong(us, [name]);
            a == b || (a.Some? && a.value.DirectoryNode? && b.Some? && b.value.DirectoryNode?)
    decreases |ts|
  {
    if |ts| > 0 { SameNameAmong(ts[1..], us[1..], name); }
  }

  /** With unique names, insertion below an existing directory touches that directory only. */
  lemma {:induction false} PutAmongTouchesOne(ts: seq<Tree>, path: Path, file: File, k: nat)
    requires |path| > 1 && k < |ts| && IsDirectoryNamed(ts[k], path[0])
    requires forall i :: 0 <= i < |ts| && i != k ==> !IsDirectoryNamed(ts[i], path[0])
    ensures PutAmong(ts, path, file) == (ts[k := PutNode(ts[k], path, file).0], PutNode(ts[k], path, file).1)
    decreases |ts|
  {
    if k == 0 {
      PutAmongNowhere(ts[1..], path, file);
      assert ts[0 := PutNode(ts[0], path, file).0] == [PutNode(ts[0], path, file).0] + ts[1..];
    } else {
      PutAmongTouchesOne(ts[1..], path, file, k - 1);
      assert [ts[0]] + ts[1..][k - 1 := PutNode(ts[k], path, file).0] == ts[k := PutNode(ts[k], path, file).0];
    }
  }

  lemma {:induction false} PutAmongNowhere(ts: seq<Tree>, path: Path, file: File)
    requires |path| > 0 ==> forall i :: 0 <= i < |ts| ==> !IsDirectoryNamed(ts[i], path[0])
    ensures PutAmong(ts, path, file) == (ts, false)
    decreases |ts|
  {
    if |ts| > 0 {
      PutAmongNowhere(ts[1..], path, file);
      assert [ts[0]] + ts[1..] == ts;
    }
  }

  // ---------------------------------------------------------------------------
  // One insertion
  // ---------------------------------------------------------------------------

  /** A directory in which a file may be put at this path. */
  ghost predicate Target(t: Tree, path: Path) {
    t.DirectoryNode? && UniqueNames(t) && |path| > 0 && path[0] == t.name
  }

  lemma TheDirectoryChild(t: Tree, name: string) returns (k: nat)
    requires t.DirectoryNode? && UniqueNames(t) && HasDirectoryChild(t.children, name)
    ensures k < |t.children| && IsDirectoryNamed(t.children[k], name) && UniqueNames(t.children[k])
    ensures forall i :: 0 <= i < |t.children| && i != k ==> !IsDirectoryNamed(t.children[i], name)
  {
    k :| 0 <= k < |t.children| && IsDirectoryNamed(t.children[k], name);
    assert t.children[k] in t.children;
  }

  /** Replaces child number k, or adds one at the end. */
  function SetChild(ts: seq<Tree>, k: nat, c: Tree): (r: seq<Tree>)
    requires k <= |ts|
    ensures k < |r| && r[k] == c && |ts| <= |r| <= |ts| + 1 && (k < |ts| ==> |r| == |ts|)
    ensures forall i :: 0 <= i < |r| && i != k ==> i < |ts| && r[i] == ts[i]
  {
    if k < |ts| then ts[k := c] else ts + [c]
  }

  /** The one child below which insertion goes on, made if it is missing. */
  ghost predicate NextChild(t: Tree, name: string, k: nat, child: Tree)
    requires t.DirectoryNode?
  {
    && k <= |t.children| && IsDirectoryNamed(child, name)
    && child == (if k < |t.children| then t.children[k] else DirectoryNode(name, []))
    && forall i :: 0 <= i < |t.children| && i != k ==> !IsDirectoryNamed(t.children[i], name)
  }

  /** Insertion two or more levels down, seen from the directory where it starts. */
  lemma PutDeep(t: Tree, path: Path, file: File) returns (k: nat, child: Tree)
    requires Target(t, path) && |path| > 2
    ensures NextChild(t, path[1], k, child) && Target(child, path[1..])
    ensures var (c, ok) := PutNode(child, path[1..], file);
            PutNode(t, path, file) == (DirectoryNode(t.name, SetChild(t.children, k, c)), ok)
  {
    var rest := path[1..];
    if HasDirectoryChild(t.children, rest[0]) {
      k := TheDirectoryChild(t, rest[0]);
      child := t.children[k];
      PutAmongTouchesOne(t.children, rest, file, k);
    } else {
      k := |t.children|;
      child := DirectoryNode(rest[0], []);
    }
  }

  lemma SetChildKeepsUniqueNames(t: Tree, name: string, k: nat, child: Tree, c: Tree)
    requires t.DirectoryNode? && UniqueNames(t) && NextChild(t, name, k, child)
    requires IsDirectoryNamed(c, name) && UniqueNames(c)
    ensures UniqueNames(DirectoryNode(t.name, SetChild(t.children, k, c)))
  {
    var ts, us := t.children, SetChild(t.children, k, c);
    forall u | u in us ensures UniqueNames(u) {
      var i :| 0 <= i < |us| && us[i] == u;
      if i != k { assert ts[i] in ts; }
    }
  }

  lemma AddFileKeepsUniqueNames(t: Tree, file: File)
    requires t.DirectoryNode? && UniqueNames(t) && !HasFileChild(t.children, file.name)
    ensures UniqueNames(DirectoryNode(t.name, t.children + [FileNode(file)]))
  {
    var ts, us := t.children, t.children + [FileNode(file)];
    forall u | u in us ensures UniqueNames(u) {
      if u in ts {} else { assert u == FileNode(file); }
    }
    forall i | 0 <= i < |ts| ensures us[i] == ts[i] && !IsFileNamed(ts[i], file.name) {
      assert ts[i] in ts;
    }
  }

  lemma {:induction false} PutKeepsUniqueNames(t: Tree, path: Path, file: File)
    requires Target(t, path)
    ensures UniqueNames(PutNode(t, path, file).0)
    decreases |path|
  {
    if |path| == 1 {
      PutAmongNowhere(t.children, path[1..], file);
      assert DirectoryNode(t.name, t.children) == t;
    } else if |path| == 2 {
      if PutNode(t, path, file).1 { AddFileKeepsUniqueNames(t, file); }
    } else {
      var k, child := PutDeep(t, path, file);
      PutKeepsUniqueNames(child, path[1..], file);
      SetChildKeepsUniqueNames(t, path[1], k, child, PutNode(child, path[1..], file).0);
    }
  }

  lemma HasFileInDirectory(t: Tree, path: Path)
    requires t.DirectoryNode? && |path| > 1 && path[0] == t.name
    ensures |path| == 2 ==> (HasFile(t, path) <==> HasFileChild(t.children, path[1]))
    ensures HasFile(t, path) <==> exists i :: 0 <= i < |t.children| && HasFile(t.children[i], path[1..])
  {
    if |path| == 2 {
      assert forall c :: c in t.children ==> (HasFile(c, path[1..]) <==> IsFileNamed(c, path[1]));
    }
  }

  /** A file further down can only be below the directory of the next name. */
  lemma HasFileBelowNext(t: Tree, path: Path, k: nat, child: Tree)
    requires t.DirectoryNode? && |path| > 2 && path[0] == t.name && NextChild(t, path[1], k, child)
    ensures HasFile(t, path) <==> HasFile(child, path[1..])
  {
    HasFileInDirectory(t, path);
  }

  /** Insertion succeeds exactly if the file has the name of the path and no file is stored there. */
  lemma {:induction false} PutSucceedsIff(t: Tree, path: Path, file: File)
    requires Target(t, path)
    ensures PutNode(t, path, file).1 <==> Fits(path, file) && !HasFile(t, path)
    decreases |path|
  {
    if |path| == 1 {
      PutAmongNowhere(t.children, path[1..], file);
    } else if |path| == 2 {
      HasFileInDirectory(t, path);
    } else {
      var k, child := PutDeep(t, path, file);
      PutSucceedsIff(child, path[1..], file);
      HasFileBelowNext(t, path, k, child);
    }
  }

  lemma SomeChildAfterSet(holds: Tree -> bool, ts: seq<Tree>, k: nat, c: Tree)
    requires k <= |ts|
    ensures (exists i :: 0 <= i < |SetChild(ts, k, c)| && holds(SetChild(ts, k, c)[i]))
       <==> holds(c) || exists i :: 0 <= i < |ts| && i != k && holds(ts[i])
  {
    var us := SetChild(ts, k, c);
    if i :| 0 <= i < |ts| && i != k && holds(ts[i]) {
      assert us[i] == ts[i];
    }
    assert us[k] == c;
  }

  lemma HasDirectoryIn(t: Tree, path: Path)
    requires t.DirectoryNode? && |path| > 1 && path[0] == t.name
    ensures HasDirectory(t, path) <==> exists i :: 0 <= i < |t.children| && HasDirectory(t.children[i], path[1..])
  {}

  lemma NewDirectoryIsAbove(child: Tree, path: Path, q: Path)
    requires |path| > 2 && |q| > 1 && child == DirectoryNode(path[1], [])
    ensures HasDirectory(child, q[1..]) ==> Above(q[1..], path[1..])
  {}

  lemma DirectoriesAfterSet(t: Tree, path: Path, k: nat, child: Tree, c: Tree, q: Path)
    requires t.DirectoryNode? && |path| > 2 && NextChild(t, path[1], k, child)
    requires |q| > 1 && q[0] == t.name
    requires HasDirectory(c, q[1..]) <==> HasDirectory(child, q[1..]) || Above(q[1..], path[1..])
    ensures HasDirectory(DirectoryNode(t.name, SetChild(t.children, k, c)), q)
       <==> HasDirectory(t, q) || Above(q[1..], path[1..])
  {
    var t' := DirectoryNode(t.name, SetChild(t.children, k, c));
    HasDirectoryIn(t, q);
    HasDirectoryIn(t', q);
    SomeChildAfterSet((u: Tree) => HasDirectory(u, q[1..]), t.children, k, c);
    if k == |t.children| { NewDirectoryIsAbove(child, path, q); }
  }

  /** Insertion adds exactly the directories above the path, whether it succeeds or not. */
  lemma {:induction false} PutAddsDirectories(t: Tree, path: Path, file: File, q: Path)
    requires Target(t, path)
    ensures HasDirectory(PutNode(t, path, file).0, q) <==> HasDirectory(t, q) || (|q| > 0 && Above(q, path))
    decreases |path|
  {
    var t' := PutNode(t, path, file).0;
    if |path| == 1 {
      PutAmongNowhere(t.children, path[1..], file);
    } else if |q| > 1 && q[0] == t.name {
      assert Above(q, path) <==> Above(q[1..], path[1..]) by {
        if |q| < |path| {
          assert path[..|q|][1..] == path[1..][..|q| - 1];
          assert path[..|q|] == [path[0]] + path[1..][..|q| - 1];
        }
      }
      if |path| > 2 {
        var k, child := PutDeep(t, path, file);
        PutAddsDirectories(child, path[1..], file, q[1..]);
        DirectoriesAfterSet(t, path, k, child, PutNode(child, path[1..], file).0, q);
      } else {
        HasDirectoryIn(t, q);
        HasDirectoryIn(t', q);
        SomeChildAfterSet((u: Tree) => HasDirectory(u, q[1..]), t.children, |t.children|, FileNode(file));
      }
    }
  }

  lemma FilesAfterSet(t: Tree, path: Path, k: nat, child: Tree, c: Tree, q: Path, stored: bool)
    requires t.DirectoryNode? && |path| > 2 && NextChild(t, path[1], k, child)
    requires |q| > 1 && q[0] == t.name
    requires HasFile(c, q[1..]) <==> HasFile(child, q[1..]) || stored
    ensures HasFile(DirectoryNode(t.name, SetChild(t.children, k, c)), q) <==> HasFile(t, q) || stored
  {
    var t' := DirectoryNode(t.name, SetChild(t.children, k, c));
    HasFileInDirectory(t, q);
    HasFileInDirectory(t', q);
    SomeChildAfterSet((u: Tree) => HasFile(u, q[1..]), t.children, k, c);
  }

  /** Insertion stores at most the one file, whether or not lookups will see it. */
  lemma {:induction false} PutStoresFile(t: Tree, path: Path, file: File, q: Path)
    requires Target(t, path)
    ensures HasFile(PutNode(t, path, file).0, q) <==> HasFile(t, q) || (q == path && Fits(path, file))
    decreases |path|
  {
    var t' := PutNode(t, path, file).0;
    if |path| == 1 {
      PutAmongNowhere(t.children, path[1..], file);
    } else if |q| > 1 && q[0] == t.name {
      assert q == path <==> q[1..] == path[1..] by {
        assert q == [q[0]] + q[1..] && path == [path[0]] + path[1..];
      }
      if |path| > 2 {
        var k, child := PutDeep(t, path, file);
        PutStoresFile(child, path[1..], file, q[1..]);
        FilesAfterSet(t, path, k, child, PutNode(child, path[1..], file).0, q, q == path && Fits(path, file));
      } else {
        HasFileInDirectory(t, path);
        HasFileInDirectory(t, q);
        HasFileInDirectory(t', q);
        SomeChildAfterSet((u: Tree) => HasFile(u, q[1..]), t.children, |t.children|, FileNode(file));
      }
    }
  }

  lemma {:induction false} GetAmongFinds(ts: seq<Tree>, path: Path)
    ensures GetAmong(ts, path).Some? <==> exists i :: 0 <= i < |ts| && GetNode(ts[i], path).Some?
    ensures GetAmong(ts, path).Some? ==> exists i :: 0 <= i < |ts| && GetNode(ts[i], path) == GetAmong(ts, path)
    decreases |ts|
  {
    if |ts| > 0 {
      GetAmongFinds(ts[1..], path);
      forall i | 0 < i < |ts| ensures ts[i] == ts[1..][i - 1] {}
      if GetNode(ts[0], path).None? && GetAmong(ts[1..], path).Some? {
        var j :| 0 <= j < |ts[1..]| && GetNode(ts[1..][j], path) == GetAmong(ts[1..], path);
        assert ts[j + 1] == ts[1..][j];
      }
    }
  }

  /** A file put beside no file of its name is found, unless a directory of its name is there first. */
  lemma AddedFileLookup(t: Tree, file: File, q: Path)
    requires t.DirectoryNode? && !HasFileChild(t.children, file.name) && |q| > 1 && q[0] == t.name
    ensures FileAt(DirectoryNode(t.name, t.children + [FileNode(file)]), q)
         == if q[1..] == [file.name] && !HasDirectoryChild(t.children, file.name) then Some(file) else FileAt(t, q)
  {
    var ts, q' := t.children, q[1..];
    GetAmongAppended(ts, FileNode(file), q');
    GetAmongFinds(ts, q');
    if q' == [file.name] {
      if GetAmong(ts, q').Some? {
        var i :| 0 <= i < |ts| && GetNode(ts[i], q') == GetAmong(ts, q');
        assert ts[i] in ts && IsDirectoryNamed(ts[i], file.name);
      } else {
        forall c | c in ts ensures !IsDirectoryNamed(c, file.name) {
          assert GetNode(c, q').None?;
        }
      }
    }
  }

  lemma {:induction false} GetAmongPointwise(ts: seq<Tree>, us: seq<Tree>, path: Path)
    requires |ts| == |us| && forall i :: 0 <= i < |ts| ==> GetNode(ts[i], path) == GetNode(us[i], path)
    ensures GetAmong(ts, path) == GetAmong(us, path)
    decreases |ts|
  {
    if |ts| > 0 { GetAmongPointwise(ts[1..], us[1..], path); }
  }

  /** Lookups through the replaced child change as its own lookups do; all others stay. */
  lemma LookupAfterSet(t: Tree, name: string, k: nat, child: Tree, c: Tree, q: Path)
    requires t.DirectoryNode? && NextChild(t, name, k, child) && IsDirectoryNamed(c, name)
    requires |q| > 1 && q[0] == t.name
    ensures var t' := DirectoryNode(t.name, SetChild(t.children, k, c));
            if |q| > 2 && q[1] == name
            then FileAt(t, q) == FileAt(child, q[1..]) && FileAt(t', q) == FileAt(c, q[1..])
            else FileAt(t', q) == FileAt(t, q)
  {
    var ts, us, q' := t.children, SetChild(t.children, k, c), q[1..];
    if |q'| > 1 && q'[0] == name {
      OnlyOneAmong(us, q', k);
      if k < |ts| {
        OnlyOneAmong(ts, q', k);
      } else {
        NoneAmong(ts, q');
        assert GetAmong(child.children, q'[1..]).None?;
      }
    } else if k == |ts| {
      GetAmongAppended(ts, c, q');
    } else if |q'| > 1 {
      GetAmongPointwise(ts, us, q');
    } else {
      assert q' == [q'[0]];
      SameNameAmong(ts, us, q'[0]);
    }
  }

  lemma HasDirectoryBelowNext(t: Tree, path: Path, k: nat, child: Tree)
    requires t.DirectoryNode? && |path| > 2 && path[0] == t.name && NextChild(t, path[1], k, child)
    ensures HasDirectory(t, path) <==> HasDirectory(child, path[1..])
  {
    HasDirectoryIn(t, path);
  }

  /** A successful insertion with no directory in the way binds its path; no other lookup ever changes. */
  lemma {:induction false} PutChangesOneLookup(t: Tree, path: Path, file: File, q: Path)
    requires Target(t, path)
    ensures FileAt(PutNode(t, path, file).0, q)
         == if q == path && PutNode(t, path, file).1 && !HasDirectory(t, path) then Some(file) else FileAt(t, q)
    decreases |path|
  {
    if |path| == 1 {
      PutAmongNowhere(t.children, path[1..], file);
    } else if |q| > 1 && q[0] == t.name {
      assert q == path <==> q[1..] == path[1..] by {
        assert q == [q[0]] + q[1..] && path == [path[0]] + path[1..];
      }
      if |path| == 2 {
        if PutNode(t, path, file).1 {
          AddedFileLookup(t, file, q);
          assert HasDirectory(t, path) <==> HasDirectoryChild(t.children, file.name);
        }
      } else {
        var k, child := PutDeep(t, path, file);
        var c := PutNode(child, path[1..], file).0;
        PutChangesOneLookup(child, path[1..], file, q[1..]);
        LookupAfterSet(t, path[1], k, child, c, q);
        HasDirectoryBelowNext(t, path, k, child);
      }
    }
  }

  // ---------------------------------------------------------------------------
  // Histories
  // ---------------------------------------------------------------------------

  datatype Put = Put(path: Path, file: File)

  const EMPTY_ROOT := DirectoryNode("", [])

  function After(history: seq<Put>): Tree {
    if |history| == 0 then EMPTY_ROOT
    else
      var n := |history| - 1;
      PutNode(After(history[..n]), history[n].path, history[n].file).0
  }

  /** Some put so far went below q, so there is a directory at q. */
  ghost predicate Entered(history: seq<Put>, q: Path) {
    exists i :: 0 <= i < |history| && Above(q, history[i].path)
  }

  /** Some put so far offered a file of the right name at q. */
  ghost predicate Offered(history: seq<Put>, q: Path) {
    exists i :: 0 <= i < |history| && history[i].path == q && Fits(q, history[i].file)
  }

  /** The map that the file system implements: first come, first served, and directories win. */
  ghost function Lookup(history: seq<Put>, q: Path): Option<File> {
    if |history| == 0 then None
    else
      var n := |history| - 1;
      var before, last := history[..n], history[n];
      if last.path == q && Fits(q, last.file) && !Offered(before, q) && !Entered(before, q)
      then Some(last.file) else Lookup(before, q)
  }

  ghost predicate Rooted(history: seq<Put>) {
    forall i :: 0 <= i < |history| ==> |history[i].path| > 0 && history[i].path[0] == ""
  }

  /** The first fitting put at a path decides, and counts only if nothing was put below the path before. */
  lemma {:induction false} LookupIsFirstOffer(history: seq<Put>, q: Path, file: File)
    ensures Lookup(history, q) == Some(file) <==>
              exists i :: 0 <= i < |history| && history[i] == Put(q, file) && Fits(q, file)
                && !Offered(history[..i], q) && !Entered(history[..i], q)
    decreases |history|
  {
    if |history| > 0 {
      var n := |history| - 1;
      LookupIsFirstOffer(history[..n], q, file);
      forall i | 0 <= i <= n ensures history[..n][..i] == history[..i] {}
      if i :| 0 <= i < n && history[i] == Put(q, file) && Fits(q, file)
              && !Offered(history[..i], q) && !Entered(history[..i], q) {
        assert history[..n][i] == history[i];
        assert Offered(history[..n], q);
      }
      var before := history[..n];
      if i :| 0 <= i < n && before[i] == Put(q, file) && Fits(q, file)
              && !Offered(before[..i], q) && !Entered(before[..i], q) {
        assert history[i] == history[..n][i];
        assert Offered(history[..n], q);
      }
    }
  }

  lemma EnteredOneMore(history: seq<Put>, put: Put, q: Path)
    ensures Entered(history + [put], q) <==> Entered(history, q) || Above(q, put.path)
    ensures Offered(history + [put], q) <==> Offered(history, q) || (put.path == q && Fits(q, put.file))
  {
    var longer := history + [put];
    assert longer[|history|] == put && forall i :: 0 <= i < |history| ==> longer[i] == history[i];
  }

  /** After any history, every lookup agrees with the map, and the next put succeeds as the map predicts. */
  lemma {:induction false} HistoryDeterminesLookups(history: seq<Put>, q: Path)
    requires Rooted(history) && |q| > 0 && q[0] == ""
    ensures After(history).DirectoryNode? && After(history).name == "" && UniqueNames(After(history))
    ensures FileAt(After(history), q) == Lookup(history, q)
    ensures HasFile(After(history), q) <==> Offered(history, q)
    ensures HasDirectory(After(history), q) <==> q == [""] || Entered(history, q)
    ensures forall file :: PutNode(After(history), q, file).1 <==> Fits(q, file) && !Offered(history, q)
    decreases |history|
  {
    if |history| > 0 {
      var n := |history| - 1;
      var before, last := history[..n], history[n];
      HistoryDeterminesLookups(before, q);
      HistoryDeterminesLookups(before, last.path);
      PutKeepsUniqueNames(After(before), last.path, last.file);
      PutAddsDirectories(After(before), last.path, last.file, q);
      PutStoresFile(After(before), last.path, last.file, q);
      PutChangesOneLookup(After(before), last.path, last.file, q);
      PutSucceedsIff(After(before), last.path, last.file);
      EnteredOneMore(before, last, q);
      assert before + [last] == history;
    } else {
      assert |q| > 1 ==> GetAmong(EMPTY_ROOT.children, q[1..]).None?;
    }
    forall file ensures PutNode(After(history), q, file).1 <==> Fits(q, file) && !Offered(history, q) {
      PutSucceedsIff(After(history), q, file);
    }
  }

  /** What one more put makes of a history. */
  lemma AfterOneMore(history: seq<Put>, put: Put)
    requires Rooted(history) && |put.path| > 0 && put.path[0] == ""
    ensures Rooted(history + [put])
    ensures PutNode(After(history), put.path, put.file)
         == (After(history + [put]), Fits(put.path, put.file) && !Offered(history, put.path))
  {
    HistoryDeterminesLookups(history, put.path);
    assert (history + [put])[..|history|] == history;
  }

  lemma PutBelowDirectory(inner: File)
    requires inner.name == "f"
    ensures var t := PutNode(EMPTY_ROOT, ["", "d", "f"], inner).0;
            && Target(t, ["", "d"]) && HasDirectory(t, ["", "d"]) && !HasFile(t, ["", "d"])
            && FileAt(t, ["", "d"]).None? && FileAt(t, ["", "d", "f"]) == Some(inner)
  {
    var d, f := ["", "d"], ["", "d", "f"];
    assert f[..2] == d;
    PutKeepsUniqueNames(EMPTY_ROOT, f, inner);
    PutSucceedsIff(EMPTY_ROOT, f, inner);
    PutAddsDirectories(EMPTY_ROOT, f, inner, d);
    PutStoresFile(EMPTY_ROOT, f, inner, d);
    PutChangesOneLookup(EMPTY_ROOT, f, inner, d);
    PutChangesOneLookup(EMPTY_ROOT, f, inner, f);
  }

  /** A file put at /d/f and another then at /d: the second one is stored, but not found. */
  lemma DirectoriesHideFiles(inner: File, outer: File)
    requires inner.name == "f" && outer.name == "d"
    ensures var first := PutNode(EMPTY_ROOT, ["", "d", "f"], inner).0;
            var (second, ok) := PutNode(first, ["", "d"], outer);
            && ok && HasFile(second, ["", "d"]) && FileAt(second, ["", "d"]).None?
            && FileAt(second, ["", "d", "f"]) == Some(inner)
  {
    PutBelowDirectory(inner);
    var t := PutNode(EMPTY_ROOT, ["", "d", "f"], inner).0;
    var d, f := ["", "d"], ["", "d", "f"];
    PutSucceedsIff(t, d, outer);
    PutStoresFile(t, d, outer, d);
    PutChangesOneLookup(t, d, outer, d);
    PutChangesOneLookup(t, d, outer, f);
  }

  /** A refused insertion: the file does not have the name at the end of its path, but a directory is made. */
  lemma RefusalsLeaveDirectories(file: File)
    requires file.name != "f"
    ensures var (t, ok) := PutNode(EMPTY_ROOT, ["", "d", "f"], file);
            !ok && HasDirectory(t, ["", "d"]) && !HasDirectory(EMPTY_ROOT, ["", "d"])
  {
    var path := ["", "d", "f"];
    assert path[..2] == ["", "d"];
    PutSucceedsIff(EMPTY_ROOT, path, file);
    PutAddsDirectories(EMPTY_ROOT, path, file, ["", "d"]);
  }
}
