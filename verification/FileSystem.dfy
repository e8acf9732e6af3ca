/**
 * The mutable directory tree and the file system on top of it, refined to the tree of values
 * and from there to a map from normalised paths to files.
 */
module FileSystem {
  import opened Common
  import opened Paths
  import opened FileTree

  datatype Node = FileEntry(file: File) | DirectoryEntry(directory: Directory)

  /** A file answers to its own name only, and takes no files. */
  function FileGetNode(file: File, parts: seq<string>): (r: Option<Node>)
    ensures r.Some? <==> GetNode(FileNode(file), parts).Some?
    ensures r.Some? ==> r.value == FileEntry(file) && GetNode(FileNode(file), parts) == Some(FileNode(file))
  {
    if |parts| == 1 && parts[0] == file.name then Some(FileEntry(file)) else None
  }

  class Directory {
    const name: string
    var children: seq<Node>
    /** The value this directory stands for. */
    ghost var tree: Tree
    ghost var Repr: set<object>

    ghost predicate Valid()
      reads this, Repr
      decreases Repr
      ensures Valid() ==> this in Repr
    {
      && this in Repr
      && tree.DirectoryNode? && tree.name == name && |tree.children| == |children|
      && (forall i :: 0 <= i < |children| && children[i].FileEntry? ==> tree.children[i] == FileNode(children[i].file))
      && (forall i :: 0 <= i < |children| && children[i].DirectoryEntry? ==>
            var d := children[i].directory;
            d in Repr && d.Repr <= Repr && this !in d.Repr && d.Valid() && tree.children[i] == d.tree)
      && (forall i, j :: 0 <= i < j < |children| && children[i].DirectoryEntry? && children[j].DirectoryEntry? ==>
            children[i].directory.Repr !! children[j].directory.Repr)
    }

    constructor (name: string)
      ensures Valid() && fresh(Repr) && this.name == name && tree == DirectoryNode(name, [])
    {
      this.name := name;
      children := [];
      tree := DirectoryNode(name, []);
      Repr := {this};
    }

    method HasChildDirectory(name: string) returns (b: bool)
      requires Valid()
      ensures b <==> HasDirectoryChild(tree.children, name)
    {
      b := false;
      for i := 0 to |children|
        invariant b <==> exists j :: 0 <= j < i && IsDirectoryNamed(tree.children[j], name)
      {
        if children[i].DirectoryEntry? && children[i].directory.name == name { b := true; }
        assert IsDirectoryNamed(tree.children[i], name)
          <==> (children[i].DirectoryEntry? && children[i].directory.name == name) by {
          if children[i].DirectoryEntry? { assert children[i].directory.Valid(); }
        }
      }
    }

    method HasChildFile(name: string) returns (b: bool)
      requires Valid()
      ensures b <==> HasFileChild(tree.children, name)
    {
      b := false;
      for i := 0 to |children|
        invariant b <==> exists j :: 0 <= j < i && IsFileNamed(tree.children[j], name)
      {
        if children[i].FileEntry? && children[i].file.name == name { b := true; }
        assert IsFileNamed(tree.children[i], name) <==> children[i].FileEntry? && children[i].file.name == name by {
          if children[i].DirectoryEntry? { assert children[i].directory.Valid(); }
        }
      }
    }

    method GetNode(parts: seq<string>) returns (r: Option<Node>)
      requires Valid()
      ensures Found(FileTree.GetNode(tree, parts), r)
      decreases |parts|
    {
      if |parts| == 0 || parts[0] != name { return None; }
      if |parts| == 1 { return Some(DirectoryEntry(this)); }
      var rest := parts[1..];
      for i := 0 to |children|
        invariant GetAmong(tree.children, rest) == GetAmong(tree.children[i..], rest)
      {
        if children[i].FileEntry? {
          r := FileGetNode(children[i].file, rest);
        } else {
          r := children[i].directory.GetNode(rest);
        }
        if r.Some? { return; }
      }
      return None;
    }

    method PutNode(parts: seq<string>, file: File) returns (ok: bool)
      requires Valid()
      modifies Repr
      ensures Valid() && fresh(Repr - old(Repr))
      ensures (tree, ok) == FileTree.PutNode(old(tree), parts, file)
      decreases |parts|, 0
    {
      if |parts| == 0 || parts[0] != name { return false; }
      var rest := parts[1..];
      if |rest| == 1 {
        var taken := HasChildFile(rest[0]);
        if !taken && file.name == rest[0] {
          children := children + [FileEntry(file)];
          tree := DirectoryNode(name, tree.children + [FileNode(file)]);
          return true;
        }
        return false;
      }
      var known := HasChildDirectory(if |rest| > 0 then rest[0] else "");
      if |rest| > 0 && !known {
        ok := PutInNewDirectory(rest, file);
        return;
      }
      ok := PutInChildren(rest, file);
    }

    method PutInNewDirectory(rest: seq<string>, file: File) returns (ok: bool)
      requires Valid() && |rest| > 0
      modifies Repr
      ensures Valid() && fresh(Repr - old(Repr))
      ensures var (made, inserted) := FileTree.PutNode(DirectoryNode(rest[0], []), rest, file);
              tree == DirectoryNode(name, old(tree).children + [made]) && ok == inserted
      decreases |rest|, 1
    {
      var newdir := new Directory(rest[0]);
      ok := newdir.PutNode(rest, file);
      assert fresh(newdir.Repr) && newdir.Repr !! Repr;
      children := children + [DirectoryEntry(newdir)];
      tree := DirectoryNode(name, tree.children + [newdir.tree]);
      Repr := Repr + newdir.Repr;
    }

    method PutInChildren(rest: seq<string>, file: File) returns (ok: bool)
      requires Valid()
      modifies Repr
      ensures Valid() && fresh(Repr - old(Repr)) && tree.name == name
      ensures (tree.children, ok) == PutAmong(old(tree).children, rest, file)
      decreases |rest|, 2
    {
      ghost var ts := tree.children;
      NoneRefused(ts, rest, file);
      for i := 0 to |children|
        invariant Valid() && fresh(Repr - old(Repr))
        invariant children == old(children) && RefusedBefore(ts, tree.children, i, rest, file)
      {
        OfferNext(ts, tree.children, i, rest, file);
        if children[i].DirectoryEntry? {
          ok := PutInChild(i, rest, file);
          if ok { return; }
        } else {
          assert tree.children[i := ts[i]] == tree.children;
        }
      }
      assert tree.children[..|ts|] + [] == tree.children;
      return false;
    }

    method PutInChild(i: nat, rest: seq<string>, file: File) returns (ok: bool)
      requires Valid() && i < |children| && children[i].DirectoryEntry?
      modifies Repr
      ensures Valid() && fresh(Repr - old(Repr)) && children == old(children)
      ensures tree == DirectoryNode(name,
                old(tree).children[i := FileTree.PutNode(old(tree).children[i], rest, file).0])
      ensures ok == FileTree.PutNode(old(tree).children[i], rest, file).1
      decreases |rest|, 1
    {
      var d := children[i].directory;
      ok := d.PutNode(rest, file);
      tree := DirectoryNode(name, tree.children[i := d.tree]);
      Repr := Repr + d.Repr;
    }
  }

  /** What a lookup in the heap returns, against what the tree of values says. */
  ghost predicate Found(expected: Option<Tree>, r: Option<Node>)
    reads if r.Some? && r.value.DirectoryEntry? then {r.value.directory} else {}
  {
    match expected
    case None => r.None?
    case Some(FileNode(f)) => r == Some(FileEntry(f))
    case Some(t) => r.Some? && r.value.DirectoryEntry? && r.value.directory.tree == t
  }

  class InMemoryFileSystem {
    const rootDirectory: Directory
    /** All files offered so far under a path that could be normalised. */
    ghost var history: seq<Put>

    ghost predicate Valid()
      reads this, rootDirectory, rootDirectory.Repr
    {
      && rootDirectory.Valid() && rootDirectory.name == "" && this !in rootDirectory.Repr
      && FileTree.Rooted(history) && rootDirectory.tree == After(history)
    }

    constructor ()
      ensures Valid() && history == [] && fresh(rootDirectory.Repr)
    {
      rootDirectory := new Directory("");
      history := [];
    }

    /** Finds what the map from normalised paths to files holds. */
    method GetFile(path: string) returns (r: Option<File>)
      requires Valid()
      ensures r == match Normalize(path) case None => None case Some(parts) => Lookup(history, parts)
    {
      var processedParts := ProcessPath(path);
      if processedParts.None? { return None; }
      NormalizedIsClean(path);
      HistoryDeterminesLookups(history, processedParts.value);
      var node := rootDirectory.GetNode(processedParts.value);
      if node.Some? && node.value.FileEntry? { return Some(node.value.file); }
      return None;
    }

    /** Extends the history by an offer at a normalised path. */
    method PutAt(parts: seq<string>, file: File) returns (ok: bool)
      requires Valid() && |parts| > 0 && parts[0] == ""
      modifies this, rootDirectory.Repr
      ensures Valid() && fresh(rootDirectory.Repr - old(rootDirectory.Repr))
      ensures history == old(history) + [Put(parts, file)]
      ensures ok <==> Fits(parts, file) && !Offered(old(history), parts)
    {
      AfterOneMore(history, Put(parts, file));
      history := history + [Put(parts, file)];
      ok := rootDirectory.PutNode(parts, file);
    }

    /** Accepts the first file offered under its own name at each path. */
    method PutFile(path: string, file: File) returns (ok: bool)
      requires Valid()
      modifies this, rootDirectory.Repr
      ensures Valid() && fresh(rootDirectory.Repr - old(rootDirectory.Repr))
      ensures match Normalize(path)
              case None => !ok && history == old(history)
              case Some(parts) =>
                && history == old(history) + [Put(parts, file)]
                && (ok <==> Fits(parts, file) && !Offered(old(history), parts))
    {
      var processedParts := ProcessPath(path);
      if processedParts.None? { return false; }
      NormalizedIsClean(path);
      ok := PutAt(processedParts.value, file);
    }
  }
}
