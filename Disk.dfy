/** The local disk as the service sees it through System.IO: a map from paths
    (relative to AppContext.BaseDirectory) to directories and files. */
module Disk {
  import opened Wrappers
  import opened Strings
  import opened Paths

  datatype Entry = Dir | File(data: seq<byte>)

  type Tree = map<string, Entry>

  predicate IsDir(t: Tree, p: string)
  {
    p in t && t[p].Dir?
  }

  predicate IsFile(t: Tree, p: string)
  {
    p in t && t[p].File?
  }

  /** Every entry sits in a directory that exists (or at the top level). */
  predicate Consistent(t: Tree)
  {
    forall p :: p in t ==> p != [] && (Parent(p) == [] || IsDir(t, Parent(p)))
  }

  /** Directory.Delete(d, recursive: true): `d` and everything below it go,
      nothing else changes. */
  function RemoveTree(t: Tree, d: string): (r: Tree)
    ensures forall p :: p in r <==> p in t && !InTree(d, p)
    ensures forall p :: p in r ==> r[p] == t[p]
  {
    map p | p in t && !InTree(d, p) :: t[p]
  }

  /** `d` and every directory above it. */
  function Ancestors(d: string): (a: set<string>)
    ensures d != [] ==> d in a
    ensures [] !in a
    ensures forall x :: x in a ==> InTree(x, d)
    decreases |d|
  {
    if d == [] then {}
    else
      var up := Ancestors(Parent(d));
      forall x | x in up ensures InTree(x, d) {
        InTreeParent(x, d);
      }
      {d} + up
  }

  /** Directory.CreateDirectory(d): creates `d` and whatever directories above
      it are missing; fails when one of them is an existing file. */
  function MakeDirs(t: Tree, d: string): (r: Option<Tree>)
    ensures r.Some? <==> forall a :: a in Ancestors(d) ==> !IsFile(t, a)
    ensures r.Some? ==> forall p :: p in t ==> p in r.value && r.value[p] == t[p]
    ensures r.Some? ==> forall p :: p in r.value ==> p in t || p in Ancestors(d)
    ensures r.Some? ==> forall a :: a in Ancestors(d) ==> IsDir(r.value, a)
  {
    if exists a :: a in Ancestors(d) && IsFile(t, a) then None
    else Some(map p | p in t.Keys + Ancestors(d) :: if p in t then t[p] else Dir)
  }

  /** File.Create(p) followed by writing `data`: fails when `p` is a directory
      or its directory does not exist; an existing file is overwritten. */
  function WriteFile(t: Tree, p: string, data: seq<byte>): (r: Option<Tree>)
    ensures r.Some? <==> p != [] && !IsDir(t, p) && (Parent(p) == [] || IsDir(t, Parent(p)))
    ensures r.Some? ==> IsFile(r.value, p) && r.value[p].data == data
    ensures r.Some? ==> forall q :: q != p ==> (q in r.value <==> q in t) && (q in t ==> r.value[q] == t[q])
  {
    if p == [] || IsDir(t, p) || (Parent(p) != [] && !IsDir(t, Parent(p))) then None
    else Some(t[p := File(data)])
  }

  /** File.Delete(p) on an existing file. */
  function RemoveFile(t: Tree, p: string): (r: Tree)
    requires IsFile(t, p)
    ensures p !in r
    ensures forall q :: q != p ==> (q in r <==> q in t) && (q in t ==> r[q] == t[q])
  {
    t - {p}
  }

  /** File.Move(src, dst): fails when `src` is not a file, `dst` already
      exists or its directory does not. */
  function MoveFile(t: Tree, src: string, dst: string): (r: Option<Tree>)
    ensures r.Some? <==> IsFile(t, src) && dst != [] && dst !in t && (Parent(dst) == [] || IsDir(t, Parent(dst)))
    ensures r.Some? ==> src !in r.value && IsFile(r.value, dst) && r.value[dst] == t[src]
    ensures r.Some? ==> forall q :: q != src && q != dst ==> (q in r.value <==> q in t) && (q in t ==> r.value[q] == t[q])
  {
    if !IsFile(t, src) || dst == [] || dst in t || (Parent(dst) != [] && !IsDir(t, Parent(dst))) then None
    else Some((t - {src})[dst := t[src]])
  }

  lemma RemoveTreeConsistent(t: Tree, d: string)
    requires Consistent(t)
    ensures Consistent(RemoveTree(t, d))
  {
    var r := RemoveTree(t, d);
    forall p | p in r && Parent(p) != []
      ensures IsDir(r, Parent(p))
    {
      if InTree(d, Parent(p)) {
        InTreeParent(d, p);
      }
    }
  }

  /** The parent of an ancestor is again an ancestor (or the top level). */
  lemma {:induction false} AncestorsClosed(d: string, a: string)
    requires a in Ancestors(d)
    ensures Parent(a) == [] || Parent(a) in Ancestors(d)
    decreases |d|
  {
    if a != d {
      AncestorsClosed(Parent(d), a);
    }
  }

  lemma MakeDirsConsistent(t: Tree, d: string)
    requires Consistent(t) && MakeDirs(t, d).Some?
    ensures Consistent(MakeDirs(t, d).value)
  {
    var r := MakeDirs(t, d).value;
    forall p | p in r
      ensures p != [] && (Parent(p) == [] || IsDir(r, Parent(p)))
    {
      if p !in t {
        AncestorsClosed(d, p);
      }
    }
  }

  lemma WriteFileConsistent(t: Tree, p: string, data: seq<byte>)
    requires Consistent(t) && WriteFile(t, p, data).Some?
    ensures Consistent(WriteFile(t, p, data).value)
  {
  }

  lemma RemoveFileConsistent(t: Tree, p: string)
    requires Consistent(t) && IsFile(t, p)
    ensures Consistent(RemoveFile(t, p))
  {
  }

  lemma MoveFileConsistent(t: Tree, src: string, dst: string)
    requires Consistent(t) && MoveFile(t, src, dst).Some?
    ensures Consistent(MoveFile(t, src, dst).value)
  {
  }

  /** In a consistent tree anything strictly below `d` implies that `d` is an
      existing directory. */
  lemma {:induction false} DescendantHasDirAncestor(t: Tree, d: string, p: string)
    requires Consistent(t) && d != [] && p in t && InTree(d, p) && p != d
    ensures IsDir(t, d)
    decreases |p|
  {
    ParentInTree(d, p);
    var q := Parent(p);
    if q != d {
      DescendantHasDirAncestor(t, d, q);
    }
  }

  /** Removing a tree is idempotent. */
  lemma RemoveTreeIdempotent(t: Tree, d: string)
    ensures RemoveTree(RemoveTree(t, d), d) == RemoveTree(t, d)
  {
  }

  /** After CreateDirectory on a missing directory whose subtree was removed,
      the directory exists and holds nothing. */
  lemma FreshDirectoryEmpty(t: Tree, d: string)
    requires Consistent(t) && d != [] && MakeDirs(RemoveTree(t, d), d).Some?
    ensures var r := MakeDirs(RemoveTree(t, d), d).value;
      IsDir(r, d) && forall p :: p in r && InTree(d, p) ==> p == d
  {
    var r := MakeDirs(RemoveTree(t, d), d).value;
    forall p | p in r && InTree(d, p)
      ensures p == d
    {
      if p !in RemoveTree(t, d) {
        assert InTree(p, d);
      }
    }
  }

  /** The file system, shared by the storage, the converter and the consumer. */
  class FileSystem {
    var tree: Tree

    ghost predicate Valid()
      reads this
    {
      Consistent(tree)
    }

    constructor (t: Tree)
      requires Consistent(t)
      ensures Valid() && tree == t
    {
      tree := t;
    }

    /** Directory.Exists. */
    method DirectoryExists(p: string) returns (b: bool)
      ensures b <==> p in tree && tree[p] == Dir
    {
      b := IsDir(tree, p);
    }

    /** File.Exists. */
    method FileExists(p: string) returns (b: bool)
      ensures b <==> p in tree && tree[p].File?
    {
      b := IsFile(tree, p);
    }

    /** DirectoryInfo.Delete(true) on a directory; `locked` stands for a file
        in use below it, which makes the call throw and leave the tree as it
        was. */
    method DeleteDirectory(d: string, locked: bool) returns (ok: bool)
      requires Valid()
      modifies this
      ensures Valid()
      ensures ok == (IsDir(old(tree), d) && !locked)
      ensures tree == if ok then RemoveTree(old(tree), d) else old(tree)
    {
      ok := IsDir(tree, d) && !locked;
      if ok {
        RemoveTreeConsistent(tree, d);
        tree := RemoveTree(tree, d);
      }
    }

    /** Directory.CreateDirectory. */
    method CreateDirectory(d: string) returns (ok: bool)
      requires Valid()
      modifies this
      ensures Valid()
      ensures ok == MakeDirs(old(tree), d).Some?
      ensures tree == if ok then MakeDirs(old(tree), d).value else old(tree)
    {
      var r := MakeDirs(tree, d);
      ok := r.Some?;
      if ok {
        MakeDirsConsistent(tree, d);
        tree := r.value;
      }
    }

    /** File.Create followed by copying `data` into the new file. */
    method CreateFile(p: string, data: seq<byte>) returns (ok: bool)
      requires Valid()
      modifies this
      ensures Valid()
      ensures ok == WriteFile(old(tree), p, data).Some?
      ensures tree == if ok then WriteFile(old(tree), p, data).value else old(tree)
    {
      var r := WriteFile(tree, p, data);
      ok := r.Some?;
      if ok {
        WriteFileConsistent(tree, p, data);
        tree := r.value;
      }
    }

    /** File.Delete; `locked` stands for a file in use, which makes it throw. */
    method DeleteFile(p: string, locked: bool) returns (ok: bool)
      requires Valid()
      modifies this
      ensures Valid()
      ensures ok == (!IsDir(old(tree), p) && !locked)
      ensures tree == if ok && IsFile(old(tree), p) then RemoveFile(old(tree), p) else old(tree)
    {
      ok := !IsDir(tree, p) && !locked;
      if ok && IsFile(tree, p) {
        RemoveFileConsistent(tree, p);
        tree := RemoveFile(tree, p);
      }
    }

    /** File.Move. */
    method Move(src: string, dst: string) returns (ok: bool)
      requires Valid()
      modifies this
      ensures Valid()
      ensures ok == MoveFile(old(tree), src, dst).Some?
      ensures tree == if ok then MoveFile(old(tree), src, dst).value else old(tree)
    {
      var r := MoveFile(tree, src, dst);
      ok := r.Some?;
      if ok {
        MoveFileConsistent(tree, src, dst);
        tree := r.value;
      }
    }
  }
}
