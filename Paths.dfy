/** System.IO.Path on the Windows host the service runs on: '\\' is the
    directory separator and '/' the alternative one. Paths are relative to
    AppContext.BaseDirectory. */
module Paths {
  import opened Strings

  const Separator: char := '\\'
  const Separators: set<char> := {'\\', '/'}

  predicate IsSep(c: char)
  {
    c in Separators
  }

  /** A drive-letter root "X:" at the head of the path. */
  predicate HasDriveRoot(p: string)
  {
    |p| >= 2 && p[1] == ':' && ('A' <= p[0] <= 'Z' || 'a' <= p[0] <= 'z')
  }

  /** Path.IsPathRooted: a leading separator or a drive letter and ':'. */
  predicate IsRooted(p: string)
  {
    (|p| >= 1 && IsSep(p[0])) || HasDriveRoot(p)
  }

  /** Path.Combine(a, b): an empty `b` gives `a`, a rooted `b` replaces `a`,
      otherwise one separator is put between them unless `a` ends with one. */
  function Combine(a: string, b: string): (r: string)
    ensures b == [] ==> r == a
    ensures b != [] && IsRooted(b) ==> r == b
    ensures b != [] && !IsRooted(b) && a != [] && !IsSep(a[|a| - 1]) ==> r == a + [Separator] + b
  {
    if b == [] then a
    else if a == [] || IsRooted(b) then b
    else if IsSep(a[|a| - 1]) then a + b
    else a + [Separator] + b
  }

  /** The containing directory: everything before the last separator, "" when
      there is none (Path.GetDirectoryName, without its root handling). */
  function Parent(p: string): (q: string)
    ensures p != [] ==> |q| < |p|
    ensures q != [] ==> |q| < |p| && q == p[..|q|] && IsSep(p[|q|])
    ensures forall i :: |q| < i < |p| ==> !IsSep(p[i])
  {
    var i := LastIndexOfAny(p, Separators);
    if i <= 0 then [] else p[..i]
  }

  /** The text after the last separator. */
  function LastSegment(p: string): (seg: string)
    ensures |seg| <= |p| && seg == p[|p| - |seg|..]
    ensures forall i :: 0 <= i < |seg| ==> !IsSep(seg[i])
    ensures |seg| < |p| ==> IsSep(p[|p| - |seg| - 1])
  {
    p[LastIndexOfAny(p, Separators) + 1..]
  }

  /** Path.GetFileName: the text after the last separator, never reaching
      back into a drive root, so that "C:Report.docx" names "Report.docx". */
  function GetFileName(p: string): (name: string)
    ensures |name| <= |p| && name == p[|p| - |name|..]
    ensures forall i :: 0 <= i < |name| ==> !IsSep(name[i])
    ensures |name| < |p| ==> IsSep(p[|p| - |name| - 1]) || (HasDriveRoot(p) && |name| == |p| - 2)
    ensures HasDriveRoot(p) ==> |name| <= |p| - 2
  {
    var seg := LastSegment(p);
    if HasDriveRoot(p) && |seg| > |p| - 2 then p[2..] else seg
  }

  /** Path.GetFileNameWithoutExtension: the file name up to its last '.'. */
  function GetFileNameWithoutExtension(p: string): (base: string)
    ensures forall i :: 0 <= i < |base| ==> !IsSep(base[i])
  {
    var name := GetFileName(p);
    var dot := LastIndexOfAny(name, {'.'});
    if dot < 0 then name else name[..dot]
  }

  /** Path.GetExtension: from the last '.' after the last separator on, or ""
      when there is no such '.' or the path ends with it. Unlike GetFileName
      it does not look for a drive root. */
  function GetExtension(p: string): (ext: string)
    ensures ext == [] || (ext[0] == '.' && |ext| >= 2)
    ensures forall i :: 1 <= i < |ext| ==> ext[i] != '.' && !IsSep(ext[i])
  {
    var name := LastSegment(p);
    var dot := LastIndexOfAny(name, {'.'});
    if dot < 0 || dot == |name| - 1 then [] else name[dot..]
  }

  /** The segments of a path, between its separators. */
  function Segments(p: string): (segs: seq<string>)
    ensures segs != []
    decreases |p|
  {
    var i := IndexOfAny(p, Separators);
    if i == |p| then [p] else [p[..i]] + Segments(p[i + 1..])
  }

  /** How Path.GetFullPath resolves the segments of a relative path, left to
      right: "." and empty segments vanish, and ".." drops the segment kept
      before it, or climbs above the base directory when there is none. */
  function Normalize(kept: seq<string>, rest: seq<string>): seq<string>
    decreases |rest|
  {
    if rest == [] then kept
    else if rest[0] == "." || rest[0] == "" then Normalize(kept, rest[1..])
    else if rest[0] == ".." && kept != [] && kept[|kept| - 1] != ".." then Normalize(kept[..|kept| - 1], rest[1..])
    else Normalize(kept + [rest[0]], rest[1..])
  }

  /** Segments put back together with the directory separator. */
  function Join(segs: seq<string>): string
  {
    if segs == [] then []
    else if |segs| == 1 then segs[0]
    else segs[0] + [Separator] + Join(segs[1..])
  }

  /** The path, relative to the base directory, that a relative path names
      once its "." and ".." segments are resolved. */
  function Resolve(p: string): string
  {
    Join(Normalize([], Segments(p)))
  }

  /** A segment that Windows keeps as written: no separator, not empty, and
      no "." or ".." (nor any other name ending in a '.' or a space, which
      Windows trims). */
  predicate PlainSegment(s: string)
  {
    s != [] && NoSeparator(s) && s[|s| - 1] != '.' && s[|s| - 1] != ' '
  }

  lemma SegmentsOfSegment(a: string)
    requires NoSeparator(a)
    ensures Segments(a) == [a]
  {
    assert forall j :: 0 <= j < |a| ==> !IsSep(a[j]);
  }

  lemma SegmentsCons(a: string, b: string)
    requires NoSeparator(a)
    ensures Segments(a + [Separator] + b) == [a] + Segments(b)
  {
    var p := a + [Separator] + b;
    assert forall j :: 0 <= j < |a| ==> p[j] == a[j] && !IsSep(a[j]);
    assert p[|a|] == Separator;
    assert IndexOfAny(p, Separators) == |a|;
    assert p[..|a|] == a && p[|a| + 1..] == b;
  }

  /** A ".." right after a kept segment cancels it. */
  lemma NormalizeDotDot(a: string, rest: seq<string>)
    requires PlainSegment(a)
    ensures Normalize([], [a, ".."] + rest) == Normalize([], rest)
  {
    assert a != "." && a != ".." && a != "" by {
      assert a[|a| - 1] != '.';
    }
    var s := [a, ".."] + rest;
    assert s[0] == a && s[1..] == [".."] + rest;
    assert Normalize([], s) == Normalize([a], [".."] + rest);
    assert ([".."] + rest)[1..] == rest;
    assert [a][..0] == [];
  }

  /** "a\\..\\b" resolves as "b" does. */
  lemma ClimbOut(a: string, b: string)
    requires PlainSegment(a)
    ensures Resolve(a + [Separator] + ".." + [Separator] + b) == Resolve(b)
  {
    var rest := ".." + [Separator] + b;
    assert a + [Separator] + ".." + [Separator] + b == a + [Separator] + rest;
    SegmentsCons(a, rest);
    assert Segments(rest) == [".."] + Segments(b) by {
      SegmentsCons("..", b);
    }
    assert [a] + ([".."] + Segments(b)) == [a, ".."] + Segments(b);
    NormalizeDotDot(a, Segments(b));
  }

  /** "a\\.." resolves to the base directory. */
  lemma ClimbBack(a: string)
    requires PlainSegment(a)
    ensures Resolve(a + [Separator] + "..") == []
  {
    SegmentsCons(a, "..");
    SegmentsOfSegment("..");
    assert Segments(a + [Separator] + "..") == [a, ".."] + [];
    NormalizeDotDot(a, []);
  }

  /** Two plain segments resolve to themselves. */
  lemma ResolvePlainPair(a: string, b: string)
    requires PlainSegment(a) && PlainSegment(b)
    ensures Resolve(a + [Separator] + b) == a + [Separator] + b
  {
    SegmentsCons(a, b);
    SegmentsOfSegment(b);
    NormalizePlain([], [a, b]);
    assert [] + [a, b] == [a, b];
    assert Join([a, b]) == a + [Separator] + Join([b]);
  }

  /** Plain segments need no resolution. */
  lemma {:induction false} NormalizePlain(kept: seq<string>, rest: seq<string>)
    requires forall k :: 0 <= k < |rest| ==> PlainSegment(rest[k])
    ensures Normalize(kept, rest) == kept + rest
    decreases |rest|
  {
    if rest != [] {
      var r := rest[0];
      assert r != "." && r != ".." && r != "" by {
        assert PlainSegment(r);
        assert r[|r| - 1] != '.';
      }
      NormalizePlain(kept + [r], rest[1..]);
      assert kept + [r] + rest[1..] == kept + rest;
    }
  }

  predicate NoSeparator(s: string)
  {
    '\\' !in s && '/' !in s
  }

  /** `p` is `d` or lies below it. */
  predicate InTree(d: string, p: string)
  {
    p == d || (|p| > |d| && p[..|d|] == d && IsSep(p[|d|]))
  }

  /** The last character of `a + b` in `cs` is the last one of `a` when `b`
      holds none. */
  lemma LastIndexAfter(a: string, b: string, cs: set<char>)
    requires a == [] || a[|a| - 1] in cs
    requires forall i :: 0 <= i < |b| ==> b[i] !in cs
    ensures LastIndexOfAny(a + b, cs) == |a| - 1
  {
    var s := a + b;
    var i := LastIndexOfAny(s, cs);
    assert forall j :: |a| <= j < |s| ==> s[j] == b[j - |a|];
    if a != [] {
      assert s[|a| - 1] == a[|a| - 1];
    }
  }

  lemma SegmentOf(dir: string, name: string)
    requires dir == [] || IsSep(dir[|dir| - 1])
    requires forall i :: 0 <= i < |name| ==> !IsSep(name[i])
    ensures LastSegment(dir + name) == name
  {
    LastIndexAfter(dir, name, Separators);
    assert (dir + name)[|dir|..] == name;
  }

  /** The file name of dir + name is name, unless name itself starts with a
      drive root and nothing comes before it. */
  lemma FileNameOf(dir: string, name: string)
    requires dir == [] || IsSep(dir[|dir| - 1])
    requires forall i :: 0 <= i < |name| ==> !IsSep(name[i])
    requires dir != [] || !HasDriveRoot(name)
    ensures GetFileName(dir + name) == name
  {
    SegmentOf(dir, name);
    var p := dir + name;
    if dir != [] {
      assert p[0] == dir[0];
      assert |dir| == 1 ==> IsSep(p[0]);
    } else {
      assert p == name;
    }
  }

  /** A drive root followed by a name without separators: the file name is
      everything after the root. */
  lemma FileNameAfterDrive(p: string)
    requires HasDriveRoot(p)
    requires forall i :: 2 <= i < |p| ==> !IsSep(p[i])
    ensures GetFileName(p) == p[2..]
  {
    assert forall i :: 0 <= i < |p| ==> !IsSep(p[i]);
    LastIndexAfter([], p, Separators);
    assert [] + p == p;
  }

  /** The last '.' of name + "." + ext is the one put before `ext`. */
  lemma LastDotOf(name: string, ext: string)
    requires forall i :: 0 <= i < |ext| ==> ext[i] != '.'
    ensures LastIndexOfAny(name + "." + ext, {'.'}) == |name|
  {
    LastIndexAfter(name + ".", ext, {'.'});
  }

  /** A file name built as name + "." + ext holds no separator. */
  lemma DottedNameNoSep(name: string, ext: string)
    requires forall i :: 0 <= i < |name| ==> !IsSep(name[i])
    requires forall i :: 0 <= i < |ext| ==> !IsSep(ext[i])
    ensures forall i :: 0 <= i < |name + "." + ext| ==> !IsSep((name + "." + ext)[i])
  {
    var file := name + "." + ext;
    forall i | 0 <= i < |file|
      ensures !IsSep(file[i])
    {
      if i < |name| {
        assert file[i] == name[i];
      } else if i > |name| {
        assert file[i] == ext[i - |name| - 1];
      }
    }
  }

  /** name + "." + ext starts with a drive root only when name does. */
  lemma DottedDriveRoot(name: string, ext: string)
    ensures HasDriveRoot(name + "." + ext) ==> HasDriveRoot(name)
  {
    var file := name + "." + ext;
    if |name| >= 2 {
      assert file[0] == name[0] && file[1] == name[1];
    } else if |name| == 1 {
      assert file[1] == '.';
    } else {
      assert file[0] == '.';
    }
  }

  lemma SegmentOfDotted(dir: string, name: string, ext: string)
    requires dir == [] || IsSep(dir[|dir| - 1])
    requires forall i :: 0 <= i < |name| ==> !IsSep(name[i])
    requires forall i :: 0 <= i < |ext| ==> !IsSep(ext[i])
    ensures LastSegment(dir + name + "." + ext) == name + "." + ext
  {
    assert dir + name + "." + ext == dir + (name + "." + ext);
    DottedNameNoSep(name, ext);
    SegmentOf(dir, name + "." + ext);
  }

  lemma FileNameOfDotted(dir: string, name: string, ext: string)
    requires dir == [] || IsSep(dir[|dir| - 1])
    requires forall i :: 0 <= i < |name| ==> !IsSep(name[i])
    requires forall i :: 0 <= i < |ext| ==> !IsSep(ext[i])
    requires dir != [] || !HasDriveRoot(name)
    ensures GetFileName(dir + name + "." + ext) == name + "." + ext
  {
    assert dir + name + "." + ext == dir + (name + "." + ext);
    DottedNameNoSep(name, ext);
    DottedDriveRoot(name, ext);
    FileNameOf(dir, name + "." + ext);
  }

  lemma SplitAtDot(p: string, file: string, k: int)
    requires GetFileName(p) == file
    requires 0 <= k < |file| && LastIndexOfAny(file, {'.'}) == k
    ensures GetFileNameWithoutExtension(p) == file[..k]
  {
  }

  lemma ExtensionAtDot(p: string, file: string, k: int)
    requires LastSegment(p) == file
    requires 0 <= k < |file| - 1 && LastIndexOfAny(file, {'.'}) == k
    ensures GetExtension(p) == file[k..]
  {
  }

  /** GetFileNameWithoutExtension undoes appending "." + ext to a file name:
      it strips exactly one extension, whatever dots the name itself holds. */
  lemma FileNameWithoutExtensionOf(dir: string, name: string, ext: string)
    requires dir == [] || IsSep(dir[|dir| - 1])
    requires forall i :: 0 <= i < |name| ==> !IsSep(name[i])
    requires forall i :: 0 <= i < |ext| ==> !IsSep(ext[i]) && ext[i] != '.'
    requires dir != [] || !HasDriveRoot(name)
    ensures GetFileNameWithoutExtension(dir + name + "." + ext) == name
  {
    FileNameOfDotted(dir, name, ext);
    LastDotOf(name, ext);
    SplitAtDot(dir + name + "." + ext, name + "." + ext, |name|);
    assert (name + "." + ext)[..|name|] == name;
  }

  /** A drive-relative path "X:" + name + "." + ext: the drive root is dropped
      along with the extension. */
  lemma FileNameWithoutExtensionAfterDrive(drive: string, name: string, ext: string)
    requires |drive| == 2 && HasDriveRoot(drive)
    requires forall i :: 0 <= i < |name| ==> !IsSep(name[i])
    requires forall i :: 0 <= i < |ext| ==> !IsSep(ext[i]) && ext[i] != '.'
    ensures GetFileNameWithoutExtension(drive + name + "." + ext) == name
  {
    var p := drive + name + "." + ext;
    var file := name + "." + ext;
    assert p == drive + file && p[2..] == file;
    DottedNameNoSep(name, ext);
    assert forall i :: 2 <= i < |p| ==> p[i] == file[i - 2];
    FileNameAfterDrive(p);
    LastDotOf(name, ext);
    SplitAtDot(p, file, |name|);
    assert file[..|name|] == name;
  }

  /** GetExtension of a file name with a non-empty extension is "." + ext;
      a drive root never matters here. */
  lemma ExtensionOf(dir: string, name: string, ext: string)
    requires dir == [] || IsSep(dir[|dir| - 1])
    requires forall i :: 0 <= i < |name| ==> !IsSep(name[i])
    requires ext != [] && forall i :: 0 <= i < |ext| ==> !IsSep(ext[i]) && ext[i] != '.'
    ensures GetExtension(dir + name + "." + ext) == "." + ext
  {
    SegmentOfDotted(dir, name, ext);
    LastDotOf(name, ext);
    DotSuffix(name, ext);
    ExtensionAtDot(dir + name + "." + ext, name + "." + ext, |name|);
  }

  lemma DotSuffix(name: string, ext: string)
    requires ext != []
    ensures |name| < |name + "." + ext| - 1
    ensures (name + "." + ext)[|name|..] == "." + ext
  {
  }

  /** Whatever lies below the parent of `p`'s directory chain lies below `d`
      once the parent does. */
  lemma InTreeParent(d: string, p: string)
    requires Parent(p) != [] && InTree(d, Parent(p))
    ensures InTree(d, p)
  {
    var q := Parent(p);
    if q != d {
      assert p[..|d|] == q[..|d|];
      assert p[|d|] == q[|d|];
    }
  }

  /** The parent of a strict descendant of `d` is `d` or again below it. */
  lemma ParentInTree(d: string, p: string)
    requires d != [] && InTree(d, p) && p != d
    ensures Parent(p) != [] && InTree(d, Parent(p))
  {
    var q := Parent(p);
    assert IsSep(p[|d|]);
    assert |q| >= |d|;
    if |q| > |d| {
      assert q[..|d|] == p[..|d|];
      assert q[|d|] == p[|d|];
    } else {
      assert q == p[..|d|];
    }
  }
}
