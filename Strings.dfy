/** The .NET string primitives the service relies on, on `string` (= seq<char>). */
module Strings {
  import opened Wrappers

  type byte = x: int | 0 <= x < 256

  /** `p` occurs somewhere in `s` (String.Contains). */
  predicate Contains(s: string, p: string)
    decreases |s|
  {
    |s| >= |p| && (s[..|p|] == p || (s != [] && Contains(s[1..], p)))
  }

  /** String.Replace(pat, rep) with a non-empty pattern: a single left-to-right
      pass over `s` that replaces non-overlapping occurrences of `pat`. Text
      produced by a replacement is never scanned again. */
  function Replace(s: string, pat: string, rep: string): string
    requires pat != []
    decreases |s|
  {
    if |s| < |pat| then s
    else if s[..|pat|] == pat then rep + Replace(s[|pat|..], pat, rep)
    else [s[0]] + Replace(s[1..], pat, rep)
  }

  /** The `.Replace("//", "/")` pass applied to locators and save names. */
  function CollapseSlashes(s: string): string
  {
    Replace(s, "//", "/")
  }

  lemma CollapseKeepsHead(s: string)
    requires s != []
    ensures CollapseSlashes(s) != [] && CollapseSlashes(s)[0] == s[0]
  {
  }

  /** A string without "//" passes through the collapsing pass unchanged. */
  lemma {:induction false} CollapseIdentity(s: string)
    requires !Contains(s, "//")
    ensures CollapseSlashes(s) == s
    decreases |s|
  {
    if |s| >= 2 {
      assert s[..2] != "//";
      CollapseIdentity(s[1..]);
    }
  }

  /** The pass distributes over a concatenation as long as no "//" straddles
      the junction. */
  lemma {:induction false} CollapseConcat(a: string, b: string)
    requires a == [] || b == [] || a[|a| - 1] != '/' || b[0] != '/'
    ensures CollapseSlashes(a + b) == CollapseSlashes(a) + CollapseSlashes(b)
    decreases |a|
  {
    if a == [] {
      assert a + b == b;
    } else if b == [] {
      assert a + b == a;
    } else {
      var ab := a + b;
      var k := if SlashPair(a) then 2 else 1;
      assert ab[0] == a[0] && ab[1] == (if |a| == 1 then b[0] else a[1]);
      assert SlashPair(ab) == SlashPair(a);
      assert ab[k..] == a[k..] + b;
      assert a[k..] != [] ==> a[k..][|a[k..]| - 1] == a[|a| - 1];
      CollapseConcat(a[k..], b);
      var h := if SlashPair(a) then "/" else [a[0]];
      assert CollapseSlashes(ab) == h + (CollapseSlashes(a[k..]) + CollapseSlashes(b)) by {
        CollapseStep(ab);
      }
      assert CollapseSlashes(a) == h + CollapseSlashes(a[k..]) by {
        CollapseStep(a);
      }
    }
  }

  /** The text starts with two slashes. */
  predicate SlashPair(x: string)
  {
    |x| >= 2 && x[0] == '/' && x[1] == '/'
  }

  /** One step of the collapsing pass: a leading "//" becomes "/", any other
      first character is kept. */
  lemma CollapseStep(x: string)
    requires x != []
    ensures CollapseSlashes(x) == if SlashPair(x) then "/" + CollapseSlashes(x[2..]) else [x[0]] + CollapseSlashes(x[1..])
  {
    SlashPrefix(x, 2);
  }

  /** Text in which no two adjacent characters are both '/' has no "//". */
  lemma {:induction false} NoDoubleSlash(s: string)
    requires forall i :: 0 <= i < |s| - 1 ==> s[i] != '/' || s[i + 1] != '/'
    ensures !Contains(s, "//")
    decreases |s|
  {
    if |s| >= 2 {
      assert s[..2] != "//" by {
        assert s[..2][0] == s[0] && s[..2][1] == s[1];
      }
      var t := s[1..];
      assert forall i :: 0 <= i < |t| ==> t[i] == s[i + 1];
      NoDoubleSlash(s[1..]);
    }
  }

  /** Because the pass never rescans its output, "//" survives it exactly when
      the input holds a run of three or more slashes ("///" becomes "//"). */
  lemma {:induction false} CollapseLeavesDoubleIffTriple(s: string)
    ensures Contains(CollapseSlashes(s), "//") <==> Contains(s, "///")
    decreases |s|
  {
    if |s| < 2 {
      assert CollapseSlashes(s) == s;
    } else {
      SlashPrefix(s, 2);
      var t := if s[..2] == "//" then s[2..] else s[1..];
      CollapseLeavesDoubleIffTriple(t);
      var rt := CollapseSlashes(t);
      if t != [] { CollapseKeepsHead(t); }
      var r := CollapseSlashes(s);
      SlashPrefix(s, 3);
      SlashPrefix(r, 2);
      if s[..2] == "//" {
        var s1 := s[1..];
        assert r == "/" + rt && r[1..] == rt;
        assert s1[1..] == t && s1[0] == '/';
        assert |s1| >= 3 ==> s1[1] == t[0] && s1[2] == t[1];
        SlashPrefix(s1, 3);
        assert |s| >= 3 ==> s[2] == t[0];
        assert Contains(s1, "///") <==> (|s1| >= 3 && s1[..3] == "///") || Contains(t, "///");
      } else {
        assert r == [s[0]] + rt && r[1..] == rt;
        assert |r| >= 2 ==> r[1] == s[1];
      }
    }
  }

  /** A prefix of length 2 or 3 is all slashes exactly when each of its
      characters is one. */
  lemma SlashPrefix(s: string, n: nat)
    requires n == 2 || n == 3
    ensures |s| >= n ==> (s[..n] == (if n == 2 then "//" else "///") <==> forall i :: 0 <= i < n ==> s[i] == '/')
  {
    if |s| >= n {
      var lit: string := if n == 2 then "//" else "///";
      if forall i :: 0 <= i < n ==> s[i] == '/' {
        assert s[..n] == lit;
      }
    }
  }

  /** String.TrimStart(c): drop every leading `c`. */
  function TrimStart(s: string, c: char): (r: string)
    ensures |r| <= |s| && r == s[|s| - |r|..]
    ensures r == [] || r[0] != c
    ensures forall i :: 0 <= i < |s| - |r| ==> s[i] == c
    decreases |s|
  {
    if s != [] && s[0] == c then
      var r := TrimStart(s[1..], c);
      assert s[1..][|s| - 1 - |r|..] == s[|s| - |r|..];
      assert forall i :: 1 <= i < |s| - |r| ==> s[i] == s[1..][i - 1];
      r
    else s
  }

  /** String.TrimEnd(c): drop every trailing `c`. */
  function TrimEnd(s: string, c: char): (r: string)
    ensures |r| <= |s| && r == s[..|r|]
    ensures r == [] || r[|r| - 1] != c
    ensures forall i :: |r| <= i < |s| ==> s[i] == c
    decreases |s|
  {
    if s != [] && s[|s| - 1] == c then TrimEnd(s[..|s| - 1], c) else s
  }

  /** String.Replace(char, char). */
  function ReplaceChar(s: string, from: char, to: char): string
  {
    seq(|s|, i requires 0 <= i < |s| => if s[i] == from then to else s[i])
  }

  function LowerChar(c: char): char
  {
    if 'A' <= c <= 'Z' then (c as int + 32) as char else c
  }

  /** String.ToLowerInvariant, on the ASCII letters (see README). */
  function ToLowerInvariant(s: string): string
  {
    seq(|s|, i requires 0 <= i < |s| => LowerChar(s[i]))
  }

  /** char.IsWhiteSpace: the Unicode space, line and paragraph separators,
      U+0009..U+000D and U+0085. */
  predicate IsWhiteSpace(c: char)
  {
    || c == ' ' || '\t' <= c <= '\r' || c == '\U{0085}' || c == '\U{00A0}'
    || c == '\U{1680}' || '\U{2000}' <= c <= '\U{200A}' || c == '\U{2028}'
    || c == '\U{2029}' || c == '\U{202F}' || c == '\U{205F}' || c == '\U{3000}'
  }

  /** string.IsNullOrWhiteSpace, with None for null. */
  predicate IsNullOrWhiteSpace(s: Option<string>)
  {
    s.None? || forall i :: 0 <= i < |s.value| ==> IsWhiteSpace(s.value[i])
  }

  /** The index of the first character of `s` in `cs`, or |s| when there is none. */
  function IndexOfAny(s: string, cs: set<char>): (i: nat)
    ensures i <= |s|
    ensures forall j :: 0 <= j < i ==> s[j] !in cs
    ensures i < |s| ==> s[i] in cs
    decreases |s|
  {
    if s == [] then 0
    else if s[0] in cs then 0
    else 1 + IndexOfAny(s[1..], cs)
  }

  /** The index of the last character of `s` in `cs`, or -1 when there is none. */
  function LastIndexOfAny(s: string, cs: set<char>): (i: int)
    ensures -1 <= i < |s|
    ensures forall j :: i < j < |s| ==> s[j] !in cs
    ensures i >= 0 ==> s[i] in cs
    decreases |s|
  {
    if s == [] then -1
    else if s[|s| - 1] in cs then |s| - 1
    else LastIndexOfAny(s[..|s| - 1], cs)
  }
}
