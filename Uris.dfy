/** The part of System.Uri the service uses: Uri.TryCreate(s, UriKind.Absolute),
    and of the result its Scheme, ToString() and LocalPath. Absolute URIs are
    recognised by the generic syntax of section 3 of RFC 3986:
    scheme ":" ["//" authority] path ["?" query] ["#" fragment]. */
module Uris {
  import opened Wrappers
  import opened Strings
  import Percent

  /** An absolute URI: `scheme` lower-case as Uri.Scheme reports it, `tail` the
      query and fragment ("" or starting with '?' or '#'). */
  datatype Uri = Uri(scheme: string, authority: Option<string>, path: string, tail: string)

  const AuthorityEnd: set<char> := {'/', '?', '#'}
  const PathEnd: set<char> := {'?', '#'}

  predicate IsSchemeStart(c: char)
  {
    'A' <= c <= 'Z' || 'a' <= c <= 'z'
  }

  predicate IsSchemeChar(c: char)
  {
    IsSchemeStart(c) || '0' <= c <= '9' || c == '+' || c == '-' || c == '.'
  }

  /** A scheme of at least two characters; a single letter before ':' is a
      Windows drive letter, which never yields an http(s) URI. */
  predicate ValidScheme(s: string)
  {
    |s| >= 2 && IsSchemeStart(s[0]) && forall i :: 1 <= i < |s| ==> IsSchemeChar(s[i])
  }

  predicate IsWebScheme(scheme: string)
  {
    scheme == "http" || scheme == "https"
  }

  lemma WebSchemeValid(scheme: string)
    requires IsWebScheme(scheme)
    ensures ValidScheme(scheme) && ToLowerInvariant(scheme) == scheme
  {
  }

  /** `abs.Scheme == Uri.UriSchemeHttp || abs.Scheme == Uri.UriSchemeHttps`. */
  predicate IsHttp(u: Uri)
  {
    IsWebScheme(u.scheme)
  }

  function SplitTail(x: string): (string, string)
  {
    var k := IndexOfAny(x, PathEnd);
    (x[..k], x[k..])
  }

  /** The white space System.Uri ignores around its text. */
  predicate IsLws(c: char)
  {
    c == ' ' || c == '\t' || c == '\r' || c == '\n'
  }

  /** `s` without its leading and trailing white space. */
  function TrimLws(s: string): (r: string)
    ensures r == [] || (!IsLws(r[0]) && !IsLws(r[|r| - 1]))
    ensures forall i :: 0 <= i < |r| ==> r[i] in s
    ensures s != [] && !IsLws(s[0]) ==> r != [] && |r| <= |s| && r == s[..|r|]
    ensures s != [] && !IsLws(s[0]) && !IsLws(s[|s| - 1]) ==> r == s
    decreases |s|
  {
    if s == [] then s
    else if IsLws(s[0]) then TrimLws(s[1..])
    else if IsLws(s[|s| - 1]) then TrimLws(s[..|s| - 1])
    else s
  }

  /** Uri.TryCreate(s, UriKind.Absolute): None when `s`, once stripped of
      surrounding white space, is not an absolute URI. */
  function TryCreate(s: string): Option<Uri>
  {
    ParseAbsolute(TrimLws(s))
  }

  /** The scheme up to the first ':', then the rest. */
  function ParseAbsolute(t: string): Option<Uri>
  {
    var i := IndexOfAny(t, {':'});
    if i == |t| || !ValidScheme(t[..i]) then None
    else ParseHierarchy(ToLowerInvariant(t[..i]), t[i + 1..])
  }

  /** What follows "scheme:". http and https need "//" and a non-empty host;
      an empty path after an authority becomes "/". */
  function ParseHierarchy(scheme: string, rest: string): Option<Uri>
  {
    if |rest| >= 2 && rest[..2] == "//" then
      var hier := rest[2..];
      var j := IndexOfAny(hier, AuthorityEnd);
      var (path, tail) := SplitTail(hier[j..]);
      if IsWebScheme(scheme) && j == 0 then None
      else Some(Uri(scheme, Some(hier[..j]), if path == "" then "/" else path, tail))
    else if IsWebScheme(scheme) then None
    else
      var (path, tail) := SplitTail(rest);
      Some(Uri(scheme, None, path, tail))
  }

  /** Uri.ToString(): the canonical text of the URI. */
  function ToString(u: Uri): string
  {
    u.scheme + ":" + (match u.authority case Some(a) => "//" + a case None => "") + u.path + u.tail
  }

  /** `Uri.TryCreate(s, UriKind.Absolute, out var abs) && (abs.Scheme == http
      || abs.Scheme == https) ? abs.ToString() : ...`: the canonical text of
      `s` when it is an absolute http or https URI. */
  function WebAddress(s: string): (r: Option<string>)
    ensures r.Some? <==> TryCreate(s).Some? && IsHttp(TryCreate(s).value)
  {
    match TryCreate(s)
    case Some(u) => if IsHttp(u) then Some(ToString(u)) else None
    case None => None
  }

  /** Uri.LocalPath for a non-file URI: the path, unescaped. */
  function LocalPath(u: Uri): string
  {
    Percent.Unescape(u.path, false)
  }

  /** What every URI TryCreate returns satisfies. */
  predicate WellFormed(u: Uri)
  {
    && ValidScheme(u.scheme)
    && ToLowerInvariant(u.scheme) == u.scheme
    && (forall i :: 0 <= i < |u.path| ==> u.path[i] !in PathEnd)
    && (u.tail == [] || u.tail[0] in PathEnd)
    && EndsClean(u.path + u.tail)
    && match u.authority
       case Some(a) =>
         && (forall i :: 0 <= i < |a| ==> a[i] !in AuthorityEnd)
         && u.path != [] && u.path[0] == '/'
         && !(IsWebScheme(u.scheme) && a == [])
       case None =>
         && !IsWebScheme(u.scheme)
         && !(|u.path| >= 2 && u.path[..2] == "//")
  }

  /** Text that is empty or does not end in white space. */
  predicate EndsClean(x: string)
  {
    x == [] || !IsLws(x[|x| - 1])
  }

  lemma {:induction false} IndexOfAnyAfterPrefix(a: string, b: string, cs: set<char>)
    requires forall i :: 0 <= i < |a| ==> a[i] !in cs
    requires b == [] || b[0] in cs
    ensures IndexOfAny(a + b, cs) == |a|
  {
    if a == [] {
      assert a + b == b;
    } else {
      assert (a + b)[1..] == a[1..] + b;
      IndexOfAnyAfterPrefix(a[1..], b, cs);
    }
  }

  lemma SplitTailOf(path: string, tail: string)
    requires forall i :: 0 <= i < |path| ==> path[i] !in PathEnd
    requires tail == [] || tail[0] in PathEnd
    ensures SplitTail(path + tail) == (path, tail)
  {
    IndexOfAnyAfterPrefix(path, tail, PathEnd);
    assert (path + tail)[..|path|] == path;
    assert (path + tail)[|path|..] == tail;
  }

  lemma LowerSchemeValid(s: string)
    requires ValidScheme(s)
    ensures ValidScheme(ToLowerInvariant(s))
    ensures ToLowerInvariant(ToLowerInvariant(s)) == ToLowerInvariant(s)
  {
  }

  /** Every URI that TryCreate produces is well formed. */
  lemma TryCreateWellFormed(s: string)
    ensures TryCreate(s).Some? ==> WellFormed(TryCreate(s).value)
  {
    var t := TrimLws(s);
    var i := IndexOfAny(t, {':'});
    if i < |t| && ValidScheme(t[..i]) {
      LowerSchemeValid(t[..i]);
      assert t[i + 1..] != [] ==> t[i + 1..][|t[i + 1..]| - 1] == t[|t| - 1];
      ParseHierarchyWellFormed(ToLowerInvariant(t[..i]), t[i + 1..]);
    }
  }

  lemma ParseHierarchyWellFormed(scheme: string, rest: string)
    requires ValidScheme(scheme) && ToLowerInvariant(scheme) == scheme
    requires EndsClean(rest)
    ensures ParseHierarchy(scheme, rest).Some? ==> WellFormed(ParseHierarchy(scheme, rest).value)
  {
    if |rest| >= 2 && rest[..2] == "//" {
      WithAuthorityWellFormed(scheme, rest);
    } else if !IsWebScheme(scheme) {
      WithoutAuthorityWellFormed(scheme, rest);
    }
  }

  lemma WithAuthorityWellFormed(scheme: string, rest: string)
    requires ValidScheme(scheme) && ToLowerInvariant(scheme) == scheme
    requires EndsClean(rest) && |rest| >= 2 && rest[..2] == "//"
    ensures ParseHierarchy(scheme, rest).Some? ==> WellFormed(ParseHierarchy(scheme, rest).value)
  {
    var hier := rest[2..];
    var j := IndexOfAny(hier, AuthorityEnd);
    var (path, tail) := SplitTail(hier[j..]);
    if !(IsWebScheme(scheme) && j == 0) {
      AuthorityParts(hier[..j], hier[j..]);
      var p := if path == "" then "/" else path;
      AfterAuthorityClean(rest, j);
      ComponentsWellFormed(scheme, Some(hier[..j]), p, tail);
    }
  }

  lemma WithoutAuthorityWellFormed(scheme: string, rest: string)
    requires ValidScheme(scheme) && ToLowerInvariant(scheme) == scheme && !IsWebScheme(scheme)
    requires EndsClean(rest) && !(|rest| >= 2 && rest[..2] == "//")
    ensures ParseHierarchy(scheme, rest).Some? ==> WellFormed(ParseHierarchy(scheme, rest).value)
  {
    var (path, tail) := SplitTail(rest);
    SplitTailParts(rest);
    var k := IndexOfAny(rest, PathEnd);
    if k >= 2 {
      assert rest[..k][..2] == rest[..2];
    }
    ComponentsWellFormed(scheme, None, path, tail);
  }

  /** What follows the authority keeps the clean end of the whole text, also
      when its empty path is replaced by "/". */
  lemma AfterAuthorityClean(rest: string, j: int)
    requires |rest| >= 2 && 0 <= j <= |rest| - 2 && EndsClean(rest)
    ensures var (path, tail) := SplitTail(rest[2..][j..]);
      EndsClean((if path == "" then "/" else path) + tail)
  {
    var x := rest[2..][j..];
    var (path, tail) := SplitTail(x);
    SplitTailParts(x);
    assert x != [] ==> x[|x| - 1] == rest[|rest| - 1];
    if path == "" {
      assert tail == x;
    }
  }

  /** After "//", the path starts at the first '/', '?' or '#'. */
  lemma AuthorityParts(a: string, x: string)
    requires forall i :: 0 <= i < |a| ==> a[i] !in AuthorityEnd
    requires x == [] || x[0] in AuthorityEnd
    ensures var (path, tail) := SplitTail(x);
      && (forall i :: 0 <= i < |path| ==> path[i] !in PathEnd)
      && (tail == [] || tail[0] in PathEnd)
      && (path != [] ==> path[0] == '/')
  {
    SplitTailParts(x);
  }

  lemma ComponentsWellFormed(scheme: string, authority: Option<string>, path: string, tail: string)
    requires ValidScheme(scheme) && ToLowerInvariant(scheme) == scheme
    requires forall i :: 0 <= i < |path| ==> path[i] !in PathEnd
    requires tail == [] || tail[0] in PathEnd
    requires authority.Some? ==>
      && (forall i :: 0 <= i < |authority.value| ==> authority.value[i] !in AuthorityEnd)
      && path != [] && path[0] == '/'
      && !(IsWebScheme(scheme) && authority.value == [])
    requires authority.None? ==> !IsWebScheme(scheme) && !(|path| >= 2 && path[..2] == "//")
    requires EndsClean(path + tail)
    ensures WellFormed(Uri(scheme, authority, path, tail))
  {
  }

  /** SplitTail cuts at the first '?' or '#'. */
  lemma SplitTailParts(x: string)
    ensures var (path, tail) := SplitTail(x);
      && path + tail == x
      && (forall i :: 0 <= i < |path| ==> path[i] !in PathEnd)
      && (tail == [] || tail[0] in PathEnd)
  {
    var k := IndexOfAny(x, PathEnd);
    assert forall m :: 0 <= m < k ==> x[..k][m] == x[m];
  }

  lemma SchemeSplit(scheme: string, rest: string)
    requires ValidScheme(scheme) && ToLowerInvariant(scheme) == scheme
    ensures ParseAbsolute(scheme + ":" + rest) == ParseHierarchy(scheme, rest)
  {
    var s := scheme + ":" + rest;
    assert s == scheme + ([':'] + rest);
    IndexOfAnyAfterPrefix(scheme, [':'] + rest, {':'});
    assert s[..|scheme|] == scheme;
    assert s[|scheme| + 1..] == rest;
  }

  lemma ReparseWithAuthority(u: Uri)
    requires WellFormed(u) && u.authority.Some?
    ensures ParseHierarchy(u.scheme, "//" + u.authority.value + u.path + u.tail) == Some(u)
  {
    var a := u.authority.value;
    var rest := "//" + a + u.path + u.tail;
    assert rest[..2] == "//";
    var hier := rest[2..];
    assert hier == a + (u.path + u.tail);
    IndexOfAnyAfterPrefix(a, u.path + u.tail, AuthorityEnd);
    assert hier[..|a|] == a;
    assert hier[|a|..] == u.path + u.tail;
    SplitTailOf(u.path, u.tail);
  }

  lemma ReparseWithoutAuthority(u: Uri)
    requires WellFormed(u) && u.authority.None?
    ensures ParseHierarchy(u.scheme, u.path + u.tail) == Some(u)
  {
    var rest := u.path + u.tail;
    if |rest| >= 2 {
      assert rest[..2] != "//" by {
        if |u.path| >= 2 {
          assert u.path[..2] == rest[..2];
        } else if |u.path| == 1 {
          assert rest[1] == u.tail[0];
        } else {
          assert rest[0] == u.tail[0];
        }
      }
    }
    SplitTailOf(u.path, u.tail);
  }

  /** The text Uri.ToString() gives is parsed back to the same URI, so
      re-parsing a source locator (as the download step does) is harmless. */
  lemma ToStringReparses(u: Uri)
    requires WellFormed(u)
    ensures TryCreate(ToString(u)) == Some(u)
  {
    ToStringTrimmed(u);
    ToStringParses(u);
  }

  lemma ToStringParses(u: Uri)
    requires WellFormed(u)
    ensures ParseAbsolute(ToString(u)) == Some(u)
  {
    match u.authority {
      case Some(a) =>
        assert ToString(u) == u.scheme + ":" + ("//" + a + u.path + u.tail);
        SchemeSplit(u.scheme, "//" + a + u.path + u.tail);
        ReparseWithAuthority(u);
      case None =>
        assert ToString(u) == u.scheme + ":" + (u.path + u.tail);
        SchemeSplit(u.scheme, u.path + u.tail);
        ReparseWithoutAuthority(u);
    }
  }

  /** The text Uri.ToString() gives has no white space to strip. */
  lemma ToStringTrimmed(u: Uri)
    requires WellFormed(u)
    ensures TrimLws(ToString(u)) == ToString(u)
  {
    var r := u.path + u.tail;
    var head := u.scheme + ":" + (match u.authority case Some(a) => "//" + a case None => "");
    assert ToString(u) == head + r;
    assert r == [] ==> u.authority.None?;
    CleanEnds(head, r);
  }

  /** A concatenation whose first character and last character are not
      white space is left alone by TrimLws. */
  lemma CleanEnds(head: string, r: string)
    requires head != [] && IsSchemeStart(head[0]) && EndsClean(r)
    requires r == [] ==> head[|head| - 1] == ':'
    ensures TrimLws(head + r) == head + r
  {
    var text := head + r;
    assert text[0] == head[0];
    if r != [] {
      assert text[|text| - 1] == r[|r| - 1];
    } else {
      assert text == head;
    }
  }

  /** A URL with an authority, already in canonical form (lower-case scheme,
      a host, a non-empty path), is accepted and printed back verbatim. */
  lemma AuthorityUrlVerbatim(scheme: string, host: string, path: string)
    requires ValidScheme(scheme) && ToLowerInvariant(scheme) == scheme
    requires host != [] && forall i :: 0 <= i < |host| ==> host[i] !in AuthorityEnd
    requires path != [] && path[0] == '/' && forall i :: 0 <= i < |path| ==> path[i] !in PathEnd
    requires !IsLws(path[|path| - 1])
    ensures TryCreate(scheme + "://" + host + path) == Some(Uri(scheme, Some(host), path, ""))
    ensures ToString(Uri(scheme, Some(host), path, "")) == scheme + "://" + host + path
  {
    var u := Uri(scheme, Some(host), path, "");
    assert WellFormed(u);
    assert ToString(u) == scheme + "://" + host + path;
    ToStringReparses(u);
  }

  /** Text without a ':' is never an absolute URI. */
  lemma NoColonNoUri(s: string)
    requires ':' !in s
    ensures TryCreate(s) == None
  {
    var t := TrimLws(s);
    assert ':' !in t;
  }

  /** A drive-relative Windows path ("C:Report.docx") is no absolute URI: the
      one letter before ':' is no scheme. */
  lemma DriveRootNoUri(s: string)
    requires |s| >= 2 && s[1] == ':' && IsSchemeStart(s[0])
    ensures TryCreate(s) == None
  {
    var t := TrimLws(s);
    if |t| >= 2 {
      assert t[0] == s[0] && t[1] == ':';
      assert IndexOfAny(t, {':'}) == 1;
    } else {
      assert t == [s[0]];
    }
  }

  lemma TrimLeadingLws(c: char, x: string)
    requires IsLws(c)
    ensures TrimLws([c] + x) == TrimLws(x)
  {
    assert ([c] + x)[1..] == x;
  }

  lemma {:induction false} TrimTrailingLws(x: string, c: char)
    requires IsLws(c)
    ensures TrimLws(x + [c]) == TrimLws(x)
    decreases |x|
  {
    var y := x + [c];
    assert y[..|y| - 1] == x;
    if x != [] && IsLws(x[0]) {
      assert y[1..] == x[1..] + [c];
      TrimTrailingLws(x[1..], c);
    }
  }

  /** White space around the text changes nothing: `" https://x/y.docx\n"`
      is the same URI as `https://x/y.docx`. */
  lemma LwsAroundIgnored(pre: string, s: string, post: string)
    requires forall i :: 0 <= i < |pre| ==> IsLws(pre[i])
    requires forall i :: 0 <= i < |post| ==> IsLws(post[i])
    ensures TryCreate(pre + s + post) == TryCreate(s)
  {
    assert pre + s + post == pre + (s + post);
    LeadingLwsTrimmed(pre, s + post);
    TrailingLwsTrimmed(s, post);
  }

  /** Leading white space is dropped by TrimLws. */
  lemma {:induction false} LeadingLwsTrimmed(pre: string, x: string)
    requires forall i :: 0 <= i < |pre| ==> IsLws(pre[i])
    ensures TrimLws(pre + x) == TrimLws(x)
    decreases |pre|
  {
    if pre != [] {
      assert pre + x == [pre[0]] + (pre[1..] + x);
      TrimLeadingLws(pre[0], pre[1..] + x);
      LeadingLwsTrimmed(pre[1..], x);
    } else {
      assert pre + x == x;
    }
  }

  /** Trailing white space is dropped by TrimLws. */
  lemma {:induction false} TrailingLwsTrimmed(x: string, post: string)
    requires forall i :: 0 <= i < |post| ==> IsLws(post[i])
    ensures TrimLws(x + post) == TrimLws(x)
    decreases |post|
  {
    if post != [] {
      var k := |post| - 1;
      assert x + post == (x + post[..k]) + [post[k]];
      TrimTrailingLws(x + post[..k], post[k]);
      TrailingLwsTrimmed(x, post[..k]);
    } else {
      assert x + post == x;
    }
  }


  /** The http(s) text the consumer picks as a source is picked again, unchanged,
      when the download step parses it a second time. */
  lemma WebAddressStable(s: string)
    requires WebAddress(s).Some?
    ensures WebAddress(WebAddress(s).value) == WebAddress(s)
  {
    var u := TryCreate(s).value;
    TryCreateWellFormed(s);
    ToStringReparses(u);
  }
}
