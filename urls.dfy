/** URL resolution as `resolve_url` performs it through `urllib.parse.urljoin`:
    reference resolution of section 5.2 of RFC 3986 for references that carry
    a scheme, network-path references ("//host/..."), absolute-path references
    ("/...") and relative-path references ("a/b.jpg"). */
module Urls {
  import opened Common

  predicate IsAlpha(c: char) {
    'a' <= c <= 'z' || 'A' <= c <= 'Z'
  }

  /** The characters Python's `urlsplit` accepts in a scheme. */
  predicate IsSchemeChar(c: char) {
    IsAlpha(c) || '0' <= c <= '9' || c == '+' || c == '-' || c == '.'
  }

  predicate IsSchemeName(s: string) {
    s != [] && IsAlpha(s[0]) && forall i :: 0 <= i < |s| ==> IsSchemeChar(s[i])
  }

  /** Length of the longest prefix of `s` made of scheme characters. */
  function SchemeSpan(s: string): (n: nat)
    ensures n <= |s|
    ensures forall i :: 0 <= i < n ==> IsSchemeChar(s[i])
    ensures n < |s| ==> !IsSchemeChar(s[n])
  {
    if s == [] || !IsSchemeChar(s[0]) then 0 else 1 + SchemeSpan(s[1..])
  }

  /** `s` starts with a scheme: a letter, then scheme characters, then the
      first ':' of `s`. Since ':' is not a scheme character, this is Python's
      test "everything before the first ':' is a scheme character". */
  predicate HasScheme(s: string) {
    var n := SchemeSpan(s);
    0 < n < |s| && s[n] == ':' && IsAlpha(s[0])
  }

  /** The components `urlsplit` separates: `tail` is the query and fragment
      together, starting at the first '?' or '#' after the authority. */
  datatype Parts = Parts(scheme: Option<string>, authority: Option<string>, path: string, tail: string)

  const AuthorityStops: set<char> := {'/', '?', '#'}
  const PathStops: set<char> := {'?', '#'}

  /** A scheme with its ':' delimiter, or nothing. */
  function SchemeText(scheme: Option<string>): string {
    if scheme.Some? then scheme.value + ":" else ""
  }

  /** An authority with its "//" delimiter, or nothing. */
  function AuthorityText(authority: Option<string>): string {
    if authority.Some? then "//" + authority.value else ""
  }

  /** Scheme and authority with their delimiters: the part of a URL that
      resolution of a path reference keeps. */
  function Origin(p: Parts): string {
    SchemeText(p.scheme) + AuthorityText(p.authority)
  }

  function Compose(p: Parts): string {
    SchemeText(p.scheme) + (AuthorityText(p.authority) + (p.path + p.tail))
  }

  /** What splitting a URL can produce: the delimiters of each component do
      not occur inside the components before it. */
  predicate WellFormed(p: Parts) {
    && (p.scheme.Some? ==> IsSchemeName(p.scheme.value))
    && (p.authority.Some? ==> NoneOf(p.authority.value, AuthorityStops) && (p.path == [] || p.path[0] == '/'))
    && NoneOf(p.path, PathStops)
    && (p.tail == [] || p.tail[0] in PathStops)
  }

  /** The scheme of `s`, when it has one. */
  function SchemeOf(s: string): (scheme: Option<string>)
    ensures scheme.Some? <==> HasScheme(s)
    ensures scheme.Some? ==> IsSchemeName(scheme.value)
  {
    if HasScheme(s) then Some(s[..SchemeSpan(s)]) else None
  }

  /** The text after the scheme and its ':'. */
  function AfterScheme(s: string): string {
    if HasScheme(s) then s[SchemeSpan(s) + 1..] else s
  }

  lemma SchemeSplits(s: string)
    ensures s == SchemeText(SchemeOf(s)) + AfterScheme(s)
  {
    if HasScheme(s) {
      var n := SchemeSpan(s);
      assert s == s[..n] + [s[n]] + s[n + 1..];
    }
  }

  predicate StartsWithTwoSlashes(s: string) {
    |s| >= 2 && s[0] == '/' && s[1] == '/'
  }

  /** The authority that follows "//", when the text starts with "//". */
  function AuthorityOf(rest: string): (authority: Option<string>)
    ensures authority.Some? <==> StartsWithTwoSlashes(rest)
    ensures authority.Some? ==> NoneOf(authority.value, AuthorityStops)
  {
    if StartsWithTwoSlashes(rest) then Some(rest[2..][..FindAny(rest[2..], AuthorityStops)]) else None
  }

  /** The text after the authority: with an authority, it is empty or starts
      with '/', '?' or '#'. */
  function AfterAuthority(rest: string): (after: string)
    ensures StartsWithTwoSlashes(rest) ==> after == [] || after[0] in AuthorityStops
  {
    if StartsWithTwoSlashes(rest) then rest[2..][FindAny(rest[2..], AuthorityStops)..] else rest
  }

  lemma AuthoritySplits(rest: string)
    ensures rest == AuthorityText(AuthorityOf(rest)) + AfterAuthority(rest)
  {
    if StartsWithTwoSlashes(rest) {
      var n := FindAny(rest[2..], AuthorityStops);
      assert rest == rest[..2] + rest[2..][..n] + rest[2..][n..];
    }
  }

  /** Splits a URL into its components the way `urlsplit` does. */
  function Parse(s: string): (p: Parts)
    ensures WellFormed(p)
    ensures p.scheme.Some? <==> HasScheme(s)
  {
    var after := AfterAuthority(AfterScheme(s));
    var k := FindAny(after, PathStops);
    assert after[..k] != [] ==> after[0] !in PathStops;
    Parts(SchemeOf(s), AuthorityOf(AfterScheme(s)), after[..k], after[k..])
  }

  /** Composing the components of a URL gives back the URL. */
  lemma ComposeParse(s: string)
    ensures Compose(Parse(s)) == s
  {
    var p := Parse(s);
    var rest := AfterScheme(s);
    var after := AfterAuthority(rest);
    assert s == SchemeText(p.scheme) + rest by {
      SchemeSplits(s);
    }
    assert rest == AuthorityText(p.authority) + after by {
      AuthoritySplits(rest);
    }
    assert p.scheme == SchemeOf(s) && p.authority == AuthorityOf(rest);
    assert after == p.path + p.tail;
    assert Compose(p) == SchemeText(p.scheme) + (AuthorityText(p.authority) + after);
  }

  /** Splitting a composed URL gives back its components, provided they
      could have come from a split and carry a scheme and an authority. */
  lemma ParseCompose(p: Parts)
    requires WellFormed(p) && p.scheme.Some? && p.authority.Some?
    ensures Parse(Compose(p)) == p
  {
    var scheme, authority := p.scheme.value, p.authority.value;
    var s := Compose(p);
    var rest := "//" + authority + (p.path + p.tail);
    assert s == scheme + (":" + rest);
    SchemeSpanStopsAt(scheme, ":" + rest);
    assert SchemeOf(s) == p.scheme;
    assert AfterScheme(s) == rest;
    assert rest[2..] == authority + (p.path + p.tail);
    FindAnyAtSeam(authority, p.path + p.tail, AuthorityStops);
    assert AuthorityOf(rest) == p.authority;
    assert AfterAuthority(rest) == p.path + p.tail;
    FindAnyAtSeam(p.path, p.tail, PathStops);
    assert (p.path + p.tail)[..|p.path|] == p.path;
    assert (p.path + p.tail)[|p.path|..] == p.tail;
  }

  lemma SchemeSpanStopsAt(a: string, b: string)
    requires forall i :: 0 <= i < |a| ==> IsSchemeChar(a[i])
    requires b == [] || !IsSchemeChar(b[0])
    ensures SchemeSpan(a + b) == |a|
  {
    assert b != [] ==> (a + b)[|a|] == b[0];
  }

  /** The directory part of a path: everything up to and including its last
      '/' (empty when there is none). */
  function Directory(path: string): string {
    path[..AfterLastSlash(path)]
  }

  /** A path that starts with '/' has a non-empty directory. */
  lemma RootedPathHasDirectory(path: string)
    requires path != [] && path[0] == '/'
    ensures AfterLastSlash(path) > 0
  {
    assert path[0..] == path;
  }

  /** The directory a relative-path reference is merged into (section 5.2.3
      of RFC 3986): "/" for a base with an authority and an empty path,
      otherwise the directory of the base's path. */
  function BaseDirectory(b: Parts): string {
    if b.authority.Some? && b.path == [] then "/" else Directory(b.path)
  }

  /** A reference that starts with "//" followed by an authority: a
      network-path reference. When nothing comes between "//" and the next
      '/', '?' or '#', `urlsplit` finds an empty authority, and `urljoin`,
      which only keeps a non-empty one, resolves the reference against the
      base's authority instead. */
  predicate NamesAuthority(reference: string) {
    StartsWithTwoSlashes(reference) && |reference| > 2 && reference[2] !in AuthorityStops
  }

  /** What a reference that names no authority is resolved by: its text
      without the "//" of an empty authority. */
  function PathPart(reference: string): string {
    if StartsWithTwoSlashes(reference) then reference[2..] else reference
  }

  /** Resolution of a path reference against the components of the base:
      an absolute path keeps the base's scheme and authority, and a relative
      path is merged with the base's directory. */
  function ResolvePath(b: Parts, reference: string): string {
    if reference != [] && reference[0] == '/' then Origin(b) + reference
    else Origin(b) + BaseDirectory(b) + reference
  }

  /** Resolution of a reference that has no scheme against the components of
      the base: a network-path reference keeps only the base's scheme, and
      any other reference is resolved as a path. */
  function ResolveAgainst(b: Parts, reference: string): string {
    if NamesAuthority(reference) then SchemeText(b.scheme) + reference
    else ResolvePath(b, PathPart(reference))
  }

  /** `urljoin(base, reference)`. */
  function Resolve(base: string, reference: string): (r: string)
    ensures reference == [] ==> r == base
    ensures HasScheme(reference) ==> r == reference
  {
    if reference == [] then base
    else if HasScheme(reference) then reference
    else ResolveAgainst(Parse(base), reference)
  }

  /** A non-empty reference ends the resolved URL, without the "//" of an
      empty authority. */
  lemma ResolveEndsWithReference(base: string, reference: string)
    requires reference != []
    ensures var r, tail := Resolve(base, reference), if NamesAuthority(reference) then reference else PathPart(reference);
      |tail| <= |r| && r[|r| - |tail|..] == tail
  {
  }

  /** "///x.jpg" names an empty authority: against "https://h/d/" it
      resolves to "https://h/x.jpg", as `urljoin` resolves it. */
  lemma EmptyAuthorityKeepsBase()
    ensures ResolveAgainst(Parts(Some("https"), Some("h"), "/d/", ""), "///x.jpg") == "https://h/x.jpg"
  {
    assert !NamesAuthority("///x.jpg");
    assert PathPart("///x.jpg") == "/x.jpg";
  }

  /** The path of a resolved path reference (section 5.2.2 of RFC 3986): an
      absolute path replaces the base's path, a relative one is appended to
      the base's directory. */
  function MergedPath(b: Parts, referencePath: string): string {
    if referencePath != [] && referencePath[0] == '/' then referencePath
    else BaseDirectory(b) + referencePath
  }

  /** A reference without a scheme that names no authority ("/a.jpg",
      "img/a.jpg" or "///a.jpg"), resolved against a base that has a scheme
      and an authority, keeps the base's scheme and authority, takes the
      merged path and carries the reference's own query and fragment. */
  lemma ResolvePathReference(base: string, reference: string)
    requires reference != [] && !HasScheme(reference) && !NamesAuthority(reference)
    requires Parse(base).scheme.Some? && Parse(base).authority.Some?
    ensures var b, path := Parse(base), PathPart(reference);
      var k := FindAny(path, PathStops);
      Parse(Resolve(base, reference)) == Parts(b.scheme, b.authority, MergedPath(b, path[..k]), path[k..])
  {
    PathReferenceParts(Parse(base), PathPart(reference));
  }

  lemma PathReferenceParts(b: Parts, reference: string)
    requires WellFormed(b) && b.scheme.Some? && b.authority.Some?
    ensures var k := FindAny(reference, PathStops);
      Parse(ResolvePath(b, reference)) == Parts(b.scheme, b.authority, MergedPath(b, reference[..k]), reference[k..])
  {
    var k := FindAny(reference, PathStops);
    var rooted := reference != [] && reference[0] == '/';
    var dir := if rooted then "" else BaseDirectory(b);
    if !rooted && b.path != [] {
      RootedPathHasDirectory(b.path);
      NoneOfSlice(b.path, 0, AfterLastSlash(b.path), PathStops);
    }
    assert rooted ==> k > 0 && reference[..k][0] == '/';
    var path := dir + reference[..k];
    assert path == MergedPath(b, reference[..k]);
    NoneOfConcat(dir, reference[..k], PathStops);
    assert reference == reference[..k] + reference[k..];
    ConcatAssociates(dir, reference[..k], reference[k..]);
    if !rooted {
      ConcatAssociates(Origin(b), dir, reference);
    }
    assert ResolvePath(b, reference) == Origin(b) + (path + reference[k..]);
    ConcatAssociates(SchemeText(b.scheme), AuthorityText(b.authority), path + reference[k..]);
    var q := Parts(b.scheme, b.authority, path, reference[k..]);
    assert Compose(q) == ResolvePath(b, reference);
    assert WellFormed(q);
    ParseCompose(q);
  }
  /** The directory of a path is the prefix of the path that ends at its last
      '/': nothing after it is a '/'. */
  lemma DirectoryIsLastSlashPrefix(path: string)
    ensures var d := Directory(path);
      && path == d + path[|d|..]
      && (d != [] ==> d[|d| - 1] == '/')
      && '/' !in path[|d|..]
  {
    var d := Directory(path);
    assert path == d + path[|d|..];
  }
}
