/** `extract_urls`: fetch a page, then for each requested file type, for each
    pattern the type has, for each match of the pattern in the page, yield the
    match resolved against the page's URL. */
module Extract {
  import opened Common
  import opened Http
  import opened Urls

  /** The patterns searched for each file type, in table order. */
  const FileRegex: map<string, seq<string>> := map[
    "jpg" := ["<img.*src=\"?([^\\\" ]+.jpg)", "<a.*href=\"?([^\\\" ]+.jpg)"],
    "mp3" := ["<audio.*src=\"?([^\\\" ]+.mp3)", "a.*href=\"?([^\\\" ]+.mp3)"],
    "pdf" := ["<a.*href=\"?([^\\\" ]+.pdf)"],
    "png" := ["<img.*src=\"?([^\\\" ]+.png)", "<a.*href=\"?([^\\\" ]+.png)"]
  ]

  /** `re.findall(pattern, text)`: the regular-expression engine is not
      modelled, so every operation takes it as a parameter. */
  type Matcher = (string, string) -> seq<string>

  /** Why extraction stopped early. */
  datatype Failure =
    | PageUnreachable             // `requests.get` raised: the exception escapes
    | PageRejected(status: int)   // the page came back with an error status: `exit(5)`
    | UnknownFileType(fileType: string)  // `FILE_REGEX[filetype]` raised KeyError

  /** What the generator produces: the links it yielded, in order, and the
      failure that ended it, if any. */
  datatype Links = Links(urls: seq<string>, failure: Option<Failure>)

  /** `resolve_url(url, _)` for the page's URL: what every match goes
      through before it is yielded. The link functions below take it as a
      parameter, so that their order and count lemmas hold for any
      resolution. */
  function ResolverFor(url: string): (resolve: string -> string)
    ensures resolve("") == url
    ensures forall relative :: HasScheme(relative) ==> resolve(relative) == relative
  {
    (relative: string) => Resolve(url, relative)
  }

  /** Each match resolved, in match order. */
  function ResolveAll(resolve: string -> string, matches: seq<string>): (links: seq<string>)
    ensures |links| == |matches|
  {
    seq(|matches|, i requires 0 <= i < |matches| => resolve(matches[i]))
  }

  /** The links one file type contributes: pattern by pattern, match by
      match. */
  function PatternLinks(resolve: string -> string, patterns: seq<string>, text: string, findall: Matcher): seq<string>
  {
    if patterns == [] then []
    else ResolveAll(resolve, findall(patterns[0], text)) + PatternLinks(resolve, patterns[1..], text, findall)
  }

  /** The links of the requested file types, type by type, with `table`
      giving each type's patterns (`FileRegex` in the program, any table in
      the lemmas below); a type the table lacks ends the generator with a
      KeyError after the links of the types before it. */
  function TypeLinks(table: map<string, seq<string>>, resolve: string -> string, fileTypes: seq<string>, text: string, findall: Matcher): (links: Links)
    ensures links.failure.Some? ==>
      && links.failure.value.UnknownFileType?
      && links.failure.value.fileType in fileTypes
      && links.failure.value.fileType !in table
  {
    if fileTypes == [] then Links([], None)
    else if fileTypes[0] !in table then Links([], Some(UnknownFileType(fileTypes[0])))
    else
      var rest := TypeLinks(table, resolve, fileTypes[1..], text, findall);
      Links(PatternLinks(resolve, table[fileTypes[0]], text, findall) + rest.urls, rest.failure)
  }

  /** `extract_urls(url, file_types)`, given the reply to the page request. */
  function ExtractUrls(url: string, fileTypes: seq<string>, page: Reply, findall: Matcher): (links: Links)
    ensures page.TransportError? ==> links == Links([], Some(PageUnreachable))
    ensures page.Response? && IsErrorStatus(page.status) ==> links == Links([], Some(PageRejected(page.status)))
  {
    if page.TransportError? then Links([], Some(PageUnreachable))
    else if IsErrorStatus(page.status) then Links([], Some(PageRejected(page.status)))
    else TypeLinks(FileRegex, ResolverFor(url), fileTypes, page.text, findall)
  }

  /** The exit status of the process when extraction fails: `exit(5)` for a
      rejected page, and 1 for an exception that escapes. */
  function FailureStatus(failure: Failure): (status: int)
    ensures status == 5 <==> failure.PageRejected?
    ensures status == 1 <==> !failure.PageRejected?
  {
    if failure.PageRejected? then 5 else 1
  }

  // Reference definitions: how many matches there are, independently of
  // the order in which the generator visits them.

  /** Total number of matches of `patterns` in `text`. */
  function MatchCount(patterns: seq<string>, text: string, findall: Matcher): nat
  {
    if patterns == [] then 0 else |findall(patterns[0], text)| + MatchCount(patterns[1..], text, findall)
  }

  /** Total number of matches of the patterns of every type in `fileTypes`
      (all of them known). */
  function TypeMatchCount(table: map<string, seq<string>>, fileTypes: seq<string>, text: string, findall: Matcher): nat
    requires AllKnown(table, fileTypes)
  {
    if fileTypes == [] then 0
    else MatchCount(table[fileTypes[0]], text, findall) + TypeMatchCount(table, fileTypes[1..], text, findall)
  }

  predicate AllKnown(table: map<string, seq<string>>, fileTypes: seq<string>) {
    forall t :: t in fileTypes ==> t in table
  }

  // Order and count of the generated links.

  /** The links of consecutive pattern lists follow each other. */
  lemma {:induction false} PatternLinksAppend(resolve: string -> string, a: seq<string>, b: seq<string>, text: string, findall: Matcher)
    ensures PatternLinks(resolve, a + b, text, findall) == PatternLinks(resolve, a, text, findall) + PatternLinks(resolve, b, text, findall)
  {
    if a != [] {
      assert (a + b)[0] == a[0];
      assert (a + b)[1..] == a[1..] + b;
      PatternLinksAppend(resolve, a[1..], b, text, findall);
      var first := ResolveAll(resolve, findall(a[0], text));
      var x, y := PatternLinks(resolve, a[1..], text, findall), PatternLinks(resolve, b, text, findall);
      assert first + (x + y) == (first + x) + y;
    } else {
      assert a + b == b;
    }
  }

  /** One link per match: nothing is dropped and nothing deduplicated. */
  lemma {:induction false} PatternLinksCount(resolve: string -> string, patterns: seq<string>, text: string, findall: Matcher)
    ensures |PatternLinks(resolve, patterns, text, findall)| == MatchCount(patterns, text, findall)
  {
    if patterns != [] {
      PatternLinksCount(resolve, patterns[1..], text, findall);
    }
  }

  /** Match `m` of pattern `j` is the link that follows the matches of the
      patterns before `j`. */
  lemma PatternLinksAt(resolve: string -> string, patterns: seq<string>, text: string, findall: Matcher, j: nat, m: nat)
    requires j < |patterns| && m < |findall(patterns[j], text)|
    ensures var links, at := PatternLinks(resolve, patterns, text, findall), MatchCount(patterns[..j], text, findall) + m;
      at < |links| && links[at] == resolve(findall(patterns[j], text)[m])
  {
    var before, rest := patterns[..j], patterns[j..];
    var prefix := PatternLinks(resolve, before, text, findall);
    var matched := ResolveAll(resolve, findall(patterns[j], text));
    var after := PatternLinks(resolve, rest[1..], text, findall);
    assert PatternLinks(resolve, patterns, text, findall) == prefix + (matched + after) by {
      assert patterns == before + rest;
      PatternLinksAppend(resolve, before, rest, text, findall);
      assert rest[0] == patterns[j];
    }
    assert |prefix| == MatchCount(before, text, findall) by {
      PatternLinksCount(resolve, before, text, findall);
    }
    AtMiddle(prefix, matched, after, m);
  }

  /** With every type known, the links of consecutive type lists follow
      each other and the failure is that of the second list. */
  lemma {:induction false} TypeLinksAppend(table: map<string, seq<string>>, resolve: string -> string, a: seq<string>, b: seq<string>, text: string, findall: Matcher)
    requires AllKnown(table, a)
    ensures TypeLinks(table, resolve, a + b, text, findall)
      == Links(TypeLinks(table, resolve, a, text, findall).urls + TypeLinks(table, resolve, b, text, findall).urls, TypeLinks(table, resolve, b, text, findall).failure)
  {
    if a != [] {
      assert (a + b)[0] == a[0] && a[0] in a;
      assert (a + b)[1..] == a[1..] + b;
      assert AllKnown(table, a[1..]);
      TypeLinksAppend(table, resolve, a[1..], b, text, findall);
      var first := PatternLinks(resolve, table[a[0]], text, findall);
      var x, y := TypeLinks(table, resolve, a[1..], text, findall).urls, TypeLinks(table, resolve, b, text, findall).urls;
      assert first + (x + y) == (first + x) + y;
    } else {
      assert a + b == b;
    }
  }

  /** With every type known, the generator runs to the end and yields one
      link per match of every pattern of every type. */
  lemma {:induction false} TypeLinksCount(table: map<string, seq<string>>, resolve: string -> string, fileTypes: seq<string>, text: string, findall: Matcher)
    requires AllKnown(table, fileTypes)
    ensures TypeLinks(table, resolve, fileTypes, text, findall).failure == None
    ensures |TypeLinks(table, resolve, fileTypes, text, findall).urls| == TypeMatchCount(table, fileTypes, text, findall)
  {
    if fileTypes != [] {
      assert fileTypes[0] in fileTypes;
      PatternLinksCount(resolve, table[fileTypes[0]], text, findall);
      TypeLinksCount(table, resolve, fileTypes[1..], text, findall);
    }
  }

  /** Match `m` of pattern `j` of type `i` comes after every match of the
      types before `i` and of the patterns of type `i` before `j`. */
  lemma TypeLinksAt(table: map<string, seq<string>>, resolve: string -> string, fileTypes: seq<string>, text: string, findall: Matcher, i: nat, j: nat, m: nat)
    requires AllKnown(table, fileTypes) && i < |fileTypes|
    requires j < |table[fileTypes[i]]| && m < |findall(table[fileTypes[i]][j], text)|
    ensures var links := TypeLinks(table, resolve, fileTypes, text, findall).urls;
      var patterns := table[fileTypes[i]];
      var at := TypeMatchCount(table, fileTypes[..i], text, findall) + MatchCount(patterns[..j], text, findall) + m;
      at < |links| && links[at] == resolve(findall(patterns[j], text)[m])
  {
    var before, rest := fileTypes[..i], fileTypes[i..];
    assert fileTypes == before + rest;
    TypeLinksAppend(table, resolve, before, rest, text, findall);
    TypeLinksCount(table, resolve, before, text, findall);
    var patterns := table[fileTypes[i]];
    var own := PatternLinks(resolve, patterns, text, findall);
    var after := TypeLinks(table, resolve, rest[1..], text, findall).urls;
    assert rest[0] == fileTypes[i] && rest[0] in fileTypes;
    assert TypeLinks(table, resolve, rest, text, findall).urls == own + after;
    PatternLinksAt(resolve, patterns, text, findall, j, m);
    AtMiddle(TypeLinks(table, resolve, before, text, findall).urls, own, after, MatchCount(patterns[..j], text, findall) + m);
  }

  /** The first unknown file type ends the generator with a KeyError, after
      the links of every type before it. */
  lemma {:induction false} UnknownTypeEndsLinks(table: map<string, seq<string>>, resolve: string -> string, fileTypes: seq<string>, text: string, findall: Matcher, i: nat)
    requires i < |fileTypes| && fileTypes[i] !in table && AllKnown(table, fileTypes[..i])
    ensures TypeLinks(table, resolve, fileTypes, text, findall)
      == Links(TypeLinks(table, resolve, fileTypes[..i], text, findall).urls, Some(UnknownFileType(fileTypes[i])))
  {
    if i == 0 {
      assert fileTypes[..0] == [];
    } else {
      assert fileTypes[0] in fileTypes[..i];
      assert fileTypes[1..][..i - 1] == fileTypes[..i][1..];
      assert AllKnown(table, fileTypes[1..][..i - 1]);
      UnknownTypeEndsLinks(table, resolve, fileTypes[1..], text, findall, i - 1);
    }
  }

  /** The generator ends without a failure exactly when every requested
      type is known. */
  lemma {:induction false} TypeLinksFailure(table: map<string, seq<string>>, resolve: string -> string, fileTypes: seq<string>, text: string, findall: Matcher)
    ensures TypeLinks(table, resolve, fileTypes, text, findall).failure == None <==> AllKnown(table, fileTypes)
  {
    if fileTypes != [] && fileTypes[0] in table {
      TypeLinksFailure(table, resolve, fileTypes[1..], text, findall);
      assert forall t :: t in fileTypes <==> t == fileTypes[0] || t in fileTypes[1..];
    }
  }

  /** A page that fetches, with known file types: one link per match, in
      type, pattern and match order. */
  lemma ExtractUrlsOrder(url: string, fileTypes: seq<string>, page: Reply, findall: Matcher, i: nat, j: nat, m: nat)
    requires Succeeded(page) && AllKnown(FileRegex, fileTypes) && i < |fileTypes|
    requires j < |FileRegex[fileTypes[i]]| && m < |findall(FileRegex[fileTypes[i]][j], page.text)|
    ensures var links := ExtractUrls(url, fileTypes, page, findall);
      var patterns := FileRegex[fileTypes[i]];
      var at := TypeMatchCount(FileRegex, fileTypes[..i], page.text, findall) + MatchCount(patterns[..j], page.text, findall) + m;
      && links.failure == None
      && |links.urls| == TypeMatchCount(FileRegex, fileTypes, page.text, findall)
      && at < |links.urls| && links.urls[at] == Resolve(url, findall(patterns[j], page.text)[m])
  {
    TypeLinksCount(FileRegex, ResolverFor(url), fileTypes, page.text, findall);
    TypeLinksAt(FileRegex, ResolverFor(url), fileTypes, page.text, findall, i, j, m);
  }
}
