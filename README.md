# miles.py in Dafny

`miles.py` is a small web crawler. It takes a page URL, finds the links to
files of the requested types (jpg, mp3, pdf, png) in the page, and downloads
each file into a destination folder through a process pool. At the end it
reports how many files were downloaded and how many bytes they hold. This
project models the sequential logic of that program and proves its
properties:

- **`main`'s option loop** (`cli.dfy`, module `Cli`). `ParseArguments` is a
  method with a `while` loop that pops arguments the way the program does.
  It is proved equal to the specification function `ParseOptions`. The
  lemmas about `ParseOptions` cover:
  - `-h` exits with status 0, and any other dash-prefixed argument exits
    with status 1;
  - a flag given without its value raises at `pop(0)`, and an `-n` value
    that is not an integer raises in `int()`;
  - `-d` sets the destination and `-n` the worker count;
  - `-f` values accumulate in order, split on commas;
  - the URL is the last positional argument, and a missing URL exits with
    status 1;
  - the file types of a run are those of its `-f` flags, or all four when no
    `-f` flag gave one.

  `Miles` chains the parse and the crawl into the exit status and the final
  files on disk. The status is always 0, 1 or 5, and nothing is written
  unless the options parse to a run.
- **`resolve_url`** (`urls.dfy`, module `Urls`). It models `urljoin`: URLs
  are split into scheme, authority, path and the query-plus-fragment tail,
  the way `urlsplit` does it. Composing the parts of any URL gives the URL
  back. Splitting composed parts gives the parts back when they have a
  scheme and an authority. Without an authority, a path that starts with
  `//` would read back as one.
  Resolution follows section 5.2 of RFC 3986, for these references:
  - those with a scheme, which pass through unchanged;
  - network-path references (`//host/...`). After `//` with an empty
    authority (`///x.jpg`), `urljoin` keeps the base's authority and
    resolves the rest as a path;
  - absolute-path references (`/...`);
  - relative-path references, which are merged with the base's directory.
- **`extract_urls`** (`extract.dfy`, module `Extract`). Its three nested
  loops become recursive functions over the `FILE_REGEX` table. The output
  order is by file type, then pattern, then match, and a lemma pins down
  the exact position of every match. The count is exactly one link per
  match, so nothing is deduplicated. A rejected page is exit status 5. An
  unknown file type ends the generator with a KeyError, after the links of
  the types before it.
- **`download_url`** (`download.dfy`, module `Download`). The local path is
  `os.path.join(destination, os.path.basename(url))`. Its base name is the
  URL's base name and holds no `/`. A failed request returns `None` and
  writes nothing. A successful one with a non-empty name replaces exactly
  one file. When the URL ends with `/`, the name is empty and opening the
  folder path raises.
- **`crawl`** (`crawl.dfy`, module `Crawl`).
  - `executor.map` becomes an in-order fold that gives one outcome per URL,
    over a store mapping each path to its contents.
  - The filter keeps the saved paths in dispatch order, and their number is
    the file count.
  - Every kept path is on disk.
  - The byte total sums the final size of every kept path. It therefore
    equals the bytes downloaded when the paths are distinct. Two URLs with
    the same base name write one file and count it twice.
  - A worker count below 1, a failed page, an unknown file type or a
    download that cannot open its path ends the crawl without a report.

`common.dfy` holds `Option`, `Result` and the two string searches the
program performs (`find` of the first of several characters, `rfind('/')`).
`http.dfy` holds what the program sees of an HTTP reply.

The byte total follows the code, not the sentence "bytes downloaded" in the
report. The code measures each listed path on disk after all downloads have
finished. When two links share a base name, both downloads write the same
file. With one worker (the default), and in the model's dispatch order, the
second write wins. With several workers, whichever write finishes last wins.
Either way, that one file is listed, and counted, twice.
`Crawl.SharedNameCountedTwice` exhibits such a case: on disk the total is 4,
while 3 bytes were downloaded.

## Model

| member | source | states |
|---|---|---|
| Cli.ParseArguments | miles.py:144-174 | the option loop, which pops each argument and then a flag's value, returns exactly what `ParseOptions` specifies for the whole argument list |
| Cli.ParseOptions | miles.py:144-174 | what `main` decides before crawling: a run always has a URL and at least one type, and a usage exit has status 0 or 1 |
| Cli.Finish | miles.py:170-174 | the checks after the loop: a halt is kept, no URL exits with status 1, and a run has a URL and at least one type |
| Cli.ScanFrom | miles.py:148-168 | the loop stops early only with an exit, a missing value or a bad number, never with a run |
| Cli.ScanAppend | miles.py:148-149 | scanning continues from the options a completed prefix left |
| Cli.HelpExits | miles.py:162-163 | `-h` after any completed prefix exits with status 0, whatever follows |
| Cli.UnknownFlagExits | miles.py:164-166 | any other argument starting with `-` exits with status 1 |
| Cli.MissingValueRaises | miles.py:152-157 | `-d`, `-n` or `-f` as the last argument fails with a missing value for that flag |
| Cli.DestinationFlagSets | miles.py:152-153 | `-d v` sets the destination to `v` and scanning goes on after `v` |
| Cli.CpusFlagSets | miles.py:154-155 | `-n v` sets the worker count to `int(v)` and scanning goes on after `v`; when `int(v)` raises, the loop stops there |
| Cli.BadNumberRaises | miles.py:154-155 | an `-n` value that is not an integer makes `main` fail, whatever follows it |
| Cli.FileTypesAppend | miles.py:156-161 | `-f v` appends the comma-separated pieces of `v` after the types already given |
| Cli.FileTypesAccumulate | miles.py:156-161 | two `-f` flags give the pieces of the first value followed by those of the second, with default destination and worker count |
| Cli.SplitComma | miles.py:158-159 | `split(',')` gives at least one piece and no piece contains a comma |
| Cli.JoinSplit | miles.py:158-159 | joining the pieces of a split with commas gives back the value |
| Cli.SplitJoin | miles.py:158-159 | splitting comma-joined comma-free pieces gives back the pieces |
| Cli.SplitWithoutComma | miles.py:158-161 | a value without a comma splits into itself, so `append` and `extend(split)` add the same types |
| Cli.FlagTypes | miles.py:158-161 | the types one `-f` value adds are its comma split in both branches |
| Cli.ParseInt | miles.py:155 | `int()` succeeds exactly on an optional sign followed by at least one decimal digit |
| Cli.DigitsRoundTrip | miles.py:155 | reading back the decimal digits of a natural number gives that number |
| Cli.ParseIntText | miles.py:155 | `int(str(n)) == n` for every integer `n` |
| Cli.OptionsKeepUrl | miles.py:152-161 | flags with their values never change the URL; only a non-numeric `-n` value stops them |
| Cli.UrlIsLastPositional | miles.py:164-168 | a positional argument followed only by flags with values is the URL of the run (unless `-n` fails) |
| Cli.MissingUrlExits | miles.py:170-171 | arguments without a positional exit with status 1 (unless `-n` fails) |
| Cli.ScannedTypes | miles.py:156-161 | after the loop the file types are the initial ones followed by the pieces of every `-f` value read at a flag position, in order |
| Cli.NoTypeFlagAddsNothing | miles.py:156-161 | without `-f` among the arguments no flag adds a type |
| Cli.RunDefaults | miles.py:170-174 | the types of a run are those its `-f` flags gave, or jpg, mp3, pdf, png when they gave none |
| Cli.DocumentedInvocation | miles.py:137 | `-d D -f jpg URL` runs with destination D, one worker, types [jpg] and that URL |
| Cli.CrawlStatus | miles.py:179 | the exit status is 0 exactly when the report is printed and 5 exactly when the page was rejected |
| Cli.RejectedPageExitsFive | miles.py:66-68 | a parsed run with a destination whose page answers with an error status ends with status 5 and nothing written |
| Cli.Miles | miles.py:144-179 | the process ends with status 0, 1 or 5; without a run nothing is written; a usage exit keeps its status and a raising `pop(0)` or `int()` gives 1; status 0 means `-h` or a run whose page request succeeded; an empty destination makes `os.makedirs` raise, ending with status 1 before any request |
| Urls.Resolve | miles.py:53-56 | an empty reference gives the base; a reference with a scheme is returned unchanged |
| Urls.ResolveAgainst | miles.py:48-56 | a reference without a scheme: `//` with a non-empty authority keeps only the base's scheme; any other reference, after dropping the `//` of an empty authority, is resolved as a path |
| Urls.ResolvePath | miles.py:48-56 | a path: one starting with `/` keeps the base's scheme and authority, anything else goes after the base's directory |
| Urls.EmptyAuthorityKeepsBase | miles.py:48-56 | `///x.jpg` against `https://h/d/` resolves to `https://h/x.jpg`: an empty authority keeps the base's |
| Urls.MergedPath | miles.py:48-56 | the path of a resolved path reference: an absolute path replaces the base's, a relative one follows the base's directory |
| Urls.BaseDirectory | miles.py:50-52 | the directory a relative reference is merged into: `/` for a base with an authority and no path, otherwise the base path up to its last `/` |
| Urls.ResolvePathReference | miles.py:48-56 | a reference that names no authority (a path, or a path after `//` with an empty authority) keeps the base's scheme and authority, takes the merged path (the base's directory followed by a relative path, or the absolute path) and the reference's own query and fragment |
| Urls.PathReferenceParts | miles.py:48-56 | the same at the level of the base's components |
| Urls.DirectoryIsLastSlashPrefix | miles.py:50-52 | the directory that a relative reference replaces the rest of is the path up to and including its last `/`; nothing after it is a `/` |
| Urls.Compose | miles.py:56 | the components joined with their delimiters: `scheme:`, `//authority`, path, query and fragment |
| Urls.ComposeParse | miles.py:56 | reassembling the components of any URL gives back the URL |
| Urls.ParseCompose | miles.py:56 | splitting reassembled components with a scheme and an authority gives back the components |
| Urls.Parse | miles.py:56 | the components of any URL are well formed, and a scheme is found exactly when the URL starts with one |
| Urls.HasScheme | miles.py:56 | the text starts with a letter, then scheme characters, then `:` |
| Urls.SchemeOf | miles.py:56 | a scheme is found exactly when the text starts with a letter, then scheme characters, then `:` |
| Urls.SchemeSpan | miles.py:56 | the longest run of scheme characters at the start of the text |
| Urls.SchemeSplits | miles.py:56 | the text is its scheme with `:` followed by the rest |
| Urls.AuthoritySplits | miles.py:56 | the rest is the authority with `//` followed by what comes after it |
| Urls.AuthorityOf | miles.py:56 | an authority is found exactly after `//` and holds no `/`, `?` or `#` |
| Urls.AfterAuthority | miles.py:56 | after an authority comes nothing or a `/`, `?` or `#` |
| Urls.ResolveEndsWithReference | miles.py:56 | the resolved URL ends with the reference, without the `//` of an empty authority |
| Extract.ResolverFor | miles.py:73 | the resolution every match goes through: an empty match gives the page URL, a match with a scheme stays as it is |
| Extract.ResolveAll | miles.py:72-73 | one link per match of a pattern, the match resolved, in match order |
| Extract.PatternLinks | miles.py:71-73 | the links of one type's patterns, pattern by pattern and match by match |
| Extract.TypeLinks | miles.py:70-73 | the links of the requested types, type by type; the only failure is a KeyError on a requested type the table lacks |
| Extract.ExtractUrls | miles.py:66-68 | a request that raises yields nothing and escapes; an error status yields nothing and exits |
| Extract.FailureStatus | miles.py:66-68 | exit status 5 exactly for a rejected page, 1 for an escaping exception |
| Extract.PatternLinksAppend | miles.py:71-73 | the links of consecutive pattern lists follow each other |
| Extract.PatternLinksCount | miles.py:71-73 | one link per match: the count is the number of matches |
| Extract.PatternLinksAt | miles.py:71-73 | match `m` of pattern `j` is at the number of matches of the earlier patterns plus `m` |
| Extract.TypeLinksAppend | miles.py:70-73 | with known types, the links of consecutive type lists follow each other |
| Extract.TypeLinksCount | miles.py:70-73 | with known types the generator ends normally with one link per match of every pattern of every type |
| Extract.TypeLinksAt | miles.py:70-73 | match `m` of pattern `j` of type `i` comes after all matches of earlier types and earlier patterns |
| Extract.UnknownTypeEndsLinks | miles.py:70-71 | the first unknown type ends the generator with a KeyError after exactly the links of the types before it |
| Extract.TypeLinksFailure | miles.py:70-71 | the generator ends without a failure exactly when every type is in the table |
| Extract.ExtractUrlsOrder | miles.py:66-73 | for a page that fetches, `extract_urls` yields one resolved link per match, at its type, pattern and match position |
| Http.IsErrorStatus | miles.py:67 | a status from 400 to 599, which makes a response falsy and `raise_for_status` raise |
| Http.Succeeded | miles.py:89-93 | a request that produced a response without an error status |
| Common.AfterLastSlash | miles.py:95 | the position just past the last `/`, with no `/` after it |
| Download.BaseName | miles.py:95 | the base name holds no `/` |
| Download.BaseNameIsLastSegment | miles.py:95 | the path is its base name preceded by nothing or by text ending with `/` |
| Download.BaseNameOfSuffix | miles.py:95 | a `/`-free name after a `/` is the base name |
| Download.JoinPath | miles.py:96 | `os.path.join` of two parts: the result ends with the name; an absolute name is the result; otherwise the result starts with the directory |
| Download.LocalPath | miles.py:95-96 | where the file is saved: the destination joined with the URL's base name |
| Download.LocalPathKeepsName | miles.py:95-96 | the local path's base name is the URL's base name |
| Download.LocalPathInDestination | miles.py:96 | the local path starts with the destination, followed by a `/` where one is missing, and ends with the name |
| Download.DownloadOutcome | miles.py:89-100 | `None` exactly when the request fails; otherwise the local path, and a write failure exactly when the name is empty |
| Download.DownloadStore | miles.py:89-98 | a failed request writes nothing; a saved file replaces the contents at the local path and nothing else |
| Download.DownloadTwice | miles.py:97-98 | downloading the same file twice with the same reply leaves the disk as after one download |
| Crawl.DownloadAll | miles.py:115-118 | the pool produces one outcome per URL |
| Crawl.DownloadAllOutcomes | miles.py:115-118 | outcome `i` is that of downloading URL `i` to the destination |
| Crawl.UntouchedFilesKept | miles.py:115-118 | a path no download saved is as it was |
| Crawl.LastSaveWins | miles.py:115-118 | a file holds what the last download that saved it received |
| Crawl.KeysKept | miles.py:115-118 | downloads only add or replace files |
| Crawl.SavedPaths | miles.py:118 | the `if file` filter: the saved paths in outcome order, at most one per outcome |
| Crawl.TotalBytes | miles.py:121 | the size on disk of each listed path, summed once per listing |
| Crawl.SavedPathsStored | miles.py:118-121 | every kept path is on disk, so `os.stat` finds it |
| Crawl.SavedPathsMembership | miles.py:118 | a path is kept exactly when some download saved it |
| Crawl.SavedPathsMultiplicity | miles.py:118 | a path is kept as many times as downloads saved it |
| Crawl.SavedPathsAppend | miles.py:118 | the filter keeps dispatch order |
| Crawl.SavedPathsCount | miles.py:118-124 | without write failures the file count is the number of outcomes minus the failed requests |
| Crawl.DistinctFilesTotal | miles.py:118-121 | when the kept paths are distinct, the byte total is the number of bytes downloaded |
| Crawl.SharedNameCountedTwice | miles.py:118-121 | two URLs with one base name leave one file, listed twice: 4 bytes counted against 3 downloaded |
| Crawl.FirstWriteFailure | miles.py:118 | the path of a download whose write raised, the one the results loop re-raises |
| Crawl.FirstWriteFailureAt | miles.py:118 | the results loop re-raises the write failure of the earliest URL |
| Crawl.Crawl | miles.py:102-127 | the crawl ends with `ValueError` exactly when the worker count is below 1, then with nothing written; a report needs a page that answered without an error status, and lists only files on disk |
| Crawl.CrawlPageFailure | miles.py:115-118 | a failed page request ends the crawl with nothing written, with status 5 exactly when the page answered |
| Crawl.CrawlReport | miles.py:115-124 | a crawl without failures reports every saved file, each on disk, with the count and byte total above |
| Crawl.CrawlUnknownType | miles.py:115-118 | an unknown type ends the crawl with a KeyError after the downloads of the earlier types' links |
| Crawl.CrawlWriteFailure | miles.py:115-118 | a fetched link ending with `/` ends the crawl at the earliest such link, after every download ran |

## Left out

- HTTP is not performed. Each request's outcome is an input: a reply that raised, or a status code with a body. `requests`' rule that a status of 400-599 is a failure is modelled.
- Regular expressions are not interpreted. `re.findall` is a parameter, and `FILE_REGEX` holds the program's patterns as text.
- The usage text, `print`, `time.time`, and the float megabyte and bandwidth figures are out of the model. The report carries the files and the byte total instead.
- `os.makedirs` is modelled only for an empty destination (`-d ''`). That destination does not exist, and creating it raises, so `main` ends with status 1 before any request. Other folders are not modelled: the store holds no folders, and a destination that cannot be created is crawled into.
- Paths follow POSIX `os.path`: `/` is the only separator.
- Each URL gets one reply. `fetch` is a function, so the same URL, the page's included, always gets the same reply within a run.
- The only failed write modelled is opening a folder path, from a URL ending with `/`. Permission errors and full disks are out.
- Crawl.DownloadAll: the pool runs downloads in parallel. The model runs them in dispatch order. After a failed write, the pool may cancel downloads that have not started; the model lets every dispatched download run.
- Cli.ParseInt: `int()` also accepts surrounding whitespace, `_` between digits and non-ASCII digits. The model accepts only an optional sign followed by ASCII digits.
- Urls.Resolve: parts of `urljoin` fall outside the modelled subset:
  - the removal of `.` and `..` segments (section 5.2.4 of RFC 3986);
  - Python's dropping of empty segments when merging paths;
  - references made only of a query or a fragment, which keep the base's path, including `//`, `//?q` and `//#f`, which have an empty authority;
  - the lower-casing of schemes;
  - a reference with the base's own scheme but no authority;
  - bases whose scheme `urllib` does not treat as hierarchical;
  - the stripping of control characters;
  - the validation of bracketed hosts. An unbalanced `[` or `]` in an authority makes `urljoin` raise ValueError. That ends extraction, and `main`, with status 1. The model resolves such a reference like any other;
  - the rebuilding through `urlunparse` of every resolved reference, except one whose scheme differs from the base's, which Python returns as it is. `urlunparse` drops an empty query (`?`), an empty fragment (`#`) and empty parameters (`;`). For example, with the base `https://b/`, Python resolves `https://h/x?` to `https://h/x`, and `//h/x?` to `https://h/x`. The model keeps those delimiters.
- Urls.ResolveEndsWithReference: holds of the model. In Python, it fails wherever `urljoin` rewrites the reference in a way the Urls.Resolve list leaves out. These include `.` and `..` segments (`../img/a.jpg` against `https://h/a/b/` gives `https://h/a/img/a.jpg`), doubled slashes in relative references, a same scheme written in another case, and an empty `?`, `#` or `;`.
- Urls.ResolvePathReference: the property is stated for bases that have a scheme and an authority. The query and fragment it carries are the reference's as written; Python drops an empty `?`, `#` or `;` from them, as the Urls.Resolve line above says.
- Urls.Parse: scheme detection follows Python 3.11 and later: a scheme starts with an ASCII letter.
