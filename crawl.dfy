/** `crawl`: extract the page's links, download each of them through the
    pool, keep the paths of the files that were saved and report how many
    there are and how many bytes they hold on disk. */
module Crawl {
  import opened Common
  import opened Http
  import opened Extract
  import opened Download

  /** The replies the file requests get: the same URL gets the same reply. */
  type Fetcher = string -> Reply

  /** The pool's work: one outcome per URL, in URL order, and the files on
      disk once every download has run. */
  datatype Dispatch = Dispatch(outcomes: seq<Outcome>, store: Store)

  /** `executor.map(download_url, urls, repeat(destination))`, run in
      order. */
  function DownloadAll(urls: seq<string>, destination: string, fetch: Fetcher, store: Store): (d: Dispatch)
    ensures |d.outcomes| == |urls|
  {
    if urls == [] then Dispatch([], store)
    else
      var url := urls[0];
      var rest := DownloadAll(urls[1..], destination, fetch, DownloadStore(url, destination, fetch(url), store));
      Dispatch([DownloadOutcome(url, destination, fetch(url))] + rest.outcomes, rest.store)
  }

  /** `[file for file in ... if file]`: the saved paths, in outcome order. */
  function SavedPaths(outcomes: seq<Outcome>): (files: seq<string>)
    ensures |files| <= |outcomes|
  {
    if outcomes == [] then []
    else if outcomes[0].Saved? then [outcomes[0].path] + SavedPaths(outcomes[1..])
    else SavedPaths(outcomes[1..])
  }

  /** `sum(os.stat(file).st_size for file in files)`: the size on disk of
      each listed file, counted once per listing. */
  function TotalBytes(files: seq<string>, store: Store): nat
    requires forall f :: f in files ==> f in store
  {
    if files == [] then 0 else |store[files[0]]| + TotalBytes(files[1..], store)
  }

  /** Why a crawl ends without its report. */
  datatype Stop =
    | BadWorkerCount                    // `ProcessPoolExecutor(cpus)` raised ValueError
    | ExtractionFailed(failure: Failure)
    | WorkerCrashed(path: string)        // a download raised while writing

  /** The report `crawl` prints: the downloaded files (their number is the
      file count) and the bytes they hold. */
  datatype Report = Report(files: seq<string>, totalBytes: nat)

  datatype Crawled = Crawled(result: Result<Report, Stop>, store: Store)

  predicate HasWriteFailure(outcomes: seq<Outcome>) {
    exists i :: 0 <= i < |outcomes| && outcomes[i].WriteFailed?
  }

  /** The first download whose write raised: the one the results loop
      re-raises. */
  function FirstWriteFailure(outcomes: seq<Outcome>): (path: string)
    requires HasWriteFailure(outcomes)
    ensures WriteFailed(path) in outcomes
  {
    if outcomes[0].WriteFailed? then outcomes[0].path
    else
      assert HasWriteFailure(outcomes[1..]) by {
        var i :| 0 <= i < |outcomes| && outcomes[i].WriteFailed?;
        assert outcomes[1..][i - 1] == outcomes[i];
      }
      FirstWriteFailure(outcomes[1..])
  }

  /** `crawl(url, file_types, destination, cpus)`, given the reply to the
      page request, the replies to the file requests and the matcher. */
  function Crawl(url: string, fileTypes: seq<string>, destination: string, cpus: int,
                 page: Reply, fetch: Fetcher, findall: Matcher, store: Store): (c: Crawled)
    ensures c.result == Err(BadWorkerCount) <==> cpus <= 0
    ensures cpus <= 0 ==> c.store == store
    ensures c.result.Ok? ==> Succeeded(page)
    ensures c.result.Ok? ==> forall f :: f in c.result.value.files ==> f in c.store
  {
    if cpus <= 0 then Crawled(Err(BadWorkerCount), store)
    else
      var links := ExtractUrls(url, fileTypes, page, findall);
      var d := DownloadAll(links.urls, destination, fetch, store);
      if links.failure.Some? then Crawled(Err(ExtractionFailed(links.failure.value)), d.store)
      else if HasWriteFailure(d.outcomes) then Crawled(Err(WorkerCrashed(FirstWriteFailure(d.outcomes))), d.store)
      else
        var files := SavedPaths(d.outcomes);
        assert forall f :: f in files ==> f in d.store by {
          assert d.outcomes == DownloadAll(links.urls, destination, fetch, store).outcomes;
          SavedPathsStored(links.urls, destination, fetch, store);
        }
        Crawled(Ok(Report(files, TotalBytes(files, d.store))), d.store)
  }

  /** Every saved path names a file in the final store. */
  lemma {:induction false} SavedPathsStored(urls: seq<string>, destination: string, fetch: Fetcher, store: Store)
    ensures var d := DownloadAll(urls, destination, fetch, store);
      forall f :: f in SavedPaths(d.outcomes) ==> f in d.store
  {
    if urls != [] {
      var url := urls[0];
      var after := DownloadStore(url, destination, fetch(url), store);
      SavedPathsStored(urls[1..], destination, fetch, after);
      KeysKept(urls[1..], destination, fetch, after);
    }
  }

  /** Downloads only ever add or replace files. */
  lemma {:induction false} KeysKept(urls: seq<string>, destination: string, fetch: Fetcher, store: Store)
    ensures store.Keys <= DownloadAll(urls, destination, fetch, store).store.Keys
  {
    if urls != [] {
      var url := urls[0];
      KeysKept(urls[1..], destination, fetch, DownloadStore(url, destination, fetch(url), store));
    }
  }

  /** One outcome per URL, in URL order: outcome `i` is that of downloading
      URL `i`. */
  lemma {:induction false} DownloadAllOutcomes(urls: seq<string>, destination: string, fetch: Fetcher, store: Store)
    ensures var d := DownloadAll(urls, destination, fetch, store);
      forall i :: 0 <= i < |urls| ==> d.outcomes[i] == DownloadOutcome(urls[i], destination, fetch(urls[i]))
  {
    if urls != [] {
      var url := urls[0];
      var after := DownloadStore(url, destination, fetch(url), store);
      DownloadAllOutcomes(urls[1..], destination, fetch, after);
      var d := DownloadAll(urls, destination, fetch, store);
      var rest := DownloadAll(urls[1..], destination, fetch, after);
      assert d.outcomes == [DownloadOutcome(url, destination, fetch(url))] + rest.outcomes;
      forall i | 1 <= i < |urls|
        ensures d.outcomes[i] == DownloadOutcome(urls[i], destination, fetch(urls[i]))
      {
        assert d.outcomes[i] == rest.outcomes[i - 1] && urls[1..][i - 1] == urls[i];
      }
    }
  }

  /** A file that no download saved is as it was before the downloads. */
  lemma {:induction false} UntouchedFilesKept(urls: seq<string>, destination: string, fetch: Fetcher, store: Store, path: string)
    requires Saved(path) !in DownloadAll(urls, destination, fetch, store).outcomes
    ensures var d := DownloadAll(urls, destination, fetch, store);
      && (path in d.store <==> path in store)
      && (path in store ==> d.store[path] == store[path])
  {
    if urls != [] {
      var url := urls[0];
      var after := DownloadStore(url, destination, fetch(url), store);
      var rest := DownloadAll(urls[1..], destination, fetch, after);
      assert DownloadAll(urls, destination, fetch, store).outcomes == [DownloadOutcome(url, destination, fetch(url))] + rest.outcomes;
      assert Saved(path) != DownloadOutcome(url, destination, fetch(url));
      UntouchedFilesKept(urls[1..], destination, fetch, after, path);
    }
  }

  /** A file holds what the last download that saved it received. */
  lemma {:induction false} LastSaveWins(urls: seq<string>, destination: string, fetch: Fetcher, store: Store, i: nat)
    requires i < |urls|
    requires var o := DownloadAll(urls, destination, fetch, store).outcomes;
      o[i].Saved? && Saved(o[i].path) !in o[i + 1..]
    ensures var d := DownloadAll(urls, destination, fetch, store);
      fetch(urls[i]).Response? && d.outcomes[i].path in d.store && d.store[d.outcomes[i].path] == fetch(urls[i]).content
  {
    var url := urls[0];
    var after := DownloadStore(url, destination, fetch(url), store);
    var rest := DownloadAll(urls[1..], destination, fetch, after);
    var d := DownloadAll(urls, destination, fetch, store);
    assert d.outcomes == [DownloadOutcome(url, destination, fetch(url))] + rest.outcomes;
    if i == 0 {
      assert d.outcomes[1..] == rest.outcomes;
      UntouchedFilesKept(urls[1..], destination, fetch, after, d.outcomes[0].path);
    } else {
      assert d.outcomes[i] == rest.outcomes[i - 1] && urls[1..][i - 1] == urls[i];
      assert d.outcomes[i + 1..] == rest.outcomes[i..];
      LastSaveWins(urls[1..], destination, fetch, after, i - 1);
    }
  }

  // The filter that keeps the saved paths.

  /** A path is kept exactly when some download saved it. */
  lemma {:induction false} SavedPathsMembership(outcomes: seq<Outcome>, path: string)
    ensures path in SavedPaths(outcomes) <==> Saved(path) in outcomes
  {
    if outcomes != [] {
      SavedPathsMembership(outcomes[1..], path);
      assert outcomes == [outcomes[0]] + outcomes[1..];
    }
  }

  /** A path is kept as many times as downloads saved it: nothing is
      deduplicated. */
  lemma {:induction false} SavedPathsMultiplicity(outcomes: seq<Outcome>, path: string)
    ensures multiset(SavedPaths(outcomes))[path] == multiset(outcomes)[Saved(path)]
  {
    if outcomes != [] {
      SavedPathsMultiplicity(outcomes[1..], path);
      assert outcomes == [outcomes[0]] + outcomes[1..];
    }
  }

  /** The filter keeps dispatch order: the kept paths of consecutive outcome
      lists follow each other. */
  lemma {:induction false} SavedPathsAppend(a: seq<Outcome>, b: seq<Outcome>)
    ensures SavedPaths(a + b) == SavedPaths(a) + SavedPaths(b)
  {
    if a == [] {
      assert a + b == b;
    } else {
      assert (a + b)[0] == a[0] && (a + b)[1..] == a[1..] + b;
      SavedPathsAppend(a[1..], b);
    }
  }

  /** Without a write failure, every outcome is either kept or a failed
      request: the file count is the number of URLs minus the failures. */
  lemma {:induction false} SavedPathsCount(outcomes: seq<Outcome>)
    requires !HasWriteFailure(outcomes)
    ensures |SavedPaths(outcomes)| + multiset(outcomes)[Failed] == |outcomes|
  {
    if outcomes != [] {
      assert !outcomes[0].WriteFailed?;
      assert !HasWriteFailure(outcomes[1..]) by {
        assert forall i :: 0 <= i < |outcomes[1..]| ==> outcomes[1..][i] == outcomes[i + 1];
      }
      SavedPathsCount(outcomes[1..]);
      assert outcomes == [outcomes[0]] + outcomes[1..];
    }
  }

  // Bytes on disk against bytes downloaded.

  /** The bytes received by the downloads that saved a file. */
  function DownloadedBytes(urls: seq<string>, destination: string, fetch: Fetcher): nat {
    if urls == [] then 0
    else
      var first := if DownloadOutcome(urls[0], destination, fetch(urls[0])).Saved? then |fetch(urls[0]).content| else 0;
      first + DownloadedBytes(urls[1..], destination, fetch)
  }

  predicate Distinct(files: seq<string>) {
    forall i, j :: 0 <= i < j < |files| ==> files[i] != files[j]
  }

  /** When every saved file has its own path, the bytes on disk are the
      bytes downloaded. */
  lemma {:induction false} DistinctFilesTotal(urls: seq<string>, destination: string, fetch: Fetcher, store: Store)
    requires Distinct(SavedPaths(DownloadAll(urls, destination, fetch, store).outcomes))
    ensures var d := DownloadAll(urls, destination, fetch, store);
      && (forall f :: f in SavedPaths(d.outcomes) ==> f in d.store)
      && TotalBytes(SavedPaths(d.outcomes), d.store) == DownloadedBytes(urls, destination, fetch)
  {
    var d := DownloadAll(urls, destination, fetch, store);
    SavedPathsStored(urls, destination, fetch, store);
    assert d.outcomes == DownloadAll(urls, destination, fetch, store).outcomes;
    if urls != [] {
      var url := urls[0];
      var after := DownloadStore(url, destination, fetch(url), store);
      var rest := DownloadAll(urls[1..], destination, fetch, after);
      var first := DownloadOutcome(url, destination, fetch(url));
      assert d.outcomes == [first] + rest.outcomes;
      assert d.outcomes[1..] == rest.outcomes;
      var files := SavedPaths(d.outcomes);
      if first.Saved? {
        assert files == [first.path] + SavedPaths(rest.outcomes);
        assert Distinct(SavedPaths(rest.outcomes)) by {
          assert forall i :: 0 <= i < |SavedPaths(rest.outcomes)| ==> SavedPaths(rest.outcomes)[i] == files[i + 1];
        }
        assert first.path !in SavedPaths(rest.outcomes) by {
          assert forall i :: 0 <= i < |SavedPaths(rest.outcomes)| ==>
            SavedPaths(rest.outcomes)[i] == files[i + 1] && files[0] != files[i + 1];
        }
        SavedPathsMembership(rest.outcomes, first.path);
        UntouchedFilesKept(urls[1..], destination, fetch, after, first.path);
      } else {
        assert files == SavedPaths(rest.outcomes);
      }
      DistinctFilesTotal(urls[1..], destination, fetch, after);
    }
  }

  /** Two URLs with the same base name write the same file: the second
      download replaces the first, and the file is counted twice, so the
      total is twice the second file's size rather than the sum of both. */
  lemma SharedNameCountedTwice()
    ensures var urls := ["a/p", "b/p"];
      var fetch: Fetcher := u => if u == "a/p" then Response(200, "", [1]) else Response(200, "", [2, 3]);
      var d := DownloadAll(urls, "d", fetch, map[]);
      && SavedPaths(d.outcomes) == ["d/p", "d/p"]
      && d.store == map["d/p" := [2, 3]]
      && TotalBytes(SavedPaths(d.outcomes), d.store) == 4
      && DownloadedBytes(urls, "d", fetch) == 3
  {
    var fetch: Fetcher := u => if u == "a/p" then Response(200, "", [1]) else Response(200, "", [2, 3]);
    assert AfterLastSlash("a/p") == 2 by {
      assert "a/p"[..2] == "a/";
    }
    assert AfterLastSlash("b/p") == 2 by {
      assert "b/p"[..2] == "b/";
    }
    assert ["a/p", "b/p"][1..] == ["b/p"];
    assert BaseName("a/p") == "p" && BaseName("b/p") == "p";
    assert JoinPath("d", "p") == "d/p";
    assert LocalPath("a/p", "d") == "d/p" && LocalPath("b/p", "d") == "d/p";
    var first := DownloadAll(["b/p"], "d", fetch, map["d/p" := [1]]);
    assert first.outcomes == [Saved("d/p")] && first.store == map["d/p" := [2, 3]];
    var d := DownloadAll(["a/p", "b/p"], "d", fetch, map[]);
    assert d.outcomes == [Saved("d/p"), Saved("d/p")] && d.store == map["d/p" := [2, 3]];
    assert SavedPaths([Saved("d/p")]) == ["d/p"];
    assert TotalBytes(["d/p"], d.store) == 2;
  }

  /** The results loop re-raises the write failure of the earliest URL. */
  lemma {:induction false} FirstWriteFailureAt(outcomes: seq<Outcome>, i: nat)
    requires i < |outcomes| && outcomes[i].WriteFailed?
    requires forall j :: 0 <= j < i ==> !outcomes[j].WriteFailed?
    ensures HasWriteFailure(outcomes) && FirstWriteFailure(outcomes) == outcomes[i].path
  {
    if i > 0 {
      assert outcomes[1..][i - 1] == outcomes[i];
      assert forall j :: 0 <= j < i - 1 ==> outcomes[1..][j] == outcomes[j + 1];
      FirstWriteFailureAt(outcomes[1..], i - 1);
    }
  }

  // The crawl as a whole.

  /** A failed page request aborts the crawl before anything is
      downloaded; an error status is exit status 5. */
  lemma CrawlPageFailure(url: string, fileTypes: seq<string>, destination: string, cpus: int,
                         page: Reply, fetch: Fetcher, findall: Matcher, store: Store)
    requires cpus > 0 && !Succeeded(page)
    ensures var c := Crawl(url, fileTypes, destination, cpus, page, fetch, findall, store);
      && c.store == store
      && c.result.Err? && c.result.error.ExtractionFailed?
      && (FailureStatus(c.result.error.failure) == 5 <==> page.Response?)
  {
  }

  /** A crawl whose page fetches, whose file types are all known and none of
      whose downloads fails to write reports one file per saved download:
      the file count is the number of links minus the failed requests, every
      file is on disk, and when no two files share a path the byte total is
      the bytes downloaded. */
  lemma CrawlReport(url: string, fileTypes: seq<string>, destination: string, cpus: int,
                    page: Reply, fetch: Fetcher, findall: Matcher, store: Store)
    requires cpus > 0 && Succeeded(page) && AllKnown(FileRegex, fileTypes)
    requires var links := TypeLinks(FileRegex, ResolverFor(url), fileTypes, page.text, findall).urls;
      forall k :: 0 <= k < |links| && Succeeded(fetch(links[k])) ==> BaseName(links[k]) != []
    ensures var links := TypeLinks(FileRegex, ResolverFor(url), fileTypes, page.text, findall).urls;
      var d := DownloadAll(links, destination, fetch, store);
      var c := Crawl(url, fileTypes, destination, cpus, page, fetch, findall, store);
      && c.store == d.store
      && c.result.Ok?
      && |c.result.value.files| + multiset(d.outcomes)[Failed] == |links|
      && (forall f :: f in c.result.value.files ==> f in c.store)
      && (Distinct(c.result.value.files) ==> c.result.value.totalBytes == DownloadedBytes(links, destination, fetch))
  {
    var links := TypeLinks(FileRegex, ResolverFor(url), fileTypes, page.text, findall).urls;
    TypeLinksCount(FileRegex, ResolverFor(url), fileTypes, page.text, findall);
    var d := DownloadAll(links, destination, fetch, store);
    DownloadAllOutcomes(links, destination, fetch, store);
    assert !HasWriteFailure(d.outcomes);
    SavedPathsCount(d.outcomes);
    SavedPathsStored(links, destination, fetch, store);
    if Distinct(SavedPaths(d.outcomes)) {
      DistinctFilesTotal(links, destination, fetch, store);
    }
  }

  /** The first unknown file type aborts the crawl with a KeyError, but only
      after the downloads of the links of the types before it have run. */
  lemma CrawlUnknownType(url: string, fileTypes: seq<string>, destination: string, cpus: int,
                         page: Reply, fetch: Fetcher, findall: Matcher, store: Store, i: nat)
    requires cpus > 0 && Succeeded(page)
    requires i < |fileTypes| && fileTypes[i] !in FileRegex && AllKnown(FileRegex, fileTypes[..i])
    ensures var c := Crawl(url, fileTypes, destination, cpus, page, fetch, findall, store);
      var before := TypeLinks(FileRegex, ResolverFor(url), fileTypes[..i], page.text, findall).urls;
      && c.result == Err(ExtractionFailed(UnknownFileType(fileTypes[i])))
      && c.store == DownloadAll(before, destination, fetch, store).store
  {
    UnknownTypeEndsLinks(FileRegex, ResolverFor(url), fileTypes, page.text, findall, i);
  }

  /** A link that ends with '/' and fetches makes its worker raise when it
      opens the folder path: the crawl aborts at the earliest such link,
      after every download has run. */
  lemma CrawlWriteFailure(url: string, fileTypes: seq<string>, destination: string, cpus: int,
                          page: Reply, fetch: Fetcher, findall: Matcher, store: Store, k: nat)
    requires cpus > 0 && Succeeded(page) && AllKnown(FileRegex, fileTypes)
    requires var links := TypeLinks(FileRegex, ResolverFor(url), fileTypes, page.text, findall).urls;
      && k < |links| && Succeeded(fetch(links[k])) && BaseName(links[k]) == []
      && forall j :: 0 <= j < k && Succeeded(fetch(links[j])) ==> BaseName(links[j]) != []
    ensures var links := TypeLinks(FileRegex, ResolverFor(url), fileTypes, page.text, findall).urls;
      var c := Crawl(url, fileTypes, destination, cpus, page, fetch, findall, store);
      && c.result == Err(WorkerCrashed(LocalPath(links[k], destination)))
      && c.store == DownloadAll(links, destination, fetch, store).store
  {
    var links := TypeLinks(FileRegex, ResolverFor(url), fileTypes, page.text, findall).urls;
    TypeLinksCount(FileRegex, ResolverFor(url), fileTypes, page.text, findall);
    var d := DownloadAll(links, destination, fetch, store);
    DownloadAllOutcomes(links, destination, fetch, store);
    FirstWriteFailureAt(d.outcomes, k);
  }
}
