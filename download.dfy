/** `download_url`: fetch one file and save it under its URL's last path
    segment in the destination folder. */
module Download {
  import opened Common
  import opened Http

  /** The files on disk: path to contents. Only what the crawler writes and
      later measures is modelled. */
  type Store = map<string, seq<bv8>>

  /** `os.path.basename(url)`: the text after the last '/'. */
  function BaseName(path: string): (name: string)
    ensures '/' !in name
  {
    path[AfterLastSlash(path)..]
  }

  /** A path is its base name preceded by nothing or by text ending with
      '/'. */
  lemma BaseNameIsLastSegment(path: string)
    ensures var name := BaseName(path);
      var prefix := path[..|path| - |name|];
      && |name| <= |path| && path == prefix + name
      && (prefix == [] || prefix[|prefix| - 1] == '/')
  {
    var n := AfterLastSlash(path);
    assert path[..n] + path[n..] == path;
  }

  /** The base name of a '/'-free name placed after nothing or after a '/'
      is that name. */
  lemma BaseNameOfSuffix(prefix: string, name: string)
    requires '/' !in name
    requires prefix == [] || prefix[|prefix| - 1] == '/'
    ensures BaseName(prefix + name) == name
  {
    var path := prefix + name;
    assert path[|prefix|..] == name;
    assert prefix != [] ==> path[|prefix| - 1] == prefix[|prefix| - 1];
    AfterLastSlashIsUnique(path, |prefix|);
  }

  /** `os.path.join(directory, name)` for two parts: an absolute second part
      replaces the first, otherwise the parts are joined with one '/' unless
      the first is empty or already ends with one. */
  function JoinPath(directory: string, name: string): (path: string)
    ensures |name| <= |path| && path[|path| - |name|..] == name
    ensures name != [] && name[0] == '/' ==> path == name
    ensures name == [] || name[0] != '/' ==> |directory| <= |path| && path[..|directory|] == directory
  {
    if name != [] && name[0] == '/' then name
    else if directory == [] || directory[|directory| - 1] == '/' then directory + name
    else directory + "/" + name
  }

  /** Where `download_url(url, destination)` saves the file. */
  function LocalPath(url: string, destination: string): string {
    JoinPath(destination, BaseName(url))
  }

  /** What `download_url` hands back to the pool. */
  datatype Outcome =
    | Saved(path: string)         // the file was written; its path is returned
    | Failed                      // the request failed: `None` is returned
    | WriteFailed(path: string)   // `open` raised: the URL ends with '/', so the path names a folder

  /** The outcome of `download_url(url, destination)` given the reply to the
      request; it does not depend on what is already on disk. */
  function DownloadOutcome(url: string, destination: string, reply: Reply): (outcome: Outcome)
    ensures outcome.Failed? <==> !Succeeded(reply)
    ensures outcome.Saved? <==> Succeeded(reply) && BaseName(url) != []
    ensures !outcome.Failed? ==> outcome.path == LocalPath(url, destination)
  {
    if !Succeeded(reply) then Failed
    else if BaseName(url) == [] then WriteFailed(LocalPath(url, destination))
    else Saved(LocalPath(url, destination))
  }

  /** The files on disk after `download_url(url, destination)`: a saved
      file replaces whatever had its path, and nothing else changes. */
  function DownloadStore(url: string, destination: string, reply: Reply, store: Store): (after: Store)
    ensures !Succeeded(reply) || BaseName(url) == [] ==> after == store
    ensures Succeeded(reply) && BaseName(url) != [] ==>
      after == store[LocalPath(url, destination) := reply.content]
  {
    match DownloadOutcome(url, destination, reply)
    case Saved(path) => store[path := reply.content]
    case _ => store
  }

  /** The saved file is named after the URL: its base name is the URL's,
      and that name holds no '/'. */
  lemma LocalPathKeepsName(url: string, destination: string)
    ensures BaseName(LocalPath(url, destination)) == BaseName(url)
  {
    var name := BaseName(url);
    assert name != [] ==> name[0] in name;
    var prefix := if destination == [] || destination[|destination| - 1] == '/' then destination else destination + "/";
    assert LocalPath(url, destination) == prefix + name by {
      assert JoinPath(destination, name) == prefix + name;
    }
    BaseNameOfSuffix(prefix, name);
  }

  /** The saved file lies in the destination folder: its path is the
      destination, a separator when one is missing, and the name. */
  lemma LocalPathInDestination(url: string, destination: string)
    ensures var path, name := LocalPath(url, destination), BaseName(url);
      && |destination| <= |path| && path[..|destination|] == destination
      && path[|path| - |name|..] == name
      && (destination != [] && destination[|destination| - 1] != '/' ==>
            path == destination + "/" + name)
  {
    var name := BaseName(url);
    assert name != [] ==> name[0] != '/' by {
      assert name != [] ==> name[0] in name;
    }
  }

  /** Downloading the same file twice with the same reply leaves the disk as
      downloading it once. */
  lemma DownloadTwice(url: string, destination: string, reply: Reply, store: Store)
    ensures var once := DownloadStore(url, destination, reply, store);
      DownloadStore(url, destination, reply, once) == once
  {
  }
}
