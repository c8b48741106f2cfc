/** The command line of `miles.py`: the option loop of `main`, the checks
    after it, and the run it leads to. */
module Cli {
  import opened Common
  import opened Http
  import opened Extract
  import opened Download
  import opened Crawl

  const DefaultDestination: string := "."
  const DefaultCpus: int := 1
  /** The file types crawled when no `-f` is given. */
  const AllFileTypes: seq<string> := ["jpg", "mp3", "pdf", "png"]

  /** The variables the option loop assigns. */
  datatype Options = Options(destination: string, cpus: int, fileTypes: seq<string>, url: string)

  const Initial: Options := Options(DefaultDestination, DefaultCpus, [], "")

  /** How `main` ends its argument handling. */
  datatype Parsed =
    | Run(options: Options)        // `crawl(url, file_types, destination, cpus)` is called
    | Exit(status: int)            // `usage(status)` exits
    | MissingValue(flag: string)   // `arguments.pop(0)` raised IndexError after the flag
    | NotANumber(text: string)     // `int(...)` raised ValueError on the value of `-n`

  // Splitting on commas.

  /** `s.split(',')`: the pieces between commas, empty ones included. */
  function SplitComma(s: string): (pieces: seq<string>)
    ensures |pieces| >= 1
    ensures forall i :: 0 <= i < |pieces| ==> ',' !in pieces[i]
    decreases |s|
  {
    var k := FindAny(s, {','});
    if k == |s| then [s] else [s[..k]] + SplitComma(s[k + 1..])
  }

  /** `','.join(pieces)`. */
  function JoinComma(pieces: seq<string>): string
    decreases |pieces|
  {
    if pieces == [] then "" else if |pieces| == 1 then pieces[0] else pieces[0] + "," + JoinComma(pieces[1..])
  }

  /** Joining the pieces of a split gives back the text. */
  lemma {:induction false} JoinSplit(s: string)
    ensures JoinComma(SplitComma(s)) == s
    decreases |s|
  {
    var k := FindAny(s, {','});
    if k < |s| {
      var rest := SplitComma(s[k + 1..]);
      assert SplitComma(s) == [s[..k]] + rest;
      assert JoinComma(SplitComma(s)) == s[..k] + "," + JoinComma(rest);
      JoinSplit(s[k + 1..]);
      assert s == s[..k] + "," + s[k + 1..];
    }
  }

  /** Splitting joined comma-free pieces gives back the pieces: a text
      with `n` commas splits into `n + 1` pieces. */
  lemma {:induction false} SplitJoin(pieces: seq<string>)
    requires |pieces| >= 1 && forall i :: 0 <= i < |pieces| ==> ',' !in pieces[i]
    ensures SplitComma(JoinComma(pieces)) == pieces
    decreases |pieces|
  {
    if |pieces| > 1 {
      var s := JoinComma(pieces);
      var first, rest := pieces[0], JoinComma(pieces[1..]);
      assert s == first + ("," + rest);
      assert NoneOf(first, {','});
      FindAnyAtSeam(first, "," + rest, {','});
      assert s[..|first|] == first && s[|first| + 1..] == rest;
      SplitJoin(pieces[1..]);
    } else {
      assert NoneOf(pieces[0], {','});
      FindAnyAtSeam(pieces[0], "", {','});
      assert pieces[0] + "" == pieces[0];
    }
  }

  /** A text without a comma splits into itself alone: the two branches of
      the `-f` handler add the same types. */
  lemma SplitWithoutComma(s: string)
    requires ',' !in s
    ensures SplitComma(s) == [s]
  {
    SplitJoin([s]);
  }

  /** The types one `-f` value adds: split on commas when it holds one,
      appended whole otherwise. */
  function FlagTypes(value: string): (types: seq<string>)
    ensures types == SplitComma(value)
  {
    if ',' in value then SplitComma(value) else SplitWithoutComma(value); [value]
  }

  // Reading the value of `-n`.

  predicate IsDigit(c: char) {
    '0' <= c <= '9'
  }

  predicate AllDigits(s: string) {
    forall i :: 0 <= i < |s| ==> IsDigit(s[i])
  }

  /** The number a string of decimal digits denotes. */
  function DigitsValue(s: string): nat
    requires AllDigits(s)
  {
    if s == [] then 0 else 10 * DigitsValue(s[..|s| - 1]) + (s[|s| - 1] - '0') as nat
  }

  /** `int(text)` for an optional sign followed by decimal digits. */
  function ParseInt(text: string): (n: Option<int>)
    ensures n.Some? <==> (exists k :: 0 <= k <= 1 && k < |text| && AllDigits(text[k..]) && (k == 1 <==> text[0] in {'-', '+'}))
  {
    var k := if text != [] && text[0] in {'-', '+'} then 1 else 0;
    if k < |text| && AllDigits(text[k..]) then
      var magnitude: int := DigitsValue(text[k..]);
      Some(if k == 1 && text[0] == '-' then -magnitude else magnitude)
    else None
  }

  /** `str(n)` for a natural number. */
  function DigitsText(n: nat): (s: string)
    ensures s != [] && AllDigits(s)
  {
    var last := [('0' as int + n % 10) as char];
    if n < 10 then last else DigitsText(n / 10) + last
  }

  /** `str(n)`. */
  function IntText(n: int): string {
    if n < 0 then "-" + DigitsText(-n) else DigitsText(n)
  }

  lemma {:induction false} DigitsRoundTrip(n: nat)
    ensures DigitsValue(DigitsText(n)) == n
  {
    var s := DigitsText(n);
    if n >= 10 {
      DigitsRoundTrip(n / 10);
      assert s[..|s| - 1] == DigitsText(n / 10);
    }
  }

  /** `int(str(n)) == n`. */
  lemma ParseIntText(n: int)
    ensures ParseInt(IntText(n)) == Some(n)
  {
    var s := IntText(n);
    if n < 0 {
      DigitsRoundTrip(-n);
      assert s[1..] == DigitsText(-n);
    } else {
      DigitsRoundTrip(n);
    }
  }

  // The option loop.

  /** Where the loop stands: still scanning with these options, or stopped
      with this result. */
  datatype Scanned = Scanning(options: Options) | Halted(parsed: Parsed)

  predicate IsValueFlag(argument: string) {
    argument == "-d" || argument == "-n" || argument == "-f"
  }

  /** The loop from the argument list `arguments` and the options `o`. */
  function ScanFrom(arguments: seq<string>, o: Options): (scanned: Scanned)
    ensures scanned.Halted? ==> !scanned.parsed.Run?
    ensures scanned.Halted? && scanned.parsed.Exit? ==> scanned.parsed.status == 0 || scanned.parsed.status == 1
    decreases |arguments|
  {
    if arguments == [] then Scanning(o)
    else
      var argument, rest := arguments[0], arguments[1..];
      if IsValueFlag(argument) then
        if rest == [] then Halted(MissingValue(argument))
        else if argument == "-d" then ScanFrom(rest[1..], o.(destination := rest[0]))
        else if argument == "-n" then
          match ParseInt(rest[0])
          case None => Halted(NotANumber(rest[0]))
          case Some(n) => ScanFrom(rest[1..], o.(cpus := n))
        else ScanFrom(rest[1..], o.(fileTypes := o.fileTypes + FlagTypes(rest[0])))
      else if argument == "-h" then Halted(Exit(0))
      else if argument != [] && argument[0] == '-' then Halted(Exit(1))
      else ScanFrom(rest, o.(url := argument))
  }

  /** The checks after the loop: no URL is a usage error, no file type means
      every file type. */
  function Finish(scanned: Scanned): (parsed: Parsed)
    ensures scanned.Halted? ==> parsed == scanned.parsed
    ensures scanned.Scanning? && scanned.options.url == [] ==> parsed == Exit(1)
    ensures scanned.Scanning? && parsed.Run? ==> parsed.options.url != [] && parsed.options.fileTypes != []
  {
    match scanned
    case Halted(parsed) => parsed
    case Scanning(o) =>
      if o.url == [] then Exit(1)
      else if o.fileTypes == [] then Run(o.(fileTypes := AllFileTypes))
      else Run(o)
  }

  /** What `main(arguments)` decides before crawling. */
  function ParseOptions(arguments: seq<string>): (parsed: Parsed)
    ensures parsed.Run? ==> parsed.options.url != [] && parsed.options.fileTypes != []
    ensures parsed.Exit? ==> parsed.status == 0 || parsed.status == 1
  {
    Finish(ScanFrom(arguments, Initial))
  }

  /** The option loop of `main` as it runs: pop an argument, act on it, and
      pop the value of a flag that takes one. */
  method ParseArguments(arguments: seq<string>) returns (parsed: Parsed)
    ensures parsed == ParseOptions(arguments)
  {
    var remaining := arguments;
    var destination, cpus, fileTypes, url := DefaultDestination, DefaultCpus, [], "";
    while |remaining| > 0
      invariant ParseOptions(arguments) == Finish(ScanFrom(remaining, Options(destination, cpus, fileTypes, url)))
      decreases |remaining|
    {
      var argument := remaining[0];
      remaining := remaining[1..];
      if argument == "-d" || argument == "-n" || argument == "-f" {
        if remaining == [] {
          return MissingValue(argument);
        }
        var value := remaining[0];
        remaining := remaining[1..];
        if argument == "-d" {
          destination := value;
        } else if argument == "-n" {
          var n := ParseInt(value);
          if n.None? {
            return NotANumber(value);
          }
          cpus := n.value;
        } else if ',' in value {
          fileTypes := fileTypes + SplitComma(value);
        } else {
          fileTypes := fileTypes + [value];
        }
      } else if argument == "-h" {
        return Exit(0);
      } else if argument != [] && argument[0] == '-' {
        return Exit(1);
      } else {
        url := argument;
      }
    }
    if url == [] {
      return Exit(1);
    }
    if fileTypes == [] {
      fileTypes := AllFileTypes;
    }
    return Run(Options(destination, cpus, fileTypes, url));
  }

  // What the loop does, argument by argument.

  /** Scanning continues from where a fully scanned prefix left off. */
  lemma {:induction false} ScanAppend(prefix: seq<string>, rest: seq<string>, o: Options)
    requires ScanFrom(prefix, o).Scanning?
    ensures ScanFrom(prefix + rest, o) == ScanFrom(rest, ScanFrom(prefix, o).options)
    decreases |prefix|
  {
    if prefix == [] {
      assert prefix + rest == rest;
    } else {
      var all := prefix + rest;
      assert all[0] == prefix[0] && all[1..] == prefix[1..] + rest;
      if IsValueFlag(prefix[0]) {
        assert all[1..][0] == prefix[1..][0] && all[1..][1..] == prefix[1..][1..] + rest;
        var next :=
          if prefix[0] == "-d" then o.(destination := prefix[1])
          else if prefix[0] == "-n" then o.(cpus := ParseInt(prefix[1]).value)
          else o.(fileTypes := o.fileTypes + FlagTypes(prefix[1]));
        ScanAppend(prefix[2..], rest, next);
        assert prefix[1..][1..] == prefix[2..];
      } else {
        ScanAppend(prefix[1..], rest, o.(url := prefix[0]));
      }
    }
  }

  /** `-h` exits with status 0, whatever follows it. */
  lemma HelpExits(prefix: seq<string>, rest: seq<string>)
    requires ScanFrom(prefix, Initial).Scanning?
    ensures ParseOptions(prefix + ["-h"] + rest) == Exit(0)
  {
    ScanAppend(prefix, ["-h"] + rest, Initial);
    assert prefix + ["-h"] + rest == prefix + (["-h"] + rest);
  }

  /** Any other argument that starts with '-' exits with status 1. */
  lemma UnknownFlagExits(prefix: seq<string>, flag: string, rest: seq<string>)
    requires ScanFrom(prefix, Initial).Scanning?
    requires flag != [] && flag[0] == '-' && !IsValueFlag(flag) && flag != "-h"
    ensures ParseOptions(prefix + [flag] + rest) == Exit(1)
  {
    ScanAppend(prefix, [flag] + rest, Initial);
    assert prefix + [flag] + rest == prefix + ([flag] + rest);
  }

  /** `-d`, `-n` or `-f` as the last argument makes `pop(0)` raise. */
  lemma MissingValueRaises(prefix: seq<string>, flag: string)
    requires ScanFrom(prefix, Initial).Scanning? && IsValueFlag(flag)
    ensures ParseOptions(prefix + [flag]) == MissingValue(flag)
  {
    ScanAppend(prefix, [flag], Initial);
  }

  /** `-f` adds the comma-separated pieces of its value after the types
      already given. */
  lemma FileTypesAppend(value: string, rest: seq<string>, o: Options)
    ensures ScanFrom(["-f", value] + rest, o) == ScanFrom(rest, o.(fileTypes := o.fileTypes + SplitComma(value)))
  {
    var all := ["-f", value] + rest;
    assert all[0] == "-f" && all[1..][0] == value && all[1..][1..] == rest;
  }

  /** Repeated `-f` flags accumulate in order, and the URL is taken as
      given. */
  lemma FileTypesAccumulate(first: string, second: string, url: string)
    requires url != [] && url[0] != '-'
    ensures ParseOptions(["-f", first, "-f", second, url])
      == Run(Options(DefaultDestination, DefaultCpus, SplitComma(first) + SplitComma(second), url))
  {
    var o1 := Initial.(fileTypes := SplitComma(first));
    var o2 := o1.(fileTypes := SplitComma(first) + SplitComma(second));
    assert ScanFrom([url], o2) == Scanning(o2.(url := url)) by {
      assert [url][1..] == [];
    }
    FileTypesAppend(second, [url], o1);
    assert ["-f", second, url] == ["-f", second] + [url];
    FileTypesAppend(first, ["-f", second, url], Initial);
    assert ["-f", first, "-f", second, url] == ["-f", first] + ["-f", second, url];
    assert Initial.fileTypes + SplitComma(first) == SplitComma(first);
  }

  /** An argument list made only of flags with their values. */
  predicate OptionsOnly(arguments: seq<string>)
    decreases |arguments|
  {
    arguments == [] || (|arguments| >= 2 && IsValueFlag(arguments[0]) && OptionsOnly(arguments[2..]))
  }

  /** Flags with their values leave the URL alone; only an `-n` value that
      is not a number stops them. */
  lemma {:induction false} OptionsKeepUrl(arguments: seq<string>, o: Options)
    requires OptionsOnly(arguments)
    ensures var scanned := ScanFrom(arguments, o);
      || (scanned.Scanning? && scanned.options.url == o.url)
      || (scanned.Halted? && scanned.parsed.NotANumber?)
    decreases |arguments|
  {
    if arguments != [] {
      assert arguments[1..][0] == arguments[1] && arguments[1..][1..] == arguments[2..];
      if arguments[0] == "-d" {
        OptionsKeepUrl(arguments[2..], o.(destination := arguments[1]));
      } else if arguments[0] == "-n" {
        if ParseInt(arguments[1]).Some? {
          OptionsKeepUrl(arguments[2..], o.(cpus := ParseInt(arguments[1]).value));
        }
      } else {
        OptionsKeepUrl(arguments[2..], o.(fileTypes := o.fileTypes + FlagTypes(arguments[1])));
      }
    }
  }

  /** The URL is the last argument that is neither a flag nor a flag's
      value: one given before it is overwritten. */
  lemma UrlIsLastPositional(prefix: seq<string>, url: string, rest: seq<string>)
    requires ScanFrom(prefix, Initial).Scanning?
    requires url != [] && url[0] != '-' && OptionsOnly(rest)
    ensures var parsed := ParseOptions(prefix + [url] + rest);
      (parsed.Run? && parsed.options.url == url) || parsed.NotANumber?
  {
    var o := ScanFrom(prefix, Initial).options;
    ScanAppend(prefix, [url] + rest, Initial);
    assert prefix + [url] + rest == prefix + ([url] + rest);
    assert ([url] + rest)[0] == url && ([url] + rest)[1..] == rest;
    OptionsKeepUrl(rest, o.(url := url));
  }

  /** Without a URL, `main` exits with status 1 (unless an `-n` value
      fails to parse first). */
  lemma MissingUrlExits(arguments: seq<string>)
    requires OptionsOnly(arguments)
    ensures ParseOptions(arguments) == Exit(1) || ParseOptions(arguments).NotANumber?
  {
    OptionsKeepUrl(arguments, Initial);
  }

  /** The types the `-f` flags among `arguments` add, in order. A `-f`
      counts only where the loop reads a flag, not where it reads the value
      of the flag before it. */
  function TypeFlagTypes(arguments: seq<string>): seq<string>
    decreases |arguments|
  {
    if arguments == [] then []
    else if IsValueFlag(arguments[0]) && |arguments| >= 2 then
      (if arguments[0] == "-f" then SplitComma(arguments[1]) else []) + TypeFlagTypes(arguments[2..])
    else TypeFlagTypes(arguments[1..])
  }

  /** The scanned file types are the ones scanning started with, followed by
      the types of every `-f` flag in argument order. */
  lemma {:induction false} ScannedTypes(arguments: seq<string>, o: Options)
    ensures ScanFrom(arguments, o).Scanning? ==>
      ScanFrom(arguments, o).options.fileTypes == o.fileTypes + TypeFlagTypes(arguments)
    decreases |arguments|
  {
    if arguments == [] {
      assert o.fileTypes + [] == o.fileTypes;
    } else if IsValueFlag(arguments[0]) && |arguments| >= 2 {
      assert arguments[1..][0] == arguments[1] && arguments[1..][1..] == arguments[2..];
      var later := TypeFlagTypes(arguments[2..]);
      if arguments[0] == "-d" {
        ScannedTypes(arguments[2..], o.(destination := arguments[1]));
        assert [] + later == later;
      } else if arguments[0] == "-n" {
        if ParseInt(arguments[1]).Some? {
          ScannedTypes(arguments[2..], o.(cpus := ParseInt(arguments[1]).value));
          assert [] + later == later;
        }
      } else {
        var added := SplitComma(arguments[1]);
        ScannedTypes(arguments[2..], o.(fileTypes := o.fileTypes + FlagTypes(arguments[1])));
        assert o.fileTypes + added + later == o.fileTypes + (added + later);
      }
    } else if !IsValueFlag(arguments[0]) {
      ScannedTypes(arguments[1..], o.(url := arguments[0]));
    }
  }

  /** Without `-f` among the arguments, no flag adds a type. */
  lemma {:induction false} NoTypeFlagAddsNothing(arguments: seq<string>)
    requires "-f" !in arguments
    ensures TypeFlagTypes(arguments) == []
    decreases |arguments|
  {
    if arguments != [] {
      assert "-f" !in arguments[1..] by {
        assert forall x :: x in arguments[1..] ==> x in arguments;
      }
      if IsValueFlag(arguments[0]) && |arguments| >= 2 {
        assert "-f" !in arguments[2..] by {
          assert forall x :: x in arguments[2..] ==> x in arguments;
        }
        NoTypeFlagAddsNothing(arguments[2..]);
      } else {
        NoTypeFlagAddsNothing(arguments[1..]);
      }
    }
  }

  /** The file types of a run are those of its `-f` flags, or all four, in
      table order, when no `-f` flag gave any. */
  lemma RunDefaults(arguments: seq<string>)
    requires ParseOptions(arguments).Run?
    ensures var types := TypeFlagTypes(arguments);
      ParseOptions(arguments).options.fileTypes == if types == [] then AllFileTypes else types
    ensures "-f" !in arguments ==> ParseOptions(arguments).options.fileTypes == AllFileTypes
  {
    assert ScanFrom(arguments, Initial).Scanning?;
    ScannedTypes(arguments, Initial);
    assert [] + TypeFlagTypes(arguments) == TypeFlagTypes(arguments);
    if "-f" !in arguments {
      NoTypeFlagAddsNothing(arguments);
    }
  }

  /** `-d` sets the destination. */
  lemma DestinationFlagSets(value: string, rest: seq<string>, o: Options)
    ensures ScanFrom(["-d", value] + rest, o) == ScanFrom(rest, o.(destination := value))
  {
    var all := ["-d", value] + rest;
    assert all[0] == "-d" && all[1..][0] == value && all[1..][1..] == rest;
  }

  /** `-n` sets the worker count to the value read by `int()`, and stops the
      loop when `int()` raises. */
  lemma CpusFlagSets(value: string, rest: seq<string>, o: Options)
    ensures ParseInt(value).Some? ==>
      ScanFrom(["-n", value] + rest, o) == ScanFrom(rest, o.(cpus := ParseInt(value).value))
    ensures ParseInt(value).None? ==> ScanFrom(["-n", value] + rest, o) == Halted(NotANumber(value))
  {
    var all := ["-n", value] + rest;
    assert all[0] == "-n" && all[1..][0] == value && all[1..][1..] == rest;
  }

  /** An `-n` value that is not an integer makes `int()` raise, whatever
      follows it. */
  lemma BadNumberRaises(prefix: seq<string>, value: string, rest: seq<string>)
    requires ScanFrom(prefix, Initial).Scanning? && ParseInt(value).None?
    ensures ParseOptions(prefix + ["-n", value] + rest) == NotANumber(value)
  {
    ScanAppend(prefix, ["-n", value] + rest, Initial);
    assert prefix + ["-n", value] + rest == prefix + (["-n", value] + rest);
    CpusFlagSets(value, rest, ScanFrom(prefix, Initial).options);
  }

  /** The command of the documented session:
      `-d DESTINATION -f jpg URL`. */
  lemma DocumentedInvocation(destination: string, url: string)
    requires url != [] && url[0] != '-'
    ensures ParseOptions(["-d", destination, "-f", "jpg", url]) == Run(Options(destination, DefaultCpus, ["jpg"], url))
  {
    var arguments := ["-d", destination, "-f", "jpg", url];
    assert arguments[1..][1..] == ["-f", "jpg", url];
    FileTypesAppend("jpg", [url], Initial.(destination := destination));
    assert ["-f", "jpg", url] == ["-f", "jpg"] + [url];
    SplitWithoutComma("jpg");
    assert [url][1..] == [];
  }

  // The whole program.

  /** How the process ends: its exit status and the files on disk. */
  datatype Ending = Ending(status: int, store: Store)

  /** The exit status of a crawl: 0 once the report is printed, 5 when the
      page was rejected, 1 for an exception that escapes. */
  function CrawlStatus(result: Result<Report, Stop>): (status: int)
    ensures status == 0 <==> result.Ok?
    ensures status == 5 <==> result.Err? && result.error.ExtractionFailed? && result.error.failure.PageRejected?
    ensures status == 0 || status == 1 || status == 5
  {
    match result
    case Ok(_) => 0
    case Err(ExtractionFailed(failure)) => FailureStatus(failure)
    case Err(_) => 1
  }

  /** `main(arguments)`: parse the options, make sure the destination
      exists, then crawl; every request, the page's included, gets its reply
      from `fetch`. An empty destination does not exist, and creating it
      raises, so `main` ends with status 1 before any request. */
  function Miles(arguments: seq<string>, fetch: Fetcher, findall: Matcher, store: Store): (ending: Ending)
    ensures ending.status == 0 || ending.status == 1 || ending.status == 5
    ensures !ParseOptions(arguments).Run? ==> ending.store == store
    ensures ParseOptions(arguments).Exit? ==> ending.status == ParseOptions(arguments).status
    ensures ParseOptions(arguments).MissingValue? || ParseOptions(arguments).NotANumber? ==> ending.status == 1
    ensures ending.status == 0 ==>
      ParseOptions(arguments) == Exit(0) || (ParseOptions(arguments).Run? && Succeeded(fetch(ParseOptions(arguments).options.url)))
    ensures ParseOptions(arguments).Run? && ParseOptions(arguments).options.destination == [] ==> ending == Ending(1, store)
  {
    match ParseOptions(arguments)
    case Exit(status) => Ending(status, store)
    case MissingValue(_) => Ending(1, store)
    case NotANumber(_) => Ending(1, store)
    case Run(o) =>
      if o.destination == [] then Ending(1, store)
      else
        var c := Crawl.Crawl(o.url, o.fileTypes, o.destination, o.cpus, fetch(o.url), fetch, findall, store);
        Ending(CrawlStatus(c.result), c.store)
  }

  /** A page that answers with an error status ends the program with
      status 5 and nothing written. */
  lemma RejectedPageExitsFive(arguments: seq<string>, fetch: Fetcher, findall: Matcher, store: Store)
    requires ParseOptions(arguments).Run? && ParseOptions(arguments).options.cpus > 0
    requires ParseOptions(arguments).options.destination != []
    requires var page := fetch(ParseOptions(arguments).options.url);
      page.Response? && IsErrorStatus(page.status)
    ensures Miles(arguments, fetch, findall, store) == Ending(5, store)
  {
    var o := ParseOptions(arguments).options;
    CrawlPageFailure(o.url, o.fileTypes, o.destination, o.cpus, fetch(o.url), fetch, findall, store);
  }
}
