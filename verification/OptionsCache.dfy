/**
  Finding the configuration of a file in the nearest directory above it.

  The provider remembers what it found for every directory it passed.  As long as the files do not
  change, its answers are those of a search without a memory.
  */
module OptionsCache {

  import opened Wrappers
  import opened CheckOptions

  /** A directory by its components; the empty path is above all others. */
  type Path = seq<string>

  datatype Source = Source(options: Options, origin: string)

  /** What trying to read a configuration file gives. */
  datatype ReadResult = NotAFile | Unreadable | EmptyFile | Malformed | Parsed(options: Options)

  /** The state of the disk: which directories exist, and what each handler's file contains. */
  datatype Disk = Disk(directories: set<Path>, files: map<(Path, string), ReadResult>)
  {
    function Read(directory: Path, name: string): ReadResult {
      if (directory, name) in files then files[(directory, name)] else NotAFile
    }
  }

  const DEFAULT_BINARY := "clang-tidy binary"
  const CHECK_COMMAND_LINE_OPTION := "command-line option '-checks'"

  function Parent(path: Path): Path {
    if path == [] then [] else path[..|path| - 1]
  }

  /** The name under which a configuration file is reported. */
  function FileName(directory: Path, name: string): string {
    if directory == [] then name else FileName(Parent(directory), directory[|directory| - 1]) + "/" + name
  }

  lemma FileNameUnfolds(directory: Path, last: string, name: string)
    ensures FileName(directory + [last], name) == FileName(directory, last) + ("/" + name)
  {
    assert Parent(directory + [last]) == directory;
  }

  lemma Associates(a: string, b: string, c: string)
    ensures (a + b) + c == a + (b + c)
  {
  }

  /** The name is that of the file, behind the components of the directory with a slash each. */
  lemma {:induction false} FileNameExactly(first: string, directory: Path, name: string)
    ensures FileName([], name) == name
    ensures FileName([first] + directory, name) == first + "/" + FileName(directory, name)
    decreases |directory|
  {
    assert FileName([], name) == name && FileName([], first) == first;
    hide FileName;
    if directory == [] {
      FileNameUnfolds([], first, name);
      assert [] + [first] == [first] + directory;
    } else {
      var before, last := directory[..|directory| - 1], directory[|directory| - 1];
      assert [first] + directory == ([first] + before) + [last] && directory == before + [last];
      FileNameUnfolds([first] + before, last, name);
      FileNameUnfolds(before, last, name);
      FileNameExactly(first, before, last);
      Associates(first + "/", FileName(before, last), "/" + name);
    }
  }

  /** The first handler whose file can be parsed. */
  function FirstParsed(disk: Disk, handlers: seq<string>, directory: Path): Option<Source> {
    if handlers == [] then
      None
    else
      var result := disk.Read(directory, handlers[0]);
      if result.Parsed?
      then Some(Source(result.options, FileName(directory, handlers[0])))
      else FirstParsed(disk, handlers[1..], directory)
  }

  function ConfigIn(disk: Disk, handlers: seq<string>, directory: Path): Option<Source> {
    if directory in disk.directories then FirstParsed(disk, handlers, directory) else None
  }

  lemma {:induction false} FirstParsedExactly(disk: Disk, handlers: seq<string>, directory: Path, source: Source)
    ensures FirstParsed(disk, handlers, directory) == Some(source) <==>
      exists n :: 0 <= n < |handlers| &&
        disk.Read(directory, handlers[n]) == Parsed(source.options) &&
        source.origin == FileName(directory, handlers[n]) &&
        forall m :: 0 <= m < n ==> !disk.Read(directory, handlers[m]).Parsed?
  {
    if handlers != [] {
      FirstParsedExactly(disk, handlers[1..], directory, source);
      assert forall n :: 0 < n < |handlers| ==> handlers[n] == handlers[1..][n - 1];
    }
  }

  /**
    A directory that exists is configured by the first handler whose file can be parsed there; a file
    that is missing, empty or malformed is passed over.
    */
  lemma ConfigInExactly(disk: Disk, handlers: seq<string>, directory: Path, source: Source)
    ensures ConfigIn(disk, handlers, directory) == Some(source) <==>
      && directory in disk.directories
      && exists n :: 0 <= n < |handlers| &&
           (directory, handlers[n]) in disk.files &&
           disk.files[(directory, handlers[n])] == Parsed(source.options) &&
           source.origin == FileName(directory, handlers[n]) &&
           forall m :: 0 <= m < n && (directory, handlers[m]) in disk.files ==>
             !disk.files[(directory, handlers[m])].Parsed?
  {
    FirstParsedExactly(disk, handlers, directory, source);
  }

  /** The configuration of the nearest directory, from the given one upwards, that has one. */
  function Nearest(disk: Disk, handlers: seq<string>, directory: Path): Option<Source> {
    if directory == [] then
      None
    else if ConfigIn(disk, handlers, directory).Some? then
      ConfigIn(disk, handlers, directory)
    else
      Nearest(disk, handlers, Parent(directory))
  }

  /** It is that of the longest non-empty prefix that has one. */
  lemma {:induction false} NearestIsLongestPrefix(disk: Disk, handlers: seq<string>, directory: Path, source: Source)
    ensures Nearest(disk, handlers, directory) == Some(source) <==>
      exists n: nat :: 0 < n <= |directory| &&
        ConfigIn(disk, handlers, directory[..n]) == Some(source) &&
        forall m: nat :: n < m <= |directory| ==> ConfigIn(disk, handlers, directory[..m]) == None
  {
    if directory != [] {
      var size, up := |directory|, Parent(directory);
      assert directory[..size] == directory;
      assert forall m: nat :: m < size ==> up[..m] == directory[..m];
      if ConfigIn(disk, handlers, directory) == None {
        NearestIsLongestPrefix(disk, handlers, up, source);
      }
    }
  }

  /** The directory is `path` itself or above it, and has at least `size` components. */
  predicate OnTheWay(directory: Path, size: nat, path: Path) {
    size <= |directory| <= |path| && directory == path[..|directory|]
  }

  function OptionsOf(sources: seq<Source>): (r: seq<Options>)
    ensures |r| == |sources| && forall n :: 0 <= n < |r| ==> r[n] == sources[n].options
  {
    if sources == [] then [] else OptionsOf(sources[..|sources| - 1]) + [sources[|sources| - 1].options]
  }

  lemma MergedOneMore(sources: seq<Source>, n: nat)
    requires n < |sources|
    ensures Merged(OptionsOf(sources[..n + 1])) == Merged(OptionsOf(sources[..n])).MergeWith(sources[n].options)
  {
    var more := sources[..n + 1];
    assert more[..n] == sources[..n];
    assert OptionsOf(more)[..|OptionsOf(more)| - 1] == OptionsOf(sources[..n]);
  }

  method MergeSources(sources: seq<Source>) returns (r: Options)
    ensures r == Merged(OptionsOf(sources))
  {
    r := UNSET;
    for n := 0 to |sources|
      invariant r == Merged(OptionsOf(sources[..n]))
    {
      MergedOneMore(sources, n);
      r := r.MergeWith(sources[n].options);
    }
    assert sources[..|sources|] == sources;
  }

  class FileOptionsProvider {
    const disk: Disk
    const configHandlers: seq<string>
    const defaultOptions: Options
    const overrideOptions: Options
    var cachedOptions: map<Path, Source>

    constructor (disk: Disk, configHandlers: seq<string>, defaultOptions: Options, overrideOptions: Options)
      ensures Valid() && cachedOptions == map[]
      ensures this.disk == disk && this.configHandlers == configHandlers
      ensures this.defaultOptions == defaultOptions && this.overrideOptions == overrideOptions
    {
      this.disk, this.configHandlers := disk, configHandlers;
      this.defaultOptions, this.overrideOptions := defaultOptions, overrideOptions;
      cachedOptions := map[];
    }

    function Lookup(directory: Path): Option<Source> {
      Nearest(disk, configHandlers, directory)
    }

    /** Every entry is the configuration nearest to its directory. */
    ghost predicate Valid()
      reads this
    {
      forall directory <- cachedOptions :: directory != [] && Lookup(directory) == Some(cachedOptions[directory])
    }

    /** The sources that a search without a memory finds, the weakest first. */
    function Sources(file: Path): seq<Source> {
      [Source(defaultOptions, DEFAULT_BINARY)] +
      (if Lookup(Parent(file)).Some? then [Lookup(Parent(file)).value] else []) +
      [Source(overrideOptions, CHECK_COMMAND_LINE_OPTION)]
    }

    method TryReadConfigFile(directory: Path) returns (r: Option<Source>)
      requires directory != []
      ensures r == ConfigIn(disk, configHandlers, directory)
    {
      if directory !in disk.directories {
        return None;
      }
      for n := 0 to |configHandlers|
        invariant FirstParsed(disk, configHandlers, directory) == FirstParsed(disk, configHandlers[n..], directory)
      {
        var result := disk.Read(directory, configHandlers[n]);
        if result.Parsed? {
          return Some(Source(result.options, FileName(directory, configHandlers[n])));
        }
      }
      return None;
    }

    /** Remembers the source for all directories from `path` up to `stop`. */
    method Remember(path: Path, stop: Path, source: Source)
      requires Valid() && stop != [] && stop <= path && Lookup(stop) == Some(source)
      requires forall n: nat :: |stop| <= n <= |path| ==> Lookup(path[..n]) == Some(source)
      modifies this
      ensures Valid()
      ensures forall directory: Path ::
        (directory in cachedOptions <==>
          directory in old(cachedOptions) || OnTheWay(directory, |stop|, path))
      ensures forall directory <- old(cachedOptions) :: cachedOptions[directory] == old(cachedOptions[directory])
    {
      var current := path;
      while current != stop
        invariant stop <= current <= path && Valid()
        invariant forall directory: Path ::
          (directory in cachedOptions <==>
            directory in old(cachedOptions) || OnTheWay(directory, |current| + 1, path))
        invariant forall directory <- old(cachedOptions) :: cachedOptions[directory] == old(cachedOptions[directory])
        decreases |current|
      {
        assert path[..|current|] == current;
        assert |current| > |stop|;
        cachedOptions := cachedOptions[current := source];
        current := Parent(current);
      }
      assert path[..|current|] == current;
      cachedOptions := cachedOptions[current := source];
    }

    /** The cached search finds what the search without a memory finds. */
    method GetRawOptions(file: Path) returns (sources: seq<Source>)
      requires Valid()
      modifies this
      ensures Valid()
      ensures sources == Sources(file)
      ensures sources[0] == Source(defaultOptions, DEFAULT_BINARY)
      ensures sources[|sources| - 1] == Source(overrideOptions, CHECK_COMMAND_LINE_OPTION)
      ensures var found := Nearest(disk, configHandlers, Parent(file));
        sources[1..|sources| - 1] == if found.Some? then [found.value] else []
      ensures old(cachedOptions).Keys <= cachedOptions.Keys
      ensures Lookup(Parent(file)).Some? ==> Parent(file) in cachedOptions
    {
      sources := [Source(defaultOptions, DEFAULT_BINARY)];
      var path := Parent(file);
      var current := path;
      assert path[..|path|] == path;
      while current != []
        invariant current <= path && Valid() && cachedOptions == old(cachedOptions)
        invariant forall n: nat :: |current| <= n <= |path| ==> Lookup(path[..n]) == Lookup(current)
        decreases |current|
      {
        var result := if current in cachedOptions then Some(cachedOptions[current]) else None;
        if result == None {
          result := TryReadConfigFile(current);
        }
        if result.Some? {
          assert path[..|path|] == path;
          Remember(path, current, result.value);
          sources := sources + [result.value];
          break;
        }
        assert path[..|current| - 1] == Parent(current);
        current := Parent(current);
      }
      sources := sources + [Source(overrideOptions, CHECK_COMMAND_LINE_OPTION)];
    }

    /** The options of a file: those of its sources, merged in order. */
    method GetOptions(file: Path) returns (r: Options)
      requires Valid()
      modifies this
      ensures Valid()
      ensures r == Merged(OptionsOf(Sources(file)))
    {
      var sources := GetRawOptions(file);
      r := MergeSources(sources);
    }

    /** Any number of queries: each answer is that of the search without a memory. */
    method GetAll(files: seq<Path>) returns (r: seq<seq<Source>>)
      requires Valid()
      modifies this
      ensures Valid()
      ensures |r| == |files| && forall n :: 0 <= n < |files| ==> r[n] == Sources(files[n])
    {
      r := [];
      for n := 0 to |files|
        invariant Valid() && |r| == n
        invariant forall m :: 0 <= m < n ==> r[m] == Sources(files[m])
      {
        var sources := GetRawOptions(files[n]);
        r := r + [sources];
      }
    }
  }
}
