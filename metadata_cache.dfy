/** The backup metadata cache (storage/backup/backup-cli/src/metadata/cache.rs).

    `SyncAndLoad` mirrors the remote catalogue of metadata files into a local
    cache directory and then loads every cached file into one list of
    records. The directory and the remote storage are objects whose state is a
    map from name to content; every I/O step that can fail is driven by a
    `Faults` record, so that each error path of the source is a path of the
    model. The 64-bit hasher, the JSON parser and the random identity record
    are parameters. */
module MetadataCache {
  import opened Wrappers
  import Strings
  import opened Ints

  /** An opaque locator of one remote metadata file. */
  type FileHandle = string

  /** The 64-bit hasher behind `DefaultHasher::finish`. */
  type Hasher = FileHandle -> U64

  /** `MetadataCacheOpt::SUB_DIR`. */
  const SubDir := "cache"

  /** `PathBuf::join` with a relative name that holds no separator. */
  function JoinPath(base: string, name: string): (p: string)
    ensures base <= p
    ensures |p| >= |name| && p[|p| - |name|..] == name
    ensures |p| - |name| - |base| <= 1
    ensures |p| - |name| > 0 ==> p[|p| - |name| - 1] == '/'
  {
    if base == "" then name
    else if base[|base| - 1] == '/' then base + name
    else base + "/" + name
  }

  /** `MetadataCacheOpt::cache_dir`: the `cache` sub-directory of the
      configured directory, or of the process-wide temporary directory. */
  function CacheDir(dir: Option<string>, tempDir: string): (p: string)
    ensures dir.Some? ==> dir.value <= p
    ensures dir.None? ==> tempDir <= p
    ensures |p| >= |SubDir| && p[|p| - |SubDir|..] == SubDir
  {
    JoinPath(dir.GetOr(tempDir), SubDir)
  }

  /** A local cache key: a non-empty string of lower-case hex digits. */
  predicate IsHash(s: string) {
    |s| > 0 && forall i :: 0 <= i < |s| ==> s[i] in Strings.LowerHexDigits
  }

  /** `FileHandleHash::file_handle_hash`: the 64-bit hash of the handle,
      formatted with `{:x}`. */
  function FileHandleHash(hasher: Hasher, fh: FileHandle): (h: string)
    ensures IsHash(h)
    ensures Strings.ValueOf(h, Strings.LowerHexDigits) == Some(hasher(fh))
  {
    Strings.LowerHexRoundTrip(hasher(fh));
    Strings.LowerHex(hasher(fh))
  }

  /** Two handles get the same cache key exactly when the hasher maps them to
      the same 64-bit value. */
  lemma HashKeyIsExact(hasher: Hasher, a: FileHandle, b: FileHandle)
    ensures FileHandleHash(hasher, a) == FileHandleHash(hasher, b) <==> hasher(a) == hasher(b)
  {
    if FileHandleHash(hasher, a) == FileHandleHash(hasher, b) {
      assert Some(hasher(a)) == Some(hasher(b));
    }
  }

  /** The name of the temporary file a download of `h` is written to. */
  function TempName(h: string): string {
    "." + h
  }

  /** A temporary name is never a cache key, so a leftover temporary file
      never matches a remote hash. */
  lemma TempNameIsNotAHash(h: string)
    ensures !IsHash(TempName(h))
  {
    assert TempName(h)[0] == '.';
  }

  /** The set of cache keys of a set of handles. */
  ghost function RemoteHashes(hasher: Hasher, handles: set<FileHandle>): set<string> {
    set fh | fh in handles :: FileHandleHash(hasher, fh)
  }

  /** `remote_file_handle_by_hash`: the map from cache key to handle built by
      collecting the listing into a `HashMap`; on a hash collision the later
      handle of the listing wins. */
  function IndexByHash(hasher: Hasher, handles: seq<FileHandle>): (m: map<string, FileHandle>)
    ensures m.Keys == set fh | fh in handles :: FileHandleHash(hasher, fh)
    ensures forall h :: h in m ==> m[h] in handles && FileHandleHash(hasher, m[h]) == h
    decreases |handles|
  {
    if handles == [] then map[]
    else
      var init := handles[..|handles| - 1];
      var last := handles[|handles| - 1];
      assert forall fh :: fh in handles <==> fh in init || fh == last;
      IndexByHash(hasher, init)[FileHandleHash(hasher, last) := last]
  }

  /** The three-way split of local and remote keys. */
  datatype Split = Split(stale: set<string>, newRemote: set<string>, upToDate: set<string>)

  /** Lines 125-127: stale = local - remote, new = remote - local,
      up to date = local and remote. */
  function SplitHashes(local: set<string>, remote: set<string>): (s: Split)
    ensures s.stale !! s.newRemote && s.stale !! s.upToDate && s.newRemote !! s.upToDate
    ensures s.newRemote + s.upToDate == remote
    ensures s.stale + s.upToDate == local
    ensures s.stale !! remote && s.newRemote !! local
  {
    Split(local - remote, remote - local, local * remote)
  }

  /** A leftover temporary file `.h` in the cache directory is always in the
      stale set, whatever the remote listing, so it is deleted before any
      download of `h` creates `.h` again. */
  lemma LeftoverTempFileIsStale(hasher: Hasher, local: set<string>, handles: set<FileHandle>, h: string)
    requires TempName(h) in local
    ensures TempName(h) in SplitHashes(local, RemoteHashes(hasher, handles)).stale
  {
    TempNameIsNotAHash(h);
    forall fh | fh in handles ensures FileHandleHash(hasher, fh) != TempName(h) {
      assert IsHash(FileHandleHash(hasher, fh));
    }
  }

  /** Once the local keys equal the remote keys the split is empty on both
      sides: a second sync against an unchanged remote deletes and downloads
      nothing. */
  lemma SplitOfSyncedIsEmpty(keys: set<string>)
    ensures SplitHashes(keys, keys).stale == {} && SplitHashes(keys, keys).newRemote == {}
    ensures SplitHashes(keys, keys).upToDate == keys
  {
  }

  /* ---------- Loading: `str::lines` and the line parser ---------- */

  /** The line with its final carriage return removed, as `lines()` does
      before a line feed. */
  function StripCr(line: string): (r: string)
    ensures line == r || line == r + "\r"
    ensures |line| > 0 && line[|line| - 1] == '\r' ==> r == line[..|line| - 1]
  {
    if |line| > 0 && line[|line| - 1] == '\r' then line[..|line| - 1] else line
  }

  /** Rust's `str::lines`: split at `\n` (a `\r` right before it is dropped);
      a final line feed does not start an empty last line. */
  function Lines(s: string): (ls: seq<string>)
    ensures forall k :: 0 <= k < |ls| ==> '\n' !in ls[k]
    ensures s == [] <==> ls == []
    decreases |s|
  {
    if s == [] then []
    else match Strings.Find(s, '\n')
      case None => [s]
      case Some(i) =>
        var line := StripCr(s[..i]);
        assert forall c :: c in line ==> c in s[..i];
        [line] + Lines(s[i + 1..])
  }

  /** The text of lines each followed by a line feed, as metadata files are written. */
  function Terminated(ls: seq<string>): string
    decreases |ls|
  {
    if ls == [] then "" else ls[0] + "\n" + Terminated(ls[1..])
  }

  /** Splitting a file written line by line gives its lines back, as long as
      no line holds a line feed or ends with a carriage return. */
  lemma {:induction false} LinesOfTerminated(ls: seq<string>)
    requires forall k :: 0 <= k < |ls| ==> '\n' !in ls[k]
    requires forall k :: 0 <= k < |ls| && |ls[k]| > 0 ==> ls[k][|ls[k]| - 1] != '\r'
    ensures Lines(Terminated(ls)) == ls
    decreases |ls|
  {
    if ls != [] {
      var s := Terminated(ls);
      var rest := Terminated(ls[1..]);
      assert s == ls[0] + "\n" + rest;
      Strings.FindAfterPrefix(ls[0], '\n', rest);
      assert s[..|ls[0]|] == ls[0];
      assert s[|ls[0]| + 1..] == rest;
      LinesOfTerminated(ls[1..]);
    }
  }

  /** The text of lines each followed by a carriage return and a line feed. */
  function CrlfTerminated(ls: seq<string>): string
    decreases |ls|
  {
    if ls == [] then "" else ls[0] + "\r\n" + CrlfTerminated(ls[1..])
  }

  /** A file written with `\r\n` line ends splits into the same lines as
      one written with `\n`: the carriage returns are dropped. */
  lemma {:induction false} LinesOfCrlfTerminated(ls: seq<string>)
    requires forall k :: 0 <= k < |ls| ==> '\n' !in ls[k]
    ensures Lines(CrlfTerminated(ls)) == ls
    decreases |ls|
  {
    if ls != [] {
      var s := CrlfTerminated(ls);
      var rest := CrlfTerminated(ls[1..]);
      var line := ls[0] + "\r";
      assert s == line + "\n" + rest;
      assert '\n' !in line;
      Strings.FindAfterPrefix(line, '\n', rest);
      assert s[..|line|] == line;
      assert s[|line| + 1..] == rest;
      assert StripCr(line) == ls[0];
      LinesOfCrlfTerminated(ls[1..]);
    }
  }

  /** Every line parses. */
  predicate AllParse<M>(lines: seq<string>, parse: string -> Option<M>) {
    forall k :: 0 <= k < |lines| ==> parse(lines[k]).Some?
  }

  /** Each line parsed on its own; `None` as soon as one line fails. */
  function ParseLines<M>(lines: seq<string>, parse: string -> Option<M>): (r: Option<seq<M>>)
    ensures r.Some? <==> AllParse(lines, parse)
    ensures r.Some? ==> |r.value| == |lines|
    ensures r.Some? ==> forall k :: 0 <= k < |lines| ==> r.value[k] == parse(lines[k]).value
    decreases |lines|
  {
    if lines == [] then Some([])
    else match parse(lines[0])
      case None => None
      case Some(m) =>
        match ParseLines(lines[1..], parse)
        case None => None
        case Some(rest) => Some([m] + rest)
  }

  /** `load_metadata_lines`: one record per element of `lines()`, in order;
      the whole file fails if any line, a blank one included, does not parse. */
  function LoadMetadataLines<M>(content: string, parse: string -> Option<M>): (r: Option<seq<M>>)
    ensures r.Some? <==> AllParse(Lines(content), parse)
    ensures r.Some? ==> |r.value| == |Lines(content)|
    ensures r.Some? ==> forall k :: 0 <= k < |r.value| ==> r.value[k] == parse(Lines(content)[k]).value
  {
    ParseLines(Lines(content), parse)
  }

  /** The errors `sync_and_load` reports, one per failing step. */
  datatype CacheError =
    | ListLocalFailed
    | ListRemoteFailed
    | IdentityFailed
    | RemoveFailed(name: string)
    | OpenFailed(handle: FileHandle)
    | CreateFailed(hash: string)
    | CopyFailed(hash: string)
    | RenameFailed(hash: string)
    | ReadFailed(hash: string)
    | ParseFailed(hash: string)

  /** The records of the cached files named by `order`, file after file and
      line after line; the first file that cannot be read or parsed fails the
      whole load. */
  function LoadFiles<M>(order: seq<string>, files: map<string, string>, readFails: set<string>,
                        parse: string -> Option<M>): Result<seq<M>, CacheError>
    decreases |order|
  {
    if order == [] then Ok([])
    else
      var h := order[0];
      if h !in files || h in readFails then Err(ReadFailed(h))
      else match LoadMetadataLines(files[h], parse)
        case None => Err(ParseFailed(h))
        case Some(records) =>
          match LoadFiles(order[1..], files, readFails, parse)
          case Err(e) => Err(e)
          case Ok(rest) => Ok(records + rest)
  }

  /** The cached file `h` can be read and every line of it parses. */
  ghost predicate FileLoads<M>(h: string, files: map<string, string>, readFails: set<string>,
                               parse: string -> Option<M>) {
    h in files && h !in readFails && LoadMetadataLines(files[h], parse).Some?
  }

  /** Two loads one after the other: the first error, or both lists of records. */
  function AndThen<M>(a: Result<seq<M>, CacheError>, b: Result<seq<M>, CacheError>): Result<seq<M>, CacheError> {
    match a
    case Err(e) => Err(e)
    case Ok(x) =>
      match b
      case Err(e) => Err(e)
      case Ok(y) => Ok(x + y)
  }

  /** The load succeeds exactly when every named file can be read and parsed. */
  lemma {:induction false} LoadFilesSucceeds<M>(order: seq<string>, files: map<string, string>,
                                                readFails: set<string>, parse: string -> Option<M>)
    ensures LoadFiles(order, files, readFails, parse).Ok?
            <==> forall k :: 0 <= k < |order| ==> FileLoads(order[k], files, readFails, parse)
    decreases |order|
  {
    if order != [] {
      LoadFilesSucceeds(order[1..], files, readFails, parse);
      assert forall k :: 1 <= k < |order| ==> order[k] == order[1..][k - 1];
    }
  }

  /** Loading `a + b` is loading `a` and then `b`: the view keeps the order
      of the files and, within a file, the order of its lines. */
  lemma {:induction false} LoadFilesConcat<M>(a: seq<string>, b: seq<string>, files: map<string, string>,
                                              readFails: set<string>, parse: string -> Option<M>)
    ensures LoadFiles(a + b, files, readFails, parse)
            == AndThen(LoadFiles(a, files, readFails, parse), LoadFiles(b, files, readFails, parse))
    decreases |a|
  {
    if a == [] {
      assert a + b == b;
      match LoadFiles(b, files, readFails, parse)
      case Err(e) =>
      case Ok(y) => assert [] + y == y;
    } else {
      var h := a[0];
      assert (a + b)[0] == h;
      assert (a + b)[1..] == a[1..] + b;
      LoadFilesConcat(a[1..], b, files, readFails, parse);
      if h in files && h !in readFails && LoadMetadataLines(files[h], parse).Some? {
        var records := LoadMetadataLines(files[h], parse).value;
        match LoadFiles(a[1..], files, readFails, parse)
        case Err(e) =>
        case Ok(x) =>
          match LoadFiles(b, files, readFails, parse)
          case Err(e) =>
          case Ok(y) => assert records + (x + y) == (records + x) + y;
      }
    }
  }

  /** The load looks only at the files it names: files outside `order` (the
      deleted stale ones among them) contribute nothing. */
  lemma {:induction false} LoadFilesReadsOnlyOrder<M>(order: seq<string>, f1: map<string, string>, f2: map<string, string>,
                                                      readFails: set<string>, parse: string -> Option<M>)
    requires forall h :: h in order ==> (h in f1 <==> h in f2) && (h in f1 ==> f1[h] == f2[h])
    ensures LoadFiles(order, f1, readFails, parse) == LoadFiles(order, f2, readFails, parse)
    decreases |order|
  {
    if order != [] {
      assert order[0] in order;
      LoadFilesReadsOnlyOrder(order[1..], f1, f2, readFails, parse);
    }
  }

  /* ---------- The I/O collaborators ---------- */

  /** Which I/O steps fail. Local names and hashes are keyed by the cache
      key, remote opens by the handle. */
  datatype Faults = Faults(
    listLocal: bool,          // create_dir_all, read_dir or reading an entry fails
    listRemote: bool,         // the first list_metadata_files fails
    saveIdentity: bool,       // the identity record cannot be serialised or saved
    relistRemote: bool,       // the listing after the bootstrap fails
    relistLags: bool,         // the listing after the bootstrap does not show the identity record yet
    remove: set<string>,      // remove_file fails for these names
    open: set<FileHandle>,    // open_for_read fails for these handles
    create: set<string>,      // creating the temporary file for these hashes fails
    copy: set<string>,        // copying into the temporary file for these hashes fails
    rename: set<string>,      // renaming the temporary file for these hashes fails
    read: set<string>)        // opening or reading the cached file for these hashes fails

  /** `xs` lists every element of `s` once, in some order (the iteration
      order of a `HashSet` is unspecified). */
  ghost predicate Enumerates<T(!new)>(xs: seq<T>, s: set<T>) {
    Strings.Distinct(xs) && forall x :: x in xs <==> x in s
  }

  /** An enumeration is empty exactly when its set is. */
  lemma EnumeratesEmpty<T(!new)>(xs: seq<T>, s: set<T>)
    requires Enumerates(xs, s)
    ensures xs == [] <==> s == {}
  {
    if xs != [] {
      assert xs[0] in s;
    }
  }

  /** Iterate over a set in an arbitrary order. */
  method Enumerate<T(==, !new)>(s: set<T>) returns (xs: seq<T>)
    ensures Enumerates(xs, s)
    ensures |xs| == |s|
  {
    xs := [];
    var rest := s;
    while rest != {}
      invariant rest <= s
      invariant Strings.Distinct(xs)
      invariant forall x :: x in xs <==> x in s && x !in rest
      invariant |xs| + |rest| == |s|
      decreases rest
    {
      var x :| x in rest;
      xs := xs + [x];
      rest := rest - {x};
    }
  }

  /** The local cache directory: file name to file content. */
  class LocalDirectory {
    var entries: map<string, string>

    constructor (entries: map<string, string>)
      ensures this.entries == entries
    {
      this.entries := entries;
    }

    /** `remove_file`. */
    method RemoveFile(name: string, fail: bool) returns (ok: bool)
      modifies this
      ensures ok == (name in old(entries) && !fail)
      ensures entries == if ok then old(entries) - {name} else old(entries)
    {
      ok := name in entries && !fail;
      if ok {
        entries := entries - {name};
      }
    }

    /** `OpenOptions::new().write(true).create_new(true).open`: fails when
        the name already exists. */
    method CreateNew(name: string, fail: bool) returns (ok: bool)
      modifies this
      ensures ok == (name !in old(entries) && !fail)
      ensures entries == if ok then old(entries)[name := ""] else old(entries)
    {
      ok := name !in entries && !fail;
      if ok {
        entries := entries[name := ""];
      }
    }

    /** `tokio::io::copy` of a whole stream into the file; a failure leaves
        the part copied so far. */
    method Copy(name: string, content: string, fail: bool) returns (ok: bool)
      requires name in entries
      modifies this
      ensures ok == !fail
      ensures ok ==> entries == old(entries)[name := content]
      ensures !ok ==> name in entries && entries[name] <= content && entries - {name} == old(entries) - {name}
    {
      ok := !fail;
      if ok {
        entries := entries[name := content];
      } else {
        var written :| 0 <= written <= |content|;
        entries := entries[name := content[..written]];
      }
    }

    /** `rename`: moves the content to the new name, replacing any file there. */
    method Rename(from: string, to: string, fail: bool) returns (ok: bool)
      modifies this
      ensures ok == (from in old(entries) && !fail)
      ensures ok ==> entries == (old(entries) - {from})[to := old(entries)[from]]
      ensures !ok ==> entries == old(entries)
    {
      ok := from in entries && !fail;
      if ok {
        entries := (entries - {from})[to := entries[from]];
      }
    }
  }

  /** One call the cache makes to the backup storage. */
  datatype StorageCall = ListCall | SaveCall(name: string)

  /** The remote backup storage: metadata file handle to file content,
      with a log of the listing and saving calls made to it. */
  class BackupStorage {
    var files: map<FileHandle, string>
    ghost var calls: seq<StorageCall>

    constructor (files: map<FileHandle, string>)
      ensures this.files == files && calls == []
    {
      this.files := files;
      calls := [];
    }

    /** `list_metadata_files`: every handle the listing shows once, in the
        storage's order. A storage whose listings are only eventually
        consistent may not show yet the `unlisted` handles. */
    method ListMetadataFiles(fail: bool, unlisted: set<FileHandle>) returns (r: Result<seq<FileHandle>, CacheError>)
      modifies this`calls
      ensures calls == old(calls) + [ListCall]
      ensures r.Ok? <==> !fail
      ensures r.Ok? ==> Enumerates(r.value, files.Keys - unlisted)
      ensures r.Err? ==> r.error == ListRemoteFailed
    {
      calls := calls + [ListCall];
      if fail {
        return Err(ListRemoteFailed);
      }
      var handles := Enumerate(files.Keys - unlisted);
      r := Ok(handles);
    }

    /** `save_metadata_line`: store a one-line metadata file under `name`. */
    method SaveMetadataLine(name: string, line: string, fail: bool) returns (ok: bool)
      modifies this
      ensures calls == old(calls) + [SaveCall(name)]
      ensures ok == !fail
      ensures files == if ok then old(files)[name := line] else old(files)
    {
      calls := calls + [SaveCall(name)];
      ok := !fail;
      if ok {
        files := files[name := line];
      }
    }
  }

  /** `Metadata::new_random_identity()`: its name and its text line. */
  datatype IdentityRecord = IdentityRecord(name: string, line: string)

  /** `initialize_identity`: write the identity record to the storage. */
  method InitializeIdentity(storage: BackupStorage, identity: IdentityRecord, fail: bool)
    returns (r: Outcome<CacheError>)
    modifies storage
    ensures storage.calls == old(storage.calls) + [SaveCall(identity.name)]
    ensures r.Pass? <==> !fail
    ensures r.Fail? ==> r.error == IdentityFailed
    ensures storage.files == if r.Pass? then old(storage.files)[identity.name := identity.line] else old(storage.files)
  {
    var ok := storage.SaveMetadataLine(identity.name, identity.line, fail);
    r := if ok then Pass else Fail(IdentityFailed);
  }

  /* ---------- The sync, phase by phase ---------- */

  /** Lines 129-133: delete every stale file; stop at the first failure. */
  method RemoveStale(dir: LocalDirectory, stale: set<string>, removeFails: set<string>)
    returns (r: Outcome<CacheError>, ghost removed: set<string>)
    requires stale <= dir.entries.Keys
    modifies dir
    ensures r.Pass? <==> stale !! removeFails
    ensures r.Fail? ==> r.error.RemoveFailed? && r.error.name in stale && r.error.name in removeFails
    ensures removed <= stale && dir.entries == old(dir.entries) - removed
    ensures r.Pass? ==> removed == stale
  {
    var todo := stale;
    removed := {};
    while todo != {}
      invariant todo <= stale && removed == stale - todo
      invariant dir.entries == old(dir.entries) - removed
      invariant removed !! removeFails
      decreases todo
    {
      var h :| h in todo;
      var ok := dir.RemoveFile(h, h in removeFails);
      if !ok {
        return Fail(RemoveFailed(h)), removed;
      }
      todo := todo - {h};
      removed := removed + {h};
    }
    r := Pass;
  }

  /** Every step of the download of `h` succeeds. */
  ghost predicate DownloadSucceeds(h: string, byHash: map<string, FileHandle>, files: map<FileHandle, string>,
                                   faults: Faults) {
    h in byHash && byHash[h] in files && byHash[h] !in faults.open
    && h !in faults.create && h !in faults.copy && h !in faults.rename
  }

  /** Lines 143-171 for one file: open the remote file, create `.h`
      exclusively, copy the whole stream into it, rename it to `h`. */
  method DownloadOne(dir: LocalDirectory, storage: BackupStorage, h: string, byHash: map<string, FileHandle>,
                     faults: Faults) returns (r: Outcome<CacheError>)
    requires h in byHash
    requires h !in dir.entries && TempName(h) !in dir.entries
    modifies dir
    ensures r.Pass? <==> DownloadSucceeds(h, byHash, storage.files, faults)
    ensures r.Pass? ==> dir.entries == old(dir.entries)[h := storage.files[byHash[h]]]
    ensures r.Fail? ==> h !in dir.entries
    ensures r.Fail? ==> dir.entries == old(dir.entries)
                        || (byHash[h] in storage.files && TempName(h) in dir.entries
                            && dir.entries[TempName(h)] <= storage.files[byHash[h]]
                            && dir.entries - {TempName(h)} == old(dir.entries))
  {
    var fh := byHash[h];
    if fh !in storage.files || fh in faults.open {
      return Fail(OpenFailed(fh));
    }
    var content := storage.files[fh];
    var tmp := TempName(h);
    assert |tmp| == |h| + 1;
    var created := dir.CreateNew(tmp, h in faults.create);
    if !created {
      return Fail(CreateFailed(h));
    }
    var copied := dir.Copy(tmp, content, h in faults.copy);
    if !copied {
      assert h !in dir.entries - {tmp};
      return Fail(CopyFailed(h));
    }
    var renamed := dir.Rename(tmp, h, h in faults.rename);
    if !renamed {
      return Fail(RenameFailed(h));
    }
    r := Pass;
  }

  /** A directory entry after a sync, successful or not, is an old file left
      as it was, a complete download, or a temporary file holding a prefix
      of a download: a final name never holds a partial download. */
  ghost predicate SafeEntry(n: string, oldEntries: map<string, string>, entries: map<string, string>,
                            byHash: map<string, FileHandle>, files: map<FileHandle, string>)
    requires n in entries
  {
    || (n in oldEntries && entries[n] == oldEntries[n])
    || (IsHash(n) && n in byHash && byHash[n] in files && entries[n] == files[byHash[n]])
    || (|n| > 0 && n[0] == '.' && n[1..] in byHash && byHash[n[1..]] in files
        && entries[n] <= files[byHash[n[1..]]])
  }

  /** Every entry of the directory is safe (see `SafeEntry`). */
  ghost predicate AllSafe(oldEntries: map<string, string>, entries: map<string, string>,
                          byHash: map<string, FileHandle>, files: map<FileHandle, string>) {
    forall n :: n in entries ==> SafeEntry(n, oldEntries, entries, byHash, files)
  }

  /** Lines 138-180, sequentially: download every new hash in `order`; stop
      at the first failure. */
  method DownloadNew(dir: LocalDirectory, storage: BackupStorage, byHash: map<string, FileHandle>,
                     order: seq<string>, faults: Faults) returns (r: Outcome<CacheError>)
    requires Strings.Distinct(order)
    requires forall k :: 0 <= k < |order| ==> order[k] in byHash && IsHash(order[k]) && order[k] !in dir.entries
    requires forall n :: n in dir.entries ==> IsHash(n)
    modifies dir
    ensures r.Pass? <==> forall k :: 0 <= k < |order| ==> DownloadSucceeds(order[k], byHash, storage.files, faults)
    ensures r.Pass? ==> dir.entries.Keys == old(dir.entries).Keys + (set k | 0 <= k < |order| :: order[k])
    ensures r.Pass? ==> forall n :: n in old(dir.entries) ==> dir.entries[n] == old(dir.entries)[n]
    ensures r.Pass? ==> forall k :: 0 <= k < |order| ==> dir.entries[order[k]] == storage.files[byHash[order[k]]]
    ensures AllSafe(old(dir.entries), dir.entries, byHash, storage.files)
  {
    var i := 0;
    while i < |order|
      invariant 0 <= i <= |order|
      invariant forall k :: 0 <= k < i ==> DownloadSucceeds(order[k], byHash, storage.files, faults)
      invariant dir.entries.Keys == old(dir.entries).Keys + (set k | 0 <= k < i :: order[k])
      invariant forall n :: n in old(dir.entries) ==> dir.entries[n] == old(dir.entries)[n]
      invariant forall k :: 0 <= k < i ==> dir.entries[order[k]] == storage.files[byHash[order[k]]]
      invariant forall n :: n in dir.entries ==> IsHash(n)
    {
      var h := order[i];
      TempNameIsNotAHash(h);
      assert h !in dir.entries by {
        assert h !in old(dir.entries);
        assert forall k :: 0 <= k < i ==> order[k] != h;
      }
      ghost var before := dir.entries;
      r := DownloadOne(dir, storage, h, byHash, faults);
      if r.Fail? {
        forall n | n in dir.entries
          ensures SafeEntry(n, old(dir.entries), dir.entries, byHash, storage.files)
        {
          if n != TempName(h) {
            assert n in before;
            if n !in old(dir.entries) {
              var k :| 0 <= k < i && order[k] == n;
            }
          } else {
            assert n[1..] == h;
          }
        }
        return;
      }
      i := i + 1;
    }
    r := Pass;
  }

  /** Every I/O step up to and including the listing after a bootstrap succeeds. */
  ghost predicate Listed(remoteBefore: map<FileHandle, string>, faults: Faults) {
    && !faults.listLocal
    && !faults.listRemote
    && (remoteBefore == map[] ==> !faults.saveIdentity && !faults.relistRemote)
  }

  /** The storage calls the sync makes before it downloads anything: list,
      and if the listing is empty, save the identity record and list again. */
  ghost function SyncCalls(remoteBefore: map<FileHandle, string>, identity: IdentityRecord, faults: Faults): seq<StorageCall> {
    if faults.listLocal then []
    else if faults.listRemote || remoteBefore != map[] then [ListCall]
    else if faults.saveIdentity then [ListCall, SaveCall(identity.name)]
    else [ListCall, SaveCall(identity.name), ListCall]
  }

  /** The handles the sync works with: the first listing when it was not
      empty, otherwise the relisting, which shows the identity record unless
      the storage lags behind the save. */
  ghost function ListedHandles(remoteBefore: map<FileHandle, string>, identity: IdentityRecord, faults: Faults)
    : set<FileHandle>
  {
    if remoteBefore != map[] then remoteBefore.Keys
    else if faults.relistLags then {}
    else {identity.name}
  }

  /** The sync works with every remote file, except when the relisting
      after the bootstrap lags, and then it works with none. */
  lemma ListedHandlesOfStorage(remoteBefore: map<FileHandle, string>, identity: IdentityRecord, faults: Faults)
    requires Listed(remoteBefore, faults)
    ensures var listed, after := ListedHandles(remoteBefore, identity, faults), RemoteAfterSync(remoteBefore, identity, faults);
            && listed <= after.Keys
            && (listed == after.Keys <==> !(remoteBefore == map[] && faults.relistLags))
            && (listed == {} <==> remoteBefore == map[] && faults.relistLags)
  {
    var after := RemoteAfterSync(remoteBefore, identity, faults);
    if remoteBefore != map[] {
      var fh :| fh in remoteBefore;
    } else if faults.relistLags {
      assert identity.name in after;
    }
  }

  /** The remote files after the sync: the identity record is added exactly
      when the first listing succeeded and was empty and the save succeeded. */
  ghost function RemoteAfterSync(remoteBefore: map<FileHandle, string>, identity: IdentityRecord, faults: Faults)
    : map<FileHandle, string>
  {
    if !faults.listLocal && !faults.listRemote && remoteBefore == map[] && !faults.saveIdentity
    then map[identity.name := identity.line]
    else remoteBefore
  }

  /** The cache directory after a successful sync: every remote key, with
      the old content where the key was already cached and the remote
      content where it was downloaded. */
  ghost function Synced(oldEntries: map<string, string>, byHash: map<string, FileHandle>, files: map<FileHandle, string>)
    : map<string, string>
    requires forall h :: h in byHash ==> byHash[h] in files
  {
    map h | h in byHash :: if h in oldEntries then oldEntries[h] else files[byHash[h]]
  }

  /** The synced directory holds exactly the remote keys. */
  lemma SyncedKeys(oldEntries: map<string, string>, byHash: map<string, FileHandle>, files: map<FileHandle, string>)
    requires forall h :: h in byHash ==> byHash[h] in files
    ensures Synced(oldEntries, byHash, files).Keys == byHash.Keys
  {
  }

  /** A directory that already holds exactly the remote keys is its own
      synced state: nothing is downloaded and nothing is overwritten. */
  lemma SyncedIdempotent(oldEntries: map<string, string>, byHash: map<string, FileHandle>, files: map<FileHandle, string>)
    requires forall h :: h in byHash ==> byHash[h] in files
    requires oldEntries.Keys == byHash.Keys
    ensures Synced(oldEntries, byHash, files) == oldEntries
  {
  }

  /** `byHash` indexes every listed remote file by its hash (lines 116-123). */
  ghost predicate IndexedByHash(hasher: Hasher, byHash: map<string, FileHandle>, listed: set<FileHandle>,
                                files: map<FileHandle, string>) {
    && byHash.Keys == RemoteHashes(hasher, listed)
    && forall h :: h in byHash ==> byHash[h] in listed && byHash[h] in files && FileHandleHash(hasher, byHash[h]) == h
  }

  /** Collecting a listing indexes every handle it shows. */
  lemma IndexByHashOfListing(hasher: Hasher, handles: seq<FileHandle>, listed: set<FileHandle>,
                             files: map<FileHandle, string>)
    requires Enumerates(handles, listed) && listed <= files.Keys
    ensures IndexedByHash(hasher, IndexByHash(hasher, handles), listed, files)
  {
    assert forall fh :: fh in handles <==> fh in listed;
  }

  /** `order` is the loading order: the new keys, then the up-to-date keys
      (lines 181-183). */
  ghost predicate LoadOrder(oldKeys: set<string>, byHash: map<string, FileHandle>, order: seq<string>) {
    var split := SplitHashes(oldKeys, byHash.Keys);
    && |split.newRemote| <= |order|
    && Enumerates(order[..|split.newRemote|], split.newRemote)
    && Enumerates(order[|split.newRemote|..], split.upToDate)
  }

  /** The new keys in some order, then the up-to-date keys in some order,
      are a loading order. */
  lemma LoadOrderOf(oldKeys: set<string>, byHash: map<string, FileHandle>, newOrder: seq<string>,
                    currentOrder: seq<string>)
    requires Enumerates(newOrder, SplitHashes(oldKeys, byHash.Keys).newRemote)
    requires Enumerates(currentOrder, SplitHashes(oldKeys, byHash.Keys).upToDate)
    requires |newOrder| == |SplitHashes(oldKeys, byHash.Keys).newRemote|
    ensures LoadOrder(oldKeys, byHash, newOrder + currentOrder)
  {
    var order := newOrder + currentOrder;
    assert order[..|newOrder|] == newOrder && order[|newOrder|..] == currentOrder;
  }

  /** Every step after the listing succeeds: no stale file fails to go,
      every new file downloads, and every synced file reads and parses. */
  ghost predicate SyncSucceeds<M>(oldEntries: map<string, string>, byHash: map<string, FileHandle>,
                                  files: map<FileHandle, string>, order: seq<string>, faults: Faults,
                                  parse: string -> Option<M>)
    requires forall h :: h in byHash ==> byHash[h] in files
  {
    var split := SplitHashes(oldEntries.Keys, byHash.Keys);
    && split.stale !! faults.remove
    && (forall h :: h in split.newRemote ==> DownloadSucceeds(h, byHash, files, faults))
    && LoadFiles(order, Synced(oldEntries, byHash, files), faults.read, parse).Ok?
  }

  /** With nothing listed, every cached file is stale, nothing is
      downloaded or loaded, and the synced directory is empty. */
  lemma NothingListed<M>(oldEntries: map<string, string>, byHash: map<string, FileHandle>,
                         files: map<FileHandle, string>, order: seq<string>, faults: Faults,
                         parse: string -> Option<M>)
    requires byHash.Keys == {}
    requires LoadOrder(oldEntries.Keys, byHash, order)
    ensures order == [] && Synced(oldEntries, byHash, files) == map[]
    ensures SplitHashes(oldEntries.Keys, byHash.Keys).stale == oldEntries.Keys
    ensures oldEntries.Keys !! faults.remove ==> SyncSucceeds(oldEntries, byHash, files, order, faults, parse)
    ensures LoadFiles(order, Synced(oldEntries, byHash, files), faults.read, parse) == Ok([])
  {
    var split := SplitHashes(oldEntries.Keys, byHash.Keys);
    assert split.newRemote == {} && split.upToDate == {};
    EnumeratesEmpty(order[..|split.newRemote|], split.newRemote);
    EnumeratesEmpty(order[|split.newRemote|..], split.upToDate);
  }

  /** Downloading every hash of a set is downloading every hash of a listing of it. */
  lemma DownloadsInOrder(order: seq<string>, hashes: set<string>, byHash: map<string, FileHandle>,
                         files: map<FileHandle, string>, faults: Faults)
    requires Enumerates(order, hashes)
    ensures (forall h :: h in hashes ==> DownloadSucceeds(h, byHash, files, faults))
            <==> (forall k :: 0 <= k < |order| ==> DownloadSucceeds(order[k], byHash, files, faults))
  {
    if forall k :: 0 <= k < |order| ==> DownloadSucceeds(order[k], byHash, files, faults) {
      forall h | h in hashes ensures DownloadSucceeds(h, byHash, files, faults) {
        var k :| 0 <= k < |order| && order[k] == h;
      }
    }
  }

  /** Safety relative to a pruned directory is safety relative to the original. */
  lemma AllSafeFromPruned(oldEntries: map<string, string>, pruned: map<string, string>, entries: map<string, string>,
                          byHash: map<string, FileHandle>, files: map<FileHandle, string>)
    requires forall n :: n in pruned ==> n in oldEntries && pruned[n] == oldEntries[n]
    requires AllSafe(pruned, entries, byHash, files)
    ensures AllSafe(oldEntries, entries, byHash, files)
  {
  }

  /** Keeping the up-to-date entries and downloading every new hash yields
      the synced directory. */
  lemma DownloadedIsSynced(oldEntries: map<string, string>, pruned: map<string, string>, entries: map<string, string>,
                           byHash: map<string, FileHandle>, files: map<FileHandle, string>, order: seq<string>)
    requires forall h :: h in byHash ==> byHash[h] in files
    requires pruned.Keys == oldEntries.Keys * byHash.Keys
    requires forall n :: n in pruned ==> pruned[n] == oldEntries[n]
    requires Enumerates(order, byHash.Keys - oldEntries.Keys)
    requires entries.Keys == pruned.Keys + (set k | 0 <= k < |order| :: order[k])
    requires forall n :: n in pruned ==> entries[n] == pruned[n]
    requires forall k :: 0 <= k < |order| ==>
               order[k] in byHash && order[k] in entries && entries[order[k]] == files[byHash[order[k]]]
    ensures entries == Synced(oldEntries, byHash, files)
  {
    var synced := Synced(oldEntries, byHash, files);
    assert entries.Keys == synced.Keys by {
      forall h | h in byHash - oldEntries.Keys ensures h in entries {
        var k :| 0 <= k < |order| && order[k] == h;
      }
    }
    forall h | h in synced ensures entries[h] == synced[h] {
      if h !in oldEntries {
        var k :| 0 <= k < |order| && order[k] == h;
      }
    }
  }

  /** Lines 124-180: delete the stale files, then download the new ones in
      `newOrder`; the directory ends up synced, or the first failure is
      reported with every entry still safe. */
  method Refresh(dir: LocalDirectory, storage: BackupStorage, byHash: map<string, FileHandle>, split: Split,
                 newOrder: seq<string>, faults: Faults) returns (r: Outcome<CacheError>)
    requires forall h :: h in byHash ==> byHash[h] in storage.files && IsHash(h)
    requires split == SplitHashes(dir.entries.Keys, byHash.Keys)
    requires Enumerates(newOrder, split.newRemote)
    modifies dir
    ensures r.Pass? <==> split.stale !! faults.remove
                         && forall h :: h in split.newRemote ==> DownloadSucceeds(h, byHash, storage.files, faults)
    ensures r.Pass? ==> dir.entries == Synced(old(dir.entries), byHash, storage.files)
    ensures AllSafe(old(dir.entries), dir.entries, byHash, storage.files)
  {
    var removed, removedSet := RemoveStale(dir, split.stale, faults.remove);
    if removed.Fail? {
      return removed;
    }
    assert dir.entries.Keys == split.upToDate;
    ghost var pruned := dir.entries;
    r := DownloadNew(dir, storage, byHash, newOrder, faults);
    DownloadsInOrder(newOrder, split.newRemote, byHash, storage.files, faults);
    AllSafeFromPruned(old(dir.entries), pruned, dir.entries, byHash, storage.files);
    if r.Pass? {
      DownloadedIsSynced(old(dir.entries), pruned, dir.entries, byHash, storage.files, newOrder);
    }
  }

  /** Lines 116-198 once the remote handles are listed: index them by hash,
      split, refresh the directory, then load the new keys followed by the
      up-to-date keys. */
  method SyncListed<M>(dir: LocalDirectory, storage: BackupStorage, hasher: Hasher, handles: seq<FileHandle>,
                       ghost listed: set<FileHandle>, parse: string -> Option<M>, faults: Faults)
    returns (r: Result<seq<M>, CacheError>, ghost byHash: map<string, FileHandle>, ghost order: seq<string>)
    requires Enumerates(handles, listed) && listed <= storage.files.Keys
    modifies dir
    ensures IndexedByHash(hasher, byHash, listed, storage.files)
    ensures LoadOrder(old(dir.entries).Keys, byHash, order)
    ensures r.Ok? <==> SyncSucceeds(old(dir.entries), byHash, storage.files, order, faults, parse)
    ensures r.Ok? ==> dir.entries == Synced(old(dir.entries), byHash, storage.files)
    ensures r.Ok? ==> r == LoadFiles(order, dir.entries, faults.read, parse)
    ensures AllSafe(old(dir.entries), dir.entries, byHash, storage.files)
  {
    var index := IndexByHash(hasher, handles);
    byHash := index;
    IndexByHashOfListing(hasher, handles, listed, storage.files);
    var split := SplitHashes(dir.entries.Keys, index.Keys);
    var newOrder := Enumerate(split.newRemote);
    var currentOrder := Enumerate(split.upToDate);
    var loadOrder := newOrder + currentOrder;
    order := loadOrder;
    LoadOrderOf(dir.entries.Keys, index, newOrder, currentOrder);
    r := RefreshAndLoad(dir, storage, index, split, newOrder, loadOrder, parse, faults);
  }

  /** Lines 124-198 once the keys are split and ordered: refresh the
      directory, then load the files in `order`. */
  method RefreshAndLoad<M>(dir: LocalDirectory, storage: BackupStorage, byHash: map<string, FileHandle>, split: Split,
                           newOrder: seq<string>, order: seq<string>, parse: string -> Option<M>, faults: Faults)
    returns (r: Result<seq<M>, CacheError>)
    requires forall h :: h in byHash ==> byHash[h] in storage.files && IsHash(h)
    requires split == SplitHashes(dir.entries.Keys, byHash.Keys)
    requires Enumerates(newOrder, split.newRemote)
    modifies dir
    ensures r.Ok? <==> SyncSucceeds(old(dir.entries), byHash, storage.files, order, faults, parse)
    ensures r.Ok? ==> dir.entries == Synced(old(dir.entries), byHash, storage.files)
    ensures r.Ok? ==> r == LoadFiles(order, dir.entries, faults.read, parse)
    ensures AllSafe(old(dir.entries), dir.entries, byHash, storage.files)
  {
    var refreshed := Refresh(dir, storage, byHash, split, newOrder, faults);
    if refreshed.Fail? {
      return Err(refreshed.error);
    }
    r := LoadCached(dir, order, faults.read, parse);
  }

  /** Lines 106-115: list the remote metadata files; an empty listing is
      taken for a new storage, which gets an identity record and is listed
      again. The relisting is kept as it is, even when it is still empty. */
  method ListRemote(storage: BackupStorage, identity: IdentityRecord, faults: Faults)
    returns (r: Result<seq<FileHandle>, CacheError>)
    requires !faults.listLocal
    modifies storage
    ensures storage.calls == old(storage.calls) + SyncCalls(old(storage.files), identity, faults)
    ensures storage.files == RemoteAfterSync(old(storage.files), identity, faults)
    ensures r.Ok? <==> Listed(old(storage.files), faults)
    ensures r.Ok? ==> var listed := ListedHandles(old(storage.files), identity, faults);
                      listed <= storage.files.Keys && Enumerates(r.value, listed)
    ensures r.Ok? ==> (r.value == [] <==> old(storage.files) == map[] && faults.relistLags)
  {
    r := storage.ListMetadataFiles(faults.listRemote, {});
    if r.Err? {
      return;
    }
    assert storage.files.Keys - {} == storage.files.Keys;
    if r.value == [] {
      assert storage.files.Keys == {};
      var saved := InitializeIdentity(storage, identity, faults.saveIdentity);
      if saved.Fail? {
        return Err(saved.error);
      }
      r := storage.ListMetadataFiles(faults.relistRemote, if faults.relistLags then {identity.name} else {});
      if r.Ok? {
        if faults.relistLags {
          assert storage.files.Keys - {identity.name} == {};
          EnumeratesEmpty(r.value, storage.files.Keys - {identity.name});
        } else {
          assert identity.name in r.value;
        }
      }
    } else {
      assert r.value[0] in storage.files;
      assert old(storage.files) != map[];
    }
  }

  /** `sync_and_load`, with the downloads run one after the other: list the
      cache directory and the remote metadata files (bootstrapping an empty
      storage with an identity record), then sync and load. */
  method SyncAndLoad<M>(dir: LocalDirectory, storage: BackupStorage, hasher: Hasher, identity: IdentityRecord,
                        parse: string -> Option<M>, faults: Faults)
    returns (r: Result<seq<M>, CacheError>, ghost byHash: map<string, FileHandle>, ghost order: seq<string>)
    modifies dir, storage
    // The bootstrap: at most one identity write, only after an empty listing, followed by one relisting.
    ensures storage.calls == old(storage.calls) + SyncCalls(old(storage.files), identity, faults)
    ensures storage.files == RemoteAfterSync(old(storage.files), identity, faults)
    ensures !Listed(old(storage.files), faults) ==> r.Err? && dir.entries == old(dir.entries)
    // The index by hash covers every listed remote file, and the loading order is the new keys, then the up-to-date keys.
    ensures Listed(old(storage.files), faults) ==>
              && IndexedByHash(hasher, byHash, ListedHandles(old(storage.files), identity, faults), storage.files)
              && LoadOrder(old(dir.entries).Keys, byHash, order)
    // Success exactly when no step fails.
    ensures r.Ok? <==>
              && Listed(old(storage.files), faults)
              && SyncSucceeds(old(dir.entries), byHash, storage.files, order, faults, parse)
    // On success: the directory holds exactly the remote keys, and the view is the load of them.
    ensures r.Ok? ==> dir.entries == Synced(old(dir.entries), byHash, storage.files)
    ensures r.Ok? ==> dir.entries.Keys == RemoteHashes(hasher, ListedHandles(old(storage.files), identity, faults))
    ensures r.Ok? ==> r == LoadFiles(order, dir.entries, faults.read, parse)
    // A relisting that still shows nothing is kept: every cached file is stale, and the view is empty.
    ensures Listed(old(storage.files), faults) && old(storage.files) == map[] && faults.relistLags
              && old(dir.entries).Keys !! faults.remove
            ==> r == Ok([]) && dir.entries == map[]
    // Idempotence: a cache already in step with the remote is left as it is.
    ensures r.Ok? && old(dir.entries).Keys == RemoteHashes(hasher, ListedHandles(old(storage.files), identity, faults))
            ==> dir.entries == old(dir.entries)
    // Atomic visibility, on success and on failure alike.
    ensures AllSafe(old(dir.entries), dir.entries, byHash, storage.files)
  {
    byHash, order := map[], [];
    if faults.listLocal {
      return Err(ListLocalFailed), byHash, order;
    }
    var listed := ListRemote(storage, identity, faults);
    if listed.Err? {
      return Err(listed.error), byHash, order;
    }
    ghost var listedHandles := ListedHandles(old(storage.files), identity, faults);
    r, byHash, order := SyncListed(dir, storage, hasher, listed.value, listedHandles, parse, faults);
    if listedHandles == {} {
      NothingListed(old(dir.entries), byHash, storage.files, order, faults, parse);
    }
    if r.Ok? {
      SyncedKeys(old(dir.entries), byHash, storage.files);
      if old(dir.entries).Keys == byHash.Keys {
        SyncedIdempotent(old(dir.entries), byHash, storage.files);
      }
    }
  }

  /** Lines 184-198: read and parse every file named by `order`, in order,
      appending its records to the view. */
  method LoadCached<M>(dir: LocalDirectory, order: seq<string>, readFails: set<string>, parse: string -> Option<M>)
    returns (r: Result<seq<M>, CacheError>)
    ensures r == LoadFiles(order, dir.entries, readFails, parse)
  {
    var view: seq<M> := [];
    var i := 0;
    while i < |order|
      invariant 0 <= i <= |order|
      invariant LoadFiles(order[..i], dir.entries, readFails, parse) == Ok(view)
    {
      var h := order[i];
      assert order == order[..i] + order[i..];
      LoadFilesConcat(order[..i], order[i..], dir.entries, readFails, parse);
      if h !in dir.entries || h in readFails {
        return Err(ReadFailed(h));
      }
      var records := LoadMetadataLines(dir.entries[h], parse);
      if records.None? {
        return Err(ParseFailed(h));
      }
      assert order[..i + 1] == order[..i] + [h];
      LoadFilesConcat(order[..i], [h], dir.entries, readFails, parse);
      assert LoadFiles([h], dir.entries, readFails, parse) == Ok(records.value + []);
      assert records.value + [] == records.value;
      view := view + records.value;
      i := i + 1;
    }
    assert order[..i] == order;
    r := Ok(view);
  }
}
