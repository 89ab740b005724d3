/** The backup store (internal/backup/backup.go): JSON snapshots of the
    managed variables kept as files in one directory under the home
    directory. The directory is a map from file names to entries; a file's
    content is the record it decodes to, or why it does not decode. The two
    clock readings of createBackup, and whether creating the directory and
    writing the file succeed, are inputs. */
module Backups {
  import opened Wrappers
  import opened Enumeration
  import opened Text
  import opened TimeFormat
  import Store

  /** A snapshot as stored in a backup file. */
  datatype Backup = Backup(timestamp: DateTime, description: string, variables: map<string, string>)

  /** What reading and decoding a file yields. */
  datatype Content = Unreadable | Malformed | Parsed(backup: Backup)

  datatype Entry = Subdir(empty: bool) | File(content: Content)

  /** The backup directory: absent, or present with its entries (and
      whether its listing can be read). */
  datatype BackupDir = Missing | Present(listable: bool, entries: map<string, Entry>)

  datatype BackupError =
    | DirFailed          // "failed to create backup directory"
    | MarshalFailed      // "failed to marshal backup"
    | WriteFailed        // "failed to write backup file"
    | ListFailed         // "failed to read backup directory"
    | ReadFailed         // "failed to read backup file"
    | ParseFailed        // "failed to parse backup file"
    | ClearFailed(cause: Store.StoreError)    // "failed to clear existing configuration"
    | RestoreFailed(cause: Store.StoreError)  // "failed to restore variables"
    | RemoveFailed

  /** The summary ListBackups gives for one backup file. */
  datatype BackupInfo = BackupInfo(
    filename: string,
    timestamp: DateTime,
    description: string,
    useFoundry: bool,
    resource: string)

  const BackupDirName := ".claude-code-backups"

  /** GetBackupDir: the backup directory under the home directory, as path elements. */
  function GetBackupDir(home: seq<string>): (path: seq<string>)
    ensures |path| == |home| + 1 && path[..|home|] == home && path[|home|] == BackupDirName
  {
    home + [BackupDirName]
  }

  /** `filepath.Base` of a path given as elements. */
  function Base(path: seq<string>): string {
    if path == [] then "." else path[|path| - 1]
  }

  /** The entries of the directory; a missing directory has none. */
  function Entries(dir: BackupDir): map<string, Entry> {
    if dir.Present? then dir.entries else map[]
  }

  /** A Go map lookup: a missing key gives "". */
  function Lookup(m: map<string, string>, k: string): (v: string)
    ensures k in m ==> v == m[k]
    ensures k !in m ==> v == ""
  {
    if k in m then m[k] else ""
  }

  // ---------------------------------------------------------------------
  // Creating

  /** json.Marshal of a Backup fails only on its time: Go refuses to
      encode a year outside 0 to 9999. */
  predicate Marshals(bk: Backup) {
    0 <= bk.timestamp.year <= 9999
  }

  /** ensureBackupDir's `os.MkdirAll`: when it succeeds the directory exists
      afterwards, empty if it was not there before. */
  function EnsureDir(dir: BackupDir, mkdirOk: bool): (d: BackupDir)
    ensures mkdirOk ==> d.Present?
    ensures Entries(d) == Entries(dir)
    ensures dir.Present? ==> d == dir
  {
    if mkdirOk && dir.Missing? then Present(true, map[]) else dir
  }

  /** createBackup: make the directory, snapshot GetAllVars with the first
      clock reading `recorded`, name the file after the second reading
      `named`, encode, write. Returns the new directory and the file's path. */
  function CreateBackup(dir: BackupDir, store: Store.Backend, home: seq<string>, description: string,
                        recorded: DateTime, named: DateTime, mkdirOk: bool, writeOk: bool)
    : (r: Result<(BackupDir, seq<string>), BackupError>)
    ensures !mkdirOk ==> r == Err(DirFailed)
    ensures mkdirOk && !(0 <= recorded.year <= 9999) ==> r == Err(MarshalFailed)
    ensures mkdirOk && 0 <= recorded.year <= 9999 && r.Err? ==> r.error == WriteFailed
    ensures mkdirOk && 0 <= recorded.year <= 9999 && writeOk && BackupName(named) !in Entries(dir) ==> r.Ok?
    ensures r.Err? ==> r.error in {DirFailed, MarshalFailed, WriteFailed}
    ensures r.Ok? <==> mkdirOk && 0 <= recorded.year <= 9999 && writeOk
                       && !(BackupName(named) in Entries(dir) && Entries(dir)[BackupName(named)].Subdir?)
    ensures r.Ok? ==> r.value.1 == GetBackupDir(home) + [BackupName(named)]
    ensures r.Ok? ==> r.value.0.Present?
    ensures r.Ok? ==>
      r.value.0.entries == Entries(dir)[BackupName(named) := File(Parsed(Backup(recorded, description, Store.GetAllVars(store))))]
  {
    if !mkdirOk then Err(DirFailed)
    else
      var d := EnsureDir(dir, mkdirOk);
      var bk := Backup(recorded, description, Store.GetAllVars(store));
      var name := BackupName(named);
      if !Marshals(bk) then Err(MarshalFailed)
      else if !writeOk || (name in d.entries && d.entries[name].Subdir?) then Err(WriteFailed)
      else Ok((d.(entries := d.entries[name := File(Parsed(bk))]), GetBackupDir(home) + [name]))
  }

  /** CreateManualBackup: the base name of the file createBackup wrote. */
  function CreateManualBackup(dir: BackupDir, store: Store.Backend, home: seq<string>, description: string,
                              recorded: DateTime, named: DateTime, mkdirOk: bool, writeOk: bool)
    : (r: Result<(BackupDir, string), BackupError>)
    ensures r.Ok? ==> r.value.1 == BackupName(named)
    ensures r.Ok? <==> CreateBackup(dir, store, home, description, recorded, named, mkdirOk, writeOk).Ok?
    ensures r.Err? ==> r.error == CreateBackup(dir, store, home, description, recorded, named, mkdirOk, writeOk).error
  {
    match CreateBackup(dir, store, home, description, recorded, named, mkdirOk, writeOk)
    case Err(e) => Err(e)
    case Ok((d, path)) => Ok((d, Base(path)))
  }

  /** CreateAutoBackup: createBackup with only its error kept. A failure
      adds no file, although the directory may have been created first. */
  function CreateAutoBackup(dir: BackupDir, store: Store.Backend, home: seq<string>, description: string,
                            recorded: DateTime, named: DateTime, mkdirOk: bool, writeOk: bool)
    : (r: (BackupDir, Outcome<BackupError>))
    ensures r.1.Pass? <==> CreateBackup(dir, store, home, description, recorded, named, mkdirOk, writeOk).Ok?
    ensures r.1.Fail? ==> r.0 == EnsureDir(dir, mkdirOk) && Entries(r.0) == Entries(dir)
  {
    match CreateBackup(dir, store, home, description, recorded, named, mkdirOk, writeOk)
    case Err(e) => (EnsureDir(dir, mkdirOk), Fail(e))
    case Ok((d, _)) => (d, Pass)
  }

  /** Two backups named in the same second share one file: the second
      replaces the first, which is lost. */
  lemma SameSecondOverwrites(dir: BackupDir, store1: Store.Backend, store2: Store.Backend, home: seq<string>,
                             desc1: string, desc2: string, rec1: DateTime, rec2: DateTime, t1: DateTime, t2: DateTime)
    requires Valid(t1) && Valid(t2) && SameSecond(t1, t2)
    requires CreateBackup(dir, store1, home, desc1, rec1, t1, true, true).Ok?
    ensures var (d1, p1) := CreateBackup(dir, store1, home, desc1, rec1, t1, true, true).value;
      var r2 := CreateBackup(d1, store2, home, desc2, rec2, t2, true, true);
      (r2.Ok? <==> 0 <= rec2.year <= 9999)
      && (r2.Ok? ==>
            r2.value.1 == p1
            && r2.value.0.entries == Entries(dir)[BackupName(t1) := File(Parsed(Backup(rec2, desc2, Store.GetAllVars(store2))))])
  {
    BackupNameSameSecond(t1, t2);
  }

  /** Backups named in different seconds both stay in the directory. */
  lemma DifferentSecondsKeepBoth(dir: BackupDir, store1: Store.Backend, store2: Store.Backend, home: seq<string>,
                                 desc1: string, desc2: string, rec1: DateTime, rec2: DateTime, t1: DateTime, t2: DateTime)
    requires Valid(t1) && Valid(t2) && !SameSecond(t1, t2)
    requires CreateBackup(dir, store1, home, desc1, rec1, t1, true, true).Ok?
    requires CreateBackup(CreateBackup(dir, store1, home, desc1, rec1, t1, true, true).value.0,
                          store2, home, desc2, rec2, t2, true, true).Ok?
    ensures var d2 := CreateBackup(CreateBackup(dir, store1, home, desc1, rec1, t1, true, true).value.0,
                                   store2, home, desc2, rec2, t2, true, true).value.0;
      BackupName(t1) != BackupName(t2)
      && d2.entries[BackupName(t1)] == File(Parsed(Backup(rec1, desc1, Store.GetAllVars(store1))))
      && d2.entries[BackupName(t2)] == File(Parsed(Backup(rec2, desc2, Store.GetAllVars(store2))))
  {
    BackupNameSameSecond(t1, t2);
  }

  // ---------------------------------------------------------------------
  // Listing

  /** `filepath.Ext` with '/' as the separator: the suffix from the last
      '.' of the final element, or "" when it has none. */
  function Ext(path: string): (r: string)
    ensures r == [] || (r[0] == '.' && HasSuffix(path, r))
  {
    ExtBefore(path, |path|)
  }

  /** Ext's backwards scan over `path[..i]`. */
  function ExtBefore(path: string, i: nat): (r: string)
    requires i <= |path|
    ensures r == [] || (r[0] == '.' && |r| <= |path| && r == path[|path| - |r|..])
    decreases i
  {
    if i == 0 || path[i - 1] == '/' then ""
    else if path[i - 1] == '.' then path[i - 1..]
    else ExtBefore(path, i - 1)
  }

  /** A name has extension ".json" exactly when it ends in ".json"; no
      "backup_" prefix is needed. */
  lemma ExtJson(name: string)
    ensures Ext(name) == ".json" <==> HasSuffix(name, ".json")
  {
    if HasSuffix(name, ".json") {
      var n := |name|;
      assert name[n - 5..] == ".json";
      assert name[n - 1] == 'n' && name[n - 2] == 'o' && name[n - 3] == 's' && name[n - 4] == 'j' && name[n - 5] == '.';
      assert ExtBefore(name, n - 4) == name[n - 5..];
      assert ExtBefore(name, n - 3) == ExtBefore(name, n - 4);
      assert ExtBefore(name, n - 2) == ExtBefore(name, n - 3);
      assert ExtBefore(name, n - 1) == ExtBefore(name, n - 2);
      assert ExtBefore(name, n) == ExtBefore(name, n - 1);
    }
  }

  /** The entries ListBackups reports: regular files named *.json that
      can be read and decoded. */
  predicate IsBackupEntry(name: string, e: Entry) {
    e.File? && Ext(name) == ".json" && e.content.Parsed?
  }

  /** The summary of the backup in file `name`. */
  function InfoOf(name: string, bk: Backup): (info: BackupInfo)
    ensures info.filename == name && info.timestamp == bk.timestamp && info.description == bk.description
    ensures info.useFoundry <==> Store.UseFoundryKey in bk.variables && bk.variables[Store.UseFoundryKey] == "true"
    ensures Store.ResourceKey in bk.variables ==> info.resource == bk.variables[Store.ResourceKey]
    ensures Store.ResourceKey !in bk.variables ==> info.resource == ""
  {
    BackupInfo(name, bk.timestamp, bk.description,
               Lookup(bk.variables, Store.UseFoundryKey) == "true",
               Lookup(bk.variables, Store.ResourceKey))
  }

  /** `x` is the summary of a backup file of `entries`. */
  predicate ListedFrom(entries: map<string, Entry>, x: BackupInfo) {
    && x.filename in entries
    && IsBackupEntry(x.filename, entries[x.filename])
    && x == InfoOf(x.filename, entries[x.filename].content.backup)
  }

  /** The filtering loop of ListBackups over the names in `listing`. */
  function Collect(entries: map<string, Entry>, listing: seq<string>): (r: seq<BackupInfo>)
    requires forall i :: 0 <= i < |listing| ==> listing[i] in entries
    ensures forall x :: x in r <==> x.filename in listing && ListedFrom(entries, x)
    ensures (forall i, j :: 0 <= i < j < |listing| ==> listing[i] != listing[j])
            ==> forall i, j :: 0 <= i < j < |r| ==> r[i].filename != r[j].filename
    decreases |listing|
  {
    if listing == [] then []
    else
      var n := listing[0];
      var rest := Collect(entries, listing[1..]);
      assert forall m :: m in listing <==> m == n || m in listing[1..];
      if IsBackupEntry(n, entries[n]) then [InfoOf(n, entries[n].content.backup)] + rest else rest
  }

  /** Newest first: no later element is after an earlier one. */
  predicate NewestFirst(s: seq<BackupInfo>) {
    forall i, j :: 0 <= i < j < |s| ==> !After(s[j].timestamp, s[i].timestamp)
  }

  /** Puts `x` into a list sorted newest first. */
  function Insert(x: BackupInfo, s: seq<BackupInfo>): (r: seq<BackupInfo>)
    requires NewestFirst(s)
    ensures NewestFirst(r)
    ensures multiset(r) == multiset(s) + multiset{x}
    decreases |s|
  {
    if s == [] || !After(s[0].timestamp, x.timestamp) then
      [x] + s
    else
      var rest := Insert(x, s[1..]);
      assert s == [s[0]] + s[1..];
      forall j | 0 <= j < |rest|
        ensures !After(rest[j].timestamp, s[0].timestamp)
      {
        assert rest[j] in multiset(rest);
        if rest[j] != x {
          assert rest[j] in s[1..];
        }
      }
      LeadingNewest(s[0], rest);
      [s[0]] + rest
  }

  /** An element no older than every element of a sorted list can go in front of it. */
  lemma LeadingNewest(x: BackupInfo, s: seq<BackupInfo>)
    requires NewestFirst(s)
    requires forall j :: 0 <= j < |s| ==> !After(s[j].timestamp, x.timestamp)
    ensures NewestFirst([x] + s)
  {
    var r := [x] + s;
    forall i, j | 0 <= i < j < |r|
      ensures !After(r[j].timestamp, r[i].timestamp)
    {
      if i > 0 {
        assert r[i] == s[i - 1] && r[j] == s[j - 1];
      }
    }
  }

  /** sort.Slice with `After` as its order. Go's sort is not stable; an
      insertion sort is one of the orders it may produce. */
  function SortNewestFirst(s: seq<BackupInfo>): (r: seq<BackupInfo>)
    ensures NewestFirst(r)
    ensures multiset(r) == multiset(s)
    decreases |s|
  {
    if s == [] then []
    else
      assert s == [s[0]] + s[1..];
      Insert(s[0], SortNewestFirst(s[1..]))
  }

  /** ListBackups: a missing directory gives an empty list, an unreadable
      one an error; otherwise every decodable *.json file, newest first. The
      directory listing `listing` is the order os.ReadDir returns. */
  function ListBackups(dir: BackupDir, listing: seq<string>): (r: Result<seq<BackupInfo>, BackupError>)
    requires dir.Present? ==> IsEnumeration(listing, dir.entries.Keys)
    ensures dir.Missing? ==> r == Ok([])
    ensures dir.Present? && !dir.listable ==> r == Err(ListFailed)
    ensures dir.Present? && dir.listable ==> r.Ok?
    ensures r.Ok? ==> NewestFirst(r.value)
    ensures r.Ok? && dir.Present? ==> multiset(r.value) == multiset(Collect(dir.entries, listing))
  {
    match dir
    case Missing => Ok([])
    case Present(listable, entries) =>
      if !listable then Err(ListFailed) else Ok(SortNewestFirst(Collect(entries, listing)))
  }

  /** The list holds exactly the summaries of the backup files, each once. */
  lemma ListBackupsExact(dir: BackupDir, listing: seq<string>)
    requires dir.Present? && dir.listable && IsEnumeration(listing, dir.entries.Keys)
    ensures var r := ListBackups(dir, listing).value;
      && (forall x :: x in r <==> ListedFrom(dir.entries, x))
      && (forall x :: multiset(r)[x] <= 1)
  {
    var c := Collect(dir.entries, listing);
    var r := ListBackups(dir, listing).value;
    forall x
      ensures x in r <==> ListedFrom(dir.entries, x)
      ensures multiset(r)[x] <= 1
    {
      assert x in r <==> x in multiset(r);
      assert x in c <==> x in multiset(c);
      DistinctCount(c, x);
    }
  }

  /** A list without two summaries of one file holds each summary at most once. */
  lemma {:induction false} DistinctCount(c: seq<BackupInfo>, x: BackupInfo)
    requires forall i, j :: 0 <= i < j < |c| ==> c[i].filename != c[j].filename
    ensures multiset(c)[x] <= 1
    decreases |c|
  {
    if c != [] {
      assert c == [c[0]] + c[1..];
      DistinctCount(c[1..], x);
      if c[0] == x {
        assert x !in c[1..];
      }
    }
  }

  // ---------------------------------------------------------------------
  // Restoring and deleting

  /** Reading and decoding the file `filename` of the directory. */
  function ReadBackup(dir: BackupDir, filename: string): (r: Result<Backup, BackupError>)
    ensures r.Ok? <==> filename in Entries(dir) && Entries(dir)[filename].File? && Entries(dir)[filename].content.Parsed?
    ensures r.Ok? ==> r.value == Entries(dir)[filename].content.backup
    ensures r.Err? ==> r.error in {ReadFailed, ParseFailed}
    ensures r == Err(ParseFailed) <==> filename in Entries(dir) && Entries(dir)[filename] == File(Malformed)
  {
    var entries := Entries(dir);
    if filename !in entries then Err(ReadFailed)
    else match entries[filename]
      case Subdir(_) => Err(ReadFailed)
      case File(Unreadable) => Err(ReadFailed)
      case File(Malformed) => Err(ParseFailed)
      case File(Parsed(bk)) => Ok(bk)
  }

  /** The managed names RollbackToDefault manages to remove. */
  function Cleared(b: Store.Backend): set<string> {
    set k | k in Store.ManagedKeys && k !in b.denied
  }

  /** RestoreBackup: read the snapshot, then put it in place of the
      managed variables. `order` is the order SetAllVars visits the
      snapshot's keys in. */
  function RestoreBackup(store: Store.Backend, dir: BackupDir, filename: string, order: seq<string>)
    : (r: (Store.Backend, Outcome<BackupError>))
    requires ReadBackup(dir, filename).Ok? ==> IsEnumeration(order, ReadBackup(dir, filename).value.variables.Keys)
    ensures ReadBackup(dir, filename).Err? ==> r == (store, Fail(ReadBackup(dir, filename).error))
    ensures Store.SameSettings(r.0, store)
    ensures r.1.Pass? <==>
      (ReadBackup(dir, filename).Ok? && Store.Notify(store).Pass?
       && forall k :: k in ReadBackup(dir, filename).value.variables ==> k !in store.denied)
    ensures ReadBackup(dir, filename).Ok? && Store.Notify(store).Fail? ==> r.1 == Fail(ClearFailed(Store.NotifyFailed))
    ensures r.1.Pass? ==> r.0.vars == (store.vars - Cleared(store)) + ReadBackup(dir, filename).value.variables
  {
    match ReadBackup(dir, filename)
    case Err(e) => (store, Fail(e))
    case Ok(bk) =>
      PutSnapshotPasses(store, bk.variables, order);
      PutSnapshotVars(store, bk.variables, order);
      PutSnapshot(store, bk.variables, order)
  }

  /** The part of RestoreBackup after the read: roll back every managed
      variable, then set the snapshot's variables when there are any. */
  function PutSnapshot(store: Store.Backend, snap: map<string, string>, order: seq<string>)
    : (r: (Store.Backend, Outcome<BackupError>))
    requires IsEnumeration(order, snap.Keys)
    ensures Store.SameSettings(r.0, store)
    ensures Store.Notify(store).Fail? ==> r.1 == Fail(ClearFailed(Store.NotifyFailed))
  {
    var rolled := Store.RollbackToDefault(store);
    var b1 := rolled.0;
    assert Store.Notify(b1) == Store.Notify(store);
    if rolled.2.Fail? then (b1, Fail(ClearFailed(rolled.2.error)))
    else if |snap| == 0 then
      assert snap == map[];
      (b1, Pass)
    else
      var applied := Store.SetAllVars(b1, snap, order);
      (applied.0, if applied.1.Fail? then Fail(RestoreFailed(applied.1.error)) else Pass)
  }

  /** Putting a snapshot in place succeeds exactly when the change can be
      announced and none of the snapshot's names is protected. */
  lemma PutSnapshotPasses(store: Store.Backend, snap: map<string, string>, order: seq<string>)
    requires IsEnumeration(order, snap.Keys)
    ensures PutSnapshot(store, snap, order).1.Pass? <==>
      Store.Notify(store).Pass? && forall k :: k in snap ==> k !in store.denied
  {
    var b1 := Store.RollbackToDefault(store).0;
    assert Store.Notify(b1) == Store.Notify(store);
  }

  /** After a successful put, the managed names the rollback removed are
      gone and the snapshot's entries are set. */
  lemma PutSnapshotVars(store: Store.Backend, snap: map<string, string>, order: seq<string>)
    requires IsEnumeration(order, snap.Keys)
    ensures PutSnapshot(store, snap, order).1.Pass? ==>
      PutSnapshot(store, snap, order).0.vars == (store.vars - Cleared(store)) + snap
  {
    RollbackRemovesCleared(store);
    var b1 := Store.RollbackToDefault(store).0;
    if snap == map[] {
      EmptyUnion(b1.vars);
    }
  }

  /** A rollback removes exactly the managed names it may remove. */
  lemma RollbackRemovesCleared(store: Store.Backend)
    ensures Store.RollbackToDefault(store).0.vars == store.vars - Cleared(store)
  {
    Store.RollbackClears(store);
    var after := Store.RollbackToDefault(store).0.vars;
    assert forall k :: k in after ==> k in store.vars;
  }

  /** Rolling back and then setting a GetAllVars snapshot reads back as
      that snapshot, when every managed name can be removed and read. */
  lemma ClearedThenSet(later: Store.Backend, final: Store.Backend, snap: map<string, string>)
    requires forall k :: k in Store.ManagedKeys ==> k !in later.denied && k !in final.unreadable
    requires forall k :: k in snap ==> k in Store.ManagedKeys && snap[k] != ""
    requires final.vars == (later.vars - Cleared(later)) + snap
    ensures Store.GetAllVars(final) == snap
  {
    var got := Store.GetAllVars(final);
    forall k | k in Store.ManagedKeys
      ensures Store.ValueOf(final, k) == Lookup(snap, k)
    {
      assert k in Cleared(later);
    }
    assert forall k :: k in got <==> k in snap;
  }

  /** Restoring a backup reproduces the variables it was taken from: after
      creating a backup, however the store has changed since, restoring that
      file makes GetAllVars what it was at creation, provided no managed
      name is protected or unreadable and the change can be announced. */
  lemma RestoreReproducesSnapshot(dir: BackupDir, store: Store.Backend, later: Store.Backend, home: seq<string>,
                                  description: string, recorded: DateTime, named: DateTime, order: seq<string>)
    requires CreateBackup(dir, store, home, description, recorded, named, true, true).Ok?
    requires forall k :: k in Store.ManagedKeys ==> k !in later.denied && k !in later.unreadable
    requires Store.Notify(later).Pass?
    requires IsEnumeration(order, Store.GetAllVars(store).Keys)
    ensures var d := CreateBackup(dir, store, home, description, recorded, named, true, true).value.0;
      var r := RestoreBackup(later, d, BackupName(named), order);
      r.1 == Pass && Store.GetAllVars(r.0) == Store.GetAllVars(store)
  {
    var d := CreateBackup(dir, store, home, description, recorded, named, true, true).value.0;
    var snap := Store.GetAllVars(store);
    assert ReadBackup(d, BackupName(named)) == Ok(Backup(recorded, description, snap));
    var r := RestoreBackup(later, d, BackupName(named), order);
    assert r.1 == Pass;
    ClearedThenSet(later, r.0, snap);
  }

  /** DeleteBackup: os.Remove of the file. A missing name or a non-empty
      directory is an error, and so is a refusal by the file system
      (`removeOk` false, such as a denied permission); an error changes
      nothing. */
  function DeleteBackup(dir: BackupDir, filename: string, removeOk: bool): (r: (BackupDir, Outcome<BackupError>))
    ensures r.1.Pass? <==> filename in Entries(dir) && Entries(dir)[filename] != Subdir(false) && removeOk
    ensures r.1.Fail? ==> r == (dir, Fail(RemoveFailed))
    ensures r.1.Pass? ==> r.0.Present? && r.0.listable == dir.listable && r.0.entries == Entries(dir) - {filename}
  {
    if filename in Entries(dir) && Entries(dir)[filename] != Subdir(false) && removeOk then
      (dir.(entries := dir.entries - {filename}), Pass)
    else (dir, Fail(RemoveFailed))
  }

  /** After a deletion the list no longer mentions the file, and every
      other backup is still listed. */
  lemma DeleteUnlists(dir: BackupDir, filename: string, removeOk: bool, listing: seq<string>, listing': seq<string>)
    requires dir.Present? && dir.listable && IsEnumeration(listing, dir.entries.Keys)
    requires DeleteBackup(dir, filename, removeOk).1.Pass?
    requires IsEnumeration(listing', DeleteBackup(dir, filename, removeOk).0.entries.Keys)
    ensures var before := ListBackups(dir, listing).value;
      var after := ListBackups(DeleteBackup(dir, filename, removeOk).0, listing').value;
      (forall x :: x in after ==> x.filename != filename)
      && (forall x :: x in before && x.filename != filename <==> x in after)
  {
    var d' := DeleteBackup(dir, filename, removeOk).0;
    ListBackupsExact(dir, listing);
    ListBackupsExact(d', listing');
    assert d'.entries == dir.entries - {filename};
    forall x
      ensures ListedFrom(d'.entries, x) <==> ListedFrom(dir.entries, x) && x.filename != filename
    {
    }
  }
}
