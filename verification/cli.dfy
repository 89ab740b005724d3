/** The command-line rules with logic of their own: masking the API key in
    `show` (cmd/show.go) and the validation, defaulting and
    backup-then-apply order of `configure` (cmd/configure.go). */
module Commands {
  import opened Wrappers
  import opened Enumeration
  import opened TimeFormat
  import Store
  import Backups

  newtype byte = x: int | 0 <= x < 256

  /** "***" */
  const Stars: seq<byte> := [42, 42, 42]

  /** maskAPIKey: at most the first eight bytes of the key, then "***".
      Go's `len` and slicing count bytes, so the key is its bytes here. */
  function MaskAPIKey(key: seq<byte>): (r: seq<byte>)
    ensures 3 <= |r| <= 11 && r[|r| - 3..] == Stars
    ensures |r| - 3 <= |key| && r[..|r| - 3] == key[..|r| - 3]
    ensures |r| == 11 <==> |key| > 8
    ensures |r| == 3 <==> |key| <= 8
  {
    if |key| <= 8 then Stars else key[..8] + Stars
  }

  /** Two keys mask alike exactly when both are at most eight bytes long,
      or both are longer and share their first eight bytes: nothing past the
      eighth byte, and nothing of a short key, shows. */
  lemma MaskRevealsOnlyPrefix(a: seq<byte>, b: seq<byte>)
    ensures MaskAPIKey(a) == MaskAPIKey(b) <==> (|a| <= 8 && |b| <= 8) || (|a| > 8 && |b| > 8 && a[..8] == b[..8])
  {
    var ma, mb := MaskAPIKey(a), MaskAPIKey(b);
    if ma == mb && |a| > 8 {
      assert ma[..8] == a[..8] && mb[..8] == b[..8];
    }
  }

  /** What `show` prints for the API key. */
  datatype KeyDisplay = NotSet | Masked(shown: seq<byte>)

  /** The API-key line of `show`: masked when there is a key, "Not set"
      otherwise. */
  function ShowAPIKey(key: seq<byte>): (d: KeyDisplay)
    ensures d.NotSet? <==> key == []
    ensures d.Masked? ==> |d.shown| <= 11 && d.shown == MaskAPIKey(key)
  {
    if key == [] then NotSet else Masked(MaskAPIKey(key))
  }

  // ---------------------------------------------------------------------
  // configure

  /** The flags of `configure`; an absent flag is "". For --resource and
      --base-url the command line also records whether the flag was given at
      all, since `--resource=` gives the flag with an empty value. */
  datatype Flags = Flags(
    resource: string,
    resourceSet: bool,
    baseURL: string,
    baseURLSet: bool,
    apiKey: string,
    sonnetModel: string,
    haikuModel: string,
    opusModel: string)

  datatype ConfigureError =
    | NoTargetFlag     // "at least one of the flags in the group [resource base-url] is required"
    | ExclusiveTargetFlags   // "if any flags in the group [resource base-url] are set none of the others can be"
    | MissingTarget    // "either --resource or --base-url is required"
    | ConflictingTargets   // "cannot specify both --resource and --base-url, choose one"
    | ApplyFailed(cause: Store.StoreError)   // "failed to apply configuration"

  const DefaultSonnetModel := "claude-sonnet-4-5"
  const DefaultHaikuModel := "claude-haiku-4-5"
  const DefaultOpusModel := "claude-opus-4-1"
  const AutoBackupDescription := "Before configuring Azure Foundry"

  /** Exactly one of --resource and --base-url must be given. */
  function ValidateTarget(f: Flags): (r: Outcome<ConfigureError>)
    ensures r.Pass? <==> (f.resource == "") != (f.baseURL == "")
    ensures r == Fail(MissingTarget) <==> f.resource == "" && f.baseURL == ""
    ensures r == Fail(ConflictingTargets) <==> f.resource != "" && f.baseURL != ""
  {
    if f.resource == "" && f.baseURL == "" then Fail(MissingTarget)
    else if f.resource != "" && f.baseURL != "" then Fail(ConflictingTargets)
    else Pass
  }

  /** The flag groups of `configure`'s init, which the command-line parser
      checks before RunE: one of --resource and --base-url must be given,
      and not both. They look at whether a flag was given, not at its value;
      the one-required group is checked first. */
  function CheckFlagGroups(f: Flags): (r: Outcome<ConfigureError>)
    ensures r.Pass? <==> f.resourceSet != f.baseURLSet
    ensures r == Fail(NoTargetFlag) <==> !f.resourceSet && !f.baseURLSet
    ensures r == Fail(ExclusiveTargetFlags) <==> f.resourceSet && f.baseURLSet
  {
    if !f.resourceSet && !f.baseURLSet then Fail(NoTargetFlag)
    else if f.resourceSet && f.baseURLSet then Fail(ExclusiveTargetFlags)
    else Pass
  }

  /** All the validation `configure` does before its first effect: the flag
      groups, then RunE's own checks of the values. */
  function Validate(f: Flags): (r: Outcome<ConfigureError>)
    ensures r.Pass? <==> f.resourceSet != f.baseURLSet && (f.resource == "") != (f.baseURL == "")
    ensures CheckFlagGroups(f).Fail? ==> r == CheckFlagGroups(f)
    ensures CheckFlagGroups(f).Pass? ==> r == ValidateTarget(f)
  {
    if CheckFlagGroups(f).Fail? then CheckFlagGroups(f) else ValidateTarget(f)
  }

  /** A flag the command line did not see holds "". */
  predicate FlagsConsistent(f: Flags) {
    (!f.resourceSet ==> f.resource == "") && (!f.baseURLSet ==> f.baseURL == "")
  }

  /** Once the flag groups pass, RunE's check for both targets can no longer
      fail: only one of the two flags was given, so the other is "". */
  lemma ConflictUnreachable(f: Flags)
    requires FlagsConsistent(f)
    ensures Validate(f) != Fail(ConflictingTargets)
  {
  }

  /** `--resource=acme --base-url=` is refused: both flags were given, although
      RunE's own checks, which look only at the values, would let it through. */
  lemma SetButEmptyRefused(f: Flags, store: Store.Backend, dir: Backups.BackupDir, home: seq<string>,
                           recorded: DateTime, named: DateTime, mkdirOk: bool, writeOk: bool, order: seq<string>)
    requires f.resourceSet && f.baseURLSet && f.resource != "" && f.baseURL == ""
    requires IsEnumeration(order, Store.FoundryVars(ConfigFromFlags(f)).Keys)
    ensures ValidateTarget(f).Pass?
    ensures Configure(f, store, dir, home, recorded, named, mkdirOk, writeOk, order)
      == ConfigureRun(store, dir, None, Fail(ExclusiveTargetFlags))
  {
  }

  /** A model name, or the default when none was given. */
  function OrDefault(name: string, default: string): (r: string)
    requires default != ""
    ensures r != ""
    ensures name != "" ==> r == name
    ensures name == "" ==> r == default
  {
    if name == "" then default else name
  }

  /** The configuration `configure` applies. FoundryConfig has no base URL,
      so --base-url does not reach it. */
  function ConfigFromFlags(f: Flags): (cfg: Store.FoundryConfig)
    ensures cfg.resource == f.resource && cfg.apiKey == f.apiKey
    ensures cfg.sonnetModel != "" && cfg.haikuModel != "" && cfg.opusModel != ""
    ensures f.sonnetModel != "" ==> cfg.sonnetModel == f.sonnetModel
    ensures f.haikuModel != "" ==> cfg.haikuModel == f.haikuModel
    ensures f.opusModel != "" ==> cfg.opusModel == f.opusModel
    ensures f.sonnetModel == "" ==> cfg.sonnetModel == DefaultSonnetModel
    ensures f.haikuModel == "" ==> cfg.haikuModel == DefaultHaikuModel
    ensures f.opusModel == "" ==> cfg.opusModel == DefaultOpusModel
  {
    Store.FoundryConfig(
      f.resource,
      f.apiKey,
      OrDefault(f.sonnetModel, DefaultSonnetModel),
      OrDefault(f.haikuModel, DefaultHaikuModel),
      OrDefault(f.opusModel, DefaultOpusModel))
  }

  /** What a `configure` run leaves: the store, the backup directory, the
      warning printed when the backup failed, and the command's result. */
  datatype ConfigureRun = ConfigureRun(
    store: Store.Backend,
    dir: Backups.BackupDir,
    warning: Option<Backups.BackupError>,
    outcome: Outcome<ConfigureError>)

  /** `configure`: the flag groups and RunE's validation, then default the model names, take an
      automatic backup (whose failure is only a warning), then apply. */
  function Configure(f: Flags, store: Store.Backend, dir: Backups.BackupDir, home: seq<string>,
                     recorded: DateTime, named: DateTime, mkdirOk: bool, writeOk: bool, order: seq<string>)
    : (r: ConfigureRun)
    requires IsEnumeration(order, Store.FoundryVars(ConfigFromFlags(f)).Keys)
    ensures Validate(f).Fail? ==> r == ConfigureRun(store, dir, None, Validate(f))
    ensures r.outcome.Pass? <==>
      (Validate(f).Pass? && Store.Notify(store).Pass?
       && forall k :: k in Store.FoundryVars(ConfigFromFlags(f)) ==> k !in store.denied)
    ensures r.outcome.Fail? && Validate(f).Pass? ==>
      r.outcome == Fail(ApplyFailed(Store.ApplyFoundryConfig(store, ConfigFromFlags(f), order).1.error))
    ensures r.outcome.Pass? ==> r.store.vars == store.vars + Store.FoundryVars(ConfigFromFlags(f))
    ensures Validate(f).Pass? ==>
      (r.warning.Some? <==> Backups.CreateBackup(dir, store, home, AutoBackupDescription, recorded, named, mkdirOk, writeOk).Err?)
    ensures Validate(f).Pass? && r.warning.None? ==>
      && BackupName(named) in Backups.Entries(r.dir)
      && Backups.Entries(r.dir)[BackupName(named)]
         == Backups.File(Backups.Parsed(Backups.Backup(recorded, AutoBackupDescription, Store.GetAllVars(store))))
  {
    match Validate(f)
    case Fail(e) => ConfigureRun(store, dir, None, Fail(e))
    case Pass =>
      var cfg := ConfigFromFlags(f);
      var (dir', backedUp) := Backups.CreateAutoBackup(dir, store, home, AutoBackupDescription, recorded, named, mkdirOk, writeOk);
      var warning := if backedUp.Fail? then Some(backedUp.error) else None;
      var (store', applied) := Store.ApplyFoundryConfig(store, cfg, order);
      var outcome := if applied.Fail? then Fail(ApplyFailed(applied.error)) else Pass;
      ConfigureRun(store', dir', warning, outcome)
  }

  /** The backup is taken before anything changes, and its failure does not
      stop the configuration: the store and the result are the same whether
      or not the backup could be written. */
  lemma BackupFailureOnlyWarns(f: Flags, store: Store.Backend, dir: Backups.BackupDir, home: seq<string>,
                               recorded: DateTime, named: DateTime, mkdirOk: bool, writeOk: bool, order: seq<string>)
    requires IsEnumeration(order, Store.FoundryVars(ConfigFromFlags(f)).Keys)
    ensures var r := Configure(f, store, dir, home, recorded, named, mkdirOk, writeOk, order);
      var ok := Configure(f, store, dir, home, recorded, named, true, true, order);
      r.store == ok.store && r.outcome == ok.outcome
  {
  }

  /** A successful `configure` can be undone: restoring the automatic
      backup it took brings GetAllVars back to what it was before. */
  lemma ConfigureUndoable(f: Flags, store: Store.Backend, dir: Backups.BackupDir, home: seq<string>,
                          recorded: DateTime, named: DateTime, order: seq<string>, restoreOrder: seq<string>)
    requires IsEnumeration(order, Store.FoundryVars(ConfigFromFlags(f)).Keys)
    requires IsEnumeration(restoreOrder, Store.GetAllVars(store).Keys)
    requires forall k :: k in Store.ManagedKeys ==> k !in store.denied && k !in store.unreadable
    requires Store.Notify(store).Pass?
    requires Configure(f, store, dir, home, recorded, named, true, true, order).outcome.Pass?
    requires Configure(f, store, dir, home, recorded, named, true, true, order).warning.None?
    ensures var r := Configure(f, store, dir, home, recorded, named, true, true, order);
      var back := Backups.RestoreBackup(r.store, r.dir, BackupName(named), restoreOrder);
      back.1.Pass? && Store.GetAllVars(back.0) == Store.GetAllVars(store)
  {
    var r := Configure(f, store, dir, home, recorded, named, true, true, order);
    Backups.RestoreReproducesSnapshot(dir, store, r.store, home, AutoBackupDescription, recorded, named, restoreOrder);
  }

  /** With only --base-url, the URL given is dropped: the resource is empty
      and the URL written is the one derived from an empty resource name. */
  lemma BaseURLFlagDropped(f: Flags, store: Store.Backend, dir: Backups.BackupDir, home: seq<string>,
                           recorded: DateTime, named: DateTime, mkdirOk: bool, writeOk: bool, order: seq<string>)
    requires f.resource == "" && f.baseURL != ""
    requires IsEnumeration(order, Store.FoundryVars(ConfigFromFlags(f)).Keys)
    requires Store.BaseURLKey !in store.unreadable
    requires Configure(f, store, dir, home, recorded, named, mkdirOk, writeOk, order).outcome.Pass?
    ensures var r := Configure(f, store, dir, home, recorded, named, mkdirOk, writeOk, order);
      Store.GetCurrentConfig(r.store).baseURL == "https://" + ".services.ai.azure.com/models"
      && Store.GetCurrentConfig(r.store).resource == ""
  {
    var r := Configure(f, store, dir, home, recorded, named, mkdirOk, writeOk, order);
    var vars := Store.FoundryVars(ConfigFromFlags(f));
    assert r.store.vars == store.vars + vars;
    assert r.store.vars[Store.BaseURLKey] == Store.BaseURLFor("");
    EmptyResourceURL();
  }

  /** The URL derived from an empty resource name is the prefix followed
      directly by the suffix. */
  lemma EmptyResourceURL()
    ensures Store.BaseURLFor("") == "https://" + ".services.ai.azure.com/models"
  {
    EmptyMiddle("https://", ".services.ai.azure.com/models");
  }

  /** Drops the empty resource name from the middle of the URL, for
      EmptyResourceURL. */
  lemma EmptyMiddle<T>(a: seq<T>, b: seq<T>)
    ensures a + [] + b == a + b
  {
  }
}
