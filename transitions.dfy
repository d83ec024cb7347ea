/** What each command does to the application's state, as functions: the
    in-memory record list and the config store's `ucs.systems` key. The
    imperative methods of App.Application are proved to perform exactly these
    transitions; the lemmas here state what the transitions keep. */
module Transitions {
  import opened Strings
  import opened Records
  import Commands

  /** EncryptPassword and DecryptPassword under the program's fixed key; both
      are uninterpreted, and nothing assumes that one undoes the other. */
  datatype Crypto = Crypto(encrypt: string -> string, decrypt: string -> string)

  /** The in-memory list (Application.UCS) and the stored `ucs.systems` key
      (None while the key is not set). */
  datatype AppState = AppState(ucs: seq<UCSSystemInfo>, systems: Option<seq<Entry>>)

  /** The stored entries; an unset key reads as an empty list. */
  function StoredEntries(systems: Option<seq<Entry>>): seq<Entry> {
    match systems
    case None => []
    case Some(entries) => entries
  }

  /** getAllSystems: the list is rebuilt from the store. */
  function Reload(st: AppState): AppState {
    st.(ucs := RecordsOf(StoredEntries(st.systems)))
  }

  /** checkUCSExists: only when the key is set, reload and look for the trimmed IP. */
  function Check(st: AppState, ip: string): (AppState, bool) {
    if st.systems.Some? then
      var loaded := Reload(st);
      (loaded, HasTrimmedIp(loaded.ucs, ip))
    else (st, false)
  }

  /** saveConfig: the stored list is overwritten only when the in-memory list
      is non-empty. */
  function Save(st: AppState): AppState {
    if |st.ucs| > 0 then st.(systems := Some(EntriesOf(st.ucs))) else st
  }

  /** addUCSSystem. */
  function AddSystem(st: AppState, ip: string, username: string, password: string, encrypt: string -> string): AppState {
    var (checked, found) := Check(st, ip);
    if found then checked
    else if Addable(ip, username, password) then
      Save(checked.(ucs := checked.ucs + [NewRecord(ip, username, encrypt(password))]))
    else checked
  }

  /** updateUCSSystem. */
  function UpdateSystem(st: AppState, ip: string, username: string, password: string, encrypt: string -> string): AppState {
    var (checked, found) := Check(st, ip);
    if found then Save(checked.(ucs := Updated(checked.ucs, ip, username, encrypt(password))))
    else checked
  }

  /** deleteUCSSystem. */
  function DeleteSystem(st: AppState, ip: string): AppState {
    var (checked, found) := Check(st, ip);
    if found then Save(checked.(ucs := Deleted(checked.ucs, ip)))
    else checked
  }

  /** runAll: reload, probe every record, then fetch release data for the
      reachable ones. Nothing is saved. */
  function RunAllSystems(st: AppState, decrypt: string -> string, rm: Remote): AppState {
    var loaded := Reload(st);
    loaded.(ucs := Evaluated(Probed(loaded.ucs, decrypt, rm), rm))
  }

  /** processResponse: the state after the dispatched action. The show
      commands only print, but they reload the list on the way. */
  function Step(st: AppState, act: Commands.Action, c: Crypto, rm: Remote): AppState {
    match act
    case Run => RunAllSystems(st, c.decrypt, rm)
    case AddUcs(ip, username, password) => AddSystem(st, ip, username, password, c.encrypt)
    case UpdateUcs(ip, username, password) => UpdateSystem(st, ip, username, password, c.encrypt)
    case DeleteUcs(ip) => DeleteSystem(st, ip)
    case ShowUcs(ip) => Check(st, ip).0
    case ShowAll => Reload(st)
    case NoAction => st
    case IndexOutOfRange => st
  }

  /** While nothing is stored, nothing is listed in memory either: the state
      at start-up, and the one in which addUCSSystem's check is meaningful. */
  predicate Consistent(st: AppState) {
    st.systems.None? ==> st.ucs == []
  }

  /** The stored records have pairwise distinct trimmed IPs. */
  ghost predicate StoredUnique(st: AppState) {
    UniqueTrimmedIps(RecordsOf(StoredEntries(st.systems)))
  }

  lemma SaveKeepsUnique(st: AppState)
    requires UniqueTrimmedIps(st.ucs)
    requires |st.ucs| == 0 ==> StoredUnique(st)
    ensures StoredUnique(Save(st))
  {
    if |st.ucs| > 0 {
      ReadBack(st.ucs);
      UniqueByIps(st.ucs, RecordsOf(EntriesOf(st.ucs)));
    }
  }

  /** Every command keeps the stored trimmed IPs unique: add refuses an IP that
      is already stored, update changes no IP and delete only removes records. */
  lemma {:induction false} StepKeepsStoredUnique(st: AppState, act: Commands.Action, c: Crypto, rm: Remote)
    requires Consistent(st) && StoredUnique(st)
    ensures Consistent(Step(st, act, c, rm)) && StoredUnique(Step(st, act, c, rm))
  {
    var stored := RecordsOf(StoredEntries(st.systems));
    match act
    case AddUcs(ip, username, password) =>
      var (checked, found) := Check(st, ip);
      assert checked.ucs == stored;
      if !found && Addable(ip, username, password) {
        var r := NewRecord(ip, username, c.encrypt(password));
        AppendKeepsUnique(stored, r);
        SaveKeepsUnique(checked.(ucs := stored + [r]));
      }
    case UpdateUcs(ip, username, password) =>
      var (checked, found) := Check(st, ip);
      if found {
        UpdatedKeepsIps(stored, ip, username, c.encrypt(password));
        SaveKeepsUnique(checked.(ucs := Updated(stored, ip, username, c.encrypt(password))));
      }
    case DeleteUcs(ip) =>
      var (checked, found) := Check(st, ip);
      if found {
        DeletedKeepsUnique(stored, ip);
        SaveKeepsUnique(checked.(ucs := Deleted(stored, ip)));
      }
    case Run =>
    case ShowUcs(ip) =>
    case ShowAll =>
    case NoAction =>
    case IndexOutOfRange =>
  }

  /** Consistency is what makes the add-time check sound: with nothing stored,
      addUCSSystem does not look at the in-memory list, so a record listed
      only in memory can be added a second time. */
  lemma AddIgnoresUnsavedList(r: UCSSystemInfo, encrypt: string -> string)
    requires Addable(r.ip, r.username, r.password)
    ensures AddSystem(AppState([r], None), r.ip, r.username, r.password, encrypt).ucs
         == [r, NewRecord(r.ip, r.username, encrypt(r.password))]
  {
  }

  /** Deleting the only stored record empties the list in memory, but the
      save guard leaves the record in the store. */
  lemma DeletingLastRecordKeepsItStored(e: Entry)
    ensures var st := AppState([], Some([e]));
            var after := DeleteSystem(st, RecordOf(e).ip);
            after.ucs == [] && after.systems == st.systems
  {
    var st := AppState([], Some([e]));
    var loaded := RecordsOf([e]);
    assert loaded[0] == RecordOf(e);
    assert HasTrimmedIp(loaded, RecordOf(e).ip);
    assert Deleted(loaded, RecordOf(e).ip) == [];
  }

  /** The lookup trims, the deletion does not: a stored IP with surrounding
      white space is reported as present, yet deleting by its trimmed form
      removes nothing (the store is rewritten with the same records). */
  lemma TrimmedMatchIsNotDeleted(e: Entry, ip: string, before: string, after: string)
    requires before + after != [] && AllSpace(before) && AllSpace(after) && IsTrimmed(ip)
    requires Lookup(e, "url") == before + ip + after
    ensures var st := AppState([], Some([e]));
            && Check(st, ip).1
            && DeleteSystem(st, ip).ucs == RecordsOf([e])
            && DeleteSystem(st, ip).systems == Some(EntriesOf(RecordsOf([e])))
  {
    var loaded := RecordsOf([e]);
    assert loaded[0].ip == before + ip + after;
    TrimSpaceOfPadded(before, ip, after);
    TrimSpaceOfPadded([], ip, []);
    assert [] + ip + [] == ip;
    assert HasTrimmedIp(loaded, ip);
    assert |before + ip + after| > |ip|;
    DeletedNoMatch(loaded, ip);
  }
}
