/** The Application object of app/structs.go with the methods of app/flags.go
    and app/app.go that change it. The record list is a sequence field that
    the methods reassign, as the Go code reassigns its slice; the config store
    is reduced to its `ucs.systems` key. Each method is proved to perform the
    transition Transitions gives for it. */
module App {
  import opened Strings
  import opened Records
  import opened Transitions
  import Commands
  import ConfigFile

  class Application {
    /** Path of the YAML config file. */
    const configFile: string
    /** Whether debug-level messages are logged. */
    const debug: bool
    /** The config store's `ucs.systems` key; None while it is not set. */
    var systems: Option<seq<Entry>>
    /** The in-memory record list (Application.UCS). */
    var ucs: seq<UCSSystemInfo>
    /** Name and type given to the config reader by LoadConfig. */
    var configName: string
    var configExtension: string
    /** Password encryption under the program's fixed key. */
    const crypto: Crypto

    function State(): AppState
      reads this
    {
      AppState(ucs, systems)
    }

    ghost predicate Valid()
      reads this
    {
      Consistent(State())
    }

    /** The application as it starts: nothing listed, nothing stored. */
    constructor (configFile: string, debug: bool, crypto: Crypto)
      ensures this.configFile == configFile && this.debug == debug && this.crypto == crypto
      ensures ucs == [] && systems == None && configName == "" && configExtension == ""
      ensures Valid()
    {
      this.configFile := configFile;
      this.debug := debug;
      this.crypto := crypto;
      systems := None;
      ucs := [];
      configName := "";
      configExtension := "";
    }

    /** The predicate Log and LogInfo share: a message flagged as debug-only is
        emitted only in debug mode, any other message always. */
    function Emits(debugOnly: bool): (emit: bool)
      reads this
      ensures emit <==> !debugOnly || debug
    {
      (debugOnly && debug) || !debugOnly
    }

    /** Derives the config name and type from the file path, then takes the
        `ucs.systems` key of the file that was read (`stored`). */
    method LoadConfig(stored: Option<seq<Entry>>)
      modifies this`configName, this`configExtension, this`systems
      ensures (configName, configExtension) == ConfigFile.NameParts(configFile)
      ensures systems == stored
    {
      var parts := ConfigFile.NameParts(configFile);
      configName, configExtension := parts.0, parts.1;
      systems := stored;
    }

    /** addUCS: appends a new record with the encrypted password, or refuses a
        blank field and leaves the list alone. */
    method AddUcs(ip: string, username: string, password: string) returns (ok: bool)
      modifies this`ucs
      ensures ok <==> Addable(ip, username, password)
      ensures ok ==> ucs == old(ucs) + [NewRecord(ip, username, crypto.encrypt(password))]
      ensures !ok ==> ucs == old(ucs)
    {
      if ip != "" {
        if username != "" {
          if password != "" {
            var tmp := Zero;
            tmp := tmp.(ip := ip);
            tmp := tmp.(username := username);
            tmp := tmp.(password := crypto.encrypt(password));
            ucs := ucs + [tmp];
            return true;
          }
        }
      }
      return false;
    }

    /** updateUCS: every record whose IP is exactly `ip` gets the new username
        and encrypted password. */
    method UpdateUcs(ip: string, username: string, password: string) returns (ok: bool)
      modifies this`ucs
      ensures ok
      ensures ucs == Updated(old(ucs), ip, username, crypto.encrypt(password))
    {
      var i := 0;
      while i < |ucs|
        invariant 0 <= i <= |ucs| == |old(ucs)|
        invariant forall k :: 0 <= k < i ==> ucs[k] == Updated(old(ucs), ip, username, crypto.encrypt(password))[k]
        invariant forall k :: i <= k < |ucs| ==> ucs[k] == old(ucs)[k]
      {
        if ucs[i].ip == ip {
          ucs := ucs[i := ucs[i].(username := username)];
          ucs := ucs[i := ucs[i].(password := crypto.encrypt(password))];
        }
        i := i + 1;
      }
      return true;
    }

    /** deleteUCS: splices out each matching record it examines, then moves
        on, so the record after a removed one is never examined. */
    method DeleteUcs(ip: string) returns (ok: bool)
      modifies this`ucs
      ensures ok
      ensures ucs == Deleted(old(ucs), ip)
    {
      var i := 0;
      while i < |ucs|
        invariant 0 <= i <= |ucs| + 1
        invariant i <= |ucs| ==> Deleted(old(ucs), ip) == ucs[..i] + Deleted(ucs[i..], ip)
        invariant i == |ucs| + 1 ==> Deleted(old(ucs), ip) == ucs
        decreases |ucs| + 1 - i
      {
        if ucs[i].ip == ip {
          DeleteLoopRemoves(ucs, ip, i);
          ucs := ucs[..i] + ucs[i + 1..];
        } else {
          DeleteLoopKeeps(ucs, ip, i);
        }
        i := i + 1;
      }
      if i == |ucs| {
        assert ucs[..i] == ucs && ucs[i..] == [];
      }
      return true;
    }

    /** readSystems: replaces the list by one record per stored entry. */
    method ReadSystems(entries: seq<Entry>) returns (ok: bool)
      modifies this`ucs
      ensures ok
      ensures ucs == RecordsOf(entries)
    {
      ucs := [];
      var i := 0;
      while i < |entries|
        invariant 0 <= i <= |entries|
        invariant ucs == RecordsOf(entries[..i])
      {
        var tmp := Zero;
        tmp := tmp.(ip := Lookup(entries[i], "url"));
        tmp := tmp.(username := Lookup(entries[i], "username"));
        tmp := tmp.(password := Lookup(entries[i], "password"));
        assert entries[..i + 1] == entries[..i] + [entries[i]];
        ucs := ucs + [tmp];
        i := i + 1;
      }
      assert entries[..i] == entries;
      return true;
    }

    /** getAllSystems. */
    method GetAllSystems()
      modifies this`ucs
      ensures State() == Reload(old(State()))
    {
      var tmp := StoredEntries(systems);
      var _ := ReadSystems(tmp);
    }

    /** checkUCSExists: when the key is set, reloads the list and reports
        whether some record's trimmed IP is the trimmed `ip`; otherwise false. */
    method CheckUcsExists(ip: string) returns (found: bool)
      modifies this`ucs
      ensures !old(systems).Some? ==> !found && ucs == old(ucs)
      ensures old(systems).Some? ==> ucs == RecordsOf(old(systems).value) && (found <==> HasTrimmedIp(ucs, ip))
      ensures (State(), found) == Check(old(State()), ip)
    {
      if systems.Some? {
        GetAllSystems();
        var i := 0;
        while i < |ucs|
          invariant 0 <= i <= |ucs|
          invariant forall k :: 0 <= k < i ==> TrimSpace(ucs[k].ip) != TrimSpace(ip)
        {
          if TrimSpace(ucs[i].ip) == TrimSpace(ip) {
            return true;
          }
          i := i + 1;
        }
        return false;
      }
      return false;
    }

    /** processSystems: one string map per record, in list order. */
    method ProcessSystems() returns (items: seq<Entry>)
      ensures items == EntriesOf(ucs)
    {
      items := [];
      var i := 0;
      while i < |ucs|
        invariant 0 <= i <= |ucs|
        invariant items == EntriesOf(ucs[..i])
      {
        var item: Entry := map[];
        item := item["url" := ucs[i].ip];
        item := item["username" := ucs[i].username];
        item := item["password" := ucs[i].password];
        assert ucs[..i + 1] == ucs[..i] + [ucs[i]];
        items := items + [item];
        i := i + 1;
      }
      assert ucs[..i] == ucs;
    }

    /** saveConfig: overwrites the stored list only when the in-memory list is
        non-empty; writing the file itself is not modelled. */
    method SaveConfig()
      modifies this`systems
      ensures |ucs| > 0 ==> systems == Some(EntriesOf(ucs))
      ensures |ucs| == 0 ==> systems == old(systems)
      ensures State() == Save(old(State()))
    {
      if |ucs| > 0 {
        var items := ProcessSystems();
        systems := Some(items);
      }
    }

    /** addUCSSystem. */
    method AddUcsSystem(ip: string, username: string, password: string)
      modifies this`ucs, this`systems
      ensures State() == AddSystem(old(State()), ip, username, password, crypto.encrypt)
    {
      var known := CheckUcsExists(ip);
      if !known {
        var ok := AddUcs(ip, username, password);
        if ok {
          SaveConfig();
        }
      }
    }

    /** updateUCSSystem. */
    method UpdateUcsSystem(ip: string, username: string, password: string)
      modifies this`ucs, this`systems
      ensures State() == UpdateSystem(old(State()), ip, username, password, crypto.encrypt)
    {
      var known := CheckUcsExists(ip);
      if known {
        var ok := UpdateUcs(ip, username, password);
        if ok {
          SaveConfig();
        }
      }
    }

    /** deleteUCSSystem. */
    method DeleteUcsSystem(ip: string)
      modifies this`ucs, this`systems
      ensures State() == DeleteSystem(old(State()), ip)
    {
      var known := CheckUcsExists(ip);
      if known {
        var ok := DeleteUcs(ip);
        if ok {
          SaveConfig();
        }
      }
    }

    /** showUCSSystem: prints the matching records after the existence check;
        only the check's reload touches the state. */
    method ShowUcsSystem(ip: string)
      modifies this`ucs
      ensures State() == Check(old(State()), ip).0
    {
      var _ := CheckUcsExists(ip);
    }

    /** showUCSSystems: reloads the list and prints it. */
    method ShowUcsSystems()
      modifies this`ucs
      ensures State() == Reload(old(State()))
    {
      GetAllSystems();
    }

    /** processVersions: each reachable record gets the suggested release and
        the deferred flag for its trimmed version; the others are untouched. */
    method ProcessVersions(remote: Remote)
      modifies this`ucs
      ensures ucs == Evaluated(old(ucs), remote)
    {
      var i := 0;
      while i < |ucs|
        invariant 0 <= i <= |ucs| == |old(ucs)|
        invariant forall k :: 0 <= k < i ==> ucs[k] == Evaluate(old(ucs)[k], remote)
        invariant forall k :: i <= k < |ucs| ==> ucs[k] == old(ucs)[k]
      {
        if ucs[i].status != false {
          ucs := ucs[i := ucs[i].(suggestedVersion := remote.suggestedReleaseTrain(TrimSpace(ucs[i].version)))];
          ucs := ucs[i := ucs[i].(deferredVersion := remote.isDeferredRelease(TrimSpace(ucs[i].version)))];
        }
        i := i + 1;
      }
    }

    /** outputVersionSuggestions: the table rows, one per record with status
        true, in list order. */
    method OutputVersionSuggestions() returns (rows: seq<Row>)
      ensures rows == Report(ucs)
    {
      rows := [];
      var i := 0;
      while i < |ucs|
        invariant 0 <= i <= |ucs|
        invariant rows == Report(ucs[..i])
      {
        assert ucs[..i + 1][..i] == ucs[..i];
        if ucs[i].status != false {
          rows := rows + [RowOf(ucs[i])];
        }
        i := i + 1;
      }
      assert ucs[..i] == ucs;
    }

    /** runAll: reload, log in to each domain and record the outcome, fetch the
        release data, and produce the report rows. */
    method RunAll(remote: Remote) returns (rows: seq<Row>)
      modifies this`ucs
      ensures State() == RunAllSystems(old(State()), crypto.decrypt, remote)
      ensures rows == Report(ucs)
    {
      GetAllSystems();
      ghost var loaded := ucs;
      if |ucs| > 0 {
        var i := 0;
        while i < |ucs|
          invariant 0 <= i <= |ucs| == |loaded|
          invariant forall k :: 0 <= k < i ==> ucs[k] == Probe(loaded[k], crypto.decrypt, remote)
          invariant forall k :: i <= k < |ucs| ==> ucs[k] == loaded[k]
        {
          var plain := crypto.decrypt(ucs[i].password);
          if remote.login(ucs[i].ip, ucs[i].username, plain) {
            ucs := ucs[i := ucs[i].(version := remote.getVersion(ucs[i].ip, ucs[i].username, plain))];
            ucs := ucs[i := ucs[i].(status := true)];
          } else {
            ucs := ucs[i := ucs[i].(status := false)];
          }
          i := i + 1;
        }
      }
      assert ucs == Probed(loaded, crypto.decrypt, remote);
      ProcessVersions(remote);
      rows := OutputVersionSuggestions();
    }

    /** processResponse: splits the command string and performs the action its
        first field names. `panicked` reports the run-time panic of a command
        string with too few fields; the state is then left as it was. Rows are
        produced only by RUN. */
    method ProcessResponse(response: string, remote: Remote) returns (rows: seq<Row>, panicked: bool)
      modifies this`ucs, this`systems
      ensures State() == Step(old(State()), Commands.Dispatch(response), crypto, remote)
      ensures panicked <==> Commands.Dispatch(response).IndexOutOfRange?
      ensures rows == if Commands.Dispatch(response).Run? then Report(ucs) else []
      ensures old(Valid()) && old(StoredUnique(State())) ==> Valid() && StoredUnique(State())
    {
      if Valid() && StoredUnique(State()) {
        StepKeepsStoredUnique(State(), Commands.Dispatch(response), crypto, remote);
      }
      rows, panicked := [], false;
      match Commands.Dispatch(response)
      case Run =>
        rows := RunAll(remote);
      case AddUcs(ip, username, password) =>
        AddUcsSystem(ip, username, password);
      case UpdateUcs(ip, username, password) =>
        UpdateUcsSystem(ip, username, password);
      case DeleteUcs(ip) =>
        DeleteUcsSystem(ip);
      case ShowUcs(ip) =>
        ShowUcsSystem(ip);
      case ShowAll =>
        ShowUcsSystems();
      case NoAction =>
      case IndexOutOfRange =>
        panicked := true;
    }

    /** Run: encode the parsed command line and process it. It never panics,
        and when no flag value holds a `|` it performs exactly the action the
        command asks for. */
    method Run(command: string, flags: Commands.Flags, remote: Remote) returns (rows: seq<Row>, panicked: bool)
      modifies this`ucs, this`systems
      ensures State() == Step(old(State()), Commands.Dispatch(Commands.ProcessCommandLineArguments(command, flags)), crypto, remote)
      ensures Commands.FieldsSeparatorFree(command, flags) ==>
        State() == Step(old(State()), Commands.Intended(command, flags), crypto, remote)
      ensures !panicked
      ensures old(Valid()) && old(StoredUnique(State())) ==> Valid() && StoredUnique(State())
    {
      Commands.EncodedNeverPanics(command, flags);
      if Commands.FieldsSeparatorFree(command, flags) {
        Commands.DispatchRoundTrip(command, flags);
      }
      rows, panicked := ProcessResponse(Commands.ProcessCommandLineArguments(command, flags), remote);
    }
  }
}
