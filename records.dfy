/** The connection records of app/structs.go and the list operations that
    app/flags.go and app/app.go perform on them, stated as functions of the
    list: appending, rewriting by exact IP, the splice loop of deleteUCS,
    conversion to and from the config store's string maps, the per-record
    status and version updates, and the report rows. */
module Records {
  import opened Strings

  datatype Option<T> = None | Some(value: T)

  /** One UCS Manager domain (UCSSystemInfo). Only ip, username and password
      are persisted; the other fields are filled in by a run. */
  datatype UCSSystemInfo = UCSSystemInfo(
    ip: string,
    username: string,
    password: string,
    cookie: string,
    name: string,
    version: string,
    status: bool,
    suggestedVersion: string,
    deferredVersion: bool)

  /** A record whose fields all hold Go's zero values. */
  const Zero: UCSSystemInfo := UCSSystemInfo("", "", "", "", "", "", false, "", false)

  /** A record as it is created: the three persisted fields set, the rest zero. */
  function NewRecord(ip: string, username: string, password: string): UCSSystemInfo {
    Zero.(ip := ip, username := username, password := password)
  }

  /** addUCS accepts a record only when no field is blank. */
  predicate Addable(ip: string, username: string, password: string) {
    ip != "" && username != "" && password != ""
  }

  // ---------------------------------------------------------------------
  // The config store: each record is a string map with keys url, username
  // and password.

  type Entry = map<string, string>

  /** Reading a missing key of a string map gives the empty string. */
  function Lookup(e: Entry, key: string): string {
    if key in e then e[key] else ""
  }

  /** One entry of readSystems: ip from "url", the transient fields zero. */
  function RecordOf(e: Entry): UCSSystemInfo {
    NewRecord(Lookup(e, "url"), Lookup(e, "username"), Lookup(e, "password"))
  }

  function RecordsOf(entries: seq<Entry>): seq<UCSSystemInfo> {
    seq(|entries|, i requires 0 <= i < |entries| => RecordOf(entries[i]))
  }

  /** One item of processSystems. */
  function EntryOf(r: UCSSystemInfo): Entry {
    map["url" := r.ip, "username" := r.username, "password" := r.password]
  }

  function EntriesOf(s: seq<UCSSystemInfo>): seq<Entry> {
    seq(|s|, i requires 0 <= i < |s| => EntryOf(s[i]))
  }

  /** The keys processSystems writes. */
  predicate HasStoredKeys(e: Entry) {
    e.Keys == {"url", "username", "password"}
  }

  /** Writing the list and reading it back recovers, in order, each record's
      ip, username and password, with the transient fields zero again. */
  lemma ReadBack(s: seq<UCSSystemInfo>)
    ensures |RecordsOf(EntriesOf(s))| == |s|
    ensures forall i :: 0 <= i < |s| ==> RecordsOf(EntriesOf(s))[i] == NewRecord(s[i].ip, s[i].username, s[i].password)
  {
    forall i | 0 <= i < |s|
      ensures RecordsOf(EntriesOf(s))[i] == NewRecord(s[i].ip, s[i].username, s[i].password)
    {
      var e := EntryOf(s[i]);
      assert Lookup(e, "url") == s[i].ip;
      assert Lookup(e, "username") == s[i].username;
      assert Lookup(e, "password") == s[i].password;
    }
  }

  /** Reading stored entries and writing them again reproduces the entries,
      provided each holds exactly the three keys processSystems writes. */
  lemma WriteBack(entries: seq<Entry>)
    requires forall i :: 0 <= i < |entries| ==> HasStoredKeys(entries[i])
    ensures EntriesOf(RecordsOf(entries)) == entries
  {
    forall i | 0 <= i < |entries|
      ensures EntriesOf(RecordsOf(entries))[i] == entries[i]
    {
      var e := entries[i];
      var back := EntryOf(RecordOf(e));
      assert "url" in e && "username" in e && "password" in e;
      assert back.Keys == e.Keys;
      assert forall k :: k in e ==> back[k] == e[k];
    }
  }

  // ---------------------------------------------------------------------
  // Lookup by trimmed IP (checkUCSExists) and the uniqueness add keeps.

  /** Some record's IP equals `ip` once both are trimmed of white space. */
  predicate HasTrimmedIp(s: seq<UCSSystemInfo>, ip: string) {
    exists i :: 0 <= i < |s| && TrimSpace(s[i].ip) == TrimSpace(ip)
  }

  /** No two records have the same IP once trimmed. */
  ghost predicate UniqueTrimmedIps(s: seq<UCSSystemInfo>) {
    forall i, j :: 0 <= i < j < |s| ==> TrimSpace(s[i].ip) != TrimSpace(s[j].ip)
  }

  /** Appending a record whose trimmed IP is new keeps trimmed IPs unique. */
  lemma AppendKeepsUnique(s: seq<UCSSystemInfo>, r: UCSSystemInfo)
    requires UniqueTrimmedIps(s) && !HasTrimmedIp(s, r.ip)
    ensures UniqueTrimmedIps(s + [r])
  {
    var t := s + [r];
    forall i, j | 0 <= i < j < |t|
      ensures TrimSpace(t[i].ip) != TrimSpace(t[j].ip)
    {
      if j == |s| {
        assert t[i] == s[i];
      }
    }
  }

  /** Uniqueness looks only at the IPs. */
  lemma UniqueByIps(s: seq<UCSSystemInfo>, t: seq<UCSSystemInfo>)
    requires |s| == |t| && forall i :: 0 <= i < |s| ==> s[i].ip == t[i].ip
    requires UniqueTrimmedIps(s)
    ensures UniqueTrimmedIps(t)
  {
  }

  lemma ConsUnique(r: UCSSystemInfo, s: seq<UCSSystemInfo>)
    requires UniqueTrimmedIps(s) && !HasTrimmedIp(s, r.ip)
    ensures UniqueTrimmedIps([r] + s)
  {
    var t := [r] + s;
    forall i, j | 0 <= i < j < |t|
      ensures TrimSpace(t[i].ip) != TrimSpace(t[j].ip)
    {
      var b := s[j - 1];
      assert t[j] == b;
      if i == 0 {
        assert t[i] == r;
        assert !(TrimSpace(b.ip) == TrimSpace(r.ip));
      } else {
        var a := s[i - 1];
        assert t[i] == a;
        assert TrimSpace(a.ip) != TrimSpace(b.ip);
      }
    }
  }

  // ---------------------------------------------------------------------
  // updateUCS: every record whose IP equals `ip` exactly gets the new
  // username and (already encrypted) password.

  function Updated(s: seq<UCSSystemInfo>, ip: string, username: string, password: string): seq<UCSSystemInfo> {
    seq(|s|, i requires 0 <= i < |s| =>
      if s[i].ip == ip then s[i].(username := username, password := password) else s[i])
  }

  /** Updating changes no IP, so it keeps trimmed IPs unique, and a second
      identical update changes nothing. */
  lemma UpdatedKeepsIps(s: seq<UCSSystemInfo>, ip: string, username: string, password: string)
    ensures |Updated(s, ip, username, password)| == |s|
    ensures forall i :: 0 <= i < |s| ==> Updated(s, ip, username, password)[i].ip == s[i].ip
    ensures UniqueTrimmedIps(s) ==> UniqueTrimmedIps(Updated(s, ip, username, password))
    ensures Updated(Updated(s, ip, username, password), ip, username, password) == Updated(s, ip, username, password)
  {
    var u := Updated(s, ip, username, password);
    if UniqueTrimmedIps(s) {
      UniqueByIps(s, u);
    }
  }

  // ---------------------------------------------------------------------
  // deleteUCS: the loop removes a matching record by splicing it out and
  // then advances its index, so the record that moved into the freed slot is
  // never examined.

  function Deleted(s: seq<UCSSystemInfo>, ip: string): (r: seq<UCSSystemInfo>)
    ensures |r| <= |s|
    ensures forall x :: x in r ==> x in s
    decreases |s|
  {
    if s == [] then []
    else if s[0].ip == ip then
      (if |s| == 1 then [] else [s[1]] + Deleted(s[2..], ip))
    else [s[0]] + Deleted(s[1..], ip)
  }

  /** One pass of deleteUCS's loop that removes the record at `i`: the part
      still to be processed is Deleted's view of the rest, and the record that
      slides into slot `i` is passed over. */
  lemma DeleteLoopRemoves(s: seq<UCSSystemInfo>, ip: string, i: nat)
    requires i < |s| && s[i].ip == ip
    ensures var u := s[..i] + s[i + 1..];
            && (i + 1 <= |u| ==> s[..i] + Deleted(s[i..], ip) == u[..i + 1] + Deleted(u[i + 1..], ip))
            && (i + 1 > |u| ==> s[..i] + Deleted(s[i..], ip) == u)
  {
    var u := s[..i] + s[i + 1..];
    var t := s[i..];
    assert t[0] == s[i];
    if i + 1 < |s| {
      assert t[1] == s[i + 1] && t[2..] == s[i + 2..];
      assert u[..i + 1] == s[..i] + [s[i + 1]];
      assert u[i + 1..] == s[i + 2..];
      assert Deleted(t, ip) == [s[i + 1]] + Deleted(s[i + 2..], ip);
    } else {
      assert |t| == 1;
      assert u == s[..i];
    }
  }

  /** One pass of deleteUCS's loop over a record it keeps. */
  lemma DeleteLoopKeeps(s: seq<UCSSystemInfo>, ip: string, i: nat)
    requires i < |s| && s[i].ip != ip
    ensures s[..i] + Deleted(s[i..], ip) == s[..i + 1] + Deleted(s[i + 1..], ip)
  {
    var t := s[i..];
    assert t[0] == s[i] && t[1..] == s[i + 1..];
    assert s[..i + 1] == s[..i] + [s[i]];
  }

  /** The records whose IP differs from `ip`, in order: what deleting every
      match would leave. */
  function Keep(s: seq<UCSSystemInfo>, ip: string): seq<UCSSystemInfo> {
    if s == [] then []
    else (if s[0].ip != ip then [s[0]] else []) + Keep(s[1..], ip)
  }

  lemma KeepCons(r: UCSSystemInfo, s: seq<UCSSystemInfo>, ip: string)
    ensures Keep([r] + s, ip) == (if r.ip != ip then [r] else []) + Keep(s, ip)
  {
    assert ([r] + s)[1..] == s;
  }

  /** Every non-matching record survives deletion, in its original relative
      order, and no other non-matching record appears. */
  lemma {:induction false} DeletedKeepsOthers(s: seq<UCSSystemInfo>, ip: string)
    ensures Keep(Deleted(s, ip), ip) == Keep(s, ip)
    decreases |s|
  {
    if s != [] {
      if s[0].ip == ip {
        if |s| > 1 {
          DeletedKeepsOthers(s[2..], ip);
          KeepCons(s[1], Deleted(s[2..], ip), ip);
          assert s[1..] == [s[1]] + s[2..];
          KeepCons(s[1], s[2..], ip);
        }
      } else {
        DeletedKeepsOthers(s[1..], ip);
        KeepCons(s[0], Deleted(s[1..], ip), ip);
      }
    }
  }

  /** Without two matching records side by side, deleteUCS removes every match. */
  lemma {:induction false} DeletedRemovesAllMatches(s: seq<UCSSystemInfo>, ip: string)
    requires forall i :: 0 <= i < |s| - 1 ==> s[i].ip != ip || s[i + 1].ip != ip
    ensures Deleted(s, ip) == Keep(s, ip)
    decreases |s|
  {
    if s != [] {
      if s[0].ip == ip {
        if |s| > 1 {
          DeletedRemovesAllMatches(s[2..], ip);
          assert s[1..] == [s[1]] + s[2..];
          KeepCons(s[1], s[2..], ip);
        }
      } else {
        DeletedRemovesAllMatches(s[1..], ip);
      }
    }
  }

  /** When no record matches, the list is unchanged. */
  lemma {:induction false} KeepWithoutMatch(s: seq<UCSSystemInfo>, ip: string)
    requires forall i :: 0 <= i < |s| ==> s[i].ip != ip
    ensures Keep(s, ip) == s
    decreases |s|
  {
    if s != [] {
      KeepWithoutMatch(s[1..], ip);
    }
  }

  /** When exactly one record matches, deleteUCS removes just that record. */
  lemma {:induction false} DeletedSingleMatch(s: seq<UCSSystemInfo>, ip: string, k: nat)
    requires k < |s| && s[k].ip == ip
    requires forall i :: 0 <= i < |s| && i != k ==> s[i].ip != ip
    ensures Deleted(s, ip) == s[..k] + s[k + 1..]
    decreases k
  {
    if k == 0 {
      if |s| > 1 {
        DeletedNoMatch(s[2..], ip);
        assert s[1..] == [s[1]] + s[2..];
      }
    } else {
      DeletedSingleMatch(s[1..], ip, k - 1);
      assert s[..k] == [s[0]] + s[1..][..k - 1];
      assert s[k + 1..] == s[1..][k..];
    }
  }

  /** When no record matches, deleteUCS leaves the list as it was. */
  lemma DeletedNoMatch(s: seq<UCSSystemInfo>, ip: string)
    requires forall i :: 0 <= i < |s| ==> s[i].ip != ip
    ensures Deleted(s, ip) == s
  {
    KeepWithoutMatch(s, ip);
    DeletedRemovesAllMatches(s, ip);
  }

  /** Two adjacent matches: the second one is skipped and survives. */
  lemma AdjacentMatchSurvives(r: UCSSystemInfo, ip: string)
    requires r.ip == ip
    ensures Deleted([r, r], ip) == [r]
  {
    assert [r, r][2..] == [];
  }

  /** The record right after a removed match is kept whatever its IP: after
      the splice the loop's index already points past it. */
  lemma {:induction false} DeletedSkipsNext(p: seq<UCSSystemInfo>, m: UCSSystemInfo, x: UCSSystemInfo,
                                            t: seq<UCSSystemInfo>, ip: string)
    requires forall i :: 0 <= i < |p| ==> p[i].ip != ip
    requires m.ip == ip
    ensures Deleted(p + [m, x] + t, ip) == p + [x] + Deleted(t, ip)
    decreases |p|
  {
    var s := p + [m, x] + t;
    if p == [] {
      assert s == [m, x] + t && s[1] == x && s[2..] == t;
    } else {
      assert s[0] == p[0] && s[1..] == p[1..] + [m, x] + t;
      DeletedSkipsNext(p[1..], m, x, t, ip);
      assert p + [x] + Deleted(t, ip) == [p[0]] + (p[1..] + [x] + Deleted(t, ip));
    }
  }

  /** A list whose records all come from `t` has no trimmed IP that `t` lacks. */
  lemma NoTrimmedIpInSub(s: seq<UCSSystemInfo>, t: seq<UCSSystemInfo>, ip: string)
    requires forall x :: x in s ==> x in t
    requires !HasTrimmedIp(t, ip)
    ensures !HasTrimmedIp(s, ip)
  {
    forall i | 0 <= i < |s| ensures TrimSpace(s[i].ip) != TrimSpace(ip) {
      assert s[i] in t;
    }
  }

  /** Deletion keeps trimmed IPs unique. */
  lemma {:induction false} DeletedKeepsUnique(s: seq<UCSSystemInfo>, ip: string)
    requires UniqueTrimmedIps(s)
    ensures UniqueTrimmedIps(Deleted(s, ip))
    decreases |s|
  {
    if s != [] {
      if s[0].ip == ip {
        if |s| > 1 {
          var rest := s[2..];
          assert UniqueTrimmedIps(rest) by {
            forall i, j | 0 <= i < j < |rest| ensures TrimSpace(rest[i].ip) != TrimSpace(rest[j].ip) {
              assert rest[i] == s[i + 2] && rest[j] == s[j + 2];
            }
          }
          DeletedKeepsUnique(rest, ip);
          forall j | 0 <= j < |rest| ensures TrimSpace(rest[j].ip) != TrimSpace(s[1].ip) {
            assert rest[j] == s[j + 2];
          }
          NoTrimmedIpInSub(Deleted(rest, ip), rest, s[1].ip);
          ConsUnique(s[1], Deleted(rest, ip));
        }
      } else {
        var rest := s[1..];
        assert UniqueTrimmedIps(rest) by {
          forall i, j | 0 <= i < j < |rest| ensures TrimSpace(rest[i].ip) != TrimSpace(rest[j].ip) {
            assert rest[i] == s[i + 1] && rest[j] == s[j + 1];
          }
        }
        DeletedKeepsUnique(rest, ip);
        forall j | 0 <= j < |rest| ensures TrimSpace(rest[j].ip) != TrimSpace(s[0].ip) {
          assert rest[j] == s[j + 1];
        }
        NoTrimmedIpInSub(Deleted(rest, ip), rest, s[0].ip);
        ConsUnique(s[0], Deleted(rest, ip));
      }
    }
  }

  // ---------------------------------------------------------------------
  // runAll and processVersions. The UCS client and the release database are
  // oracles: login reports whether the session had no errors, getVersion the
  // version that session reads, and the two release lookups take a trimmed
  // version string.

  datatype Remote = Remote(
    login: (string, string, string) -> bool,
    getVersion: (string, string, string) -> string,
    suggestedReleaseTrain: string -> string,
    isDeferredRelease: string -> bool)

  /** One step of runAll's loop: log in with the decrypted password; on
      success record the version and status true, otherwise status false. */
  function Probe(r: UCSSystemInfo, decrypt: string -> string, rm: Remote): UCSSystemInfo {
    var plain := decrypt(r.password);
    if rm.login(r.ip, r.username, plain) then
      r.(version := rm.getVersion(r.ip, r.username, plain), status := true)
    else
      r.(status := false)
  }

  function Probed(s: seq<UCSSystemInfo>, decrypt: string -> string, rm: Remote): seq<UCSSystemInfo> {
    seq(|s|, i requires 0 <= i < |s| => Probe(s[i], decrypt, rm))
  }

  /** One step of processVersions: a reachable record gets the suggested
      release and the deferred flag for its trimmed version. */
  function Evaluate(r: UCSSystemInfo, rm: Remote): UCSSystemInfo {
    if r.status then
      r.(suggestedVersion := rm.suggestedReleaseTrain(TrimSpace(r.version)),
         deferredVersion := rm.isDeferredRelease(TrimSpace(r.version)))
    else r
  }

  function Evaluated(s: seq<UCSSystemInfo>, rm: Remote): seq<UCSSystemInfo> {
    seq(|s|, i requires 0 <= i < |s| => Evaluate(s[i], rm))
  }

  /** A record after runAll: status is the login result, the version is read
      only after a successful login, the release data is filled in exactly for
      reachable records, and the persisted fields never change. */
  lemma ProbeThenEvaluate(r: UCSSystemInfo, decrypt: string -> string, rm: Remote)
    ensures var plain := decrypt(r.password);
            var q := Evaluate(Probe(r, decrypt, rm), rm);
            && q.status == rm.login(r.ip, r.username, plain)
            && q.version == (if q.status then rm.getVersion(r.ip, r.username, plain) else r.version)
            && q.suggestedVersion == (if q.status then rm.suggestedReleaseTrain(TrimSpace(q.version)) else r.suggestedVersion)
            && q.deferredVersion == (if q.status then rm.isDeferredRelease(TrimSpace(q.version)) else r.deferredVersion)
            && q.ip == r.ip && q.username == r.username && q.password == r.password
  {
  }

  // ---------------------------------------------------------------------
  // outputVersionSuggestions: one table row per reachable record.

  datatype Row = Row(domain: string, currentVersion: string, isDeferred: bool, suggestedVersion: string)

  function RowOf(r: UCSSystemInfo): Row {
    Row(r.ip, r.version, r.deferredVersion, r.suggestedVersion)
  }

  /** The rows for the records with status true, in list order. */
  function Report(s: seq<UCSSystemInfo>): seq<Row>
    decreases |s|
  {
    if s == [] then []
    else Report(s[..|s| - 1]) + (if s[|s| - 1].status then [RowOf(s[|s| - 1])] else [])
  }

  /** The report of a list is the report of its parts, in order. */
  lemma {:induction false} ReportConcat(s: seq<UCSSystemInfo>, t: seq<UCSSystemInfo>)
    ensures Report(s + t) == Report(s) + Report(t)
    decreases |t|
  {
    if t == [] {
      assert s + t == s;
    } else {
      var u := s + t;
      assert u[..|u| - 1] == s + t[..|t| - 1];
      ReportConcat(s, t[..|t| - 1]);
    }
  }

  /** A row is in the report exactly when it comes from a record with status true. */
  lemma {:induction false} ReportRows(s: seq<UCSSystemInfo>, row: Row)
    ensures row in Report(s) <==> exists i :: 0 <= i < |s| && s[i].status && RowOf(s[i]) == row
    decreases |s|
  {
    if s != [] {
      var init := s[..|s| - 1];
      ReportRows(init, row);
      if row in Report(init) {
        var i :| 0 <= i < |init| && init[i].status && RowOf(init[i]) == row;
        assert s[i] == init[i];
      }
      if exists i :: 0 <= i < |s| && s[i].status && RowOf(s[i]) == row {
        var i :| 0 <= i < |s| && s[i].status && RowOf(s[i]) == row;
        if i < |s| - 1 {
          assert init[i] == s[i];
        }
      }
    }
  }
}
