/** The command line, as app/flags.go turns it into work: the parsed
    sub-command and its flag values are encoded as one `|`-delimited string
    (ProcessCommandLineArguments), and that string is split again and
    dispatched on its first field (the decision half of processResponse). */
module Commands {
  import opened Strings

  /** The separator between the fields of a command string. */
  const Sep: char := '|'

  /** The flag values of every sub-command, as the flag parser leaves them.
      IP flags are the text form of the parsed address. */
  datatype Flags = Flags(
    addIp: string, addUsername: string, addPassword: string,
    updateIp: string, updateUsername: string, updatePassword: string,
    deleteIp: string, showIp: string)

  /** The sub-command names the parser can report. */
  predicate IsCommand(command: string) {
    command in {"run", "add ucs", "update ucs", "delete ucs", "show ucs", "show all"}
  }

  /** Encodes the parsed sub-command and its flags as a command string; any
      other command name gives the empty string. */
  function ProcessCommandLineArguments(command: string, f: Flags): (response: string)
    ensures response == "" <==> !IsCommand(command)
  {
    if command == "run" then "RUN"
    else if command == "add ucs" then "ADDUCS|" + f.addIp + "|" + f.addUsername + "|" + f.addPassword
    else if command == "update ucs" then "UPDATEUCS|" + f.updateIp + "|" + f.updateUsername + "|" + f.updatePassword
    else if command == "delete ucs" then "DELETEUCS|" + f.deleteIp
    else if command == "show ucs" then "SHOWUCS|" + f.showIp
    else if command == "show all" then "SHOWALL"
    else ""
  }

  /** What processResponse goes on to do. IndexOutOfRange is the run-time
      panic of indexing past the end of the split fields. */
  datatype Action =
    | Run
    | AddUcs(ip: string, username: string, password: string)
    | UpdateUcs(ip: string, username: string, password: string)
    | DeleteUcs(ip: string)
    | ShowUcs(ip: string)
    | ShowAll
    | NoAction
    | IndexOutOfRange

  /** Splits a command string on `|` and chooses the action by its first field;
      fields past the ones the action reads are ignored. */
  function Dispatch(response: string): (act: Action)
    ensures act.IndexOutOfRange? ==> Count(response, Sep) < 3
    ensures (act.AddUcs? || act.UpdateUcs?) ==> Count(response, Sep) >= 3
    ensures (act.DeleteUcs? || act.ShowUcs?) ==> Count(response, Sep) >= 1
    ensures Sep !in response ==> act.NoAction? || act.Run? || act.ShowAll? || act.IndexOutOfRange?
    ensures Split(response, Sep)[0] == "RUN" ==> act == Run
    ensures Split(response, Sep)[0] == "SHOWALL" ==> act == ShowAll
    ensures Split(response, Sep)[0] !in {"RUN", "ADDUCS", "UPDATEUCS", "DELETEUCS", "SHOWUCS", "SHOWALL"} ==> act == NoAction
  {
    var splits := Split(response, Sep);
    SplitLength(response, Sep);
    var head := splits[0];
    if head == "RUN" then Run
    else if head == "ADDUCS" then
      (if |splits| < 4 then IndexOutOfRange else AddUcs(splits[1], splits[2], splits[3]))
    else if head == "UPDATEUCS" then
      (if |splits| < 4 then IndexOutOfRange else UpdateUcs(splits[1], splits[2], splits[3]))
    else if head == "DELETEUCS" then
      (if |splits| < 2 then IndexOutOfRange else DeleteUcs(splits[1]))
    else if head == "SHOWUCS" then
      (if |splits| < 2 then IndexOutOfRange else ShowUcs(splits[1]))
    else if head == "SHOWALL" then ShowAll
    else NoAction
  }

  /** Reference meaning of a sub-command: the action its flags ask for. */
  function Intended(command: string, f: Flags): Action {
    if command == "run" then Run
    else if command == "add ucs" then AddUcs(f.addIp, f.addUsername, f.addPassword)
    else if command == "update ucs" then UpdateUcs(f.updateIp, f.updateUsername, f.updatePassword)
    else if command == "delete ucs" then DeleteUcs(f.deleteIp)
    else if command == "show ucs" then ShowUcs(f.showIp)
    else if command == "show all" then ShowAll
    else NoAction
  }

  /** The flag values the sub-command puts into its command string hold no `|`. */
  predicate FieldsSeparatorFree(command: string, f: Flags) {
    && (command == "add ucs" ==> Sep !in f.addIp && Sep !in f.addUsername && Sep !in f.addPassword)
    && (command == "update ucs" ==> Sep !in f.updateIp && Sep !in f.updateUsername && Sep !in f.updatePassword)
    && (command == "delete ucs" ==> Sep !in f.deleteIp)
    && (command == "show ucs" ==> Sep !in f.showIp)
  }

  lemma JoinThree(a: string, b: string, c: string)
    ensures Join([a, b, c], Sep) == a + "|" + b + "|" + c
  {
    assert [a, b, c][1..] == [b, c];
    assert [b, c][1..] == [c];
    assert Join([b, c], Sep) == b + "|" + c;
    assert Join([a, b, c], Sep) == a + "|" + (b + "|" + c);
  }

  /** An add string is dispatched on the fields after its head. */
  lemma DispatchAdd(rest: string)
    ensures var fields := Split(rest, Sep);
      Dispatch("ADDUCS|" + rest)
      == if |fields| < 3 then IndexOutOfRange else AddUcs(fields[0], fields[1], fields[2])
  {
    assert "ADDUCS|" + rest == "ADDUCS" + [Sep] + rest;
    SplitCons("ADDUCS", rest, Sep);
  }

  /** An update string is dispatched on the fields after its head. */
  lemma DispatchUpdate(rest: string)
    ensures var fields := Split(rest, Sep);
      Dispatch("UPDATEUCS|" + rest)
      == if |fields| < 3 then IndexOutOfRange else UpdateUcs(fields[0], fields[1], fields[2])
  {
    assert "UPDATEUCS|" + rest == "UPDATEUCS" + [Sep] + rest;
    SplitCons("UPDATEUCS", rest, Sep);
  }

  /** A delete string carries its IP in the first field after its head. */
  lemma DispatchDelete(rest: string)
    ensures Dispatch("DELETEUCS|" + rest) == DeleteUcs(Split(rest, Sep)[0])
  {
    assert "DELETEUCS|" + rest == "DELETEUCS" + [Sep] + rest;
    SplitCons("DELETEUCS", rest, Sep);
  }

  /** A show string carries its IP in the first field after its head. */
  lemma DispatchShow(rest: string)
    ensures Dispatch("SHOWUCS|" + rest) == ShowUcs(Split(rest, Sep)[0])
  {
    assert "SHOWUCS|" + rest == "SHOWUCS" + [Sep] + rest;
    SplitCons("SHOWUCS", rest, Sep);
  }

  /** Three separator-free fields joined by `|` split back into themselves. */
  lemma SplitThree(a: string, b: string, c: string)
    requires Sep !in a && Sep !in b && Sep !in c
    ensures Split(a + "|" + b + "|" + c, Sep) == [a, b, c]
  {
    JoinThree(a, b, c);
    SplitOfJoin([a, b, c], Sep);
  }

  lemma AddRoundTrip(f: Flags)
    requires FieldsSeparatorFree("add ucs", f)
    ensures Dispatch(ProcessCommandLineArguments("add ucs", f)) == Intended("add ucs", f)
  {
    var rest := f.addIp + "|" + f.addUsername + "|" + f.addPassword;
    assert ProcessCommandLineArguments("add ucs", f) == "ADDUCS|" + rest;
    DispatchAdd(rest);
    SplitThree(f.addIp, f.addUsername, f.addPassword);
  }

  lemma UpdateRoundTrip(f: Flags)
    requires FieldsSeparatorFree("update ucs", f)
    ensures Dispatch(ProcessCommandLineArguments("update ucs", f)) == Intended("update ucs", f)
  {
    var rest := f.updateIp + "|" + f.updateUsername + "|" + f.updatePassword;
    assert ProcessCommandLineArguments("update ucs", f) == "UPDATEUCS|" + rest;
    DispatchUpdate(rest);
    SplitThree(f.updateIp, f.updateUsername, f.updatePassword);
  }

  /** The commands without flags encode to a single field that is their head. */
  lemma FlaglessRoundTrip(command: string, f: Flags)
    requires command !in {"add ucs", "update ucs", "delete ucs", "show ucs"}
    ensures Dispatch(ProcessCommandLineArguments(command, f)) == Intended(command, f)
  {
    var response := ProcessCommandLineArguments(command, f);
    SplitNoSep(response, Sep);
  }

  /** Round trip: when no field holds `|`, dispatching the encoded command
      performs exactly the action the sub-command and its flags ask for; an
      unrecognised sub-command encodes to "" and dispatches to no action. */
  lemma DispatchRoundTrip(command: string, f: Flags)
    requires FieldsSeparatorFree(command, f)
    ensures Dispatch(ProcessCommandLineArguments(command, f)) == Intended(command, f)
  {
    if command == "add ucs" {
      AddRoundTrip(f);
    } else if command == "update ucs" {
      UpdateRoundTrip(f);
    } else if command == "delete ucs" {
      DispatchDelete(f.deleteIp);
      SplitNoSep(f.deleteIp, Sep);
    } else if command == "show ucs" {
      DispatchShow(f.showIp);
      SplitNoSep(f.showIp, Sep);
    } else {
      FlaglessRoundTrip(command, f);
    }
  }

  /** A `|` inside the password cuts it short: only the text before it reaches
      addUCSSystem, and the rest is dropped. */
  lemma PipeInPasswordIsCut(f: Flags, before: string, after: string)
    requires Sep !in f.addIp && Sep !in f.addUsername && Sep !in before
    requires f.addPassword == before + "|" + after
    ensures Dispatch(ProcessCommandLineArguments("add ucs", f)) == AddUcs(f.addIp, f.addUsername, before)
  {
    var rest := f.addIp + "|" + f.addUsername + "|" + f.addPassword;
    assert ProcessCommandLineArguments("add ucs", f) == "ADDUCS|" + rest;
    DispatchAdd(rest);
    SplitTwoThenRest(f.addIp, f.addUsername, f.addPassword);
    SplitCons(before, after, Sep);
  }

  /** A `|` inside the username shifts the fields: the text after it becomes
      the password, and the real password is dropped. */
  lemma PipeInUsernameShifts(f: Flags, u: string, v: string)
    requires Sep !in f.addIp && Sep !in u && Sep !in v && Sep !in f.addPassword
    requires f.addUsername == u + "|" + v
    ensures Dispatch(ProcessCommandLineArguments("add ucs", f)) == AddUcs(f.addIp, u, v)
  {
    var rest := f.addIp + "|" + f.addUsername + "|" + f.addPassword;
    assert ProcessCommandLineArguments("add ucs", f) == "ADDUCS|" + rest;
    DispatchAdd(rest);
    SplitFourWithMiddlePipe(f.addIp, u, v, f.addPassword);
  }

  /** Splitting three fields whose middle one holds a `|` gives four parts. */
  lemma SplitFourWithMiddlePipe(a: string, u: string, v: string, p: string)
    requires Sep !in a && Sep !in u && Sep !in v && Sep !in p
    ensures Split(a + "|" + (u + "|" + v) + "|" + p, Sep) == [a, u, v, p]
  {
    assert a + "|" + (u + "|" + v) + "|" + p == a + "|" + u + "|" + (v + "|" + p);
    SplitTwoThenRest(a, u, v + "|" + p);
    SplitCons(v, p, Sep);
    SplitNoSep(p, Sep);
  }

  /** Two separator-free fields in front become the first two parts. */
  lemma SplitTwoThenRest(a: string, b: string, t: string)
    requires Sep !in a && Sep !in b
    ensures Split(a + "|" + b + "|" + t, Sep) == [a, b] + Split(t, Sep)
  {
    assert a + "|" + b + "|" + t == a + [Sep] + (b + [Sep] + t);
    SplitCons(a, b + [Sep] + t, Sep);
    SplitCons(b, t, Sep);
  }

  /** Three fields joined by `|` split into at least three parts, whatever they contain. */
  lemma ThreeFieldsAtLeast(a: string, b: string, c: string)
    ensures |Split(a + "|" + b + "|" + c, Sep)| >= 3
  {
    assert a + "|" + b + "|" + c == a + [Sep] + (b + [Sep] + c);
    CountConcat(a + [Sep], b + [Sep] + c, Sep);
    CountConcat(a, [Sep], Sep);
    CountConcat(b + [Sep], c, Sep);
    CountConcat(b, [Sep], Sep);
    SplitLength(a + "|" + b + "|" + c, Sep);
  }

  /** The encoder never builds a string processResponse would panic on: a `|`
      inside a flag value only adds fields, and the first field is always the
      command's own name. */
  lemma EncodedNeverPanics(command: string, f: Flags)
    ensures !Dispatch(ProcessCommandLineArguments(command, f)).IndexOutOfRange?
  {
    var response := ProcessCommandLineArguments(command, f);
    if command == "add ucs" {
      var rest := f.addIp + "|" + f.addUsername + "|" + f.addPassword;
      assert response == "ADDUCS|" + rest;
      DispatchAdd(rest);
      ThreeFieldsAtLeast(f.addIp, f.addUsername, f.addPassword);
    } else if command == "update ucs" {
      var rest := f.updateIp + "|" + f.updateUsername + "|" + f.updatePassword;
      assert response == "UPDATEUCS|" + rest;
      DispatchUpdate(rest);
      ThreeFieldsAtLeast(f.updateIp, f.updateUsername, f.updatePassword);
    } else if command == "delete ucs" {
      DispatchDelete(f.deleteIp);
    } else if command == "show ucs" {
      DispatchShow(f.showIp);
    } else {
      SplitNoSep(response, Sep);
    }
  }

  /** A bare field-reading head, with no field after it, makes
      processResponse index past the only field. */
  lemma BareHeadPanics(response: string)
    requires response in {"ADDUCS", "UPDATEUCS", "DELETEUCS", "SHOWUCS"}
    ensures Dispatch(response) == IndexOutOfRange
  {
    SplitNoSep(response, Sep);
  }

  /** A hand-written command string with too few fields makes processResponse
      panic; the encoder never builds one (EncodedNeverPanics). */
  lemma ShortAddPanics(ip: string)
    requires Sep !in ip
    ensures Dispatch("ADDUCS|" + ip) == IndexOutOfRange
  {
    DispatchAdd(ip);
    SplitNoSep(ip, Sep);
  }
}
