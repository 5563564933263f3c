/** `readConfig`: the database settings read from a `key=value` file, one
    assignment per line, into an object that starts from fixed defaults.
    The file's lines arrive as a sequence (reading the file and cutting it
    into lines is the stream library's part and is not modelled); the
    promise the source returns is the `Result` of folding the line handler
    over them and then running the close handler. */
module ConfigReader {
  import opened Wrappers
  import opened Text

  /** The settings a successful read resolves with. `password` is the one
      field that may stay `undefined`. */
  datatype DatabaseConfig = DatabaseConfig(
    user: string,
    password: Option<string>,
    host: string,
    port: JsNumber,
    database: string)

  /** The value of one property of the object being filled in. */
  datatype JsValue = Undefined | Str(s: string) | Number(n: JsNumber)

  /** The object `readConfig` fills in: the five declared fields, plus the
      own properties that assignments under any other key add to it. */
  datatype ConfigObject = ConfigObject(fields: DatabaseConfig, extra: map<string, string>)

  const FieldNames: set<string> := {"user", "password", "host", "port", "database"}

  /** Assigning a string to `__proto__` goes through the prototype setter,
      which ignores anything that is not an object: no property appears. */
  const ProtoKey: string := "__proto__"

  /** The object before the first line: empty strings, no password and
      port 0. */
  const Defaults: ConfigObject := ConfigObject(DatabaseConfig("", None, "", Num(0), ""), map[])

  /** The extra properties never shadow a declared field. */
  predicate WellFormed(obj: ConfigObject) {
    forall k :: k in obj.extra ==> k !in FieldNames && k != ProtoKey
  }

  /** `Object.keys(obj)`, as a set. */
  function Keys(obj: ConfigObject): set<string> {
    FieldNames + obj.extra.Keys
  }

  /** Reading the own property `key` of the object. */
  function Get(obj: ConfigObject, key: string): JsValue {
    if key == "user" then Str(obj.fields.user)
    else if key == "password" then
      (if obj.fields.password.Some? then Str(obj.fields.password.value) else Undefined)
    else if key == "host" then Str(obj.fields.host)
    else if key == "port" then Number(obj.fields.port)
    else if key == "database" then Str(obj.fields.database)
    else if key in obj.extra then Str(obj.extra[key])
    else Undefined
  }

  /** `setConfig(config, key, value)`: the property assignment
      `config[key] = value`. The line handler passes a number for `port` and
      a string for every other key. */
  function SetConfig(obj: ConfigObject, key: string, value: JsValue): (r: ConfigObject)
    requires key == "port" ==> value.Number?
    requires key != "port" ==> value.Str?
    ensures WellFormed(obj) ==> WellFormed(r)
    ensures key != ProtoKey ==> Get(r, key) == value
    ensures forall k :: k != key ==> Get(r, k) == Get(obj, k)
    ensures Keys(r) == if key == ProtoKey then Keys(obj) else Keys(obj) + {key}
  {
    if key == "user" then obj.(fields := obj.fields.(user := value.s))
    else if key == "password" then obj.(fields := obj.fields.(password := Some(value.s)))
    else if key == "host" then obj.(fields := obj.fields.(host := value.s))
    else if key == "port" then obj.(fields := obj.fields.(port := value.n))
    else if key == "database" then obj.(fields := obj.fields.(database := value.s))
    else if key == ProtoKey then obj
    else obj.(extra := obj.extra[key := value.s])
  }

  lemma FieldNamesCount()
    ensures |FieldNames| == 5
  {
    var s: set<string> := {};
    assert |s + {"user"}| == 1;
    assert |s + {"user", "password"}| == 2;
    assert |s + {"user", "password", "host"}| == 3;
    assert |s + {"user", "password", "host", "port"}| == 4;
  }

  /** The object has exactly its five declared keys just when no
      assignment under another key has been made. */
  lemma KeyCountFive(obj: ConfigObject)
    requires WellFormed(obj)
    ensures |Keys(obj)| == 5 <==> obj.extra == map[]
  {
    FieldNamesCount();
    assert FieldNames * obj.extra.Keys == {};
    assert |Keys(obj)| == |FieldNames| + |obj.extra.Keys|;
    if |obj.extra.Keys| == 0 {
      assert obj.extra == map[];
    }
  }

  // ---------------------------------------------------------------------
  // one line
  // ---------------------------------------------------------------------

  /** Why the promise is rejected. */
  datatype ConfigError =
    | InvalidEnvVariable(line: string)
    | InvalidPortNumber(value: string)
    | IncompleteConfiguration

  /** The message of the `Error` each rejection carries. */
  function Message(e: ConfigError): string {
    match e
    case InvalidEnvVariable(line) => line + " is an invalid env variable"
    case InvalidPortNumber(value) => "Invalid port number: " + value
    case IncompleteConfiguration => "Incomplete database configuration"
  }

  /** The first element of `line.split("=")`. */
  function LineKey(line: string): string {
    Split(line, '=')[0]
  }

  /** The second element of `line.split("=")`, with a missing one (which
      is `undefined`, falsy like `""`) written as `""`. */
  function LineValue(line: string): string {
    var pieces := Split(line, '=');
    if |pieces| > 1 then pieces[1] else ""
  }

  /** The key is the text before the first `=` and the value the text
      between the first and the second; a line without `=` has no value. */
  lemma LineParts(key: string, value: string, rest: string)
    requires '=' !in key && '=' !in value
    ensures LineKey(key) == key && LineValue(key) == ""
    ensures LineKey(key + "=" + value) == key && LineValue(key + "=" + value) == value
    ensures LineKey(key + "=" + value + "=" + rest) == key
    ensures LineValue(key + "=" + value + "=" + rest) == value
  {
    SplitNoSep(key, '=');
    SplitNoSep(value, '=');
    SplitAtFirst(key, '=', value);
    assert key + "=" + value == key + ['='] + value;
    var tail := value + "=" + rest;
    SplitAtFirst(value, '=', rest);
    assert tail == value + ['='] + rest;
    SplitAtFirst(key, '=', tail);
    assert key + "=" + value + "=" + rest == key + ['='] + tail;
  }

  /** A line that assigns: both the key and the value are non-empty. */
  predicate Assigns(line: string) {
    LineKey(line) != "" && LineValue(line) != ""
  }

  /** The rejection a line causes on its own, if any. */
  function LineError(line: string): Option<ConfigError> {
    if !Assigns(line) then Some(InvalidEnvVariable(line))
    else if LineKey(line) == "port" && ToNumber(LineValue(line)).NaN? then
      Some(InvalidPortNumber(LineValue(line)))
    else None
  }

  /** An assignment that adds a property besides the five fields. */
  predicate AddsKey(line: string) {
    Assigns(line) && LineKey(line) !in FieldNames && LineKey(line) != ProtoKey
  }

  /** The object being filled in and whether the promise has already been
      rejected; a promise settles once, so the first rejection stays. */
  datatype ReaderState = ReaderState(obj: ConfigObject, rejected: Option<ConfigError>)

  function Reject(st: ReaderState, e: ConfigError): (r: ReaderState)
    ensures r.obj == st.obj
    ensures r.rejected.Some?
    ensures st.rejected.Some? ==> r.rejected == st.rejected
  {
    if st.rejected.Some? then st else st.(rejected := Some(e))
  }

  /** The `line` handler. A port that is not a number rejects the promise
      and is still stored, as `NaN`. */
  function OnLine(st: ReaderState, line: string): (r: ReaderState)
    ensures WellFormed(st.obj) ==> WellFormed(r.obj)
    ensures r.rejected == if st.rejected.Some? then st.rejected else LineError(line)
  {
    var key := LineKey(line);
    var value := LineValue(line);
    if key != "" && value != "" then
      if key == "port" then
        var n := ToNumber(value);
        var st1 := if n.NaN? then Reject(st, InvalidPortNumber(value)) else st;
        st1.(obj := SetConfig(st1.obj, key, Number(n)))
      else
        st.(obj := SetConfig(st.obj, key, Str(value)))
    else
      Reject(st, InvalidEnvVariable(line))
  }

  /** The line events, in file order. */
  function Feed(st: ReaderState, lines: seq<string>): ReaderState
    decreases |lines|
  {
    if |lines| == 0 then st else Feed(OnLine(st, lines[0]), lines[1..])
  }

  /** The `close` handler: a rejection already made stands; otherwise the
      promise resolves when the object has exactly five keys. */
  function OnClose(st: ReaderState): (r: Result<DatabaseConfig, ConfigError>)
    requires WellFormed(st.obj)
    ensures st.rejected.Some? ==> r == Failure(st.rejected.value)
    ensures r.Success? <==> st.rejected.None? && st.obj.extra == map[]
    ensures r.Success? ==> r.value == st.obj.fields
    ensures st.rejected.None? && st.obj.extra != map[] ==> r == Failure(IncompleteConfiguration)
  {
    KeyCountFive(st.obj);
    if st.rejected.Some? then Failure(st.rejected.value)
    else if |Keys(st.obj)| == 5 then Success(st.obj.fields)
    else Failure(IncompleteConfiguration)
  }

  /** `readConfig` on a file with these lines. */
  function ReadConfig(lines: seq<string>): Result<DatabaseConfig, ConfigError> {
    FeedAddedKeys(ReaderState(Defaults, None), lines);
    OnClose(Feed(ReaderState(Defaults, None), lines))
  }

  // ---------------------------------------------------------------------
  // what a whole file gives, line by line
  // ---------------------------------------------------------------------

  /** The rejection of the first line that causes one. */
  function FirstError(lines: seq<string>): Option<ConfigError> {
    if |lines| == 0 then None
    else if LineError(lines[0]).Some? then LineError(lines[0])
    else FirstError(lines[1..])
  }

  /** The value a line assigns to `key`, if it assigns to it. */
  function Assigned(line: string, key: string): Option<string> {
    if Assigns(line) && LineKey(line) == key then Some(LineValue(line)) else None
  }

  /** The value of the last line that assigns to `key`. */
  function LastValue(lines: seq<string>, key: string): Option<string> {
    if |lines| == 0 then None
    else
      var later := LastValue(lines[1..], key);
      if later.Some? then later else Assigned(lines[0], key)
  }

  /** The keys the lines add besides the five fields. */
  function AddedKeys(lines: seq<string>): set<string> {
    if |lines| == 0 then {}
    else (if AddsKey(lines[0]) then {LineKey(lines[0])} else {}) + AddedKeys(lines[1..])
  }

  function StringOr(v: Option<string>, default: string): string {
    if v.Some? then v.value else default
  }

  function PasswordOr(v: Option<string>, default: Option<string>): Option<string> {
    if v.Some? then v else default
  }

  function PortOr(v: Option<string>, default: JsNumber): JsNumber {
    if v.Some? then ToNumber(v.value) else default
  }

  /** The fields after `config` has been updated with `line`. */
  predicate FieldsAfter(after: DatabaseConfig, before: DatabaseConfig, update: string -> Option<string>) {
    && after.user == StringOr(update("user"), before.user)
    && after.password == PasswordOr(update("password"), before.password)
    && after.host == StringOr(update("host"), before.host)
    && after.port == PortOr(update("port"), before.port)
    && after.database == StringOr(update("database"), before.database)
  }

  /** One line event: the field it names, if it assigns, takes its value
      (a property besides the five is added) and every other field keeps
      its value. */
  lemma OnLineEffect(st: ReaderState, line: string)
    ensures FieldsAfter(OnLine(st, line).obj.fields, st.obj.fields, k => Assigned(line, k))
    ensures OnLine(st, line).obj.extra.Keys
      == st.obj.extra.Keys + (if AddsKey(line) then {LineKey(line)} else {})
  {
    var o := OnLine(st, line).obj;
    var key := LineKey(line);
    if Assigns(line) {
      assert key != ProtoKey ==> Get(o, key) == if key == "port" then Number(ToNumber(LineValue(line))) else Str(LineValue(line));
      assert forall k :: k != key ==> Get(o, k) == Get(st.obj, k);
    } else {
      assert o == st.obj;
    }
  }

  /** After the lines, each field holds the value of the last line that
      assigns it (converted by `Number` for the port) or what it held
      before. */
  lemma {:induction false} FeedFields(st: ReaderState, lines: seq<string>)
    ensures FieldsAfter(Feed(st, lines).obj.fields, st.obj.fields, k => LastValue(lines, k))
    decreases |lines|
  {
    if |lines| > 0 {
      var next := OnLine(st, lines[0]);
      FeedFields(next, lines[1..]);
      OnLineEffect(st, lines[0]);
    }
  }

  /** The properties besides the five are those some line added. */
  lemma {:induction false} FeedAddedKeys(st: ReaderState, lines: seq<string>)
    ensures Feed(st, lines).obj.extra.Keys == st.obj.extra.Keys + AddedKeys(lines)
    ensures WellFormed(st.obj) ==> WellFormed(Feed(st, lines).obj)
    decreases |lines|
  {
    if |lines| > 0 {
      FeedAddedKeys(OnLine(st, lines[0]), lines[1..]);
      OnLineEffect(st, lines[0]);
    }
  }

  /** The promise is rejected by the first offending line, unless it was
      rejected already. */
  lemma {:induction false} FeedRejected(st: ReaderState, lines: seq<string>)
    ensures Feed(st, lines).rejected
      == if st.rejected.Some? then st.rejected else FirstError(lines)
    decreases |lines|
  {
    if |lines| > 0 {
      FeedRejected(OnLine(st, lines[0]), lines[1..]);
    }
  }

  // ---------------------------------------------------------------------
  // the outcome of readConfig
  // ---------------------------------------------------------------------

  /** The settings the lines spell out over the defaults. */
  function FileSettings(lines: seq<string>): DatabaseConfig {
    DatabaseConfig(
      StringOr(LastValue(lines, "user"), Defaults.fields.user),
      PasswordOr(LastValue(lines, "password"), Defaults.fields.password),
      StringOr(LastValue(lines, "host"), Defaults.fields.host),
      PortOr(LastValue(lines, "port"), Defaults.fields.port),
      StringOr(LastValue(lines, "database"), Defaults.fields.database))
  }

  /** `readConfig` rejects with the first offending line's error; failing
      that, with "Incomplete database configuration" when some line added a
      key besides the five; and otherwise resolves with the defaults
      overwritten by the last assignment to each field. */
  lemma ReadConfigOutcome(lines: seq<string>)
    ensures ReadConfig(lines)
      == if FirstError(lines).Some? then Failure(FirstError(lines).value)
         else if AddedKeys(lines) != {} then Failure(IncompleteConfiguration)
         else Success(FileSettings(lines))
  {
    var st := ReaderState(Defaults, None);
    FeedFields(st, lines);
    FeedAddedKeys(st, lines);
    FeedRejected(st, lines);
    var f := Feed(st, lines);
    assert f.obj.extra == map[] <==> f.obj.extra.Keys == {};
  }

  /** An empty file resolves with the defaults. */
  lemma EmptyFileGivesDefaults()
    ensures ReadConfig([]) == Success(DatabaseConfig("", None, "", Num(0), ""))
  {
    ReadConfigOutcome([]);
  }

  lemma {:induction false} FirstErrorIsFirst(lines: seq<string>, i: nat)
    requires i < |lines| && LineError(lines[i]).Some?
    requires forall j :: 0 <= j < i ==> LineError(lines[j]).None?
    ensures FirstError(lines) == LineError(lines[i])
  {
    if i > 0 {
      FirstErrorIsFirst(lines[1..], i - 1);
    }
  }

  lemma {:induction false} FirstErrorNone(lines: seq<string>)
    ensures FirstError(lines).None? <==> forall i :: 0 <= i < |lines| ==> LineError(lines[i]).None?
  {
    if |lines| > 0 {
      FirstErrorNone(lines[1..]);
      assert forall i :: 1 <= i < |lines| ==> lines[i] == lines[1..][i - 1];
    }
  }

  lemma {:induction false} AddedKeysEmpty(lines: seq<string>)
    ensures AddedKeys(lines) == {} <==> forall i :: 0 <= i < |lines| ==> !AddsKey(lines[i])
  {
    if |lines| > 0 {
      AddedKeysEmpty(lines[1..]);
      assert forall i :: 1 <= i < |lines| ==> lines[i] == lines[1..][i - 1];
    }
  }

  /** The line whose error the promise is rejected with is the first line
      that causes one: the lines after it are not looked at. */
  lemma FirstErrorWins(lines: seq<string>, i: nat)
    requires i < |lines| && LineError(lines[i]).Some?
    requires forall j :: 0 <= j < i ==> LineError(lines[j]).None?
    ensures ReadConfig(lines) == Failure(LineError(lines[i]).value)
  {
    FirstErrorIsFirst(lines, i);
    ReadConfigOutcome(lines);
  }

  /** `readConfig` resolves exactly when every line is a `key=value`
      assignment with a numeric port and no key outside the five (other
      than `__proto__`). */
  lemma ReadConfigSucceedsIff(lines: seq<string>)
    ensures ReadConfig(lines).Success?
      <==> forall i :: 0 <= i < |lines| ==> LineError(lines[i]).None? && !AddsKey(lines[i])
  {
    ReadConfigOutcome(lines);
    FirstErrorNone(lines);
    AddedKeysEmpty(lines);
  }

  /** `LastValue` is the value of the last assigning line: it is the one
      of line `i` when no later line assigns to `key`, and none when no
      line does. */
  lemma {:induction false} LastValueIsLast(lines: seq<string>, key: string, i: nat)
    requires i < |lines| && Assigned(lines[i], key).Some?
    requires forall j :: i < j < |lines| ==> Assigned(lines[j], key).None?
    ensures LastValue(lines, key) == Assigned(lines[i], key)
  {
    if i == 0 {
      LastValueNone(lines[1..], key);
      assert forall j :: 0 <= j < |lines[1..]| ==> lines[1..][j] == lines[j + 1];
    } else {
      LastValueIsLast(lines[1..], key, i - 1);
    }
  }

  lemma {:induction false} LastValueNone(lines: seq<string>, key: string)
    ensures LastValue(lines, key).None? <==> forall j :: 0 <= j < |lines| ==> Assigned(lines[j], key).None?
  {
    if |lines| > 0 {
      LastValueNone(lines[1..], key);
      assert forall j :: 1 <= j < |lines| ==> lines[j] == lines[1..][j - 1];
    }
  }

  lemma {:induction false} LastValueFromSomeLine(lines: seq<string>, key: string)
    requires LastValue(lines, key).Some?
    ensures exists i :: 0 <= i < |lines| && Assigned(lines[i], key) == LastValue(lines, key)
  {
    if LastValue(lines[1..], key).Some? {
      LastValueFromSomeLine(lines[1..], key);
      var i :| 0 <= i < |lines[1..]| && Assigned(lines[1..][i], key) == LastValue(lines[1..], key);
      assert lines[1..][i] == lines[i + 1];
    } else {
      assert Assigned(lines[0], key) == LastValue(lines, key);
    }
  }

  /** A resolved configuration always has a numeric port: a port line that
      is not a number has rejected the promise. */
  lemma ResolvedPortIsNumber(lines: seq<string>)
    ensures ReadConfig(lines).Success? ==> ReadConfig(lines).value.port.Num?
  {
    ReadConfigOutcome(lines);
    if ReadConfig(lines).Success? && LastValue(lines, "port").Some? {
      FirstErrorNone(lines);
      LastValueFromSomeLine(lines, "port");
    }
  }
}
