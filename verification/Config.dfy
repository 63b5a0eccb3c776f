/** The saved configuration (crates/folk-core/src/lib.rs): text to record and back. */
module Config {
  import opened Wrappers
  import opened Text

  const U16_MAX := 65535

  type U16 = n: nat | n <= U16_MAX

  datatype AppConfig = AppConfig(
    signalUrl: Option<string>,
    room: Option<string>,
    httpPort: Option<U16>,
    mode: Option<string>)

  const DEFAULT := AppConfig(None, None, None, None)

  datatype Key = SignalUrl | Room | HttpPort | Mode

  function KeyName(key: Key): string {
    match key
    case SignalUrl => "signal_url"
    case Room => "room"
    case HttpPort => "http_port"
    case Mode => "mode"
  }

  function KeyOf(name: string): Option<Key> {
    if name == "signal_url" then Some(SignalUrl)
    else if name == "room" then Some(Room)
    else if name == "http_port" then Some(HttpPort)
    else if name == "mode" then Some(Mode)
    else None
  }

  /** The setting one line makes, if it makes one. */
  function Setting(rawLine: string): (r: Option<(Key, string)>)
    ensures r.Some? ==> r.value.1 != "" && Trimmed(r.value.1)
    ensures r.Some? && OneLine(rawLine) ==> OneLine(r.value.1)
  {
    match SplitOnce(Trim(rawLine), '=')
    case None => None
    case Some((name, rawValue)) =>
      var value := Trim(rawValue);
      if value == "" then None
      else match KeyOf(Trim(name))
           case None => None
           case Some(key) => Some((key, value))
  }

  function Set(config: AppConfig, key: Key, value: string): AppConfig {
    match key
    case SignalUrl => config.(signalUrl := Some(value))
    case Room => config.(room := Some(value))
    case HttpPort => config.(httpPort := ParseUnsigned(value, U16_MAX))
    case Mode => config.(mode := Some(value))
  }

  /** The settings the lines make, in file order. */
  function Settings(lines: seq<string>): seq<(Key, string)> {
    if lines == [] then []
    else
      match Setting(lines[0])
      case None => Settings(lines[1..])
      case Some(setting) => [setting] + Settings(lines[1..])
  }

  function Apply(config: AppConfig, settings: seq<(Key, string)>): AppConfig
    decreases |settings|
  {
    if settings == [] then config
    else Apply(Set(config, settings[0].0, settings[0].1), settings[1..])
  }

  /** What load_config makes of a file's text. */
  function Load(contents: string): AppConfig {
    Apply(DEFAULT, Settings(Lines(contents)))
  }

  function Field(key: string, value: Option<string>): string {
    match value
    case None => ""
    case Some(v) => key + "=" + v + "\n"
  }

  function PortText(port: Option<U16>): Option<string> {
    match port
    case None => None
    case Some(n) => Some(PrintNat(n))
  }

  /** The text save_config writes. */
  function Save(config: AppConfig): string {
    Field(KeyName(SignalUrl), config.signalUrl) + Field(KeyName(Room), config.room)
    + Field(KeyName(HttpPort), PortText(config.httpPort)) + Field(KeyName(Mode), config.mode)
  }

  method LoadConfig(contents: string) returns (config: AppConfig)
    ensures config == Load(contents)
  {
    config := DEFAULT;
    var lines := Lines(contents);
    var i := 0;
    while i < |lines|
      invariant 0 <= i <= |lines|
      invariant Apply(config, Settings(lines[i..])) == Load(contents)
    {
      var setting := Setting(lines[i]);
      i := i + 1;
      if setting.None? {
        continue;
      }
      var (key, value) := setting.value;
      match key {
        case SignalUrl => config := config.(signalUrl := Some(value));
        case Room => config := config.(room := Some(value));
        case HttpPort => config := config.(httpPort := ParseUnsigned(value, U16_MAX));
        case Mode => config := config.(mode := Some(value));
      }
    }
  }

  method SaveConfig(config: AppConfig) returns (contents: string)
    ensures contents == Save(config)
  {
    contents := "";
    contents := AppendField(contents, SignalUrl, config.signalUrl);
    contents := AppendField(contents, Room, config.room);
    contents := AppendField(contents, HttpPort, PortText(config.httpPort));
    contents := AppendField(contents, Mode, config.mode);
  }

  method AppendField(contents: string, key: Key, value: Option<string>) returns (r: string)
    ensures r == contents + Field(KeyName(key), value)
  {
    r := contents;
    if value.Some? {
      r := r + KeyName(key);
      r := r + "=";
      r := r + value.value;
      r := r + "\n";
    }
  }

  // Which records survive.

  predicate StorableText(s: string) {
    s != "" && Trimmed(s) && OneLine(s)
  }

  predicate Storable(config: AppConfig) {
    && (config.signalUrl.Some? ==> StorableText(config.signalUrl.value))
    && (config.room.Some? ==> StorableText(config.room.value))
    && (config.mode.Some? ==> StorableText(config.mode.value))
  }

  ghost predicate AllStorable(settings: seq<(Key, string)>) {
    forall k :: 0 <= k < |settings| ==> StorableText(settings[k].1)
  }

  lemma {:induction false} SettingsStorable(lines: seq<string>)
    requires forall k :: 0 <= k < |lines| ==> OneLine(lines[k])
    ensures AllStorable(Settings(lines))
  {
    hide Setting;
    if lines != [] {
      SettingsStorable(lines[1..]);
      assert OneLine(lines[0]);
    }
  }

  lemma {:induction false} ApplyStorable(config: AppConfig, settings: seq<(Key, string)>)
    requires Storable(config) && AllStorable(settings)
    ensures Storable(Apply(config, settings))
    decreases |settings|
  {
    if settings != [] {
      assert StorableText(settings[0].1);
      ApplyStorable(Set(config, settings[0].0, settings[0].1), settings[1..]);
    }
  }

  /** Every loaded string is non-empty, trimmed and on one line, whatever the file held. */
  lemma LoadedIsStorable(contents: string)
    ensures Storable(Load(contents))
  {
    SettingsStorable(Lines(contents));
    ApplyStorable(DEFAULT, Settings(Lines(contents)));
  }

  // What one line says.

  /** A key and a value around the first '=', each with any white space about it. */
  ghost predicate Assigns(line: string, name: string, value: string) {
    exists left, right :: Sides(line, left, right) && Trim(left) == name && Trim(right) == value
  }

  ghost predicate Sides(line: string, left: string, right: string) {
    line == left + "=" + right && '=' !in left
  }

  lemma KeyNames()
    ensures KeyName(SignalUrl) == "signal_url" && KeyName(Room) == "room"
    ensures KeyName(HttpPort) == "http_port" && KeyName(Mode) == "mode"
  {
  }

  lemma NamesKey(name: string, key: Key)
    ensures KeyOf(name) == Some(key) <==> name == KeyName(key)
  {
  }

  lemma NoEquals(s: string)
    requires AllSpace(s)
    ensures '=' !in s
  {
    assert forall i :: 0 <= i < |s| ==> IsSpace(s[i]);
  }

  lemma SettingAssigns(line: string, key: Key, value: string)
    requires Setting(line) == Some((key, value))
    ensures value != "" && Assigns(line, KeyName(key), value)
  {
    hide Trim, AllSpace, KeyOf, KeyName;
    var (name, rawValue) := SplitOnce(Trim(line), '=').value;
    var before, after := TrimParts(line);
    var left, right := before + name, rawValue + after;
    NoEquals(before);
    assert line == left + "=" + right && '=' !in left;
    assert Sides(line, left, right);
    NoSpaceAround();
    TrimAround(before, name, "");
    TrimAround("", rawValue, after);
    assert before + name + "" == left && "" + rawValue + after == right;
    NamesKey(Trim(name), key);
  }

  /** A line in its parts: white space, name, white space, '=', white space, value, white space. */
  lemma AssignsParts(line: string, name: string, value: string)
    returns (before: string, left: string, right: string, after: string)
    requires Assigns(line, name, value) && Trimmed(name) && name != "" && '=' !in name && value != ""
    ensures line == before + (left + ['='] + right) + after && AllSpace(before) && AllSpace(after)
    ensures '=' !in left && Trim(left) == name && Trim(right) == value && Trimmed(left + ['='] + right)
  {
    hide Trim, AllSpace;
    var l, r :| Sides(line, l, r) && Trim(l) == name && Trim(r) == value;
    var lb, la := TrimParts(l);
    var rb, ra := TrimParts(r);
    NoEquals(la);
    before, left, right, after := lb, name + la, rb + value, ra;
    assert line == before + (left + ['='] + right) + after;
    NoSpaceAround();
    TrimAround("", name, la);
    TrimAround(rb, value, "");
    assert "" + name + la == left && rb + value + "" == right;
    TrimOfTrimmed(name);
    assert Trimmed(value) by { TrimOfTrimmed(name); }
    TrimOfTrimmed(value);
    var core := left + ['='] + right;
    assert core[0] == name[0] && core[|core| - 1] == value[|value| - 1];
  }

  lemma NoSpaceAround()
    ensures AllSpace("")
  {
  }

  lemma AssignsSetting(line: string, key: Key, value: string)
    requires value != "" && Assigns(line, KeyName(key), value)
    ensures Setting(line) == Some((key, value))
  {
    hide Trim, AllSpace, KeyName, KeyOf, Assigns;
    KeyRoundTrip(key);
    var before, left, right, after := AssignsParts(line, KeyName(key), value);
    TrimPadded(before, left + ['='] + right, after);
    SplitOnceFirst(left, '=', right);
  }

  /** A line sets a key exactly when it assigns it a value that is not blank; the name and the
      value may have white space around them, and the value may have further '='. */
  lemma SettingExactly(line: string, key: Key, value: string)
    ensures Setting(line) == Some((key, value)) <==> value != "" && Assigns(line, KeyName(key), value)
  {
    hide Setting, Assigns;
    if Setting(line) == Some((key, value)) {
      SettingAssigns(line, key, value);
    }
    if value != "" && Assigns(line, KeyName(key), value) {
      AssignsSetting(line, key, value);
    }
  }

  lemma FieldExactly(value: string)
    ensures Field(KeyName(SignalUrl), Some(value)) == "signal_url=" + value + "\n"
    ensures Field(KeyName(Room), Some(value)) == "room=" + value + "\n"
    ensures Field(KeyName(HttpPort), Some(value)) == "http_port=" + value + "\n"
    ensures Field(KeyName(Mode), Some(value)) == "mode=" + value + "\n"
    ensures forall name :: Field(name, None) == ""
  {
  }

  /** The text of a record; a field that is absent has no line. */
  lemma SaveExactly(config: AppConfig)
    ensures var url := if config.signalUrl.Some? then "signal_url=" + config.signalUrl.value + "\n" else "";
            var room := if config.room.Some? then "room=" + config.room.value + "\n" else "";
            var port := if config.httpPort.Some? then "http_port=" + PrintNat(config.httpPort.value) + "\n" else "";
            var mode := if config.mode.Some? then "mode=" + config.mode.value + "\n" else "";
            Save(config) == url + room + port + mode
  {
    hide PrintNat, Field, KeyName;
    FieldExactly(if config.signalUrl.Some? then config.signalUrl.value else "");
    FieldExactly(if config.room.Some? then config.room.value else "");
    FieldExactly(if config.httpPort.Some? then PrintNat(config.httpPort.value) else "");
    FieldExactly(if config.mode.Some? then config.mode.value else "");
  }

  // Reading back a written field.

  lemma KeyRoundTrip(key: Key)
    ensures KeyOf(KeyName(key)) == Some(key)
    ensures KeyName(key) != "" && Trimmed(KeyName(key))
    ensures '=' !in KeyName(key) && OneLine(KeyName(key))
  {
  }

  lemma FieldSetting(key: Key, value: string)
    requires StorableText(value)
    ensures Setting(StripCr(KeyName(key) + "=" + value)) == Some((key, value))
  {
    KeyRoundTrip(key);
    var name := KeyName(key);
    var line := name + "=" + value;
    assert line[0] == name[0] && line[|line| - 1] == value[|value| - 1];
    TrimOfTrimmed(line);
    SplitOnceFirst(name, '=', value);
    TrimOfTrimmed(name);
    TrimOfTrimmed(value);
  }

  function Written(key: Key, value: Option<string>): seq<(Key, string)> {
    if value.Some? then [(key, value.value)] else []
  }

  lemma FieldSettings(key: Key, value: Option<string>, rest: string)
    requires value.Some? ==> StorableText(value.value)
    ensures Settings(Lines(Field(KeyName(key), value) + rest)) == Written(key, value) + Settings(Lines(rest))
  {
    var name := KeyName(key);
    if value.Some? {
      var line := name + "=" + value.value;
      assert Field(name, value) + rest == line + "\n" + rest;
      KeyRoundTrip(key);
      LinesCons(line, rest);
      FieldSetting(key, value.value);
    } else {
      assert Field(name, value) + rest == rest;
    }
  }

  /** A record's settings, overridden by those a saved record has. */
  function Overridden(config: AppConfig, saved: AppConfig): AppConfig {
    AppConfig(
      if saved.signalUrl.Some? then saved.signalUrl else config.signalUrl,
      if saved.room.Some? then saved.room else config.room,
      if saved.httpPort.Some? then saved.httpPort else config.httpPort,
      if saved.mode.Some? then saved.mode else config.mode)
  }

  lemma EmptySettings()
    ensures Settings(Lines("")) == []
  {
  }

  /** The settings a saved record's text makes. */
  lemma SavedSettings(saved: AppConfig)
    requires Storable(saved)
    ensures Settings(Lines(Save(saved)))
            == Written(SignalUrl, saved.signalUrl) + Written(Room, saved.room)
               + Written(HttpPort, PortText(saved.httpPort)) + Written(Mode, saved.mode)
  {
    hide Settings, Lines, KeyName;
    var port := PortText(saved.httpPort);
    if saved.httpPort.Some? {
      PrintIsPlain(saved.httpPort.value);
    }
    var rest3 := Field(KeyName(Mode), saved.mode) + "";
    var rest2 := Field(KeyName(HttpPort), port) + rest3;
    var rest1 := Field(KeyName(Room), saved.room) + rest2;
    assert Save(saved) == Field(KeyName(SignalUrl), saved.signalUrl) + rest1;
    FieldSettings(SignalUrl, saved.signalUrl, rest1);
    FieldSettings(Room, saved.room, rest2);
    FieldSettings(HttpPort, port, rest3);
    FieldSettings(Mode, saved.mode, "");
    EmptySettings();
  }

  lemma ApplyWritten(config: AppConfig, key: Key, value: Option<string>, rest: seq<(Key, string)>)
    ensures Apply(config, Written(key, value) + rest)
            == Apply(if value.Some? then Set(config, key, value.value) else config, rest)
  {
    if value.Some? {
      assert ([(key, value.value)] + rest)[1..] == rest;
    } else {
      assert [] + rest == rest;
    }
  }

  lemma SavedApplied(config: AppConfig, saved: AppConfig)
    requires Storable(saved)
    ensures Apply(config, Settings(Lines(Save(saved)))) == Overridden(config, saved)
  {
    hide Settings, Lines, Save;
    SavedSettings(saved);
    var port := PortText(saved.httpPort);
    if saved.httpPort.Some? {
      ParsePrint(saved.httpPort.value, U16_MAX);
    }
    var w1, w2 := Written(SignalUrl, saved.signalUrl), Written(Room, saved.room);
    var w3, w4 := Written(HttpPort, port), Written(Mode, saved.mode);
    assert w1 + w2 + w3 + w4 == w1 + (w2 + (w3 + (w4 + [])));
    var c1 := config.(signalUrl := if saved.signalUrl.Some? then saved.signalUrl else config.signalUrl);
    var c2 := c1.(room := if saved.room.Some? then saved.room else c1.room);
    var c3 := c2.(httpPort := if saved.httpPort.Some? then saved.httpPort else c2.httpPort);
    ApplyWritten(config, SignalUrl, saved.signalUrl, w2 + (w3 + (w4 + [])));
    ApplyWritten(c1, Room, saved.room, w3 + (w4 + []));
    ApplyWritten(c2, HttpPort, port, w4 + []);
    ApplyWritten(c3, Mode, saved.mode, []);
  }

  lemma {:induction false} ApplyConcat(config: AppConfig, a: seq<(Key, string)>, b: seq<(Key, string)>)
    ensures Apply(config, a + b) == Apply(Apply(config, a), b)
    decreases |a|
  {
    if a == [] {
      assert a + b == b;
    } else {
      assert (a + b)[0] == a[0] && (a + b)[1..] == a[1..] + b;
      ApplyConcat(Set(config, a[0].0, a[0].1), a[1..], b);
    }
  }

  lemma {:induction false} SettingsConcat(a: seq<string>, b: seq<string>)
    ensures Settings(a + b) == Settings(a) + Settings(b)
  {
    if a == [] {
      assert a + b == b;
    } else {
      assert (a + b)[0] == a[0] && (a + b)[1..] == a[1..] + b;
      SettingsConcat(a[1..], b);
    }
  }

  lemma LoadConcat(a: string, b: string)
    requires a == "" || a[|a| - 1] == '\n'
    ensures Load(a + b) == Apply(Load(a), Settings(Lines(b)))
  {
    LinesConcat(a, b);
    SettingsConcat(Lines(a), Lines(b));
    ApplyConcat(DEFAULT, Settings(Lines(a)), Settings(Lines(b)));
  }

  /** Appending a saved record to a file whose last line is complete overrides exactly the
      settings the record has: later lines win. */
  lemma LoadAppended(contents: string, saved: AppConfig)
    requires contents == "" || contents[|contents| - 1] == '\n'
    requires Storable(saved)
    ensures Load(contents + Save(saved)) == Overridden(Load(contents), saved)
  {
    LoadConcat(contents, Save(saved));
    SavedApplied(Load(contents), saved);
  }

  /** A port that does not parse clears a port set by an earlier line. */
  lemma BadPortClears(contents: string, value: string)
    requires contents == "" || contents[|contents| - 1] == '\n'
    requires StorableText(value) && ParseUnsigned(value, U16_MAX) == None
    ensures Load(contents + Field(KeyName(HttpPort), Some(value))) == Load(contents).(httpPort := None)
  {
    var field := Field(KeyName(HttpPort), Some(value));
    assert field == field + "";
    LoadConcat(contents, field);
    FieldSettings(HttpPort, Some(value), "");
  }

  /** Saving then loading returns the record exactly when its strings are storable. */
  lemma RoundTrip(config: AppConfig)
    ensures Load(Save(config)) == config <==> Storable(config)
  {
    LoadedIsStorable(Save(config));
    if Storable(config) {
      LoadAppended("", config);
      assert "" + Save(config) == Save(config);
    }
  }

  /** Loading, saving and loading again changes nothing, for every text. */
  lemma Canonical(contents: string)
    ensures Load(Save(Load(contents))) == Load(contents)
  {
    LoadedIsStorable(contents);
    RoundTrip(Load(contents));
  }
}
