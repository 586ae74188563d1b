/** A profile: one named set of formatter settings, and the line-based text
    form in which profiles are stored (ToParseString / FromParseString). */
module ProfileModel {
  import opened Text
  import opened SettingText

  /** Profile.DefaultCommandLine, written as its literal pieces and the
      placeholders between them. */
  const DefaultCommandLine: string :=
    "-c \"" + "%CFGFILE%" + "\" -q -l " + "%LANGUAGE%" + " --no-backup \"" + "%FILE%" + "\""

  /** The settings a profile holds, as a value. */
  datatype ProfileValue = ProfileValue(
    name: string,
    programFilePath: string,
    commandLine: string,
    cfgFilePath: string,
    languageFilter: LanguageFilter,
    enableFragmentFormatting: bool,
    formatOnDocumentOpened: bool,
    formatOnDocumentSaved: bool)

  /** The settings Reset gives a profile of the given name. */
  function Defaults(name: string): ProfileValue
  {
    ProfileValue(name, "", DefaultCommandLine, "", All, true, false, false)
  }

  /** A profile, whose fields the options pages and the registry update in
      place. */
  class Profile {
    var name: string
    var programFilePath: string
    var commandLine: string
    var cfgFilePath: string
    var languageFilter: LanguageFilter
    var enableFragmentFormatting: bool
    var formatOnDocumentOpened: bool
    var formatOnDocumentSaved: bool

    /** The profile's current settings. */
    function Value(): ProfileValue
      reads this
    {
      ProfileValue(name, programFilePath, commandLine, cfgFilePath, languageFilter,
                   enableFragmentFormatting, formatOnDocumentOpened, formatOnDocumentSaved)
    }

    /** A new profile holds the default settings under the given name. */
    constructor (newName: string)
      ensures Value() == Defaults(newName)
    {
      name := newName;
      programFilePath := "";
      commandLine := DefaultCommandLine;
      cfgFilePath := "";
      languageFilter := All;
      enableFragmentFormatting := true;
      formatOnDocumentOpened := false;
      formatOnDocumentSaved := false;
    }

    /** Reset: back to the default settings; the name is replaced only when
        a new one is given (null keeps the old name). */
    method Reset(newName: Option<string>)
      modifies this
      ensures Value() == Defaults(if newName.Some? then newName.value else old(name))
    {
      name := if newName.Some? then newName.value else name;
      programFilePath := "";
      commandLine := DefaultCommandLine;
      cfgFilePath := "";
      languageFilter := All;
      enableFragmentFormatting := true;
      formatOnDocumentOpened := false;
      formatOnDocumentSaved := false;
    }

    /** CopyFrom: takes over every setting of other except its name. */
    method CopyFrom(other: Profile)
      modifies this
      ensures Value() == old(other.Value()).(name := old(name))
      ensures other != this ==> other.Value() == old(other.Value())
    {
      programFilePath := other.programFilePath;
      commandLine := other.commandLine;
      cfgFilePath := other.cfgFilePath;
      languageFilter := other.languageFilter;
      enableFragmentFormatting := other.enableFragmentFormatting;
      formatOnDocumentOpened := other.formatOnDocumentOpened;
      formatOnDocumentSaved := other.formatOnDocumentSaved;
    }

    /** The assignment FromParseString makes for one key and its value. */
    method SetField(key: string, value: string)
      modifies this
      ensures Value() == ApplyField(old(Value()), key, value)
    {
      if key == "ProfileName" {
        name := value;
      } else if key == "CmdLine" {
        commandLine := value;
      } else if key == "ExeName" {
        programFilePath := value;
      } else if key == "ConfigFilePath" {
        cfgFilePath := value;
      } else if key == "LanguageFilter" {
        languageFilter := match ParseLanguage(value) case Some(l) => l case None => All;
      } else if key == "EnableFragmentProcessing" {
        enableFragmentFormatting := ParseBool(value) == Some(true);
      } else if key == "FormatOnDocOpened" {
        formatOnDocumentOpened := ParseBool(value) == Some(true);
      } else if key == "FormatOnDocSaved" {
        formatOnDocumentSaved := ParseBool(value) == Some(true);
      }
    }

    /** ToParseString: the text form of the profile's settings. */
    function ToParseString(): string
      reads this
    {
      Serialize(Value())
    }
  }

  // ------------------------------------------------------------ text form

  /** A key line: the key, a space, the value. */
  function KeyLine(key: string, value: string): string
  {
    key + " " + value
  }

  /** The key lines of a profile, in the order they are written. */
  function FieldLines(v: ProfileValue): seq<string>
  {
    [KeyLine("ConfigFilePath", v.cfgFilePath),
     KeyLine("CmdLine", v.commandLine),
     KeyLine("EnableFragmentProcessing", BoolName(v.enableFragmentFormatting)),
     KeyLine("ExeName", v.programFilePath),
     KeyLine("FormatOnDocOpened", BoolName(v.formatOnDocumentOpened)),
     KeyLine("FormatOnDocSaved", BoolName(v.formatOnDocumentSaved)),
     KeyLine("LanguageFilter", LanguageName(v.languageFilter)),
     KeyLine("ProfileName", v.name)]
  }

  /** Each line followed by '\n'. */
  function JoinLines(lines: seq<string>): string
  {
    if lines == [] then [] else lines[0] + "\n" + JoinLines(lines[1..])
  }

  /** ToParseString: "{", the key lines, "}", each ended by '\n'. */
  function Serialize(v: ProfileValue): string
  {
    "{\n" + JoinLines(FieldLines(v)) + "}\n"
  }

  /** The effect of one key and its value on the profile being read: the
      four text settings take the value as it is, the language filter and
      the flags take what TryParse makes of it (All and false when it
      fails), and an unknown key changes nothing. */
  function ApplyField(v: ProfileValue, key: string, value: string): ProfileValue
  {
    if key == "ProfileName" then v.(name := value)
    else if key == "CmdLine" then v.(commandLine := value)
    else if key == "ExeName" then v.(programFilePath := value)
    else if key == "ConfigFilePath" then v.(cfgFilePath := value)
    else if key == "LanguageFilter" then
      v.(languageFilter := match ParseLanguage(value) case Some(l) => l case None => All)
    else if key == "EnableFragmentProcessing" then v.(enableFragmentFormatting := ParseBool(value) == Some(true))
    else if key == "FormatOnDocOpened" then v.(formatOnDocumentOpened := ParseBool(value) == Some(true))
    else if key == "FormatOnDocSaved" then v.(formatOnDocumentSaved := ParseBool(value) == Some(true))
    else v
  }

  /** The effect of one trimmed line: split at its first space, which must
      not be its first character; a line without one changes nothing. */
  function ApplyLine(v: ProfileValue, line: string): ProfileValue
  {
    var splitPos := IndexOf(line, ' ');
    if splitPos > 0 then ApplyField(v, line[..splitPos], line[splitPos + 1..]) else v
  }

  /** The first loop of FromParseString: the text after the first line that
      trims to "{", or None when the input ends first. */
  function SkipToOpen(text: string): (r: Option<string>)
    ensures r.Some? ==> |r.value| < |text|
    decreases |text|
  {
    match ReadLine(text)
    case None => None
    case Some((line, rest)) =>
      if Trim(line) == "{" then Some(rest) else SkipToOpen(rest)
  }

  /** The second loop of FromParseString: applies the trimmed lines to v up
      to the line that trims to "}", and gives the settings and the text after
      that line; None when the input ends first. */
  function ReadFields(text: string, v: ProfileValue): (r: Option<(ProfileValue, string)>)
    ensures r.Some? ==> |r.value.1| < |text|
    decreases |text|
  {
    match ReadLine(text)
    case None => None
    case Some((line, rest)) =>
      if Trim(line) == "}" then Some((v, rest)) else ReadFields(rest, ApplyLine(v, Trim(line)))
  }

  /** FromParseString as a value: the profile read from the front of text
      (starting from a profile with an empty name and the default settings)
      and the text after it, or None where the source returns null. */
  function ParseProfile(text: string): (r: Option<(ProfileValue, string)>)
    ensures r.Some? ==> |r.value.1| < |text|
  {
    match SkipToOpen(text)
    case None => None
    case Some(rest) => ReadFields(rest, Defaults(""))
  }

  /** FromParseString. The reference parameter text comes back as newText:
      the unread rest after a profile, unchanged when there was none. */
  method FromParseString(text: string) returns (p: Profile?, newText: string)
    ensures ParseProfile(text).None? ==> p == null && newText == text
    ensures ParseProfile(text).Some? ==>
      p != null && fresh(p) && p.Value() == ParseProfile(text).value.0 && newText == ParseProfile(text).value.1
  {
    var profile := new Profile("");
    var start := FindOpen(text);
    if start.None? {
      return null, text;
    }
    var unread := start.value;
    var line := ReadLine(unread);
    while line.Some?
      invariant fresh(profile)
      invariant line == ReadLine(unread)
      invariant ParseProfile(text) == ReadFields(unread, profile.Value())
      decreases |unread|
    {
      var trimmed := Trim(line.value.0);
      if trimmed == "}" {
        return profile, line.value.1;
      }
      var splitPos := IndexOf(trimmed, ' ');
      if splitPos > 0 {
        profile.SetField(trimmed[..splitPos], trimmed[splitPos + 1..]);
      }
      unread := line.value.1;
      line := ReadLine(unread);
    }
    return null, text;
  }

  /** The first loop of FromParseString: reads lines up to the one that
      trims to "{" and gives the text after it, or None at the end of the
      input. */
  method FindOpen(text: string) returns (start: Option<string>)
    ensures start == SkipToOpen(text)
  {
    var unread := text;
    var line := ReadLine(unread);
    while line.None? || Trim(line.value.0) != "{"
      invariant line == ReadLine(unread)
      invariant SkipToOpen(text) == SkipToOpen(unread)
      decreases |unread|
    {
      if line.None? {
        return None;
      }
      unread := line.value.1;
      line := ReadLine(unread);
    }
    return Some(line.value.1);
  }

  // ------------------------------------------------------------ round trip

  /** A text setting that survives its line: no line break in it, and no
      whitespace at its end (the reader trims each line). */
  predicate LineSafe(s: string)
  {
    (forall k :: 0 <= k < |s| ==> s[k] != '\r' && s[k] != '\n')
    && (s == [] || !IsWhiteSpace(s[|s| - 1]))
  }

  /** The settings that the text form carries unchanged: line-safe text
      settings and a non-empty command line (an empty one is written as a
      line without a value, which the reader skips, leaving the default). */
  predicate Storable(v: ProfileValue)
  {
    LineSafe(v.name) && LineSafe(v.programFilePath) && LineSafe(v.cfgFilePath)
    && LineSafe(v.commandLine) && v.commandLine != []
  }

  /** A key: a non-empty run of ASCII letters. */
  predicate IsKey(key: string)
  {
    key != [] && forall k :: 0 <= k < |key| ==> ('A' <= key[k] <= 'Z' || 'a' <= key[k] <= 'z')
  }

  /** A written key line is read back as its key and value; a line with an
      empty value is read as the bare key and changes nothing. */
  lemma KeyLineEffect(v: ProfileValue, key: string, value: string)
    requires IsKey(key) && LineSafe(value)
    ensures LineFree(KeyLine(key, value)) && Trim(KeyLine(key, value)) != "}"
    ensures ApplyLine(v, Trim(KeyLine(key, value))) == if value == [] then v else ApplyField(v, key, value)
  {
    KeyLineFree(key, value);
    if value == [] {
      BareKeyLine(v, key);
    } else {
      ValueLine(v, key, value);
    }
  }

  /** A key line with an empty value trims to the bare key, which has no
      space and so changes nothing. */
  lemma BareKeyLine(v: ProfileValue, key: string)
    requires IsKey(key)
    ensures Trim(KeyLine(key, [])) == key && key != "}"
    ensures ApplyLine(v, key) == v
  {
    var line := KeyLine(key, []);
    assert line == key + " ";
    KeyTrimsTo(key, line);
    assert IndexOf(key, ' ') == -1 by {
      assert forall k :: 0 <= k < |key| ==> key[k] != ' ';
    }
    assert key[0] != '}';
  }

  /** A key line with a line-safe non-empty value is its own trim, and it
      splits at the space after the key. */
  lemma ValueLine(v: ProfileValue, key: string, value: string)
    requires IsKey(key) && LineSafe(value) && value != []
    ensures Trim(KeyLine(key, value)) == KeyLine(key, value) && KeyLine(key, value) != "}"
    ensures ApplyLine(v, KeyLine(key, value)) == ApplyField(v, key, value)
  {
    var line := KeyLine(key, value);
    KeyLineTrim(key, value, line);
    KeyLineSplit(key, value, line);
  }

  /** A key line whose value ends in a non-whitespace character is its own
      trim. */
  lemma KeyLineTrim(key: string, value: string, line: string)
    requires IsKey(key) && value != [] && !IsWhiteSpace(value[|value| - 1]) && line == key + " " + value
    ensures Trim(line) == line && line != "}"
  {
    assert line[0] == key[0];
    assert !IsWhiteSpace(line[0]);
    assert line[|line| - 1] == value[|value| - 1];
  }

  /** A key line's first space is the one after the key. */
  lemma KeyLineSplit(key: string, value: string, line: string)
    requires IsKey(key) && line == key + " " + value
    ensures IndexOf(line, ' ') == |key| && line[..|key|] == key && line[|key| + 1..] == value
  {
    assert line[|key|] == ' ';
    assert forall k :: 0 <= k < |key| ==> line[k] == key[k];
    IndexOfFirst(line, ' ', |key|);
    assert line[..|key|] == key;
    assert line[|key| + 1..] == value;
  }

  /** A key line of a line-safe value holds no line break. */
  lemma KeyLineFree(key: string, value: string)
    requires IsKey(key) && LineSafe(value)
    ensures LineFree(KeyLine(key, value))
  {
    var line := KeyLine(key, value);
    forall k | 0 <= k < |line|
      ensures line[k] != '\r' && line[k] != '\n'
    {
      if k < |key| {
        assert line[k] == key[k];
      } else if k > |key| {
        assert line[k] == value[k - |key| - 1];
      }
    }
  }

  /** A key followed by a space trims to the key. */
  lemma KeyTrimsTo(key: string, line: string)
    requires IsKey(key) && line == key + " "
    ensures Trim(line) == key
  {
    assert line[0] == key[0] && !IsWhiteSpace(line[0]);
    var s := TrimStart(line);
    assert s == line;
    var r := TrimEnd(s);
    assert line[|key| - 1] == key[|key| - 1] && !IsWhiteSpace(line[|key| - 1]);
    assert |r| == |key|;
    assert r == line[..|key|] == key;
  }

  /** A line with no line break in it. */
  predicate LineFree(line: string)
  {
    forall k :: 0 <= k < |line| ==> line[k] != '\r' && line[k] != '\n'
  }

  /** Reading line moves the settings from w to w': the line is a single
      line, does not close the profile, and its effect on w is w'. */
  predicate LineStep(line: string, w: ProfileValue, w': ProfileValue)
  {
    LineFree(line) && Trim(line) != "}" && ApplyLine(w, Trim(line)) == w'
  }

  /** Reading joined lines, none of which trims to "}", applies them in
      order: ws holds the settings before and after each line. */
  lemma {:induction false} ReadThrough(lines: seq<string>, ws: seq<ProfileValue>, tail: string)
    requires |ws| == |lines| + 1
    requires forall i :: 0 <= i < |lines| ==> LineStep(lines[i], ws[i], ws[i + 1])
    ensures ReadFields(JoinLines(lines) + tail, ws[0]) == ReadFields(tail, ws[|lines|])
    decreases |lines|
  {
    if lines != [] {
      var rest := JoinLines(lines[1..]) + tail;
      assert JoinLines(lines) + tail == lines[0] + "\n" + rest;
      assert forall c :: c in lines[0] ==> c != '\r' && c != '\n' by {
        assert LineStep(lines[0], ws[0], ws[1]);
      }
      ReadLineOfLine(lines[0], rest);
      ReadThrough(lines[1..], ws[1..], tail);
    } else {
      assert JoinLines(lines) + tail == tail;
    }
  }

  /** The settings after each key line of v is read onto the defaults. */
  function Stages(v: ProfileValue): seq<ProfileValue>
  {
    var w0 := Defaults("");
    var w1 := w0.(cfgFilePath := v.cfgFilePath);
    var w2 := w1.(commandLine := v.commandLine);
    var w3 := w2.(enableFragmentFormatting := v.enableFragmentFormatting);
    var w4 := w3.(programFilePath := v.programFilePath);
    var w5 := w4.(formatOnDocumentOpened := v.formatOnDocumentOpened);
    var w6 := w5.(formatOnDocumentSaved := v.formatOnDocumentSaved);
    var w7 := w6.(languageFilter := v.languageFilter);
    [w0, w1, w2, w3, w4, w5, w6, w7, w7.(name := v.name)]
  }

  /** Each key line of storable settings is read as one step of Stages. */
  lemma FieldSteps(v: ProfileValue)
    requires Storable(v)
    ensures |Stages(v)| == |FieldLines(v)| + 1 && Stages(v)[0] == Defaults("") && Stages(v)[|FieldLines(v)|] == v
    ensures forall i :: 0 <= i < |FieldLines(v)| ==> LineStep(FieldLines(v)[i], Stages(v)[i], Stages(v)[i + 1])
  {
    forall i | 0 <= i < |FieldLines(v)|
      ensures LineStep(FieldLines(v)[i], Stages(v)[i], Stages(v)[i + 1])
    {
      if i < 4 {
        StepLowAt(v, i, FieldLines(v), Stages(v));
      } else {
        StepHighAt(v, i, FieldLines(v), Stages(v));
      }
    }
  }

  /** The first four key lines as steps of Stages. */
  lemma StepLowAt(v: ProfileValue, i: nat, lines: seq<string>, ws: seq<ProfileValue>)
    requires Storable(v) && i < 4 && lines == FieldLines(v) && ws == Stages(v)
    ensures LineStep(lines[i], ws[i], ws[i + 1])
  {
    if i == 0 { StepConfig(v, i, lines, ws); }
    else if i == 1 { StepCommandLine(v, i, lines, ws); }
    else if i == 2 { StepFragment(v, i, lines, ws); }
    else { StepProgram(v, i, lines, ws); }
  }

  /** The last four key lines as steps of Stages. */
  lemma StepHighAt(v: ProfileValue, i: nat, lines: seq<string>, ws: seq<ProfileValue>)
    requires Storable(v) && 4 <= i < 8 && lines == FieldLines(v) && ws == Stages(v)
    ensures LineStep(lines[i], ws[i], ws[i + 1])
  {
    if i == 4 { StepOpened(v, i, lines, ws); }
    else if i == 5 { StepSaved(v, i, lines, ws); }
    else if i == 6 { StepLanguage(v, i, lines, ws); }
    else { StepName(v, i, lines, ws); }
  }

  /** The configuration-file line as a step of Stages. */
  lemma StepConfig(v: ProfileValue, i: nat, lines: seq<string>, ws: seq<ProfileValue>)
    requires Storable(v) && i == 0 && lines == FieldLines(v) && ws == Stages(v)
    ensures LineStep(lines[i], ws[i], ws[i + 1])
  {
    assert lines[i] == KeyLine("ConfigFilePath", v.cfgFilePath);
    TextStep(ws[i], "ConfigFilePath", v.cfgFilePath, ws[i + 1]);
  }

  /** The command-line line as a step of Stages. */
  lemma StepCommandLine(v: ProfileValue, i: nat, lines: seq<string>, ws: seq<ProfileValue>)
    requires Storable(v) && i == 1 && lines == FieldLines(v) && ws == Stages(v)
    ensures LineStep(lines[i], ws[i], ws[i + 1])
  {
    assert lines[i] == KeyLine("CmdLine", v.commandLine);
    TextStep(ws[i], "CmdLine", v.commandLine, ws[i + 1]);
  }

  /** The fragment-processing line as a step of Stages. */
  lemma StepFragment(v: ProfileValue, i: nat, lines: seq<string>, ws: seq<ProfileValue>)
    requires Storable(v) && i == 2 && lines == FieldLines(v) && ws == Stages(v)
    ensures LineStep(lines[i], ws[i], ws[i + 1])
  {
    assert lines[i] == KeyLine("EnableFragmentProcessing", BoolName(v.enableFragmentFormatting));
    BoolLineEffect(ws[i], "EnableFragmentProcessing", v.enableFragmentFormatting, ws[i + 1]);
  }

  /** The program-path line as a step of Stages. */
  lemma StepProgram(v: ProfileValue, i: nat, lines: seq<string>, ws: seq<ProfileValue>)
    requires Storable(v) && i == 3 && lines == FieldLines(v) && ws == Stages(v)
    ensures LineStep(lines[i], ws[i], ws[i + 1])
  {
    assert lines[i] == KeyLine("ExeName", v.programFilePath);
    TextStep(ws[i], "ExeName", v.programFilePath, ws[i + 1]);
  }

  /** The format-on-open line as a step of Stages. */
  lemma StepOpened(v: ProfileValue, i: nat, lines: seq<string>, ws: seq<ProfileValue>)
    requires Storable(v) && i == 4 && lines == FieldLines(v) && ws == Stages(v)
    ensures LineStep(lines[i], ws[i], ws[i + 1])
  {
    assert lines[i] == KeyLine("FormatOnDocOpened", BoolName(v.formatOnDocumentOpened));
    BoolLineEffect(ws[i], "FormatOnDocOpened", v.formatOnDocumentOpened, ws[i + 1]);
  }

  /** The format-on-save line as a step of Stages. */
  lemma StepSaved(v: ProfileValue, i: nat, lines: seq<string>, ws: seq<ProfileValue>)
    requires Storable(v) && i == 5 && lines == FieldLines(v) && ws == Stages(v)
    ensures LineStep(lines[i], ws[i], ws[i + 1])
  {
    assert lines[i] == KeyLine("FormatOnDocSaved", BoolName(v.formatOnDocumentSaved));
    BoolLineEffect(ws[i], "FormatOnDocSaved", v.formatOnDocumentSaved, ws[i + 1]);
  }

  /** The language-filter line as a step of Stages. */
  lemma StepLanguage(v: ProfileValue, i: nat, lines: seq<string>, ws: seq<ProfileValue>)
    requires Storable(v) && i == 6 && lines == FieldLines(v) && ws == Stages(v)
    ensures LineStep(lines[i], ws[i], ws[i + 1])
  {
    assert lines[i] == KeyLine("LanguageFilter", LanguageName(v.languageFilter));
    LanguageLineEffect(ws[i], v.languageFilter, ws[i + 1]);
  }

  /** The profile-name line as a step of Stages. */
  lemma StepName(v: ProfileValue, i: nat, lines: seq<string>, ws: seq<ProfileValue>)
    requires Storable(v) && i == 7 && lines == FieldLines(v) && ws == Stages(v)
    ensures LineStep(lines[i], ws[i], ws[i + 1])
  {
    assert lines[i] == KeyLine("ProfileName", v.name);
    TextStep(ws[i], "ProfileName", v.name, ws[i + 1]);
  }

  /** A text setting's line sets that setting (an empty value leaves the
      default, which for these settings is the empty text). */
  lemma TextStep(w: ProfileValue, key: string, value: string, w': ProfileValue)
    requires key == "ConfigFilePath" || key == "CmdLine" || key == "ExeName" || key == "ProfileName"
    requires LineSafe(value)
    requires key == "CmdLine" ==> value != []
    requires key != "CmdLine" && value == [] ==>
      (key == "ConfigFilePath" ==> w.cfgFilePath == []) && (key == "ExeName" ==> w.programFilePath == [])
      && (key == "ProfileName" ==> w.name == [])
    requires w' == if key == "ConfigFilePath" then w.(cfgFilePath := value)
                   else if key == "CmdLine" then w.(commandLine := value)
                   else if key == "ExeName" then w.(programFilePath := value)
                   else w.(name := value)
    ensures LineStep(KeyLine(key, value), w, w')
  {
    assert IsKey(key);
    KeyLineEffect(w, key, value);
    assert key != "LanguageFilter" && key != "EnableFragmentProcessing";
    assert key != "FormatOnDocOpened" && key != "FormatOnDocSaved";
  }

  /** A flag's line sets that flag. */
  lemma BoolLineEffect(v: ProfileValue, key: string, b: bool, v': ProfileValue)
    requires key == "EnableFragmentProcessing" || key == "FormatOnDocOpened" || key == "FormatOnDocSaved"
    requires v' == if key == "EnableFragmentProcessing" then v.(enableFragmentFormatting := b)
                   else if key == "FormatOnDocOpened" then v.(formatOnDocumentOpened := b)
                   else v.(formatOnDocumentSaved := b)
    ensures LineStep(KeyLine(key, BoolName(b)), v, v')
  {
    var name := BoolName(b);
    assert IsKey(key);
    assert LineSafe(name);
    KeyLineEffect(v, key, name);
    assert EqualsIgnoreCase(name, name);
    ParseBoolName(b, name);
    BoolField(v, key, name, b);
  }

  /** A flag's key sets the flag to what the value parses as. */
  lemma BoolField(v: ProfileValue, key: string, name: string, b: bool)
    requires key == "EnableFragmentProcessing" || key == "FormatOnDocOpened" || key == "FormatOnDocSaved"
    requires ParseBool(name) == Some(b)
    ensures ApplyField(v, key, name)
         == if key == "EnableFragmentProcessing" then v.(enableFragmentFormatting := b)
            else if key == "FormatOnDocOpened" then v.(formatOnDocumentOpened := b)
            else v.(formatOnDocumentSaved := b)
  {
    assert key != "ProfileName" && key != "CmdLine" && key != "ExeName";
    assert key != "ConfigFilePath" && key != "LanguageFilter";
  }

  /** The language filter's line sets the filter. */
  lemma LanguageLineEffect(v: ProfileValue, l: LanguageFilter, v': ProfileValue)
    requires v' == v.(languageFilter := l)
    ensures LineStep(KeyLine("LanguageFilter", LanguageName(l)), v, v')
  {
    var name := LanguageName(l);
    assert IsKey("LanguageFilter");
    assert LineSafe(name);
    KeyLineEffect(v, "LanguageFilter", name);
    LanguageField(v, name, l);
  }

  /** The language filter's key sets the filter to the member named. */
  lemma LanguageField(v: ProfileValue, name: string, l: LanguageFilter)
    requires name == LanguageName(l)
    ensures ApplyField(v, "LanguageFilter", name) == v.(languageFilter := l)
  {
    ParseLanguageName(l, name);
    assert "LanguageFilter" != "ProfileName" && "LanguageFilter" != "CmdLine";
    assert "LanguageFilter" != "ExeName" && "LanguageFilter" != "ConfigFilePath";
  }

  /** Storable settings are read back from their text form, and the text
      after the profile is left unread. */
  lemma ParseRoundTrip(v: ProfileValue, rest: string)
    requires Storable(v)
    ensures ParseProfile(Serialize(v) + rest) == Some((v, rest))
  {
    var body := JoinLines(FieldLines(v)) + ("}\n" + rest);
    ReadOpen(v, rest, body);
    ReadBody(v, rest, body);
  }

  /** The opening line is found first. */
  lemma ReadOpen(v: ProfileValue, rest: string, body: string)
    requires body == JoinLines(FieldLines(v)) + ("}\n" + rest)
    ensures SkipToOpen(Serialize(v) + rest) == Some(body)
  {
    ReadOpenText(JoinLines(FieldLines(v)), rest);
  }

  /** Text after an opening line "{" is what the first loop leaves. */
  lemma ReadOpenText(inner: string, rest: string)
    ensures SkipToOpen("{\n" + inner + "}\n" + rest) == Some(inner + ("}\n" + rest))
  {
    var body := inner + ("}\n" + rest);
    BraceLine("{", body);
    assert "{\n" + inner + "}\n" + rest == "{" + "\n" + body;
  }

  /** A brace line is read as itself and already trimmed. */
  lemma BraceLine(brace: string, rest: string)
    requires brace == "{" || brace == "}"
    ensures ReadLine(brace + "\n" + rest) == Some((brace, rest)) && Trim(brace) == brace
  {
    ReadLineOfLine(brace, rest);
  }

  /** The key lines and the closing line read back as the settings. */
  lemma ReadBody(v: ProfileValue, rest: string, body: string)
    requires Storable(v) && body == JoinLines(FieldLines(v)) + ("}\n" + rest)
    ensures ReadFields(body, Defaults("")) == Some((v, rest))
  {
    FieldSteps(v);
    ReadThrough(FieldLines(v), Stages(v), "}\n" + rest);
    ReadClose(v, rest);
  }

  /** The closing line ends the profile. */
  lemma ReadClose(v: ProfileValue, rest: string)
    ensures ReadFields("}\n" + rest, v) == Some((v, rest))
  {
    BraceLine("}", rest);
    assert "}\n" + rest == "}" + "\n" + rest;
  }
  // ------------------------------------------------------- block reading

  /** A trimmed line with no space in it changes nothing. */
  lemma LineWithoutSpace(v: ProfileValue, line: string)
    requires ' ' !in line
    ensures ApplyLine(v, line) == v
  {
  }

  /** A key the reader does not know changes nothing. */
  lemma UnknownKey(v: ProfileValue, key: string, value: string)
    requires key !in ["ProfileName", "CmdLine", "ExeName", "ConfigFilePath", "LanguageFilter",
                      "EnableFragmentProcessing", "FormatOnDocOpened", "FormatOnDocSaved"]
    ensures ApplyField(v, key, value) == v
  {
  }

  /** When a key comes twice, the later value wins. */
  lemma RepeatedKey(v: ProfileValue, key: string, first: string, second: string)
    ensures ApplyField(ApplyField(v, key, first), key, second) == ApplyField(v, key, second)
  {
    if key == "ProfileName" || key == "CmdLine" || key == "ExeName" || key == "ConfigFilePath" {
    } else if key == "LanguageFilter" {
    } else if key == "EnableFragmentProcessing" || key == "FormatOnDocOpened" || key == "FormatOnDocSaved" {
    } else {
      UnknownKey(v, key, first);
      UnknownKey(v, key, second);
    }
  }

  /** A flag value bool.TryParse rejects sets the flag to false, even the
      fragment flag, whose default is true. */
  lemma UnparsableFlag(v: ProfileValue, key: string, value: string)
    requires key == "EnableFragmentProcessing" || key == "FormatOnDocOpened" || key == "FormatOnDocSaved"
    requires ParseBool(value).None?
    ensures ApplyField(v, key, value)
         == if key == "EnableFragmentProcessing" then v.(enableFragmentFormatting := false)
            else if key == "FormatOnDocOpened" then v.(formatOnDocumentOpened := false)
            else v.(formatOnDocumentSaved := false)
  {
    assert key != "ProfileName" && key != "CmdLine" && key != "ExeName";
    assert key != "ConfigFilePath" && key != "LanguageFilter";
  }

  /** A filter value Enum.TryParse rejects sets the filter to All. */
  lemma UnparsableLanguage(v: ProfileValue, value: string)
    requires ParseLanguage(value).None?
    ensures ApplyField(v, "LanguageFilter", value) == v.(languageFilter := All)
  {
    assert "LanguageFilter" != "ProfileName" && "LanguageFilter" != "CmdLine";
    assert "LanguageFilter" != "ExeName" && "LanguageFilter" != "ConfigFilePath";
  }

  /** An empty block reads as a profile with an empty name and the default
      settings; the text after it is left unread. */
  lemma EmptyBlock(rest: string)
    ensures ParseProfile("{\n}\n" + rest) == Some((Defaults(""), rest))
  {
    var body := "}\n" + rest;
    ReadOpenText("", rest);
    assert "{\n" + "" + "}\n" + rest == "{\n}\n" + rest;
    assert "" + body == body;
    assert SkipToOpen("{\n}\n" + rest) == Some(body);
    ReadClose(Defaults(""), rest);
  }
}
