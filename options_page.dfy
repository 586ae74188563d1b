/** The SerializeProfiles property of the general options page, which saves
    and loads the whole registry as one string (a header line naming the
    active profile, then one text block per profile), and the plain-name
    branch of the ActiveProfileName setter. */
module OptionsPage {
  import opened Text
  import opened ProfileModel
  import opened ProfileRegistry

  const LastActiveProfileKey: string := "LastActiveProfile"

  /** String.StartsWith, compared character by character. */
  predicate StartsWith(s: string, prefix: string)
  {
    |prefix| <= |s| && s[..|prefix|] == prefix
  }

  /** The settings of a list of profiles, in list order. */
  function ValuesOf(profiles: seq<Profile>): (values: seq<ProfileValue>)
    reads profiles
    ensures |values| == |profiles|
    ensures forall i :: 0 <= i < |profiles| ==> values[i] == profiles[i].Value()
  {
    seq(|profiles|, i requires 0 <= i < |profiles| reads profiles => profiles[i].Value())
  }

  /** The names of a list of settings, in list order. */
  function NameList(values: seq<ProfileValue>): (names: seq<string>)
    ensures |names| == |values|
    ensures forall i :: 0 <= i < |values| ==> names[i] == values[i].name
  {
    seq(|values|, i requires 0 <= i < |values| => values[i].name)
  }

  /** The registry's names are the names of its settings. */
  lemma NamesOfValues(profiles: seq<Profile>)
    ensures NamesOf(profiles) == NameList(ValuesOf(profiles))
  {
  }

  // ---------------------------------------------------------------- getter

  /** The header line: the key, a space, the active profile's name. */
  function Header(activeName: string): string
  {
    KeyLine(LastActiveProfileKey, activeName) + "\n"
  }

  /** Strings written one after another. */
  function Concat(parts: seq<string>): string
  {
    if parts == [] then [] else parts[0] + Concat(parts[1..])
  }

  /** Writing two lists of parts is writing one after the other. */
  lemma {:induction false} ConcatAppend(a: seq<string>, b: seq<string>)
    ensures Concat(a + b) == Concat(a) + Concat(b)
    decreases |a|
  {
    if a == [] {
      assert a + b == b;
    } else {
      assert (a + b)[0] == a[0];
      assert (a + b)[1..] == a[1..] + b;
      ConcatAppend(a[1..], b);
    }
  }

  /** Each profile's text form, in list order. */
  function Blocks(values: seq<ProfileValue>): (blocks: seq<string>)
    ensures |blocks| == |values|
    ensures forall i :: 0 <= i < |values| ==> blocks[i] == Serialize(values[i])
  {
    seq(|values|, i requires 0 <= i < |values| => Serialize(values[i]))
  }

  /** The profile blocks, one after another in list order. */
  function SerializeAll(values: seq<ProfileValue>): string
  {
    Concat(Blocks(values))
  }

  /** The SerializeProfiles getter: the header, then each profile's text
      form appended in list order. An active profile is needed: the source
      dereferences it. */
  method GetSerializeProfiles(r: Registry) returns (result: string)
    requires r.active != null
    ensures result == Header(r.active.name) + SerializeAll(ValuesOf(r.all))
  {
    ghost var blocks := Blocks(ValuesOf(r.all));
    result := KeyLine(LastActiveProfileKey, r.active.name) + "\n";
    var k := 0;
    while k < |r.all|
      invariant k <= |r.all|
      invariant result == Header(r.active.name) + Concat(blocks[..k])
    {
      var part := r.all[k].ToParseString();
      ConcatStep(blocks, k, Header(r.active.name), result);
      result := result + part;
      k := k + 1;
    }
    assert blocks[..k] == blocks;
  }

  /** Appending the next part to the parts written so far. */
  lemma ConcatStep(parts: seq<string>, k: nat, prefix: string, written: string)
    requires k < |parts| && written == prefix + Concat(parts[..k])
    ensures written + parts[k] == prefix + Concat(parts[..k + 1])
  {
    ConcatAppend(parts[..k], [parts[k]]);
    assert Concat([parts[k]]) == parts[k] + Concat([]);
    assert parts[..k + 1] == parts[..k] + [parts[k]];
  }

  // ---------------------------------------------------------------- header

  /** The text after the removed key: the active name is the text before
      the first line feed when that index is positive; otherwise the
      default profile's name, with the text not advanced. */
  function TakeActiveName(s: string): (string, string)
  {
    var i := IndexOf(s, '\n');
    if i > 0 then (s[..i], s[i + 1..]) else (DefaultProfileName, s)
  }

  /** The header step as the source writes it: the guard is
      "non-empty OR starts with the key", so every non-empty input loses its
      first 18 characters, and None stands for the exception that Remove
      throws on a non-empty input shorter than that. */
  function SplitHeaderAsWritten(value: string): Option<(string, string)>
  {
    if |value| > 0 || StartsWith(value, LastActiveProfileKey) then
      if |value| < |LastActiveProfileKey| + 1 then None
      else Some(TakeActiveName(value[|LastActiveProfileKey| + 1..]))
    else Some((DefaultProfileName, value))
  }

  /** The header step as intended: only a header (the key and its space) is
      removed; any other input is left whole and names no active profile. */
  function SplitHeader(value: string): (string, string)
  {
    if StartsWith(value, LastActiveProfileKey + " ") then TakeActiveName(value[|LastActiveProfileKey| + 1..])
    else (DefaultProfileName, value)
  }

  /** On text that has the header, which is what the getter writes, both
      header steps agree. */
  lemma HeaderStepsAgree(value: string)
    requires StartsWith(value, LastActiveProfileKey + " ")
    ensures SplitHeaderAsWritten(value) == Some(SplitHeader(value))
  {
  }

  /** A short input without a header ("x") makes the source throw, where the
      intended step keeps it as the profile text. */
  lemma ShortInputThrows()
    ensures SplitHeaderAsWritten("x") == None
    ensures SplitHeader("x") == (DefaultProfileName, "x")
  {
    assert !StartsWith("x", LastActiveProfileKey + " ");
  }

  /** A longer input without a header loses its first 18 characters in the
      source, while the intended step keeps all of it. */
  lemma HeaderlessInputTruncated(value: string)
    requires |value| >= |LastActiveProfileKey| + 1 && !StartsWith(value, LastActiveProfileKey + " ")
    ensures SplitHeaderAsWritten(value).Some?
    ensures |SplitHeaderAsWritten(value).value.1| < |value|
    ensures SplitHeader(value) == (DefaultProfileName, value)
  {
  }

  /** The getter's header is split back into the active name and the
      blocks, when the name is non-empty and has no line feed. */
  lemma {:induction false} HeaderRoundTrip(activeName: string, rest: string)
    requires activeName != [] && '\n' !in activeName
    ensures SplitHeader(Header(activeName) + rest) == (activeName, rest)
  {
    var value := Header(activeName) + rest;
    var n := |LastActiveProfileKey| + 1;
    assert value[..n] == LastActiveProfileKey + " ";
    var s := value[n..];
    assert s == activeName + "\n" + rest;
    assert s[|activeName|] == '\n';
    forall k | 0 <= k < |activeName|
      ensures s[k] != '\n'
    {
      assert s[k] == activeName[k];
    }
    IndexOfFirst(s, '\n', |activeName|);
    assert s[..|activeName|] == activeName;
    assert s[|activeName| + 1..] == rest;
  }

  // ---------------------------------------------------------------- blocks

  /** Create(p.Name)?.CopyFrom(p) on values: a block whose trimmed name is
      valid and not yet taken is appended under the trimmed name with its
      settings; any other block is dropped. */
  function Admit(loaded: seq<ProfileValue>, v: ProfileValue): seq<ProfileValue>
  {
    var (valid, trimmed) := ValidName(v.name);
    if valid && trimmed !in NameList(loaded) then loaded + [v.(name := trimmed)] else loaded
  }

  /** The setter's loop on values: blocks are read until the text is empty
      or no further block can be read. */
  function LoadBlocks(text: string, loaded: seq<ProfileValue>): seq<ProfileValue>
    decreases |text|
  {
    if text == [] then loaded
    else match ParseProfile(text)
      case None => loaded
      case Some((v, rest)) => LoadBlocks(rest, Admit(loaded, v))
  }

  /** Every loaded profile has an accepted name, and no two share one. */
  predicate WellNamed(values: seq<ProfileValue>)
  {
    UniqueNames(NameList(values)) && AllAccepted(NameList(values))
  }

  /** Admitting a block keeps the names accepted and unique. */
  lemma AdmitWellNamed(loaded: seq<ProfileValue>, v: ProfileValue)
    requires WellNamed(loaded)
    ensures WellNamed(Admit(loaded, v))
  {
    var (valid, trimmed) := ValidName(v.name);
    if valid && trimmed !in NameList(loaded) {
      ValidNameIdempotent(v.name);
      AcceptedIsValid(trimmed);
      AppendAccepted(NameList(loaded), trimmed);
      var next := loaded + [v.(name := trimmed)];
      assert NameList(next) == NameList(loaded) + [trimmed];
    }
  }

  /** Loading keeps the names accepted and unique. */
  lemma {:induction false} LoadWellNamed(text: string, loaded: seq<ProfileValue>)
    requires WellNamed(loaded)
    ensures WellNamed(LoadBlocks(text, loaded))
    decreases |text|
  {
    var parsed := ParseProfile(text);
    if text != [] && parsed.Some? {
      var (v, rest) := parsed.value;
      LoadStep(text, loaded, v, rest);
      AdmitWellNamed(loaded, v);
      LoadWellNamed(rest, Admit(loaded, v));
    } else {
      LoadStop(text, loaded);
    }
  }

  /** Loading only appends to what was loaded before. */
  lemma {:induction false} LoadAppends(text: string, loaded: seq<ProfileValue>)
    ensures loaded <= LoadBlocks(text, loaded)
    decreases |text|
  {
    var parsed := ParseProfile(text);
    if text != [] && parsed.Some? {
      var (v, rest) := parsed.value;
      var next := Admit(loaded, v);
      LoadStep(text, loaded, v, rest);
      assert loaded <= next;
      LoadAppends(rest, next);
    } else {
      LoadStop(text, loaded);
    }
  }

  /** Loading stops at the end of the text or where no block can be read. */
  lemma LoadStop(text: string, loaded: seq<ProfileValue>)
    requires text == [] || ParseProfile(text).None?
    ensures LoadBlocks(text, loaded) == loaded
  {
  }

  /** The blocks of well-named, storable settings are loaded back as they
      were, after what was already loaded. */
  lemma {:induction false} LoadSerialized(values: seq<ProfileValue>, loaded: seq<ProfileValue>)
    requires forall i :: 0 <= i < |values| ==> Storable(values[i]) && Accepted(values[i].name)
    requires UniqueNames(NameList(loaded + values))
    ensures LoadBlocks(SerializeAll(values), loaded) == loaded + values
    decreases |values|
  {
    if values == [] {
      assert loaded + values == loaded;
    } else {
      var v := values[0];
      var rest := SerializeAll(values[1..]);
      SerializeAllCons(values);
      ParseRoundTrip(v, rest);
      LoadStep(Serialize(v) + rest, loaded, v, rest);
      FreshName(loaded, values);
      AdmitAccepted(loaded, v);
      LoadSerializedNext(values, loaded);
      LoadSerialized(values[1..], loaded + [v]);
    }
  }

  /** The first block of a list is the first profile's text form. */
  lemma SerializeAllCons(values: seq<ProfileValue>)
    requires values != []
    ensures SerializeAll(values) == Serialize(values[0]) + SerializeAll(values[1..])
  {
    assert Blocks(values) == [Serialize(values[0])] + Blocks(values[1..]);
    ConcatAppend([Serialize(values[0])], Blocks(values[1..]));
    assert Concat([Serialize(values[0])]) == Serialize(values[0]) + Concat([]);
  }

  /** One turn of the loading loop. */
  lemma LoadStep(text: string, loaded: seq<ProfileValue>, v: ProfileValue, rest: string)
    requires ParseProfile(text) == Some((v, rest))
    ensures LoadBlocks(text, loaded) == LoadBlocks(rest, Admit(loaded, v))
  {
  }

  /** With unique names, the first name still to load is not loaded yet. */
  lemma FreshName(loaded: seq<ProfileValue>, values: seq<ProfileValue>)
    requires values != [] && UniqueNames(NameList(loaded + values))
    ensures values[0].name !in NameList(loaded)
  {
    var names := NameList(loaded + values);
    assert names[|loaded|] == values[0].name;
    forall k | 0 <= k < |loaded|
      ensures NameList(loaded)[k] != values[0].name
    {
      assert names[k] == NameList(loaded)[k];
    }
  }

  /** An accepted name not yet taken is admitted unchanged. */
  lemma AdmitAccepted(loaded: seq<ProfileValue>, v: ProfileValue)
    requires Accepted(v.name) && v.name !in NameList(loaded)
    ensures Admit(loaded, v) == loaded + [v]
  {
  }

  /** The remaining profiles meet the conditions after the first is loaded. */
  lemma LoadSerializedNext(values: seq<ProfileValue>, loaded: seq<ProfileValue>)
    requires values != [] && UniqueNames(NameList(loaded + values))
    ensures loaded + [values[0]] + values[1..] == loaded + values
    ensures UniqueNames(NameList(loaded + [values[0]] + values[1..]))
  {
    assert loaded + [values[0]] + values[1..] == loaded + values;
  }

  /** The default profile is added at the end when no loaded profile has
      its name (EnsureDefaultProfileExists after the loop). */
  function WithDefault(values: seq<ProfileValue>): seq<ProfileValue>
  {
    if DefaultProfileName in NameList(values) then values
    else values + [Defaults(DefaultProfileName)]
  }

  // ---------------------------------------------------------------- setter

  /** Appending an accepted name keeps the names accepted. */
  lemma AppendAccepted(names: seq<string>, name: string)
    requires AllAccepted(names) && Accepted(name)
    ensures AllAccepted(names + [name])
  {
  }

  /** Appending a name that is not present keeps the names unique. */
  lemma AppendUnique(names: seq<string>, name: string)
    requires UniqueNames(names) && name !in names
    ensures UniqueNames(names + [name])
  {
  }

  /** The SerializeProfiles setter (with the intended header step): the
      list is emptied, the blocks are loaded through Create and CopyFrom, the
      default profile is ensured, and the named profile, else the default,
      becomes active. */
  method SetSerializeProfiles(r: Registry, value: string)
    modifies r
    ensures ValuesOf(r.all) == WithDefault(LoadBlocks(SplitHeader(value).1, []))
    ensures r.Valid() && r.active != null
    ensures r.Find(SplitHeader(value).0) != null ==> r.active == r.Find(SplitHeader(value).0)
    ensures r.Find(SplitHeader(value).0) == null ==> r.active.name == DefaultProfileName
  {
    r.all := [];
    var (lastActiveProfileName, parseStr) := SplitHeader(value);
    LoadRegistry(r, lastActiveProfileName, parseStr);
  }

  /** The setter after the header: the blocks are loaded into the emptied
      list, the default profile is ensured and the named profile, else the
      default, becomes active. */
  method LoadRegistry(r: Registry, lastActiveProfileName: string, parseStr: string)
    modifies r
    requires r.all == []
    ensures ValuesOf(r.all) == WithDefault(LoadBlocks(parseStr, []))
    ensures r.Valid() && r.active != null
    ensures r.Find(lastActiveProfileName) != null ==> r.active == r.Find(lastActiveProfileName)
    ensures r.Find(lastActiveProfileName) == null ==> r.active.name == DefaultProfileName
  {
    assert ValuesOf(r.all) == [];
    ReadBlocks(r, parseStr);
    var defaultProfile := EnsureDefaultAfterLoad(r);
    RestoreActive(r, lastActiveProfileName, defaultProfile);
  }

  /** The default profile is ensured after the loop: appended when no
      loaded profile has its name. */
  method EnsureDefaultAfterLoad(r: Registry) returns (defaultProfile: Profile)
    modifies r
    requires Loading(r)
    ensures ValuesOf(r.all) == WithDefault(old(ValuesOf(r.all)))
    ensures r.Valid() && defaultProfile in r.all && defaultProfile.name == DefaultProfileName
  {
    ghost var loaded := ValuesOf(r.all);
    ghost var before := r.all;
    NamesOfValues(r.all);
    FindInNames(r.all, DefaultProfileName);
    if DefaultProfileName in r.Names() {
      LoadedValid(r);
    }
    defaultProfile := r.EnsureDefaultProfileExists();
    if r.all != before {
      ValuesOfAppend(before, defaultProfile);
    }
    DefaultStep(loaded, ValuesOf(r.all));
  }

  /** The last active profile is restored: the named profile, else the
      default one. */
  method RestoreActive(r: Registry, lastActiveProfileName: string, defaultProfile: Profile)
    modifies r
    requires r.Valid() && defaultProfile in r.all && defaultProfile.name == DefaultProfileName
    ensures r.all == old(r.all) && ValuesOf(r.all) == old(ValuesOf(r.all)) && r.Valid() && r.active != null
    ensures r.Find(lastActiveProfileName) != null ==> r.active == r.Find(lastActiveProfileName)
    ensures r.Find(lastActiveProfileName) == null ==> r.active.name == DefaultProfileName
  {
    var found := r.Find(lastActiveProfileName);
    if found == null {
      found := defaultProfile;
    }
    r.SetActive(found);
  }

  /** A loaded registry that holds a default profile is valid. */
  lemma LoadedValid(r: Registry)
    requires Loading(r) && DefaultProfileName in r.Names()
    ensures r.Valid()
  {
  }

  /** EnsureDefaultProfileExists after the loop, on values. */
  lemma DefaultStep(loaded: seq<ProfileValue>, after: seq<ProfileValue>)
    requires DefaultProfileName in NameList(loaded) ==> after == loaded
    requires DefaultProfileName !in NameList(loaded) ==> after == loaded + [Defaults(DefaultProfileName)]
    ensures after == WithDefault(loaded)
  {
  }

  /** The registry while the setter loads blocks: unique, accepted names, and, once
      a profile was created, an active profile in the list with the flag in
      step with its name. */
  predicate Loading(r: Registry)
    reads r, r.all, r.active
  {
    UniqueNames(r.Names()) && AllAccepted(r.Names())
    && (r.all != [] ==>
          r.active != null && r.active in r.all && r.canModifyActiveProfile == !IsDefault(r.active.name))
  }

  /** The loop of the setter: reads blocks until the text is empty or no
      further block can be read, passing each through Create and CopyFrom. */
  method ReadBlocks(r: Registry, text: string)
    modifies r
    requires Loading(r)
    ensures ValuesOf(r.all) == LoadBlocks(text, old(ValuesOf(r.all))) && Loading(r)
  {
    var parseStr := text;
    while parseStr != []
      invariant LoadBlocks(text, old(ValuesOf(r.all))) == LoadBlocks(parseStr, ValuesOf(r.all))
      invariant Loading(r)
      decreases |parseStr|
    {
      var p, rest := FromParseString(parseStr);
      if p == null {
        break;
      }
      LoadStep(parseStr, ValuesOf(r.all), p.Value(), rest);
      parseStr := rest;
      LoadBlock(r, p);
    }
  }

  /** One block of the loop: Create(p.Name)?.CopyFrom(p). */
  method LoadBlock(r: Registry, p: Profile)
    modifies r
    requires p !in r.all && Loading(r)
    ensures ValuesOf(r.all) == Admit(old(ValuesOf(r.all)), old(p.Value())) && Loading(r)
  {
    ghost var values := ValuesOf(r.all);
    ghost var before := r.all;
    ghost var names := r.Names();
    NamesOfValues(r.all);
    var created := r.Create(p.name);
    FinishBlock(r, created, p, before, values, names);
  }

  /** LoadBlock after Create, with the registry's list, its settings and
      its names before Create given: a refused block leaves the registry as
      it was; an admitted one was appended under its trimmed name and made
      active, and CopyFrom gives it the block's settings. Either way the
      result is what Admit says, and the names stay unique and accepted. */
  method FinishBlock(r: Registry, created: Profile?, p: Profile, ghost before: seq<Profile>,
                     ghost values: seq<ProfileValue>, ghost names: seq<string>)
    modifies created
    requires ValuesOf(before) == values && names == NameList(values)
    requires UniqueNames(names) && AllAccepted(names)
    requires created == null <==> !ValidName(p.name).0 || ValidName(p.name).1 in names
    requires created == null ==> Loading(r) && r.all == before
    requires created != null ==>
      created != p && created !in before && r.all == before + [created]
      && r.active == created && r.canModifyActiveProfile == !IsDefault(created.name)
      && created.Value() == Defaults(ValidName(p.name).1)
      && r.Names() == names + [created.name] && Accepted(created.name)
    ensures ValuesOf(r.all) == Admit(values, old(p.Value())) && Loading(r)
  {
    AdmitOutcome(values, p.Value(), names);
    if created != null {
      AppendUnique(names, created.name);
      AppendAccepted(names, created.name);
      CopyCreated(r, created, p, before, values);
    }
  }

  /** CopyFrom on the profile Create appended: it takes the block's
      settings under its own name. */
  method CopyCreated(r: Registry, created: Profile, p: Profile, ghost before: seq<Profile>, ghost values: seq<ProfileValue>)
    modifies created
    requires created != p && r.all == before + [created] && created !in before
    requires ValuesOf(before) == values && Loading(r)
    ensures ValuesOf(r.all) == values + [old(p.Value()).(name := old(created.name))] && Loading(r)
  {
    created.CopyFrom(p);
    ValuesOfAppend(before, created);
  }

  /** What Admit does, with the names of the loaded list given. */
  lemma AdmitOutcome(loaded: seq<ProfileValue>, v: ProfileValue, names: seq<string>)
    requires names == NameList(loaded)
    ensures !ValidName(v.name).0 || ValidName(v.name).1 in names ==> Admit(loaded, v) == loaded
    ensures ValidName(v.name).0 && ValidName(v.name).1 !in names ==>
      Admit(loaded, v) == loaded + [v.(name := ValidName(v.name).1)]
  {
  }

  /** Appending a profile appends its settings. */
  lemma ValuesOfAppend(profiles: seq<Profile>, p: Profile)
    ensures ValuesOf(profiles + [p]) == ValuesOf(profiles) + [p.Value()]
  {
  }

  /** The plain-name branch of the ActiveProfileName setter: the named
      profile becomes active, or the default profile when there is none. */
  method SelectProfile(r: Registry, value: string)
    modifies r
    ensures old(r.Find(value)) != null ==> r.active == old(r.Find(value)) && r.all == old(r.all)
    ensures old(r.Find(value)) == null ==>
      r.active != null && r.active in r.all && r.active.name == DefaultProfileName
    ensures old(r.Find(value)) == null && old(r.Find(DefaultProfileName)) != null ==>
      r.all == old(r.all) && r.active == old(r.Find(DefaultProfileName))
    ensures old(r.Find(value)) == null && old(r.Find(DefaultProfileName)) == null ==>
      fresh(r.active) && r.active.Value() == Defaults(DefaultProfileName) && r.all == old(r.all) + [r.active]
    ensures old(r.Valid()) ==> r.Valid()
  {
    var found := r.Find(value);
    if found == null {
      found := r.EnsureDefaultProfileExists();
    }
    r.SetActive(found);
  }

  // ------------------------------------------------------------ round trip

  /** A stored profile's name is a non-empty single line. */
  lemma ActiveNameFits(activeName: string, values: seq<ProfileValue>)
    requires forall i :: 0 <= i < |values| ==> Storable(values[i]) && Accepted(values[i].name)
    requires activeName in NameList(values)
    ensures activeName != [] && '\n' !in activeName
  {
    var i :| 0 <= i < |values| && NameList(values)[i] == activeName;
    assert Storable(values[i]) && Accepted(values[i].name);
    forall k | 0 <= k < |activeName|
      ensures activeName[k] != '\n'
    {
      assert values[i].name[k] != '\n';
    }
  }

  /** Loading what the getter writes gives back the active name and every
      profile's settings in order, when the names are accepted and unique,
      the settings storable and the active name one of them. */
  lemma RegistryRoundTrip(activeName: string, values: seq<ProfileValue>)
    requires forall i :: 0 <= i < |values| ==> Storable(values[i]) && Accepted(values[i].name)
    requires UniqueNames(NameList(values)) && activeName in NameList(values)
    ensures SplitHeader(Header(activeName) + SerializeAll(values)) == (activeName, SerializeAll(values))
    ensures LoadBlocks(SerializeAll(values), []) == values
  {
    ActiveNameFits(activeName, values);
    HeaderRoundTrip(activeName, SerializeAll(values));
    assert [] + values == values;
    LoadSerialized(values, []);
  }
}
