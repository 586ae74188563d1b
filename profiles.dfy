/** The registry of profiles: the list of all profiles, the active one, and
    the flag that says whether the active profile may be changed. Names are
    unique, and the default profile cannot be deleted or renamed. */
module ProfileRegistry {
  import opened Text
  import opened ProfileModel

  const DefaultProfileName: string := "Default Profile"

  /** IsDefault: equality with the default profile's name. */
  predicate IsDefault(name: string)
  {
    name == DefaultProfileName
  }

  /** IsValidName: the trimmed name, and whether it is acceptable (not empty
      and not starting with '>'). The reference parameter comes back
      trimmed. */
  function ValidName(name: string): (bool, string)
  {
    var trimmed := Trim(name);
    (trimmed != [] && trimmed[0] != '>', trimmed)
  }

  /** Validation is idempotent: the trimmed form of a name validates the
      same way and trims to itself. */
  lemma ValidNameIdempotent(name: string)
    ensures ValidName(ValidName(name).1) == ValidName(name)
  {
  }

  /** An accepted name has no whitespace at either end and does not start
      with '>'. */
  lemma ValidNameShape(name: string)
    requires ValidName(name).0
    ensures var t := ValidName(name).1;
      t != [] && t[0] != '>' && !IsWhiteSpace(t[0]) && !IsWhiteSpace(t[|t| - 1])
  {
  }

  /** A name as the registry keeps it: not empty, not starting with '>',
      and with no whitespace at either end. */
  predicate Accepted(name: string)
  {
    name != [] && name[0] != '>' && !IsWhiteSpace(name[0]) && !IsWhiteSpace(name[|name| - 1])
  }

  /** The accepted names are exactly those that validate as they are. */
  lemma AcceptedIsValid(name: string)
    ensures Accepted(name) <==> ValidName(name) == (true, name)
  {
  }

  /** Every name of the list is accepted. */
  predicate AllAccepted(names: seq<string>)
  {
    forall i :: 0 <= i < |names| ==> Accepted(names[i])
  }

  /** The default profile's name is accepted. */
  lemma DefaultAccepted()
    ensures Accepted(DefaultProfileName)
  {
    assert !IsWhiteSpace(DefaultProfileName[0]) && !IsWhiteSpace(DefaultProfileName[|DefaultProfileName| - 1]);
  }

  /** The first position of name in names (FirstOrDefault on the names). */
  function FirstIndex(names: seq<string>, name: string): (r: Option<nat>)
    ensures r.None? <==> name !in names
    ensures r.Some? ==> r.value < |names| && names[r.value] == name && name !in names[..r.value]
  {
    if names == [] then None
    else if names[0] == name then Some(0)
    else match FirstIndex(names[1..], name)
      case None => None
      case Some(i) => Some(i + 1)
  }

  /** No two positions hold the same name. */
  predicate UniqueNames(names: seq<string>)
  {
    forall i, j :: 0 <= i < j < |names| ==> names[i] != names[j]
  }

  /** In a list of unique names, a name's first position is its only one. */
  lemma FirstIndexUnique(names: seq<string>, name: string, k: nat)
    requires UniqueNames(names) && k < |names| && names[k] == name
    ensures FirstIndex(names, name) == Some(k)
  {
  }

  /** The names of a list of profiles, in list order. */
  function NamesOf(profiles: seq<Profile>): (names: seq<string>)
    reads profiles
    ensures |names| == |profiles|
    ensures forall i :: 0 <= i < |profiles| ==> names[i] == profiles[i].name
  {
    seq(|profiles|, i requires 0 <= i < |profiles| reads profiles => profiles[i].name)
  }

  /** The first profile of the list with the given name, or null. */
  function FindIn(profiles: seq<Profile>, name: string): Profile?
    reads profiles
  {
    match FirstIndex(NamesOf(profiles), name)
    case None => null
    case Some(i) => profiles[i]
  }

  /** A profile is found exactly when its name is in the list. */
  lemma FindInNames(profiles: seq<Profile>, name: string)
    ensures FindIn(profiles, name) == null <==> name !in NamesOf(profiles)
  {
  }

  /** Appending a profile appends its name. */
  lemma NamesOfAppend(profiles: seq<Profile>, p: Profile)
    ensures NamesOf(profiles + [p]) == NamesOf(profiles) + [p.name]
  {
  }

  /** The profiles (Profiles.All), the active profile (Profiles.Active) and
      CanModifyActiveProfile. */
  class Registry {
    var all: seq<Profile>
    var active: Profile?
    var canModifyActiveProfile: bool

    /** The profiles' names, in list order. */
    function Names(): (names: seq<string>)
      reads this, all
      ensures names == NamesOf(all)
    {
      NamesOf(all)
    }

    /** Find: the first profile with the given name, or null. */
    function Find(name: string): Profile?
      reads this, all
    {
      FindIn(all, name)
    }

    /** The registry invariant: unique, accepted names, a default profile,
        an active profile that is in the list, and the flag in step with the
        active profile's name. */
    predicate Valid()
      reads this, all, active
    {
      UniqueNames(Names()) && AllAccepted(Names()) && DefaultProfileName in Names()
      && (active != null ==> active in all)
      && canModifyActiveProfile == (active != null && !IsDefault(active.name))
    }

    /** The static initial state: no profiles, no active profile. */
    constructor ()
      ensures all == [] && active == null && !canModifyActiveProfile
    {
      all := [];
      active := null;
      canModifyActiveProfile := false;
    }

    /** The Active setter: recomputes the flag only when the reference
        changes. */
    method SetActive(value: Profile?)
      modifies this
      ensures all == old(all) && active == value
      ensures canModifyActiveProfile
           == if old(active) != value then value != null && !IsDefault(value.name) else old(canModifyActiveProfile)
    {
      if active != value {
        active := value;
        canModifyActiveProfile := value != null && !IsDefault(value.name);
      }
    }

    /** EnsureDefaultProfileExists, also the DefaultProfile getter: the
        default profile, created, appended and made active when missing. */
    method EnsureDefaultProfileExists() returns (p: Profile)
      modifies this
      ensures old(Find(DefaultProfileName)) != null ==>
        p == old(Find(DefaultProfileName)) && all == old(all) && active == old(active)
        && canModifyActiveProfile == old(canModifyActiveProfile)
      ensures old(Find(DefaultProfileName)) == null ==>
        fresh(p) && p.Value() == Defaults(DefaultProfileName) && all == old(all) + [p]
        && active == p && !canModifyActiveProfile
      ensures p in all && p.name == DefaultProfileName
      ensures old(Valid()) ==> Valid()
      ensures old(Find(DefaultProfileName)) == null && old(UniqueNames(Names()) && AllAccepted(Names())) ==> Valid()
    {
      var defaultProfile := Find(DefaultProfileName);
      if defaultProfile != null {
        return defaultProfile;
      }
      p := CreateDefault();
    }

    /** The creating branch of EnsureDefaultProfileExists: a new default
        profile becomes active and is appended. */
    method CreateDefault() returns (p: Profile)
      modifies this
      requires DefaultProfileName !in Names()
      ensures fresh(p) && p.Value() == Defaults(DefaultProfileName) && all == old(all) + [p]
      ensures active == p && !canModifyActiveProfile
      ensures old(UniqueNames(Names()) && AllAccepted(Names())) ==> Valid()
    {
      ghost var names := Names();
      DefaultAccepted();
      p := new Profile(DefaultProfileName);
      SetActive(p);
      NamesOfAppend(all, p);
      all := all + [p];
      assert Names() == names + [DefaultProfileName];
    }

    /** Reset: empties the list and creates the default profile. */
    method Reset()
      modifies this
      ensures |all| == 1 && fresh(all[0]) && all[0].Value() == Defaults(DefaultProfileName)
      ensures active == all[0] && Valid()
    {
      all := [];
      var defaultProfile := EnsureDefaultProfileExists();
    }

    /** Create: a fresh profile with default settings under the trimmed
        name, appended and made active; null, with nothing changed, for an
        invalid name or one already taken. */
    method Create(name: string) returns (p: Profile?)
      modifies this
      ensures p == null <==> !ValidName(name).0 || ValidName(name).1 in old(Names())
      ensures p == null ==>
        all == old(all) && active == old(active) && canModifyActiveProfile == old(canModifyActiveProfile)
      ensures p != null ==>
        fresh(p) && p.Value() == Defaults(ValidName(name).1) && all == old(all) + [p]
        && active == p && canModifyActiveProfile == !IsDefault(p.name)
      ensures p != null ==> Names() == old(Names()) + [p.name] && Accepted(p.name)
      ensures old(Valid()) ==> Valid()
    {
      var (valid, trimmed) := ValidName(name);
      if !valid {
        return null;
      }
      if Find(trimmed) != null {
        return null;
      }
      ValidNameIdempotent(name);
      p := AddProfile(trimmed);
    }

    /** The creating part of Create: a new profile with default settings
        is appended and made active. */
    method AddProfile(newName: string) returns (p: Profile)
      modifies this
      requires newName !in Names() && Accepted(newName)
      ensures fresh(p) && p.Value() == Defaults(newName) && all == old(all) + [p]
      ensures active == p && canModifyActiveProfile == !IsDefault(newName)
      ensures Names() == old(Names()) + [newName]
      ensures old(Valid()) ==> Valid()
    {
      var newProfile := new Profile(newName);
      NamesOfAppend(all, newProfile);
      all := all + [newProfile];
      SetActive(newProfile);
      return newProfile;
    }

    /** Delete: removes the named profile unless it is missing or the
        default; when it was active, the default profile becomes active. */
    method Delete(name: string) returns (deleted: bool)
      modifies this
      ensures deleted <==> name in old(Names()) && !IsDefault(name)
      ensures !deleted ==>
        all == old(all) && active == old(active) && canModifyActiveProfile == old(canModifyActiveProfile)
      ensures deleted ==>
        var i := FirstIndex(old(Names()), name).value;
        all == old(all[..i] + all[i + 1..])
        && (old(active) == old(all[i]) ==> active == Find(DefaultProfileName))
        && (old(active) != old(all[i]) ==>
              active == old(active) && canModifyActiveProfile == old(canModifyActiveProfile))
      ensures old(Valid()) ==> Valid()
    {
      var index := FirstIndex(Names(), name);
      if index.None? || IsDefault(name) {
        return false;
      }
      var profile := all[index.value];
      // List.Remove(profile): the first occurrence of the object is at the
      // first occurrence of its name, since an earlier one would carry it.
      RemoveAt(index.value);
      if active == profile {
        SwitchToDefault();
      }
      return true;
    }

    /** The removal in Delete: the list without position i. */
    method RemoveAt(i: nat)
      modifies this
      requires i < |all|
      ensures all == old(all[..i] + all[i + 1..])
      ensures active == old(active) && canModifyActiveProfile == old(canModifyActiveProfile)
      ensures old(Valid()) && !IsDefault(old(all[i].name)) ==>
        UniqueNames(Names()) && AllAccepted(Names()) && DefaultProfileName in Names()
      ensures old(Valid()) && !IsDefault(old(all[i].name)) && old(active) != old(all[i]) ==> Valid()
    {
      ghost var names := Names();
      ghost var profiles := all;
      all := all[..i] + all[i + 1..];
      assert Names() == names[..i] + names[i + 1..];
      RemovedUnique(names, i);
      RemovedKeeps(names, i);
      RemovedKeeps(profiles, i);
    }

    /** The default profile becomes active in place of a deleted one. */
    method SwitchToDefault()
      modifies this
      ensures all == old(all) && active == Find(DefaultProfileName)
      ensures (UniqueNames(Names()) && AllAccepted(Names()) && DefaultProfileName in Names()
               && old(active) != null && !IsDefault(old(active.name))) ==> Valid()
    {
      SetActive(Find(DefaultProfileName));
    }

    /** Rename: gives the named profile the trimmed new name, unless the new
        name is invalid or taken, the old name is missing, or the profile is
        the default; nothing else changes. */
    method Rename(oldName: string, newName: string) returns (p: Profile?)
      modifies all
      ensures p == null <==>
        !ValidName(newName).0 || ValidName(newName).1 in old(Names()) || oldName !in old(Names()) || IsDefault(oldName)
      ensures p != null ==> p == old(Find(oldName))
      ensures forall q :: q in all && q != p ==> q.Value() == old(q.Value())
      ensures p != null ==> p.Value() == old(p.Value()).(name := ValidName(newName).1)
      ensures p != null && old(UniqueNames(Names())) ==>
        Names() == old(Names())[FirstIndex(old(Names()), oldName).value := ValidName(newName).1]
      ensures old(Valid()) ==> Valid()
    {
      var (valid, trimmed) := ValidName(newName);
      FindInNames(all, trimmed);
      if !valid || Find(trimmed) != null {
        return null;
      }
      var index := FirstIndex(Names(), oldName);
      if index.None? || IsDefault(oldName) {
        return null;
      }
      p := all[index.value];
      ValidNameIdempotent(newName);
      AcceptedIsValid(trimmed);
      RenameAt(p, index.value, trimmed);
    }

    /** The renaming in Rename: the profile at position i takes the new name. */
    method RenameAt(p: Profile, i: nat, trimmed: string)
      modifies all
      requires i < |all| && all[i] == p && trimmed !in Names() && Accepted(trimmed) && !IsDefault(p.name)
      ensures forall q :: q in all && q != p ==> q.Value() == old(q.Value())
      ensures p.Value() == old(p.Value()).(name := trimmed)
      ensures old(UniqueNames(Names())) ==> Names() == old(Names())[i := trimmed]
      ensures old(Valid()) ==> Valid()
    {
      ghost var names := Names();
      assert forall k :: 0 <= k < |all| && all[k] == p ==> names[k] == names[i];
      p.name := trimmed;
      RenamedNames(names, Names(), all, i, trimmed);
    }
  }

  /** Removing position i keeps the names unique. */
  lemma RemovedUnique(names: seq<string>, i: nat)
    requires i < |names|
    ensures UniqueNames(names) ==> UniqueNames(names[..i] + names[i + 1..])
  {
    var rest := names[..i] + names[i + 1..];
    assert forall k :: 0 <= k < |rest| ==> rest[k] == names[if k < i then k else k + 1];
  }

  /** Removing position i keeps every element that differs from the one
      removed, and adds none. */
  lemma RemovedKeeps<T>(s: seq<T>, i: nat)
    requires i < |s|
    ensures forall x :: x in s && x != s[i] ==> x in s[..i] + s[i + 1..]
    ensures forall x :: x in s[..i] + s[i + 1..] ==> x in s
  {
    forall x | x in s && x != s[i]
      ensures x in s[..i] + s[i + 1..]
    {
      var j :| 0 <= j < |s| && s[j] == x;
      if j < i {
        assert s[..i][j] == x;
      } else {
        assert s[i + 1..][j - i - 1] == x;
      }
    }
  }

  /** Renaming the profile at position i: the positions that hold the same
      profile had the same name, so with unique names only position i
      changes, and a new name not in the list keeps the names unique. */
  lemma RenamedNames(names: seq<string>, newNames: seq<string>, profiles: seq<Profile>, i: nat, t: string)
    requires |names| == |newNames| == |profiles| && i < |profiles|
    requires forall k :: 0 <= k < |profiles| && profiles[k] == profiles[i] ==> names[k] == names[i]
    requires forall k :: 0 <= k < |profiles| ==> newNames[k] == if profiles[k] == profiles[i] then t else names[k]
    ensures UniqueNames(names) ==> newNames == names[i := t]
    ensures UniqueNames(names) && t !in names ==> UniqueNames(newNames)
    ensures UniqueNames(names) ==> forall x :: x in names && x != names[i] ==> x in newNames
    ensures UniqueNames(names) ==> forall x :: x in newNames ==> x in names || x == t
  {
    if UniqueNames(names) {
      assert forall k :: 0 <= k < |profiles| && k != i ==> profiles[k] != profiles[i];
      assert newNames == names[i := t];
    }
  }
}
