/** The entries of the profile picker: the profile actions that apply to the
    active profile, then the names of all profiles in sorted order. */
module ProfileConverter {
  import opened ProfileRegistry

  const NewProfile: string := "> New Profile"
  const CloneProfile: string := "> Clone Profile"
  const DeleteProfile: string := "> Delete Profile"
  const ExportProfile: string := "> Export Profile"
  const ImportProfile: string := "> Import Profile"
  const RenameProfile: string := "> Rename Profile"
  const ResetProfile: string := "> Reset Profile"

  /** The action entries in the order they are added: Delete, Export and
      Rename only when the active profile may be modified. */
  function Actions(canModify: bool): seq<string>
  {
    [NewProfile, CloneProfile]
    + (if canModify then [DeleteProfile, ExportProfile] else [])
    + [ImportProfile]
    + (if canModify then [RenameProfile] else [])
    + [ResetProfile]
  }

  /** The layout of the action block: New and Clone first; then Delete and
      Export exactly when the profile may be modified; Import; Rename exactly
      when it may be modified; Reset last. */
  lemma ActionsLayout(canModify: bool)
    ensures |Actions(canModify)| == 4 + (if canModify then 3 else 0)
    ensures Actions(canModify)[0] == NewProfile && Actions(canModify)[1] == CloneProfile
    ensures canModify ==> Actions(canModify)[2..] == [DeleteProfile, ExportProfile, ImportProfile, RenameProfile, ResetProfile]
    ensures !canModify ==> Actions(canModify)[2..] == [ImportProfile, ResetProfile]
    ensures DeleteProfile in Actions(canModify) <==> canModify
    ensures ExportProfile in Actions(canModify) <==> canModify
    ensures RenameProfile in Actions(canModify) <==> canModify
  {
    if !canModify {
      assert DeleteProfile != NewProfile && DeleteProfile != CloneProfile;
      assert DeleteProfile != ImportProfile && DeleteProfile != ResetProfile;
      assert ExportProfile[2] != NewProfile[2] && ExportProfile[2] != CloneProfile[2];
      assert ExportProfile[2] != ImportProfile[2] && ExportProfile[2] != ResetProfile[2];
      assert RenameProfile[2] != NewProfile[2] && RenameProfile[2] != CloneProfile[2];
      assert RenameProfile[2] != ImportProfile[2] && RenameProfile[4] != ResetProfile[4];
    }
  }

  /** Every action entry starts with '>'. */
  lemma ActionsMarked(canModify: bool)
    ensures forall a :: a in Actions(canModify) ==> a != [] && a[0] == '>'
  {
  }

  /** No accepted profile name is an action entry: names are trimmed and do
      not start with '>'. */
  lemma NamesAreNotActions(canModify: bool, name: string)
    requires ValidName(name).0
    ensures ValidName(name).1 !in Actions(canModify)
  {
    ActionsMarked(canModify);
  }

  // ---------------------------------------------------------------- order

  /** The order of the sort, compared character by character (ordinal): a
      prefix comes first. */
  predicate Precedes(a: string, b: string)
    decreases |a|
  {
    a == [] || (b != [] && (a[0] < b[0] || (a[0] == b[0] && Precedes(a[1..], b[1..]))))
  }

  /** The order is total. */
  lemma {:induction false} PrecedesTotal(a: string, b: string)
    ensures Precedes(a, b) || Precedes(b, a)
    decreases |a|
  {
    if a != [] && b != [] && a[0] == b[0] {
      PrecedesTotal(a[1..], b[1..]);
    }
  }

  /** Every entry precedes every later one. */
  predicate Sorted(s: seq<string>)
  {
    forall i, j :: 0 <= i < j < |s| ==> Precedes(s[i], s[j])
  }

  /** Insertion of one name into a sorted list. */
  function Insert(sorted: seq<string>, x: string): (r: seq<string>)
    requires Sorted(sorted)
    ensures Sorted(r) && multiset(r) == multiset(sorted) + multiset{x}
  {
    if sorted == [] then [x]
    else if Precedes(x, sorted[0]) then
      InsertFront(sorted, x);
      [x] + sorted
    else
      PrecedesTotal(x, sorted[0]);
      var tail := Insert(sorted[1..], x);
      InsertBehind(sorted, x, tail);
      assert sorted == [sorted[0]] + sorted[1..];
      [sorted[0]] + tail
  }

  /** A name that precedes the first entry of a sorted list can go in
      front of it. */
  lemma InsertFront(sorted: seq<string>, x: string)
    requires Sorted(sorted) && sorted != [] && Precedes(x, sorted[0])
    ensures Sorted([x] + sorted)
  {
    var r := [x] + sorted;
    forall i, j | 0 <= i < j < |r|
      ensures Precedes(r[i], r[j])
    {
      if i == 0 && j > 1 {
        PrecedesTrans(x, sorted[0], sorted[j - 1]);
      }
    }
  }

  /** The first entry of a sorted list stays in front when a name it
      precedes is inserted behind it. */
  lemma InsertBehind(sorted: seq<string>, x: string, tail: seq<string>)
    requires Sorted(sorted) && sorted != [] && Precedes(sorted[0], x) && Sorted(tail)
    requires multiset(tail) == multiset(sorted[1..]) + multiset{x}
    ensures Sorted([sorted[0]] + tail)
  {
    var r := [sorted[0]] + tail;
    forall j | 0 < j < |r|
      ensures Precedes(sorted[0], r[j])
    {
      assert r[j] in multiset(tail);
      if r[j] != x {
        assert r[j] in multiset(sorted[1..]);
        var k :| 0 <= k < |sorted[1..]| && sorted[1..][k] == r[j];
        assert sorted[k + 1] == r[j];
      }
    }
  }

  /** The order is transitive. */
  lemma {:induction false} PrecedesTrans(a: string, b: string, c: string)
    requires Precedes(a, b) && Precedes(b, c)
    ensures Precedes(a, c)
    decreases |a|
  {
    if a != [] && a[0] == b[0] && b[0] == c[0] {
      PrecedesTrans(a[1..], b[1..], c[1..]);
    }
  }

  /** List.Sort on the names: a sorted permutation. */
  function SortNames(names: seq<string>): (r: seq<string>)
    ensures Sorted(r) && multiset(r) == multiset(names)
  {
    if names == [] then []
    else
      assert names == names[..|names| - 1] + [names[|names| - 1]];
      Insert(SortNames(names[..|names| - 1]), names[|names| - 1])
  }

  // ---------------------------------------------------------------- list

  /** GetStandardValues: the actions added one by one, then the profile
      names, sorted, added as a range. */
  method GetStandardValues(r: Registry) returns (values: seq<string>)
    ensures |values| == |Actions(r.canModifyActiveProfile)| + |r.Names()|
    ensures values[..|Actions(r.canModifyActiveProfile)|] == Actions(r.canModifyActiveProfile)
    ensures var names := values[|Actions(r.canModifyActiveProfile)|..];
      Sorted(names) && multiset(names) == multiset(r.Names())
    ensures r.Valid() ==>
      forall k :: |Actions(r.canModifyActiveProfile)| <= k < |values| ==> values[k] !in Actions(r.canModifyActiveProfile)
  {
    var returnValue: seq<string> := [];
    returnValue := returnValue + [NewProfile];
    returnValue := returnValue + [CloneProfile];
    if r.canModifyActiveProfile {
      returnValue := returnValue + [DeleteProfile];
      returnValue := returnValue + [ExportProfile];
    }
    returnValue := returnValue + [ImportProfile];
    if r.canModifyActiveProfile {
      returnValue := returnValue + [RenameProfile];
    }
    returnValue := returnValue + [ResetProfile];
    assert returnValue == Actions(r.canModifyActiveProfile);
    var profileNames := r.Names();
    profileNames := SortNames(profileNames);
    values := returnValue + profileNames;
    assert |profileNames| == |multiset(profileNames)| == |multiset(r.Names())|;
    assert values[|returnValue|..] == profileNames;
    if r.Valid() {
      AcceptedAreNotActions(r.canModifyActiveProfile, r.Names(), profileNames);
    }
  }

  /** No accepted name, in whatever order, is an action. */
  lemma AcceptedAreNotActions(canModify: bool, names: seq<string>, listed: seq<string>)
    requires AllAccepted(names) && multiset(listed) == multiset(names)
    ensures forall k :: 0 <= k < |listed| ==> listed[k] !in Actions(canModify)
  {
    forall k | 0 <= k < |listed|
      ensures listed[k] !in Actions(canModify)
    {
      assert listed[k] in multiset(names);
      var i :| 0 <= i < |names| && names[i] == listed[k];
      AcceptedIsValid(names[i]);
      NamesAreNotActions(canModify, names[i]);
    }
  }

  /** The picker holds one entry per action and one per profile. */
  lemma StandardValuesLength(canModify: bool, names: seq<string>)
    ensures |Actions(canModify) + SortNames(names)| == 4 + (if canModify then 3 else 0) + |names|
  {
    ActionsLayout(canModify);
    assert |SortNames(names)| == |multiset(SortNames(names))| == |multiset(names)| == |names|;
  }
}
