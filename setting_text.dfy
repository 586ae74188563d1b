/** The language filter enumeration and the text forms the profile file uses
    for its values: Enum.ToString / Enum.TryParse for the filter and
    bool.ToString / bool.TryParse for the flags. */
module SettingText {
  import opened Text

  /** LanguageFilters: the languages a profile may restrict formatting to. */
  datatype LanguageFilter = All | Cpp | Cs | D | Java

  /** Enum.ToString: the member's name. */
  function LanguageName(l: LanguageFilter): string
  {
    match l
    case All => "All"
    case Cpp => "Cpp"
    case Cs => "Cs"
    case D => "D"
    case Java => "Java"
  }

  /** Enum.TryParse on a member name (case-sensitive, with surrounding
      whitespace ignored); None where it fails. */
  function ParseLanguage(s: string): Option<LanguageFilter>
  {
    MemberNamed(Trim(s))
  }

  /** The member whose name is exactly t, if any. */
  function MemberNamed(t: string): Option<LanguageFilter>
  {
    if t == "All" then Some(All)
    else if t == "Cpp" then Some(Cpp)
    else if t == "Cs" then Some(Cs)
    else if t == "D" then Some(D)
    else if t == "Java" then Some(Java)
    else None
  }

  /** The names read back as the members they name, and a text parses as a
      member exactly when it trims to that member's name. */
  lemma ParseLanguageName(l: LanguageFilter, s: string)
    ensures ParseLanguage(LanguageName(l)) == Some(l)
    ensures ParseLanguage(s) == Some(l) <==> Trim(s) == LanguageName(l)
  {
    LanguageNameTrimmed(l);
    MemberNamedExact(l, LanguageName(l));
    MemberNamedExact(l, Trim(s));
  }

  /** A name denotes exactly the member it names. */
  lemma MemberNamedExact(l: LanguageFilter, t: string)
    ensures MemberNamed(t) == Some(l) <==> t == LanguageName(l)
  {
  }

  /** A member's name has nothing to trim. */
  lemma LanguageNameTrimmed(l: LanguageFilter)
    ensures Trim(LanguageName(l)) == LanguageName(l)
  {
    var n := LanguageName(l);
    assert !IsWhiteSpace(n[0]) && !IsWhiteSpace(n[|n| - 1]);
  }

  /** bool.ToString. */
  function BoolName(b: bool): string
  {
    if b then "True" else "False"
  }

  /** Upper-casing of the ASCII letters. */
  function UpperAscii(c: char): char
  {
    if 'a' <= c <= 'z' then (c as int - 32) as char else c
  }

  /** Ordinal comparison ignoring the case of ASCII letters. */
  predicate EqualsIgnoreCase(a: string, b: string)
  {
    |a| == |b| && forall k :: 0 <= k < |a| ==> UpperAscii(a[k]) == UpperAscii(b[k])
  }

  /** bool.TryParse: "True" or "False" in any letter case, with surrounding
      whitespace ignored; None where it fails. NUL characters, which
      bool.TryParse also trims, are not trimmed here. */
  function ParseBool(s: string): Option<bool>
  {
    var t := Trim(s);
    if EqualsIgnoreCase(t, "True") then Some(true)
    else if EqualsIgnoreCase(t, "False") then Some(false)
    else None
  }

  /** The flag's text reads back as the flag, in any letter case. */
  lemma ParseBoolName(b: bool, s: string)
    requires EqualsIgnoreCase(s, BoolName(b))
    ensures ParseBool(s) == Some(b)
    ensures ParseBool(BoolName(b)) == Some(b)
  {
    BoolTextTrimmed(s, b);
    BoolTextTrimmed(BoolName(b), b);
  }

  /** A text equal to a flag's name up to letter case has nothing to trim. */
  lemma BoolTextTrimmed(s: string, b: bool)
    requires EqualsIgnoreCase(s, BoolName(b))
    ensures Trim(s) == s
  {
    assert UpperAscii(s[0]) == UpperAscii(BoolName(b)[0]);
    assert UpperAscii(s[|s| - 1]) == 'E';
    assert s[0] != ' ' && !IsWhiteSpace(s[0]);
    assert !IsWhiteSpace(s[|s| - 1]);
  }
}
