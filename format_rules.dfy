/** The rules around one format operation of the package: which documents
    may be formatted (the extension table and the language filter), the
    command line handed to Uncrustify, where the caret goes once the text has
    been replaced, and the flag that keeps the save made after formatting
    from formatting again. */
module FormatRules {
  import opened Text
  import opened SettingText
  import opened CaretAnchor
  import ProfileModel

  /** The language name Uncrustify's -l option expects for a filter. */
  function UncrustifyLanguage(language: LanguageFilter): string
  {
    match language
    case Cpp => "CPP"
    case Cs => "CSharp"
    case D => "D"
    case Java => "JAVA"
    case All => "OTHER"
  }

  /** The table the package's constructor builds. */
  function StandardTable(): map<string, (LanguageFilter, string)>
  {
    map[".c" := (Cpp, "CPP"), ".cpp" := (Cpp, "CPP"), ".h" := (Cpp, "CPP"),
        ".cs" := (Cs, "CSharp"), ".d" := (D, "D"), ".java" := (Java, "JAVA")]
  }

  /** What CanFormatDocument reads of a host document. */
  datatype Document = Document(fullName: string, readOnly: bool, kind: string)

  /** The separators Path.GetExtension stops at: '\\', '/' and ':'. */
  predicate IsSeparator(c: char)
  {
    c == '\\' || c == '/' || c == ':'
  }

  /** The scan of Path.GetExtension over path[..i], from its end: the
      position of the last '.', unless a separator comes after it. */
  function DotScan(path: string, i: nat): (r: Option<nat>)
    requires i <= |path|
    ensures r.Some? ==> r.value < i && path[r.value] == '.'
  {
    if i == 0 then None
    else if path[i - 1] == '.' then Some(i - 1)
    else if IsSeparator(path[i - 1]) then None
    else DotScan(path, i - 1)
  }

  /** Path.GetExtension: from the last '.' of the file name on, or empty when
      there is none or it is the last character. */
  function Extension(path: string): string
  {
    match DotScan(path, |path|)
    case None => ""
    case Some(k) => if k < |path| - 1 then path[k..] else ""
  }

  /** The characters after k hold neither a '.' nor a separator. */
  predicate PlainAfter(path: string, k: nat)
  {
    forall m :: k < m < |path| ==> path[m] != '.' && !IsSeparator(path[m])
  }

  lemma {:induction false} DotScanFinds(path: string, i: nat, k: nat)
    requires i <= |path| && k < i
    ensures DotScan(path, i) == Some(k) <==> path[k] == '.' && forall m :: k < m < i ==> path[m] != '.' && !IsSeparator(path[m])
    decreases i
  {
    if path[i - 1] != '.' && !IsSeparator(path[i - 1]) && k < i - 1 {
      DotScanFinds(path, i - 1, k);
    } else if path[i - 1] != '.' && k < i - 1 {
      assert !(path[i - 1] != '.' && !IsSeparator(path[i - 1]));
    }
  }

  /** The extension is path[k..] exactly when k is the last '.' of the file
      name and not its last character. */
  lemma ExtensionAt(path: string, k: nat)
    requires k < |path| - 1
    ensures Extension(path) == path[k..] <==> path[k] == '.' && PlainAfter(path, k)
  {
    DotScanFinds(path, |path|, k);
    var e := Extension(path);
    if e == path[k..] {
      var j := DotScan(path, |path|).value;
      DotScanFinds(path, |path|, j);
      assert |path[j..]| == |path[k..]|;
    }
  }

  /** A non-empty extension is a suffix of the path. */
  lemma ExtensionSuffix(path: string)
    ensures Extension(path) == [] || (|Extension(path)| <= |path| && Extension(path) == path[|path| - |Extension(path)|..])
  {
    if DotScan(path, |path|).Some? {
      var k := DotScan(path, |path|).value;
      if k < |path| - 1 {
        assert Extension(path) == path[k..];
        assert |path| - |path[k..]| == k;
      }
    }
  }

  /** Lower-casing of the ASCII letters (ToLowerInvariant on the characters
      an extension in the table can be made of). */
  function LowerAscii(c: char): char
  {
    if 'A' <= c <= 'Z' then (c as int + 32) as char else c
  }

  function ToLower(s: string): (r: string)
    ensures |r| == |s| && forall k :: 0 <= k < |s| ==> r[k] == LowerAscii(s[k])
  {
    if s == [] then [] else [LowerAscii(s[0])] + ToLower(s[1..])
  }

  /** The package: its extension table and the re-entrancy flag of the
      document-saved handler. */
  class Package {
    var extToUncrustifyLanguage: map<string, (LanguageFilter, string)>
    var ignoreNextSave: bool

    /** The constructor maps c, cpp, h to C/C++, cs to C#, d to D and java to
        Java. */
    constructor ()
      ensures extToUncrustifyLanguage == StandardTable() && !ignoreNextSave
    {
      extToUncrustifyLanguage := map[];
      ignoreNextSave := false;
      new;
      assert "." + "c" == ".c" && "." + "cpp" == ".cpp" && "." + "h" == ".h";
      assert "." + "cs" == ".cs" && "." + "d" == ".d" && "." + "java" == ".java";
      var added := MapExtension("c", Cpp);
      added := MapExtension("cpp", Cpp);
      added := MapExtension("h", Cpp);
      added := MapExtension("cs", Cs);
      added := MapExtension("d", D);
      added := MapExtension("java", Java);
    }

    /** MapExtension: Dictionary.Add of "." + ext; Add refuses a key that is
        already present (it throws), which leaves the table as it was. */
    method MapExtension(ext: string, language: LanguageFilter) returns (added: bool)
      modifies this
      ensures added <==> "." + ext !in old(extToUncrustifyLanguage)
      ensures extToUncrustifyLanguage == if added
        then old(extToUncrustifyLanguage)["." + ext := (language, UncrustifyLanguage(language))]
        else old(extToUncrustifyLanguage)
      ensures ignoreNextSave == old(ignoreNextSave)
    {
      var key := "." + ext;
      if key in extToUncrustifyLanguage {
        return false;
      }
      extToUncrustifyLanguage := extToUncrustifyLanguage[key := (language, UncrustifyLanguage(language))];
      added := true;
    }

    /** CanFormatDocument: the Uncrustify language of the document when it
        may be formatted under the filter, None otherwise. */
    function CanFormatDocument(document: Option<Document>, filter: LanguageFilter): Option<string>
      reads this
    {
      if document.None? || document.value.readOnly || document.value.kind != "Text" then None
      else
        var ext := ToLower(Extension(document.value.fullName));
        if ext !in extToUncrustifyLanguage then None
        else
          var kv := extToUncrustifyLanguage[ext];
          if filter == All || kv.0 == filter then Some(kv.1) else None
    }

    /** DocEvents_Saved. UncrustifyDocument's result (true when Uncrustify
        ran and its output was written back, whether or not it differs from
        the old text) is the parameter formats; saving the document raises the saved
        event again, which is the nested call. The results count the formatter
        runs and the saves made here: one of each at most per save by the
        user, and the flag ends as it began. */
    method DocumentSaved(formatOnDocSaved: bool, formats: bool) returns (runs: nat, saves: nat)
      modifies this
      ensures runs == if !old(ignoreNextSave) && formatOnDocSaved then 1 else 0
      ensures saves == if runs == 1 && formats then 1 else 0
      ensures ignoreNextSave == old(ignoreNextSave)
      ensures extToUncrustifyLanguage == old(extToUncrustifyLanguage)
      decreases if ignoreNextSave then 0 else 1
    {
      runs, saves := 0, 0;
      if !ignoreNextSave && formatOnDocSaved {
        runs := 1;
        if formats {
          ignoreNextSave := true;
          saves := 1;
          var nestedRuns, nestedSaves := DocumentSaved(formatOnDocSaved, formats);
          runs, saves := runs + nestedRuns, saves + nestedSaves;
          ignoreNextSave := false;
        }
      }
    }
  }

  /** The extensions of the standard table and their languages. */
  predicate StandardEligible(ext: string, filter: LanguageFilter)
  {
    ((ext == ".c" || ext == ".cpp" || ext == ".h") && (filter == All || filter == Cpp))
    || (ext == ".cs" && (filter == All || filter == Cs))
    || (ext == ".d" && (filter == All || filter == D))
    || (ext == ".java" && (filter == All || filter == Java))
  }

  /** Eligibility with the standard table: a document may be formatted
      exactly when it is a writable text document whose lower-cased
      extension is one of .c, .cpp, .h, .cs, .d, .java and the filter is All
      or that extension's language; the language string handed on is then
      CPP, CSharp, D or JAVA. */
  lemma Eligibility(p: Package, document: Option<Document>, filter: LanguageFilter)
    requires p.extToUncrustifyLanguage == StandardTable()
    ensures p.CanFormatDocument(document, filter).Some?
      <==> document.Some? && !document.value.readOnly && document.value.kind == "Text"
           && StandardEligible(ToLower(Extension(document.value.fullName)), filter)
    ensures p.CanFormatDocument(document, filter).Some? ==>
      var ext := ToLower(Extension(document.value.fullName));
      p.CanFormatDocument(document, filter).value
      == if ext == ".cs" then "CSharp" else if ext == ".d" then "D" else if ext == ".java" then "JAVA" else "CPP"
  {
    if document.Some? && !document.value.readOnly && document.value.kind == "Text" {
      StandardLookup(ToLower(Extension(document.value.fullName)), filter);
    }
  }

  /** The standard table read under a filter. */
  lemma StandardLookup(ext: string, filter: LanguageFilter)
    ensures (ext in StandardTable() && (filter == All || StandardTable()[ext].0 == filter)) <==> StandardEligible(ext, filter)
    ensures ext in StandardTable() ==>
      StandardTable()[ext].1 == if ext == ".cs" then "CSharp" else if ext == ".d" then "D" else if ext == ".java" then "JAVA" else "CPP"
  {
    var t := StandardTable();
    if ext == ".c" || ext == ".cpp" || ext == ".h" {
      assert t[ext] == (Cpp, "CPP");
    } else if ext == ".cs" {
      assert t[ext] == (Cs, "CSharp");
    } else if ext == ".d" {
      assert t[ext] == (D, "D");
    } else if ext == ".java" {
      assert t[ext] == (Java, "JAVA");
    } else {
      assert ext !in t;
    }
  }

  // ---------------------------------------------------------- command line

  /** The command line of a format run: the profile's command line with its
      placeholders replaced, in this order and each everywhere, then
      " --frag" for a selection. */
  function BuildCommandLine(commandLine: string, language: string, cfgFilePath: string, tmpFilePath: string,
                            documentName: string, documentPath: string, solution: string, selectionOnly: bool): string
  {
    var s1 := ReplaceAll(commandLine, "%LANGUAGE%", language);
    var s2 := ReplaceAll(s1, "%CFGFILE%", cfgFilePath);
    var s3 := ReplaceAll(s2, "%FILE%", tmpFilePath);
    var s4 := ReplaceAll(s3, "%FILENAME%", documentName);
    var s5 := ReplaceAll(s4, "%FILE_DIR%", documentPath);
    var s6 := ReplaceAll(s5, "%SOLUTION%", solution);
    if selectionOnly then s6 + " --frag" else s6
  }

  /** A selection run differs from a document run only by the " --frag"
      suffix; the profile's fragment flag plays no part. */
  lemma FragOnlyForSelection(commandLine: string, language: string, cfgFilePath: string, tmpFilePath: string,
                             documentName: string, documentPath: string, solution: string)
    ensures BuildCommandLine(commandLine, language, cfgFilePath, tmpFilePath, documentName, documentPath, solution, true)
         == BuildCommandLine(commandLine, language, cfgFilePath, tmpFilePath, documentName, documentPath, solution, false) + " --frag"
  {
  }

  /** The default command line, with values that hold no '%', expands to
      the configuration file, the language and the temporary file in their
      places. */
  lemma DefaultExpansion(language: string, cfgFilePath: string, tmpFilePath: string,
                         documentName: string, documentPath: string, solution: string, selectionOnly: bool)
    requires '%' !in language && '%' !in cfgFilePath && '%' !in tmpFilePath
    requires '%' !in documentName && '%' !in documentPath && '%' !in solution
    ensures BuildCommandLine(ProfileModel.DefaultCommandLine, language, cfgFilePath, tmpFilePath, documentName, documentPath, solution, selectionOnly)
         == "-c \"" + cfgFilePath + "\" -q -l " + language + " --no-backup \"" + tmpFilePath + "\""
            + (if selectionOnly then " --frag" else "")
  {
    var s3 := "-c \"" + cfgFilePath + "\" -q -l " + language + " --no-backup \"" + tmpFilePath + "\"";
    PlaceholderPasses(language, cfgFilePath, tmpFilePath, s3);
    ReplaceAllAbsent(s3, "%FILENAME%", documentName);
    ReplaceAllAbsent(s3, "%FILE_DIR%", documentPath);
    ReplaceAllAbsent(s3, "%SOLUTION%", solution);
  }

  /** The first three passes over the default command line fill in the
      language, the configuration file and the temporary file. */
  lemma PlaceholderPasses(language: string, cfgFilePath: string, tmpFilePath: string, s3: string)
    requires '%' !in language && '%' !in cfgFilePath && '%' !in tmpFilePath
    requires s3 == "-c \"" + cfgFilePath + "\" -q -l " + language + " --no-backup \"" + tmpFilePath + "\""
    ensures ReplaceAll(ReplaceAll(ReplaceAll(ProfileModel.DefaultCommandLine, "%LANGUAGE%", language),
                                  "%CFGFILE%", cfgFilePath), "%FILE%", tmpFilePath) == s3
    ensures '%' !in s3
  {
    var a, b, c, q := "-c \"", "\" -q -l ", " --no-backup \"", "\"";
    var s0 := a + ("%CFGFILE%" + (b + ("%LANGUAGE%" + (c + ("%FILE%" + q)))));
    DefaultCommandLineParts(a, b, c, q, s0);
    var s1 := a + ("%CFGFILE%" + (b + (language + (c + ("%FILE%" + q)))));
    LanguagePass(a, b, c, q, language, s0, s1);
    var s2 := a + (cfgFilePath + (b + (language + (c + ("%FILE%" + q)))));
    ConfigPass(a, b, c, q, language, cfgFilePath, s1, s2);
    var t3 := a + (cfgFilePath + (b + (language + (c + (tmpFilePath + q)))));
    FilePass(a, b, c, q, language, cfgFilePath, tmpFilePath, s2, t3);
    ExpandedLayout(a, b, c, q, language, cfgFilePath, tmpFilePath, t3);
  }

  /** The default command line in its literal pieces and placeholders. */
  lemma DefaultCommandLineParts(a: string, b: string, c: string, q: string, s0: string)
    requires a == "-c \"" && b == "\" -q -l " && c == " --no-backup \"" && q == "\""
    requires s0 == a + ("%CFGFILE%" + (b + ("%LANGUAGE%" + (c + ("%FILE%" + q)))))
    ensures ProfileModel.DefaultCommandLine == s0
  {
  }

  /** The expanded default command line holds no '%'. */
  lemma ExpandedLayout(a: string, b: string, c: string, q: string, language: string, cfgFilePath: string,
                       tmpFilePath: string, s3: string)
    requires a == "-c \"" && b == "\" -q -l " && c == " --no-backup \"" && q == "\""
    requires '%' !in language && '%' !in cfgFilePath && '%' !in tmpFilePath
    requires s3 == a + (cfgFilePath + (b + (language + (c + (tmpFilePath + q)))))
    ensures '%' !in s3
    ensures s3 == a + cfgFilePath + b + language + c + tmpFilePath + q
  {
  }

  lemma LanguagePass(a: string, b: string, c: string, q: string, language: string, s0: string, s1: string)
    requires a == "-c \"" && b == "\" -q -l " && c == " --no-backup \"" && q == "\""
    requires s0 == a + ("%CFGFILE%" + (b + ("%LANGUAGE%" + (c + ("%FILE%" + q)))))
    requires s1 == a + ("%CFGFILE%" + (b + (language + (c + ("%FILE%" + q)))))
    ensures ReplaceAll(s0, "%LANGUAGE%", language) == s1
  {
    var p := "%LANGUAGE%";
    ReplaceAllAbsent(q, p, language);
    ReplaceAllPastPlaceholder("%FILE%", q, p, language);
    ReplaceAllFreePrefix(c, "%FILE%" + q, p, language);
    ReplaceAllHit(p, c + ("%FILE%" + q), language);
    ReplaceAllFreePrefix(b, p + (c + ("%FILE%" + q)), p, language);
    ReplaceAllPastPlaceholder("%CFGFILE%", b + (p + (c + ("%FILE%" + q))), p, language);
    ReplaceAllFreePrefix(a, "%CFGFILE%" + (b + (p + (c + ("%FILE%" + q)))), p, language);
  }

  lemma ConfigPass(a: string, b: string, c: string, q: string, language: string, cfgFilePath: string, s1: string, s2: string)
    requires a == "-c \"" && b == "\" -q -l " && c == " --no-backup \"" && q == "\"" && '%' !in language
    requires s1 == a + ("%CFGFILE%" + (b + (language + (c + ("%FILE%" + q)))))
    requires s2 == a + (cfgFilePath + (b + (language + (c + ("%FILE%" + q)))))
    ensures ReplaceAll(s1, "%CFGFILE%", cfgFilePath) == s2
  {
    var p := "%CFGFILE%";
    ReplaceAllAbsent(q, p, cfgFilePath);
    ReplaceAllPastPlaceholder("%FILE%", q, p, cfgFilePath);
    assert '%' !in b + (language + c);
    assert b + (language + (c + ("%FILE%" + q))) == (b + (language + c)) + ("%FILE%" + q);
    ReplaceAllFreePrefix(b + (language + c), "%FILE%" + q, p, cfgFilePath);
    ReplaceAllHit(p, b + (language + (c + ("%FILE%" + q))), cfgFilePath);
    ReplaceAllFreePrefix(a, p + (b + (language + (c + ("%FILE%" + q)))), p, cfgFilePath);
  }

  lemma FilePass(a: string, b: string, c: string, q: string, language: string, cfgFilePath: string, tmpFilePath: string,
                 s2: string, s3: string)
    requires a == "-c \"" && b == "\" -q -l " && c == " --no-backup \"" && q == "\""
    requires '%' !in language && '%' !in cfgFilePath
    requires s2 == a + (cfgFilePath + (b + (language + (c + ("%FILE%" + q)))))
    requires s3 == a + (cfgFilePath + (b + (language + (c + (tmpFilePath + q)))))
    ensures ReplaceAll(s2, "%FILE%", tmpFilePath) == s3
  {
    var p := "%FILE%";
    var u := a + (cfgFilePath + (b + (language + c)));
    assert '%' !in u;
    assert s2 == u + (p + q);
    assert s3 == u + (tmpFilePath + q);
    ReplaceAllAbsent(q, p, tmpFilePath);
    ReplaceAllHit(p, q, tmpFilePath);
    ReplaceAllFreePrefix(u, p + q, p, tmpFilePath);
  }

  /** The replacements cascade: text inserted by an earlier placeholder is
      subject to the later ones, so a configuration path that reads "%FILE%"
      ends up as the temporary file's path. */
  lemma ReplacementsCascade(tmpFilePath: string)
    requires '%' !in tmpFilePath
    ensures BuildCommandLine("%CFGFILE%", "CPP", "%FILE%", tmpFilePath, "", "", "", false) == tmpFilePath
  {
    var p := "%LANGUAGE%";
    ReplaceAllPastPlaceholder("%CFGFILE%", [], p, "CPP");
    assert "%CFGFILE%" + [] == "%CFGFILE%";
    assert ReplaceAll([], p, "CPP") == [];
    ReplaceAllHit("%CFGFILE%", [], "%FILE%");
    assert ReplaceAll([], "%CFGFILE%", "%FILE%") == [];
    ReplaceAllHit("%FILE%", [], tmpFilePath);
    assert ReplaceAll([], "%FILE%", tmpFilePath) == [];
    assert "%FILE%" + [] == "%FILE%" && tmpFilePath + [] == tmpFilePath;
    ReplaceAllAbsent(tmpFilePath, "%FILENAME%", "");
    ReplaceAllAbsent(tmpFilePath, "%FILE_DIR%", "");
    ReplaceAllAbsent(tmpFilePath, "%SOLUTION%", "");
  }

  // ---------------------------------------------------- caret restoration

  /** Where the caret is sent after the text was replaced. */
  datatype CaretMove =
    | Stay                                   // formatted text equals the old text: nothing is restored
    | ToOffset(offset: int)                  // the fingerprint decoded: MoveToAbsoluteOffset
    | ToLineColumn(line: int, column: int)   // decoding failed: MoveToLineAndOffset

  /** The column of the fallback: moved left by the amount the line
      shrank, when it shrank and the old column lies past its new end. */
  function FallbackColumn(oldColumn: int, oldLineLength: int, newLineLength: int): int
  {
    var dtLineLength := newLineLength - oldLineLength;
    if dtLineLength < 0 && oldColumn > newLineLength then oldColumn + dtLineLength else oldColumn
  }

  /** The view restoration of UncrustifyDocument. docText is the text sent
      to the formatter and formatted the text it returned; newDocument is the
      whole document after the replacement, which the fingerprint is decoded
      against; newLineLength is the length of the old caret line after the
      first move to (oldLine, oldColumn). */
  function RestoreCaret(docText: string, formatted: string, newDocument: string, fingerprint: string,
                        oldLine: int, oldColumn: int, oldLineLength: int, newLineLength: int): CaretMove
  {
    if docText == formatted then Stay
    else match Decode(newDocument, fingerprint)
      case Some(offset) => ToOffset(offset)
      case None => ToLineColumn(oldLine, FallbackColumn(oldColumn, oldLineLength, newLineLength))
  }

  /** Restoration runs only when the formatter changed the text; it moves
      to the decoded offset when there is one, and otherwise to the old line,
      keeping the old column unless the line shrank below it. */
  lemma RestoreCaretCases(docText: string, formatted: string, newDocument: string, fingerprint: string,
                          oldLine: int, oldColumn: int, oldLineLength: int, newLineLength: int)
    ensures var m := RestoreCaret(docText, formatted, newDocument, fingerprint, oldLine, oldColumn, oldLineLength, newLineLength);
      (m.Stay? <==> docText == formatted)
      && (m.ToOffset? <==> docText != formatted && Decode(newDocument, fingerprint).Some?)
      && (m.ToOffset? ==> 1 <= m.offset <= 1 + |newDocument|)
      && (m.ToLineColumn? ==> m.line == oldLine && m.column <= oldColumn
                              && (m.column < oldColumn <==> newLineLength < oldLineLength && oldColumn > newLineLength))
  {
    if docText != formatted && Decode(newDocument, fingerprint).Some? {
      DecodeRange(newDocument, fingerprint);
    }
  }

  /** The fallback column lands at most one past the end of the new line
      when the old column was at most one past the end of the old one. */
  lemma FallbackWithinLine(oldColumn: int, oldLineLength: int, newLineLength: int)
    requires 1 <= oldColumn <= oldLineLength + 1 && 0 <= newLineLength
    ensures FallbackColumn(oldColumn, oldLineLength, newLineLength) <= newLineLength + 1
    ensures FallbackColumn(oldColumn, oldLineLength, newLineLength) <= oldColumn
  {
  }

  /** There is no lower clamp: a line that shrank by more than the old
      column sends the caret to a column below 1. */
  lemma FallbackBelowFirstColumn()
    ensures FallbackColumn(3, 10, 2) == -5
  {
  }
}
