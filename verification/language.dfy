/**
 The upload endpoint's language classifier: the extension of a file name's final
 component, lower-cased, looked up in a fixed table of fifteen extensions.
 */
module Language {
  import opened Text
  import opened PathSuffix

  /** The tag for a file whose extension is not in the table. */
  const Unknown: string := "unknown"

  /** The extension table, keyed by lower-case extension with its leading dot. */
  const ExtensionTable: map<string, string> := map[
    ".py" := "python", ".js" := "javascript", ".ts" := "typescript",
    ".cpp" := "cpp", ".c" := "c", ".h" := "cpp", ".hpp" := "cpp",
    ".cs" := "csharp", ".java" := "java", ".mq5" := "mql5", ".mqh" := "mql5",
    ".rs" := "rust", ".go" := "go", ".rb" := "ruby", ".php" := "php"
  ]

  /** Every tag the classifier can answer with. */
  const LanguageTags: set<string> := {
    "python", "javascript", "typescript", "cpp", "c", "csharp", "java",
    "mql5", "rust", "go", "ruby", "php", "unknown"
  }

  /** The table lookup with its default, after lower-casing the extension. */
  function LookupExtension(ext: string): (tag: string)
    ensures tag in LanguageTags
    ensures tag == Unknown <==> Lower(ext) !in ExtensionTable
    ensures tag != Unknown ==> ExtensionTable[Lower(ext)] == tag
  {
    var key := Lower(ext);
    if key in ExtensionTable then ExtensionTable[key] else Unknown
  }

  /** The language tag of an uploaded file's name. */
  function DetectLanguage(filename: string): (tag: string)
    ensures tag in LanguageTags
    ensures tag == Unknown <==> Lower(Suffix(Name(filename))) !in ExtensionTable
    ensures tag != Unknown ==> tag == ExtensionTable[Lower(Suffix(Name(filename)))]
  {
    LookupExtension(Suffix(Name(filename)))
  }

  /** The table's values together with the default are exactly the tags the
      classifier can answer with, and the default is not one of the values. */
  lemma TableTags()
    ensures ExtensionTable.Values + {Unknown} == LanguageTags
    ensures Unknown !in ExtensionTable.Values
  {
    assert ExtensionTable[".py"] == "python" && ExtensionTable[".js"] == "javascript";
    assert ExtensionTable[".ts"] == "typescript" && ExtensionTable[".cpp"] == "cpp";
    assert ExtensionTable[".c"] == "c" && ExtensionTable[".cs"] == "csharp";
    assert ExtensionTable[".java"] == "java" && ExtensionTable[".mq5"] == "mql5";
    assert ExtensionTable[".rs"] == "rust" && ExtensionTable[".go"] == "go";
    assert ExtensionTable[".rb"] == "ruby" && ExtensionTable[".php"] == "php";
  }

  /** Every key is already lower case and is a dot followed by dot-free text, so
      each key is reachable as the suffix of some file name. */
  lemma TableKeysAreSuffixes()
    ensures forall k :: k in ExtensionTable ==> Lower(k) == k && |k| >= 2 && k[0] == '.' && '.' !in k[1..] && '/' !in k
  {
    forall k | k in ExtensionTable
      ensures Lower(k) == k && |k| >= 2 && k[0] == '.' && '.' !in k[1..] && '/' !in k
    {
      LowerOfLowerCase(k);
    }
  }

  /** Classification ignores ASCII case: file names that agree up to case get the
      same tag. */
  lemma DetectIgnoresCase(f: string, g: string)
    requires CaseVariant(f, g)
    ensures DetectLanguage(f) == DetectLanguage(g)
  {
    NameCaseVariant(f, g);
    SuffixCaseVariant(Name(f), Name(g));
    LowerCaseVariant(Suffix(Name(f)), Suffix(Name(g)));
  }

  /** Only the last extension of the final component counts: a file `stem + ext`,
      bare or under any directory, is classified by `ext` alone, whatever dots the
      stem or the directories hold. */
  lemma DetectUsesLastExtension(dir: string, stem: string, ext: string)
    requires |stem| >= 1 && '/' !in stem
    requires |ext| >= 2 && ext[0] == '.' && '.' !in ext[1..] && '/' !in ext
    ensures DetectLanguage(stem + ext) == LookupExtension(ext)
    ensures DetectLanguage(dir + "/" + stem + ext) == LookupExtension(ext)
  {
    var leaf := stem + ext;
    assert leaf[|leaf| - 1] == ext[|ext| - 1];
    assert leaf != ".";
    NameOfChild(dir, leaf);
    assert dir + "/" + stem + ext == dir + "/" + leaf;
    SuffixOfStem(stem, ext);
  }

  /** A final component without a suffix (no dot, only a leading dot as in a
      dotfile, or a trailing dot) is classified as unknown. */
  lemma NoSuffixIsUnknown(dir: string, leaf: string)
    requires '/' !in leaf && !Discarded(leaf) && HasNoSuffix(leaf)
    ensures DetectLanguage(leaf) == Unknown
    ensures DetectLanguage(dir + "/" + leaf) == Unknown
  {
    assert Lower("") == "";
    NameOfChild(dir, leaf);
  }

  /** The table entries that are easy to get wrong, looked up directly: headers
      `.h` and `.hpp` are C++ like `.cpp` while `.c` is C, both MQL5 extensions are
      `mql5`, upper-case spellings are found, and `.txt` is absent. */
  lemma TableLookups()
    ensures LookupExtension(".h") == "cpp" && LookupExtension(".hpp") == "cpp"
    ensures LookupExtension(".cpp") == "cpp" && LookupExtension(".c") == "c"
    ensures LookupExtension(".mq5") == "mql5" && LookupExtension(".mqh") == "mql5"
    ensures LookupExtension(".C") == "c" && LookupExtension(".PY") == "python"
    ensures LookupExtension(".txt") == Unknown
  {
    LowerOfLowerCase(".h");
    LowerOfLowerCase(".hpp");
    LowerOfLowerCase(".cpp");
    LowerOfLowerCase(".c");
    LowerOfLowerCase(".mq5");
    LowerOfLowerCase(".mqh");
    LowerOfLowerCase(".txt");
    LowerCaseVariant(".C", ".c");
    LowerOfLowerCase(".py");
    LowerCaseVariant(".PY", ".py");
  }

  /** A table lookup carried over to every plain file name with that extension. */
  lemma DetectPlainName(stem: string, ext: string, tag: string)
    requires |stem| >= 1 && '/' !in stem
    requires |ext| >= 2 && ext[0] == '.' && '.' !in ext[1..] && '/' !in ext
    requires LookupExtension(ext) == tag
    ensures DetectLanguage(stem + ext) == tag
  {
    DetectUsesLastExtension("", stem, ext);
  }

  /** Through the classifier: `.h` and `.hpp` files are C++, `.c` files are C. */
  lemma CFamilyEntries(stem: string)
    requires |stem| >= 1 && '/' !in stem
    ensures DetectLanguage(stem + ".h") == "cpp"
    ensures DetectLanguage(stem + ".hpp") == "cpp"
    ensures DetectLanguage(stem + ".c") == "c"
  {
    TableLookups();
    DetectPlainName(stem, ".h", "cpp");
    DetectPlainName(stem, ".hpp", "cpp");
    DetectPlainName(stem, ".c", "c");
  }

  /** Through the classifier: `.mq5` and `.mqh` files are MQL5. */
  lemma Mql5Entries(stem: string)
    requires |stem| >= 1 && '/' !in stem
    ensures DetectLanguage(stem + ".mq5") == "mql5"
    ensures DetectLanguage(stem + ".mqh") == "mql5"
  {
    TableLookups();
    DetectPlainName(stem, ".mq5", "mql5");
    DetectPlainName(stem, ".mqh", "mql5");
  }

  /** Through the classifier: any extension whose lower-cased form is not in the
      table gives `unknown`. */
  lemma MissingExtensionIsUnknown(stem: string, ext: string)
    requires |stem| >= 1 && '/' !in stem
    requires |ext| >= 2 && ext[0] == '.' && '.' !in ext[1..] && '/' !in ext
    requires Lower(ext) !in ExtensionTable
    ensures DetectLanguage(stem + ext) == Unknown
  {
    DetectPlainName(stem, ext, Unknown);
  }

  /** Through the classifier: an upper-case `.C` is C, and `.txt` is unknown. */
  lemma CaseAndMissingEntries(stem: string)
    requires |stem| >= 1 && '/' !in stem
    ensures DetectLanguage(stem + ".C") == "c"
    ensures DetectLanguage(stem + ".txt") == Unknown
  {
    TableLookups();
    DetectPlainName(stem, ".C", "c");
    DetectPlainName(stem, ".txt", Unknown);
  }
}
