/** Reference builder and pipeline (`getLanguageSeparator`, `buildCompleteReference`
    and `generateFullReference` in src/extension.ts): the prefix and the names of
    the enclosing symbols, joined by the language's separator. */
module ReferenceBuilder {
  import opened Wrappers
  import opened JsStrings
  import opened SymbolLocator
  import opened NamespacePrefix

  /** `getLanguageSeparator`: "::" for C and C++, "." for every other language,
      unknown ones included. */
  function LanguageSeparator(languageId: string): (separator: string)
    ensures separator == "::" <==> languageId == "cpp" || languageId == "c"
    ensures separator != "::" ==> separator == "."
  {
    match languageId
    case "cpp" => "::"
    case "c" => "::"
    case _ => "."
  }

  /** The names of the symbols of a chain, in order. */
  function Names(chain: seq<Symbol>): (names: seq<string>)
    ensures |names| == |chain|
  {
    if chain == [] then [] else [chain[0].name] + Names(chain[1..])
  }

  /** The name at each index is the name of the symbol at that index. */
  lemma {:induction false} NamesInOrder(chain: seq<Symbol>)
    ensures forall k :: 0 <= k < |chain| ==> Names(chain)[k] == chain[k].name
  {
    if chain != [] {
      NamesInOrder(chain[1..]);
    }
  }

  /** Extending a prefix of the chain by one symbol adds that symbol's name. */
  lemma {:induction false} NamesOfLongerPrefix(chain: seq<Symbol>, i: nat)
    requires i < |chain|
    ensures Names(chain[..i + 1]) == Names(chain[..i]) + [chain[i].name]
  {
    if i > 0 {
      NamesOfLongerPrefix(chain[1..], i - 1);
      assert chain[..i + 1][1..] == chain[1..][..i];
      assert chain[..i][1..] == chain[1..][..i - 1];
    }
  }

  /** The parts `buildCompleteReference` joins: the prefix, unless it is empty
      (the empty string is falsy), then the name of every symbol of the chain. */
  function ReferenceParts(prefix: string, chain: seq<Symbol>): (parts: seq<string>)
    ensures |parts| == |chain| + (if prefix == "" then 0 else 1)
    ensures prefix != "" ==> parts[0] == prefix
    ensures prefix != "" ==> parts[1..] == Names(chain)
    ensures prefix == "" ==> parts == Names(chain)
  {
    (if prefix != "" then [prefix] else []) + Names(chain)
  }

  /** The string `buildCompleteReference` returns for a document and a chain. */
  function CompleteReference(document: Document, relativePath: Option<string>, chain: seq<Symbol>): string
  {
    Join(ReferenceParts(ExtractNamespacePrefix(document, relativePath), chain),
         LanguageSeparator(document.languageId))
  }

  /** `buildCompleteReference`: pushes the prefix when it is non-empty, then every
      symbol's name, and joins the parts with the language's separator. */
  method BuildCompleteReference(document: Document, relativePath: Option<string>, symbolPath: seq<Symbol>)
    returns (reference: string)
    ensures reference == CompleteReference(document, relativePath, symbolPath)
  {
    var parts: seq<string> := [];
    var namespacePrefix := ExtractNamespacePrefix(document, relativePath);
    if namespacePrefix != "" {
      parts := parts + [namespacePrefix];
    }
    for i := 0 to |symbolPath|
      invariant parts == ReferenceParts(namespacePrefix, symbolPath[..i])
    {
      NamesOfLongerPrefix(symbolPath, i);
      parts := parts + [symbolPath[i].name];
    }
    assert symbolPath[..|symbolPath|] == symbolPath;
    var separator := LanguageSeparator(document.languageId);
    reference := Join(parts, separator);
  }

  /** The reference holds the prefix (when non-empty) and every name once, and one
      separator fewer than it has parts. */
  lemma ReferenceLength(document: Document, relativePath: Option<string>, chain: seq<Symbol>)
    requires chain != []
    ensures var prefix := ExtractNamespacePrefix(document, relativePath);
      var parts := ReferenceParts(prefix, chain);
      |parts| == |chain| + (if prefix == "" then 0 else 1) &&
      |CompleteReference(document, relativePath, chain)| ==
        TotalLength(parts) + (|parts| - 1) * |LanguageSeparator(document.languageId)|
  {
    var prefix := ExtractNamespacePrefix(document, relativePath);
    JoinLength(ReferenceParts(prefix, chain), LanguageSeparator(document.languageId));
  }

  /** The reference ends with the name of the innermost symbol, after a separator
      when anything comes before it. */
  lemma ReferenceEndsWithInnermost(document: Document, relativePath: Option<string>, chain: seq<Symbol>)
    requires chain != []
    ensures var reference, last := CompleteReference(document, relativePath, chain), chain[|chain| - 1].name;
      EndsWith(reference, last) &&
      (|reference| > |last| ==>
         EndsWith(reference[..|reference| - |last|], LanguageSeparator(document.languageId)))
  {
    var prefix := ExtractNamespacePrefix(document, relativePath);
    var parts := ReferenceParts(prefix, chain);
    var separator := LanguageSeparator(document.languageId);
    NamesInOrder(chain);
    assert parts[|parts| - 1] == chain[|chain| - 1].name;
    if |parts| >= 2 {
      JoinLast(parts, separator);
      var init := Join(parts[..|parts| - 1], separator);
      assert Join(parts, separator) == (init + separator) + parts[|parts| - 1];
    }
  }

  /** Splitting the dot-join of the parts at dots gives the pieces of the prefix
      followed by the names, when no name contains a dot. */
  lemma {:induction false} PartsSplitIntoNames(prefix: string, chain: seq<Symbol>)
    requires chain != []
    requires forall k :: 0 <= k < |chain| ==> '.' !in chain[k].name
    ensures Split(Join(ReferenceParts(prefix, chain), "."), '.') ==
      (if prefix == "" then [] else Split(prefix, '.')) + Names(chain)
  {
    var names := Names(chain);
    NamesInOrder(chain);
    SplitJoin(names, '.');
    if prefix != "" {
      var parts := [prefix] + names;
      assert parts[1..] == names;
      assert Join(parts, ".") == prefix + "." + Join(names, ".");
      assert prefix + "." + Join(names, ".") == prefix + ['.'] + Join(names, ".");
      SplitConcat(prefix, Join(names, "."), '.');
    } else {
      assert ReferenceParts(prefix, chain) == names;
    }
  }

  /** For a language joined with ".", the reference splits at its dots into the
      dot-separated pieces of the prefix followed by the symbol names, provided no
      name contains a dot: the chain can be read back from the reference. */
  lemma ReferenceSplitsIntoNames(document: Document, relativePath: Option<string>, chain: seq<Symbol>)
    requires LanguageSeparator(document.languageId) == "."
    requires chain != []
    requires forall k :: 0 <= k < |chain| ==> '.' !in chain[k].name
    ensures var prefix := ExtractNamespacePrefix(document, relativePath);
      Split(CompleteReference(document, relativePath, chain), '.') ==
        (if prefix == "" then [] else Split(prefix, '.')) + Names(chain)
  {
    PartsSplitIntoNames(ExtractNamespacePrefix(document, relativePath), chain);
  }

  /** A Python file `d1/.../dn/m.py` in a workspace folder: the reference is the
      dotted module path followed by the symbol names. */
  lemma PythonReferenceOfFile(document: Document, directories: seq<string>, moduleName: string, chain: seq<Symbol>)
    requires document.languageId == "python"
    requires forall k :: 0 <= k < |directories| ==> '/' !in directories[k]
    requires '/' !in moduleName && moduleName != ""
    requires chain != []
    ensures CompleteReference(document, Some(Join(directories + [moduleName + ".py"], "/")), chain) ==
      Join(directories + [moduleName] + Names(chain), ".")
  {
    var modulePath := Join(directories + [moduleName], ".");
    PythonModulePathOfFile(directories, moduleName);
    assert modulePath != "" by {
      if directories != [] {
        JoinLast(directories + [moduleName], ".");
      }
    }
    JoinAppend(directories + [moduleName], Names(chain), ".");
    assert Join([modulePath] + Names(chain), ".") == modulePath + "." + Join(Names(chain), ".") by {
      if |Names(chain)| >= 1 {
        assert ([modulePath] + Names(chain))[1..] == Names(chain);
      }
    }
  }

  /** A Java, Kotlin or Scala file opening with `package p`: the reference is `p`,
      the base name and the symbol names, joined with dots. */
  lemma JvmReferenceOfPackage(document: Document, packageName: string, rest: string, chain: seq<Symbol>)
    requires IsJvmLanguage(document.languageId)
    requires document.text == "package " + packageName + rest
    requires packageName != [] && forall k :: 0 <= k < |packageName| ==> IsNameChar(packageName[k])
    requires rest == [] || !IsNameChar(rest[0])
    requires chain != []
    ensures CompleteReference(document, None, chain) ==
      packageName + "." + FileNameWithoutExtension(document.uriPath) + "." + Join(Names(chain), ".")
  {
    var fileName := FileNameWithoutExtension(document.uriPath);
    JvmPackageAtStart(packageName, rest, fileName);
    var prefix := packageName + "." + fileName;
    assert ExtractNamespacePrefix(document, None) == prefix;
    assert ([prefix] + Names(chain))[1..] == Names(chain);
  }

  /** C and C++ fall to the default prefix, the file's base name: the reference is
      the base name and the symbol names joined with "::", or the names alone when
      the base name is empty. */
  lemma CReferenceQualifiedByFileName(document: Document, relativePath: Option<string>, chain: seq<Symbol>)
    requires document.languageId == "cpp" || document.languageId == "c"
    requires chain != []
    ensures var fileName := FileNameWithoutExtension(document.uriPath);
      CompleteReference(document, relativePath, chain) ==
        if fileName == "" then Join(Names(chain), "::")
        else fileName + "::" + Join(Names(chain), "::")
  {
    var fileName := FileNameWithoutExtension(document.uriPath);
    assert ExtractNamespacePrefix(document, relativePath) == fileName;
    assert LanguageSeparator(document.languageId) == "::";
    if fileName != "" {
      var parts := [fileName] + Names(chain);
      assert parts[1..] == Names(chain);
      assert ReferenceParts(fileName, chain) == parts;
      assert Join(parts, "::") == fileName + "::" + Join(Names(chain), "::");
    } else {
      assert ReferenceParts(fileName, chain) == Names(chain);
    }
  }

  /** `generateFullReference`, with the host's answers as parameters: whether there
      is a word at the cursor, the symbols the provider returned (none when it
      failed), and the workspace-relative path of the document (none outside a
      workspace folder). There is no reference without a word, without symbols or
      without an enclosing symbol; otherwise it is the reference of the chain. */
  method GenerateFullReference(document: Document, position: Position, hasWordAtCursor: bool,
                               symbols: Option<seq<Symbol>>, relativePath: Option<string>)
    returns (reference: Option<string>)
    ensures reference.None? <==>
      !hasWordAtCursor || symbols.None? || Hierarchy(symbols.value, position) == []
    ensures reference.Some? ==>
      reference.value == CompleteReference(document, relativePath, Hierarchy(symbols.value, position))
  {
    if !hasWordAtCursor {
      return None;
    }
    if symbols.None? {
      return None;
    }
    var symbolPath := FindSymbolHierarchy(symbols.value, position);
    if |symbolPath| == 0 {
      return None;
    }
    var built := BuildCompleteReference(document, relativePath, symbolPath);
    return Some(built);
  }
}
