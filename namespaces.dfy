/** Namespace, module or package prefix of a document (`extractNamespacePrefix` and
    its helpers in src/extension.ts): the file's base name, the Python module path
    derived from the workspace-relative path, and the first `package` or
    `namespace` declaration found in the text. */
module NamespacePrefix {
  import opened Wrappers
  import opened JsStrings

  /** The parts of a VS Code text document the prefix depends on. */
  datatype Document = Document(languageId: string, text: string, uriPath: string)

  // ---------------------------------------------------------------------------
  // getFileNameWithoutExtension
  // ---------------------------------------------------------------------------

  /** `path.split('/').pop() || ''`: the last '/'-separated segment of `path`. */
  function LastSegment(path: string): (segment: string)
    ensures '/' !in segment
  {
    var parts := Split(path, '/');
    parts[|parts| - 1]
  }

  /** The last segment is a suffix of the path, preceded by a '/' unless it is the
      whole path. */
  lemma LastSegmentIsTail(path: string)
    ensures var segment := LastSegment(path);
      EndsWith(path, segment) &&
      (|segment| < |path| ==> path[|path| - |segment| - 1] == '/')
  {
    var parts := Split(path, '/');
    JoinSplit(path, '/');
    if |parts| >= 2 {
      JoinLast(parts, "/");
    }
  }

  /** The regular expression `\.[^/.]+$` matches at index `k` of `s`: a dot followed
      by a non-empty run, up to the end of `s`, of characters other than '/' and
      '.'. */
  predicate ExtensionAt(s: string, k: nat) {
    k + 1 < |s| && s[k] == '.' &&
    forall j :: k < j < |s| ==> s[j] != '.' && s[j] != '/'
  }

  /** The index of the last '.' or '/' of `s`, if any. */
  function LastDotOrSlash(s: string): (r: Option<nat>)
    ensures r.Some? ==> r.value < |s| && (s[r.value] == '.' || s[r.value] == '/')
    ensures r.Some? ==> forall j :: r.value < j < |s| ==> s[j] != '.' && s[j] != '/'
    ensures r.None? ==> forall j :: 0 <= j < |s| ==> s[j] != '.' && s[j] != '/'
  {
    if s == [] then None
    else if s[|s| - 1] == '.' || s[|s| - 1] == '/' then Some(|s| - 1)
    else LastDotOrSlash(s[..|s| - 1])
  }

  /** `s.replace(/\.[^/.]+$/, '')`: drops the final extension when there is one.
      The result is `s` exactly when the pattern matches nowhere in `s`; otherwise
      it is the part of `s` before the dot where the pattern matches. */
  function RemoveExtension(s: string): (r: string)
    ensures |r| <= |s| && r == s[..|r|]
    ensures r == s <==> forall k :: 0 <= k < |s| ==> !ExtensionAt(s, k)
    ensures r != s ==> ExtensionAt(s, |r|)
    ensures forall k :: 0 <= k < |s| && ExtensionAt(s, k) ==> r == s[..k]
  {
    match LastDotOrSlash(s)
    case Some(k) =>
      if s[k] == '.' && k + 1 < |s| then
        assert ExtensionAt(s, k);
        assert forall k' :: 0 <= k' < |s| && ExtensionAt(s, k') ==> k' == k by {
          forall k' | 0 <= k' < |s| && ExtensionAt(s, k') ensures k' == k {
            assert s[k] == '.';
          }
        }
        s[..k]
      else
        assert forall k' :: 0 <= k' < |s| ==> !ExtensionAt(s, k') by {
          forall k' | 0 <= k' < |s| && k' < k ensures !ExtensionAt(s, k') {
            assert s[k] == '.' || s[k] == '/';
          }
        }
        s
    case None => s
  }

  /** `getFileNameWithoutExtension`: the base name of the document's path. */
  function FileNameWithoutExtension(uriPath: string): (name: string)
    ensures '/' !in name
  {
    RemoveExtension(LastSegment(uriPath))
  }

  /** The base name is a prefix of the last path segment: the segment itself when
      it has no extension, and otherwise the part before its final dot, which is
      followed by a non-empty run of characters other than '.'. */
  lemma FileNameIsSegmentStem(uriPath: string)
    ensures var segment, name := LastSegment(uriPath), FileNameWithoutExtension(uriPath);
      name == segment[..|name|] &&
      (name == segment <==> forall k :: 0 <= k < |segment| ==> !ExtensionAt(segment, k)) &&
      (name != segment ==>
         segment[|name|] == '.' && |name| + 1 < |segment| && '.' !in segment[|name| + 1..])
  {
    var segment, name := LastSegment(uriPath), FileNameWithoutExtension(uriPath);
    if name != segment {
      assert ExtensionAt(segment, |name|);
      assert '.' !in segment[|name| + 1..] by {
        forall j | |name| + 1 <= j < |segment| ensures segment[j] != '.' { }
      }
    }
  }

  /** Only the final extension is removed, and a trailing dot is kept. */
  lemma RemoveExtensionExamples()
    ensures RemoveExtension("Widget.java") == "Widget"
    ensures RemoveExtension("Makefile") == "Makefile"
    ensures RemoveExtension("a.tar.gz") == "a.tar"
    ensures RemoveExtension("file.") == "file."
    ensures RemoveExtension(".bashrc") == ""
  {
    assert ExtensionAt("Widget.java", 6);
    assert ExtensionAt("a.tar.gz", 5);
    assert ExtensionAt(".bashrc", 0);
  }

  /** The base name of a file in a directory. */
  lemma FileNameExample()
    ensures FileNameWithoutExtension("/src/Widget.java") == "Widget"
  {
    var parts := ["", "src", "Widget.java"];
    assert Join(parts, "/") == "/src/Widget.java";
    SplitJoin(parts, '/');
    RemoveExtensionExamples();
  }

  // ---------------------------------------------------------------------------
  // The patterns /package\s+([\w.]+)/ and /namespace\s+([\w.]+)/
  // ---------------------------------------------------------------------------

  /** JavaScript's `\s`: the ECMAScript WhiteSpace and LineTerminator characters. */
  predicate IsSpace(ch: char) {
    ch == '\t' || ch == '\n' || ch == '\U{000B}' || ch == '\U{000C}' || ch == '\r' ||
    ch == ' ' || ch == '\U{00A0}' || ch == '\U{1680}' ||
    ('\U{2000}' <= ch <= '\U{200A}') ||
    ch == '\U{2028}' || ch == '\U{2029}' || ch == '\U{202F}' || ch == '\U{205F}' ||
    ch == '\U{3000}' || ch == '\U{FEFF}'
  }

  /** The character class `[\w.]`: ASCII letters, digits, '_' and '.'. */
  predicate IsNameChar(ch: char) {
    ('a' <= ch <= 'z') || ('A' <= ch <= 'Z') || ('0' <= ch <= '9') || ch == '_' || ch == '.'
  }

  /** The pattern `keyword\s+([\w.]+)` matches `text` at index `i`, with `gap`
      white-space characters after the keyword and `name` as the captured group.
      The group is greedy, so it cannot be followed by one more name character. */
  predicate DeclarationAt(text: string, keyword: string, i: nat, gap: nat, name: string) {
    var at := i + |keyword| + gap;
    at + |name| <= |text| && gap >= 1 && name != [] &&
    text[i..i + |keyword|] == keyword &&
    (forall j :: i + |keyword| <= j < at ==> IsSpace(text[j])) &&
    text[at..at + |name|] == name &&
    (forall j :: at <= j < at + |name| ==> IsNameChar(text[j])) &&
    (at + |name| == |text| || !IsNameChar(text[at + |name|]))
  }

  /** No match of the pattern starts in `text` at an index in `[from, to)`. */
  ghost predicate NoDeclarationBetween(text: string, keyword: string, from: nat, to: nat) {
    forall i: nat, gap: nat, name: string :: from <= i < to ==> !DeclarationAt(text, keyword, i, gap, name)
  }

  /** The number of consecutive `\s` characters of `text` from index `j`. */
  function SpaceRun(text: string, j: nat): (n: nat)
    ensures j + n <= |text| || n == 0
    decreases |text| - j
  {
    if j < |text| && IsSpace(text[j]) then 1 + SpaceRun(text, j + 1) else 0
  }

  /** `SpaceRun` counts a maximal run: white-space characters only, and no further one after it. */
  lemma {:induction false} SpaceRunMaximal(text: string, j: nat)
    ensures var n := SpaceRun(text, j);
      (forall k :: j <= k < j + n ==> IsSpace(text[k])) &&
      (j + n < |text| ==> !IsSpace(text[j + n]))
    decreases |text| - j
  {
    if j < |text| && IsSpace(text[j]) {
      SpaceRunMaximal(text, j + 1);
    }
  }

  /** The number of consecutive `[\w.]` characters of `text` from index `j`. */
  function NameRun(text: string, j: nat): (n: nat)
    ensures j + n <= |text| || n == 0
    decreases |text| - j
  {
    if j < |text| && IsNameChar(text[j]) then 1 + NameRun(text, j + 1) else 0
  }

  /** `NameRun` counts a maximal run: name characters only, and no further one after it. */
  lemma {:induction false} NameRunMaximal(text: string, j: nat)
    ensures var n := NameRun(text, j);
      (forall k :: j <= k < j + n ==> IsNameChar(text[k])) &&
      (j + n < |text| ==> !IsNameChar(text[j + n]))
    decreases |text| - j
  {
    if j < |text| && IsNameChar(text[j]) {
      NameRunMaximal(text, j + 1);
    }
  }

  /** A leftmost match of the pattern: where it starts, the white space after the
      keyword, and the captured name. */
  datatype Declaration = Declaration(start: nat, gap: nat, name: string)

  /** A run of `n` white-space characters ended by the end of the text or by any
      other character is what `SpaceRun` counts. */
  lemma {:induction false} SpaceRunExact(text: string, j: nat, n: nat)
    requires j + n <= |text|
    requires forall k :: j <= k < j + n ==> IsSpace(text[k])
    requires j + n == |text| || !IsSpace(text[j + n])
    ensures SpaceRun(text, j) == n
    decreases n
  {
    if n > 0 {
      SpaceRunExact(text, j + 1, n - 1);
    }
  }

  /** A run of `n` name characters ended by the end of the text or by any other
      character is what `NameRun` counts. */
  lemma {:induction false} NameRunExact(text: string, j: nat, n: nat)
    requires j + n <= |text|
    requires forall k :: j <= k < j + n ==> IsNameChar(text[k])
    requires j + n == |text| || !IsNameChar(text[j + n])
    ensures NameRun(text, j) == n
    decreases n
  {
    if n > 0 {
      NameRunExact(text, j + 1, n - 1);
    }
  }

  /** A match fixes the white space after the keyword and the captured name to the
      maximal runs that follow the keyword. */
  lemma DeclarationRuns(text: string, keyword: string, i: nat, gap: nat, name: string)
    requires DeclarationAt(text, keyword, i, gap, name)
    ensures gap == SpaceRun(text, i + |keyword|)
    ensures |name| == NameRun(text, i + |keyword| + gap)
    ensures name == text[i + |keyword| + gap..i + |keyword| + gap + |name|]
  {
    var at := i + |keyword| + gap;
    assert IsNameChar(text[at]) && !IsSpace(text[at]);
    SpaceRunExact(text, i + |keyword|, gap);
    NameRunExact(text, at, |name|);
  }

  /** Every match at `i` is made of the maximal runs after the keyword. */
  lemma MatchesAtAreRuns(text: string, keyword: string, i: nat)
    requires i + |keyword| <= |text|
    ensures var base := i + |keyword|;
      var gap := SpaceRun(text, base);
      forall gap': nat, name: string :: DeclarationAt(text, keyword, i, gap', name) ==>
        gap' == gap && name == text[base + gap..base + gap + NameRun(text, base + gap)]
  {
    forall gap': nat, name: string | DeclarationAt(text, keyword, i, gap', name)
      ensures gap' == SpaceRun(text, i + |keyword|)
      ensures name == text[i + |keyword| + gap'..i + |keyword| + gap' + NameRun(text, i + |keyword| + gap')]
    {
      DeclarationRuns(text, keyword, i, gap', name);
    }
  }

  /** The keyword followed by non-empty maximal runs of white space and of name
      characters is a match. */
  lemma RunsAreMatch(text: string, keyword: string, i: nat)
    requires i + |keyword| <= |text| && text[i..i + |keyword|] == keyword
    requires SpaceRun(text, i + |keyword|) >= 1
    requires NameRun(text, i + |keyword| + SpaceRun(text, i + |keyword|)) >= 1
    ensures var at := i + |keyword| + SpaceRun(text, i + |keyword|);
      DeclarationAt(text, keyword, i, SpaceRun(text, i + |keyword|), text[at..at + NameRun(text, at)])
  {
    var base := i + |keyword|;
    var at := base + SpaceRun(text, base);
    var name := text[at..at + NameRun(text, at)];
    SpaceRunMaximal(text, base);
    NameRunMaximal(text, at);
    assert |name| == NameRun(text, at);
  }

  /** The match of the pattern that starts at index `i`, if there is one. */
  function MatchAt(text: string, keyword: string, i: nat): (r: Option<Declaration>)
    ensures r.Some? ==> r.value.start == i && DeclarationAt(text, keyword, i, r.value.gap, r.value.name)
    ensures r.None? ==> forall gap: nat, name: string :: !DeclarationAt(text, keyword, i, gap, name)
  {
    if i + |keyword| <= |text| && text[i..i + |keyword|] == keyword then
      var base := i + |keyword|;
      var gap := SpaceRun(text, base);
      var length := NameRun(text, base + gap);
      MatchesAtAreRuns(text, keyword, i);
      if gap >= 1 && length >= 1 then
        RunsAreMatch(text, keyword, i);
        Some(Declaration(i, gap, text[base + gap..base + gap + length]))
      else None
    else None
  }

  /** `text.match(/keyword\s+([\w.]+)/)` searched from index `from`: the leftmost
      match, or none when the pattern matches nowhere. */
  function FindDeclaration(text: string, keyword: string, from: nat): (r: Option<Declaration>)
    ensures r.Some? ==> from <= r.value.start
    ensures r.Some? ==> DeclarationAt(text, keyword, r.value.start, r.value.gap, r.value.name)
    ensures r.Some? ==> NoDeclarationBetween(text, keyword, from, r.value.start)
    ensures r.None? ==> NoDeclarationBetween(text, keyword, from, |text| + 1)
    decreases |text| + 1 - from
  {
    if from > |text| then None
    else
      match MatchAt(text, keyword, from)
      case Some(d) => Some(d)
      case None =>
        var r := FindDeclaration(text, keyword, from + 1);
        NoDeclarationExtended(text, keyword, from, if r.Some? then r.value.start else |text| + 1);
        r
  }

  /** No match in `[from + 1, to)` and none at `from` is no match in `[from, to)`. */
  lemma NoDeclarationExtended(text: string, keyword: string, from: nat, to: nat)
    requires MatchAt(text, keyword, from).None?
    requires NoDeclarationBetween(text, keyword, from + 1, to)
    ensures NoDeclarationBetween(text, keyword, from, to)
  {
  }

  /** The name a match captures is the name of the leftmost match of the pattern. */
  ghost predicate IsLeftmostName(text: string, keyword: string, name: string) {
    exists i: nat, gap: nat :: DeclarationAt(text, keyword, i, gap, name) && NoDeclarationBetween(text, keyword, 0, i)
  }

  /** At most one name is captured at a given start: the white space and the greedy
      group are both determined by the text. */
  lemma DeclarationUnique(text: string, keyword: string, i: nat, gap: nat, name: string, gap': nat, name': string)
    requires DeclarationAt(text, keyword, i, gap, name)
    requires DeclarationAt(text, keyword, i, gap', name')
    ensures gap == gap' && name == name'
  {
    var base := i + |keyword|;
    assert IsNameChar(text[base + gap]) && IsNameChar(text[base + gap']);
    var at := base + gap;
    assert at + |name| < |text| ==> !IsNameChar(text[at + |name|]);
    assert at + |name'| < |text| ==> !IsNameChar(text[at + |name'|]);
  }

  /** A match with none before it captures the only leftmost name. */
  lemma LeftmostNameUnique(text: string, keyword: string, start: nat, gap: nat, name: string)
    requires DeclarationAt(text, keyword, start, gap, name) && NoDeclarationBetween(text, keyword, 0, start)
    ensures forall name' :: IsLeftmostName(text, keyword, name') ==> name' == name
  {
    forall name' | IsLeftmostName(text, keyword, name') ensures name' == name {
      var i: nat, gap': nat :| DeclarationAt(text, keyword, i, gap', name') && NoDeclarationBetween(text, keyword, 0, i);
      assert i < start ==> !DeclarationAt(text, keyword, i, gap', name');
      assert start < i ==> !DeclarationAt(text, keyword, start, gap, name);
      DeclarationUnique(text, keyword, start, gap, name, gap', name');
    }
  }

  /** A captured name is made of name characters, so it holds no '/'. */
  lemma CapturedNameHasNoSlash(text: string, keyword: string, start: nat, gap: nat, name: string)
    requires DeclarationAt(text, keyword, start, gap, name)
    ensures '/' !in name
  {
    var at := start + |keyword| + gap;
    assert forall j :: 0 <= j < |name| ==> name[j] == text[at + j];
  }

  /** `QualifiedByDeclaration` gives the leftmost captured name, a '.' and the base
      name when the pattern matches, and the base name alone otherwise. */
  function QualifiedByDeclaration(text: string, keyword: string, fileName: string): (r: string)
    ensures r == fileName <==> NoDeclarationBetween(text, keyword, 0, |text| + 1)
    ensures forall name :: IsLeftmostName(text, keyword, name) ==> r == name + "." + fileName
    ensures '/' !in fileName ==> '/' !in r
  {
    match FindDeclaration(text, keyword, 0)
    case Some(d) =>
      LeftmostNameUnique(text, keyword, d.start, d.gap, d.name);
      CapturedNameHasNoSlash(text, keyword, d.start, d.gap, d.name);
      d.name + "." + fileName
    case None => fileName
  }

  /** `extractJvmPackage`: the first `package` declaration qualifies the base name. */
  function ExtractJvmPackage(fileContent: string, fileName: string): string
  {
    QualifiedByDeclaration(fileContent, "package", fileName)
  }

  /** `extractCSharpNamespace`: the first `namespace` declaration qualifies the base
      name. */
  function ExtractCSharpNamespace(fileContent: string, fileName: string): string
  {
    QualifiedByDeclaration(fileContent, "namespace", fileName)
  }

  /** `extractTypeScriptModule`: the base name; the text is not looked at. */
  function ExtractTypeScriptModule(fileContent: string, fileName: string): string
  {
    fileName
  }

  /** A match of the pattern with none before it decides the qualified name. */
  lemma QualifiedByFirstMatch(text: string, keyword: string, fileName: string, i: nat, gap: nat, name: string)
    requires DeclarationAt(text, keyword, i, gap, name) && NoDeclarationBetween(text, keyword, 0, i)
    ensures QualifiedByDeclaration(text, keyword, fileName) == name + "." + fileName
  {
  }

  /** No match starts before `to` when no character before `to` begins the
      keyword. */
  lemma NoKeywordStartBefore(text: string, keyword: string, to: nat)
    requires keyword != []
    requires forall i :: 0 <= i < to && i < |text| ==> text[i] != keyword[0]
    ensures NoDeclarationBetween(text, keyword, 0, to)
  {
    forall i: nat, gap: nat, name: string | i < to
      ensures !DeclarationAt(text, keyword, i, gap, name)
    {
      if i + |keyword| <= |text| {
        assert text[i..i + |keyword|][0] == text[i] != keyword[0];
      }
    }
  }

  /** A text made of some prefix, the keyword, one space, a name and a remainder
      that does not continue the name matches the pattern right after the prefix,
      capturing that name. */
  lemma DeclarationAfter(before: string, keyword: string, name: string, rest: string)
    requires name != [] && forall k :: 0 <= k < |name| ==> IsNameChar(name[k])
    requires rest == [] || !IsNameChar(rest[0])
    ensures DeclarationAt(before + keyword + " " + name + rest, keyword, |before|, 1, name)
  {
    var text := before + keyword + " " + name + rest;
    var at := |before| + |keyword| + 1;
    assert text[|before|..|before| + |keyword|] == keyword;
    assert text[|before| + |keyword|] == ' ';
    assert text[at..at + |name|] == name;
    assert at + |name| < |text| ==> text[at + |name|] == rest[0];
  }

  /** A file that opens with `package p` followed by a character that cannot
      continue `p` is qualified by `p`. */
  lemma JvmPackageAtStart(packageName: string, rest: string, fileName: string)
    requires packageName != [] && forall k :: 0 <= k < |packageName| ==> IsNameChar(packageName[k])
    requires rest == [] || !IsNameChar(rest[0])
    ensures ExtractJvmPackage("package " + packageName + rest, fileName) == packageName + "." + fileName
  {
    DeclarationAfter("", "package", packageName, rest);
    assert "" + "package" + " " == "package ";
    QualifiedByFirstMatch("package " + packageName + rest, "package", fileName, 0, 1, packageName);
  }

  /** Without a `package` declaration the base name stands alone. */
  lemma JvmNoPackageExample(text: string)
    requires text == "class Widget {}"
    ensures ExtractJvmPackage(text, "Widget") == "Widget"
  {
    assert forall i :: 0 <= i < |text| ==> text[i] != 'p';
    NoKeywordStartBefore(text, "package", |text| + 1);
  }

  /** The pattern has no word boundary: any text free of 'p' may come right
      before the keyword, even the letters of a longer word, so that
      `subpackage util` is qualified by `util`. */
  lemma JvmPackageInsideWord(before: string, packageName: string, rest: string, fileName: string)
    requires forall k :: 0 <= k < |before| ==> before[k] != 'p'
    requires packageName != [] && forall k :: 0 <= k < |packageName| ==> IsNameChar(packageName[k])
    requires rest == [] || !IsNameChar(rest[0])
    ensures ExtractJvmPackage(before + "package " + packageName + rest, fileName) == packageName + "." + fileName
  {
    var text := before + "package " + packageName + rest;
    assert text == before + "package" + " " + packageName + rest;
    DeclarationAfter(before, "package", packageName, rest);
    assert forall k :: 0 <= k < |before| ==> text[k] == before[k];
    NoKeywordStartBefore(text, "package", |before|);
    QualifiedByFirstMatch(text, "package", fileName, |before|, 1, packageName);
  }

  /** A file that opens with `namespace n` followed by a character that cannot
      continue `n` is qualified by `n`. */
  lemma CSharpNamespaceAtStart(namespaceName: string, rest: string, fileName: string)
    requires namespaceName != [] && forall k :: 0 <= k < |namespaceName| ==> IsNameChar(namespaceName[k])
    requires rest == [] || !IsNameChar(rest[0])
    ensures ExtractCSharpNamespace("namespace " + namespaceName + rest, fileName) == namespaceName + "." + fileName
  {
    DeclarationAfter("", "namespace", namespaceName, rest);
    assert "" + "namespace" + " " == "namespace ";
    QualifiedByFirstMatch("namespace " + namespaceName + rest, "namespace", fileName, 0, 1, namespaceName);
  }

  // ---------------------------------------------------------------------------
  // buildPythonModulePath
  // ---------------------------------------------------------------------------

  /** The string rewrite of `buildPythonModulePath`: every '/' of the
      workspace-relative path becomes '.', then one trailing ".py" is dropped. */
  function PythonModulePath(relativePath: string): (r: string)
    ensures '/' !in r
  {
    ReplaceAllAt(relativePath, '/', '.');
    StripSuffix(ReplaceAll(relativePath, '/', '.'), ".py")
  }

  /** `buildPythonModulePath`: the module path when the host places the document
      in a workspace folder (`relativePath` is the host's `asRelativePath`), and the
      base name otherwise. */
  function BuildPythonModulePath(relativePath: Option<string>, fileName: string): (modulePath: string)
    ensures relativePath.Some? ==> '/' !in modulePath
    ensures relativePath.None? ==> modulePath == fileName
  {
    match relativePath
    case Some(path) => PythonModulePath(path)
    case None => fileName
  }

  /** Rewriting '/' to '.' turns a '/'-join into a '.'-join of the same parts,
      provided no part contains '/'. */
  lemma {:induction false} ReplaceSlashesInJoin(parts: seq<string>)
    requires forall k :: 0 <= k < |parts| ==> '/' !in parts[k]
    ensures ReplaceAll(Join(parts, "/"), '/', '.') == Join(parts, ".")
  {
    if |parts| == 1 {
      ReplaceAllAbsent(parts[0], '/', '.');
    } else if |parts| > 1 {
      ReplaceSlashesInJoin(parts[1..]);
      var a, b := parts[0], Join(parts[1..], "/");
      ReplaceAllConcat(a + "/", b, '/', '.');
      ReplaceAllConcat(a, "/", '/', '.');
      ReplaceAllAbsent(a, '/', '.');
    }
  }

  /** Extending the last part extends the join by the same text. */
  lemma JoinExtendLast(init: seq<string>, last: string, suffix: string, sep: string)
    ensures Join(init + [last + suffix], sep) == Join(init + [last], sep) + suffix
  {
    if init != [] {
      JoinLast(init + [last + suffix], sep);
      JoinLast(init + [last], sep);
      assert (init + [last + suffix])[..|init|] == init == (init + [last])[..|init|];
    }
  }

  /** A module file `d1/.../dn/m.py` under the workspace folder has the module path
      `d1. ... .dn.m`. */
  lemma PythonModulePathOfFile(directories: seq<string>, moduleName: string)
    requires forall k :: 0 <= k < |directories| ==> '/' !in directories[k]
    requires '/' !in moduleName
    ensures PythonModulePath(Join(directories + [moduleName + ".py"], "/")) == Join(directories + [moduleName], ".")
  {
    var parts := directories + [moduleName + ".py"];
    assert forall k :: 0 <= k < |parts| ==> '/' !in parts[k] by {
      assert parts[|parts| - 1] == moduleName + ".py";
    }
    ReplaceSlashesInJoin(parts);
    JoinExtendLast(directories, moduleName, ".py", ".");
    var stem := Join(directories + [moduleName], ".");
    assert EndsWith(stem + ".py", ".py");
    assert (stem + ".py")[..|stem + ".py"| - 3] == stem;
  }

  /** The module path of `pkg/sub/mod.py`. */
  lemma PythonModulePathExample()
    ensures PythonModulePath("pkg/sub/mod.py") == "pkg.sub.mod"
  {
    assert Join(["mod.py"], "/") == "mod.py";
    assert Join(["sub", "mod.py"], "/") == "sub/mod.py";
    assert Join(["pkg", "sub", "mod.py"], "/") == "pkg/sub/mod.py";
    assert Join(["mod"], ".") == "mod";
    assert Join(["sub", "mod"], ".") == "sub.mod";
    assert Join(["pkg", "sub", "mod"], ".") == "pkg.sub.mod";
    assert "mod" + ".py" == "mod.py";
    assert ["pkg", "sub"] + ["mod" + ".py"] == ["pkg", "sub", "mod.py"];
    assert ["pkg", "sub"] + ["mod"] == ["pkg", "sub", "mod"];
    PythonModulePathOfFile(["pkg", "sub"], "mod");
  }

  /** The rewrite of '/' comes before the removal of ".py", so a file named `py`
      without extension loses its own name. */
  lemma PythonModulePathOfFileNamedPy()
    ensures PythonModulePath("pkg/py") == "pkg"
  {
    ReplaceAllAt("pkg/py", '/', '.');
    assert ReplaceAll("pkg/py", '/', '.') == "pkg.py";
  }

  // ---------------------------------------------------------------------------
  // extractNamespacePrefix
  // ---------------------------------------------------------------------------

  /** The language identifiers whose prefix comes from a `package` declaration. */
  predicate IsJvmLanguage(languageId: string) {
    languageId == "java" || languageId == "kotlin" || languageId == "scala"
  }

  /** `extractNamespacePrefix`: the prefix chosen by the document's language. It
      never contains '/'; `ExtractNamespacePrefixByLanguage` states the rule for
      each language. */
  function ExtractNamespacePrefix(document: Document, relativePath: Option<string>): (prefix: string)
    ensures '/' !in prefix
  {
    var fileContent := document.text;
    var fileName := FileNameWithoutExtension(document.uriPath);
    match document.languageId
    case "python" => BuildPythonModulePath(relativePath, fileName)
    case "java" => ExtractJvmPackage(fileContent, fileName)
    case "kotlin" => ExtractJvmPackage(fileContent, fileName)
    case "scala" => ExtractJvmPackage(fileContent, fileName)
    case "csharp" => ExtractCSharpNamespace(fileContent, fileName)
    case "typescript" => ExtractTypeScriptModule(fileContent, fileName)
    case "javascript" => ExtractTypeScriptModule(fileContent, fileName)
    case _ => fileName
  }

  /** The prefix rule of each language. Python uses the workspace-relative module
      path when there is one and the base name otherwise; the JVM languages and C#
      qualify the base name with the first `package` or `namespace` declaration,
      and use the bare base name when there is none; every other language,
      TypeScript and JavaScript included, gets the base name whatever the text
      says. */
  lemma ExtractNamespacePrefixByLanguage(document: Document, relativePath: Option<string>)
    ensures var prefix := ExtractNamespacePrefix(document, relativePath);
      var fileName, text, id := FileNameWithoutExtension(document.uriPath), document.text, document.languageId;
      (id == "python" && relativePath.Some? ==> prefix == PythonModulePath(relativePath.value)) &&
      (id == "python" && relativePath.None? ==> prefix == fileName) &&
      (IsJvmLanguage(id) && NoDeclarationBetween(text, "package", 0, |text| + 1) ==> prefix == fileName) &&
      (IsJvmLanguage(id) ==>
         forall name :: IsLeftmostName(text, "package", name) ==> prefix == name + "." + fileName) &&
      (id == "csharp" && NoDeclarationBetween(text, "namespace", 0, |text| + 1) ==> prefix == fileName) &&
      (id == "csharp" ==>
         forall name :: IsLeftmostName(text, "namespace", name) ==> prefix == name + "." + fileName) &&
      (id != "python" && !IsJvmLanguage(id) && id != "csharp" ==> prefix == fileName)
  {
  }
}
