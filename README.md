# Copy Reference: a verified model of the reference builder

The extension adds a "copy reference" command to VS Code. The command puts the
fully qualified name of the symbol under the cursor on the clipboard,
for example `com.acme.Widget.Inner.run` or `w::Outer::f`. This project models the
pure core of `src/extension.ts` in Dafny and proves what that core promises:

- **Symbol locator** (`symbols.dfy`, module `SymbolLocator`). `findSymbolHierarchy`
  and its nested `searchSymbols` walk the forest of document symbols. At each
  level they take the first symbol whose range contains the cursor, push it onto
  the shared `hierarchy` array, and descend into its children. The model is a
  class `HierarchySearch` whose `hierarchy` field the recursive method
  `SearchSymbols` appends to. The method is proved against the function
  `Hierarchy`, which in turn is proved equal to an element-by-element reference
  definition, `IsFirstMatchChain`.
- **Namespace prefix** (`namespaces.dfy`, module `NamespacePrefix`). This module
  models `getFileNameWithoutExtension`, the Python module path rewrite, and the
  two regular expressions `/package\s+([\w.]+)/` and `/namespace\s+([\w.]+)/`.
  The expressions are hand-written leftmost-match scanners, each proved against a
  declarative description of a match (`DeclarationAt`). The module also models
  the dispatch on the language id in `extractNamespacePrefix`.
- **Reference builder** (`reference.dfy`, module `ReferenceBuilder`). This module
  models `getLanguageSeparator`, and `buildCompleteReference` as a loop that
  pushes the parts, proved against `CompleteReference`. It also models
  `generateFullReference` as a composition. The host's answers are its
  parameters: whether there is a word at the cursor, the symbols the provider
  returned, and the workspace-relative path.
- **JavaScript built-ins** (`strings.dfy`, module `JsStrings`). This module holds
  `join`, `split` with a one-character separator, a global one-character
  `replace`, and `replace(/suffix$/, '')`, with their round trips.

Assumptions about the host platform:

- `Range.contains` is closed on both ends. A cursor exactly at a symbol's start
  or end is inside it, which is VS Code's convention.
- JavaScript `\s` is the ECMAScript WhiteSpace and LineTerminator set.
- `\w` is ASCII `[A-Za-z0-9_]`, since the patterns carry no `u` flag.
- Strings are sequences of characters.
- Ranges are taken as normalized, with the start not after the end, as VS Code's
  `Range` constructor makes them. A reversed `Range` value stands for no real
  range; `Contains` proves that such a value contains no position.

Other behaviours of the code, modelled as written:

- C and C++ fall to the default branch of `extractNamespacePrefix`, so a
  reference starts with the file's base name: `w::A::B` for `w.cpp`
  (`CReferenceQualifiedByFileName`).
- The patterns have no word boundary, so `subpackage util` yields the package
  `util` (`JvmPackageInsideWord`).
- The Python rewrite replaces every `/` with `.` before it strips `.py`, so the
  path `pkg/py` gives `pkg` (`PythonModulePathOfFileNamedPy`).
- `extractNamespacePrefix` never returns null: every branch yields a string. Only
  the empty prefix, which is falsy, is dropped by `buildCompleteReference`.

## Model

| member | source | states |
|---|---|---|
| SymbolLocator.Contains | src/extension.ts:122 | `Range.contains`, closed on both ends; a range that contains any position has its start not after its end |
| SymbolLocator.FirstContaining | src/extension.ts:121-122 | the index found holds a symbol containing the position and no earlier symbol does; none is found only when no symbol of the list contains it |
| SymbolLocator.Hierarchy | src/extension.ts:120-133 | the chain `searchSymbols` pushes: the first containing symbol of the list, then the chain of its children; a non-empty chain starts with a symbol of the list that contains the position |
| SymbolLocator.HierarchyNested | src/extension.ts:120-133 | every symbol of the chain contains the position, the first is a top-level symbol, and each next one is a child of the one before it |
| SymbolLocator.HierarchyEmptyIff | src/extension.ts:121-132 | the chain is empty exactly when no top-level symbol's range contains the position |
| SymbolLocator.HierarchyIsFirstMatchChain | src/extension.ts:120-133 | a chain meets the first-match definition (earliest containing symbol at each level, descending into its children) if and only if it is the computed chain |
| SymbolLocator.HierarchyAtFirst | src/extension.ts:121-129 | when the symbol at `i` is the first to contain the position, the chain is that symbol followed by the chain of its children |
| SymbolLocator.LaterSiblingsIgnored | src/extension.ts:121-129 | replacing every sibling after the first match leaves the chain unchanged: later siblings are never inspected |
| SymbolLocator.MatchWithoutChildMatchEnds | src/extension.ts:122-129 | a matched symbol with no child containing the position stays in the chain, as its last element |
| SymbolLocator.HierarchyMaximal | src/extension.ts:126-129 | the descent stops only when no child of the innermost symbol contains the position |
| SymbolLocator.NestedChainExample | src/extension.ts:120-136 | three nested symbols around the position give the chain outermost to innermost |
| SymbolLocator.ContainsEnd | src/extension.ts:122 | a position at a range's start or at its end is inside the range |
| SymbolLocator.HierarchySearch.constructor | src/extension.ts:113 | the search starts with an empty `hierarchy` |
| SymbolLocator.HierarchySearch.SearchSymbols | src/extension.ts:120-133 | appends exactly the first-match chain of the list to `hierarchy`, and returns true exactly when that chain is non-empty |
| SymbolLocator.FindSymbolHierarchy | src/extension.ts:112-137 | returns the first-match chain, and that chain meets the reference definition |
| JsStrings.Join | src/extension.ts:161 | `parts.join(sep)`: the parts in order with the separator between neighbours (no contract of its own; `JoinLength`, `JoinLast`, `JoinAppend` and `JoinSplit` state its properties) |
| JsStrings.JoinLength | src/extension.ts:161 | the join's length is the total length of the parts plus one separator fewer than there are parts |
| JsStrings.JoinLast | src/extension.ts:161 | the join ends with the last part, after the join of the others and one separator |
| JsStrings.JoinAppend | src/extension.ts:161 | joining two non-empty lists of parts joins their joins with one separator |
| JsStrings.Split | src/extension.ts:251 | `split` yields at least one part, and no part contains the separator |
| JsStrings.JoinSplit | src/extension.ts:251 | joining the parts of a split with the separator gives back the string |
| JsStrings.SplitWithoutSeparator | src/extension.ts:251 | a string without the separator splits into itself alone |
| JsStrings.SplitConcat | src/extension.ts:251 | splitting `a`, a separator and `b` gives the parts of `a` followed by those of `b` |
| JsStrings.SplitCons | src/extension.ts:251 | one step of splitting: the first character either starts a new part or extends the first part |
| JsStrings.SplitJoin | src/extension.ts:251 | splitting a join gives back the parts when no part contains the separator |
| JsStrings.ReplaceAll | src/extension.ts:206 | the global replace keeps the length |
| JsStrings.ReplaceAllAt | src/extension.ts:206 | every occurrence of the character is replaced, and every other character stays in place |
| JsStrings.ReplaceAllConcat | src/extension.ts:206 | replacing distributes over concatenation |
| JsStrings.ReplaceAllAbsent | src/extension.ts:206 | replacing a character that does not occur changes nothing |
| JsStrings.StripSuffix | src/extension.ts:207 | the suffix is removed once when the string ends with it, and the string is unchanged otherwise |
| NamespacePrefix.LastSegment | src/extension.ts:251 | the segment `pop` returns contains no '/' |
| NamespacePrefix.LastSegmentIsTail | src/extension.ts:251 | the last segment is a suffix of the path, preceded by '/' unless it is the whole path |
| NamespacePrefix.LastDotOrSlash | src/extension.ts:252 | finds the last '.' or '/' of a string, or reports that there is none |
| NamespacePrefix.RemoveExtension | src/extension.ts:252 | the result is a prefix of the input; it is the input exactly when `\.[^/.]+$` matches nowhere; otherwise it is the part before the dot where the pattern matches |
| NamespacePrefix.FileNameWithoutExtension | src/extension.ts:250-253 | the base name contains no '/' |
| NamespacePrefix.FileNameIsSegmentStem | src/extension.ts:250-253 | the base name is the last segment, or the part of it before a final dot that is followed by a non-empty run without dots |
| NamespacePrefix.RemoveExtensionExamples | src/extension.ts:252 | `Widget.java` gives `Widget`, `Makefile` is unchanged, `a.tar.gz` gives `a.tar`, `file.` is unchanged, and `.bashrc` gives the empty string |
| NamespacePrefix.FileNameExample | src/extension.ts:250-253 | the path `/src/Widget.java` has the base name `Widget` |
| NamespacePrefix.SpaceRun | src/extension.ts:219 | the white-space run after an index stays inside the text |
| NamespacePrefix.NameRun | src/extension.ts:219 | the name run after an index stays inside the text |
| NamespacePrefix.SpaceRunMaximal | src/extension.ts:219 | the run `\s+` consumes is maximal: all white space and not followed by white space |
| NamespacePrefix.NameRunMaximal | src/extension.ts:219 | the run `[\w.]+` consumes is maximal: all name characters and not followed by one |
| NamespacePrefix.SpaceRunExact | src/extension.ts:219 | a maximal run of white space is the run the scanner measures |
| NamespacePrefix.NameRunExact | src/extension.ts:219 | a maximal run of name characters is the run the scanner measures |
| NamespacePrefix.DeclarationRuns | src/extension.ts:219 | any match at an index consists of the maximal space run and the maximal name run after the keyword |
| NamespacePrefix.MatchesAtAreRuns | src/extension.ts:219 | every match at an index has the gap and the captured name given by the maximal runs |
| NamespacePrefix.RunsAreMatch | src/extension.ts:219 | the keyword followed by non-empty maximal runs is a match |
| NamespacePrefix.MatchAt | src/extension.ts:219 | a result is a match of the pattern at that index; no result means no match starts there |
| NamespacePrefix.FindDeclaration | src/extension.ts:219 | a result is a match with no match starting before it; no result means no match starts anywhere |
| NamespacePrefix.NoDeclarationExtended | src/extension.ts:219 | no match at an index and none after it up to a bound is no match from that index up to the bound |
| NamespacePrefix.DeclarationUnique | src/extension.ts:219 | the pattern matches at a given index in at most one way |
| NamespacePrefix.LeftmostNameUnique | src/extension.ts:219 | a match with none before it captures the only leftmost name |
| NamespacePrefix.CapturedNameHasNoSlash | src/extension.ts:219 | a captured name contains no '/' |
| NamespacePrefix.QualifiedByDeclaration | src/extension.ts:218-221 | the result is the file name exactly when the pattern matches nowhere; otherwise it is the leftmost captured name, a dot and the file name |
| NamespacePrefix.QualifiedByFirstMatch | src/extension.ts:219-220 | a match with no match before it decides the result |
| NamespacePrefix.NoKeywordStartBefore | src/extension.ts:219 | no match starts before the first occurrence of the keyword's first character |
| NamespacePrefix.DeclarationAfter | src/extension.ts:219 | a text holding the keyword, a space and a name not continued by a name character matches right before the keyword, capturing that name |
| NamespacePrefix.JvmPackageAtStart | src/extension.ts:218-221 | a file opening with `package p` gives `p.` followed by the file name |
| NamespacePrefix.JvmNoPackageExample | src/extension.ts:220 | a file without `package` gives the file name unchanged |
| NamespacePrefix.JvmPackageInsideWord | src/extension.ts:219-220 | any text without a 'p' may come right before `package`, even the letters of a longer word such as `subpackage`, since the pattern has no word boundary |
| NamespacePrefix.CSharpNamespaceAtStart | src/extension.ts:229-232 | a file opening with `namespace n` gives `n.` followed by the file name |
| NamespacePrefix.PythonModulePath | src/extension.ts:205-207 | the rewritten path contains no '/' |
| NamespacePrefix.BuildPythonModulePath | src/extension.ts:201-210 | inside a workspace folder the result is the rewritten relative path, which holds no '/'; outside one it is the base name unchanged |
| NamespacePrefix.ReplaceSlashesInJoin | src/extension.ts:206 | replacing '/' with '.' in a slash-joined path gives the dot-joined segments |
| NamespacePrefix.JoinExtendLast | src/extension.ts:205-207 | extending the last part extends the join |
| NamespacePrefix.PythonModulePathOfFile | src/extension.ts:204-207 | the relative path `d1/.../dn/m.py` becomes the module path `d1. ... .dn.m` |
| NamespacePrefix.PythonModulePathExample | src/extension.ts:205-207 | `pkg/sub/mod.py` becomes `pkg.sub.mod` |
| NamespacePrefix.PythonModulePathOfFileNamedPy | src/extension.ts:205-207 | `pkg/py` becomes `pkg`, because the replace happens before `.py` is stripped |
| NamespacePrefix.IsJvmLanguage | src/extension.ts:178-180 | the ids `java`, `kotlin` and `scala`, which share the `package` rule (no contract of its own) |
| NamespacePrefix.ExtractNamespacePrefix | src/extension.ts:169-193 | the prefix never contains '/' |
| NamespacePrefix.ExtractNamespacePrefixByLanguage | src/extension.ts:174-192 | Python uses the module path when there is a relative path and the file name otherwise; Java, Kotlin and Scala qualify the file name with the leftmost `package` name, or keep it bare without one; C# does the same with `namespace`; every other language, TypeScript and JavaScript included, gets the file name |
| ReferenceBuilder.LanguageSeparator | src/extension.ts:260-275 | the separator is "::" exactly for `cpp` and `c`, and "." for every other id, unknown ones included |
| ReferenceBuilder.Names | src/extension.ts:155-157 | one name per symbol of the chain |
| ReferenceBuilder.NamesInOrder | src/extension.ts:155-157 | the names follow the chain's order: the name at each index is that symbol's name |
| ReferenceBuilder.NamesOfLongerPrefix | src/extension.ts:155-157 | one more loop step pushes the next symbol's name |
| ReferenceBuilder.ReferenceParts | src/extension.ts:146-157 | the parts pushed: the prefix first when it is non-empty, then the chain's names, one part per name plus one for a non-empty prefix |
| ReferenceBuilder.CompleteReference | src/extension.ts:145-162 | the value of `buildCompleteReference`: the parts joined with the language's separator (no contract of its own; `BuildCompleteReference`, `ReferenceLength`, `ReferenceEndsWithInnermost` and `ReferenceSplitsIntoNames` state its properties) |
| ReferenceBuilder.BuildCompleteReference | src/extension.ts:145-162 | the loop's parts are the non-empty prefix followed by the chain's names, and the result is their join with the language's separator |
| ReferenceBuilder.ReferenceLength | src/extension.ts:149-161 | there is one part per name, plus one for a non-empty prefix, and one separator fewer than parts |
| ReferenceBuilder.ReferenceEndsWithInnermost | src/extension.ts:155-161 | the reference ends with the innermost symbol's name, after a separator when anything precedes it |
| ReferenceBuilder.PartsSplitIntoNames | src/extension.ts:149-161 | splitting the dot-join of the parts at dots gives the prefix's pieces followed by the dot-free names |
| ReferenceBuilder.ReferenceSplitsIntoNames | src/extension.ts:149-161 | for "." languages with dot-free names, splitting the reference at dots gives the prefix's pieces followed by the chain's names |
| ReferenceBuilder.PythonReferenceOfFile | src/extension.ts:145-162 | a Python file `d1/.../m.py` yields the directories, the module and the names joined with dots |
| ReferenceBuilder.JvmReferenceOfPackage | src/extension.ts:145-162 | a JVM file opening with `package p` yields `p`, the base name and the names joined with dots |
| ReferenceBuilder.CReferenceQualifiedByFileName | src/extension.ts:189-191 | C and C++ references are the base name and the names joined with "::", or the names alone when the base name is empty |
| ReferenceBuilder.GenerateFullReference | src/extension.ts:65-86 | no reference without a word at the cursor, without symbols, or with an empty chain; otherwise exactly the reference of the first-match chain |

## Left out

- `activate`, `deactivate` and `handleCopyReference` (src/extension.ts:24-57, 280-282) register the command, write to the clipboard and show notifications. These are host I/O.
- `getDocumentSymbols` (src/extension.ts:93-104) calls the symbol provider asynchronously and catches its failures. Its answer is the `symbols` parameter of `GenerateFullReference`, with `None` for a failure or an undefined answer. An empty array is truthy in JavaScript, so it is `Some([])`, and it gives an empty chain and no reference.
- `getWordRangeAtPosition` (src/extension.ts:67) is reduced to the boolean `hasWordAtCursor`.
- `getWorkspaceFolder` and `asRelativePath` (src/extension.ts:202-204) are reduced to `relativePath`, present exactly when the file is in a workspace folder. How VS Code computes the path is not modelled, including the folder-name prefix it adds in multi-root workspaces.
- A symbol whose `children` is undefined is modelled with an empty sequence of children; `searchSymbols` treats both alike (src/extension.ts:126).
- `async`/`await`, promises and `console.error` are not modelled: nothing in the core can fail.
- Only the two fixed patterns and `\.[^/.]+$` are modelled, as hand-written scanners. The general JavaScript regular-expression engine is not.
- Strings are sequences of Dafny characters, not UTF-16 code units. A character outside the Basic Multilingual Plane counts as one character here and as two in JavaScript.
- ExtractJvmPackage, ExtractCSharpNamespace and ExtractTypeScriptModule carry no contract of their own. They are one-line calls whose behaviour is stated by `QualifiedByDeclaration` and by `ExtractNamespacePrefixByLanguage`.
- For "::" languages, the model does not prove that the chain can be read back by splitting the reference. Names may contain ':', so the split is ambiguous.
