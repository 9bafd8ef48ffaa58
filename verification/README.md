# Line-number remapping for decompiled Minecraft sources, in Dafny

This project models the build logic that turns a Minecraft client jar into
a source tree whose line numbers match the decompiled text:

- **Line remap rule** (`LineMappingVisitor`). A flat `[orig0, tgt0, orig1, tgt1, …]`
  array becomes an ordered table. Every entry of every method's
  LineNumberTable (section 4.7.12 of the Java Virtual Machine Specification)
  is then rewritten in one of three ways:
  - an exact key gives that key's target;
  - otherwise the smallest strictly greater key gives its target;
  - otherwise the line stays as it is.
- **Archive byte store** (`FernFlowerByteCodeProvider`). A class with a map of
  memoised archive handles. It reads and writes entry bytes. Its `close` tries
  every handle, and each handle that closes writes its archive back to its
  file. It aggregates the failures as a primary exception with suppressed
  ones, and always clears the cache.
- **Decompile result hook** (`LineMappingResultSaver.saveClassEntry`). It runs
  the text save, then does a read–remap–write of `qualifiedName + ".class"` in
  the source archive. An `IOException` is contained.
- **Template expansion** (`Utils.replace`, `replaceTokens`, `capitalize`):
  - `replaceTokens` is an imperative scanner, proved equal to a recursive
    specification;
  - lemmas cover escapes, quoted literals, `{key}` substitution and every
    error case.
- **Launcher rules** (`VersionJson`):
  - allow/disallow rules and OS detection by substring;
  - library and JVM-argument filtering;
  - the natives map;
  - the `Argument` JSON deserializer, with a round-trip lemma;
  - the lazily cached `getNatives` / `getLibraries`.
- **Version selection** (`MinecraftSourceExtension`):
  - `all`, `from`, `after`, `fromFile`, `fromJson`;
  - the release / pre-release / release-candidate / snapshot classifiers;
  - the `automaticallyIncrementalFrom` branch.
- **Decompile worker** (`JarDecompileWorker`):
  - the default Fernflower options, and the merge in which user options win;
  - the `execute` lifecycle: a fresh byte store, the hook per class, the
    context always cleared, the store closed exactly once;
  - what the source jar holds afterwards: the remapped class entries, written
    back when the jar's handle closes.

Modules:
- `Base`: Option, Result, the Java exception kinds, and bytes.
- `Strings`: Java string operations, with ASCII case mapping.
- `JsonValue`: an abstract JSON tree standing in for Gson.
- One module per Java file: `LineMapping`, `ByteStore`, `ResultSaver`,
  `Templates`, `VersionJson`, `SourceExtension`, `DecompileWorker`.

Environment inputs become parameters:
- `os.name`, and the `os.version` / `os.arch` regex matches (`VersionJson.Env`);
- the archives on disk (`disk`);
- the ASM codec (`ClassCodec`);
- which archive handles fail to close (`fails`);
- the version manifest and `MinecraftVersion.from` (`manifest`, `parse`);
- the processor count.

All source paths below are relative to the repository root.

## Model

| member | source | states |
|---|---|---|
| LineMapping.BuildTable | buildSrc/src/main/java/buildSrc/utils/decompile/LineMappingVisitor.java:15-20 | an odd-length mapping fails with IndexOutOfBounds at its length; an even one yields exactly the table `TableOf(mapping)` |
| LineMapping.TableOf | buildSrc/src/main/java/buildSrc/utils/decompile/LineMappingVisitor.java:15-20 | the built table is strictly sorted by original line, so it holds one entry per distinct key (a TreeMap) |
| LineMapping.LastPairWins | buildSrc/src/main/java/buildSrc/utils/decompile/LineMappingVisitor.java:17-18 | a line is a table key iff it appears at an even index of the array; its target is the one paired with its last occurrence |
| LineMapping.PutSorted | buildSrc/src/main/java/buildSrc/utils/decompile/LineMappingVisitor.java:18 | `put` keeps the table sorted and keeps every lower bound below the new key |
| LineMapping.PutAsMap | buildSrc/src/main/java/buildSrc/utils/decompile/LineMappingVisitor.java:18 | `put` is map update: the new value replaces any old one for that key, and nothing else changes |
| LineMapping.AsMapKeys | buildSrc/src/main/java/buildSrc/utils/decompile/LineMappingVisitor.java:18 | the map view's key set is exactly the table's set of keys |
| LineMapping.AsMapAt | buildSrc/src/main/java/buildSrc/utils/decompile/LineMappingVisitor.java:38 | in a sorted table, each stored pair is what the map view gives for its key |
| LineMapping.Get | buildSrc/src/main/java/buildSrc/utils/decompile/LineMappingVisitor.java:38 | the lookup finds a value iff the line is a key, and then it is that key's target |
| LineMapping.HigherEntry | buildSrc/src/main/java/buildSrc/utils/decompile/LineMappingVisitor.java:40-43 | it returns the smallest key strictly greater than the line, with its target; none only when every key is ≤ the line |
| LineMapping.Resolve | buildSrc/src/main/java/buildSrc/utils/decompile/LineMappingVisitor.java:36-46 | an exact key gives its target; otherwise the least greater key gives its target; otherwise the line is unchanged |
| LineMapping.FixLines | buildSrc/src/main/java/buildSrc/utils/decompile/LineMappingVisitor.java:36-46 | every line entry keeps its position and start label, and its line becomes the resolved line |
| LineMapping.FixMethods | buildSrc/src/main/java/buildSrc/utils/decompile/LineMappingVisitor.java:22-34 | every method keeps its identity and is rewritten with the same shared table |
| LineMapping.RemapClass | buildSrc/src/main/java/buildSrc/utils/decompile/LineMappingVisitor.java:22-27 | the class keeps its name and method count, and each method's lines are fixed with the one table |
| LineMapping.EmptyMappingIsIdentity | buildSrc/src/main/java/buildSrc/utils/decompile/LineMappingVisitor.java:36-46 | with an empty mapping the rewritten class equals the original |
| LineMapping.EmittedLineIsOriginalOrTarget | buildSrc/src/main/java/buildSrc/utils/decompile/LineMappingVisitor.java:45 | every emitted line is either the input line or a target stored in the table |
| LineMapping.LabelsPreserved | buildSrc/src/main/java/buildSrc/utils/decompile/LineMappingVisitor.java:45 | after remapping, each method has as many line entries as before and each keeps its start label |
| LineMapping.ScenarioCeiling | buildSrc/src/main/java/buildSrc/utils/decompile/LineMappingVisitor.java:39-43 | with mapping 10→100, 20→200, line 10 becomes 100 (its exact key) and line 12 becomes 200 (the least greater key 20), never another target |
| LineMapping.ScenarioNoGreaterKey | buildSrc/src/main/java/buildSrc/utils/decompile/LineMappingVisitor.java:45 | lines above every key are left as they are |
| ByteStore.ByteCodeProvider.constructor | buildSrc/src/main/java/buildSrc/utils/decompile/FernFlowerByteCodeProvider.java:15 | a new provider has no cached handles |
| ByteStore.ByteCodeProvider.ZipFile | buildSrc/src/main/java/buildSrc/utils/decompile/FernFlowerByteCodeProvider.java:48-69 | a handle is opened at most once per path and reused afterwards; a failure to open raises an IOException and caches nothing |
| ByteStore.OpenedAll | buildSrc/src/main/java/buildSrc/utils/decompile/FernFlowerByteCodeProvider.java:48-61 | a sequence of opens on an empty store caches exactly the listed archives that exist, each as it is on disk |
| ByteStore.ByteCodeProvider.GetBytecode | buildSrc/src/main/java/buildSrc/utils/decompile/FernFlowerByteCodeProvider.java:42-46 | the result is the entry's bytes from the memoised handle; any failure is an IOException |
| ByteStore.ByteCodeProvider.SetBytecode | buildSrc/src/main/java/buildSrc/utils/decompile/FernFlowerByteCodeProvider.java:17-20 | only the named entry of the named archive is created or replaced; a failure to open changes nothing |
| ByteStore.SetThenGet | buildSrc/src/main/java/buildSrc/utils/decompile/FernFlowerByteCodeProvider.java:17-20 | after a set, a get of the same entry returns exactly the bytes written |
| ByteStore.ByteCodeProvider.Close | buildSrc/src/main/java/buildSrc/utils/decompile/FernFlowerByteCodeProvider.java:22-40 | every cached handle is tried exactly once; the cache ends empty; the thrown value aggregates the failures in attempt order; each handle whose close succeeds writes its archive back to disk, and a failed one leaves its file as it was |
| ByteStore.FlushedInAnyOrder | buildSrc/src/main/java/buildSrc/utils/decompile/FernFlowerByteCodeProvider.java:25-35 | closing the handles in any order that visits each once leaves the archive files the same: the written-back archives replace their files |
| ByteStore.FlushedAlongAt | buildSrc/src/main/java/buildSrc/utils/decompile/FernFlowerByteCodeProvider.java:25-35 | after closing the handles at a list of paths, a file holds its cached archive iff its path was closed without failure, and its disk contents otherwise |
| ByteStore.Enumerate | buildSrc/src/main/java/buildSrc/utils/decompile/FernFlowerByteCodeProvider.java:25 | the handles are visited in some order that names every cached path exactly once |
| ByteStore.CloseStep | buildSrc/src/main/java/buildSrc/utils/decompile/FernFlowerByteCodeProvider.java:26-33 | one more close attempt appends its failure, if any, to the failures so far |
| ByteStore.AggregateCarriesAll | buildSrc/src/main/java/buildSrc/utils/decompile/FernFlowerByteCodeProvider.java:29-39 | nothing is thrown iff every close succeeded; otherwise the first failure is primary and all later ones are suppressed, in order |
| ByteStore.FailuresCount | buildSrc/src/main/java/buildSrc/utils/decompile/FernFlowerByteCodeProvider.java:25-35 | the number of failures collected equals the number of handles that failed to close |
| ResultSaver.LineMappingResultSaver.constructor | buildSrc/src/main/java/buildSrc/utils/decompile/LineMappingResultSaver.java:18-22 | the saver holds the source archive, the target and the byte store it was given, and has saved nothing yet |
| ResultSaver.LineMappingResultSaver.SaveClassEntry | buildSrc/src/main/java/buildSrc/utils/decompile/LineMappingResultSaver.java:24-43 | the text save always runs first; with a null mapping the store is untouched; otherwise the store becomes the patch of the source archive, an IOException is logged, and anything else escapes |
| ResultSaver.PatchTouchesOnlyEntry | buildSrc/src/main/java/buildSrc/utils/decompile/LineMappingResultSaver.java:32-38 | the patch touches no archive but the source archive, and no entry but `qualifiedName.class`; the source archive's other entries keep their cached bytes, or their bytes on disk when this read first opens it |
| ResultSaver.PatchedEntryIsRemapped | buildSrc/src/main/java/buildSrc/utils/decompile/LineMappingResultSaver.java:33-38 | the patch succeeds iff the entry can be read, the reader accepts its header, the mapping has even length and the rest of the class parses; then the entry holds the remapped class |
| ResultSaver.OddMappingBeforeBody | buildSrc/src/main/java/buildSrc/utils/decompile/LineMappingResultSaver.java:34-36 | once the reader accepts the header, an odd-length mapping escapes as IndexOutOfBounds at its length before the rest of the class is read, and nothing is written |
| ResultSaver.FailedReadWritesNothing | buildSrc/src/main/java/buildSrc/utils/decompile/LineMappingResultSaver.java:33-41 | a failed read performs no write, and its IOException is logged rather than rethrown |
| ResultSaver.EmptyMappingRewritesIdentically | buildSrc/src/main/java/buildSrc/utils/decompile/LineMappingResultSaver.java:29-38 | a non-null empty mapping is still written back, and with a faithful codec the entry's bytes do not change |
| Templates.ReplaceTokens | buildSrc/src/main/java/buildSrc/utils/Utils.java:361-404 | the imperative scanner's result (value or error) agrees with the recursive expansion `Expand` |
| Templates.ScanToken | buildSrc/src/main/java/buildSrc/utils/Utils.java:370-388 | the scan of a token's key resolves escapes, stops at the matching closer, and fails on an unclosed token or a trailing backslash |
| Templates.PrependPrepend | buildSrc/src/main/java/buildSrc/utils/Utils.java:364-403 | text emitted in two steps is the same as emitting it concatenated |
| Templates.OrdinaryIsCopied | buildSrc/src/main/java/buildSrc/utils/Utils.java:364-399 | a template with no `\`, `{` or `'` expands to itself, in order |
| Templates.ScanTokenShift | buildSrc/src/main/java/buildSrc/utils/Utils.java:370-388 | scanning a token does not depend on the text before it |
| Templates.ExpandShift | buildSrc/src/main/java/buildSrc/utils/Utils.java:364-403 | expansion does not depend on the text already consumed |
| Templates.ScanTokenExtend | buildSrc/src/main/java/buildSrc/utils/Utils.java:370-388 | a token that closes within a prefix scans the same way when text follows |
| Templates.ExpandExtend | buildSrc/src/main/java/buildSrc/utils/Utils.java:364-403 | when the expansion of a prefix succeeds, expanding more text appends to it |
| Templates.ExpandConcat | buildSrc/src/main/java/buildSrc/utils/Utils.java:364-403 | when p expands, p + q expands iff q does, and the outputs concatenate |
| Templates.EscapeIsLiteral | buildSrc/src/main/java/buildSrc/utils/Utils.java:366-369 | outside a token, a backslash emits the next character literally |
| Templates.TrailingBackslashFails | buildSrc/src/main/java/buildSrc/utils/Utils.java:366-368 | a final backslash after a template that expands raises exactly IllegalArgumentException "Illegal patterns (Bad escape): " followed by the whole template |
| Templates.ExpandTrailingBackslash | buildSrc/src/main/java/buildSrc/utils/Utils.java:364-368 | from any point at which the rest of a template expands, adding a final backslash makes the expansion fail with that exact "Bad escape" error |
| Templates.ScanPlain | buildSrc/src/main/java/buildSrc/utils/Utils.java:380-388 | a key with no escapes or closers is collected verbatim up to its closer |
| Templates.ScanUnclosed | buildSrc/src/main/java/buildSrc/utils/Utils.java:372-374 | running off the end inside a token is an error |
| Templates.QuotedIsLiteral | buildSrc/src/main/java/buildSrc/utils/Utils.java:370-390 | `'text'` emits the text without its quotes; a `{` inside it is literal |
| Templates.KeyIsReplaced | buildSrc/src/main/java/buildSrc/utils/Utils.java:392-396 | `{key}` emits the token's string form when present and non-null (calling a Supplier first), and re-emits `{key}` otherwise |
| Templates.UnclosedFails | buildSrc/src/main/java/buildSrc/utils/Utils.java:372-374 | an unclosed `{` or `'` raises IllegalArgumentException |
| Templates.ScanTrailingBackslash | buildSrc/src/main/java/buildSrc/utils/Utils.java:376-378 | inside a token, a backslash at the very end is an error |
| Templates.TrailingBackslashInToken | buildSrc/src/main/java/buildSrc/utils/Utils.java:376-378 | a trailing backslash inside a token raises IllegalArgumentException |
| Templates.EscapesResolvedInKey | buildSrc/src/main/java/buildSrc/utils/Utils.java:376-396 | for every key s: `{`, then s with a backslash before each `\` and `}`, then `}` looks up s itself, re-emitting `{s}` when it is absent or null; the same escaping of s between quotes emits s |
| Templates.ScanEscaped | buildSrc/src/main/java/buildSrc/utils/Utils.java:370-388 | a token scan over the escaped form of any s reads exactly s into the key and stops at the closer that follows |
| Templates.EscapedToken | buildSrc/src/main/java/buildSrc/utils/Utils.java:370-396 | a token made of an opener, the escaped form of s and its closer expands to the piece for s: s itself when quoted, its lookup when braced |
| Templates.Replace | buildSrc/src/main/java/buildSrc/utils/Utils.java:212-218 | a value of at most 2 UTF-16 units (a supplementary character counts twice), or without `{`, is returned unchanged; any other value goes through token expansion |
| Templates.ReplaceCountsUtf16Units | buildSrc/src/main/java/buildSrc/utils/Utils.java:212-218 | U+1F600 followed by `{` is 3 UTF-16 units long, so it is expanded and fails as an unclosed `{` |
| Templates.ReplaceAgreesOnOrdinary | buildSrc/src/main/java/buildSrc/utils/Utils.java:212-218 | on templates of ordinary characters, `replace` and `replaceTokens` agree |
| Templates.ReplaceShortCut | buildSrc/src/main/java/buildSrc/utils/Utils.java:213-215 | the short cut also passes through backslashes and quotes that expansion would have processed or rejected |
| Templates.Capitalize | buildSrc/src/main/java/buildSrc/utils/Utils.java:320-322 | strings of at most one UTF-16 unit are unchanged; otherwise only the first character is upper-cased and the length is kept |
| Templates.CapitalizeIdempotent | buildSrc/src/main/java/buildSrc/utils/Utils.java:320-322 | capitalizing twice is the same as capitalizing once |
| VersionJson.CurrentIsFirstMatch | buildSrc/src/main/java/buildSrc/utils/VersionJson.java:336-364 | the detected OS is the first of WINDOWS, LINUX, OSX that has a key in the lower-cased os name, and UNKNOWN if none does (each direction) |
| VersionJson.GetCurrent | buildSrc/src/main/java/buildSrc/utils/VersionJson.java:354-364 | the early-exit nested loop returns exactly that first-matching OS |
| VersionJson.WinKeyMeansWindows | buildSrc/src/main/java/buildSrc/utils/VersionJson.java:337-363 | a lower-cased name containing "win" anywhere is WINDOWS, because WINDOWS is tested first |
| VersionJson.DetectsWindows | buildSrc/src/main/java/buildSrc/utils/VersionJson.java:337-363 | "Windows 10" is WINDOWS |
| VersionJson.DarwinIsWindows | buildSrc/src/main/java/buildSrc/utils/VersionJson.java:337-363 | "Darwin" is WINDOWS, because it contains "win" |
| VersionJson.DetectsLinux | buildSrc/src/main/java/buildSrc/utils/VersionJson.java:338-363 | "Linux" is LINUX |
| VersionJson.DetectsOsx | buildSrc/src/main/java/buildSrc/utils/VersionJson.java:339-363 | "Mac OS X" is OSX |
| VersionJson.IsAllowed | buildSrc/src/main/java/buildSrc/utils/VersionJson.java:177-186 | null rules allow; otherwise the loop allows iff every rule allows its action |
| VersionJson.AllowsActionCases | buildSrc/src/main/java/buildSrc/utils/VersionJson.java:199-235 | a rule allows iff "no OS condition, or name, version and arch all match (absent fields match)" equals "action is allow" |
| VersionJson.AllowedConcat | buildSrc/src/main/java/buildSrc/utils/VersionJson.java:177-186 | a concatenation of rule lists is allowed iff both parts are |
| VersionJson.AllowExceptOn | buildSrc/src/main/java/buildSrc/utils/VersionJson.java:199-223 | "allow" then "disallow on OS x" is allowed exactly when the current OS is not x |
| VersionJson.OnlyOn | buildSrc/src/main/java/buildSrc/utils/VersionJson.java:199-223 | a single "allow on OS x" is allowed exactly on x |
| VersionJson.QuoteShape | buildSrc/src/main/java/buildSrc/utils/VersionJson.java:99-104 | a string containing a space is wrapped in double quotes; any other is unchanged |
| VersionJson.QuoteAll | buildSrc/src/main/java/buildSrc/utils/VersionJson.java:99-104 | each JVM argument is quoted in place, keeping count and order |
| VersionJson.JvmArgsConcat | buildSrc/src/main/java/buildSrc/utils/VersionJson.java:97-98 | the flattened JVM arguments of a concatenation are the concatenation of the parts |
| VersionJson.JvmArgsMembers | buildSrc/src/main/java/buildSrc/utils/VersionJson.java:93-105 | a string is emitted iff it is the quoted form of a value of an argument that has non-null rules which allow it |
| VersionJson.PlatformJvmArgsMembers | buildSrc/src/main/java/buildSrc/utils/VersionJson.java:93-105 | with `arguments` or `jvm` null the result is empty; otherwise a string is emitted iff it is the quoted form of a value of a `jvm` argument that has non-null rules which allow it |
| VersionJson.RulelessArgumentDropped | buildSrc/src/main/java/buildSrc/utils/VersionJson.java:97 | an argument with null rules never contributes, even though null rules would be allowed |
| VersionJson.AllowedLibraries | buildSrc/src/main/java/buildSrc/utils/VersionJson.java:125-136 | every library kept is listed and allowed by its rules, and the result is no longer than the input |
| VersionJson.AllowedLibrariesMembers | buildSrc/src/main/java/buildSrc/utils/VersionJson.java:128-131 | a library is kept iff it is listed and allowed |
| VersionJson.AllowedLibrariesConcat | buildSrc/src/main/java/buildSrc/utils/VersionJson.java:128-131 | filtering keeps the original order: it distributes over concatenation |
| VersionJson.NativesFailure | buildSrc/src/main/java/buildSrc/utils/VersionJson.java:73-80 | the natives fail iff some allowed library has a natives map and no downloads, whatever the OS, since the downloads' classifiers are read before the OS name is looked up; the failure is a NullPointerException |
| VersionJson.NativesKeys | buildSrc/src/main/java/buildSrc/utils/VersionJson.java:70-88 | an artifact key `group:name:version` is present iff some allowed library supplies a native classifier for this OS |
| VersionJson.NativesLastWins | buildSrc/src/main/java/buildSrc/utils/VersionJson.java:82-86 | for a repeated artifact key, the download of the last supplying library is kept |
| VersionJson.SuppliesInit | buildSrc/src/main/java/buildSrc/utils/VersionJson.java:72-86 | whether a library supplies a key does not depend on the libraries after it |
| VersionJson.NativesFailurePersists | buildSrc/src/main/java/buildSrc/utils/VersionJson.java:73-80 | once a library fails, the whole natives computation fails |
| VersionJson.DeserializeArgument | buildSrc/src/main/java/buildSrc/utils/VersionJson.java:154-169 | a primitive becomes an argument with null rules and one value; null and arrays raise IllegalStateException; an object missing `rules` or `value` raises JsonParseException |
| VersionJson.DecodeEncodedStrings | buildSrc/src/main/java/buildSrc/utils/VersionJson.java:166 | a list of strings decodes to itself |
| VersionJson.DecodeEncodedRule | buildSrc/src/main/java/buildSrc/utils/VersionJson.java:164-219 | a rule object decodes to the rule it encodes |
| VersionJson.DecodeEncodedRules | buildSrc/src/main/java/buildSrc/utils/VersionJson.java:164 | a rule array decodes to the rules it encodes |
| VersionJson.DeserializeEncoded | buildSrc/src/main/java/buildSrc/utils/VersionJson.java:159-168 | an argument written as an object with `rules` and `value` deserializes back to itself |
| VersionJson.VersionJson.constructor | buildSrc/src/main/java/buildSrc/utils/VersionJson.java:65-66 | both caches start empty |
| VersionJson.VersionJson.GetNatives | buildSrc/src/main/java/buildSrc/utils/VersionJson.java:68-91 | on a miss the loop computes exactly the natives map and caches it only on success; on a hit the cached map is returned unchanged |
| VersionJson.VersionJson.GetLibraries | buildSrc/src/main/java/buildSrc/utils/VersionJson.java:125-136 | on a miss the loop computes exactly the allowed libraries in order and caches them; on a hit the cache is returned unchanged |
| SourceExtension.Classification | buildSrc/src/main/java/buildSrc/extensions/MinecraftSourceExtension.java:147-170 | a "release" (ignoring case) is exactly one of release (pre == 0), pre-release (pre > 0) or release candidate (pre < 0); a snapshot is none of them |
| SourceExtension.ClassificationIgnoresCase | buildSrc/src/main/java/buildSrc/extensions/MinecraftSourceExtension.java:147-170 | type names compare ignoring case |
| SourceExtension.Filter | buildSrc/src/main/java/buildSrc/extensions/MinecraftSourceExtension.java:69-84 | every version kept is listed and passes the filter, and the result is no longer than the input |
| SourceExtension.FilterMembers | buildSrc/src/main/java/buildSrc/extensions/MinecraftSourceExtension.java:69-84 | a version survives the filter iff it is listed and kept |
| SourceExtension.FilterConcat | buildSrc/src/main/java/buildSrc/extensions/MinecraftSourceExtension.java:69-84 | filtering keeps order: it distributes over concatenation |
| SourceExtension.FirstIndex | buildSrc/src/main/java/buildSrc/extensions/MinecraftSourceExtension.java:60-75 | for a listed version, the first position holding it; `indexOf` is only reached after `contains` has found the version |
| SourceExtension.UnlistedIsInvalid | buildSrc/src/main/java/buildSrc/extensions/MinecraftSourceExtension.java:61-78 | `from` and `after` of an unlisted version raise IllegalArgumentException("Invalid version: …") |
| SourceExtension.FromLastIsEmpty | buildSrc/src/main/java/buildSrc/extensions/MinecraftSourceExtension.java:65-82 | `from` of the last version, when it is listed once, is empty, although `from` is otherwise inclusive |
| SourceExtension.FromIsTargetThenAfter | buildSrc/src/main/java/buildSrc/extensions/MinecraftSourceExtension.java:69-84 | otherwise `from` is the filtered target followed by `after` |
| SourceExtension.AfterMembers | buildSrc/src/main/java/buildSrc/extensions/MinecraftSourceExtension.java:73-86 | `after` of a listed version succeeds and holds exactly the kept versions strictly after its first occurrence |
| SourceExtension.FullReleasesOnly | buildSrc/src/main/java/buildSrc/extensions/MinecraftSourceExtension.java:88-90 | `fullReleasesFrom` yields only full releases |
| SourceExtension.KeptMembers | buildSrc/src/main/java/buildSrc/extensions/MinecraftSourceExtension.java:132-134 | a name survives the filter-then-map stream iff some line passes the filter and maps to it |
| SourceExtension.ListedVersionsMembers | buildSrc/src/main/java/buildSrc/extensions/MinecraftSourceExtension.java:133-134 | a name is listed iff it is the trim of a line that does not start with `#` |
| SourceExtension.IndentedCommentIsKept | buildSrc/src/main/java/buildSrc/extensions/MinecraftSourceExtension.java:133-134 | the `#` test comes before trimming, so a `#` line is dropped but an indented one is kept, trimmed |
| SourceExtension.SelectListedMembers | buildSrc/src/main/java/buildSrc/extensions/MinecraftSourceExtension.java:135-136 | `fromFile` keeps a manifest version iff its id is listed |
| SourceExtension.AsStringsOfStrings | buildSrc/src/main/java/buildSrc/extensions/MinecraftSourceExtension.java:142-143 | an array of string primitives reads back as those strings |
| SourceExtension.JsonVersionsOfStrings | buildSrc/src/main/java/buildSrc/extensions/MinecraftSourceExtension.java:139-145 | a `versions` array of strings yields exactly those names |
| SourceExtension.FirstDeclaration | buildSrc/src/main/java/buildSrc/extensions/MinecraftSourceExtension.java:115-117 | the line found contains the declaration; none is found only when no line contains it |
| SourceExtension.FirstDeclarationIsFirst | buildSrc/src/main/java/buildSrc/extensions/MinecraftSourceExtension.java:115-117 | the first line containing the declaration is the one taken |
| SourceExtension.QuotedValue | buildSrc/src/main/java/buildSrc/extensions/MinecraftSourceExtension.java:117 | the value is the text between the first and the last `"`; fewer than two quotes raises StringIndexOutOfBounds |
| SourceExtension.QuotedValueOf | buildSrc/src/main/java/buildSrc/extensions/MinecraftSourceExtension.java:117 | the quoted value of a line with exactly two quotes is the text between them |
| SourceExtension.CurrentFromSharedConstants | buildSrc/src/main/java/buildSrc/extensions/MinecraftSourceExtension.java:113-120 | with no version.json, the version is the quoted value of the first declaring line of SharedConstants |
| SourceExtension.VersionJsonFirst | buildSrc/src/main/java/buildSrc/extensions/MinecraftSourceExtension.java:105-112 | a version.json with an `id` decides the current version, whatever SharedConstants holds |
| SourceExtension.Reverse | buildSrc/src/main/java/buildSrc/extensions/MinecraftSourceExtension.java:51-53 | the manifest is read newest-first and reversed into chronological order |
| SourceExtension.MinecraftSourceExtension.constructor | buildSrc/src/main/java/buildSrc/extensions/MinecraftSourceExtension.java:34-39 | no versions are selected and incremental mode is on |
| SourceExtension.MinecraftSourceExtension.All | buildSrc/src/main/java/buildSrc/extensions/MinecraftSourceExtension.java:45-56 | the filter gets the chronological (reversed) list; on success its result is selected, on failure nothing changes |
| SourceExtension.MinecraftSourceExtension.From | buildSrc/src/main/java/buildSrc/extensions/MinecraftSourceExtension.java:58-71 | the selection becomes `from` of the version, or stays unchanged on an invalid version |
| SourceExtension.MinecraftSourceExtension.After | buildSrc/src/main/java/buildSrc/extensions/MinecraftSourceExtension.java:73-86 | the selection becomes `after` of the version, or stays unchanged on an invalid version |
| SourceExtension.MinecraftSourceExtension.FromFile | buildSrc/src/main/java/buildSrc/extensions/MinecraftSourceExtension.java:131-137 | the selection becomes the manifest versions listed in the file, in chronological order |
| SourceExtension.MinecraftSourceExtension.FromJson | buildSrc/src/main/java/buildSrc/extensions/MinecraftSourceExtension.java:139-145 | the selection becomes the manifest versions named in `versions`; a malformed document fails and changes nothing |
| SourceExtension.MinecraftSourceExtension.AutomaticallyIncrementalFrom | buildSrc/src/main/java/buildSrc/extensions/MinecraftSourceExtension.java:100-129 | with a current version found, incremental is on and `after(current)` is selected; otherwise incremental is off and `from(version)` is selected |
| DecompileWorker.DefaultsEnableMapping | buildSrc/src/main/java/buildSrc/workers/JarDecompileWorker.java:28-42 | the defaults turn bytecode-source mapping on with "1", use processors − 1 threads and indent with four spaces |
| DecompileWorker.MergeOptions | buildSrc/src/main/java/buildSrc/workers/JarDecompileWorker.java:55-58 | the merged keys are the union; user values always win; defaults fill only absent keys |
| DecompileWorker.RunEscapePersists | buildSrc/src/main/java/buildSrc/workers/JarDecompileWorker.java:78-79 | once an exception escapes the hook, no later class is processed |
| DecompileWorker.RunSavesInOrder | buildSrc/src/main/java/buildSrc/workers/JarDecompileWorker.java:78-79 | every class reached gets its text save, in order; with no escape, all classes are reached |
| DecompileWorker.RunWithoutMapping | buildSrc/src/main/java/buildSrc/utils/decompile/LineMappingResultSaver.java:29 | with mapping off, the run leaves the store holding only the decompiler's handles, never logs and never throws |
| DecompileWorker.RunSnoc | buildSrc/src/main/java/buildSrc/workers/JarDecompileWorker.java:78-79 | the run over one more class is one more hook call, unless an exception has already escaped |
| DecompileWorker.SaveUnit | buildSrc/src/main/java/buildSrc/workers/JarDecompileWorker.java:63-79 | one hook call for a decompiled class, with the mapping passed only when mapping is on, is one step of the run |
| DecompileWorker.RunClasses | buildSrc/src/main/java/buildSrc/workers/JarDecompileWorker.java:78-79 | the class-by-class loop, from the store the decompiler's reads left, yields exactly the run specification's saves, warnings, store and escape |
| DecompileWorker.SaveNext | buildSrc/src/main/java/buildSrc/workers/JarDecompileWorker.java:78-79 | the hook call for the next class extends the run by exactly that class |
| DecompileWorker.Decompile | buildSrc/src/main/java/buildSrc/workers/JarDecompileWorker.java:62-84 | a fresh store shared with the decompiler, whose class reads open the archives it loads; the hook over every class; the context cleared and the store closed exactly once, even on failure; the handles closed are every loaded archive on disk plus the source archive when the hook opened it, and with mapping off exactly the loaded ones; a close failure is logged, or suppressed under an escaping exception; afterwards the archive files are the disk with each handle written back when its close succeeds |
| DecompileWorker.OpenLoaded | buildSrc/src/main/java/buildSrc/workers/JarDecompileWorker.java:63-64 | the decompiler's class reads through the shared store leave it holding exactly the loaded archives that exist on disk |
| DecompileWorker.LoadedHandlesClosed | buildSrc/src/main/java/buildSrc/utils/decompile/FernFlowerByteCodeProvider.java:25-35 | the store the close sees holds every loaded archive on disk and nothing but those and the source archive; with mapping off exactly the loaded ones |
| DecompileWorker.RunTouchesOnlySource | buildSrc/src/main/java/buildSrc/utils/decompile/LineMappingResultSaver.java:32-38 | starting from handles read from disk, the hook keeps every handle, opens no archive but the source archive, leaves every other archive as on disk, and every entry no class names keeps its bytes from disk |
| DecompileWorker.StepFiles | buildSrc/src/main/java/buildSrc/utils/decompile/LineMappingResultSaver.java:29-38 | one hook call leaves the store as the patch of its class leaves it, or untouched with mapping off |
| DecompileWorker.WriteBackOnlySource | buildSrc/src/main/java/buildSrc/utils/decompile/FernFlowerByteCodeProvider.java:25-35 | after the run from handles read from disk, every archive but the source is unchanged on disk; the source holds what the hook left when its close succeeds; with mapping off nothing changes |
| DecompileWorker.OneClassWrittenBack | buildSrc/src/main/java/buildSrc/utils/decompile/LineMappingResultSaver.java:32-38 | for one class whose entry parses, with an even mapping and a clean close, whatever archives the decompiler loaded, the jar on disk afterwards holds the remapped class in place of that entry and every other entry as before |
| DecompileWorker.Execute | buildSrc/src/main/java/buildSrc/workers/JarDecompileWorker.java:51-88 | options merged with user priority, then the decompile runs with mapping on exactly when the merged `bsm` option is "1"; it closes the same handles and leaves the archive files as that decompile does, so with `bsm` off it still closes the loaded input jar |
| DecompileWorker.MappingOnByDefault | buildSrc/src/main/java/buildSrc/workers/JarDecompileWorker.java:39-58 | unless the user overrides `bsm`, the merged options enable mapping, so the hook sees non-null mappings |
| Strings.Utf16Len | buildSrc/src/main/java/buildSrc/utils/Utils.java:213 | `length()` counts UTF-16 units: at least the number of characters and at most twice it, with equality exactly when no character is supplementary |
| Strings.Trim | buildSrc/src/main/java/buildSrc/extensions/MinecraftSourceExtension.java:134 | `trim` removes leading and trailing characters ≤ U+0020, and only those |
| Strings.IndexOf | buildSrc/src/main/java/buildSrc/extensions/MinecraftSourceExtension.java:117 | the first position of the character, or -1 when it is absent |
| Strings.LastIndexOf | buildSrc/src/main/java/buildSrc/extensions/MinecraftSourceExtension.java:117 | the last position of the character, or -1 when it is absent |
| Strings.IndexOfAt | buildSrc/src/main/java/buildSrc/extensions/MinecraftSourceExtension.java:117 | an occurrence with none before it is the index `indexOf` returns |
| Strings.LastIndexOfAt | buildSrc/src/main/java/buildSrc/extensions/MinecraftSourceExtension.java:117 | an occurrence with none after it is the index `lastIndexOf` returns |
| Strings.DigitsRoundTrip | buildSrc/src/main/java/buildSrc/workers/JarDecompileWorker.java:40 | the decimal text of a thread count reads back as the same number |

## Left out

- Bytecode and archives are abstract. The ASM `ClassReader`/`ClassWriter` encoding is a `ClassCodec` parameter, and an archive is a map from entry names to bytes. Nothing is claimed about byte-for-byte output.
- The NIO zip filesystem is not modelled. An archive opens iff it is on `disk`. ByteStore.ByteCodeProvider.SetBytecode: a write to an opened handle never fails, so the IOException path of a write (covered by the catch at LineMappingResultSaver.java:39-41) is not reachable in the model.
- ByteStore.ByteCodeProvider.Close: the iteration order of the `ConcurrentHashMap` is unspecified, so the method chooses one and returns it as `attempted`. Concurrency and Fernflower's worker threads are left out; the whole model is sequential.
- ByteStore.ByteCodeProvider.Close: a successful close writes the whole cached archive back. A close that fails is taken to leave the archive file as it was; a partly written file is not modelled.
- ResultSaver.LineMappingResultSaver.SaveClassEntry: follows the code, in which:
  - only `IOException` is caught;
  - a class whose header the reader rejects, or whose body it cannot parse, ends the call with an exception that escapes, and is not logged;
  - the same holds for an odd-length mapping (`ArrayIndexOutOfBoundsException`);
  - the checks come in ASM's order: the header and constant pool (`new ClassReader`), then the visitor's table, then the rest of the class (`accept`);
  - the exception ASM throws for a malformed class is not modelled: an `IllegalArgumentException` stands for it.
- The text save of `SingleFileSaver.saveClassEntry` is recorded as an event, and the decompiler itself (Fernflower) is a list of class units fed to the hook. Warnings are recorded as values, not logged.
- DecompileWorker.Decompile / DecompileWorker.Execute: the decompiler's own use of the shared store (JarDecompileWorker.java:63-64) is the parameter `loaded`, the archives its `getBytecode` calls open, in order of first use:
  - the model makes these opens before the first class is saved, whereas Fernflower may interleave them with the hook calls; every open reads its archive from disk and the hook writes only its source archive's handle, so the final store does not depend on that order, but this independence is not proved;
  - a read of an archive that is missing caches nothing, as `zipFile` does; how Fernflower handles that IOException, and the bytes it reads, are not modelled.
- VersionJson.DeserializeArgument:
  - Gson's binding of `rules` and `value` is modelled more strictly than Gson binds them:
    - `"value": null` binds to a null list in Gson, so the argument gets a null value list; the model raises JsonParseException "malformed value";
    - in a `value` array Gson binds numbers to `Double`s (and nested arrays or objects to lists or maps), which fail only later, with a ClassCastException, where the strings are read; the model reads a number or boolean as its text and rejects a null, array or object element as "malformed value";
    - rule shapes Gson would not bind give "malformed …";
  - the IllegalStateException message for a non-object omits the element's text;
  - the IllegalStateException for `null` is reached only when the deserializer is called directly with `JsonNull`; inside a `jvm` array Gson binds a JSON null element to a null `Argument`, which then throws a NullPointerException in the `getPlatformJvmArgs` stream (VersionJson.java:97), and the model has no null arguments;
  - a rule's `action` is taken as non-null.
- VersionJson.Env: `os.name` is a parameter. The `os.version` / `os.arch` regex matches of `versionMatches` / `archMatches` are oracle functions, not a regex engine. Because the oracles are total and `action` is non-null, `isAllowed` never throws in the model; in the source a PatternSyntaxException or a NullPointerException inside the `getLibraries` loop leaves the partial list already assigned to `_libraries` (VersionJson.java:127) cached for later calls, and the cache contract of `VersionJson.VersionJson.GetLibraries` does not cover that path.
- VersionJson.VersionJson.GetNatives:
  - returns the key → download map, because the order of a `HashMap`'s values is unspecified;
  - `Artifact.from` parsing is replaced by the library's parsed coordinates.
- Case mapping (`toLowerCase(Locale.ENGLISH)`, `toUpperCase`, `equalsIgnoreCase`) is ASCII-only.
- Strings are sequences of Unicode scalar values, not of UTF-16 units. Where the source compares `length()` (`replace`, `capitalize`), the model counts UTF-16 units with `Utf16Len`. The indices of `indexOf` / `lastIndexOf` count characters, which selects the same substrings.
- `MinecraftVersion.from` and the version manifest download are parameters (`parse`, `manifest`). Versions are compared by value, not through `ReflectionUtils`.
- `fullReleasesFrom`, `noneSnapshotsFrom` and `allFrom` are the `From` selection with a fixed filter (`IsRelease`, not `IsSnapshot`, always true); only the first has its own lemma (FullReleasesOnly).
- The Fernflower preference key strings (`bsm`, `thr`, `ind`, …) are taken from Fernflower's `IFernflowerPreferences`, which is not part of this model. `Runtime.availableProcessors()` is a parameter.
- The rest of the repository is not modelled:
  - `JarRenameWorker` is a wrapper over an external tool, and its write into the shared options table is a cross-class side effect;
  - `ReflectionUtils` is reflection;
  - the rest of `Utils` is downloads, zip copying, hashing, time zones, dynamic type dispatch and environment reads;
  - the Gradle tasks and plugin are task wiring and file I/O;
  - `CreateCommitTask` only calls JGit;
  - `ArtifactSide` and `FartConstants` hold constants only.
