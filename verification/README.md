# revision-info-plugin and automodule-inject, modelled in Dafny

This project models the deterministic core of two mastfrog Maven plugins.

- **revision-info-plugin** asks git for the current commit and writes a reproducible `<groupId>.<artifactId>.versions.properties` file. It can also generate a Java class that holds the same facts as constants.
- **automodule-inject** derives an `Automatic-Module-Name` from a project's group and artifact ids. It sets that name as a project property unless the project has its own `module-info.java`.

Strings are Java strings: `JStrings.JString` is a sequence of UTF-16 code units (`Unit`, an int in 0..0xFFFF). Surrogates are therefore ordinary units. Bytes are ints in 0..0xFF.

The modules follow the structure of the source:

| module | models |
|---|---|
| `JStrings` | code units, `String.compareTo`, `trim`, `indexOf`/`lastIndexOf`, `replace`, the sorted key order of `Collections.sort` |
| `Collections` | `prepend`, `concatenate` (a `LinkedHashSet`), `split` and `join` from `Utils` |
| `JavaChars` | the `Character` predicates, as a record of functions (`CharTable`) with an ASCII instance for examples |
| `Naming` | `bicapitalizedToConstantName`, `packageFor`, `classNameFor`, `fqnToSourcePath` |
| `PropertiesWriter` | `convert`, `appendEscaped`, `appendEscapedHex`, `savePropertiesFile`, `printLines` and the ISO-8859-1 encoding |
| `PropertiesReader` | the reading side of `java.util.Properties.load`, as the decoder the writer is checked against |
| `PropertiesRoundTrip` | that reading back a saved file recovers the map |
| `JavaTime` | the git-date and ISO parsers as partial functions, and Java's truncating `long` division |
| `GitOutput` | the three regular expressions of `LibInfo` as hand-written matchers, and `gitOutputToProperties` |
| `Paths` | `java.nio.file.Path` (normalised, Unix separator) and a file system given as a map from path to entry |
| `LibInfo` | `systemPath`, `searchPath`, `searchGitBinary`, `findGitRoot`, the two git runs, and `getInfo` |
| `MavenProject` | the group id, artifact id and version the mojos read |
| `SourceGenerator` | `commitTimestamp` and `javaSourceFromProperties` |
| `PackageScan` | `fileExt`, `scan`, `dotCount` and `scanForLeastPackageWithSourceFile` over a directory tree |
| `OutputPaths` | `propertiesOutputFile` and `sourceOutputFile` |
| `GeneratedClass` | `generatedClassFqn` |
| `ClassNames` | `checkGenClass` and `checkNamePart` |
| `RevisionMojo` | `execute` of the revision-info mojo, as a function from configuration and host to an outcome and the files written |
| `AutoModule` | `execute`, `autoModuleName`, `splitAndConvert` and `convert` of the automodule mojo |

The outside world comes in as values. `Host` carries the file system, the PATH variable, a git runner, the time parsers, the character table, the charset check and encoder, the output files, and which output files can be written. `Config` carries the mojo's parameters, including the project base directory that output paths are logged against. A git run either exits with a code, stdout and stderr, or times out.

Some behaviours of the code are easy to miss, and the model keeps them:

- `gitOutputToProperties` always sets repoStatus before the `isEmpty` check, so its "Could not match git output" error can never be raised.
- Spaces in values are written unescaped. A value that starts with a space therefore loses those spaces when the file is read back (`PropertiesRoundTrip.LeadingSpaceLost`).
- `bicapitalizedToConstantName` is not idempotent: "a1b" gives "A1B", which gives "A1_B".
- `checkGenClass` accepts empty segments such as `a..B`, and a trailing dot.
- Log stdout is used even after git exits with a nonzero code. The exit message is still appended to the errors.
- No info with empty errors opens the properties file first. If the file is missing, it is created empty. If it exists, it is left unchanged: the stream neither truncates nor writes, because saving the null properties throws first. The run then fails with "Error creating file: ", so a stale file from an earlier build survives.
- Each `getLog().info` line logs an output path relative to the project base directory. `relativize` throws when one of the two paths is absolute and the other relative, and the run then fails with "Error creating file: ", after the properties file is already written.
- When the least package is the default package, the class name is `.RevisionInfo`. Its source path resolves to the absolute `/RevisionInfo.java`.
- `convert` in automodule-inject can leave a segment that starts with a digit ("12" gives "2"). A group id with no identifier character gives a name that starts with a dot.
- The `768` and `1536` passed to `readString` are buffer sizes, not caps. The model reads the whole output.
- `execute` calls `javaSourceFromProperties` with three arguments, but `Utils` declares four, with `packagePrivate` first. The model follows the four-argument declaration and takes `packagePrivate` from the configuration.

## Model

| member | source | states |
|---|---|---|
| Collections.JoinPrepend | revision-info-plugin/src/main/java/com/mastfrog/maven/plugins/revisioninfo/LibInfo.java:199 | a command line built by `prepend` prints, joined by the delimiter, as the first word, the delimiter and the rest joined; just the first word when nothing follows |
| Collections.Concatenate | revision-info-plugin/src/main/java/com/mastfrog/maven/plugins/revisioninfo/Utils.java:82-91 | like the LinkedHashSet it builds: every element of `a` and of `b` appears, each exactly once, nothing else appears, and elements are ordered by their first occurrence in `a` followed by `b` |
| Collections.DedupOrder | revision-info-plugin/src/main/java/com/mastfrog/maven/plugins/revisioninfo/Utils.java:82-91 | the de-duplicated elements come in the order of their first occurrence, as a LinkedHashSet iterates |
| Collections.DedupDistinct | revision-info-plugin/src/main/java/com/mastfrog/maven/plugins/revisioninfo/Utils.java:82-91 | de-duplicating a sequence that has no repeats returns it unchanged |
| Collections.Split | revision-info-plugin/src/main/java/com/mastfrog/maven/plugins/revisioninfo/Utils.java:93-106 | the field list is empty exactly when the text is; no field contains the delimiter; joining the fields gives back the text without one trailing delimiter (so "a:" gives ["a"] and ":a" gives ["", "a"]) |
| Collections.SplitScan | revision-info-plugin/src/main/java/com/mastfrog/maven/plugins/revisioninfo/Utils.java:93-106 | the index loop of `split` (with its `last ? c == delim ? i : i + 1 : i` end index) computes exactly the field list `Split` |
| Collections.JoinFields | revision-info-plugin/src/main/java/com/mastfrog/maven/plugins/revisioninfo/Utils.java:108-118 | joining the delimiter-separated fields of any text restores the text |
| Collections.FieldsJoin | revision-info-plugin/src/main/java/com/mastfrog/maven/plugins/revisioninfo/Utils.java:108-118 | cutting a join of delimiter-free pieces at every delimiter gives back the pieces |
| Collections.SplitJoin | revision-info-plugin/src/main/java/com/mastfrog/maven/plugins/revisioninfo/Utils.java:93-118 | `split` inverts `join` for delimiter-free pieces whose last piece is non-empty |
| Collections.JoinSplit | revision-info-plugin/src/main/java/com/mastfrog/maven/plugins/revisioninfo/Utils.java:93-118 | `join(d, split(d, s)) == s` whenever `s` does not end with `d` |
| JStrings.BelowTransitive | revision-info-plugin/src/main/java/com/mastfrog/maven/plugins/revisioninfo/Utils.java:207-208 | the `String.compareTo` order used to sort keys is transitive |
| JStrings.BelowTotal | revision-info-plugin/src/main/java/com/mastfrog/maven/plugins/revisioninfo/Utils.java:207-208 | the `String.compareTo` order is total: two distinct strings are always ordered one way |
| JStrings.SortedKeys | revision-info-plugin/src/main/java/com/mastfrog/maven/plugins/revisioninfo/Utils.java:207-208 | the sorted key list holds every key of the set exactly once and nothing else |
| JStrings.SortedKeysAscending | revision-info-plugin/src/main/java/com/mastfrog/maven/plugins/revisioninfo/Utils.java:207-208 | the sorted key list is strictly ascending in `String.compareTo` order |
| JStrings.Trim | revision-info-plugin/src/main/java/com/mastfrog/maven/plugins/revisioninfo/LibInfo.java:98 | `trim()` is empty exactly when every unit is at most a space, and otherwise starts and ends with a unit above space |
| JStrings.LastIndexOf | revision-info-plugin/src/main/java/com/mastfrog/maven/plugins/revisioninfo/Utils.java:323-329 | `lastIndexOf` is absent exactly when the unit does not occur, and otherwise is the position of its last occurrence |
| JStrings.ReplaceUndo | revision-info-plugin/src/main/java/com/mastfrog/maven/plugins/revisioninfo/Utils.java:319-321 | replacing `a` by a unit `b` the text does not contain leaves no `a` behind and is undone by replacing `b` by `a` |
| Naming.BicapitalizedToConstantName | revision-info-plugin/src/main/java/com/mastfrog/maven/plugins/revisioninfo/Utils.java:303-317 | the loop with its `lastCaps` flag computes `ConstantName`: upper-casing every unit and inserting `_` before an upper-case unit at i > 0 whose predecessor is neither upper-case nor `_` |
| Naming.ConstantNameOnlyInsertsUnderscores | revision-info-plugin/src/main/java/com/mastfrog/maven/plugins/revisioninfo/Utils.java:303-317 | with underscores removed, the constant name equals the upper-cased input with underscores removed: the conversion only upper-cases and inserts `_` |
| Naming.ConstantNameExamples | revision-info-plugin/src/test/java/com/mastfrog/maven/plugins/revisioninfo/RevisionInfoMojoTest.java:78-82 | "foo" gives "FOO", "fooBar" gives "FOO_BAR", "fooBarBaz" gives "FOO_BAR_BAZ" |
| Naming.ConstantNameNotIdempotent | revision-info-plugin/src/main/java/com/mastfrog/maven/plugins/revisioninfo/Utils.java:303-317 | "a1b" gives "A1B" but "A1B" gives "A1_B": applying the conversion twice can change the name again |
| Naming.PackageFor | revision-info-plugin/src/main/java/com/mastfrog/maven/plugins/revisioninfo/Utils.java:323-329 | empty when the name has no dot; otherwise the text before the last dot |
| Naming.ClassNameFor | revision-info-plugin/src/main/java/com/mastfrog/maven/plugins/revisioninfo/Utils.java:331-337 | dot-free; the whole name when it has no dot; otherwise package, dot and class name rebuild the name |
| Naming.FqnToSourcePath | revision-info-plugin/src/main/java/com/mastfrog/maven/plugins/revisioninfo/Utils.java:319-321 | every dot becomes the file separator, other units are kept, and `.java` is appended |
| Naming.SourcePathFields | revision-info-plugin/src/main/java/com/mastfrog/maven/plugins/revisioninfo/Utils.java:319-321 | the separator-delimited fields of the source path are the dot-delimited fields of the name, with `.java` added to the last |
| PropertiesWriter.HexDigit | revision-info-plugin/src/main/java/com/mastfrog/maven/plugins/revisioninfo/Utils.java:189-192 | digit n of the HEX table is a printable upper-case hex digit whose value is n |
| PropertiesWriter.ConvertPrintable | revision-info-plugin/src/main/java/com/mastfrog/maven/plugins/revisioninfo/Utils.java:225-282 | every unit that `convert` produces lies in 0x20..0x7E |
| PropertiesWriter.ConvertAppend | revision-info-plugin/src/main/java/com/mastfrog/maven/plugins/revisioninfo/Utils.java:225-270 | `convert` works unit by unit: the conversion of a concatenation is the concatenation of the conversions |
| PropertiesWriter.ConvertFirstUnit | revision-info-plugin/src/main/java/com/mastfrog/maven/plugins/revisioninfo/Utils.java:231-266 | converted non-empty text never starts with `#`, `!`, a tab or a form feed, and, for keys, never with a space |
| PropertiesWriter.PropertyLinesAt | revision-info-plugin/src/main/java/com/mastfrog/maven/plugins/revisioninfo/Utils.java:207-221 | after the optional comment line, line i is `esc(key)=esc(value)` for the i-th key in ascending order |
| PropertiesWriter.PropertyLinesComment | revision-info-plugin/src/main/java/com/mastfrog/maven/plugins/revisioninfo/Utils.java:210-212 | with a comment, the first line is `# ` followed by the comment |
| PropertiesWriter.OnlyCommentLineIsComment | revision-info-plugin/src/main/java/com/mastfrog/maven/plugins/revisioninfo/Utils.java:213-221 | no entry line is empty or starts with `#` or `!`, so only the comment line reads back as a comment |
| PropertiesWriter.Latin1EncodeFrom | revision-info-plugin/src/main/java/com/mastfrog/maven/plugins/revisioninfo/Utils.java:222 | every byte of the ISO-8859-1 encoding is `?` or a unit of the text |
| PropertiesWriter.Latin1EncodeIdentity | revision-info-plugin/src/main/java/com/mastfrog/maven/plugins/revisioninfo/Utils.java:222 | the ISO-8859-1 encoding of text whose units are all at most 0xFF is the text itself |
| PropertiesWriter.Latin1EncodeExamples | revision-info-plugin/src/main/java/com/mastfrog/maven/plugins/revisioninfo/Utils.java:222 | an unmappable unit becomes `?`, and a surrogate pair becomes a single `?` |
| PropertiesWriter.PrintLines | revision-info-plugin/src/main/java/com/mastfrog/maven/plugins/revisioninfo/Utils.java:288-301 | the output is each line's bytes followed by one LF, and the returned count is the number of lines |
| PropertiesWriter.PrintedFields | revision-info-plugin/src/main/java/com/mastfrog/maven/plugins/revisioninfo/Utils.java:288-301 | when no encoded line contains LF, cutting the output at LF gives back the encoded lines plus one final empty field |
| PropertiesRoundTrip.EscapeUnitShape | revision-info-plugin/src/main/java/com/mastfrog/maven/plugins/revisioninfo/Utils.java:229-267 | each unit is written as itself (never a backslash, `=`, `:`, tab or form feed, nor a space in keys), as a backslash pair that unescapes to it, or as `\uXXXX` |
| PropertiesRoundTrip.UnescapeConvert | revision-info-plugin/src/main/java/com/mastfrog/maven/plugins/revisioninfo/Utils.java:225-282 | the unescaping of `java.util.Properties` recovers every text from its `convert` output, in both space modes |
| PropertiesRoundTrip.LoadEntryLine | revision-info-plugin/src/main/java/com/mastfrog/maven/plugins/revisioninfo/Utils.java:213-221 | reading one `esc(key)=esc(value)` line adds the key with its value minus leading spaces |
| PropertiesRoundTrip.LoadCommentLine | revision-info-plugin/src/main/java/com/mastfrog/maven/plugins/revisioninfo/Utils.java:210-212 | the `# comment` line reads back as nothing |
| PropertiesRoundTrip.PropertyLineUnbroken | revision-info-plugin/src/main/java/com/mastfrog/maven/plugins/revisioninfo/Utils.java:213-221 | when the comment has no line break, no written line contains LF or CR |
| PropertiesRoundTrip.SavedNaturalLines | revision-info-plugin/src/main/java/com/mastfrog/maven/plugins/revisioninfo/Utils.java:204-223 | the saved file consists of the encoded lines, each ended by exactly one LF |
| PropertiesRoundTrip.SaveThenLoad | revision-info-plugin/src/main/java/com/mastfrog/maven/plugins/revisioninfo/Utils.java:204-223 | reading the saved file back gives every key, each with its value minus leading spaces |
| PropertiesRoundTrip.SaveThenLoadLossless | revision-info-plugin/src/main/java/com/mastfrog/maven/plugins/revisioninfo/Utils.java:204-223 | when no value starts with a space, reading the saved file back gives exactly the saved map |
| PropertiesRoundTrip.LeadingSpaceLost | revision-info-plugin/src/main/java/com/mastfrog/maven/plugins/revisioninfo/Utils.java:240-241 | a value " x" is written with an unescaped space and reads back as "x" |
| JavaTime.JavaDiv | revision-info-plugin/src/main/java/com/mastfrog/maven/plugins/revisioninfo/Utils.java:403 | Java's `/` truncates toward zero: the quotient is bounded by the dividend from below for positive and from above for negative dividends |
| JavaTime.JavaDivNegative | revision-info-plugin/src/main/java/com/mastfrog/maven/plugins/revisioninfo/Utils.java:403 | -1 / 1000 is 0 in Java but -1 in Euclidean division |
| GitOutput.MatchShortHash | revision-info-plugin/src/main/java/com/mastfrog/maven/plugins/revisioninfo/LibInfo.java:36 | a match is a non-empty lower-case hex run at the start, followed by a space and the rest of the line |
| GitOutput.ShortHashOfLine | revision-info-plugin/src/main/java/com/mastfrog/maven/plugins/revisioninfo/LibInfo.java:107-110 | on `hex ␠ rest` the short hash is `hex` |
| GitOutput.MatchLongHash | revision-info-plugin/src/main/java/com/mastfrog/maven/plugins/revisioninfo/LibInfo.java:37 | a long hash is exactly 40 lower-case hex digits |
| GitOutput.MatchDate | revision-info-plugin/src/main/java/com/mastfrog/maven/plugins/revisioninfo/LibInfo.java:38 | the matched date contains no line terminator |
| GitOutput.LongHashOfLine | revision-info-plugin/src/main/java/com/mastfrog/maven/plugins/revisioninfo/LibInfo.java:111-118 | on `hex ␠ hex{40} ␠ rest` the long hash is the 40-digit token and the date is `rest` up to the first line terminator |
| GitOutput.LongPatternsAgree | revision-info-plugin/src/main/java/com/mastfrog/maven/plugins/revisioninfo/LibInfo.java:36-38 | the long-hash pattern matches exactly when the date pattern does, and either implies the short-hash match |
| GitOutput.GitOutputProperties | revision-info-plugin/src/main/java/com/mastfrog/maven/plugins/revisioninfo/LibInfo.java:104-125 | the map holds exactly repoStatus (the given status), shortCommitHash iff its pattern matches, longCommitHash and commitDate together iff theirs do, and commitDateISO iff commitDate is present and parses, each with the matched text or parsed value |
| GitOutput.GitOutputToProperties | revision-info-plugin/src/main/java/com/mastfrog/maven/plugins/revisioninfo/LibInfo.java:126-130 | properties are always returned and errors are left unchanged: the `Could not match` branch cannot be taken |
| GitOutput.PropertyNamesDistinct | revision-info-plugin/src/main/java/com/mastfrog/maven/plugins/revisioninfo/LibInfo.java:40-44 | the five property names are pairwise distinct |
| LibInfo.ExistingDirectories | revision-info-plugin/src/main/java/com/mastfrog/maven/plugins/revisioninfo/LibInfo.java:151-156 | every entry kept from PATH is an existing directory |
| LibInfo.ExistingDirectoriesMembers | revision-info-plugin/src/main/java/com/mastfrog/maven/plugins/revisioninfo/LibInfo.java:151-156 | a path is kept exactly when it is an existing directory named by some PATH entry |
| LibInfo.SystemPath | revision-info-plugin/src/main/java/com/mastfrog/maven/plugins/revisioninfo/LibInfo.java:148-150 | no PATH variable gives an empty system path |
| LibInfo.SystemPathMembers | revision-info-plugin/src/main/java/com/mastfrog/maven/plugins/revisioninfo/LibInfo.java:147-159 | a path is in the system path iff it is an existing directory named by some PATH field |
| LibInfo.DirectoriesAmong | revision-info-plugin/src/main/java/com/mastfrog/maven/plugins/revisioninfo/LibInfo.java:149-156 | the de-duplicated directory list holds exactly the existing directories named by the entries |
| LibInfo.SearchPathMembers | revision-info-plugin/src/main/java/com/mastfrog/maven/plugins/revisioninfo/LibInfo.java:133-141 | the search path is the system path, plus the preferred directories only when given and the system path is non-empty, ordered by first occurrence of preferred then system |
| LibInfo.SearchGitBinary | revision-info-plugin/src/main/java/com/mastfrog/maven/plugins/revisioninfo/LibInfo.java:161-176 | no result iff no directory holds an executable candidate; otherwise the candidate of the first such directory |
| LibInfo.ExeOnlyWithoutGit | revision-info-plugin/src/main/java/com/mastfrog/maven/plugins/revisioninfo/LibInfo.java:164-167 | the candidate is `git.exe` exactly when `git` does not exist |
| LibInfo.NoFallbackFromUnexecutableGit | revision-info-plugin/src/main/java/com/mastfrog/maven/plugins/revisioninfo/LibInfo.java:165-172 | an existing but non-executable `git` disqualifies its directory, with no fallback to `git.exe` |
| LibInfo.FindGitRootFrom | revision-info-plugin/src/main/java/com/mastfrog/maven/plugins/revisioninfo/LibInfo.java:182-188 | the result is the nearest ancestor-or-self holding `.git`, and none exists when no such ancestor does |
| LibInfo.FindGitRoot | revision-info-plugin/src/main/java/com/mastfrog/maven/plugins/revisioninfo/LibInfo.java:178-181 | the lookup fails exactly when the path is not a directory and has no parent |
| LibInfo.RunGitForRepoStatus | revision-info-plugin/src/main/java/com/mastfrog/maven/plugins/revisioninfo/LibInfo.java:206-220 | a nonzero exit gives `unknown` and appends an error; exit 0 gives `dirty` iff stdout is non-empty and `clean` iff it is empty, with errors untouched |
| LibInfo.StatusesDistinct | revision-info-plugin/src/main/java/com/mastfrog/maven/plugins/revisioninfo/LibInfo.java:47-49 | the three status words are pairwise distinct |
| LibInfo.GetInfoOutsideRepository | revision-info-plugin/src/main/java/com/mastfrog/maven/plugins/revisioninfo/LibInfo.java:86-90 | without a `.git` ancestor, no info is returned and errors are unchanged |
| LibInfo.GetInfoWithoutGit | revision-info-plugin/src/main/java/com/mastfrog/maven/plugins/revisioninfo/LibInfo.java:91-95 | without a git binary, no info is returned and `Could not find git binary in` plus the comma-joined search path is appended |
| LibInfo.GetInfoAfterRuns | revision-info-plugin/src/main/java/com/mastfrog/maven/plugins/revisioninfo/LibInfo.java:96-101 | after both runs, info is returned iff log stdout trims to non-empty, and it is the parsed map of that stdout and the status |
| LibInfo.QueryGitKeepsLogError | revision-info-plugin/src/main/java/com/mastfrog/maven/plugins/revisioninfo/LibInfo.java:198-200 | the exit message of a failed log run stays in the errors that come back |
| LibInfo.QueryGitTimeout | revision-info-plugin/src/main/java/com/mastfrog/maven/plugins/revisioninfo/LibInfo.java:222-238 | a timed-out git run makes the query throw |
| Paths.ParsePath | revision-info-plugin/src/main/java/com/mastfrog/maven/plugins/revisioninfo/LibInfo.java:152 | a parsed path is normalised, and it is absolute exactly when the text starts with `/` |
| Paths.ParsePathText | revision-info-plugin/src/main/java/com/mastfrog/maven/plugins/revisioninfo/LibInfo.java:152 | parsing the text of a normalised path gives the path back |
| Paths.ResolveLaws | revision-info-plugin/src/main/java/com/mastfrog/maven/plugins/revisioninfo/RevisionInfoMojo.java:92 | resolving the empty relative path gives the base back, and resolving in two steps equals resolving the already-resolved second path |
| Paths.ResolveName | revision-info-plugin/src/main/java/com/mastfrog/maven/plugins/revisioninfo/LibInfo.java:164 | resolving a plain name appends it as one more name |
| Paths.Parent | revision-info-plugin/src/main/java/com/mastfrog/maven/plugins/revisioninfo/LibInfo.java:187 | there is no parent for the root or a single relative name; otherwise the parent drops the last name |
| Paths.ParentOfResolve | revision-info-plugin/src/main/java/com/mastfrog/maven/plugins/revisioninfo/LibInfo.java:183-187 | the parent of `dir.resolve(name)` is `dir` |
| PackageScan.FileExt | revision-info-plugin/src/main/java/com/mastfrog/maven/plugins/revisioninfo/RevisionInfoMojo.java:112-119 | the extension is the non-empty text after the last dot, and it is absent exactly when there is no dot, the only dot is first, or the name ends with a dot |
| PackageScan.FileExtOf | revision-info-plugin/src/main/java/com/mastfrog/maven/plugins/revisioninfo/RevisionInfoMojo.java:112-119 | `base.ext` with non-empty `base` and dot-free non-empty `ext` has extension `ext` |
| PackageScan.ScanDirMembers | revision-info-plugin/src/main/java/com/mastfrog/maven/plugins/revisioninfo/RevisionInfoMojo.java:121-140 | the scan collects exactly the directories that directly contain a `.java` or `.groovy` file |
| PackageScan.DotCount | revision-info-plugin/src/main/java/com/mastfrog/maven/plugins/revisioninfo/RevisionInfoMojo.java:142-148 | the loop counts the dots of the text |
| PackageScan.Dots | revision-info-plugin/src/main/java/com/mastfrog/maven/plugins/revisioninfo/RevisionInfoMojo.java:142-148 | the dot count is zero exactly when the text has no dot |
| PackageScan.LeastPackage | revision-info-plugin/src/main/java/com/mastfrog/maven/plugins/revisioninfo/RevisionInfoMojo.java:164-178 | no package iff the set is empty; otherwise a member that no other member beats on (dot count, then length) |
| PackageScan.AllPackages | revision-info-plugin/src/main/java/com/mastfrog/maven/plugins/revisioninfo/RevisionInfoMojo.java:151-163 | the collection fails exactly when some root is an unreadable directory |
| PackageScan.AllPackagesMembers | revision-info-plugin/src/main/java/com/mastfrog/maven/plugins/revisioninfo/RevisionInfoMojo.java:151-163 | a package is collected iff some existing root directory has a source file at the relative directory it names |
| PackageScan.ScanForLeastPackage | revision-info-plugin/src/main/java/com/mastfrog/maven/plugins/revisioninfo/RevisionInfoMojo.java:150-181 | no roots give no package; otherwise the result fails with the collection and is the least collected package |
| PackageScan.SourceAtRootGivesDefaultPackage | revision-info-plugin/src/main/java/com/mastfrog/maven/plugins/revisioninfo/RevisionInfoMojo.java:155-177 | a source file directly in a root makes the empty default package the result |
| PackageScan.DefaultPackageWins | revision-info-plugin/src/main/java/com/mastfrog/maven/plugins/revisioninfo/RevisionInfoMojo.java:164-178 | a tree with `Foo.java` at the root and `a/B.java` chooses the default package |
| OutputPaths.PropertiesOutputFileNames | revision-info-plugin/src/main/java/com/mastfrog/maven/plugins/revisioninfo/RevisionInfoMojo.java:83-86 | the properties file is `outputDirectory/classes/META-INF/<groupId>.<artifactId>.versions.properties` when neither id contains `/` |
| OutputPaths.SourceOutputFileNames | revision-info-plugin/src/main/java/com/mastfrog/maven/plugins/revisioninfo/RevisionInfoMojo.java:88-95 | the source file is the generated-sources directory plus the package names of the class and `<Class>.java`, empty segments dropped |
| OutputPaths.SourceOutputFileOfDefaultPackage | revision-info-plugin/src/main/java/com/mastfrog/maven/plugins/revisioninfo/RevisionInfoMojo.java:88-95 | a class name with a leading dot resolves to an absolute file at the file-system root |
| GeneratedClass.GeneratedClassFqn | revision-info-plugin/src/main/java/com/mastfrog/maven/plugins/revisioninfo/RevisionInfoMojo.java:97-110 | an explicit class other than `none` wins; then the revisionClass property unless absent or `none`; then, with auto, the least package plus `.RevisionInfo`, or the scan's failure; otherwise no class |
| GeneratedClass.DefaultPackageClassAtRoot | revision-info-plugin/src/main/java/com/mastfrog/maven/plugins/revisioninfo/RevisionInfoMojo.java:97-110 | with auto and a source file at a root, the class is `.RevisionInfo` and its source path is the absolute `/RevisionInfo.java` |
| ClassNames.CheckNamePart | revision-info-plugin/src/main/java/com/mastfrog/maven/plugins/revisioninfo/RevisionInfoMojo.java:247-265 | no error iff the part is a valid identifier; otherwise the error names the first bad unit: a non-start unit at index 0 or a non-part unit at the first failing index |
| ClassNames.CheckGenClass | revision-info-plugin/src/main/java/com/mastfrog/maven/plugins/revisioninfo/RevisionInfoMojo.java:241-246 | no error iff every segment of `split('.')` is valid; otherwise the error is `checkNamePart`'s for the first invalid segment: its first illegal unit, with every unit before it legal |
| ClassNames.EmptySegmentAccepted | revision-info-plugin/src/main/java/com/mastfrog/maven/plugins/revisioninfo/RevisionInfoMojo.java:241-246 | `a..B` is accepted because its empty segment has no unit to reject |
| ClassNames.TrailingDotAccepted | revision-info-plugin/src/main/java/com/mastfrog/maven/plugins/revisioninfo/RevisionInfoMojo.java:241-246 | `a.` is accepted because `split` drops the trailing empty field |
| ClassNames.LeadingDigitRejected | revision-info-plugin/src/main/java/com/mastfrog/maven/plugins/revisioninfo/RevisionInfoMojo.java:251-256 | `1a` is rejected because a digit cannot start an identifier |
| SourceGenerator.CommitTimestamp | revision-info-plugin/src/main/java/com/mastfrog/maven/plugins/revisioninfo/Utils.java:341-367 | the instant is commitDateISO via `Instant.parse`; else the git-format commitDate; else commitDate via `Instant.parse`; else 0. A non-zero instant always comes from one of the two date keys |
| SourceGenerator.OwnKeys | revision-info-plugin/src/main/java/com/mastfrog/maven/plugins/revisioninfo/Utils.java:381-391 | the keys that become constants are exactly the property keys other than commitDateISO |
| SourceGenerator.SourceOpening | revision-info-plugin/src/main/java/com/mastfrog/maven/plugins/revisioninfo/Utils.java:369-379 | the source starts with `package <text before last dot>;` and declares `[public ]final class <text after last dot> {` |
| SourceGenerator.ConstantsInKeyOrder | revision-info-plugin/src/main/java/com/mastfrog/maven/plugins/revisioninfo/Utils.java:381-401 | for keys i < j in ascending order, both declarations and both static-block assignments occur in the source, key i's before key j's |
| SourceGenerator.EveryKeyBecomesConstant | revision-info-plugin/src/test/java/com/mastfrog/maven/plugins/revisioninfo/RevisionInfoMojoTest.java:64-72 | every key other than commitDateISO appears as `public static final String NAME;` and as its assignment in the source |
| SourceGenerator.ClassFieldsParts | revision-info-plugin/src/main/java/com/mastfrog/maven/plugins/revisioninfo/Utils.java:381-451 | the fields are the property constants followed by the fixed constants |
| SourceGenerator.TimestampConstant | revision-info-plugin/src/main/java/com/mastfrog/maven/plugins/revisioninfo/Utils.java:402-409 | COMMIT_TIMESTAMP is initialised from the commit instant divided by 1000 with truncation, and from 0 when neither date key is present |
| SourceGenerator.FixedVersionField | revision-info-plugin/src/main/java/com/mastfrog/maven/plugins/revisioninfo/Utils.java:425-432 | the fixed constants include VERSION exactly when no property constant is named VERSION |
| SourceGenerator.VersionWrittenOnce | revision-info-plugin/src/main/java/com/mastfrog/maven/plugins/revisioninfo/Utils.java:385-432 | a fixed VERSION constant is emitted iff no key converts to the constant name VERSION |
| SourceGenerator.RevisionConstant | revision-info-plugin/src/main/java/com/mastfrog/maven/plugins/revisioninfo/Utils.java:434-444 | REVISION is `g:a:v;<longCommitHash or ?>-<repoStatus or null>` |
| SourceGenerator.CleanRepoConstant | revision-info-plugin/src/main/java/com/mastfrog/maven/plugins/revisioninfo/Utils.java:446-451 | CLEAN_REPO is a boolean that is `true` iff repoStatus is `clean` |
| SourceGenerator.TimestampOfGitLog | revision-info-plugin/src/main/java/com/mastfrog/maven/plugins/revisioninfo/Utils.java:341-348 | for a log whose date parses and whose ISO form parses back, the timestamp is the commit instant |
| RevisionMojo.WriteFile | revision-info-plugin/src/main/java/com/mastfrog/maven/plugins/revisioninfo/RevisionInfoMojo.java:221-222 | opening with CREATE and WRITE and no truncation: the new bytes form a prefix of the file, a longer old tail survives, and every other file is unchanged |
| RevisionMojo.TouchKeeps | revision-info-plugin/src/main/java/com/mastfrog/maven/plugins/revisioninfo/RevisionInfoMojo.java:221 | writing nothing creates an empty file, or leaves an existing one unchanged |
| RevisionMojo.Precheck | revision-info-plugin/src/main/java/com/mastfrog/maven/plugins/revisioninfo/RevisionInfoMojo.java:192-201 | no failure iff the explicit class is valid (or absent or `none`) and the encoding is known; a bad class name is reported first |
| RevisionMojo.ExecuteIgnoresPom | revision-info-plugin/src/main/java/com/mastfrog/maven/plugins/revisioninfo/RevisionInfoMojo.java:185-189 | a `pom` project is ignored |
| RevisionMojo.ExecuteChecksFirst | revision-info-plugin/src/main/java/com/mastfrog/maven/plugins/revisioninfo/RevisionInfoMojo.java:191-202 | a bad class name or unknown encoding fails with `Error creating file: `, before any git query and with no file written |
| RevisionMojo.ExecuteAfterChecks | revision-info-plugin/src/main/java/com/mastfrog/maven/plugins/revisioninfo/RevisionInfoMojo.java:203 | once the checks pass, the outcome depends on the git info for the output directory with empty errors |
| RevisionMojo.GitThrowsFails | revision-info-plugin/src/main/java/com/mastfrog/maven/plugins/revisioninfo/RevisionInfoMojo.java:236-238 | a git failure fails the run with `Error creating file: ` plus the accumulated errors, and no file written |
| RevisionMojo.NoInfoWithErrorsWarns | revision-info-plugin/src/main/java/com/mastfrog/maven/plugins/revisioninfo/RevisionInfoMojo.java:204-207 | no info with errors only warns |
| RevisionMojo.NoInfoWithoutErrorsFails | revision-info-plugin/src/main/java/com/mastfrog/maven/plugins/revisioninfo/RevisionInfoMojo.java:208-222 | no info without errors always fails with `Error creating file: `; if the properties file can be opened, a missing one is created empty and an existing one is left unchanged; if it cannot, nothing is written |
| RevisionMojo.InfoWritesProperties | revision-info-plugin/src/main/java/com/mastfrog/maven/plugins/revisioninfo/RevisionInfoMojo.java:218-237 | with info, the saved properties are written first; an unwritable properties file fails the run with nothing written, and a path that cannot be relativized against the base directory for the log fails it after the write; past those, a failed package scan fails the run and no generated class completes it |
| RevisionMojo.InfoWritesSource | revision-info-plugin/src/main/java/com/mastfrog/maven/plugins/revisioninfo/RevisionInfoMojo.java:225-237 | with a generated class, a source path that cannot be relativized for the log, or an unwritable source file, fails the run with only the properties file written; otherwise the source encoded in the chosen charset (UTF-8 by default) is written at the source path, and no file other than the properties file and the source file changes |
| RevisionMojo.GeneratedCommentOneLine | revision-info-plugin/src/main/java/com/mastfrog/maven/plugins/revisioninfo/RevisionInfoMojo.java:222 | the generated comment contains no line break |
| RevisionMojo.InfoWritesLoadable | revision-info-plugin/src/main/java/com/mastfrog/maven/plugins/revisioninfo/RevisionInfoMojo.java:218-224 | the properties file exists afterwards iff it could be written, and then a freshly written one reads back as the git properties, each value minus leading spaces, whatever fails later |
| RevisionMojo.DefaultPackageSourceUnwritable | revision-info-plugin/src/main/java/com/mastfrog/maven/plugins/revisioninfo/RevisionInfoMojo.java:225-237 | a source file at the source root makes the class `.RevisionInfo`, written to `/RevisionInfo.java`; when that file cannot be written the run fails with `Error creating file: ` and the properties file already written |
| RevisionMojo.RelativeOutputDirectoryFails | revision-info-plugin/src/main/java/com/mastfrog/maven/plugins/revisioninfo/RevisionInfoMojo.java:218-224 | a relative output directory under an absolute base directory fails the run when the properties path is logged, after the properties file has been written |
| AutoModule.RunSplit | automodule-inject/src/main/java/com/mastfrog/automodule/inject/AutomoduleInjectMojo.java:130 | the text splits into separator-free pieces between non-empty separator runs; only the first and last piece can be empty |
| AutoModule.RunSplitRestores | automodule-inject/src/main/java/com/mastfrog/automodule/inject/AutomoduleInjectMojo.java:130 | interleaving the pieces with the separator runs restores the text |
| AutoModule.RegexSplit | automodule-inject/src/main/java/com/mastfrog/automodule/inject/AutomoduleInjectMojo.java:130 | `split("[\\._-]+")` gives separator-free pieces, and the whole text when it has no separator |
| AutoModule.Convert | automodule-inject/src/main/java/com/mastfrog/automodule/inject/AutomoduleInjectMojo.java:144-162 | the result keeps units of the input and is never longer |
| AutoModule.ConvertUnchangedIff | automodule-inject/src/main/java/com/mastfrog/automodule/inject/AutomoduleInjectMojo.java:144-162 | `convert` returns its input exactly when it is a valid identifier, and something shorter otherwise |
| AutoModule.ConvertExamples | automodule-inject/src/main/java/com/mastfrog/automodule/inject/AutomoduleInjectMojo.java:144-162 | "1a" gives "a" and "12" gives "2" |
| AutoModule.ConvertNotIdempotent | automodule-inject/src/main/java/com/mastfrog/automodule/inject/AutomoduleInjectMojo.java:144-162 | "12" converts to the invalid identifier "2", which converts to nothing |
| AutoModule.Segments | automodule-inject/src/main/java/com/mastfrog/automodule/inject/AutomoduleInjectMojo.java:129-142 | the kept segments are non-empty and separator-free |
| AutoModule.SplitAndConvertFields | automodule-inject/src/main/java/com/mastfrog/automodule/inject/AutomoduleInjectMojo.java:129-142 | the result has no empty segment, no leading or trailing dot, no `_` or `-`, and its dot-fields are the kept segments |
| AutoModule.SplitAndConvertValid | automodule-inject/src/main/java/com/mastfrog/automodule/inject/AutomoduleInjectMojo.java:129-142 | when every split piece is already an identifier, the result is the non-empty pieces joined by dots |
| AutoModule.SplitAndConvertReplaceDash | automodule-inject/src/main/java/com/mastfrog/automodule/inject/AutomoduleInjectMojo.java:114 | replacing `-` with `.` first does not change the converted name |
| AutoModule.ArtifactPart | automodule-inject/src/main/java/com/mastfrog/automodule/inject/AutomoduleInjectMojo.java:108-113 | for com.mastfrog and an artifact starting with `util-`, other than util-function, the prefix is dropped; otherwise the artifact is kept |
| AutoModule.UtilLibraries | automodule-inject/src/main/java/com/mastfrog/automodule/inject/AutomoduleInjectMojo.java:109-113 | com.mastfrog `util-<rest>` gives `<rest>`, and util-function stays |
| AutoModule.AutoModuleNameFields | automodule-inject/src/main/java/com/mastfrog/automodule/inject/AutomoduleInjectMojo.java:114-115 | without affixes, and when both ids keep a segment, the dot-fields of the name are the group's segments followed by the artifact's segments |
| AutoModule.AutoModuleNameAffixes | automodule-inject/src/main/java/com/mastfrog/automodule/inject/AutomoduleInjectMojo.java:116-121 | the prefix is prepended and the suffix appended |
| AutoModule.EmptyGroupLeadingDot | automodule-inject/src/main/java/com/mastfrog/automodule/inject/AutomoduleInjectMojo.java:115 | a group id with no identifier unit yields a name that starts with a dot |
| AutoModule.ModuleInfoFile | automodule-inject/src/main/java/com/mastfrog/automodule/inject/AutomoduleInjectMojo.java:98-99 | the checked file is `basedir/src/main/java/module-info.java` |
| AutoModule.Execute | automodule-inject/src/main/java/com/mastfrog/automodule/inject/AutomoduleInjectMojo.java:96-105 | the property is set to the automatic module name iff skip is off, the packaging is not `pom` and module-info.java is absent; other properties are unchanged |
| Collections.Join | revision-info-plugin/src/main/java/com/mastfrog/maven/plugins/revisioninfo/Utils.java:108-118 | the delimiter-joined text; its meaning is carried by JoinFields and FieldsJoin (splitting a join gives the parts back), SplitJoin and JoinSplit, and JoinPrepend |
| Collections.Dedup | revision-info-plugin/src/main/java/com/mastfrog/maven/plugins/revisioninfo/Utils.java:82-91 | keeps exactly the members of the input, each once, in order of first occurrence (its own ensures with DedupOrder and DedupDistinct) |
| Naming.ConstantName | revision-info-plugin/src/main/java/com/mastfrog/maven/plugins/revisioninfo/Utils.java:303-317 | `bicapitalizedToConstantName`; meaning carried by BicapitalizedToConstantName (upper-cased, no new letters), ConstantNameOnlyInsertsUnderscores, ConstantNameExamples and ConstantNameNotIdempotent |
| PropertiesWriter.EscapeUnit | revision-info-plugin/src/main/java/com/mastfrog/maven/plugins/revisioninfo/Utils.java:225-282 | the escape written for one unit; meaning carried by EscapeUnitShape (which escape each unit class gets), ConvertPrintable and UnescapeConvert (`load` reads it back as the unit) |
| PropertiesWriter.Convert | revision-info-plugin/src/main/java/com/mastfrog/maven/plugins/revisioninfo/Utils.java:225-270 | `convert`; its ensures bound the length, and ConvertPrintable, ConvertAppend, ConvertFirstUnit and UnescapeConvert carry printable output, unit-by-unit escaping and the round trip |
| PropertiesWriter.SavePropertiesFile | revision-info-plugin/src/main/java/com/mastfrog/maven/plugins/revisioninfo/Utils.java:204-223 | `savePropertiesFile` in ISO-8859-1; meaning carried by PropertyLinesAt and PropertyLinesComment (line layout), SavedNaturalLines, SaveThenLoad and SaveThenLoadLossless (loading the file gives the map back) |
| PropertiesReader.Load | revision-info-plugin/src/test/java/com/mastfrog/maven/plugins/revisioninfo/RevisionInfoMojoTest.java:51-52 | `Properties.load` on the written file; meaning carried by LoadEntryLine and LoadCommentLine (what one written line adds) and SaveThenLoad |
| PackageScan.ScanDir | revision-info-plugin/src/main/java/com/mastfrog/maven/plugins/revisioninfo/RevisionInfoMojo.java:121-140 | `scan`; meaning carried by ScanDirMembers: a relative path is found iff it names a readable directory under the root that directly holds a `.java` or `.groovy` file |
| LibInfo.GetInfo | revision-info-plugin/src/main/java/com/mastfrog/maven/plugins/revisioninfo/LibInfo.java:86-102 | `getInfo`; meaning carried by GetInfoOutsideRepository, GetInfoWithoutGit, GetInfoAfterRuns and QueryGitKeepsLogError |
| SourceGenerator.JavaSource | revision-info-plugin/src/main/java/com/mastfrog/maven/plugins/revisioninfo/Utils.java:369-461 | `javaSourceFromProperties`; meaning carried by SourceOpening, ConstantsInKeyOrder, EveryKeyBecomesConstant, TimestampConstant, FixedVersionField, VersionWrittenOnce, RevisionConstant and CleanRepoConstant |
| RevisionMojo.Execute | revision-info-plugin/src/main/java/com/mastfrog/maven/plugins/revisioninfo/RevisionInfoMojo.java:184-239 | `execute()`; meaning carried by ExecuteIgnoresPom, ExecuteChecksFirst, ExecuteAfterChecks, GitThrowsFails, NoInfoWithErrorsWarns, NoInfoWithoutErrorsFails, InfoWritesProperties, InfoWritesSource, InfoWritesLoadable, DefaultPackageSourceUnwritable and RelativeOutputDirectoryFails |
| AutoModule.SplitAndConvert | automodule-inject/src/main/java/com/mastfrog/automodule/inject/AutomoduleInjectMojo.java:129-142 | `splitAndConvert`; meaning carried by SplitAndConvertFields (the dot-fields are the converted non-empty segments), SplitAndConvertValid and SplitAndConvertReplaceDash |
| AutoModule.AutoModuleName | automodule-inject/src/main/java/com/mastfrog/automodule/inject/AutomoduleInjectMojo.java:107-127 | `autoModuleName`; meaning carried by AutoModuleNameFields, AutoModuleNameAffixes and EmptyGroupLeadingDot |

## Left out

- Process spawning, the 10 ms polling loop and the 30 second wall-clock timeout (`waitForProcess`): a git run is an input value that has either exited or timed out.
- `readString`, `copy` and `nullOutputStream`: stream plumbing. Process output arrives already decoded, and the status run's byte count is the length of its stdout.
- The `java.time` formatters (`GIT_LOG_FORMAT`, `ISO_INSTANT`, `fromGitLogFormat`, `toIsoFormat`, `Instant.parse`): these are partial functions supplied in `TimeFormats`, because calendar arithmetic is out of scope.
- The Unicode tables behind `Character.isUpperCase`, `toUpperCase`, `isJavaIdentifierStart` and `isJavaIdentifierPart`: these are a `CharTable` parameter. The concrete examples use an ASCII table.
- `Charset.forName` and `String.getBytes(encoding)` for the source file: the host's charset check and encoder are parameters. Only the ISO-8859-1 encoding of the properties file is written out.
- The real file system: `Files.exists`, `Files.list`, `Files.isDirectory` and `canExecute` read an abstract file-system map or directory tree. Symbolic links and paths containing NUL are not modelled.
- `mkdirs` and `Files.createDirectories`: the output files are a map from path to bytes with no directory entries.
- The Java regular-expression engine: the three fixed patterns are hand-written matchers, including the meaning of `.` and `$` around line terminators.
- Maven plumbing, the text of `getLog()` messages, the `verbose` output of automodule-inject, `LibInfo.main`, `LibInfo.writeInfoTo` and `ThrowingConsumer`: none of them influence the outcome. The one way logging does influence it, the `relativize` in the two `info` calls, is modelled (`CanRelativize`).
- Failed writes: `Files.createDirectories`, `Files.newOutputStream` and `write` are one `canWrite` predicate of the host per output file. A file that cannot be written is left as it was, so a write that fails part-way through is not modelled.
- `project.getBasedir()` is taken to be set, as Maven sets it for every project read from a pom. A missing base directory would throw a `NullPointerException` in the log call.
- Whether the generated Java compiles: values are spliced into string literals without escaping, and distinct keys can produce the same constant name. The model states where each constant appears and what it holds.
- `generatedClassFqn` is called twice by `execute`, once directly and once inside `sourceOutputFile`. It depends only on configuration and the source tree, so the model computes it once.
- The Windows separators: the host is Unix, with `/` between names and `:` between PATH entries. The `git.exe` fallback of the lookup is still modelled.
- Line continuations in `Properties.load` (a line ending in an odd number of backslashes): the reader does not model them, because the writer never emits one.
- PackageScan.LeastPackage: states only that the result is minimal by (dot count, length). Among equally shallow packages the model picks the `compareTo`-smallest (`FirstLeast` over `SortedKeys`), while the code takes whichever its `HashSet` yields first (RevisionInfoMojo.java:164-178); the code promises nothing about ties, so neither does the contract.
- PackageScan.AllPackages: an unreadable root directory fails the scan, as the uncaught `IOException` does. An unreadable nested directory is skipped, as the logged and swallowed exception does.
- PropertiesRoundTrip.SaveThenLoad: requires a comment without LF or CR. A line break in the comment would start an uncommented line, and the mojo's only comment has none (`RevisionMojo.GeneratedCommentOneLine`).
- RevisionMojo.InfoWritesLoadable: requires that no properties file existed before. Because the write does not truncate, an older and longer file keeps its tail, which `RevisionMojo.WriteFile` states.
- AutoModule.AutoModuleNameFields: requires both ids to keep at least one segment. An empty side yields a leading or trailing dot, which `AutoModule.EmptyGroupLeadingDot` shows.
