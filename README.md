# ComponentConverter, modelled in Dafny

`ComponentConverter` is the part of the Sonar pull-request integration Maven plugin that turns the
file names of a GitHub change set into SonarQube component keys. The model works in four steps:

1. It scores every module of the Maven reactor against a changed path. The score is the length
   of the longest common contiguous substring of the path and the module's base directory. It is
   computed with the dynamic-programming table of `longestSubstr`.
2. It resolves the path against each module by dropping `score` characters from the path and
   joining the rest onto the base directory.
3. It keeps the first module with the strictly greatest score among those whose resolved file
   exists (`find`).
4. It builds the key `groupId:artifactId:branch:relativePath` (`toComponentKey`) and stores it in
   a one-to-one map from key to path (the constructor and the accessors).

The modules:

- `Wrappers`: `Option` (Java `null`) and `Result` (a thrown exception).
- `JavaStrings`: the parts of `String.indexOf`, `String.substring` and `new File(parent, child)`
  that the converter relies on.
- `LongestSubstring`: the table maximum `Lcs`, which `LcsSpec` proves is the greatest length of a
  substring common to both strings (`IsLongestCommon`), and the table-filling method
  `LongestSubstr` over an `array2`. The method is proved equal to `Lcs` row by row (`FillRow`), and
  its own contract states `IsLongestCommon` of its result.
- `Matching`: the module record `Project` and the `Find` loop. `Find` is proved equal to a fold
  (`Scan`/`FindMatch`), whose first-argmax meaning is proved in `FindMatchSpec`.
- `ComponentKeys`: the key builder. It has two versions:
  - as written, with the exception line 66 can throw;
  - corrected, with no key instead of the exception.

  The module also has the method `ToComponentKey`.
- `Converter`: the class `ComponentConverter`. It holds two maps, `components` (key to path) and
  `paths` (its inverse), with `Valid()` stating that they are inverses of each other. The
  constructor's loop is tied to the function `Index` over the change set, and the lemmas that
  describe what the index holds are about `Index`.
- `Scenarios`: the two scenarios of the unit test, restated on short paths, and two more:
  - a flat multi-module layout, with the aggregator beside the module (from the test);
  - a tree layout, with the aggregator's directory holding the module's (from the test). In both
    layouts the aggregator's base dir shares a few characters with the changed path away from a
    directory boundary, so the file it proposes does not exist and the module owns the path;
  - a nested layout where the aggregator and the module both propose the existing file, and the
    module's higher score wins;
  - a fallback case where a higher-scoring module's file is missing.

The existence of files is a parameter `existing: set<string>` of absolute, '/'-separated paths.
Base directories are taken as absolute and '/'-separated.

## Model

In the source column, `ComponentConverter.java` is
`maven-plugin/src/main/java/com/contaazul/sonarpullrequestintegration/mojo/ComponentConverter.java`
and `ComponentConverterTest.java` is
`maven-plugin/src/test/java/com/contaazul/sonarpullrequestintegration/mojo/ComponentConverterTest.java`.

| member | source | states |
|---|---|---|
| `JavaStrings.IndexOfFrom` | maven-plugin/src/main/java/com/contaazul/sonarpullrequestintegration/mojo/ComponentConverter.java:66 | the result is the first occurrence of `t` at or after `from`, or -1 when there is none from there on |
| `JavaStrings.IndexOf` | maven-plugin/src/main/java/com/contaazul/sonarpullrequestintegration/mojo/ComponentConverter.java:66 | -1 exactly when `t` does not occur in `s`; otherwise the result is an occurrence and no earlier position is one |
| `JavaStrings.Substring` | maven-plugin/src/main/java/com/contaazul/sonarpullrequestintegration/mojo/ComponentConverter.java:66 | succeeds exactly for `0 <= begin <= |s|`, and `s` is then the first `begin` characters followed by the result; otherwise it is `StringIndexOutOfBounds(begin)` |
| `JavaStrings.Join` | maven-plugin/src/main/java/com/contaazul/sonarpullrequestintegration/mojo/ComponentConverter.java:98 | the parent is a prefix of the result; the result is the parent itself exactly when the child is empty; otherwise one '/' follows the parent and the child without its leading '/' follows that |
| `JavaStrings.JoinSplits` | maven-plugin/src/main/java/com/contaazul/sonarpullrequestintegration/mojo/ComponentConverter.java:98 | a nonempty child is joined as parent, '/', and the child without its leading '/' |
| `JavaStrings.IndexOfPrefix` | maven-plugin/src/main/java/com/contaazul/sonarpullrequestintegration/mojo/ComponentConverter.java:65-66 | a base dir is found at index 0 of a path that starts with it |
| `LongestSubstring.SuffixLen` | maven-plugin/src/main/java/com/contaazul/sonarpullrequestintegration/mojo/ComponentConverter.java:128-134 | a table cell's value is at most its row and column number |
| `LongestSubstring.CommonAtExtend` | maven-plugin/src/main/java/com/contaazul/sonarpullrequestintegration/mojo/ComponentConverter.java:133 | a common substring followed by equal characters is common one character longer |
| `LongestSubstring.SuffixLenIsCommonSuffix` | maven-plugin/src/main/java/com/contaazul/sonarpullrequestintegration/mojo/ComponentConverter.java:128-134 | cell `(i, j)` holds the length of a suffix common to `first[..i]` and `second[..j]` (0 on a mismatch, 1 on a match in row or column 0, the diagonal plus one otherwise) |
| `LongestSubstring.SuffixLenIsMaximal` | maven-plugin/src/main/java/com/contaazul/sonarpullrequestintegration/mojo/ComponentConverter.java:128-134 | that common suffix cannot be extended by one more character, so it is the longest one |
| `LongestSubstring.RowMax` | maven-plugin/src/main/java/com/contaazul/sonarpullrequestintegration/mojo/ComponentConverter.java:135-137 | the maximum over a row prefix bounds every cell in it and never exceeds the row or column number |
| `LongestSubstring.RowMaxAttained` | maven-plugin/src/main/java/com/contaazul/sonarpullrequestintegration/mojo/ComponentConverter.java:135-137 | a nonzero row maximum is the value of a cell of that row |
| `LongestSubstring.GridMax` | maven-plugin/src/main/java/com/contaazul/sonarpullrequestintegration/mojo/ComponentConverter.java:126-140 | the maximum over the first `i` rows bounds every cell in them and never exceeds `i` or `|b|` |
| `LongestSubstring.GridMaxAttained` | maven-plugin/src/main/java/com/contaazul/sonarpullrequestintegration/mojo/ComponentConverter.java:126-140 | a nonzero table maximum is the value of some cell |
| `LongestSubstring.Lcs` | maven-plugin/src/main/java/com/contaazul/sonarpullrequestintegration/mojo/ComponentConverter.java:117-119 | the score is 0 when either string is empty and never exceeds either length, so `path.substring(score)` on line 98 is in range |
| `LongestSubstring.SuffixLenCovers` | maven-plugin/src/main/java/com/contaazul/sonarpullrequestintegration/mojo/ComponentConverter.java:128-134 | a common substring of length `k` leaves a cell of at least `k` where it ends |
| `LongestSubstring.GridMaxIsCommon` | maven-plugin/src/main/java/com/contaazul/sonarpullrequestintegration/mojo/ComponentConverter.java:121-141 | some common substring is as long as the table maximum |
| `LongestSubstring.GridMaxIsUpperBound` | maven-plugin/src/main/java/com/contaazul/sonarpullrequestintegration/mojo/ComponentConverter.java:121-141 | no common substring is longer than the table maximum |
| `LongestSubstring.LcsIsLongest` | maven-plugin/src/main/java/com/contaazul/sonarpullrequestintegration/mojo/ComponentConverter.java:121-141 | the table maximum is the greatest `k` such that a length-`k` substring occurs in both strings |
| `LongestSubstring.LcsSpec` | maven-plugin/src/main/java/com/contaazul/sonarpullrequestintegration/mojo/ComponentConverter.java:116-142 | the score is the longest common substring length |
| `LongestSubstring.LcsAtLeast` | maven-plugin/src/main/java/com/contaazul/sonarpullrequestintegration/mojo/ComponentConverter.java:116-142 | any common substring is a lower bound on the score |
| `LongestSubstring.CommonAtHasChar` | maven-plugin/src/main/java/com/contaazul/sonarpullrequestintegration/mojo/ComponentConverter.java:128 | every character inside an occurrence of a common substring occurs in the other string |
| `LongestSubstring.LcsAtMost` | maven-plugin/src/main/java/com/contaazul/sonarpullrequestintegration/mojo/ComponentConverter.java:116-142 | a character of the second string missing from the first, covered by every window of `k + 1` characters, bounds the score by `k` |
| `LongestSubstring.RunningMax` | maven-plugin/src/main/java/com/contaazul/sonarpullrequestintegration/mojo/ComponentConverter.java:135-137 | the running maximum never exceeds the row number plus one, and after a whole row it is the maximum over all rows so far |
| `LongestSubstring.RunningMaxStep` | maven-plugin/src/main/java/com/contaazul/sonarpullrequestintegration/mojo/ComponentConverter.java:135-137 | one more cell raises the running maximum to that cell's value when it is larger |
| `LongestSubstring.FillRow` | maven-plugin/src/main/java/com/contaazul/sonarpullrequestintegration/mojo/ComponentConverter.java:127-139 | after row `i` the first `i + 1` rows hold their common-suffix lengths, the rest still 0, and `maxLen` is the maximum over those rows |
| `LongestSubstring.LongestSubstr` | maven-plugin/src/main/java/com/contaazul/sonarpullrequestintegration/mojo/ComponentConverter.java:116-142 | returns the longest common substring length, 0 for an empty argument |
| `Matching.Score` | maven-plugin/src/main/java/com/contaazul/sonarpullrequestintegration/mojo/ComponentConverter.java:92 | defines a project's score: `Lcs` of the path and the base dir, whose meaning `LcsSpec` states |
| `Matching.Candidate` | maven-plugin/src/main/java/com/contaazul/sonarpullrequestintegration/mojo/ComponentConverter.java:98 | defines the file a project proposes: the path with its first `score` characters dropped, joined onto the base dir |
| `Matching.Accepted` | maven-plugin/src/main/java/com/contaazul/sonarpullrequestintegration/mojo/ComponentConverter.java:99 | defines acceptance: the proposed file exists |
| `Matching.Step` | maven-plugin/src/main/java/com/contaazul/sonarpullrequestintegration/mojo/ComponentConverter.java:97-105 | defines one iteration of the loop, with no contract of its own; `StepExtends` states what an iteration maintains |
| `Matching.Scan` | maven-plugin/src/main/java/com/contaazul/sonarpullrequestintegration/mojo/ComponentConverter.java:90-106 | defines the loop over the projects as a fold of `Step` in list order; `FindMatch` starts it from `longest = -1` and two nulls |
| `Matching.FindMatch` | maven-plugin/src/main/java/com/contaazul/sonarpullrequestintegration/mojo/ComponentConverter.java:108-113 | defines the return: the matched project and file when the fold found one, null otherwise; `FindMatchSpec` states its meaning |
| `Matching.Find` | maven-plugin/src/main/java/com/contaazul/sonarpullrequestintegration/mojo/ComponentConverter.java:86-114 | the loop returns what the fold over the projects in list order gives |
| `Matching.ScanSingle` | maven-plugin/src/main/java/com/contaazul/sonarpullrequestintegration/mojo/ComponentConverter.java:90-106 | the loop over one project is one iteration |
| `Matching.ScanPrefixStep` | maven-plugin/src/main/java/com/contaazul/sonarpullrequestintegration/mojo/ComponentConverter.java:90-106 | the loop over the first `n` projects is the loop over the first `n - 1` followed by one iteration on project `n - 1` |
| `Matching.ScanAppend` | maven-plugin/src/main/java/com/contaazul/sonarpullrequestintegration/mojo/ComponentConverter.java:90-106 | the loop over a concatenation is the loop over the second part continued from the first |
| `Matching.StepTakes` | maven-plugin/src/main/java/com/contaazul/sonarpullrequestintegration/mojo/ComponentConverter.java:97-104 | a project that is taken is the first-best one so far |
| `Matching.StepPasses` | maven-plugin/src/main/java/com/contaazul/sonarpullrequestintegration/mojo/ComponentConverter.java:97-105 | a project that is passed over leaves the first-best one so far in place |
| `Matching.StepExtends` | maven-plugin/src/main/java/com/contaazul/sonarpullrequestintegration/mojo/ComponentConverter.java:90-106 | each iteration keeps the loop variables describing the first-best accepted project so far, or nulls when none is accepted |
| `Matching.ScanPrefix` | maven-plugin/src/main/java/com/contaazul/sonarpullrequestintegration/mojo/ComponentConverter.java:87-106 | after any number of projects, the loop variables hold that description |
| `Matching.FirstBestUnique` | maven-plugin/src/main/java/com/contaazul/sonarpullrequestintegration/mojo/ComponentConverter.java:97 | there is at most one first-best project |
| `Matching.FindMatchSpec` | maven-plugin/src/main/java/com/contaazul/sonarpullrequestintegration/mojo/ComponentConverter.java:87-113 | null exactly when no project's file exists; otherwise the first project in list order with the strictly greatest score among those whose file exists, with its file |
| `Matching.FindMatchOfFirstBest` | maven-plugin/src/main/java/com/contaazul/sonarpullrequestintegration/mojo/ComponentConverter.java:108-111 | the first-best project and its file are what `find` returns |
| `Matching.FindMatchOfNoneAccepted` | maven-plugin/src/main/java/com/contaazul/sonarpullrequestintegration/mojo/ComponentConverter.java:108-113 | with no project's file on disk `find` returns null |
| `Matching.MissingCandidateIgnored` | maven-plugin/src/main/java/com/contaazul/sonarpullrequestintegration/mojo/ComponentConverter.java:97-104 | inserting a project whose file is missing anywhere in the list does not change the result, so a high-scoring module with a missing file never blocks a lower-scoring one |
| `ComponentKeys.Key` | maven-plugin/src/main/java/com/contaazul/sonarpullrequestintegration/mojo/ComponentConverter.java:67 | defines the key text `groupId:artifactId:branch:relativePath`; `KeyInjective` states that it determines its fields |
| `ComponentKeys.FirstColon` | maven-plugin/src/main/java/com/contaazul/sonarpullrequestintegration/mojo/ComponentConverter.java:67 | after a colon-free field, the first ':' is the separator |
| `ComponentKeys.SplitAtColon` | maven-plugin/src/main/java/com/contaazul/sonarpullrequestintegration/mojo/ComponentConverter.java:67 | equal strings with colon-free heads split the same way at the first ':' |
| `ComponentKeys.KeyInjective` | maven-plugin/src/main/java/com/contaazul/sonarpullrequestintegration/mojo/ComponentConverter.java:67 | with colon-free group, artifact and branch, a key determines all four of its fields |
| `ComponentKeys.BuildKeyAsWritten` | maven-plugin/src/main/java/com/contaazul/sonarpullrequestintegration/mojo/ComponentConverter.java:61-67 | defines the key builder as written, including the `StringIndexOutOfBounds` line 66 throws; `BuildKeyOnJoin` states when it throws |
| `ComponentKeys.BuildKeyOnJoin` | maven-plugin/src/main/java/com/contaazul/sonarpullrequestintegration/mojo/ComponentConverter.java:61-67 | for a file joined onto the base dir, the key builder throws exactly when the joined remainder is empty (index `|file| + 1`); otherwise the file is base dir, '/', relative path, and the key is `group:artifact:branch:relativePath` |
| `ComponentKeys.ComponentKey` | maven-plugin/src/main/java/com/contaazul/sonarpullrequestintegration/mojo/ComponentConverter.java:47-59 | no key for a null path and none when `find` returns null |
| `ComponentKeys.MatchIsCandidate` | maven-plugin/src/main/java/com/contaazul/sonarpullrequestintegration/mojo/ComponentConverter.java:97-101 | the matched file is the matched project's resolved file, and it exists |
| `ComponentKeys.ComponentKeySpec` | maven-plugin/src/main/java/com/contaazul/sonarpullrequestintegration/mojo/ComponentConverter.java:47-73 | a key exists exactly for a non-null path whose match leaves a nonempty remainder; it then is `group:artifact:branch:r`, with the existing matched file equal to base dir, '/', `r` |
| `ComponentKeys.ComponentKeyOfMatch` | maven-plugin/src/main/java/com/contaazul/sonarpullrequestintegration/mojo/ComponentConverter.java:61-67 | the key of a path with a given match, spelled out |
| `ComponentKeys.ComponentKeyAsWritten` | maven-plugin/src/main/java/com/contaazul/sonarpullrequestintegration/mojo/ComponentConverter.java:47-74 | defines `toComponentKey` as written, the as-written half of the Findings row; `AsWrittenAgrees` and `AsWrittenThrowsOnWholePathMatch` state how it behaves |
| `ComponentKeys.AsWrittenAgrees` | maven-plugin/src/main/java/com/contaazul/sonarpullrequestintegration/mojo/ComponentConverter.java:66 | the code as written throws exactly when the match consumes the whole path, and agrees with the corrected key everywhere else |
| `ComponentKeys.WholePathScore` | maven-plugin/src/main/java/com/contaazul/sonarpullrequestintegration/mojo/ComponentConverter.java:121-141 | a path spelled inside a base dir scores its own length |
| `ComponentKeys.AsWrittenThrowsOnWholePathMatch` | maven-plugin/src/main/java/com/contaazul/sonarpullrequestintegration/mojo/ComponentConverter.java:66 | path "/app" with the module in "/work/app" on disk makes line 66 throw `StringIndexOutOfBounds(10)` |
| `ComponentKeys.ToComponentKey` | maven-plugin/src/main/java/com/contaazul/sonarpullrequestintegration/mojo/ComponentConverter.java:47-74 | returns the corrected key of the path |
| `Converter.InverseSameSize` | maven-plugin/src/main/java/com/contaazul/sonarpullrequestintegration/mojo/ComponentConverter.java:16 | the two halves of a bijective map have equally many entries |
| `Converter.Index` | maven-plugin/src/main/java/com/contaazul/sonarpullrequestintegration/mojo/ComponentConverter.java:25-44 | defines the key map the constructor's loop builds: a `put` of each keyed file in list order; `IndexSound`, `IndexLastWins`, `IndexOnlyKeyedInputs` and `IndexInjective` state what it holds |
| `Converter.IndexSound` | maven-plugin/src/main/java/com/contaazul/sonarpullrequestintegration/mojo/ComponentConverter.java:25-44 | every stored pair is a file name of the input together with that name's key |
| `Converter.IndexLastWins` | maven-plugin/src/main/java/com/contaazul/sonarpullrequestintegration/mojo/ComponentConverter.java:42 | a file with a key that no later file yields is stored under it, so a later `put` of the same key overwrites an earlier one |
| `Converter.IndexOnlyKeyedInputs` | maven-plugin/src/main/java/com/contaazul/sonarpullrequestintegration/mojo/ComponentConverter.java:37-43 | a path not among the inputs, or without a key, is never stored |
| `Converter.IndexInjective` | maven-plugin/src/main/java/com/contaazul/sonarpullrequestintegration/mojo/ComponentConverter.java:42 | no path is stored under two keys |
| `Converter.KeyedCount` | maven-plugin/src/main/java/com/contaazul/sonarpullrequestintegration/mojo/ComponentConverter.java:37-38 | there are at most as many keyed files as changed files |
| `Converter.IndexSize` | maven-plugin/src/main/java/com/contaazul/sonarpullrequestintegration/mojo/ComponentConverter.java:25-44 | the index has at most one entry per changed file with a key |
| `Converter.IndexSizeOfDistinctKeys` | maven-plugin/src/main/java/com/contaazul/sonarpullrequestintegration/mojo/ComponentConverter.java:25-44 | when no two files share a key, the index has exactly one entry per changed file with a key |
| `Converter.KeyNotStored` | maven-plugin/src/main/java/com/contaazul/sonarpullrequestintegration/mojo/ComponentConverter.java:37-43 | a key that no changed file yields is absent |
| `Converter.SetToSeq` | maven-plugin/src/main/java/com/contaazul/sonarpullrequestintegration/mojo/ComponentConverter.java:145-147 | the list has every element of the set once and nothing else |
| `Converter.ComponentConverter.constructor` | maven-plugin/src/main/java/com/contaazul/sonarpullrequestintegration/mojo/ComponentConverter.java:21-45 | the two maps are inverses and the key map is the index of the change set |
| `Converter.ComponentConverter.Put` | maven-plugin/src/main/java/com/contaazul/sonarpullrequestintegration/mojo/ComponentConverter.java:42 | binds the key to the path, drops the key's old path from the inverse, and keeps the maps inverses |
| `Converter.ComponentConverter.GetComponents` | maven-plugin/src/main/java/com/contaazul/sonarpullrequestintegration/mojo/ComponentConverter.java:144-148 | `size()` keys, every stored key once |
| `Converter.ComponentConverter.GetPaths` | maven-plugin/src/main/java/com/contaazul/sonarpullrequestintegration/mojo/ComponentConverter.java:150-152 | `size()` paths, every stored path once, no duplicates |
| `Converter.ComponentConverter.PathToComponent` | maven-plugin/src/main/java/com/contaazul/sonarpullrequestintegration/mojo/ComponentConverter.java:154-156 | null exactly for a path not stored; otherwise a key under which the path is stored, so `componentToPath(pathToComponent(p)) == p` |
| `Converter.ComponentConverter.ComponentToPath` | maven-plugin/src/main/java/com/contaazul/sonarpullrequestintegration/mojo/ComponentConverter.java:162-164 | null exactly for a key not stored; otherwise a stored path with `pathToComponent(componentToPath(k)) == k` |
| `Converter.ComponentConverter.Size` | maven-plugin/src/main/java/com/contaazul/sonarpullrequestintegration/mojo/ComponentConverter.java:158-160 | the number of pairs, the same counted by keys or by paths |
| `Scenarios.ScoreIs` | maven-plugin/src/main/java/com/contaazul/sonarpullrequestintegration/mojo/ComponentConverter.java:116-142 | a common substring of length `k`, with a base-dir character the path lacks in every window of `k + 1` characters, fixes the score at `k` |
| `Scenarios.ScoreIsTwoMarks` | maven-plugin/src/main/java/com/contaazul/sonarpullrequestintegration/mojo/ComponentConverter.java:116-142 | the same with two such characters that between them cover every window of `k + 1` characters |
| `Scenarios.TwoFileIndex` | maven-plugin/src/main/java/com/contaazul/sonarpullrequestintegration/mojo/ComponentConverter.java:25-44 | when the changed file has a key and its sibling none, the constructor stores exactly the changed file under that key |
| `Scenarios.SecondOwns` | maven-plugin/src/main/java/com/contaazul/sonarpullrequestintegration/mojo/ComponentConverter.java:97-113 | when the first project is rejected and the second accepted, the second owns the path |
| `Scenarios.ChangedKeyText` | maven-plugin/src/main/java/com/contaazul/sonarpullrequestintegration/mojo/ComponentConverter.java:67 | the key text of the changed file under the module |
| `Scenarios.FlatModuleCandidates` | maven-plugin/src/test/java/com/contaazul/sonarpullrequestintegration/mojo/ComponentConverterTest.java:28-35 | the flat module scores 3, resolves the changed file to an existing file and the missing sibling to a missing one |
| `Scenarios.FlatRootRejects` | maven-plugin/src/test/java/com/contaazul/sonarpullrequestintegration/mojo/ComponentConverterTest.java:23-27 | no file the flat aggregator proposes exists, because its base dir shares characters with the path off a directory boundary |
| `Scenarios.FlatMatchesChanged` | maven-plugin/src/test/java/com/contaazul/sonarpullrequestintegration/mojo/ComponentConverterTest.java:37-40 | in the flat layout the module owns the changed file |
| `Scenarios.FlatProjectKey` | maven-plugin/src/test/java/com/contaazul/sonarpullrequestintegration/mojo/ComponentConverterTest.java:38-40 | the changed file's key is group, module artifact, branch and the path below the module dir |
| `Scenarios.FlatProjectNoKey` | maven-plugin/src/test/java/com/contaazul/sonarpullrequestintegration/mojo/ComponentConverterTest.java:44-46 | the sibling not on disk gets no key |
| `Scenarios.FlatProjectIndex` | maven-plugin/src/test/java/com/contaazul/sonarpullrequestintegration/mojo/ComponentConverterTest.java:37-46 | the constructor stores the changed file under its key and the missing sibling under none |
| `Scenarios.TreeRootRejects` | maven-plugin/src/test/java/com/contaazul/sonarpullrequestintegration/mojo/ComponentConverterTest.java:53-57 | the tree aggregator scores 2 on both files, sharing characters with the path off a directory boundary, and neither file it proposes exists |
| `Scenarios.TreeModuleCandidates` | maven-plugin/src/test/java/com/contaazul/sonarpullrequestintegration/mojo/ComponentConverterTest.java:58-65 | the tree module scores 3 and resolves the changed file to an existing file |
| `Scenarios.TreeModuleRejectsMissing` | maven-plugin/src/test/java/com/contaazul/sonarpullrequestintegration/mojo/ComponentConverterTest.java:58-65 | the tree module resolves the missing sibling to a missing file |
| `Scenarios.TreeMatchesChanged` | maven-plugin/src/test/java/com/contaazul/sonarpullrequestintegration/mojo/ComponentConverterTest.java:72-75 | in the tree layout the module owns the changed file |
| `Scenarios.TreeProjectKey` | maven-plugin/src/test/java/com/contaazul/sonarpullrequestintegration/mojo/ComponentConverterTest.java:73-78 | the changed file's key is group, module artifact, branch and the path below the module dir |
| `Scenarios.TreeProjectNoKey` | maven-plugin/src/test/java/com/contaazul/sonarpullrequestintegration/mojo/ComponentConverterTest.java:79-81 | the sibling not on disk gets no key |
| `Scenarios.TreeProjectIndex` | maven-plugin/src/test/java/com/contaazul/sonarpullrequestintegration/mojo/ComponentConverterTest.java:70-81 | the constructor stores the changed file under its key and the missing sibling under none |
| `Scenarios.NestRootCandidate` | maven-plugin/src/main/java/com/contaazul/sonarpullrequestintegration/mojo/ComponentConverter.java:92-99 | an aggregator whose base dir is a prefix of the module's scores 1 and proposes the existing file |
| `Scenarios.DeepestMatchWins` | maven-plugin/src/main/java/com/contaazul/sonarpullrequestintegration/mojo/ComponentConverter.java:97-104 | when the aggregator and the module both propose the existing file, the module's higher score wins |
| `Scenarios.FallsBackToLowerScore` | maven-plugin/src/main/java/com/contaazul/sonarpullrequestintegration/mojo/ComponentConverter.java:97-104 | a higher-scoring module whose file is missing leaves the match to the lower-scoring aggregator |

## Left out

- Logging: the `Log` field and every `log.debug` call have no effect on results.
- File system: `File.exists` is the parameter `existing`. `getAbsolutePath` is the identity,
  because base dirs are taken as absolute. The `replace('\\', '/')` of line 92 is the identity,
  because base dirs are taken as '/'-separated.
- `Join` models `new File(parent, child)` only for a parent other than "/". It does not model
  `java.io` path normalisation, such as repeated or trailing separators inside the child.
- `LongestSubstr` has no null arguments: strings are values, and the only caller passes non-null
  strings.
- Java `int` overflow is not modelled: every value computed is bounded by a string length.
- `GetComponents`, `GetPaths`: the order of a `HashBiMap`'s iteration is not modelled. The lists
  are stated to hold each key, or each path, exactly once.
- `Converter.ComponentConverter.Put`: Guava's `IllegalArgumentException` for a path already bound
  to a different key is a precondition. The constructor is proved never to violate it, because a
  path's key is a function of the path.
- The commented-out `.java` filter (lines 30-36) is dead code.
- `MavenProject`, `CommitFile` and `BiMap` are foreign types. They are replaced by the
  `Project` and `CommitFile` datatypes and the two-map class.
- `ComponentKeys.ToComponentKey` and the constructor use the corrected key builder. Where
  line 66 throws (see Findings), they produce no key instead of the exception.
- Nothing is left out of the search's selection rule, which is stated here because it is easy to
  misread: lines 97-104 raise `longest` only for a project whose resolved file exists, so a
  higher-scoring module whose file is missing never hides a lower-scoring one
  (`MissingCandidateIgnored`, `FallsBackToLowerScore`).
- The scenarios use short paths and names, such as "/hz/s/A" under "/sx/hz", instead of the test
  resources' full paths. The test's third, null assertion asks for a path outside the change set;
  the scenarios put a sibling that is not on disk into the change set instead, and show that it is
  stored under no key.
- Characters: Java's `length()`, `charAt` and `substring` (lines 66, 98, 117-128) count UTF-16
  code units, while a Dafny `string` holds Unicode scalar values. The model agrees with Java only
  for paths and base dirs made of Basic Multilingual Plane characters (U+0000 to U+FFFF). Outside
  it, Java's table can match half of a surrogate pair and line 98 can cut a pair in two; the model
  does neither.

## Findings

| source | as written | input that shows it | evidently intended | confidence | as-written member | corrected member |
|---|---|---|---|---|---|---|
| maven-plugin/src/main/java/com/contaazul/sonarpullrequestintegration/mojo/ComponentConverter.java:66 | the key builder takes `fullPath.substring(indexOf(sources) + sources.length() + 1)`; when the best match consumed the whole path, the resolved file is the base dir itself and the index is one past its end, so `substring` throws `StringIndexOutOfBoundsException` out of the constructor | path "/app", one module with base dir "/work/app", file "/work/app" existing: score 4, resolved file "/work/app", `substring(10)` of a 9-character string | such a path gets no key, as an unmatched path does at lines 54-58 | not executed | `ComponentKeys.AsWrittenThrowsOnWholePathMatch` | `ComponentKeys.ComponentKeySpec` |
