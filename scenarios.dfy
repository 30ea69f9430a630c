/** Worked scenarios in the shape of the converter's unit tests, on short paths and names. One
    change set of two files is used throughout: "/hz/s/A", which lies on disk under the
    `q-hz` module, and its sibling "/hz/s/T", which does not. Keys are for group `q` on
    branch `hz`. */
module Scenarios {
  import opened Wrappers
  import opened JavaStrings
  import opened LongestSubstring
  import opened Matching
  import opened ComponentKeys
  import opened Converter

  const Group := "q"
  const Branch := "hz"
  const ChangedFile := "/hz/s/A"
  const MissingFile := "/hz/s/T"
  const Files := [CommitFile(Some(ChangedFile)), CommitFile(Some(MissingFile))]
  const ChangedKey := "q:q-hz:hz:s/A"

  /** Flat layout: the aggregator and the module are sibling directories. */
  const FlatRoot := Project(Group, "q-root", "/w/hr")
  const FlatModule := Project(Group, "q-hz", "/w/hz")
  const FlatDisk := {"/w/hz/s/A"}

  /** Tree layout: the aggregator's directory holds the module's. */
  const TreeRoot := Project(Group, "q-root", "/sx")
  const TreeModule := Project(Group, "q-hz", "/sx/hz")
  const TreeDisk := {"/sx/hz/s/A"}

  /** A nested layout where both the aggregator and the module propose the changed file. */
  const NestRoot := Project(Group, "q-root", "/n")
  const NestModule := Project(Group, "q-hz", "/n/hz")
  const NestDisk := {"/n/hz/s/A"}
  /** A module that scores as high as `NestModule` but proposes a file that is not on disk. */
  const StrayModule := Project(Group, "q-hz", "/nx/hz")

  /** A common substring of length `k`, and a character of `basedir` that the path lacks and that
      every window of `k + 1` characters covers, fix the score at `k`. */
  lemma ScoreIs(path: string, basedir: string, p: nat, q: nat, k: nat, mark: nat)
    requires CommonAt(path, basedir, p, q, k)
    requires mark < |basedir| && basedir[mark] !in path
    requires |basedir| <= mark + k + 1 && mark <= k
    ensures Lcs(path, basedir) == k
  {
    LcsAtLeast(path, basedir, p, q, k);
    LcsAtMost(path, basedir, k, mark);
  }

  /** As `ScoreIs`, with two characters the path lacks that between them cover every window of
      `k + 1` characters. */
  lemma ScoreIsTwoMarks(path: string, basedir: string, p: nat, q: nat, k: nat, m1: nat, m2: nat)
    requires CommonAt(path, basedir, p, q, k)
    requires m1 < m2 < |basedir| && basedir[m1] !in path && basedir[m2] !in path
    requires m1 <= k && m2 <= m1 + k + 1 && |basedir| <= m2 + k + 1
    ensures Lcs(path, basedir) == k
  {
    LcsAtLeast(path, basedir, p, q, k);
    LcsSpec(path, basedir);
    var m := Lcs(path, basedir);
    if m > k {
      var p': nat, q': nat :| CommonAt(path, basedir, p', q', m);
      if q' <= m1 {
        CommonAtHasChar(path, basedir, p', q', m, m1);
      } else {
        CommonAtHasChar(path, basedir, p', q', m, m2);
      }
    }
  }

  /** The index of the two-file change set when the changed file has key `key` and its sibling
      none: one entry, and the sibling stored under no key. */
  lemma TwoFileIndex(projects: seq<Project>, disk: set<string>, key: string)
    requires ComponentKey(Some(ChangedFile), projects, Branch, disk) == Some(key)
    requires ComponentKey(Some(MissingFile), projects, Branch, disk).None?
    ensures Index(Branch, projects, disk, Files) == map[key := ChangedFile]
    ensures MissingFile !in Index(Branch, projects, disk, Files).Values
  {
    assert Files[..1][..0] == [];
    assert Files[..1] == [CommitFile(Some(ChangedFile))];
    assert Index(Branch, projects, disk, Files[..1]) == map[key := ChangedFile];
  }

  /** With the aggregator first and rejected, an accepted module owns the path. */
  lemma SecondOwns(path: string, root: Project, owner: Project, disk: set<string>)
    requires !Accepted(path, disk, root) && Accepted(path, disk, owner)
    ensures FindMatch(path, [root, owner], disk) == Some(BestMatch(owner, Candidate(path, owner)))
  {
    assert FirstBestIn(path, [root, owner], disk, 2, 1);
    FindMatchOfFirstBest(path, [root, owner], disk, 1);
  }

  /** The key text of the changed file under the `q-hz` module. */
  lemma ChangedKeyText(path: string)
    requires path == "/s/A"
    ensures Key(Group, "q-hz", Branch, StripSlash(path)) == ChangedKey
  {
    assert StripSlash(path) == "s/A";
  }

  // ---- Flat layout (the unit test's toComponentKeyFlatProject) ----

  /** The flat module scores 3 ("/hz") and proposes "/w/hz/s/A" (on disk) and "/w/hz/s/T" (not). */
  lemma FlatModuleCandidates()
    ensures Score(ChangedFile, FlatModule) == 3
    ensures Candidate(ChangedFile, FlatModule) == "/w/hz/s/A" && Accepted(ChangedFile, FlatDisk, FlatModule)
    ensures !Accepted(MissingFile, FlatDisk, FlatModule)
  {
    ScoreIs(ChangedFile, "/w/hz", 0, 2, 3, 1);
    ScoreIs(MissingFile, "/w/hz", 0, 2, 3, 1);
    assert ChangedFile[3..] == "/s/A" && MissingFile[3..] == "/s/T";
  }

  /** The flat aggregator shares "/h" with the changed paths, off a directory boundary, so it
      proposes "/w/hr/z/s/A"; no file under "/w/hr" is on disk. */
  lemma FlatRootRejects(path: string)
    ensures !Accepted(path, FlatDisk, FlatRoot)
  {
    ScoreIsTwoMarks(ChangedFile, "/w/hr", 0, 2, 2, 1, 4);
    assert ChangedFile[2..] == "z/s/A";
    assert Candidate(ChangedFile, FlatRoot) == "/w/hr/z/s/A";
    assert "/w/hz/s/A"[4] != "/w/hr"[4];
  }

  /** In the flat layout the module owns the changed file. */
  lemma FlatMatchesChanged()
    ensures FindMatch(ChangedFile, [FlatRoot, FlatModule], FlatDisk) == Some(BestMatch(FlatModule, "/w/hz/s/A"))
  {
    FlatModuleCandidates();
    FlatRootRejects(ChangedFile);
    SecondOwns(ChangedFile, FlatRoot, FlatModule, FlatDisk);
  }

  /** Flat layout: the changed file's key is the module's, with the path below the module dir. */
  lemma FlatProjectKey()
    ensures ComponentKey(Some(ChangedFile), [FlatRoot, FlatModule], Branch, FlatDisk) == Some(ChangedKey)
  {
    FlatModuleCandidates();
    FlatMatchesChanged();
    ComponentKeyOfMatch(ChangedFile, [FlatRoot, FlatModule], Branch, FlatDisk, BestMatch(FlatModule, "/w/hz/s/A"));
    ChangedKeyText(ChangedFile[3..]);
  }

  /** Flat layout: the sibling that is not on disk has no owning module and so no key. */
  lemma FlatProjectNoKey()
    ensures ComponentKey(Some(MissingFile), [FlatRoot, FlatModule], Branch, FlatDisk) == None
  {
    var projects := [FlatRoot, FlatModule];
    forall j | 0 <= j < |projects| ensures !Accepted(MissingFile, FlatDisk, projects[j]) {
      if j == 0 {
        FlatRootRejects(MissingFile);
      } else {
        FlatModuleCandidates();
      }
    }
    FindMatchOfNoneAccepted(MissingFile, projects, FlatDisk);
  }

  /** Flat layout: the constructor's index holds the changed file under its key and the sibling
      under none. */
  lemma FlatProjectIndex()
    ensures Index(Branch, [FlatRoot, FlatModule], FlatDisk, Files) == map[ChangedKey := ChangedFile]
    ensures MissingFile !in Index(Branch, [FlatRoot, FlatModule], FlatDisk, Files).Values
  {
    FlatProjectKey();
    FlatProjectNoKey();
    TwoFileIndex([FlatRoot, FlatModule], FlatDisk, ChangedKey);
  }

  // ---- Tree layout (the unit test's toComponentKeyTreeProject) ----

  /** The tree aggregator in "/sx" shares "/s" with the changed paths, off a directory boundary,
      scores 2, and proposes "/sx/z/s/A" and "/sx/z/s/T", neither on disk. */
  lemma TreeRootRejects()
    ensures Score(ChangedFile, TreeRoot) == 2 && Score(MissingFile, TreeRoot) == 2
    ensures !Accepted(ChangedFile, TreeDisk, TreeRoot) && !Accepted(MissingFile, TreeDisk, TreeRoot)
  {
    ScoreIs(ChangedFile, "/sx", 3, 0, 2, 2);
    ScoreIs(MissingFile, "/sx", 3, 0, 2, 2);
    assert ChangedFile[2..] == "z/s/A" && MissingFile[2..] == "z/s/T";
    assert Candidate(ChangedFile, TreeRoot) == "/sx/z/s/A";
    assert Candidate(MissingFile, TreeRoot) == "/sx/z/s/T";
  }

  /** The tree module scores 3 ("/hz"), beating the aggregator's 2, and proposes "/sx/hz/s/A",
      which is on disk. */
  lemma TreeModuleCandidates()
    ensures Score(ChangedFile, TreeModule) == 3
    ensures Candidate(ChangedFile, TreeModule) == "/sx/hz/s/A" && Accepted(ChangedFile, TreeDisk, TreeModule)
  {
    ScoreIs(ChangedFile, "/sx/hz", 0, 3, 3, 2);
    assert ChangedFile[3..] == "/s/A";
  }

  /** For the sibling the tree module proposes "/sx/hz/s/T", which is not on disk. */
  lemma TreeModuleRejectsMissing()
    ensures !Accepted(MissingFile, TreeDisk, TreeModule)
  {
    ScoreIs(MissingFile, "/sx/hz", 0, 3, 3, 2);
    assert MissingFile[3..] == "/s/T";
    assert Candidate(MissingFile, TreeModule) == "/sx/hz/s/T";
  }

  /** In the tree layout the module owns the changed file. */
  lemma TreeMatchesChanged()
    ensures FindMatch(ChangedFile, [TreeRoot, TreeModule], TreeDisk) == Some(BestMatch(TreeModule, "/sx/hz/s/A"))
  {
    TreeRootRejects();
    TreeModuleCandidates();
    SecondOwns(ChangedFile, TreeRoot, TreeModule, TreeDisk);
  }

  /** Tree layout: the changed file's key is the module's, with the path below the module dir. */
  lemma TreeProjectKey()
    ensures ComponentKey(Some(ChangedFile), [TreeRoot, TreeModule], Branch, TreeDisk) == Some(ChangedKey)
  {
    TreeModuleCandidates();
    TreeMatchesChanged();
    ComponentKeyOfMatch(ChangedFile, [TreeRoot, TreeModule], Branch, TreeDisk, BestMatch(TreeModule, "/sx/hz/s/A"));
    ChangedKeyText(ChangedFile[3..]);
  }

  /** Tree layout: the sibling that is not on disk gets no key. */
  lemma TreeProjectNoKey()
    ensures ComponentKey(Some(MissingFile), [TreeRoot, TreeModule], Branch, TreeDisk) == None
  {
    var projects := [TreeRoot, TreeModule];
    TreeRootRejects();
    TreeModuleRejectsMissing();
    assert forall j :: 0 <= j < |projects| ==> !Accepted(MissingFile, TreeDisk, projects[j]);
    FindMatchOfNoneAccepted(MissingFile, projects, TreeDisk);
  }

  /** Tree layout: the constructor's index holds the changed file under its key and the sibling
      under none. */
  lemma TreeProjectIndex()
    ensures Index(Branch, [TreeRoot, TreeModule], TreeDisk, Files) == map[ChangedKey := ChangedFile]
    ensures MissingFile !in Index(Branch, [TreeRoot, TreeModule], TreeDisk, Files).Values
  {
    TreeProjectKey();
    TreeProjectNoKey();
    TwoFileIndex([TreeRoot, TreeModule], TreeDisk, ChangedKey);
  }

  // ---- Selection among accepted modules ----

  /** The aggregator in "/n" scores 1 and proposes "/n/hz/s/A", which is on disk. */
  lemma NestRootCandidate()
    ensures Score(ChangedFile, NestRoot) == 1
    ensures Candidate(ChangedFile, NestRoot) == "/n/hz/s/A" && Accepted(ChangedFile, NestDisk, NestRoot)
  {
    ScoreIs(ChangedFile, "/n", 0, 0, 1, 1);
    assert ChangedFile[1..] == "hz/s/A";
  }

  /** When the aggregator and the module in "/n/hz" both propose the same file on disk, the
      module's score of 3 beats the aggregator's 1: the most specific module owns the file. */
  lemma DeepestMatchWins()
    ensures FindMatch(ChangedFile, [NestRoot, NestModule], NestDisk) == Some(BestMatch(NestModule, "/n/hz/s/A"))
  {
    NestRootCandidate();
    ScoreIs(ChangedFile, "/n/hz", 0, 2, 3, 1);
    assert ChangedFile[3..] == "/s/A";
    assert Candidate(ChangedFile, NestModule) == "/n/hz/s/A";
    assert FirstBestIn(ChangedFile, [NestRoot, NestModule], NestDisk, 2, 1);
    FindMatchOfFirstBest(ChangedFile, [NestRoot, NestModule], NestDisk, 1);
  }

  /** A higher-scoring module whose proposed file is missing does not prevent a lower-scoring one
      from matching: the module in "/nx/hz" scores 3 but proposes "/nx/hz/s/A", which is not on
      disk, so the aggregator in "/n" (score 1) owns the file. */
  lemma FallsBackToLowerScore()
    ensures FindMatch(ChangedFile, [NestRoot, StrayModule], NestDisk) == Some(BestMatch(NestRoot, "/n/hz/s/A"))
  {
    NestRootCandidate();
    ScoreIs(ChangedFile, "/nx/hz", 0, 3, 3, 2);
    assert ChangedFile[3..] == "/s/A";
    assert Candidate(ChangedFile, StrayModule) == "/nx/hz/s/A";
    assert FirstBestIn(ChangedFile, [NestRoot, StrayModule], NestDisk, 2, 0);
    FindMatchOfFirstBest(ChangedFile, [NestRoot, StrayModule], NestDisk, 0);
  }
}
