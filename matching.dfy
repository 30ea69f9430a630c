/** Choosing the owning build module for a changed path, `ComponentConverter.find`. */
module Matching {
  import opened Wrappers
  import opened JavaStrings
  import opened LongestSubstring

  /** The parts of a `MavenProject` the converter reads; `basedir` is absolute and '/'-separated. */
  datatype Project = Project(groupId: string, artifactId: string, basedir: string)

  /** `ComponentConverter.BestMatch`: the chosen project and the file it resolves the path to. */
  datatype BestMatch = BestMatch(project: Project, file: string)

  /** The loop variables of `find`: `longest`, `bestMatch` and `bestMatchFile`. */
  datatype Search = Search(longest: int, bestMatch: Option<Project>, bestMatchFile: Option<string>)

  /** The values `find` starts from. */
  const Start := Search(-1, None, None)

  /** The similarity score of a project for a path. */
  function Score(path: string, project: Project): nat
  {
    Lcs(path, project.basedir)
  }

  /** `new File(basedir, path.substring(score))`: the file a project proposes for a path. */
  function Candidate(path: string, project: Project): string
  {
    Join(project.basedir, path[Score(path, project)..])
  }

  /** The project's proposed file exists. */
  predicate Accepted(path: string, existing: set<string>, project: Project)
  {
    Candidate(path, project) in existing
  }

  /** One iteration of the loop over the projects; `StepExtends` states what it maintains. */
  function Step(path: string, existing: set<string>, s: Search, project: Project): Search
  {
    var score := Score(path, project);
    if score > s.longest then
      var file := Candidate(path, project);
      if file in existing then Search(score, Some(project), Some(file)) else s
    else s
  }

  /** The loop over `projects`, in list order, from the values `s`. */
  function Scan(path: string, existing: set<string>, s: Search, projects: seq<Project>): Search
    decreases |projects|
  {
    if projects == [] then s
    else Scan(path, existing, Step(path, existing, s, projects[0]), projects[1..])
  }

  /** What `find` returns: the best match after the loop, or null (`None`). */
  function FindMatch(path: string, projects: seq<Project>, existing: set<string>): Option<BestMatch>
  {
    var s := Scan(path, existing, Start, projects);
    if s.bestMatch.Some? && s.bestMatchFile.Some? then Some(BestMatch(s.bestMatch.value, s.bestMatchFile.value))
    else None
  }

  /** `ComponentConverter.find`. */
  method Find(path: string, projects: seq<Project>, existing: set<string>) returns (r: Option<BestMatch>)
    ensures r == FindMatch(path, projects, existing)
  {
    var longest := -1;
    var bestMatch: Option<Project> := None;
    var bestMatchFile: Option<string> := None;
    for k := 0 to |projects|
      invariant Scan(path, existing, Search(longest, bestMatch, bestMatchFile), projects[k..])
             == Scan(path, existing, Start, projects)
    {
      var project := projects[k];
      var baseDir := project.basedir;
      var longestSubstr := LongestSubstr(path, baseDir);
      assert projects[k..][1..] == projects[k + 1..];
      if longestSubstr > longest {
        var file := Join(project.basedir, path[longestSubstr..]);
        if file in existing {
          bestMatchFile := Some(file);
          bestMatch := Some(project);
          longest := longestSubstr;
        }
      }
    }
    assert projects[|projects|..] == [];
    if bestMatch.Some? && bestMatchFile.Some? {
      return Some(BestMatch(bestMatch.value, bestMatchFile.value));
    }
    return None;
  }

  /** Project `k` is accepted, beats every accepted project before it strictly, and is
      not beaten by any accepted project after it, among the first `n` projects. */
  ghost predicate FirstBestIn(path: string, projects: seq<Project>, existing: set<string>, n: nat, k: nat)
    requires n <= |projects|
  {
    && k < n
    && Accepted(path, existing, projects[k])
    && (forall j :: 0 <= j < k && Accepted(path, existing, projects[j]) ==>
          Score(path, projects[j]) < Score(path, projects[k]))
    && (forall j :: k < j < n && Accepted(path, existing, projects[j]) ==>
          Score(path, projects[j]) <= Score(path, projects[k]))
  }

  /** The loop over a concatenation is the loop over the second part, continued from the first. */
  lemma {:induction false} ScanAppend(path: string, existing: set<string>, s: Search, xs: seq<Project>, ys: seq<Project>)
    ensures Scan(path, existing, s, xs + ys) == Scan(path, existing, Scan(path, existing, s, xs), ys)
    decreases |xs|
  {
    if xs == [] {
      assert xs + ys == ys;
    } else {
      assert (xs + ys)[1..] == xs[1..] + ys;
      ScanAppend(path, existing, Step(path, existing, s, xs[0]), xs[1..], ys);
    }
  }

  /** What the loop variables hold after the first `n` projects. */
  ghost predicate SearchAfter(path: string, projects: seq<Project>, existing: set<string>, n: nat, s: Search)
    requires n <= |projects|
  {
    if s.bestMatch.None? then
      s.bestMatchFile.None? && s.longest == -1 &&
      forall j :: 0 <= j < n ==> !Accepted(path, existing, projects[j])
    else
      s.bestMatchFile.Some? &&
      exists k: nat :: FirstBestIn(path, projects, existing, n, k) &&
        s.longest == Score(path, projects[k]) &&
        s.bestMatch == Some(projects[k]) && s.bestMatchFile == Some(Candidate(path, projects[k]))
  }

  /** An iteration that takes the project makes it the first-best one so far. */
  lemma StepTakes(path: string, projects: seq<Project>, existing: set<string>, n: nat, s: Search)
    requires n < |projects| && SearchAfter(path, projects, existing, n, s)
    requires Accepted(path, existing, projects[n]) && s.longest < Score(path, projects[n])
    ensures FirstBestIn(path, projects, existing, n + 1, n)
  {
    if s.bestMatch.Some? {
      var k: nat :| FirstBestIn(path, projects, existing, n, k) && s.longest == Score(path, projects[k]);
    }
  }

  /** An iteration that passes over the project keeps the first-best one so far. */
  lemma StepPasses(path: string, projects: seq<Project>, existing: set<string>, n: nat, s: Search, k: nat)
    requires n < |projects| && FirstBestIn(path, projects, existing, n, k) && s.longest == Score(path, projects[k])
    requires !(Accepted(path, existing, projects[n]) && s.longest < Score(path, projects[n]))
    ensures FirstBestIn(path, projects, existing, n + 1, k)
  {
    forall j | k < j < n + 1 && Accepted(path, existing, projects[j])
      ensures Score(path, projects[j]) <= Score(path, projects[k])
    {
      if j == n {
        assert !(s.longest < Score(path, projects[n]));
      }
    }
  }

  /** One more iteration extends `SearchAfter` by one project. */
  lemma StepExtends(path: string, projects: seq<Project>, existing: set<string>, n: nat, s: Search)
    requires n < |projects| && SearchAfter(path, projects, existing, n, s)
    ensures SearchAfter(path, projects, existing, n + 1, Step(path, existing, s, projects[n]))
  {
    var project := projects[n];
    if Accepted(path, existing, project) && s.longest < Score(path, project) {
      StepTakes(path, projects, existing, n, s);
    } else if s.bestMatch.Some? {
      var k: nat :| FirstBestIn(path, projects, existing, n, k) &&
        s.longest == Score(path, projects[k]) &&
        s.bestMatch == Some(projects[k]) && s.bestMatchFile == Some(Candidate(path, projects[k]));
      StepPasses(path, projects, existing, n, s, k);
    }
  }

  /** A nonempty prefix is the shorter prefix followed by its last element. */
  lemma PrefixSplitsLast<T>(xs: seq<T>, n: nat)
    requires 0 < n <= |xs|
    ensures xs[..n] == xs[..n - 1] + [xs[n - 1]]
  {
    assert xs[..n][..n - 1] == xs[..n - 1];
  }

  /** The loop over one project is one iteration. */
  lemma ScanSingle(path: string, existing: set<string>, s: Search, project: Project)
    ensures Scan(path, existing, s, [project]) == Step(path, existing, s, project)
  {
    assert [project][1..] == [];
  }

  /** The loop over a nonempty prefix is one iteration after the loop over the shorter prefix. */
  lemma ScanPrefixStep(path: string, projects: seq<Project>, existing: set<string>, n: nat)
    requires 0 < n <= |projects|
    ensures Scan(path, existing, Start, projects[..n])
         == Step(path, existing, Scan(path, existing, Start, projects[..n - 1]), projects[n - 1])
  {
    PrefixSplitsLast(projects, n);
    ScanAppend(path, existing, Start, projects[..n - 1], [projects[n - 1]]);
    ScanSingle(path, existing, Scan(path, existing, Start, projects[..n - 1]), projects[n - 1]);
  }

  /** The loop keeps `SearchAfter` as its invariant. */
  lemma {:induction false} ScanPrefix(path: string, projects: seq<Project>, existing: set<string>, n: nat)
    requires n <= |projects|
    ensures SearchAfter(path, projects, existing, n, Scan(path, existing, Start, projects[..n]))
  {
    if n > 0 {
      ScanPrefix(path, projects, existing, n - 1);
      var prev := Scan(path, existing, Start, projects[..n - 1]);
      StepExtends(path, projects, existing, n - 1, prev);
      ScanPrefixStep(path, projects, existing, n);
    }
  }

  /** There is at most one first-best project. */
  lemma FirstBestUnique(path: string, projects: seq<Project>, existing: set<string>, k: nat, k': nat)
    requires FirstBestIn(path, projects, existing, |projects|, k)
    requires FirstBestIn(path, projects, existing, |projects|, k')
    ensures k == k'
  {
  }

  /** `find` returns null exactly when no project's proposed file exists; otherwise it returns the
      first project, in list order, with the strictly greatest score among those whose proposed file
      exists, together with that file. */
  lemma FindMatchSpec(path: string, projects: seq<Project>, existing: set<string>)
    ensures FindMatch(path, projects, existing).None? <==>
            forall j :: 0 <= j < |projects| ==> !Accepted(path, existing, projects[j])
    ensures forall k: nat :: FirstBestIn(path, projects, existing, |projects|, k) ==>
            FindMatch(path, projects, existing) == Some(BestMatch(projects[k], Candidate(path, projects[k])))
    ensures FindMatch(path, projects, existing).Some? ==>
            exists k: nat :: FirstBestIn(path, projects, existing, |projects|, k) &&
              FindMatch(path, projects, existing) == Some(BestMatch(projects[k], Candidate(path, projects[k])))
  {
    ScanPrefix(path, projects, existing, |projects|);
    assert projects[..|projects|] == projects;
    forall k: nat | FirstBestIn(path, projects, existing, |projects|, k)
      ensures FindMatch(path, projects, existing) == Some(BestMatch(projects[k], Candidate(path, projects[k])))
    {
      var s := Scan(path, existing, Start, projects);
      var k': nat :| FirstBestIn(path, projects, existing, |projects|, k') &&
        s.bestMatch == Some(projects[k']) && s.bestMatchFile == Some(Candidate(path, projects[k']));
      FirstBestUnique(path, projects, existing, k, k');
    }
  }

  /** The first-best project is the one `find` returns. */
  lemma FindMatchOfFirstBest(path: string, projects: seq<Project>, existing: set<string>, k: nat)
    requires FirstBestIn(path, projects, existing, |projects|, k)
    ensures FindMatch(path, projects, existing) == Some(BestMatch(projects[k], Candidate(path, projects[k])))
  {
    FindMatchSpec(path, projects, existing);
  }

  /** With no project's proposed file on disk, `find` returns null. */
  lemma FindMatchOfNoneAccepted(path: string, projects: seq<Project>, existing: set<string>)
    requires forall j :: 0 <= j < |projects| ==> !Accepted(path, existing, projects[j])
    ensures FindMatch(path, projects, existing) == None
  {
    FindMatchSpec(path, projects, existing);
  }

  /** A project whose proposed file is missing has no influence on the result: the
      search does not stop at a high-scoring project it cannot verify. */
  lemma {:induction false} MissingCandidateIgnored(path: string, before: seq<Project>, project: Project,
                                                   after: seq<Project>, existing: set<string>)
    requires !Accepted(path, existing, project)
    ensures FindMatch(path, before + [project] + after, existing) == FindMatch(path, before + after, existing)
  {
    var s := Scan(path, existing, Start, before);
    ScanAppend(path, existing, Start, before + [project], after);
    ScanAppend(path, existing, Start, before, [project]);
    ScanAppend(path, existing, Start, before, after);
    assert Scan(path, existing, s, [project]) == s;
  }
}
