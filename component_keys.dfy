/** The component key of a changed path, `ComponentConverter.toComponentKey`. */
module ComponentKeys {
  import opened Wrappers
  import opened JavaStrings
  import opened LongestSubstring
  import opened Matching

  /** The key format `groupId:artifactId:branch:relativePath`. */
  function Key(groupId: string, artifactId: string, branch: string, relativePath: string): string
  {
    groupId + ":" + artifactId + ":" + branch + ":" + relativePath
  }

  /** In `x + ":" + y` with a colon-free `x`, position `|x|` holds the first ':'. */
  lemma FirstColon(x: string, y: string)
    requires ':' !in x
    ensures (x + ":" + y)[|x|] == ':'
    ensures forall i :: 0 <= i < |x| ==> (x + ":" + y)[i] != ':'
  {
    forall i | 0 <= i < |x| ensures (x + ":" + y)[i] != ':' {
      assert (x + ":" + y)[i] == x[i];
    }
  }

  /** Two colon-free heads followed by ':' split the same way. */
  lemma SplitAtColon(x: string, y: string, x': string, y': string)
    requires ':' !in x && ':' !in x'
    requires x + ":" + y == x' + ":" + y'
    ensures x == x' && y == y'
  {
    var s := x + ":" + y;
    FirstColon(x, y);
    FirstColon(x', y');
    assert |x| == |x'|;
    assert x == s[..|x|] == x';
    assert y == s[|x| + 1..] == y';
  }

  /** When group, artifact and branch contain no ':', a key determines all four of its fields. */
  lemma KeyInjective(g: string, a: string, b: string, r: string, g': string, a': string, b': string, r': string)
    requires ':' !in g && ':' !in a && ':' !in b
    requires ':' !in g' && ':' !in a' && ':' !in b'
    requires Key(g, a, b, r) == Key(g', a', b', r')
    ensures g == g' && a == a' && b == b' && r == r'
  {
    assert Key(g, a, b, r) == g + ":" + (a + ":" + (b + ":" + r));
    assert Key(g', a', b', r') == g' + ":" + (a' + ":" + (b' + ":" + r'));
    SplitAtColon(g, a + ":" + (b + ":" + r), g', a' + ":" + (b' + ":" + r'));
    SplitAtColon(a, b + ":" + r, a', b' + ":" + r');
    SplitAtColon(b, r, b', r');
  }

  /** Lines 61-67 as written: the relative path is what follows the first occurrence of the
      base dir in the matched file's path and one separator; `substring` throws when that
      position is past the end. */
  function BuildKeyAsWritten(m: BestMatch, branch: string): Result<string, StringError>
  {
    var fullPath := m.file;
    var sources := m.project.basedir;
    match Substring(fullPath, IndexOf(fullPath, sources) + |sources| + 1)
    case Failure(e) => Failure(e)
    case Success(relativePath) => Success(Key(m.project.groupId, m.project.artifactId, branch, relativePath))
  }

  /** For a file obtained by joining `rest` onto the base dir, the key builder throws exactly when
      `rest` is empty, and otherwise takes as relative path `rest` without its leading '/'. */
  lemma BuildKeyOnJoin(m: BestMatch, branch: string, rest: string)
    requires m.file == Join(m.project.basedir, rest)
    ensures BuildKeyAsWritten(m, branch).Failure? <==> rest == ""
    ensures rest == "" ==> BuildKeyAsWritten(m, branch) == Failure(StringIndexOutOfBounds(|m.file| + 1))
    ensures rest != "" ==>
      && m.file == m.project.basedir + "/" + StripSlash(rest)
      && BuildKeyAsWritten(m, branch) == Success(Key(m.project.groupId, m.project.artifactId, branch, StripSlash(rest)))
  {
    IndexOfPrefix(m.file, m.project.basedir);
    if rest != "" {
      JoinSplits(m.project.basedir, rest);
    }
  }

  /** `toComponentKey` as written: null for a null path or an unmatched one, and the exception of
      line 66 when the matched file is the base dir itself. */
  function ComponentKeyAsWritten(path: Option<string>, projects: seq<Project>, branch: string,
                                 existing: set<string>): Result<Option<string>, StringError>
  {
    if path.None? then Success(None)
    else match FindMatch(path.value, projects, existing)
      case None => Success(None)
      case Some(m) =>
        match BuildKeyAsWritten(m, branch)
        case Failure(e) => Failure(e)
        case Success(key) => Success(Some(key))
  }

  /** `toComponentKey` corrected: a path whose best match resolves to the base dir itself gets
      no key, instead of an exception. */
  function ComponentKey(path: Option<string>, projects: seq<Project>, branch: string,
                        existing: set<string>): (r: Option<string>)
    ensures path.None? ==> r.None?
    ensures path.Some? && FindMatch(path.value, projects, existing).None? ==> r.None?
  {
    match ComponentKeyAsWritten(path, projects, branch, existing)
    case Failure(_) => None
    case Success(key) => key
  }

  /** The matched file is the candidate of the matched project. */
  lemma MatchIsCandidate(path: string, projects: seq<Project>, existing: set<string>)
    requires FindMatch(path, projects, existing).Some?
    ensures var m := FindMatch(path, projects, existing).value;
      m.file == Join(m.project.basedir, path[Score(path, m.project)..]) && m.file in existing
  {
    FindMatchSpec(path, projects, existing);
  }

  /** A key exists exactly for a non-null path whose best match leaves a nonempty remainder once the
      score's worth of characters is dropped; it is then `group:artifact:branch:relativePath` where
      the matched file is the base dir, '/', and the relative path. */
  lemma ComponentKeySpec(path: Option<string>, projects: seq<Project>, branch: string, existing: set<string>)
    ensures ComponentKey(path, projects, branch, existing).Some? <==>
      path.Some? && FindMatch(path.value, projects, existing).Some? &&
      Score(path.value, FindMatch(path.value, projects, existing).value.project) < |path.value|
    ensures ComponentKey(path, projects, branch, existing).Some? ==>
      var m := FindMatch(path.value, projects, existing).value;
      var relativePath := StripSlash(path.value[Score(path.value, m.project)..]);
      m.file in existing &&
      m.file == m.project.basedir + "/" + relativePath &&
      ComponentKey(path, projects, branch, existing) ==
        Some(Key(m.project.groupId, m.project.artifactId, branch, relativePath))
  {
    if path.Some? && FindMatch(path.value, projects, existing).Some? {
      var m := FindMatch(path.value, projects, existing).value;
      MatchIsCandidate(path.value, projects, existing);
      BuildKeyOnJoin(m, branch, path.value[Score(path.value, m.project)..]);
    }
  }

  /** The key of a path whose best match `m` leaves a nonempty remainder. */
  lemma ComponentKeyOfMatch(path: string, projects: seq<Project>, branch: string, existing: set<string>, m: BestMatch)
    requires FindMatch(path, projects, existing) == Some(m)
    requires Score(path, m.project) < |path|
    ensures ComponentKey(Some(path), projects, branch, existing)
         == Some(Key(m.project.groupId, m.project.artifactId, branch, StripSlash(path[Score(path, m.project)..])))
  {
    ComponentKeySpec(Some(path), projects, branch, existing);
  }

  /** The corrected key agrees with the code as written wherever the latter does not throw, and it
      throws exactly when the best match's remainder is empty. */
  lemma AsWrittenAgrees(path: Option<string>, projects: seq<Project>, branch: string, existing: set<string>)
    ensures ComponentKeyAsWritten(path, projects, branch, existing).Failure? <==>
      path.Some? && FindMatch(path.value, projects, existing).Some? &&
      Score(path.value, FindMatch(path.value, projects, existing).value.project) == |path.value|
    ensures ComponentKeyAsWritten(path, projects, branch, existing).Success? ==>
      ComponentKeyAsWritten(path, projects, branch, existing).value == ComponentKey(path, projects, branch, existing)
  {
    if path.Some? && FindMatch(path.value, projects, existing).Some? {
      var m := FindMatch(path.value, projects, existing).value;
      MatchIsCandidate(path.value, projects, existing);
      BuildKeyOnJoin(m, branch, path.value[Score(path.value, m.project)..]);
    }
  }

  /** A path that occurs whole inside a base dir scores its own length. */
  lemma WholePathScore(path: string, basedir: string, at: nat)
    requires at + |path| <= |basedir| && basedir[at..at + |path|] == path
    ensures Lcs(path, basedir) == |path|
  {
    assert path[0..|path|] == path;
    assert CommonAt(path, basedir, 0, at, |path|);
    assert CommonSubstring(path, basedir, |path|);
    LcsSpec(path, basedir);
  }

  /** A changed path spelled entirely inside its module's base dir, e.g. "/app" for the module in
      "/work/app": its score is its whole length, the candidate is the base dir itself, which exists,
      and line 66 asks for `substring(10)` of a 9-character path. */
  lemma AsWrittenThrowsOnWholePathMatch()
    ensures ComponentKeyAsWritten(Some("/app"), [Project("g", "app", "/work/app")], "b", {"/work/app"})
         == Failure(StringIndexOutOfBounds(10))
  {
    var project := Project("g", "app", "/work/app");
    WholePathScore("/app", "/work/app", 5);
    assert Candidate("/app", project) == "/work/app";
    assert Step("/app", {"/work/app"}, Start, project) == Search(4, Some(project), Some("/work/app"));
    assert [project][1..] == [];
    assert Scan("/app", {"/work/app"}, Start, [project]) == Search(4, Some(project), Some("/work/app"));
    assert FindMatch("/app", [project], {"/work/app"}) == Some(BestMatch(project, "/work/app"));
    BuildKeyOnJoin(BestMatch(project, "/work/app"), "b", "");
  }

  /** `toComponentKey`, computing the match with `Find`; where line 66 would throw it returns no key. */
  method ToComponentKey(path: Option<string>, projects: seq<Project>, branch: string, existing: set<string>)
    returns (key: Option<string>)
    ensures key == ComponentKey(path, projects, branch, existing)
  {
    if path.None? {
      return None;
    }
    var bestMatch := Find(path.value, projects, existing);
    if bestMatch.None? {
      return None;
    }
    var project := bestMatch.value.project;
    var fullPath := bestMatch.value.file;
    var sources := project.basedir;
    var begin := IndexOf(fullPath, sources) + |sources| + 1;
    if begin > |fullPath| {
      return None;
    }
    var relativePath := fullPath[begin..];
    key := Some(Key(project.groupId, project.artifactId, branch, relativePath));
  }
}
