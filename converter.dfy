/** `ComponentConverter`: the one-to-one index between component keys and changed-file paths. */
module Converter {
  import opened Wrappers
  import opened Matching
  import opened ComponentKeys

  /** The part of a GitHub `CommitFile` the converter reads: its file name, which may be null. */
  datatype CommitFile = CommitFile(filename: Option<string>)

  /** `fwd` and `inv` are each other's inverse: together they form one bijective map. */
  ghost predicate Inverse(fwd: map<string, string>, inv: map<string, string>)
  {
    && (forall k :: k in fwd ==> fwd[k] in inv && inv[fwd[k]] == k)
    && (forall p :: p in inv ==> inv[p] in fwd && fwd[inv[p]] == p)
  }

  /** The two halves of a bijective map have the same number of entries. */
  lemma {:induction false} InverseSameSize(fwd: map<string, string>, inv: map<string, string>)
    requires Inverse(fwd, inv)
    ensures |fwd| == |inv|
    decreases |fwd|
  {
    if fwd != map[] {
      var k :| k in fwd;
      var p := fwd[k];
      var fwd', inv' := fwd - {k}, inv - {p};
      assert Inverse(fwd', inv');
      InverseSameSize(fwd', inv');
    }
  }

  /** The key-to-path map the constructor's loop has built after `files`: each file with a key
      is `put` in turn. */
  function Index(branch: string, projects: seq<Project>, existing: set<string>, files: seq<CommitFile>)
    : map<string, string>
    decreases |files|
  {
    if files == [] then map[]
    else
      var m := Index(branch, projects, existing, files[..|files| - 1]);
      var path := files[|files| - 1].filename;
      match ComponentKey(path, projects, branch, existing)
      case None => m
      case Some(key) => m[key := path.value]
  }

  /** Every stored pair is a file name of the input together with that name's component key. */
  lemma {:induction false} IndexSound(branch: string, projects: seq<Project>, existing: set<string>,
                                      files: seq<CommitFile>, key: string)
    requires key in Index(branch, projects, existing, files)
    ensures var path := Index(branch, projects, existing, files)[key];
      && ComponentKey(Some(path), projects, branch, existing) == Some(key)
      && exists i :: 0 <= i < |files| && files[i].filename == Some(path)
    decreases |files|
  {
    var prefix := files[..|files| - 1];
    var last := files[|files| - 1].filename;
    if ComponentKey(last, projects, branch, existing) != Some(key) {
      IndexSound(branch, projects, existing, prefix, key);
      var i :| 0 <= i < |prefix| && prefix[i].filename == Some(Index(branch, projects, existing, prefix)[key]);
      assert files[i] == prefix[i];
    }
  }

  /** The index stores a key exactly for the files that have one, and each key holds the path of
      the LAST file that yields it: a later `put` of the same key overwrites an earlier one. */
  lemma {:induction false} IndexLastWins(branch: string, projects: seq<Project>, existing: set<string>,
                                         files: seq<CommitFile>, i: nat)
    requires i < |files|
    requires ComponentKey(files[i].filename, projects, branch, existing).Some?
    requires forall j :: i < j < |files| ==>
      ComponentKey(files[j].filename, projects, branch, existing) != ComponentKey(files[i].filename, projects, branch, existing)
    ensures var key := ComponentKey(files[i].filename, projects, branch, existing).value;
      key in Index(branch, projects, existing, files) &&
      Some(Index(branch, projects, existing, files)[key]) == files[i].filename
    decreases |files|
  {
    var prefix := files[..|files| - 1];
    if i < |files| - 1 {
      assert prefix[i] == files[i];
      forall j | i < j < |prefix|
        ensures ComponentKey(prefix[j].filename, projects, branch, existing) != ComponentKey(prefix[i].filename, projects, branch, existing)
      {
        assert prefix[j] == files[j];
      }
      IndexLastWins(branch, projects, existing, prefix, i);
    }
  }

  /** A file name absent from the input gets no entry, and so do names without a key. */
  lemma IndexOnlyKeyedInputs(branch: string, projects: seq<Project>, existing: set<string>,
                             files: seq<CommitFile>, path: string)
    requires (forall i :: 0 <= i < |files| ==> files[i].filename != Some(path)) ||
             ComponentKey(Some(path), projects, branch, existing).None?
    ensures path !in Index(branch, projects, existing, files).Values
  {
    var m := Index(branch, projects, existing, files);
    if path in m.Values {
      var key :| key in m && m[key] == path;
      IndexSound(branch, projects, existing, files, key);
    }
  }

  /** No path is stored under two keys. */
  lemma IndexInjective(branch: string, projects: seq<Project>, existing: set<string>,
                       files: seq<CommitFile>, k1: string, k2: string)
    requires k1 in Index(branch, projects, existing, files) && k2 in Index(branch, projects, existing, files)
    requires Index(branch, projects, existing, files)[k1] == Index(branch, projects, existing, files)[k2]
    ensures k1 == k2
  {
    IndexSound(branch, projects, existing, files, k1);
    IndexSound(branch, projects, existing, files, k2);
  }

  /** The number of changed files that have a component key. */
  function KeyedCount(branch: string, projects: seq<Project>, existing: set<string>, files: seq<CommitFile>): (n: nat)
    ensures n <= |files|
    decreases |files|
  {
    if files == [] then 0
    else
      KeyedCount(branch, projects, existing, files[..|files| - 1]) +
      (if ComponentKey(files[|files| - 1].filename, projects, branch, existing).Some? then 1 else 0)
  }

  /** The index never has more entries than there are changed files with a key. */
  lemma {:induction false} IndexSize(branch: string, projects: seq<Project>, existing: set<string>,
                                     files: seq<CommitFile>)
    ensures |Index(branch, projects, existing, files)| <= KeyedCount(branch, projects, existing, files)
    decreases |files|
  {
    if files != [] {
      IndexSize(branch, projects, existing, files[..|files| - 1]);
    }
  }

  /** When no two changed files share a key, the index holds exactly one entry per changed file
      with a key. */
  lemma {:induction false} IndexSizeOfDistinctKeys(branch: string, projects: seq<Project>, existing: set<string>,
                                                   files: seq<CommitFile>)
    requires forall i, j :: 0 <= i < j < |files| && ComponentKey(files[i].filename, projects, branch, existing).Some? ==>
      ComponentKey(files[i].filename, projects, branch, existing) != ComponentKey(files[j].filename, projects, branch, existing)
    ensures |Index(branch, projects, existing, files)| == KeyedCount(branch, projects, existing, files)
    decreases |files|
  {
    if files != [] {
      var prefix := files[..|files| - 1];
      var last := files[|files| - 1].filename;
      forall i, j | 0 <= i < j < |prefix| && ComponentKey(prefix[i].filename, projects, branch, existing).Some?
        ensures ComponentKey(prefix[i].filename, projects, branch, existing) != ComponentKey(prefix[j].filename, projects, branch, existing)
      {
        assert prefix[i] == files[i] && prefix[j] == files[j];
      }
      IndexSizeOfDistinctKeys(branch, projects, existing, prefix);
      var m := Index(branch, projects, existing, prefix);
      match ComponentKey(last, projects, branch, existing)
      case None =>
      case Some(key) =>
        forall i | 0 <= i < |prefix| ensures ComponentKey(prefix[i].filename, projects, branch, existing) != Some(key) {
          assert prefix[i] == files[i];
        }
        KeyNotStored(branch, projects, existing, prefix, key);
    }
  }

  /** A key that no changed file yields has no entry. */
  lemma {:induction false} KeyNotStored(branch: string, projects: seq<Project>, existing: set<string>,
                                        files: seq<CommitFile>, key: string)
    requires forall i :: 0 <= i < |files| ==> ComponentKey(files[i].filename, projects, branch, existing) != Some(key)
    ensures key !in Index(branch, projects, existing, files)
    decreases |files|
  {
    if files != [] {
      var prefix := files[..|files| - 1];
      forall i | 0 <= i < |prefix| ensures ComponentKey(prefix[i].filename, projects, branch, existing) != Some(key) {
        assert prefix[i] == files[i];
      }
      KeyNotStored(branch, projects, existing, prefix, key);
    }
  }

  /** The elements of a set, listed once each in some order (the order of a Java
      `HashMap`'s iteration is not modelled). */
  method SetToSeq(s: set<string>) returns (xs: seq<string>)
    ensures |xs| == |s|
    ensures forall x :: x in xs <==> x in s
    ensures forall i, j :: 0 <= i < j < |xs| ==> xs[i] != xs[j]
  {
    xs := [];
    var rest := s;
    while rest != {}
      invariant rest <= s
      invariant forall x :: x in xs <==> x in s && x !in rest
      invariant forall i, j :: 0 <= i < j < |xs| ==> xs[i] != xs[j]
      invariant |xs| + |rest| == |s|
      decreases |rest|
    {
      var x :| x in rest;
      xs := xs + [x];
      rest := rest - {x};
    }
  }

  class ComponentConverter {
    /** The `components` BiMap, key to path. */
    var components: map<string, string>
    /** `components.inverse()`, path to key. */
    var paths: map<string, string>
    const sonarBranch: string
    const reactorProjects: seq<Project>

    ghost predicate Valid()
      reads this
    {
      Inverse(components, paths)
    }

    /** `ComponentConverter(sonarBranch, reactorProjects, files, log)`; `existing` is the set of
        files present on disk. */
    constructor (sonarBranch: string, reactorProjects: seq<Project>, files: seq<CommitFile>, existing: set<string>)
      ensures Valid()
      ensures this.sonarBranch == sonarBranch && this.reactorProjects == reactorProjects
      ensures components == Index(sonarBranch, reactorProjects, existing, files)
    {
      this.sonarBranch := sonarBranch;
      this.reactorProjects := reactorProjects;
      components := map[];
      paths := map[];
      new;
      for i := 0 to |files|
        invariant Valid()
        invariant components == Index(sonarBranch, reactorProjects, existing, files[..i])
      {
        assert files[..i + 1][..i] == files[..i];
        var path := files[i].filename;
        var componentKey := ToComponentKey(path, reactorProjects, sonarBranch, existing);
        if componentKey.Some? {
          if path.value in paths {
            IndexSound(sonarBranch, reactorProjects, existing, files[..i], paths[path.value]);
          }
          Put(componentKey.value, path.value);
        }
      }
      assert files[..|files|] == files;
    }

    /** `BiMap.put(key, value)`: binds `key` to `value`, dropping the path it was bound to before.
        Guava throws when `value` is already bound to another key; callers must rule that out. */
    method Put(key: string, value: string)
      requires Valid()
      requires value in paths ==> paths[value] == key
      modifies this
      ensures Valid()
      ensures components == old(components)[key := value]
      ensures paths == (if key in old(components) then old(paths) - {old(components)[key]} else old(paths))[value := key]
    {
      if key in components {
        paths := paths - {components[key]};
      }
      components := components[key := value];
      paths := paths[value := key];
    }

    /** `getComponents()`: every key once. */
    method GetComponents() returns (keys: seq<string>)
      requires Valid()
      ensures |keys| == Size()
      ensures forall k :: k in keys <==> k in components
      ensures forall i, j :: 0 <= i < j < |keys| ==> keys[i] != keys[j]
    {
      keys := SetToSeq(components.Keys);
    }

    /** `getPaths()`: every stored path once. */
    method GetPaths() returns (ps: seq<string>)
      requires Valid()
      ensures |ps| == Size()
      ensures forall p :: p in ps <==> p in components.Values
      ensures forall i, j :: 0 <= i < j < |ps| ==> ps[i] != ps[j]
    {
      ps := SetToSeq(paths.Keys);
      InverseSameSize(components, paths);
    }

    /** `pathToComponent(path)`: the key `path` is stored under, or null. */
    function PathToComponent(path: string): (r: Option<string>)
      reads this
      requires Valid()
      ensures r.None? <==> path !in components.Values
      ensures r.Some? ==> r.value in components && components[r.value] == path
    {
      if path in paths then Some(paths[path]) else None
    }

    /** `componentToPath(key)`: the path stored under `key`, or null; the round trip
        through `PathToComponent` returns the key. */
    function ComponentToPath(key: string): (r: Option<string>)
      reads this
      requires Valid()
      ensures r.Some? <==> key in components
      ensures r.Some? ==> r.value in components.Values && PathToComponent(r.value) == Some(key)
    {
      if key in components then Some(components[key]) else None
    }

    /** `size()`: the number of pairs, the same counted from either side. */
    function Size(): (n: nat)
      reads this
      requires Valid()
      ensures n == |components| && n == |paths|
    {
      InverseSameSize(components, paths);
      |components|
    }
  }
}
