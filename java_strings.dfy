/** The few java.lang.String and java.io.File operations the converter relies on. */
module JavaStrings {
  import opened Wrappers

  /** The exception `String.substring` throws on a bad index. */
  datatype StringError = StringIndexOutOfBounds(index: int)

  /** True when `t` occurs in `s` starting at position `i`. */
  predicate OccursAt(s: string, t: string, i: int)
  {
    0 <= i && i + |t| <= |s| && s[i..i + |t|] == t
  }

  /** `s.indexOf(t)` searching from position `from`: the first occurrence at or after `from`, or -1. */
  function IndexOfFrom(s: string, t: string, from: nat): (r: int)
    requires from <= |s| + 1
    ensures r == -1 || (from <= r && OccursAt(s, t, r))
    ensures r == -1 ==> forall j :: from <= j <= |s| - |t| ==> !OccursAt(s, t, j)
    ensures r != -1 ==> forall j :: from <= j < r ==> !OccursAt(s, t, j)
    decreases |s| + 1 - from
  {
    if from + |t| > |s| then -1
    else if s[from..from + |t|] == t then from
    else IndexOfFrom(s, t, from + 1)
  }

  /** `s.indexOf(t)`: the index of the first occurrence of `t` in `s`, or -1 when there is none. */
  function IndexOf(s: string, t: string): (r: int)
    ensures r == -1 <==> forall j :: 0 <= j <= |s| - |t| ==> !OccursAt(s, t, j)
    ensures r != -1 ==> OccursAt(s, t, r) && forall j :: 0 <= j < r ==> !OccursAt(s, t, j)
  {
    IndexOfFrom(s, t, 0)
  }

  /** `s.substring(begin)`: the tail of `s` from `begin`, or the exception Java throws
      when `begin` is negative or past the end. */
  function Substring(s: string, begin: int): (r: Result<string, StringError>)
    ensures r.Success? <==> 0 <= begin <= |s|
    ensures r.Success? ==> s == s[..begin] + r.value
    ensures r.Failure? ==> r.error == StringIndexOutOfBounds(begin)
  {
    if 0 <= begin <= |s| then Success(s[begin..]) else Failure(StringIndexOutOfBounds(begin))
  }

  /** The path of `new File(parent, child)` for a non-root, normalised `parent`
      (`UnixFileSystem.resolve`): an empty child yields the parent itself, and
      exactly one '/' separates the two otherwise. */
  function Join(parent: string, child: string): (r: string)
    ensures parent <= r
    ensures child == "" <==> r == parent
    ensures child != "" ==> r[|parent|] == '/' && r[|parent| + 1..] == StripSlash(child)
  {
    if child == "" then parent
    else if child[0] == '/' then parent + child
    else parent + "/" + child
  }

  /** `child` with one leading '/' removed, if it has one. */
  function StripSlash(child: string): string
  {
    if child != "" && child[0] == '/' then child[1..] else child
  }

  /** Whatever `Join` appends after the parent and its separator, it is the child's own text. */
  lemma JoinSplits(parent: string, child: string)
    requires child != ""
    ensures Join(parent, child) == parent + "/" + StripSlash(child)
  {
  }

  /** A parent is always found at the very start of a path joined onto it. */
  lemma {:induction false} IndexOfPrefix(s: string, t: string)
    requires t <= s
    ensures IndexOf(s, t) == 0
  {
    assert s[0..|t|] == t;
  }
}
