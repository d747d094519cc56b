/** The two path/filepath functions the core uses, for Unix paths:
    Join puts a separator between a directory and a name, Base gives the
    last element of a path. */
module FilePath {

  const SEPARATOR: char := '/'

  /** filepath.Join(dir, name) for a name without separators. The lexical
      clean-up Go also applies (removing "." and ".." elements and doubled
      separators) is not modelled. */
  function Join(dir: string, name: string): (p: string)
    ensures |p| >= |name| && p[|p| - |name|..] == name
  {
    if dir == "" then name
    else if dir[|dir| - 1] == SEPARATOR then dir + name
    else dir + [SEPARATOR] + name
  }

  /** `p` without its trailing separators. */
  function TrimTrailingSeparators(p: string): (r: string)
    ensures |r| <= |p| && r == p[..|r|]
    ensures r == [] || r[|r| - 1] != SEPARATOR
    ensures forall i :: |r| <= i < |p| ==> p[i] == SEPARATOR
  {
    if p != [] && p[|p| - 1] == SEPARATOR then TrimTrailingSeparators(p[..|p| - 1]) else p
  }

  /** The text after the last separator of `p` (all of `p` if it has none). */
  function LastElement(p: string): (r: string)
    ensures |r| <= |p| && r == p[|p| - |r|..]
    ensures SEPARATOR !in r
  {
    if p == [] || p[|p| - 1] == SEPARATOR then [] else LastElement(p[..|p| - 1]) + [p[|p| - 1]]
  }

  /** filepath.Base: "." for the empty path, "/" for a path of separators
      only, otherwise the last element once trailing separators are gone. */
  function Base(path: string): (r: string)
    ensures r != []
  {
    if path == [] then "."
    else
      var trimmed := TrimTrailingSeparators(path);
      if trimmed == [] then [SEPARATOR] else LastElement(trimmed)
  }

  lemma {:induction false} LastElementOfSuffix(prefix: string, name: string)
    requires SEPARATOR !in name
    requires prefix == [] || prefix[|prefix| - 1] == SEPARATOR
    ensures LastElement(prefix + name) == name
    decreases |name|
  {
    if name != [] {
      var p := prefix + name;
      var init, last := name[..|name| - 1], name[|name| - 1];
      assert name == init + [last];
      assert last in name && SEPARATOR !in init;
      assert p[|p| - 1] == last && p[..|p| - 1] == prefix + init;
      LastElementOfSuffix(prefix, init);
    }
  }

  /** The base name of a file joined to a directory is the file's own name. */
  lemma BaseOfJoin(dir: string, name: string)
    requires name != [] && SEPARATOR !in name
    ensures Base(Join(dir, name)) == name
  {
    var p := Join(dir, name);
    assert p[|p| - 1] == name[|name| - 1];
    if dir == "" {
      LastElementOfSuffix([], name);
      assert [] + name == name;
    } else if dir[|dir| - 1] == SEPARATOR {
      LastElementOfSuffix(dir, name);
    } else {
      LastElementOfSuffix(dir + [SEPARATOR], name);
      assert p == dir + [SEPARATOR] + name;
    }
  }
}
