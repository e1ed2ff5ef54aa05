/**
 * The slash-separated path operations the handler uses to place its files inside the
 * workspace: `filepath.Join`, `filepath.Dir` and `filepath.Base` on a Unix host.
 * Lexical cleaning (`filepath.Clean`: dropping `.`/`..` elements and doubled slashes)
 * is not modelled; the paths the handler builds are clean when the system's temporary
 * root is.
 */
module Paths {

  const Separator: char := '/'

  /** Index of the last `c` in `s`, or -1 when `s` holds none. */
  function LastIndexOf(s: string, c: char): (r: int)
    ensures -1 <= r < |s|
    ensures r >= 0 ==> s[r] == c
    ensures forall j :: r < j < |s| ==> s[j] != c
    decreases |s|
  {
    if |s| == 0 then -1
    else if s[|s| - 1] == c then |s| - 1
    else LastIndexOf(s[..|s| - 1], c)
  }

  /** `p` without its trailing separators. */
  function TrimTrailingSeparators(p: string): (r: string)
    ensures |r| <= |p| && r == p[..|r|]
    ensures r == [] || r[|r| - 1] != Separator
    ensures forall j :: |r| <= j < |p| ==> p[j] == Separator
    decreases |p|
  {
    if |p| > 0 && p[|p| - 1] == Separator then TrimTrailingSeparators(p[..|p| - 1]) else p
  }

  /** Everything before the last separator: "." when there is none, "/" when it is the first character. */
  function Dir(p: string): string
  {
    var i := LastIndexOf(p, Separator);
    if i < 0 then "." else if i == 0 then [Separator] else p[..i]
  }

  /** The last element of `p`, trailing separators ignored: "." for the empty path, "/" for a path of separators only. */
  function Base(p: string): string
  {
    if p == [] then "."
    else
      var t := TrimTrailingSeparators(p);
      if t == [] then [Separator] else t[LastIndexOf(t, Separator) + 1..]
  }

  /** Joins a directory and a file name with one separator. */
  function Join(dir: string, name: string): string
  {
    dir + [Separator] + name
  }

  /** Splitting a joined path gives back its directory and its file name. */
  lemma SplitJoin(dir: string, name: string)
    requires dir != [] && name != []
    requires Separator !in name
    ensures Dir(Join(dir, name)) == dir
    ensures Base(Join(dir, name)) == name
  {
    var p := Join(dir, name);
    assert p[|dir|] == Separator;
    assert forall j :: |dir| < j < |p| ==> p[j] == name[j - |dir| - 1];
    assert LastIndexOf(p, Separator) == |dir|;
    assert p[|p| - 1] == name[|name| - 1];
    assert TrimTrailingSeparators(p) == p;
    assert p[|dir| + 1..] == name;
  }
}
