/**
  The parts of Node's `path` module (POSIX flavour) that lib/Compiler.js uses
  on asset directory entries, lines 69-72.  Entries come from
  `fs.readdirSync`, so they are single path components: no `/`.
*/
module NodePath {
  import opened Wrappers

  /** A directory entry as `fs.readdirSync` lists it. */
  type EntryName = f: string | '/' !in f witness ""

  /** Index of the last occurrence of c in s. */
  function LastIndexOf(s: string, c: char): (r: Option<nat>)
    ensures r.Some? ==> r.value < |s| && s[r.value] == c && c !in s[r.value + 1..]
    ensures r.None? ==> c !in s
    decreases |s|
  {
    if |s| == 0 then None
    else if s[|s| - 1] == c then Some(|s| - 1)
    else match LastIndexOf(s[..|s| - 1], c)
      case Some(k) =>
        assert s[k + 1..] == s[..|s| - 1][k + 1..] + [s[|s| - 1]];
        Some(k)
      case None =>
        assert s == s[..|s| - 1] + [s[|s| - 1]];
        None
  }

  /** `path.extname(f)`: from the last `.` to the end; empty when there is
      no dot, when the last dot is the first character (`.profile`), and for
      the name `..`. */
  function Extname(f: EntryName): (e: string)
    ensures e == "" || e[0] == '.'
    ensures |e| <= |f| && f[|f| - |e|..] == e
    ensures e != "" ==> |e| < |f| && '.' !in e[1..]
    ensures e == "" <==> f == ".." || forall k :: 0 < k < |f| ==> f[k] != '.'
  {
    match LastIndexOf(f, '.')
    case None => ""
    case Some(d) =>
      if d == 0 || f == ".." then ""
      else
        assert f[|f| - |f[d..]|..] == f[d..];
        f[d..]
  }

  /** `path.basename(f, ext)` for a single component: f without the suffix
      ext when f ends with it, f itself otherwise. */
  function Basename(f: EntryName, ext: string): (b: string)
    ensures |ext| <= |f| && f[|f| - |ext|..] == ext ==> b + ext == f
    ensures !(|ext| <= |f| && f[|f| - |ext|..] == ext) ==> b == f
  {
    if 0 < |ext| <= |f| && f[|f| - |ext|..] == ext then
      assert f == f[..|f| - |ext|] + f[|f| - |ext|..];
      f[..|f| - |ext|]
    else
      assert ext == [] ==> f + ext == f;
      f
  }

  /** `path.join(dir, f)` for a normalised directory (non-empty, no trailing
      `/`) and a plain entry. */
  function Join(dir: string, f: EntryName): string
  {
    dir + "/" + f
  }

  /** A path cut at its last separator into the directory part and the last
      component, as `path.dirname` and `path.basename` read it; `None` for a
      path with no separator. */
  function SplitAtLastSeparator(p: string): Option<(string, string)>
  {
    match LastIndexOf(p, '/')
    case None => None
    case Some(k) => Some((p[..k], p[k + 1..]))
  }

  /** Joining is undone by cutting at the last separator: the entry is the
      joined path's last component and the directory is all before it. */
  lemma JoinLastComponent(dir: string, f: EntryName)
    ensures LastIndexOf(Join(dir, f), '/') == Some(|dir|)
    ensures SplitAtLastSeparator(Join(dir, f)) == Some((dir, f))
  {
    var p := Join(dir, f);
    assert p[..|dir|] == dir && p[|dir|] == '/' && p[|dir| + 1..] == f;
    LastSeparatorIsFound(p, |dir|);
  }

  /** A separator with none after it is the one the search from the end
      finds. */
  lemma {:induction false} LastSeparatorIsFound(p: string, k: nat)
    requires k < |p| && p[k] == '/' && '/' !in p[k + 1..]
    ensures LastIndexOf(p, '/') == Some(k)
    decreases |p|
  {
    if k != |p| - 1 {
      var init := p[..|p| - 1];
      assert p[k + 1..] == init[k + 1..] + [p[|p| - 1]];
      LastSeparatorIsFound(init, k);
    }
  }
}
