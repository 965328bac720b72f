/**
 * The parts of Rust's `std::path::Path` that the program uses, for paths written
 * with `/` as the separator: `parent`, `file_name` and `file_stem`.
 *
 * As `Path::components` does, trailing separators and `.` components after the
 * first one are skipped, so `x/y/.` names `y` in `x`; a leading `.` is kept. `.`
 * and `..` have no file name, the root `/` and the empty path have no parent, and
 * the parent of a single relative name is the empty path.
 */
module Paths {
  import opened Wrappers
  import opened Strings

  /** `p` ends in a `.` component that follows a separator. */
  predicate EndsInDot(p: string) {
    |p| >= 2 && p[|p| - 2] == '/' && p[|p| - 1] == '.'
  }

  /** A path with nothing at its end that `Path::components` would skip. */
  predicate Trimmed(p: string) {
    p == "" || (p[|p| - 1] != '/' && !EndsInDot(p))
  }

  /** `p` without its trailing separators and the `.` components among them. */
  function TrimEnd(p: string): (t: string)
    ensures |t| <= |p| && t == p[..|t|]
    ensures Trimmed(t)
    decreases |p|
  {
    if p != [] && p[|p| - 1] == '/' then TrimEnd(p[..|p| - 1])
    else if EndsInDot(p) then TrimEnd(p[..|p| - 1])
    else p
  }

  /** The last component of `p` as written (possibly "", "." or ".."). */
  function LastComponent(p: string): (last: string)
    ensures '/' !in last
  {
    var t := TrimEnd(p);
    t[LastIndexOf(t, '/') + 1..]
  }

  /** `Path::file_name`: the last component, unless there is none or it is `.` or `..`. */
  function FileName(p: string): (name: Option<string>)
    ensures name.Some? ==> name.value != "" && '/' !in name.value
    ensures name.Some? ==> name.value != "." && name.value != ".."
    ensures name.Some? ==> Parent(p).Some?
  {
    var last := LastComponent(p);
    if last == "" || last == "." || last == ".." then None else Some(last)
  }

  /** `Path::parent`: `p` without its last component and the separators before it. */
  function Parent(p: string): (dir: Option<string>)
    ensures dir.Some? ==> |dir.value| < |p|
    ensures dir.Some? ==> dir.value == "/" || Trimmed(dir.value)
    ensures dir.None? <==> TrimEnd(p) == ""
  {
    var t := TrimEnd(p);
    if t == "" then None
    else
      var i := LastIndexOf(t, '/');
      if i < 0 then Some("")
      else
        var head := TrimEnd(t[..i]);
        if head == "" then Some("/") else Some(head)
  }

  /**
   * `Path::file_stem` of a file name: the part before the last `.`, or the whole
   * name when it has no `.` or its only `.` is the leading one.
   */
  function FileStem(name: string): (stem: string)
    ensures |stem| <= |name| && stem == name[..|stem|]
    ensures name != "" ==> stem != ""
    ensures stem == name <==> forall j :: 0 < j < |name| ==> name[j] != '.'
    ensures stem != name ==> name[|stem|] == '.' && forall j :: |stem| < j < |name| ==> name[j] != '.'
  {
    var i := LastIndexOf(name, '.');
    if i <= 0 then name else name[..i]
  }

  /** In `a + [c] + b` with no `c` in `b`, the last `c` is the one added. */
  lemma {:induction false} LastIndexOfAfter(a: string, c: char, b: string)
    requires c !in b
    ensures LastIndexOf(a + [c] + b, c) == |a|
    decreases |b|
  {
    var s := a + [c] + b;
    if b != [] {
      assert b[|b| - 1] in b;
      assert s[..|s| - 1] == a + [c] + b[..|b| - 1];
      LastIndexOfAfter(a, c, b[..|b| - 1]);
    }
  }

  /** A path ending in a separator-free name: that name is its last component. */
  lemma ChildPath(dir: string, seg: string)
    requires seg != "" && seg != "." && '/' !in seg
    ensures TrimEnd(dir + "/" + seg) == dir + "/" + seg
    ensures LastComponent(dir + "/" + seg) == seg
    ensures Parent(dir + "/" + seg) == Some(if TrimEnd(dir) == "" then "/" else TrimEnd(dir))
  {
    var p := dir + "/" + seg;
    assert p[|p| - 1] == seg[|seg| - 1];
    assert seg[|seg| - 1] in seg;
    if |seg| >= 2 {
      assert p[|p| - 2] == seg[|seg| - 2] && seg[|seg| - 2] in seg;
    }
    assert Trimmed(p);
    assert TrimEnd(p) == p;
    assert p == dir + ['/'] + seg;
    LastIndexOfAfter(dir, '/', seg);
    assert p[..|dir|] == dir;
    assert p[|dir| + 1..] == seg;
  }

  /** A path that ends in nothing to skip is kept whole by the trimming. */
  lemma TrimKeeps(p: string)
    requires Trimmed(p)
    ensures TrimEnd(p) == p
  {
  }

  /** `dir/name`, for a directory written without a trailing separator or `.` and a proper name. */
  lemma ChildOf(dir: string, name: string)
    requires dir != "" && Trimmed(dir)
    requires name != "" && name != "." && name != ".." && '/' !in name
    ensures FileName(dir + "/" + name) == Some(name)
    ensures Parent(dir + "/" + name) == Some(dir)
  {
    ChildPath(dir, name);
    TrimKeeps(dir);
  }

  /** A trailing `/.` names the same file, in the same directory, as the path without it. */
  lemma TrailingDotSkipped(p: string)
    ensures FileName(p + "/.") == FileName(p)
    ensures Parent(p + "/.") == Parent(p)
  {
    TrimEndDot(p);
  }

  /** Trimming `p/.` gives what trimming `p` gives. */
  lemma TrimEndDot(p: string)
    ensures TrimEnd(p + "/.") == TrimEnd(p)
  {
    var q := p + "/.";
    assert EndsInDot(q) && q[..|q| - 1] == p + "/";
    assert (p + "/")[..|p|] == p;
  }
}
