/**
 * The part of `std::path::Path` the glossary uses to name a dictionary:
 * `file_stem`, on paths written with `/` separators.
 */
module Paths {

  import opened Wrappers
  import Text

  const SEPARATOR := '/'

  /** The segments std::path keeps as components: empty and `.` segments are normalized away. */
  function Kept(segments: seq<string>): (r: seq<string>)
    ensures forall i :: 0 <= i < |r| ==> r[i] != "" && r[i] != "."
  {
    if segments == [] then []
    else
      var init := Kept(segments[..|segments| - 1]);
      var last := segments[|segments| - 1];
      if last == "" || last == "." then init else init + [last]
  }

  /**
   * `Path::file_name`: the last component, unless there is none (the empty
   * path, the root, `.`) or it is `..`.
   */
  function FileName(path: string): Option<string>
  {
    var components := Kept(Text.Split(path, SEPARATOR));
    if components == [] || components[|components| - 1] == ".." then None
    else Some(components[|components| - 1])
  }

  /** The index of the last `.` in `name`, if any. */
  function LastDot(name: string): (r: Option<nat>)
    ensures r.Some? ==> r.value < |name| && name[r.value] == '.' && '.' !in name[r.value + 1..]
    ensures r.None? ==> '.' !in name
  {
    if name == [] then None
    else if name[|name| - 1] == '.' then Some(|name| - 1)
    else
      var r := LastDot(name[..|name| - 1]);
      if r.Some? then
        assert name[r.value + 1..] == name[..|name| - 1][r.value + 1..] + [name[|name| - 1]];
        r
      else
        assert name == name[..|name| - 1] + [name[|name| - 1]];
        r
  }

  /**
   * `file_stem` of a file name: `..` is kept whole; otherwise the name is
   * cut at its last dot, unless that dot is the first character or there is
   * no dot at all, in which case the whole name is the stem.
   */
  function StemOf(name: string): string
  {
    if name == ".." then name
    else match LastDot(name)
      case None => name
      case Some(i) => if i == 0 then name else name[..i]
  }

  /** `Path::file_stem`. */
  function FileStem(path: string): Option<string>
  {
    match FileName(path)
    case None => None
    case Some(name) => Some(StemOf(name))
  }

  /**
   * The stem is the whole name exactly when no dot follows the first
   * character; otherwise the name is the non-empty stem, a dot, and an
   * extension without dots.
   */
  lemma StemSpec(name: string)
    ensures StemOf(name) == name <==> name == ".." || forall i :: 0 < i < |name| ==> name[i] != '.'
    ensures StemOf(name) != name ==>
      var n := |StemOf(name)|;
      && 0 < n < |name|
      && name[..n] == StemOf(name)
      && name[n] == '.'
      && '.' !in name[n + 1..]
  {
    var d := LastDot(name);
    if name != ".." && d.Some? && d.value > 0 {
      assert |StemOf(name)| == d.value < |name|;
    } else if name != ".." && d.Some? {
      forall i | 0 < i < |name| ensures name[i] != '.' {
        assert name[i] == name[1..][i - 1];
      }
    }
  }

  /** A string without separators splits into itself. */
  lemma {:induction false} SplitWhole(s: string)
    requires SEPARATOR !in s
    ensures Text.Split(s, SEPARATOR) == [s]
  {
    if s != [] {
      var init := s[..|s| - 1];
      assert SEPARATOR !in init by {
        forall i | 0 <= i < |init| ensures init[i] != SEPARATOR {
          assert init[i] == s[i];
        }
      }
      SplitWhole(init);
      assert s[|s| - 1] != SEPARATOR;
      assert Text.Split(s, SEPARATOR) == [init + [s[|s| - 1]]];
      assert init + [s[|s| - 1]] == s;
    }
  }

  /** Splitting `dir/name` adds `name` as one more segment after those of `dir`. */
  lemma {:induction false} SplitAfterSeparator(dir: string, name: string)
    requires SEPARATOR !in name
    ensures Text.Split(dir + [SEPARATOR] + name, SEPARATOR) == Text.Split(dir, SEPARATOR) + [name]
  {
    var s := dir + [SEPARATOR] + name;
    if name == [] {
      assert s[..|s| - 1] == dir;
    } else {
      var init := name[..|name| - 1];
      SplitAfterSeparator(dir, init);
      assert s[..|s| - 1] == dir + [SEPARATOR] + init;
      assert name == init + [name[|name| - 1]];
    }
  }

  /** A plain file name in a directory is that path's file name. */
  lemma FileNameOfChild(dir: string, name: string)
    requires SEPARATOR !in name && name != "" && name != "." && name != ".."
    ensures FileName(dir + [SEPARATOR] + name) == Some(name)
    ensures FileName(name) == Some(name)
  {
    SplitAfterSeparator(dir, name);
    SplitWhole(name);
    assert [name][..0] == [];
  }

  /** The stem of `dir/base.ext` is `base` when `ext` has no dot and `base` is not empty. */
  lemma StemOfChild(dir: string, base: string, ext: string)
    requires SEPARATOR !in base + "." + ext && base != "" && '.' !in ext && base + "." + ext != ".."
    ensures FileStem(dir + [SEPARATOR] + base + "." + ext) == Some(base)
  {
    var name := base + "." + ext;
    assert dir + [SEPARATOR] + base + "." + ext == dir + [SEPARATOR] + name;
    FileNameOfChild(dir, name);
    StemSpec(name);
    assert name[|base|] == '.';
    var n := |StemOf(name)|;
    assert name[..|base|] == base;
  }
}
