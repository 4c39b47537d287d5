/** The parts of Rust's `std::path::Path` the backend uses, for Unix paths:
    `file_name`, `file_stem` and `extension`, and `join` of a relative
    file name onto a directory. */
module Paths {
  import opened Wrappers
  import Strings

  /** The pieces of a path that name something: empty pieces (from
      repeated or trailing `/`) and `.` are not components of their own. */
  function Named(pieces: seq<string>): (names: seq<string>)
    ensures forall k :: 0 <= k < |names| ==> names[k] != "" && names[k] != "."
    ensures forall k :: 0 <= k < |names| ==> names[k] in pieces
  {
    if pieces == [] then []
    else if pieces[0] == "" || pieces[0] == "." then Named(pieces[1..])
    else [pieces[0]] + Named(pieces[1..])
  }

  /** `Path::file_name`: the last component, unless the path ends in `..`
      or has no named component at all (`/`, `.`, the empty path). */
  function FileName(p: string): (r: Option<string>)
    ensures r.Some? ==> r.value != "" && r.value != "." && r.value != ".." && '/' !in r.value
  {
    var names := Named(Strings.Split(p, '/'));
    if names == [] then None
    else
      var last := names[|names| - 1];
      Strings.SplitPieces(p, '/');
      if last == ".." then None else Some(last)
  }

  /** Index of the last `.` in `s`, if any. */
  function LastDot(s: string): (r: Option<nat>)
    ensures r.Some? ==> r.value < |s| && s[r.value] == '.'
    ensures r.Some? ==> forall k :: r.value < k < |s| ==> s[k] != '.'
    ensures r.None? ==> '.' !in s
  {
    if s == [] then None
    else if s[|s| - 1] == '.' then Some(|s| - 1)
    else LastDot(s[..|s| - 1])
  }

  /** The `(before, after)` split of a file name at its last dot, where a
      name whose only dot is its first character has no extension. */
  function SplitAtDot(name: string): (Option<string>, Option<string>)
  {
    match LastDot(name)
    case None => (None, Some(name))
    case Some(k) => if k == 0 then (Some(name), None) else (Some(name[..k]), Some(name[k + 1..]))
  }

  /** `Path::file_stem`: the file name without its extension. */
  function FileStem(p: string): Option<string>
  {
    match FileName(p)
    case None => None
    case Some(name) =>
      var (before, after) := SplitAtDot(name);
      if before.Some? then before else after
  }

  /** `Path::extension`: what follows the last dot of the file name, when
      there is a dot that is not its first character. */
  function Extension(p: string): Option<string>
  {
    match FileName(p)
    case None => None
    case Some(name) =>
      var (before, after) := SplitAtDot(name);
      if before.Some? then after else None
  }

  /** Stem and extension put back together give the file name: either
      `stem.ext`, or the stem alone when there is no extension; the
      extension holds no dot and the stem is never empty. */
  lemma StemAndExtension(p: string)
    requires FileName(p).Some?
    ensures FileStem(p).Some? && FileStem(p).value != ""
    ensures Extension(p).Some? ==>
      FileName(p).value == FileStem(p).value + "." + Extension(p).value && '.' !in Extension(p).value
    ensures Extension(p).None? ==> FileStem(p) == FileName(p)
  {
    var name := FileName(p).value;
    match LastDot(name)
    case None =>
    case Some(k) =>
      if k > 0 {
        assert name == name[..k] + "." + name[k + 1..];
        var ext := name[k + 1..];
        forall i | 0 <= i < |ext| ensures ext[i] != '.' {
          assert ext[i] == name[k + 1 + i];
        }
      }
  }

  /** A name without a dot has no extension and is its own stem. */
  lemma NoDotNoExtension(p: string)
    requires FileName(p).Some? && '.' !in FileName(p).value
    ensures Extension(p).None? && FileStem(p) == FileName(p)
  {
  }

  /** `Path::join` of a relative name onto a directory. */
  function Join(dir: string, name: string): (r: string)
    requires name != [] && name[0] != '/'
    ensures |r| >= |name| && r[|r| - |name|..] == name
  {
    if dir == [] || dir[|dir| - 1] == '/' then dir + name else dir + "/" + name
  }

  /** The file name of a joined path is the name joined on. */
  lemma FileNameOfJoin(dir: string, name: string)
    requires name != "" && name != "." && name != ".." && '/' !in name
    ensures FileName(Join(dir, name)) == Some(name)
  {
    var p := Join(dir, name);
    var pre := p[..|p| - |name|];
    assert p == pre + name;
    assert pre == [] || pre[|pre| - 1] == '/';
    SplitLast(pre, name);
    NamedLast(Strings.Split(p, '/')[..|Strings.Split(p, '/')| - 1], name);
    assert Strings.Split(p, '/') == Strings.Split(p, '/')[..|Strings.Split(p, '/')| - 1] + [name];
  }

  /** Splitting a prefix that ends in `/` (or is empty) and then a name
      without `/` ends with exactly that name as the last piece. */
  lemma {:induction false} SplitLast(pre: string, name: string)
    requires '/' !in name
    requires pre == [] || pre[|pre| - 1] == '/'
    ensures var pieces := Strings.Split(pre + name, '/');
      pieces[|pieces| - 1] == name && (pre != [] ==> |pieces| >= 2)
  {
    if pre == [] {
      assert pre + name == name;
      Strings.SplitNoSep(name, '/');
    } else {
      var rest := pre[1..];
      assert (pre + name)[1..] == rest + name;
      if rest == [] {
        assert pre == "/";
        Strings.SplitNoSep(name, '/');
      } else {
        SplitLast(rest, name);
      }
    }
  }

  /** A named last piece is the last named component. */
  lemma {:induction false} NamedLast(front: seq<string>, name: string)
    requires name != "" && name != "."
    ensures Named(front + [name]) == Named(front) + [name]
  {
    if front != [] {
      assert (front + [name])[1..] == front[1..] + [name];
      NamedLast(front[1..], name);
    } else {
      assert [] + [name] == [name];
    }
  }

  /** The last dot of `stem.ext`, when `ext` has no dot, is the one
      between them. */
  lemma {:induction false} LastDotBefore(stem: string, ext: string)
    requires '.' !in ext
    ensures LastDot(stem + "." + ext) == Some(|stem|)
    decreases |ext|
  {
    var name := stem + "." + ext;
    if ext == [] {
    } else {
      assert name[..|name| - 1] == stem + "." + ext[..|ext| - 1];
      assert ext[|ext| - 1] != '.';
      LastDotBefore(stem, ext[..|ext| - 1]);
    }
  }

  /** Joining `stem.ext` onto a directory gives a path with that stem and
      that extension. */
  lemma StemAndExtensionOfJoin(dir: string, stem: string, ext: string)
    requires stem != "" && stem != "." && '/' !in stem && '/' !in ext && '.' !in ext
    ensures FileStem(Join(dir, stem + "." + ext)) == Some(stem)
    ensures Extension(Join(dir, stem + "." + ext)) == Some(ext)
  {
    var name := stem + "." + ext;
    assert name[0] == stem[0];
    assert name != "." && name != ".." by {
      if |name| == 2 { assert stem == [name[0]]; }
    }
    forall k | 0 <= k < |name| ensures name[k] != '/' {
      if k < |stem| { assert name[k] == stem[k]; }
      else if k > |stem| { assert name[k] == ext[k - |stem| - 1]; }
    }
    FileNameOfJoin(dir, name);
    LastDotBefore(stem, ext);
    assert name[..|stem|] == stem && name[|stem| + 1..] == ext;
  }
}
