/** The MIME type the backend reports for a video file, chosen from the
    lower-cased extension of its file name. */
module MimeTypes {
  import opened Wrappers
  import Strings
  import Paths

  /** The table of known extensions (already lower-cased); anything else,
      including no extension at all, is treated as MP4. */
  function MimeForExtension(ext: string): (m: string)
    ensures m == "video/mp4" <==> ext !in {"mov", "avi", "mkv", "wmv", "flv", "webm", "3gp", "mpg", "mpeg"}
  {
    match ext
    case "mp4" => "video/mp4"
    case "mov" => "video/quicktime"
    case "avi" => "video/x-msvideo"
    case "mkv" => "video/x-matroska"
    case "wmv" => "video/x-ms-wmv"
    case "flv" => "video/x-flv"
    case "webm" => "video/webm"
    case "3gp" => "video/3gpp"
    case "mpg" => "video/mpeg"
    case "mpeg" => "video/mpeg"
    case _ => "video/mp4"
  }

  /** The lower-case form of a character, as far as the table can tell:
      the characters whose lower-case form (`char::to_lowercase`) is an
      ASCII letter are `A`–`Z` and the Kelvin sign U+212A, which becomes
      `k`; every other character is kept, and no other character lowers
      into a table entry. */
  function LowerChar(c: char): (l: char)
    ensures 'a' <= l <= 'z' && l != c <==> 'A' <= c <= 'Z' || c == '\U{212A}'
  {
    if c == '\U{212A}' then 'k' else Strings.LowerChar(c)
  }

  /** `str::to_lowercase` on an extension, character by character. */
  function Lower(s: string): (t: string)
    ensures |t| == |s|
    ensures forall k :: 0 <= k < |s| ==> t[k] == LowerChar(s[k])
  {
    seq(|s|, k requires 0 <= k < |s| => LowerChar(s[k]))
  }

  /** `get_mime_type`: the table entry of the lower-cased extension. */
  function GetMimeType(path: string): string
  {
    var ext := Paths.Extension(path);
    MimeForExtension(Lower(if ext.Some? then ext.value else ""))
  }

  /** The whole table, for a path with an extension: each known extension,
      in any letter case, gives its own type, `mpg` and `mpeg` both give
      MPEG, and every other extension gives MP4. */
  lemma MimeTable(path: string, ext: string)
    requires Paths.Extension(path) == Some(ext)
    ensures var l, m := Lower(ext), GetMimeType(path);
      (l == "mp4" ==> m == "video/mp4") &&
      (l == "mov" ==> m == "video/quicktime") &&
      (l == "avi" ==> m == "video/x-msvideo") &&
      (l == "mkv" ==> m == "video/x-matroska") &&
      (l == "wmv" ==> m == "video/x-ms-wmv") &&
      (l == "flv" ==> m == "video/x-flv") &&
      (l == "webm" ==> m == "video/webm") &&
      (l == "3gp" ==> m == "video/3gpp") &&
      (l in {"mpg", "mpeg"} ==> m == "video/mpeg") &&
      (l !in {"mp4", "mov", "avi", "mkv", "wmv", "flv", "webm", "3gp", "mpg", "mpeg"} ==> m == "video/mp4")
  {
  }

  /** An extension spelled with the Kelvin sign lowers to `mkv`. */
  lemma KelvinExample()
    ensures GetMimeType("/v/clip.m\U{212A}v") == "video/x-matroska"
  {
    KelvinExtension();
    KelvinLower();
    MimeTable("/v/clip.m\U{212A}v", "m\U{212A}v");
  }

  lemma KelvinExtension()
    ensures Paths.Extension("/v/clip.m\U{212A}v") == Some("m\U{212A}v")
  {
    assert "/v/clip.m\U{212A}v" == Paths.Join("/v", "clip" + "." + "m\U{212A}v");
    Paths.StemAndExtensionOfJoin("/v", "clip", "m\U{212A}v");
  }

  lemma KelvinLower()
    ensures Lower("m\U{212A}v") == "mkv"
  {
    var e := Lower("m\U{212A}v");
    assert e[0] == 'm' && e[1] == 'k' && e[2] == 'v';
  }

  /** Distinct known extensions other than the two MPEG spellings map to
      distinct types; `mpg` and `mpeg` share one. */
  lemma TableInjective(a: string, b: string)
    requires MimeForExtension(a) == MimeForExtension(b) != "video/mp4"
    ensures a == b || {a, b} == {"mpg", "mpeg"}
  {
  }

  /** The choice ignores the letter case of the extension. */
  lemma CaseInsensitive(path1: string, path2: string)
    requires Paths.Extension(path1).Some? && Paths.Extension(path2).Some?
    requires Lower(Paths.Extension(path1).value) == Lower(Paths.Extension(path2).value)
    ensures GetMimeType(path1) == GetMimeType(path2)
  {
  }

  /** A path without an extension is reported as MP4. */
  lemma NoExtensionIsMp4(path: string)
    requires Paths.Extension(path).None?
    ensures GetMimeType(path) == "video/mp4"
  {
    assert Lower("") == "";
  }

  /** A QuickTime file in any letter case, in any directory. */
  lemma QuickTimeExample()
    ensures GetMimeType("/home/user/Movies/clip.MOV") == "video/quicktime"
  {
    assert "/home/user/Movies/clip.MOV" == Paths.Join("/home/user/Movies", "clip" + "." + "MOV");
    Paths.StemAndExtensionOfJoin("/home/user/Movies", "clip", "MOV");
    assert Lower("MOV") == "mov";
  }
}
