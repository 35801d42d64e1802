/**
 * `respective_file`: where the output for an input image goes. A directory
 * receives a file named after the input's stem with the expected extension;
 * a file path is kept as it is, with a warning when its suffix is not the
 * expected one. Paths follow pathlib's rules for names, stems and suffixes.
 */
module Utils {
  import opened Wrappers

  /** A path as the sequence of its components. */
  datatype Path = Path(parts: seq<string>)

  /** The final component, or "" for an empty path. */
  function Name(p: Path): string {
    if |p.parts| == 0 then "" else p.parts[|p.parts| - 1]
  }

  /** `p / name` for a plain file name. */
  function Join(p: Path, name: string): (r: Path)
    ensures Name(r) == name && |r.parts| == |p.parts| + 1 && r.parts[..|p.parts|] == p.parts
  {
    Path(p.parts + [name])
  }

  /** `str.rfind('.')`: the position of the last dot, or -1. */
  function LastDot(s: string): (i: int)
    ensures -1 <= i < |s|
    ensures i >= 0 ==> s[i] == '.'
    ensures forall k :: i < k < |s| ==> s[k] != '.'
    decreases |s|
  {
    if |s| == 0 then -1
    else if s[|s| - 1] == '.' then |s| - 1
    else LastDot(s[..|s| - 1])
  }

  /** A dot counts as the start of a suffix when it is neither the first nor
      the last character of the name. */
  predicate HasSuffix(name: string) {
    0 < LastDot(name) < |name| - 1
  }

  /** `PurePath.suffix`. */
  function Suffix(p: Path): (s: string)
    ensures s == "" || (s[0] == '.' && '.' !in s[1..] && |s| >= 2)
  {
    var n := Name(p);
    if HasSuffix(n) then n[LastDot(n)..] else ""
  }

  /** `PurePath.stem`. */
  function Stem(p: Path): string {
    var n := Name(p);
    if HasSuffix(n) then n[..LastDot(n)] else n
  }

  /** A name splits into its stem followed by its suffix. */
  lemma StemAndSuffix(p: Path)
    ensures Stem(p) + Suffix(p) == Name(p)
    ensures |Stem(p)| > 0 <==> |Name(p)| > 0
  {
  }

  /** ASCII lower-casing of one character. */
  function LowerChar(c: char): char {
    if 'A' <= c <= 'Z' then (c as int + 32) as char else c
  }

  /** `str.lower()` on ASCII text. */
  function Lower(s: string): (r: string)
    ensures |r| == |s| && forall i :: 0 <= i < |s| ==> r[i] == LowerChar(s[i])
  {
    seq(|s|, i requires 0 <= i < |s| => LowerChar(s[i]))
  }

  predicate IsLower(s: string) {
    forall i :: 0 <= i < |s| ==> !('A' <= s[i] <= 'Z')
  }

  lemma LowerOfLower(s: string)
    requires IsLower(s)
    ensures Lower(s) == s
  {
  }

  /** The default `extension` argument. */
  const DefaultExtension: string := "png"

  /** What `respective_file` returns, and whether it printed the wrong-suffix
      warning. */
  datatype Resolved = Resolved(path: Option<Path>, warned: bool)

  /**
   * `respective_file(input, other, extension)`, with `otherIsDir` standing
   * for `other.is_dir()`. No `other` gives no path. A directory gets a file
   * named after the input inside it. Any other path is returned unchanged,
   * with a warning exactly when its suffix, lower-cased, is not
   * `"." + extension`; the warning never changes the result.
   */
  function RespectiveFile(input: Path, other: Option<Path>, otherIsDir: bool, extension: string): (r: Resolved)
    ensures other.None? <==> r.path.None?
    ensures r.warned ==> other.Some? && !otherIsDir
    ensures other.Some? && !otherIsDir ==> r.path == other
    ensures other.Some? && !otherIsDir ==> (r.warned <==> Lower(Suffix(other.value)) != "." + extension)
    ensures other.Some? && otherIsDir ==> r.path == Some(Join(other.value, Stem(input) + ("." + extension)))
    ensures other.Some? && otherIsDir ==>
      && r.path.Some?
      && |r.path.value.parts| == |other.value.parts| + 1
      && r.path.value.parts[..|other.value.parts|] == other.value.parts
  {
    match other
    case None => Resolved(None, false)
    case Some(o) =>
      var suffix := "." + extension;
      if otherIsDir then Resolved(Some(Join(o, Stem(input) + suffix)), false)
      else Resolved(Some(o), Lower(Suffix(o)) != suffix)
  }

  /** The dot before a dot-free extension is the last dot of the name. */
  lemma LastDotBeforeExtension(stem: string, extension: string)
    requires '.' !in extension
    ensures LastDot(stem + "." + extension) == |stem|
  {
    var s := stem + "." + extension;
    var i := LastDot(s);
    assert s[|stem|] == '.';
    if i > |stem| {
      assert false;
    }
  }

  /**
   * Into a directory: for an input with a non-empty name and an extension that
   * is non-empty and has no dot, the file created is named after the input's
   * stem, and its own stem and suffix are that stem and `"." + extension`.
   */
  lemma RespectiveFileInDirectory(input: Path, dir: Path, extension: string)
    requires |Name(input)| > 0 && |extension| > 0 && '.' !in extension
    ensures var r := RespectiveFile(input, Some(dir), true, extension);
      && r.path.Some? && !r.warned
      && Stem(r.path.value) == Stem(input)
      && Suffix(r.path.value) == "." + extension
  {
    StemAndSuffix(input);
    LastDotBeforeExtension(Stem(input), extension);
    var name := Stem(input) + "." + extension;
    var r := RespectiveFile(input, Some(dir), true, extension);
    assert Name(r.path.value) == name;
    assert HasSuffix(name);
    assert name[..|Stem(input)|] == Stem(input);
    assert name[|Stem(input)|..] == "." + extension;
  }

  /** Resolving again: the file a directory produced, passed back as a file,
      is kept and draws no warning when the extension is lower case. */
  lemma RespectiveFileStable(input: Path, dir: Path, extension: string)
    requires |Name(input)| > 0 && |extension| > 0 && '.' !in extension && IsLower(extension)
    ensures var first := RespectiveFile(input, Some(dir), true, extension).path;
      RespectiveFile(input, first, false, extension) == Resolved(first, false)
  {
    RespectiveFileInDirectory(input, dir, extension);
    var file := RespectiveFile(input, Some(dir), true, extension).path.value;
    assert Suffix(file) == "." + extension;
    LowerOfLower("." + extension);
  }

  /** The suffix comparison ignores the case of the file's suffix. */
  lemma RespectiveFileCaseInsensitive(input: Path, dir: Path, name: string)
    requires Suffix(Path(dir.parts + [name])) == ".PNG"
    ensures !RespectiveFile(input, Some(Path(dir.parts + [name])), false, DefaultExtension).warned
  {
    assert Lower(".PNG") == ".png";
  }

  /** An extension with an upper-case letter can never match the lower-cased
      suffix, so every file path draws the warning. */
  lemma UpperCaseExtensionAlwaysWarns(input: Path, file: Path, extension: string)
    requires !IsLower(extension)
    ensures RespectiveFile(input, Some(file), false, extension).warned
  {
    var i :| 0 <= i < |extension| && 'A' <= extension[i] <= 'Z';
    assert ("." + extension)[i + 1] == extension[i];
  }
}
