/** The path-string logic of System.IO.Path on Windows that the window uses to
    classify dropped files and to place the output folder. No file system is
    consulted: these are functions of the text alone. */
module Paths {
  import Text

  /** DirectorySeparatorChar, AltDirectorySeparatorChar and VolumeSeparatorChar. */
  predicate IsSeparator(c: char) {
    c == '\\' || c == '/' || c == ':'
  }

  predicate NoSeparator(s: string) {
    forall i :: 0 <= i < |s| ==> !IsSeparator(s[i])
  }

  /** Path.GetFileName: the text after the last separator. */
  function FileName(path: string): (name: string)
    ensures NoSeparator(name)
    ensures |name| <= |path|
  {
    if path == [] || IsSeparator(path[|path| - 1]) then []
    else FileName(path[..|path| - 1]) + [path[|path| - 1]]
  }

  /** The file name is what follows the last separator: a suffix of the path,
      preceded by a separator unless it is the whole path. */
  lemma {:induction false} FileNameIsSuffix(path: string)
    ensures var name := FileName(path);
      && name == path[|path| - |name|..]
      && (|name| < |path| ==> IsSeparator(path[|path| - |name| - 1]))
  {
    if path != [] && !IsSeparator(path[|path| - 1]) {
      var init := path[..|path| - 1];
      FileNameIsSuffix(init);
      assert path[|path| - |FileName(path)|..] == init[|init| - |FileName(init)|..] + [path[|path| - 1]];
    }
  }

  /** The file name of dir + sep + name is name, whatever dir holds. */
  lemma {:induction false} FileNameAfterSeparator(dir: string, sep: char, name: string)
    requires IsSeparator(sep) && NoSeparator(name)
    ensures FileName(dir + [sep] + name) == name
  {
    if name != [] {
      var p := dir + [sep] + name;
      assert p[..|p| - 1] == dir + [sep] + name[..|name| - 1];
      FileNameAfterSeparator(dir, sep, name[..|name| - 1]);
      assert name[..|name| - 1] + [name[|name| - 1]] == name;
    } else {
      assert (dir + [sep] + name) == dir + [sep];
    }
  }

  /** A name without separators is its own file name. */
  lemma {:induction false} FileNameOfPlainName(name: string)
    requires NoSeparator(name)
    ensures FileName(name) == name
  {
    if name != [] {
      FileNameOfPlainName(name[..|name| - 1]);
      assert name[..|name| - 1] + [name[|name| - 1]] == name;
    }
  }

  /** The index of the dot that starts the extension, scanning back from the end
      and stopping at a separator; -1 when there is none. */
  function LastDot(p: string): (i: int)
    ensures -1 <= i < |p|
    ensures i >= 0 ==> p[i] == '.'
    ensures i >= 0 ==> forall k :: i < k < |p| ==> p[k] != '.' && !IsSeparator(p[k])
  {
    if p == [] then -1
    else if p[|p| - 1] == '.' then |p| - 1
    else if IsSeparator(p[|p| - 1]) then -1
    else LastDot(p[..|p| - 1])
  }

  /** Appending text without dots or separators does not move the extension's dot. */
  lemma {:induction false} LastDotAppendPlain(s: string, x: string)
    requires '.' !in x && NoSeparator(x)
    ensures LastDot(s + x) == LastDot(s)
  {
    if x != [] {
      assert x[|x| - 1] in x;
      assert (s + x)[..|s + x| - 1] == s + x[..|x| - 1];
      LastDotAppendPlain(s, x[..|x| - 1]);
    } else {
      assert s + x == s;
    }
  }

  /** Path.GetExtension: from the last dot to the end, or empty when there is no
      dot after the last separator or the dot is the last character. */
  function Extension(p: string): string {
    var i := LastDot(p);
    if i < 0 || i == |p| - 1 then "" else p[i..]
  }

  /** Path.GetFileNameWithoutExtension: the file name up to its last dot. */
  function FileNameWithoutExtension(path: string): string {
    var name := FileName(path);
    var i := LastDot(name);
    if i < 0 then name else name[..i]
  }

  lemma LastDotAtDot(stem: string)
    ensures LastDot(stem + ".") == |stem|
  {
    var dotted := stem + ".";
    assert dotted[|dotted| - 1] == '.';
  }

  lemma NoSeparatorAfterFirst(ext: string)
    requires |ext| >= 1 && NoSeparator(ext)
    ensures NoSeparator(ext[1..])
  {
    forall k | 0 <= k < |ext| - 1 ensures !IsSeparator(ext[1..][k]) {
      assert ext[1..][k] == ext[k + 1];
    }
  }

  /** The dot that starts ext is the last dot of stem + ext, when ext is a
      dot followed by plain text. */
  lemma LastDotOfStemAndExt(stem: string, ext: string)
    requires |ext| >= 2 && ext[0] == '.'
    requires '.' !in ext[1..] && NoSeparator(ext)
    ensures LastDot(stem + ext) == |stem|
  {
    LastDotAtDot(stem);
    NoSeparatorAfterFirst(ext);
    LastDotAppendPlain(stem + ".", ext[1..]);
    DotThenRest(stem, ext);
  }

  lemma DotThenRest(stem: string, ext: string)
    requires |ext| >= 1 && ext[0] == '.'
    ensures stem + ext == (stem + ".") + ext[1..]
  {
    assert ext == "." + ext[1..];
  }

  /** The extension of stem + ext, where ext is a dot followed by plain text, is ext. */
  lemma ExtensionOfStemAndExt(stem: string, ext: string)
    requires |ext| >= 2 && ext[0] == '.'
    requires '.' !in ext[1..] && NoSeparator(ext)
    ensures Extension(stem + ext) == ext
  {
    LastDotOfStemAndExt(stem, ext);
    assert (stem + ext)[|stem|..] == ext;
  }

  /** The directory part that Path.GetDirectoryName keeps: the text before the
      last '\\' or '/', or empty when there is none. */
  function DirectoryName(path: string): (dir: string)
    ensures |dir| < |path| || dir == []
    ensures dir == path[..|dir|]
  {
    if path == [] then []
    else if path[|path| - 1] == '\\' || path[|path| - 1] == '/' then path[..|path| - 1]
    else DirectoryName(path[..|path| - 1])
  }

  /** Path.Combine(dir, rel) for a relative, non-empty second part. */
  function Combine(dir: string, rel: string): (r: string)
    requires rel != []
    ensures Text.EndsWith(r, rel)
    ensures |dir| <= |r| && r[..|dir|] == dir
  {
    if dir == [] then rel
    else if IsSeparator(dir[|dir| - 1]) then dir + rel
    else dir + "\\" + rel
  }
}
