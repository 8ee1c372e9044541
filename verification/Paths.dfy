/** The parts of a path: its last component, split at the last dot. */
module Paths {
  import opened Wrappers

  function LastIndex(s: string, c: char): (k: Option<nat>)
    ensures k.None? <==> c !in s
    ensures k.Some? ==> k.value < |s| && s[k.value] == c && c !in s[k.value + 1..]
  {
    if s == [] then None
    else
      match LastIndex(s[1..], c)
      case Some(k) => assert s[1..][k + 1..] == s[k + 2..]; Some(k + 1)
      case None => if s[0] == c then Some(0) else None
  }

  /** `Path::file_name`: empty and `.` components at the end are skipped; `..` has no name. */
  function FileName(path: string): (name: Option<string>)
    ensures name.Some? ==> name.value != "" && '/' !in name.value
    decreases |path|
  {
    var slash := LastIndex(path, '/');
    var last := if slash.Some? then path[slash.value + 1..] else path;
    if last == "" || last == "." then (if slash.Some? then FileName(path[..slash.value]) else None)
    else if last == ".." then None
    else Some(last)
  }

  /** The position of the dot that starts an extension; a leading dot does not. */
  function ExtensionDot(name: string): (k: Option<nat>)
    ensures k.Some? ==> 0 < k.value < |name| && name[k.value] == '.'
  {
    var k := LastIndex(name, '.');
    if k == Some(0) then None else k
  }

  function FileStem(path: string): Option<string> {
    var name := FileName(path);
    if name.None? then None
    else
      var k := ExtensionDot(name.value);
      if k.None? then name else Some(name.value[..k.value])
  }

  function Extension(path: string): Option<string> {
    var name := FileName(path);
    if name.None? then None
    else
      var k := ExtensionDot(name.value);
      if k.None? then None else Some(name.value[k.value + 1..])
  }

  /** A stem without separators and dots is its own path, name and stem. */
  lemma PlainName(s: string)
    requires s != "" && '/' !in s && '.' !in s
    ensures FileName(s) == Some(s) && FileStem(s) == Some(s) && Extension(s) == None
  {
    assert "."[0] == '.' && ".."[0] == '.';
  }

  lemma {:induction false} LastOf(a: string, c: char, b: string)
    requires c !in b
    ensures LastIndex(a + [c] + b, c) == Some(|a|)
  {
    var s := a + [c] + b;
    if a == "" {
      assert s[1..] == b;
    } else {
      assert s[1..] == a[1..] + [c] + b;
      LastOf(a[1..], c, b);
    }
  }

  /** A directory with its separator, or nothing. */
  predicate IsDirectoryPart(s: string) {
    s == "" || s[|s| - 1] == '/'
  }

  lemma NameIn(directory: string, name: string)
    requires IsDirectoryPart(directory) && name != "" && name != "." && name != ".." && '/' !in name
    ensures FileName(directory + name) == Some(name)
  {
    if directory == "" {
      assert directory + name == name;
    } else {
      var init := directory[..|directory| - 1];
      assert directory == init + ['/'];
      LastOf(init, '/', name);
      assert (directory + name)[|init| + 1..] == name;
    }
  }

  /** A name in any directory is split at its last dot, unless that is its first character. */
  lemma NameIsSplit(directory: string, stem: string, extension: string)
    requires IsDirectoryPart(directory) && '/' !in stem && '/' !in extension && '.' !in extension
    requires stem != "" && !(stem == "." && extension == "")
    ensures var path := directory + (stem + "." + extension);
            FileName(path) == Some(stem + "." + extension) && FileStem(path) == Some(stem) && Extension(path) == Some(extension)
  {
    var name := stem + "." + extension;
    assert name[|stem|] == '.';
    if |name| == 2 { assert name[0] == stem[0]; }
    assert name != "." && name != "..";
    NameIn(directory, name);
    LastOf(stem, '.', extension);
    assert name[..|stem|] == stem && name[|stem| + 1..] == extension;
  }

  /** A name without a dot, or with its only one in front, has no extension. */
  lemma NameWithoutExtension(directory: string, name: string)
    requires IsDirectoryPart(directory) && '/' !in name && name != "" && '.' !in name
    ensures FileStem(directory + name) == Some(name) && Extension(directory + name).None?
    ensures FileStem(directory + ("." + name)) == Some("." + name) && Extension(directory + ("." + name)).None?
  {
    assert name[0] != '.';
    NameIn(directory, name);
    var hidden := "." + name;
    assert hidden[1] == name[0];
    NameIn(directory, hidden);
    LastOf("", '.', name);
    assert "" + ['.'] + name == hidden;
  }

  /** Separators and single dots at the end of a path are skipped. */
  lemma EndSkipped(path: string)
    ensures FileName(path + "/") == FileName(path) && FileName(path + "/.") == FileName(path)
  {
    LastOf(path, '/', "");
    LastOf(path, '/', ".");
    assert path + ['/'] + "" == path + "/" && path + ['/'] + "." == path + "/.";
    assert (path + "/")[|path| + 1..] == "" && (path + "/.")[|path| + 1..] == ".";
    assert (path + "/")[..|path|] == path && (path + "/.")[..|path|] == path;
  }

  /** The parent directory has no name, and neither have the root and nothing. */
  lemma ParentHasNoName(directory: string)
    requires IsDirectoryPart(directory)
    ensures FileName(directory + "..").None? && FileName("").None? && FileName("/").None?
  {
    if directory == "" {
      assert directory + ".." == "..";
      assert '/' !in "..";
    } else {
      var init := directory[..|directory| - 1];
      assert directory == init + ['/'];
      LastOf(init, '/', "..");
      assert init + ['/'] + ".." == directory + "..";
      assert (directory + "..")[|init| + 1..] == "..";
    }
    EndSkipped("");
    assert "" + "/" == "/";
  }
}
