/**
 * The two parts of a POSIX path that the source reads: the final component
 * (`PurePath.name`) and that component without its last suffix
 * (`PurePath.stem`).
 */
module PurePath {
  import opened Text

  /**
   * `Path(path).name`: the last component, or "" for a path with none. As
   * `PurePosixPath` parses a path, empty and `.` components do not count.
   */
  function Name(path: string): (n: string)
    ensures '/' !in n && n != "."
    decreases |path|
  {
    var i := LastIndexOf(path, '/');
    var last := path[i + 1..];
    if last != "" && last != "." then last
    else if i < 0 then ""
    else Name(path[..i])
  }

  /**
   * `Path(name).stem`: the name without its last suffix; a leading or
   * trailing dot starts none. The stem is a prefix of the name that is
   * either the name itself, or the name cut at its last dot, which is
   * neither its first nor its last character; it is cut exactly when the
   * last dot is such a dot.
   */
  function Stem(name: string): (r: string)
    ensures StartsWith(name, r)
    ensures r == name || (0 < |r| < |name| - 1 && name[|r|] == '.' && '.' !in name[|r| + 1..])
    ensures r != name <==>
            exists k :: 0 < k < |name| - 1 && name[k] == '.' && forall j :: k < j < |name| ==> name[j] != '.'
  {
    var i := LastIndexOf(name, '.');
    if 0 < i < |name| - 1 then
      assert |name[..i]| == i;
      name[..i]
    else name
  }

  /** A plain file name is its own name. */
  lemma NameOfPlain(name: string)
    requires name != "" && name != "." && '/' !in name
    ensures Name(name) == name
  {
    assert forall k :: 0 <= k < |name| ==> name[k] != '/';
    assert LastIndexOf(name, '/') == -1;
  }

  /** The name of `dir/name` is `name`, for a plain file name, whatever the directory. */
  lemma NameOfJoined(dir: string, name: string)
    requires name != "" && name != "." && '/' !in name
    ensures Name(dir + "/" + name) == name
  {
    var p := dir + "/" + name;
    assert p[|dir|] == '/';
    assert forall k :: |dir| < k < |p| ==> p[k] == name[k - |dir| - 1];
    assert LastIndexOf(p, '/') == |dir|;
    assert p[|dir| + 1..] == name;
  }

  /** A trailing slash, or a trailing `/.`, leaves the name as it was. */
  lemma NameIgnoresTrailing(path: string)
    ensures Name(path + "/") == Name(path)
    ensures Name(path + "/.") == Name(path)
  {
    var p := path + "/";
    assert p[|path|] == '/';
    assert LastIndexOf(p, '/') == |path|;
    assert p[..|path|] == path;
    var q := path + "/.";
    assert q[|path|] == '/' && q[|path| + 1] == '.';
    assert LastIndexOf(q, '/') == |path|;
    assert q[|path| + 1..] == ".";
    assert q[..|path|] == path;
  }

}
