/** The config-file name handling of LoadConfig: the base name of the path
    (Go's `filepath.Base`, with `/` as the separator) is split on `.`; the two
    parts become the config name and type only when there are exactly two. */
module ConfigFile {
  import opened Strings

  function DropTrailingSlashes(p: string): (r: string)
    ensures |r| <= |p| && r == p[..|r|]
    ensures r == [] || r[|r| - 1] != '/'
    ensures forall i :: |r| <= i < |p| ==> p[i] == '/'
  {
    if p != [] && p[|p| - 1] == '/' then DropTrailingSlashes(p[..|p| - 1]) else p
  }

  /** The text after the last `/`. */
  function AfterLastSlash(p: string): (r: string)
    ensures |r| <= |p| && r == p[|p| - |r|..]
    ensures '/' !in r
    ensures |r| < |p| ==> p[|p| - |r| - 1] == '/'
  {
    if p == [] then []
    else if p[|p| - 1] == '/' then []
    else
      var r := AfterLastSlash(p[..|p| - 1]);
      assert p[..|p| - 1][|p| - 1 - |r|..] + [p[|p| - 1]] == p[|p| - |r| - 1..];
      r + [p[|p| - 1]]
  }

  /** Go's `filepath.Base`: "." for the empty path, "/" for a path of slashes
      only, else the last element with trailing slashes removed. */
  function Base(path: string): (b: string)
    ensures b != []
    ensures b == "/" || b == "." || '/' !in b
    ensures path == [] ==> b == "."
    ensures path != [] && DropTrailingSlashes(path) == [] ==> b == "/"
    ensures DropTrailingSlashes(path) != [] ==>
      var t := DropTrailingSlashes(path);
      '/' !in b && |b| <= |t| && b == t[|t| - |b|..] && (|b| == |t| || t[|t| - |b| - 1] == '/')
  {
    if path == [] then "."
    else
      var t := DropTrailingSlashes(path);
      if t == [] then "/" else AfterLastSlash(t)
  }

  /** Splitting on `.` gives two parts exactly when there is one `.`, and
      then the parts rejoin to the text. */
  lemma DotSplit(s: string)
    ensures |Split(s, '.')| == 2 <==> Count(s, '.') == 1
    ensures |Split(s, '.')| == 2 ==> Split(s, '.')[0] + "." + Split(s, '.')[1] == s
  {
    var splits := Split(s, '.');
    SplitLength(s, '.');
    JoinOfSplit(s, '.');
    if |splits| == 2 {
      assert splits[1..] == [splits[1]];
    }
  }

  /** The config name and type LoadConfig derives from the config file path:
      the two sides of the only `.` of the base name, or both empty. */
  function NameParts(path: string): (parts: (string, string))
    ensures Count(Base(path), '.') == 1 ==>
      parts.0 + "." + parts.1 == Base(path) && '.' !in parts.0 && '.' !in parts.1
    ensures Count(Base(path), '.') != 1 ==> parts == ("", "")
  {
    var b := Base(path);
    var splits := Split(b, '.');
    DotSplit(b);
    if |splits| == 2 then (splits[0], splits[1]) else ("", "")
  }
}
