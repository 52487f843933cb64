/** `path.extname` from Node's `path` module, on POSIX paths. */
module NodePath {
  import opened Wrappers

  /** The path without its trailing slashes. */
  function TrimSlashes(p: string): (r: string)
    ensures |r| <= |p| && r == p[..|r|] && (r == [] || r[|r| - 1] != '/')
  {
    if p != [] && p[|p| - 1] == '/' then TrimSlashes(p[..|p| - 1]) else p
  }

  /** The position of the last `c` in `s`. */
  function LastIndexOf(s: string, c: char): (r: Option<nat>)
    ensures r.Some? ==> r.value < |s| && s[r.value] == c && forall k :: r.value < k < |s| ==> s[k] != c
    ensures r.None? ==> forall k :: 0 <= k < |s| ==> s[k] != c
  {
    if s == [] then None
    else if s[|s| - 1] == c then Some(|s| - 1)
    else LastIndexOf(s[..|s| - 1], c)
  }

  /** The last component of the path: what follows its last slash once trailing slashes are gone. */
  function LastPart(p: string): (r: string)
    ensures forall k :: 0 <= k < |r| ==> r[k] != '/'
  {
    var t := TrimSlashes(p);
    match LastIndexOf(t, '/')
    case None => t
    case Some(i) => t[i + 1..]
  }

  /**
    `path.extname(p)`: the last component from its last dot on; empty when the
    component has no dot, when its last dot is its first character (`.bashrc`), or
    when it is `..`.
  */
  function ExtName(p: string): (r: string)
    ensures r == [] || (r[0] == '.' && forall k :: 1 <= k < |r| ==> r[k] != '.' && r[k] != '/')
  {
    var part := LastPart(p);
    match LastIndexOf(part, '.')
    case None => []
    case Some(i) => if i == 0 || part == ".." then [] else part[i..]
  }

  /** A name with a stem and a dot-free suffix has that suffix, with its dot, as extension. */
  lemma ExtNameOf(stem: string, suffix: string)
    requires stem != [] && suffix != []
    requires forall k :: 0 <= k < |stem| ==> stem[k] != '/'
    requires forall k :: 0 <= k < |suffix| ==> suffix[k] != '.' && suffix[k] != '/'
    ensures ExtName(stem + "." + suffix) == "." + suffix
  {
    var p := stem + "." + suffix;
    assert p[|p| - 1] == suffix[|suffix| - 1];
    assert TrimSlashes(p) == p;
    assert forall k :: 0 <= k < |p| ==> p[k] != '/' by {
      forall k | 0 <= k < |p| ensures p[k] != '/'
      {
        if k < |stem| { assert p[k] == stem[k]; }
        else if k > |stem| { assert p[k] == suffix[k - |stem| - 1]; }
      }
    }
    assert LastPart(p) == p;
    assert forall k :: |stem| < k < |p| ==> p[k] != '.' by {
      forall k | |stem| < k < |p| ensures p[k] != '.'
      {
        assert p[k] == suffix[k - |stem| - 1];
      }
    }
    assert p[|stem|] == '.';
    assert LastIndexOf(p, '.') == Some(|stem|);
    assert p[|stem|..] == "." + suffix;
  }

  /** A hidden file's name, a dot followed by dot-free text, has no extension. */
  lemma HiddenFileHasNoExt(name: string)
    requires forall k :: 0 <= k < |name| ==> name[k] != '.' && name[k] != '/'
    ensures ExtName("." + name) == []
  {
    var p := "." + name;
    if name != [] {
      assert p[|p| - 1] == name[|name| - 1];
    }
    assert TrimSlashes(p) == p;
    assert forall k :: 0 <= k < |p| ==> p[k] != '/' by {
      forall k | 0 <= k < |p| ensures p[k] != '/'
      {
        if k > 0 { assert p[k] == name[k - 1]; }
      }
    }
    assert LastPart(p) == p;
    assert forall k :: 0 < k < |p| ==> p[k] != '.' by {
      forall k | 0 < k < |p| ensures p[k] != '.'
      {
        assert p[k] == name[k - 1];
      }
    }
    assert p[0] == '.';
    assert LastIndexOf(p, '.') == Some(0);
  }
}
