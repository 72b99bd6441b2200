/** The virtual filesystem paths of System/IO/Path.cs: a user path, the host
    directory that stands for it under ./Files, the `__<name>` data file inside
    that directory, the join of a parent path and a child name, and the name
    of a child directory found on disk. The disk operations themselves (Read,
    Write, Move, the directory listing) are not modelled; List is modelled on
    the listing it receives. */
module Paths {

  /** The host directory that holds the whole user filesystem. */
  const RootDirectory: string := "./Files"

  datatype Path = Path(userspacePath: string)
  {
    /** ToString and the implicit conversion to string. */
    function ToString(): string
    {
      userspacePath
    }
  }

  /** Every character of `s` is `c`. */
  predicate AllIs(s: string, c: char)
  {
    forall i :: 0 <= i < |s| ==> s[i] == c
  }

  /** string.TrimStart(char): the suffix left after the leading `c`s
      (characterized by TrimStartSpec). */
  function TrimStart(s: string, c: char): (r: string)
    ensures |r| <= |s|
  {
    if s != [] && s[0] == c then TrimStart(s[1..], c) else s
  }

  /** string.TrimEnd(char): the prefix left before the trailing `c`s
      (characterized by TrimEndSpec). */
  function TrimEnd(s: string, c: char): (r: string)
    ensures |r| <= |s|
  {
    if s != [] && s[|s| - 1] == c then TrimEnd(s[..|s| - 1], c) else s
  }

  predicate Separator(c: char)
  {
    c == '/' || c == '\\'
  }

  /** string.TrimEnd('/', '\\'): the prefix left before the trailing separators
      (characterized by TrimSeparatorsSpec). */
  function TrimSeparators(s: string): (r: string)
    ensures |r| <= |s|
  {
    if s != [] && Separator(s[|s| - 1]) then TrimSeparators(s[..|s| - 1]) else s
  }

  /** string.Replace(char, char): every `from` becomes `to`, nothing else changes. */
  function Replace(s: string, from: char, to: char): (r: string)
    ensures |r| == |s|
    ensures forall i :: 0 <= i < |s| ==> r[i] == (if s[i] == from then to else s[i])
  {
    seq(|s|, i requires 0 <= i < |s| => if s[i] == from then to else s[i])
  }

  /** string.LastIndexOf(char): the last index holding `c`, or -1. */
  function LastIndexOf(s: string, c: char): (r: int)
    ensures -1 <= r < |s|
    ensures r == -1 <==> c !in s
    ensures r >= 0 ==> s[r] == c
    ensures forall j :: r < j < |s| ==> s[j] != c
  {
    if s == [] then -1
    else if s[|s| - 1] == c then |s| - 1
    else LastIndexOf(s[..|s| - 1], c)
  }

  /** The part of `s` after its last `sep`, or all of `s` when it has none. */
  function After(s: string, sep: char): string
  {
    if sep in s then s[LastIndexOf(s, sep) + 1..] else s
  }

  /** The user path with its leading and then its trailing '/' removed, and then
      every '\\' turned into '/'. */
  function Normalize(userspacePath: string): string
  {
    Replace(TrimEnd(TrimStart(userspacePath, '/'), '/'), '\\', '/')
  }

  /** GetHostspacePath: the host directory standing for a user path. */
  function HostspacePath(userspacePath: string): string
  {
    RootDirectory + "/" + Normalize(userspacePath) + "/"
  }

  /** GetDataFilePath: the data file `__<name>` inside the host directory,
      where <name> is the last component of the normalized path. */
  function DataFilePath(userspacePath: string): string
  {
    var normalized := Normalize(userspacePath);
    var fileName := After(normalized, '/');
    RootDirectory + "/" + normalized + "/__" + fileName
  }

  /** new Path(path, append): the parent's trailing '/' and the child's leading
      '/' dropped, and one '/' between them. */
  function Join(parent: Path, append: string): Path
  {
    Path(TrimEnd(parent.userspacePath, '/') + "/" + TrimStart(append, '/'))
  }

  /** The name List gives to a host subdirectory: trailing '/' and '\\'
      dropped, then the part after the last '/', otherwise after the last '\\'. */
  function ChildName(subdir: string): string
  {
    var trimmed := TrimSeparators(subdir);
    if '/' in trimmed then After(trimmed, '/')
    else if '\\' in trimmed then After(trimmed, '\\')
    else trimmed
  }

  /** List, given the host subdirectories that Directory.GetDirectories reports
      (none when the host directory does not exist): one child path per
      subdirectory, in order, joined to `p` under its ChildName. */
  method List(p: Path, subdirs: seq<string>) returns (paths: array<Path>)
    ensures fresh(paths)
    ensures paths.Length == |subdirs|
    ensures forall i :: 0 <= i < |subdirs| ==> paths[i] == Join(p, ChildName(subdirs[i]))
  {
    paths := new Path[|subdirs|];
    for i := 0 to |subdirs|
      invariant forall k :: 0 <= k < i ==> paths[k] == Join(p, ChildName(subdirs[k]))
    {
      var dirName := ChildName(subdirs[i]);
      paths[i] := Join(p, dirName);
    }
  }

  // ------------------------------------------------------------------ Lemmas

  /** TrimStart removes exactly the leading run of `c`: what is left is a
      suffix that does not start with `c`, and what went is all `c`. */
  lemma {:induction false} TrimStartSpec(s: string, c: char)
    ensures var r := TrimStart(s, c);
      && r == s[|s| - |r|..]
      && AllIs(s[..|s| - |r|], c)
      && (r == [] || r[0] != c)
    decreases |s|
  {
    if s != [] && s[0] == c {
      TrimStartSpec(s[1..], c);
    }
  }

  /** TrimEnd removes exactly the trailing run of `c`: what is left is a
      prefix that does not end with `c`, and what went is all `c`. */
  lemma {:induction false} TrimEndSpec(s: string, c: char)
    ensures var r := TrimEnd(s, c);
      && r == s[..|r|]
      && AllIs(s[|r|..], c)
      && (r == [] || r[|r| - 1] != c)
    decreases |s|
  {
    if s != [] && s[|s| - 1] == c {
      TrimEndSpec(s[..|s| - 1], c);
    }
  }

  /** TrimSeparators removes exactly the trailing run of '/' and '\\'. */
  lemma {:induction false} TrimSeparatorsSpec(s: string)
    ensures var r := TrimSeparators(s);
      && r == s[..|r|]
      && (forall i :: |r| <= i < |s| ==> Separator(s[i]))
      && (r == [] || !Separator(r[|r| - 1]))
    decreases |s|
  {
    if s != [] && Separator(s[|s| - 1]) {
      TrimSeparatorsSpec(s[..|s| - 1]);
    }
  }

  /** The part after the last separator is a suffix without the separator, and
      it is the whole string or follows a separator. */
  lemma AfterIsLastComponent(s: string, sep: char)
    ensures var r := After(s, sep);
      && |r| <= |s| && r == s[|s| - |r|..]
      && sep !in r
      && (r == s || s[|s| - |r| - 1] == sep)
  {
    var r := After(s, sep);
    if sep in s {
      var k := LastIndexOf(s, sep);
      forall j | 0 <= j < |r| ensures r[j] != sep {
        assert r[j] == s[k + 1 + j];
      }
    }
  }

  /** The normalized path has no '\\' and is never longer than the user path. */
  lemma NormalizeHasNoBackslash(userspacePath: string)
    ensures '\\' !in Normalize(userspacePath)
    ensures |Normalize(userspacePath)| <= |userspacePath|
  {
    var n := Normalize(userspacePath);
    forall i | 0 <= i < |n| ensures n[i] != '\\' {
    }
  }

  /** A user path without '\\' normalizes to one that neither starts nor ends
      with '/'. */
  lemma NormalizeStripsSlashes(userspacePath: string)
    requires '\\' !in userspacePath
    ensures var n := Normalize(userspacePath);
      n == [] || (n[0] != '/' && n[|n| - 1] != '/')
  {
    var a := TrimStart(userspacePath, '/');
    var b := TrimEnd(a, '/');
    TrimStartSpec(userspacePath, '/');
    TrimEndSpec(a, '/');
    if b != [] {
      assert b[0] == a[0];
      assert b[0] == userspacePath[|userspacePath| - |a|];
      assert b[|b| - 1] == userspacePath[|userspacePath| - |a| + |b| - 1];
    }
  }

  /** Trimming happens before the replacement: a trailing '\\' survives as a
      '/' inside the host path, which then ends in "//". */
  lemma TrailingBackslash()
    ensures HostspacePath("a\\") == "./Files/a//"
  {
    assert TrimStart("a\\", '/') == "a\\";
    assert TrimEnd("a\\", '/') == "a\\";
    assert Replace("a\\", '\\', '/') == "a/";
  }

  /** The data file lies inside the host directory: the host path is a proper
      prefix, followed by "__" and the last component of the normalized path,
      and the data file path contains "/__". */
  lemma DataFileInsideHostDirectory(userspacePath: string)
    ensures var h := HostspacePath(userspacePath);
      var d := DataFilePath(userspacePath);
      && |h| < |d| && d[..|h|] == h
      && d == h + "__" + After(Normalize(userspacePath), '/')
      && d[|h| - 1..|h| + 2] == "/__"
  {
  }

  /** The file name of the data file contains no '/' or '\\' and is the last
      component of the normalized path. */
  lemma DataFileName(userspacePath: string)
    ensures var n := Normalize(userspacePath);
      var f := After(n, '/');
      && '/' !in f && '\\' !in f
      && DataFilePath(userspacePath) == HostspacePath(userspacePath) + "__" + f
      && n[|n| - |f|..] == f
  {
    NormalizeHasNoBackslash(userspacePath);
    AfterIsLastComponent(Normalize(userspacePath), '/');
  }

  /** ToString gives back the user path the one-argument constructor was given. */
  lemma ToStringRoundTrip(s: string)
    ensures Path(s).ToString() == s
  {
  }

  /** Exactly one '/' is introduced at the join: the parent without its
      trailing '/', then '/', then the child without its leading '/'. */
  lemma JoinHasOneSlash(parent: Path, append: string)
    ensures var a := TrimEnd(parent.userspacePath, '/');
      var b := TrimStart(append, '/');
      Join(parent, append).userspacePath == a + "/" + b
    ensures var a := TrimEnd(parent.userspacePath, '/');
      && (a == [] || a[|a| - 1] != '/')
      && parent.userspacePath[..|a|] == a && AllIs(parent.userspacePath[|a|..], '/')
    ensures var b := TrimStart(append, '/');
      && (b == [] || b[0] != '/')
      && append[|append| - |b|..] == b && AllIs(append[..|append| - |b|], '/')
  {
    TrimEndSpec(parent.userspacePath, '/');
    TrimStartSpec(append, '/');
  }

  /** Leading trimming stops inside `a` when `a` has a character other than `c`. */
  lemma {:induction false} TrimStartConcat(a: string, b: string, c: char)
    requires !AllIs(a, c)
    ensures TrimStart(a + b, c) == TrimStart(a, c) + b
    decreases |a|
  {
    if a[0] == c {
      assert (a + b)[1..] == a[1..] + b;
      TrimStartConcat(a[1..], b, c);
    }
  }

  /** Trailing trimming stops inside `b` when `b` has a character other than `c`. */
  lemma {:induction false} TrimEndConcat(a: string, b: string, c: char)
    requires !AllIs(b, c)
    ensures TrimEnd(a + b, c) == a + TrimEnd(b, c)
    decreases |b|
  {
    if b[|b| - 1] == c {
      assert (a + b)[..|a + b| - 1] == a + b[..|b| - 1];
      TrimEndConcat(a, b[..|b| - 1], c);
    }
  }

  /** Leading characters that are all `c` disappear under TrimStart. */
  lemma {:induction false} TrimStartSkips(a: string, b: string, c: char)
    requires AllIs(a, c)
    ensures TrimStart(a + b, c) == TrimStart(b, c)
    decreases |a|
  {
    if a != [] {
      assert (a + b)[1..] == a[1..] + b;
      TrimStartSkips(a[1..], b, c);
    } else {
      assert a + b == b;
    }
  }

  /** Trimming both ends gives the same result in either order. */
  lemma TrimCommutes(s: string, c: char)
    ensures TrimEnd(TrimStart(s, c), c) == TrimStart(TrimEnd(s, c), c)
  {
    var t := TrimStart(s, c);
    TrimStartSpec(s, c);
    var k := |s| - |t|;
    assert s == s[..k] + t;
    TrimEndSpec(t, c);
    if t == [] {
      assert s[..k] == s;
      TrimEndAllIs(s, c);
    } else {
      assert !AllIs(t, c);
      TrimEndConcat(s[..k], t, c);
      var u := TrimEnd(t, c);
      assert u != [] by {
        assert t[0..] == t;
      }
      assert u[0] == t[0];
      TrimStartSkips(s[..k], u, c);
    }
  }

  lemma {:induction false} TrimEndAllIs(s: string, c: char)
    requires AllIs(s, c)
    ensures TrimEnd(s, c) == []
    decreases |s|
  {
    if s != [] {
      TrimEndAllIs(s[..|s| - 1], c);
    }
  }

  lemma ReplaceConcat(a: string, b: string, from: char, to: char)
    ensures Replace(a + b, from, to) == Replace(a, from, to) + Replace(b, from, to)
  {
    var l := Replace(a + b, from, to);
    var r := Replace(a, from, to) + Replace(b, from, to);
    forall i | 0 <= i < |l| ensures l[i] == r[i] {
      if i >= |a| { assert (a + b)[i] == b[i - |a|]; }
    }
  }

  /** The normal form of a joined path is the parent's and the child's normal
      forms with one '/' between them; an empty side (a root or an all-'/'
      name) contributes nothing. */
  lemma JoinNormalizes(parent: Path, append: string)
    ensures var np := Normalize(parent.userspacePath);
      var nc := Normalize(append);
      Normalize(Join(parent, append).userspacePath)
        == if np == [] then nc else if nc == [] then np else np + "/" + nc
  {
    var P := parent.userspacePath;
    var a := TrimEnd(P, '/');
    var b := TrimStart(append, '/');
    TrimEndSpec(P, '/');
    TrimStartSpec(append, '/');
    TrimCommutes(P, '/');
    assert Normalize(P) == Replace(TrimStart(a, '/'), '\\', '/');
    assert TrimStart(b, '/') == b;
    assert Normalize(append) == Replace(TrimEnd(b, '/'), '\\', '/');
    KeepsLast(a);
    KeepsFirst(b);
    if a == [] {
      var j := "/" + b;
      assert j[1..] == b;
    } else {
      JoinAfterParent(a, b);
    }
  }

  /** A non-empty string not ending in '/' keeps a last character other than
      '/' under TrimStart. */
  lemma KeepsLast(a: string)
    requires a == [] || a[|a| - 1] != '/'
    ensures var sa := TrimStart(a, '/');
      (sa == []) == (a == []) && (sa == [] || sa[|sa| - 1] != '/')
  {
    TrimStartSpec(a, '/');
    assert a[..|a|] == a;
  }

  /** A non-empty string not starting with '/' keeps a first character other
      than '/' under TrimEnd. */
  lemma KeepsFirst(b: string)
    requires b == [] || b[0] != '/'
    ensures var eb := TrimEnd(b, '/');
      (eb == []) == (b == []) && (eb == [] || eb[0] != '/')
  {
    TrimEndSpec(b, '/');
    assert b[0..] == b;
  }

  /** The join step of JoinNormalizes for a parent that is not all '/'. */
  lemma JoinAfterParent(a: string, b: string)
    requires a != [] && a[|a| - 1] != '/'
    requires b == [] || b[0] != '/'
    ensures var sa := TrimStart(a, '/');
      var eb := TrimEnd(b, '/');
      Replace(TrimEnd(TrimStart(a + "/" + b, '/'), '/'), '\\', '/')
        == if b == [] then Replace(sa, '\\', '/') else Replace(sa, '\\', '/') + "/" + Replace(eb, '\\', '/')
  {
    var sa := TrimStart(a, '/');
    KeepsLast(a);
    JoinTrimStart(a, b);
    if b == [] {
      assert (sa + "/") + b == sa + "/";
      assert (sa + "/")[..|sa|] == sa;
    } else {
      ReplaceAround(sa, b);
    }
  }

  lemma JoinTrimStart(a: string, b: string)
    requires a != [] && a[|a| - 1] != '/'
    ensures TrimStart(a + "/" + b, '/') == (TrimStart(a, '/') + "/") + b
  {
    assert !AllIs(a, '/');
    var t := "/" + b;
    assert a + "/" + b == a + t;
    TrimStartConcat(a, t, '/');
    assert TrimStart(a, '/') + t == (TrimStart(a, '/') + "/") + b;
  }

  lemma ReplaceAround(sa: string, b: string)
    requires b != [] && b[0] != '/'
    ensures Replace(TrimEnd((sa + "/") + b, '/'), '\\', '/')
         == Replace(sa, '\\', '/') + "/" + Replace(TrimEnd(b, '/'), '\\', '/')
  {
    var eb := TrimEnd(b, '/');
    assert !AllIs(b, '/');
    TrimEndConcat(sa + "/", b, '/');
    ReplaceConcat(sa + "/", eb, '\\', '/');
    ReplaceConcat(sa, "/", '\\', '/');
  }

  /** A child's host directory lies inside its parent's host directory (for a
      parent and a child name that are not empty after normalization). */
  lemma ChildInsideParent(parent: Path, append: string)
    requires Normalize(parent.userspacePath) != [] && Normalize(append) != []
    ensures var hp := HostspacePath(parent.userspacePath);
      var hc := HostspacePath(Join(parent, append).userspacePath);
      hc == hp + Normalize(append) + "/"
  {
    JoinNormalizes(parent, append);
  }

  /** The name List derives for a subdirectory contains no '/', and no '\\'
      either when the trimmed subdirectory path has no '/'. */
  lemma ChildNameIsLastComponent(subdir: string)
    ensures var trimmed := TrimSeparators(subdir);
      var r := ChildName(subdir);
      && '/' !in r
      && ('/' !in trimmed ==> '\\' !in r)
      && |r| <= |trimmed| && trimmed[|trimmed| - |r|..] == r
  {
    var trimmed := TrimSeparators(subdir);
    if '/' in trimmed {
      AfterIsLastComponent(trimmed, '/');
    } else if '\\' in trimmed {
      AfterIsLastComponent(trimmed, '\\');
      SuffixAvoids(trimmed, After(trimmed, '\\'), '/');
    } else {
      assert trimmed[|trimmed| - |trimmed|..] == trimmed;
    }
  }

  /** A suffix has no character that the whole has not. */
  lemma SuffixAvoids(s: string, r: string, c: char)
    requires c !in s && |r| <= |s| && r == s[|s| - |r|..]
    ensures c !in r
  {
    forall j | 0 <= j < |r| ensures r[j] != c {
      assert r[j] == s[|s| - |r| + j];
    }
  }

  /** List names a subdirectory `<host directory><name>` reported by the disk,
      with or without trailing separators, by `name` itself. */
  lemma ListedNameRoundTrip(p: Path, name: string, tail: string)
    requires name != [] && '/' !in name && '\\' !in name
    requires forall i :: 0 <= i < |tail| ==> Separator(tail[i])
    ensures ChildName(HostspacePath(p.userspacePath) + name + tail) == name
  {
    var h := HostspacePath(p.userspacePath);
    var hn := h + name;
    SeparatorsSkip(hn, tail);
    assert TrimSeparators(hn) == hn by {
      assert hn[|hn| - 1] == name[|name| - 1];
    }
    assert hn[|h| - 1] == '/';
    assert forall j :: |h| <= j < |hn| ==> hn[j] == name[j - |h|];
    var k := LastIndexOf(hn, '/');
    assert k == |h| - 1;
    assert hn[k + 1..] == name;
  }

  /** Trailing separators disappear under TrimSeparators. */
  lemma {:induction false} SeparatorsSkip(a: string, b: string)
    requires forall i :: 0 <= i < |b| ==> Separator(b[i])
    ensures TrimSeparators(a + b) == TrimSeparators(a)
    decreases |b|
  {
    if b != [] {
      assert (a + b)[..|a + b| - 1] == a + b[..|b| - 1];
      SeparatorsSkip(a, b[..|b| - 1]);
    } else {
      assert a + b == a;
    }
  }
}
