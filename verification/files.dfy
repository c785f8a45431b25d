/** Path strings as `java.io.File` builds them on a Unix file system:
    `new File(path)` normalizes the path, and `new File(parent, child)`
    joins a parent path and a normalized child. */
module Files {

  /** A '/' at `i` and another right after it. */
  predicate DoubleSlashAt(s: string, i: int)
    requires 0 <= i < |s| - 1
  {
    s[i] == '/' && s[i + 1] == '/'
  }

  /** No two '/' in a row. */
  predicate NoDoubleSlash(s: string)
  {
    forall i :: 0 <= i < |s| - 1 ==> !DoubleSlashAt(s, i)
  }

  /** The form `java.io.File` keeps a path in: no repeated '/', and no
      trailing '/' except for the root "/". */
  predicate Normalized(s: string)
  {
    NoDoubleSlash(s) && (|s| <= 1 || s[|s| - 1] != '/')
  }

  /** A path as a `java.io.File` holds it. */
  type Path = s: string | Normalized(s) witness ""

  /** `s` with every '/' that directly follows another '/' left out, read
      from the end: the reference for what collapsing keeps. */
  function Squeeze(s: string): (r: string)
    decreases |s|
  {
    if |s| == 0 then ""
    else Squeeze(s[..|s| - 1]) + (if 1 < |s| && s[|s| - 2] == '/' && s[|s| - 1] == '/' then "" else [s[|s| - 1]])
  }

  /** Squeezing from the front: the first character stays unless it is a
      '/' followed by another. */
  lemma {:induction false} SqueezeCons(c: char, t: string)
    ensures Squeeze([c] + t) == (if 0 < |t| && c == '/' && t[0] == '/' then "" else [c]) + Squeeze(t)
    decreases |t|
  {
    var u := [c] + t;
    if |t| == 0 {
      assert Squeeze(u) == Squeeze(u[..0]) + [c];
    } else {
      var t' := t[..|t| - 1];
      assert u[..|u| - 1] == [c] + t';
      SqueezeCons(c, t');
      var last := if u[|u| - 2] == '/' && u[|u| - 1] == '/' then "" else [u[|u| - 1]];
      assert Squeeze(u) == Squeeze([c] + t') + last;
      if |t'| == 0 {
        assert Squeeze(t) == Squeeze(t') + [t[0]];
      } else {
        assert u[|u| - 2] == t[|t| - 2];
        assert Squeeze(t) == Squeeze(t') + last;
      }
    }
  }

  /** `s` with its '/' characters deleted: the names a path is made of. */
  function Unslash(s: string): (r: string)
    ensures '/' !in r
    decreases |s|
  {
    if |s| == 0 then ""
    else Unslash(s[..|s| - 1]) + (if s[|s| - 1] == '/' then "" else [s[|s| - 1]])
  }

  /** Squeezing deletes only '/' characters. */
  lemma {:induction false} UnslashSqueeze(s: string)
    ensures Unslash(Squeeze(s)) == Unslash(s)
    decreases |s|
  {
    if 0 < |s| {
      var a := Squeeze(s[..|s| - 1]);
      UnslashSqueeze(s[..|s| - 1]);
      if 1 < |s| && s[|s| - 2] == '/' && s[|s| - 1] == '/' {
        assert Squeeze(s) == a;
      } else {
        assert (a + [s[|s| - 1]])[..|a|] == a;
      }
    }
  }

  /** Collapses every run of '/' to a single '/'. */
  function Collapse(s: string): (r: string)
    ensures NoDoubleSlash(r)
    ensures |r| <= |s|
    ensures 0 < |s| ==> 0 < |r| && r[0] == s[0] && r[|r| - 1] == s[|s| - 1]
    ensures NoDoubleSlash(s) ==> r == s
    decreases |s|
  {
    if |s| <= 1 then s
    else if s[0] == '/' && s[1] == '/' then
      assert DoubleSlashAt(s, 0);
      Collapse(s[1..])
    else
      var t := Collapse(s[1..]);
      assert NoDoubleSlash(s) ==> NoDoubleSlash(s[1..]) by {
        if NoDoubleSlash(s) {
          forall i | 0 <= i < |s[1..]| - 1 ensures !DoubleSlashAt(s[1..], i) {
            assert !DoubleSlashAt(s, i + 1);
            assert s[1..][i] == s[i + 1] && s[1..][i + 1] == s[i + 2];
          }
        }
      }
      var r := [s[0]] + t;
      forall i | 0 <= i < |r| - 1 ensures !DoubleSlashAt(r, i) {
        if 0 < i { assert !DoubleSlashAt(t, i - 1); assert r[i] == t[i - 1] && r[i + 1] == t[i]; }
      }
      r
  }

  /** Collapsing keeps exactly what squeezing keeps. */
  lemma {:induction false} CollapseIsSqueeze(s: string)
    ensures Collapse(s) == Squeeze(s)
    decreases |s|
  {
    if |s| == 1 {
      assert Squeeze(s) == Squeeze(s[..0]) + [s[0]];
    } else if 1 < |s| {
      CollapseIsSqueeze(s[1..]);
      SqueezeCons(s[0], s[1..]);
      assert s == [s[0]] + s[1..];
    }
  }

  /** `new File(s).getPath()` on Unix: runs of '/' collapse and a trailing
      '/' is dropped, except for the root. */
  function Normalize(s: string): (r: string)
    ensures Normalized(r)
    ensures Normalized(s) ==> r == s
    ensures var q := Squeeze(s); r == q || (1 < |q| && r + "/" == q)
    ensures Unslash(r) == Unslash(s)
  {
    CollapseIsSqueeze(s);
    UnslashSqueeze(s);
    var c := Collapse(s);
    if 1 < |c| && c[|c| - 1] == '/' then
      var r := c[..|c| - 1];
      assert !DoubleSlashAt(c, |c| - 2);
      assert r[|r| - 1] == c[|c| - 2];
      forall i | 0 <= i < |r| - 1 ensures !DoubleSlashAt(r, i) {
        assert !DoubleSlashAt(c, i);
      }
      assert !Normalized(s);
      assert c == r + "/";
      assert Unslash(c) == Unslash(r) by { assert c[..|c| - 1] == r; }
      r
    else c
  }

  /** Normalizing twice is normalizing once. */
  lemma NormalizeIdempotent(s: string)
    ensures Normalize(Normalize(s)) == Normalize(s)
  {
  }

  /** `new File(parent, child).getPath()` on Unix for a child already in
      normal form: one '/' between the two, an empty parent standing for the
      root, and a child that itself begins with '/' appended as is. */
  function Resolve(parent: Path, child: Path): (r: string)
    ensures child != "/" ==> Normalized(r)
    ensures child == "" ==> r == (if parent == "" then "/" else parent)
    ensures 0 < |child| && child[0] != '/' ==>
              r == (if parent == "" || parent == "/" then "/" else parent + "/") + child
    ensures 0 < |child| && child[0] == '/' ==>
              r == (if parent == "" || parent == "/" then "" else parent) + child
  {
    var p := if parent == "" then "/" else parent;
    if child == "" then p
    else if p == "/" then
      if child[0] == '/' then child
      else
        AppendNormalized("/", child);
        "/" + child
    else
      assert p[|p| - 1] != '/';
      if child == "/" then p + child
      else if child[0] == '/' then
        AppendNormalized(p, child);
        p + child
      else
        AppendNormalized("/", child);
        AppendNormalized(p, "/" + child);
        assert p + ("/" + child) == p + "/" + child;
        p + "/" + child
  }

  /** Two normal paths that do not meet in "//" join into a normal path, as
      long as the second is neither empty nor the root. */
  lemma AppendNormalized(a: string, b: string)
    requires NoDoubleSlash(a) && Normalized(b) && b != "" && b != "/"
    requires 0 < |a| ==> !(a[|a| - 1] == '/' && b[0] == '/')
    ensures Normalized(a + b)
  {
    NoDoubleSlashAppend(a, b);
    assert (a + b)[|a + b| - 1] == b[|b| - 1];
  }

  lemma NoDoubleSlashAppend(a: string, b: string)
    requires NoDoubleSlash(a) && NoDoubleSlash(b)
    requires 0 < |a| && 0 < |b| ==> !(a[|a| - 1] == '/' && b[0] == '/')
    ensures NoDoubleSlash(a + b)
  {
    var s := a + b;
    forall i | 0 <= i < |s| - 1 ensures !DoubleSlashAt(s, i) {
      if i + 1 < |a| {
        assert !DoubleSlashAt(a, i);
        assert s[i] == a[i] && s[i + 1] == a[i + 1];
      } else if i + 1 == |a| {
        assert s[i] == a[|a| - 1] && s[i + 1] == b[0];
      } else {
        assert !DoubleSlashAt(b, i - |a|);
        assert s[i] == b[i - |a|] && s[i + 1] == b[i + 1 - |a|];
      }
    }
  }

  /** One step of collapsing, from the front. */
  lemma CollapseStep(s: string)
    requires 2 <= |s|
    ensures Collapse(s) == if s[0] == '/' && s[1] == '/' then Collapse(s[1..]) else [s[0]] + Collapse(s[1..])
  {
  }

  /** A '/' in front of a path that starts with '/' collapses away. */
  lemma CollapseSlashSlash(t: string)
    requires 0 < |t| && t[0] == '/'
    ensures Collapse("/" + t) == Collapse(t)
  {
    CollapseStep("/" + t);
    assert ("/" + t)[1..] == t;
  }

  lemma ConsAssoc(a: string, c: string)
    requires 0 < |a|
    ensures [a[0]] + (a[1..] + c) == a + c
  {
  }

  lemma NoDoubleSlashTail(a: string)
    requires 0 < |a| && NoDoubleSlash(a)
    ensures NoDoubleSlash(a[1..])
  {
    forall i | 0 <= i < |a[1..]| - 1 ensures !DoubleSlashAt(a[1..], i) {
      assert !DoubleSlashAt(a, i + 1);
    }
  }

  /** Collapsing a string that starts with a part free of "//" keeps that
      part and collapses the rest, unless the two meet in "//". */
  lemma {:induction false} CollapseAppend(a: string, t: string)
    requires 0 < |a| && 0 < |t| && NoDoubleSlash(a)
    requires !(a[|a| - 1] == '/' && t[0] == '/')
    ensures Collapse(a + t) == a + Collapse(t)
    decreases |a|
  {
    var s := a + t;
    assert s[0] == a[0] && !(s[0] == '/' && s[1] == '/') by {
      if |a| > 1 { assert !DoubleSlashAt(a, 0); }
    }
    CollapseStep(s);
    assert Collapse(s) == [a[0]] + Collapse(s[1..]);
    if |a| == 1 {
      assert s[1..] == t;
      assert a == [a[0]];
    } else {
      NoDoubleSlashTail(a);
      assert s[1..] == a[1..] + t;
      CollapseAppend(a[1..], t);
      ConsAssoc(a, Collapse(t));
    }
  }

  /** Joining is normalizing the parent, a '/' and the child: `new File(p, c)`
      names the same path as `new File(p + "/" + c)`, an empty parent
      standing for the root. The root as a child is the one exception. */
  lemma ResolveIsNormalizedJoin(parent: Path, child: Path)
    requires child != "" && child != "/"
    ensures Resolve(parent, child) == Normalize((if parent == "" then "/" else parent) + "/" + child)
  {
    var p: string := if parent == "" then "/" else parent;
    if p == "/" {
      JoinBelowRoot(child);
    } else {
      JoinBelowDir(p, child);
    }
    NormalizeCollapsed(p + "/" + child);
  }

  /** A string that collapses to a normal path normalizes to it. */
  lemma NormalizeCollapsed(s: string)
    requires Normalized(Collapse(s))
    ensures Normalize(s) == Collapse(s)
  {
  }

  lemma JoinBelowRoot(child: Path)
    requires child != "" && child != "/"
    ensures Collapse("/" + "/" + child) == Resolve("/", child)
  {
    assert "/" + "/" + child == "/" + ("/" + child);
    CollapseSlashSlash("/" + child);
    if child[0] == '/' {
      CollapseSlashSlash(child);
    } else {
      NoDoubleSlashAppend("/", child);
    }
  }

  lemma JoinBelowDir(p: Path, child: Path)
    requires p != "" && p != "/" && child != "" && child != "/"
    ensures Collapse(p + "/" + child) == Resolve(p, child)
  {
    assert p[|p| - 1] != '/';
    assert p + "/" + child == p + ("/" + child);
    if child[0] == '/' {
      CollapseSlashSlash(child);
    } else {
      NoDoubleSlashAppend("/", child);
    }
    CollapseAppend(p, "/" + child);
  }

  /** A leading '/' on the child makes no difference: "dir" with
      "/bin/hdfs" is "dir/bin/hdfs", and below the root (or an empty parent)
      both are "/bin/hdfs". */
  lemma ResolveLeadingSlash(parent: Path, child: Path)
    requires 0 < |child| && child[0] != '/'
    ensures Normalized("/" + child)
    ensures Resolve(parent, "/" + child) == Resolve(parent, child)
    ensures parent != "" && parent != "/" ==> Resolve(parent, child) == parent + "/" + child
  {
    var c := "/" + child;
    NoDoubleSlashAppend("/", child);
    assert c[|c| - 1] == child[|child| - 1];
    assert c[0] == '/';
    assert parent + c == parent + "/" + child;
  }

  /** Where the last `c` in `s` is, or -1 when there is none
      (`String.lastIndexOf`). */
  function LastIndexOf(s: string, c: char): (i: int)
    ensures -1 <= i < |s|
    ensures 0 <= i ==> s[i] == c
    ensures forall j :: i < j < |s| ==> s[j] != c
  {
    if |s| == 0 then -1
    else if s[|s| - 1] == c then |s| - 1
    else LastIndexOf(s[..|s| - 1], c)
  }

  /** `File.getName`: what follows the last '/'. */
  function BaseName(p: Path): (r: string)
    ensures '/' !in r && |r| <= |p|
    ensures p == p[..|p| - |r|] + r
    ensures |r| < |p| ==> p[|p| - |r| - 1] == '/'
  {
    var r := p[LastIndexOf(p, '/') + 1..];
    assert forall k :: 0 <= k < |r| ==> r[k] == p[LastIndexOf(p, '/') + 1 + k];
    r
  }

  /** The name of a file made from a parent and a plain name is that name. */
  lemma BaseNameOfResolve(parent: Path, name: Path)
    requires 0 < |name| && '/' !in name
    ensures Normalized(Resolve(parent, name))
    ensures BaseName(Resolve(parent, name)) == name
  {
    var r := Resolve(parent, name);
    var k := |r| - |name| - 1;
    assert 0 <= k && r[k] == '/' && r[k + 1..] == name by {
      var p := if parent == "" then "/" else parent;
      if p == "/" { assert r == "/" + name; } else { assert r == p + "/" + name; }
    }
    var i := LastIndexOf(r, '/');
    if i != k {
      assert false;
    }
  }
}
