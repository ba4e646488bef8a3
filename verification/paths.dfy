/**
 The two POSIX path operations the environment setup builds its layout
 with, `posixpath.join` of two components and `posixpath.dirname`, and
 `posixpath.basename`, which the setup never calls but which tells the
 paths it builds apart.
 */
module Paths {
  import opened Wrappers
  import opened Text

  /** The only separator on POSIX. */
  const Slash: set<char> := {'/'}

  /** `posixpath.join(a, b)`: an absolute `b` replaces `a`; otherwise `b` is
      appended to `a`, with a slash in between unless `a` is empty or already
      ends with one. */
  function Join(a: string, b: string): (r: string)
    ensures |b| <= |r| && r[|r| - |b|..] == b
    ensures (b == [] || b[0] != '/') ==> |a| <= |r| && r[..|a|] == a
  {
    if b != [] && b[0] == '/' then b
    else if a == [] || a[|a| - 1] == '/' then a + b
    else a + "/" + b
  }

  /** Where the head of `p` ends: just after its last slash, or 0 when it
      has none (`p.rfind('/') + 1`). */
  function HeadLength(p: string): (n: nat)
    ensures n <= |p|
    ensures n > 0 ==> p[n - 1] == '/'
    ensures forall k :: n <= k < |p| ==> p[k] != '/'
  {
    match LastIndexOf(p, '/')
    case None => 0
    case Some(i) => i + 1
  }

  /** `posixpath.basename(p)`: what follows the last slash. */
  function Basename(p: string): (r: string)
    ensures '/' !in r
    ensures |r| <= |p| && r == p[|p| - |r|..]
  {
    var n := HeadLength(p);
    assert forall k :: 0 <= k < |p| - n ==> p[n..][k] == p[n + k];
    p[n..]
  }

  /** What `posixpath.dirname` can return: the empty string, a run of
      slashes (the root), or a path that does not end with a slash. */
  predicate DirShaped(d: string) {
    d == [] || All(d, Slash) || d[|d| - 1] != '/'
  }

  /** `posixpath.dirname(p)`: everything up to the last slash, with the
      trailing slashes removed unless nothing but slashes is left. */
  function Dirname(p: string): (r: string)
    ensures |r| <= |p| && r == p[..|r|]
    ensures DirShaped(r)
  {
    var head := p[..HeadLength(p)];
    if head != [] && !All(head, Slash) then
      TrimRightSpec(head, Slash);
      TrimRight(head, Slash)
    else head
  }

  /** The head ends just after a slash that no later slash follows. */
  lemma HeadLengthAt(p: string, i: nat)
    requires i < |p| && p[i] == '/'
    requires forall k :: i < k < |p| ==> p[k] != '/'
    ensures HeadLength(p) == i + 1
  {
    var n := HeadLength(p);
    assert n > 0;
  }

  /** Joining a directory of the shape dirname returns with a name that
      holds no slash, then taking dirname, gives the directory back: the
      paths the setup derives from one directory are its children. */
  lemma DirnameJoin(d: string, n: string)
    requires DirShaped(d) && '/' !in n
    ensures Dirname(Join(d, n)) == d
  {
    var p := Join(d, n);
    if d == [] {
      assert p == n;
      assert HeadLength(p) == 0;
    } else if d[|d| - 1] == '/' {
      assert p == d + n;
      HeadLengthAt(p, |d| - 1);
      assert p[..|d|] == d;
    } else {
      assert p == d + "/" + n;
      HeadLengthAt(p, |d|);
      var head := p[..|d| + 1];
      assert head == d + "/";
      assert head[|d| - 1] == d[|d| - 1];
      TrimRightAt(head, |d|, Slash);
      assert head[..|d|] == d;
    }
  }

  /** The name joined last is the basename of the result. */
  lemma BasenameJoin(d: string, n: string)
    requires '/' !in n
    ensures Basename(Join(d, n)) == n
  {
    var p := Join(d, n);
    if d == [] {
      assert HeadLength(p) == 0;
    } else if d[|d| - 1] == '/' {
      assert p == d + n;
      HeadLengthAt(p, |d| - 1);
    } else {
      assert p == d + "/" + n;
      HeadLengthAt(p, |d|);
    }
  }

  /** The default base directory has `/yuneta/development` as its parent. */
  lemma DefaultBaseParent()
    ensures Dirname("/yuneta/development/yunetas") == "/yuneta/development"
  {
    assert Join("/yuneta/development", "yunetas") == "/yuneta/development/yunetas";
    DirnameJoin("/yuneta/development", "yunetas");
  }

  /** A directory written with one trailing slash is its own "parent":
      the setup's siblings of such a base land inside it instead. */
  lemma TrailingSlashParent(d: string)
    requires d != [] && d[|d| - 1] != '/'
    ensures Dirname(d + "/") == d
  {
    assert Join(d, "") == d + "/";
    DirnameJoin(d, "");
  }
}
