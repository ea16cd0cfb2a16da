/** The two POSIX path helpers the pipeline uses: `os.path.join` with two
    arguments and `os.path.basename`. */
module Paths {
  import opened Strings

  /** `os.path.join(a, b)`: an absolute `b` replaces `a`; otherwise a single
      "/" is inserted unless `a` is empty or already ends with one. */
  function Join(a: string, b: string): (r: string)
    ensures IsPrefix("/", b) ==> r == b
    ensures !IsPrefix("/", b) && (|a| == 0 || a[|a| - 1] == '/') ==> r == a + b
    ensures !IsPrefix("/", b) && |a| > 0 && a[|a| - 1] != '/' ==> r == a + "/" + b
  {
    assert |a| > 0 ==> (IsSuffix("/", a) <==> a[|a| - 1] == '/') by {
      if |a| > 0 { assert a[|a| - 1..][0] == a[|a| - 1]; }
    }
    assert '/' !in b ==> !IsPrefix("/", b) by {
      if |b| > 0 { assert b[..1][0] == b[0]; }
    }
    if IsPrefix("/", b) then b
    else if |a| == 0 || IsSuffix("/", a) then a + b
    else a + "/" + b
  }

  /** Joining a relative name onto a directory without a trailing "/"
      inserts exactly one separator. */
  lemma JoinInsertsSeparator(a: string, b: string)
    requires |a| > 0 && a[|a| - 1] != '/'
    requires |b| == 0 || b[0] != '/'
    ensures Join(a, b) == a + "/" + b
  {
    assert !IsSuffix("/", a) by {
      assert a[|a| - 1..][0] == a[|a| - 1];
    }
    if |b| > 0 {
      assert b[..1][0] == b[0];
    }
  }

  /** `os.path.basename(p)`: everything after the last "/". */
  function Basename(p: string): (r: string)
    ensures '/' !in r
    ensures IsSuffix(r, p)
    ensures |r| < |p| ==> p[|p| - |r| - 1] == '/'
    decreases |p|
  {
    if |p| == 0 then ""
    else if p[|p| - 1] == '/' then ""
    else Basename(p[..|p| - 1]) + [p[|p| - 1]]
  }

  /** Behind a separator (or at the start), a slash-free tail is the basename. */
  lemma {:induction false} BasenameAfterSeparator(a: string, b: string)
    requires |a| == 0 || a[|a| - 1] == '/'
    requires '/' !in b
    ensures Basename(a + b) == b
    decreases |b|
  {
    if |b| > 0 {
      var p := a + b;
      assert p[..|p| - 1] == a + b[..|b| - 1];
      BasenameAfterSeparator(a, b[..|b| - 1]);
      assert b == b[..|b| - 1] + [b[|b| - 1]];
    } else {
      assert a + b == a;
    }
  }

  /** The basename of a joined path is the file name that was joined, so a
      path built from a walked directory and a file name gives that name back. */
  lemma BasenameOfJoin(root: string, name: string)
    requires '/' !in name
    ensures Basename(Join(root, name)) == name
  {
    if |root| == 0 {
      BasenameAfterSeparator("", name);
      assert "" + name == name;
    } else if IsSuffix("/", root) {
      BasenameAfterSeparator(root, name);
    } else {
      BasenameAfterSeparator(root + "/", name);
      assert root + "/" + name == (root + "/") + name;
    }
  }

  /** Joining a non-empty relative directory keeps it as the leading part. */
  lemma JoinKeepsDirectory(dir: string, name: string)
    requires '/' !in name
    ensures IsPrefix(dir, Join(dir, name))
  {
    if |name| > 0 {
      assert name[0] in name;
      assert name[..1] != "/";
    }
    var j := Join(dir, name);
    assert j[..|dir|] == dir;
  }
}
