/** The two POSIX path operations the driver uses: `os.path.basename` and
    `os.path.join` with two arguments. */
module Paths {

  /** `os.path.basename(p)`: everything after the last `/` of `p` (all of `p`
      when it has none, the empty string when it ends with `/`). */
  function Basename(p: string): (r: string)
    ensures '/' !in r
    ensures |r| <= |p| && r == p[|p| - |r|..]
    ensures |r| < |p| ==> p[|p| - |r| - 1] == '/'
  {
    if p == [] || p[|p| - 1] == '/' then []
    else Basename(p[..|p| - 1]) + [p[|p| - 1]]
  }

  /** `os.path.join(dir, name)`: an absolute `name` replaces `dir`; otherwise
      `name` is appended, with a `/` in between unless `dir` is empty or
      already ends with one. */
  function JoinPath(dir: string, name: string): (r: string)
    ensures |name| > 0 && name[0] == '/' ==> r == name
    ensures |r| >= |name| && r[|r| - |name|..] == name
  {
    if |name| > 0 && name[0] == '/' then name
    else if dir == [] || dir[|dir| - 1] == '/' then dir + name
    else dir + "/" + name
  }

  /** Appending a character other than `/` appends it to the base name. */
  lemma BasenameSnoc(p: string, c: char)
    requires c != '/'
    ensures Basename(p + [c]) == Basename(p) + [c]
  {
    assert (p + [c])[..|p|] == p;
  }

  /** A name without `/` is its own base name. */
  lemma {:induction false} BasenameOfPlain(name: string)
    requires '/' !in name
    ensures Basename(name) == name
    decreases |name|
  {
    if name != [] {
      var init := name[..|name| - 1];
      var last := name[|name| - 1];
      assert name == init + [last];
      assert '/' !in init by {
        forall k | 0 <= k < |init| ensures init[k] != '/' {
          assert init[k] == name[k];
        }
      }
      BasenameOfPlain(init);
      BasenameSnoc(init, last);
    }
  }

  /** A `/` followed by a name without `/` has that name as its base name,
      whatever comes before it. */
  lemma {:induction false} BasenameAfterSlash(prefix: string, name: string)
    requires '/' !in name
    ensures Basename(prefix + "/" + name) == name
    decreases |name|
  {
    var q := prefix + "/" + name;
    if name == [] {
      assert q[|q| - 1] == '/';
    } else {
      var init := name[..|name| - 1];
      var last := name[|name| - 1];
      var p := prefix + "/" + init;
      assert name == init + [last];
      assert q == p + [last];
      assert '/' !in init by {
        forall k | 0 <= k < |init| ensures init[k] != '/' {
          assert init[k] == name[k];
        }
      }
      BasenameAfterSlash(prefix, init);
      BasenameSnoc(p, last);
    }
  }

  /** Joining a directory and a plain file name (no `/`, as `os.listdir`
      yields) and taking the base name gives the file name back. */
  lemma BasenameOfJoin(dir: string, name: string)
    requires '/' !in name
    ensures Basename(JoinPath(dir, name)) == name
  {
    if dir == [] {
      BasenameOfPlain(name);
      assert JoinPath(dir, name) == name;
    } else if dir[|dir| - 1] == '/' {
      var parent := dir[..|dir| - 1];
      BasenameAfterSlash(parent, name);
      assert dir == parent + "/";
      assert JoinPath(dir, name) == parent + "/" + name;
    } else {
      BasenameAfterSlash(dir, name);
    }
  }
}
