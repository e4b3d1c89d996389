/**
 * POSIX path helpers used by the linker (`posixpath.join`, `posixpath.dirname`)
 * and the mapping from an environment name to its prefix (`prefix_env`).
 */
module Paths {
  import opened Wrappers
  import opened Strings

  predicate IsAbsolute(p: string) {
    StartsWith(p, "/")
  }

  /** `posixpath.join(a, b)`: an absolute `b` replaces `a`; otherwise a separator is added if needed. */
  function Join(a: string, b: string): string {
    if IsAbsolute(b) then b
    else if a == [] || a[|a| - 1] == '/' then a + b
    else a + "/" + b
  }

  /** Joining a relative name never loses the directory, and different names give different paths. */
  lemma {:induction false} JoinRelative(a: string, b1: string, b2: string)
    requires !IsAbsolute(b1) && !IsAbsolute(b2)
    ensures StartsWith(Join(a, b1), a)
    ensures Join(a, b1) == Join(a, b2) <==> b1 == b2
  {
    var j1, j2 := Join(a, b1), Join(a, b2);
    var sep := if a == [] || a[|a| - 1] == '/' then "" else "/";
    assert j1 == (a + sep) + b1 && j2 == (a + sep) + b2;
    assert j1[..|a|] == a;
    if j1 == j2 {
      assert b1 == j1[|a + sep|..] == j2[|a + sep|..] == b2;
    }
  }

  predicate IsSlash(c: char) {
    c == '/'
  }

  predicate AllSlashes(s: string) {
    forall k :: 0 <= k < |s| ==> s[k] == '/'
  }

  /** `posixpath.dirname(p)`: everything up to the last slash, trailing slashes removed unless only slashes remain. */
  function Dirname(p: string): string {
    var i := match LastIndexOf(p, '/') case None => 0 case Some(k) => k + 1;
    var head := p[..i];
    if head != [] && !AllSlashes(head) then RStrip(head, IsSlash) else head
  }

  /** `prefix_env`: the root environment lives at the root prefix, any other under `<root>/envs/<name>`. */
  function PrefixEnv(root: string, env: string): string {
    if env == "root" then root else Join(Join(root, "envs"), env)
  }

  /** Two differently named environments (relative names) never share a prefix. */
  lemma {:induction false} PrefixEnvDistinct(root: string, e1: string, e2: string)
    requires e1 != e2
    requires !IsAbsolute(e1) && !IsAbsolute(e2)
    ensures PrefixEnv(root, e1) != PrefixEnv(root, e2)
  {
    var envs := Join(root, "envs");
    assert !IsAbsolute("envs");
    JoinRelative(root, "envs", "envs");
    assert |envs| >= |root| + 4;
    if e1 != "root" && e2 != "root" {
      JoinRelative(envs, e1, e2);
    } else if e1 == "root" {
      JoinRelative(envs, e2, e2);
      assert |PrefixEnv(root, e2)| >= |envs|;
    } else {
      JoinRelative(envs, e1, e1);
      assert |PrefixEnv(root, e1)| >= |envs|;
    }
  }
}
