/**
 * Package ids ("dists", `<name>-<version>-<build>`) and the resolution of
 * several builds of one package linked into the same prefix.
 */
module Dists {
  import opened Wrappers
  import opened Strings

  /** `s.rsplit('-', 1)[0]`: everything before the last hyphen, or all of `s` without one. */
  function DropLastField(s: string): (r: string)
    ensures StartsWith(s, r)
    ensures '-' in s ==> |r| < |s| && s[|r|] == '-' && '-' !in s[|r| + 1..]
    ensures '-' !in s ==> r == s
  {
    if '-' !in s then s
    else if s[|s| - 1] == '-' then s[..|s| - 1]
    else
      assert s == s[..|s| - 1] + [s[|s| - 1]];
      DropLastField(s[..|s| - 1])
  }

  /** `name_dist`: the id with its last two hyphen-separated fields (version and build) removed. */
  function NameDist(dist: string): (name: string)
    ensures StartsWith(dist, name)
  {
    DropLastField(DropLastField(dist))
  }

  /** A field is one piece of an id between hyphens. */
  predicate IsField(s: string) {
    '-' !in s
  }

  /** The name of `<name>-<version>-<build>` is `<name>`, whatever hyphens the name itself holds. */
  lemma {:induction false} NameDistOfId(name: string, version: string, build: string)
    requires IsField(version) && IsField(build)
    ensures NameDist(name + "-" + version + "-" + build) == name
  {
    var id := name + "-" + version + "-" + build;
    var mid := name + "-" + version;
    assert id == mid + "-" + build;
    assert id[|mid|] == '-';
    assert id[|mid| + 1..] == build;
    LastField(mid, build);
    assert DropLastField(id) == mid;
    assert mid[|name|] == '-';
    LastField(name, version);
  }

  lemma LastField(head: string, field: string)
    requires IsField(field)
    ensures DropLastField(head + "-" + field) == head
  {
    var s := head + "-" + field;
    assert s[|head|] == '-';
    assert s[|head| + 1..] == field;
  }

  // ---------------------------------------------------------------------------
  // duplicates_to_remove

  /** The builds of package `name` among `dists`. */
  function Group(dists: set<string>, name: string): set<string> {
    set d | d in dists && NameDist(d) == name
  }

  /** `m` is the lexicographically greatest id of `g`. */
  predicate IsGreatest(m: string, g: set<string>) {
    m in g && forall e :: e in g ==> !LexLess(m, e)
  }

  /**
   * The builds of one package that are evicted: none when there is only one;
   * when some are protected, all unprotected ones; otherwise all but the
   * greatest, i.e. those that sort below another build.
   */
  function Evicted(group: set<string>, keep: set<string>): (r: set<string>)
    ensures r <= group && r * keep == {}
    ensures |group| == 1 ==> r == {}
  {
    if |group| == 1 then {}
    else if group * keep != {} then group - keep
    else set d | d in group && exists e :: e in group && LexLess(d, e)
  }

  /** The ids `duplicates_to_remove(linked, keep)` returns, as a set. */
  function ToRemove(linked: set<string>, keep: set<string>): (r: set<string>)
    ensures r <= linked && r * keep == {}
  {
    set d | d in linked && d in Evicted(Group(linked, NameDist(d)), keep)
  }

  /** The ids of package `name` that are removed are the evicted builds of its group. */
  lemma ToRemoveByName(linked: set<string>, keep: set<string>, name: string)
    ensures Group(ToRemove(linked, keep), name) == Evicted(Group(linked, name), keep)
  {
    var g := Group(linked, name);
    forall d | d in Evicted(g, keep)
      ensures d in ToRemove(linked, keep)
    {
      assert d in g;
    }
  }

  /** The `defaultdict(set)` of `duplicates_to_remove`: each name present mapped to its builds. */
  method GroupByName(linked: set<string>) returns (groups: map<string, set<string>>)
    ensures groups.Keys == set d | d in linked :: NameDist(d)
    ensures forall n :: n in groups ==> groups[n] == Group(linked, n) && groups[n] != {}
  {
    groups := map[];
    var todo := linked;
    while todo != {}
      invariant todo <= linked
      invariant groups.Keys == set d | d in linked - todo :: NameDist(d)
      invariant forall n :: n in groups ==> groups[n] == Group(linked - todo, n) && groups[n] != {}
      decreases todo
    {
      var d :| d in todo;
      var name := NameDist(d);
      var g := if name in groups then groups[name] else {};
      assert g == Group(linked - todo, name);
      ghost var done := linked - todo;
      groups := groups[name := g + {d}];
      todo := todo - {d};
      assert linked - todo == done + {d};
      assert Group(linked - todo, name) == g + {d};
      assert forall n :: n != name ==> Group(linked - todo, n) == Group(done, n);
    }
    assert linked - todo == linked;
  }

  /** `sorted(dists)[:-1]`: every build except the greatest. */
  method AllButGreatest(dists: set<string>) returns (r: set<string>)
    requires dists != {}
    ensures forall d :: d in r <==> d in dists && exists e :: e in dists && LexLess(d, e)
  {
    var sorted := SortStrings(dists);
    assert sorted != [] by {
      var x :| x in dists;
    }
    var init := sorted[..|sorted| - 1];
    forall x
      ensures x in init <==> x in dists && exists e :: e in dists && LexLess(x, e)
    {
      SortedAllButLast(sorted, x);
    }
    r := set x | x in init;
  }

  /**
   * `duplicates_to_remove`: groups the linked ids by name, collects the
   * evicted builds of every group and returns them sorted.
   */
  method DuplicatesToRemove(linkedDists: set<string>, keepDists: seq<string>) returns (res: seq<string>)
    ensures StrictlySorted(res)
    ensures forall d :: d in res <==> d in ToRemove(linkedDists, set k | k in keepDists)
  {
    var keep := set k | k in keepDists;
    var groups := GroupByName(linkedDists);
    var removed: set<string> := {};
    var names := groups.Keys;
    while names != {}
      invariant names <= groups.Keys
      invariant removed == set d | d in ToRemove(linkedDists, keep) && NameDist(d) !in names
      decreases names
    {
      var name :| name in names;
      var dists := groups[name];
      assert dists == Group(linkedDists, name);
      RemovedStep(linkedDists, keep, names, name);
      names := names - {name};
      if |dists| == 1 {
        assert Evicted(dists, keep) == {};
        continue;
      }
      if dists * keep != {} {
        assert dists - keep == Evicted(dists, keep);
        removed := removed + (dists - keep);
      } else {
        var rest := AllButGreatest(dists);
        assert rest == Evicted(dists, keep);
        removed := removed + rest;
      }
    }
    assert removed == ToRemove(linkedDists, keep);
    res := SortStrings(removed);
  }

  /** Handling the group of `name` adds exactly its evicted builds to what is removed. */
  lemma RemovedStep(linked: set<string>, keep: set<string>, names: set<string>, name: string)
    requires name in names
    ensures (set d | d in ToRemove(linked, keep) && NameDist(d) !in names - {name})
      == (set d | d in ToRemove(linked, keep) && NameDist(d) !in names) + Evicted(Group(linked, name), keep)
  {
    ToRemoveByName(linked, keep, name);
  }

  // ---------------------------------------------------------------------------
  // Properties of the resolution

  lemma {:induction false} GreatestExists(g: set<string>)
    requires g != {}
    ensures exists m :: IsGreatest(m, g)
    decreases g
  {
    var x :| x in g;
    var rest := g - {x};
    if rest == {} {
      assert g == {x};
      LexLessIrreflexive(x);
      assert IsGreatest(x, g);
    } else {
      GreatestExists(rest);
      var m :| IsGreatest(m, rest);
      if LexLess(m, x) {
        forall e | e in g
          ensures !LexLess(x, e)
        {
          if e == x {
            LexLessIrreflexive(x);
          } else if LexLess(x, e) {
            LexLessTransitive(m, x, e);
          }
        }
        assert IsGreatest(x, g);
      } else {
        if m != x {
          LexLessTotal(m, x);
          LexLessAsymmetric(x, m);
        }
        assert IsGreatest(m, g);
      }
    }
  }

  lemma GreatestUnique(g: set<string>, m1: string, m2: string)
    requires IsGreatest(m1, g) && IsGreatest(m2, g)
    ensures m1 == m2
  {
    if m1 != m2 {
      LexLessTotal(m1, m2);
    }
  }

  /** Without protected builds, exactly the greatest build of a multi-build package survives. */
  lemma UnprotectedSurvivor(linked: set<string>, keep: set<string>, name: string)
    requires |Group(linked, name)| > 1 && Group(linked, name) * keep == {}
    ensures exists m :: IsGreatest(m, Group(linked, name)) && Group(linked - ToRemove(linked, keep), name) == {m}
  {
    var g := Group(linked, name);
    ToRemoveByName(linked, keep, name);
    GreatestExists(g);
    var m :| IsGreatest(m, g);
    forall d | d in g
      ensures d !in ToRemove(linked, keep) <==> d == m
    {
      if d != m {
        LexLessTotal(d, m);
        assert d in Evicted(g, keep);
        assert d in Group(ToRemove(linked, keep), name);
      }
    }
    assert Group(linked - ToRemove(linked, keep), name) == {m};
  }

  /** What is left of a package's builds after resolution. */
  lemma Remaining(linked: set<string>, keep: set<string>, name: string)
    ensures var g, left := Group(linked, name), Group(linked - ToRemove(linked, keep), name);
      && (|g| <= 1 ==> left == g)
      && (|g| > 1 && g * keep != {} ==> left == g * keep)
      && (|g| > 1 && g * keep == {} ==> |left| == 1)
  {
    var g := Group(linked, name);
    var r := ToRemove(linked, keep);
    ToRemoveByName(linked, keep, name);
    assert Group(linked - r, name) == g - Group(r, name);
    if |g| > 1 && g * keep == {} {
      UnprotectedSurvivor(linked, keep, name);
    }
  }

  /**
   * The documented promise: when the protected ids hold at most one build of
   * each package, at most one build of each package remains.
   */
  lemma OneBuildPerName(linked: set<string>, keep: set<string>, name: string)
    requires |Group(linked * keep, name)| <= 1
    ensures |Group(linked - ToRemove(linked, keep), name)| <= 1
  {
    var g := Group(linked, name);
    Remaining(linked, keep, name);
    if |g| != 1 && g * keep != {} {
      assert g * keep == Group(linked * keep, name);
    }
  }

  /** Resolving again what one resolution left behind removes nothing more. */
  lemma ToRemoveIdempotent(linked: set<string>, keep: set<string>)
    ensures ToRemove(linked - ToRemove(linked, keep), keep) == {}
  {
    var left := linked - ToRemove(linked, keep);
    forall d | d in left
      ensures d !in ToRemove(left, keep)
    {
      var name := NameDist(d);
      var g := Group(linked, name);
      Remaining(linked, keep, name);
      var g2 := Group(left, name);
      assert d in g2;
      if |g2| != 1 {
        assert |g| > 1 && g * keep != {};
        assert d in g2 * keep;
      }
    }
  }

  /**
   * Protected ids are never removed, even several builds of one package:
   * two protected builds of one name both stay linked.
   */
  lemma ProtectedBuildsAllStay(linked: set<string>, keep: set<string>, d1: string, d2: string)
    requires d1 in linked * keep && d2 in linked * keep && d1 != d2 && NameDist(d1) == NameDist(d2)
    ensures |Group(linked - ToRemove(linked, keep), NameDist(d1))| >= 2
  {
    KeptBuildsStay(linked, ToRemove(linked, keep), keep, d1, d2);
  }

  /** Two builds of one name that are spared by a removal both stay. */
  lemma KeptBuildsStay(linked: set<string>, removed: set<string>, keep: set<string>, d1: string, d2: string)
    requires removed * keep == {}
    requires d1 in linked * keep && d2 in linked * keep && d1 != d2 && NameDist(d1) == NameDist(d2)
    ensures |Group(linked - removed, NameDist(d1))| >= 2
  {
    assert d1 !in removed && d2 !in removed by {
      assert d1 in removed ==> d1 in removed * keep;
      assert d2 in removed ==> d2 in removed * keep;
    }
    var left := Group(linked - removed, NameDist(d1));
    assert d1 in left && d2 in left;
    assert |{d1, d2}| == 2;
    SubsetCard({d1, d2}, left);
  }

  lemma SubsetCard<T>(a: set<T>, b: set<T>)
    requires a <= b
    ensures |a| <= |b|
  {
    assert b == a + (b - a);
  }
}
