/**
 * The linker proper: `_link`, `update_prefix`, `link` and `link_idists`
 * acting on an abstract file system. Paths map to regular files (an inode
 * number) or symbolic links; inodes map to their bytes, so that two hard
 * links to one inode see each other's writes. The conda-meta directory of
 * each prefix is kept as a listing of file names with their parsed records.
 *
 * What the operating system decides is fixed when the installer is created:
 * the destinations where a new directory entry cannot be made, the
 * post-link scripts that exit with an error, the metadata files that cannot
 * be renamed, and how `json.load` reads an `index.json`.
 */
module Linker {
  import opened Wrappers
  import opened Strings
  import opened Paths
  import opened Placeholder
  import opened Dists
  import opened InfoFiles
  import opened Metadata
  import opened Urls

  datatype Node = Regular(ino: nat) | Symlink(target: string)

  datatype LinkError =
    | MissingFile(path: string)                        // IOError opening a file the linker needs
    | DstExists(path: string)                          // the destination exists and FORCE is off
    | CopyFailed(src: string, dst: string)             // IOError out of shutil.copy2
    | UnexpectedLinkType                               // _link given LINK_SOFT
    | RewriteFailed(path: string, cause: RewriteError) // update_prefix could not rewrite the file
    | PostLinkFailed(dist: string)                     // the post-link script failed
    | BadIndex(path: string)                           // index.json is not a JSON object
    | NotInIndex(dist: string)                         // link_idists: the id is not in IDISTS
    | NoUrlsFile(path: string)                         // link_idists: the urls file is missing
    | ProbeExists(path: string)                        // link_idists: the probe file is already there

  /** What `_link` does for one file, decided from the state before it runs. */
  datatype Placement =
    | Skip                  // an OSError from os.link / os.symlink, swallowed by the caller
    | Alias(node: Node)     // a new directory entry for an existing node (hard link, recreated symlink)
    | NewFile(content: Bytes) // shutil.copy2: a new inode holding a copy
    | Fatal(e: LinkError)

  /** The link type actually used for a file (the choice made in `link`). */
  function Strategy(inHasPrefix: bool, inNoLink: bool, srcIsLink: bool, lt: LinkType): (r: LinkType)
    ensures r == LinkCopy <==> inHasPrefix || inNoLink || srcIsLink || lt == LinkCopy
    ensures r != LinkCopy ==> r == lt
  {
    if inHasPrefix || inNoLink || srcIsLink then LinkCopy else lt
  }

  class Installer {
    /** ROOT_PREFIX. */
    const rootPrefix: string
    /** FORCE: replace existing destinations instead of failing. */
    const force: bool
    /** SKIP_SCRIPTS. */
    const skipScripts: bool
    /** IDISTS: the origin record of every package the installer ships. */
    const idists: map<string, Meta>
    /** Destinations where os.link, os.symlink and shutil.copy2 cannot create an entry. */
    const refused: set<string>
    /** Post-link scripts that exit with a non-zero status. */
    const failingScripts: set<string>
    /** conda-meta files that os.rename cannot move. */
    const renameRefused: set<string>
    /** `json.load` on the bytes of an index.json: `None` when they are not a JSON object. */
    const parseIndex: Bytes -> Option<Meta>

    var tree: map<string, Node>
    var data: map<nat, Bytes>
    var nextIno: nat
    /** For each prefix with a conda-meta directory: its file names and their records. */
    var metaDirs: map<string, map<string, Meta>>

    /** Every regular file has content, and fresh inode numbers are above all used ones. */
    ghost predicate Valid()
      reads this`tree, this`data, this`nextIno
    {
      && ContentFor(tree, data)
      && (forall i :: i in data ==> i < nextIno)
    }

    constructor (rootPrefix: string, force: bool, skipScripts: bool, idists: map<string, Meta>,
                 refused: set<string>, failingScripts: set<string>, renameRefused: set<string>,
                 parseIndex: Bytes -> Option<Meta>, tree: map<string, Node>, data: map<nat, Bytes>)
      requires forall p :: p in tree && tree[p].Regular? ==> tree[p].ino in data
      ensures Valid()
      ensures this.rootPrefix == rootPrefix && this.force == force && this.skipScripts == skipScripts
      ensures this.idists == idists && this.refused == refused && this.failingScripts == failingScripts
      ensures this.renameRefused == renameRefused && this.parseIndex == parseIndex
      ensures this.tree == tree && this.data == data && this.metaDirs == map[]
    {
      var n := NextFree(data.Keys);
      this.rootPrefix := rootPrefix;
      this.force := force;
      this.skipScripts := skipScripts;
      this.idists := idists;
      this.refused := refused;
      this.failingScripts := failingScripts;
      this.renameRefused := renameRefused;
      this.parseIndex := parseIndex;
      this.tree := tree;
      this.data := data;
      this.metaDirs := map[];
      this.nextIno := n;
    }

    /** PKGS_DIR. */
    function PkgsDir(): string {
      Join(rootPrefix, "pkgs")
    }

    /** `islink(p)`. */
    predicate IsLink(p: string)
      reads this`tree
    {
      p in tree && tree[p].Symlink?
    }

    /**
     * The path `open(p)` reaches: the target of a symbolic link (a relative
     * target is taken from the link's directory), or `p` itself.
     */
    function Target(p: string): string
      reads this`tree
    {
      TargetIn(tree, p)
    }

    /** The inode `open(p)` reaches, if it is a regular file's. */
    function Resolve(p: string): (r: Option<nat>)
      reads this`tree
      ensures p in tree && tree[p].Regular? ==> r == Some(tree[p].ino)
      ensures p !in tree ==> r.None?
      ensures r.Some? ==> Target(p) in tree && tree[Target(p)] == Regular(r.value)
    {
      ResolveIn(tree, p)
    }

    /** The bytes `open(p).read()` returns, `None` for an IOError. */
    function ReadFile(p: string): Option<Bytes>
      reads this`tree, this`data
    {
      ReadFileIn(tree, data, p)
    }

    /** A file read in text mode. */
    function ReadText(p: string): Option<string>
      reads this`tree, this`data
    {
      ReadTextIn(tree, data, p)
    }

    // -------------------------------------------------------------------------
    // _link

    /** What `_link(src, dst, lt)` does to a destination that does not exist yet. */
    function PlacementOf(src: string, dst: string, lt: LinkType): Placement
      reads this`tree, this`data
    {
      match lt
      case LinkHard => if src in tree && dst !in refused then Alias(tree[src]) else Skip
      case LinkSoft => Fatal(UnexpectedLinkType)
      case LinkCopy =>
        if IsLink(src) && !IsAbsolute(tree[src].target) then
          if dst in refused then Skip else Alias(tree[src])
        else
          match ReadFile(src)
          case None => Fatal(CopyFailed(src, dst))
          case Some(content) => if dst in refused then Fatal(CopyFailed(src, dst)) else NewFile(content)
    }

    /** `_link(src, dst, lt)`, with the OSErrors of os.link and os.symlink reported as a skip. */
    method PlaceFile(src: string, dst: string, lt: LinkType) returns (r: Outcome<LinkError>)
      requires Valid() && dst !in tree
      modifies this`tree, this`data, this`nextIno
      ensures Valid()
      ensures match old(PlacementOf(src, dst, lt))
        case Skip => r.Pass? && tree == old(tree) && data == old(data) && nextIno == old(nextIno)
        case Alias(n) => r.Pass? && tree == old(tree)[dst := n] && data == old(data) && nextIno == old(nextIno)
        case NewFile(c) =>
          && r.Pass? && tree == old(tree)[dst := Regular(old(nextIno))]
          && data == old(data)[old(nextIno) := c] && nextIno == old(nextIno) + 1
        case Fatal(e) => r == Fail(e) && tree == old(tree) && data == old(data) && nextIno == old(nextIno)
      ensures lt == LinkHard ==>
        && r.Pass? && data == old(data)
        && (dst in tree ==> src in old(tree) && tree[dst] == old(tree)[src])
      ensures lt == LinkCopy && dst in tree && tree[dst].Regular? ==>
        && tree[dst].ino !in old(data)
        && old(ReadFile(src)) == Some(data[tree[dst].ino])
      ensures lt == LinkCopy && dst in tree && tree[dst].Symlink? ==>
        old(IsLink(src)) && tree[dst] == old(tree)[src] && !IsAbsolute(tree[dst].target)
    {
      var pl := PlacementOf(src, dst, lt);
      match pl
      case Skip =>
        r := Pass;
      case Alias(n) =>
        tree := tree[dst := n];
        r := Pass;
      case NewFile(c) =>
        data := data[nextIno := c];
        tree := tree[dst := Regular(nextIno)];
        nextIno := nextIno + 1;
        r := Pass;
      case Fatal(e) =>
        r := Fail(e);
    }

    // -------------------------------------------------------------------------
    // The placement loop of link

    /**
     * One turn of the placement loop of `link` for file `f`: an existing
     * destination is removed under FORCE and is an error otherwise; then the
     * file is placed with the link type `Strategy` picks.
     */
    method PlaceOne(prefix: string, sourceDir: string, f: string, hasPrefix: set<string>,
                    noLink: set<string>, lt: LinkType) returns (r: Outcome<LinkError>)
      requires Valid()
      modifies this`tree, this`data, this`nextIno
      ensures Valid() && old(nextIno) <= nextIno
      ensures DataKept(old(data), data) && TreeKeptBut(old(tree), tree, Join(prefix, f))
      ensures r.Fail? && r.error.DstExists? ==> !force
      ensures !force && Join(prefix, f) in old(tree) ==> r == Fail(DstExists(Join(prefix, f))) && tree == old(tree)
      ensures r.Pass? && f in hasPrefix ==> Fresh(tree, Join(prefix, f), old(nextIno))
      ensures var src := Join(sourceDir, f);
        (r.Pass? && src != Join(prefix, f) && src in old(tree) && old(tree)[src].Regular?) ==>
        Placed(tree, data, refused, Join(prefix, f), old(tree)[src], old(data)[old(tree)[src].ino],
               Strategy(f in hasPrefix, f in noLink, false, lt), old(nextIno))
    {
      var src, dst := Join(sourceDir, f), Join(prefix, f);
      if dst in tree {
        if force {
          tree := tree - {dst};
        } else {
          return Fail(DstExists(dst));
        }
      }
      var how := Strategy(f in hasPrefix, f in noLink, IsLink(src), lt);
      r := PlaceFile(src, dst, how);
    }

    /** `link`'s placement loop over the package's file list. */
    method PlaceFiles(prefix: string, sourceDir: string, files: seq<string>, hasPrefix: set<string>,
                      noLink: set<string>, lt: LinkType) returns (r: Outcome<LinkError>)
      requires Valid()
      modifies this`tree, this`data, this`nextIno
      ensures Valid() && old(nextIno) <= nextIno
      ensures DataKept(old(data), data)
      ensures forall p :: p in old(tree) && (forall k :: 0 <= k < |files| ==> Join(prefix, files[k]) != p) ==>
        p in tree && tree[p] == old(tree)[p]
      ensures r.Fail? && r.error.DstExists? ==> !force
      ensures !force && (exists k :: 0 <= k < |files| && Join(prefix, files[k]) in old(tree)) ==> r.Fail?
      ensures r.Pass? && AllRelative(files) ==>
        forall k :: 0 <= k < |files| && files[k] in hasPrefix ==> Fresh(tree, Join(prefix, files[k]), old(nextIno))
      ensures r.Pass? && AllRelative(files) && SourcesApart(prefix, sourceDir, files) ==>
        forall k :: 0 <= k < |files| ==> PlacedFrom(tree, data, refused, prefix, sourceDir, files[k], hasPrefix, noLink, lt, old(tree), old(data), old(nextIno))
    {
      ghost var tree0, data0, base := tree, data, nextIno;
      var i := 0;
      while i < |files|
        invariant 0 <= i <= |files|
        invariant Valid() && base <= nextIno
        invariant PlacedSoFar(tree, data, refused, force, prefix, sourceDir, files, hasPrefix, noLink, lt, tree0, data0, base, i)
      {
        ghost var treeBefore, dataBefore, nextIno0 := tree, data, nextIno;
        var res := PlaceOne(prefix, sourceDir, files[i], hasPrefix, noLink, lt);
        if res.Fail? {
          return res;
        }
        PlaceStep(tree, data, refused, force, prefix, sourceDir, files, hasPrefix, noLink, lt, tree0, data0, base,
                  i, treeBefore, dataBefore, nextIno0);
        i := i + 1;
      }
      r := Pass;
    }

    // -------------------------------------------------------------------------
    // update_prefix and the rewrite loop of link

    /**
     * `update_prefix(path, newPrefix, placeholder, mode)`: reads the file
     * `path` reaches, rewrites the placeholder, and writes the bytes back in
     * place when they changed. A missing file, a placeholder too short for
     * the new prefix, a non-ASCII argument or an unknown mode stop the linker.
     */
    method UpdatePrefix(path: string, newPrefix: string, entry: PrefixEntry) returns (r: Outcome<LinkError>)
      requires Valid()
      modifies this`data
      ensures Valid() && data.Keys == old(data).Keys
      ensures Resolve(path).None? ==> r == Fail(MissingFile(path)) && data == old(data)
      ensures Resolve(path).Some? ==>
        var i := Resolve(path).value;
        var res := UpdatePrefixData(old(data)[i], newPrefix, entry.placeholder, entry.mode);
        && (res.Failure? ==> r == Fail(RewriteFailed(path, res.error)) && data == old(data))
        && (res.Success? ==> r.Pass? && data == old(data)[i := Rewritten(old(data)[i], newPrefix, entry)])
    {
      r, data := UpdatePrefixIn(tree, data, path, newPrefix, entry);
    }

    /** No two has_prefix entries reach the same inode. */
    ghost predicate DistinctTargets(prefix: string, table: map<string, PrefixEntry>)
      reads this`tree
    {
      DistinctTargetsIn(tree, prefix, table)
    }

    /**
     * `link`'s rewrite loop: `update_prefix` on every has_prefix entry, in
     * sorted order. Only the inodes those entries reach are written; when it
     * succeeds every entry reached a file and, when no two share an inode,
     * each holds its rewritten bytes.
     */
    method RewritePrefixes(prefix: string, table: map<string, PrefixEntry>) returns (r: Outcome<LinkError>)
      requires Valid()
      modifies this`data
      ensures Valid() && data.Keys == old(data).Keys
      ensures r.Fail? ==> r.error.MissingFile? || r.error.RewriteFailed?
      ensures forall j :: j in old(data) && (forall f :: f in table ==> Resolve(Join(prefix, f)) != Some(j)) ==>
        data[j] == old(data)[j]
      ensures r.Pass? ==> forall f :: f in table ==> Resolve(Join(prefix, f)).Some?
      ensures r.Pass? && DistinctTargets(prefix, table) ==>
        forall f :: f in table ==>
          var j := Resolve(Join(prefix, f)).value; data[j] == Rewritten(old(data)[j], prefix, table[f])
    {
      r, data := RewriteAll(tree, data, prefix, table);
    }

    // -------------------------------------------------------------------------
    // link

    /** The package's source directory in the package cache. */
    function SourceDir(dist: string): string {
      Join(PkgsDir(), dist)
    }

    /** The `info` directory `link` reads: in the package cache, or in the prefix when the package was extracted there. */
    function InfoDir(prefix: string, dist: string, linkType: Option<LinkType>): string {
      if linkType.Some? then Join(SourceDir(dist), "info") else Join(prefix, "info")
    }

    /** `json.load` of `info/index.json` in `t` and `d`, `None` when it cannot be read or is not a JSON object. */
    function IndexAt(t: map<string, Node>, d: map<nat, Bytes>, infoDir: string): Option<Meta> {
      match ReadFileIn(t, d, Join(infoDir, "index.json"))
      case None => None
      case Some(bytes) => parseIndex(bytes)
    }

    /** `json.load` of `info/index.json`. */
    function IndexOf(infoDir: string): Option<Meta>
      reads this`tree, this`data
    {
      IndexAt(tree, data, infoDir)
    }

    /**
     * The origin `link` records when the files are `t` and `d`: the
     * installer's own entry, or what `read_urls` finds in the cache history.
     */
    function OriginAt(t: map<string, Node>, d: map<nat, Bytes>, dist: string): Meta {
      if dist in idists then idists[dist] else UrlsOrigin(ReadTextIn(t, d, Join(PkgsDir(), "urls")), dist)
    }

    /** The origin `link` records. */
    function OriginFor(dist: string): Meta
      reads this`tree, this`data
    {
      OriginAt(tree, data, dist)
    }

    /** The origin lookup of `link`: the installer's own entry first, the cache history otherwise. */
    method ReadOrigin(dist: string) returns (origin: Meta)
      ensures origin == OriginFor(dist)
    {
      if dist in idists {
        origin := idists[dist];
      } else {
        origin := ReadUrls(ReadText(Join(PkgsDir(), "urls")), dist);
      }
    }

    /** Where `run_script` looks for the post-link script of `dist`. */
    function ScriptPath(prefix: string, dist: string): string {
      Join(Join(prefix, "bin"), "." + NameDist(dist) + "-post-link.sh")
    }

    /** `run_script` in `t`: true when there is no script, scripts are skipped, or the script exits with status 0. */
    predicate ScriptAt(t: map<string, Node>, prefix: string, dist: string) {
      var path := ScriptPath(prefix, dist);
      ResolveIn(t, path).None? || skipScripts || path !in failingScripts
    }

    /** `run_script`. */
    predicate ScriptSucceeds(prefix: string, dist: string)
      reads this`tree
    {
      ScriptAt(tree, prefix, dist)
    }

    /**
     * What `link(prefix, dist, None)` has done when it returns without an
     * error, with `t` the file tree, `d0` and `m0` the contents and
     * conda-meta before the call, `d` and `m` after it: the prefix's `info`
     * was readable, the has_prefix files were rewritten in place, the
     * post-link script succeeded, and the record of `dist`, built from the
     * rewritten `info/index.json` with a null `link` entry, was written.
     */
    ghost predicate LinkedInPlace(t: map<string, Node>, d0: map<nat, Bytes>, d: map<nat, Bytes>,
                                  m0: map<string, map<string, Meta>>, m: map<string, map<string, Meta>>,
                                  prefix: string, dist: string)
    {
      var infoDir := Join(prefix, "info");
      var info := InfoAt(t, d0, infoDir, false);
      && info.Some? && ScriptAt(t, prefix, dist)
      && Rewrote(t, d0, d, prefix, info.value.hasPrefix)
      && IndexAt(t, d, infoDir).Some?
      && m == WithRecord(m0, prefix, dist,
                         PackageMeta(IndexAt(t, d, infoDir).value, info.value.files, JNull, OriginAt(t, d, dist)))
      && dist in LinkedAt(m, prefix)
    }

    /** The conda-meta listing of `prefix`, empty when the directory does not exist. */
    function Listing(prefix: string): map<string, Meta>
      reads this`metaDirs
    {
      ListingAt(metaDirs, prefix)
    }

    /**
     * The `link` entry of the record `link` writes for `dist`, an id of
     * IDISTS, linked from the package cache with link type `lt`: the entry
     * `link` builds, unless IDISTS's own entry for `dist` has a `link` key,
     * which overrides it.
     */
    function RecordedLinkOf(dist: string, lt: LinkType): (j: Json)
      requires dist in idists
      ensures "link" !in idists[dist] ==> j == JObj(map["source" := JStr(SourceDir(dist)), "type" := JStr(LinkName(lt))])
      ensures "link" in idists[dist] ==> j == idists[dist]["link"]
    {
      if "link" in idists[dist] then idists[dist]["link"] else LinkEntry(SourceDir(dist), Some(lt))
    }

    /**
     * Every id of `dists` that IDISTS lists has its record in `prefix`, linked
     * with `lt` (`EnvRecordedAll`), stated id by id from the last one back.
     */
    ghost predicate EnvRecordedAt(m: map<string, map<string, Meta>>, prefix: string, dists: seq<string>, lt: LinkType)
      decreases |dists|
    {
      dists != [] ==>
        var d := dists[|dists| - 1];
        && EnvRecordedAt(m, prefix, dists[..|dists| - 1], lt)
        && (d in idists ==> RecordLinkIs(m, prefix, d, RecordedLinkOf(d, lt)))
    }

    /** `EnvRecordedAt` holds exactly when every id of the list that IDISTS lists has its record linked with `lt`. */
    lemma {:induction false} EnvRecordedAll(m: map<string, map<string, Meta>>, prefix: string, dists: seq<string>, lt: LinkType)
      ensures EnvRecordedAt(m, prefix, dists, lt) <==>
        forall d :: d in dists && d in idists ==> RecordLinkIs(m, prefix, d, RecordedLinkOf(d, lt))
      decreases |dists|
    {
      if dists != [] {
        var init := dists[..|dists| - 1];
        EnvRecordedAll(m, prefix, init, lt);
        assert dists == init + [dists[|dists| - 1]];
      }
    }

    /** The first `i` environments of `names` have their ids' records linked with `lt`. */
    ghost predicate EnvsRecorded(m: map<string, map<string, Meta>>, envs: map<string, seq<string>>, names: seq<string>,
                                 i: nat, lt: LinkType)
      requires i <= |names| && forall k :: 0 <= k < |names| ==> names[k] in envs
    {
      forall k :: 0 <= k < i ==> EnvRecordedAt(m, PrefixEnv(rootPrefix, names[k]), envs[names[k]], lt)
    }

    /** Writing the record of `d`, and nothing else, in `prefix` keeps the records written before it. */
    lemma RecordedStep(m0: map<string, map<string, Meta>>, m1: map<string, map<string, Meta>>, prefix: string,
                       ds: seq<string>, d: string, lt: LinkType)
      requires EnvRecordedAt(m0, prefix, ds, lt)
      requires RecordsKept(m0, m1, prefix, d + ".json")
      requires d in idists ==> RecordLinkIs(m1, prefix, d, RecordedLinkOf(d, lt))
      ensures EnvRecordedAt(m1, prefix, ds + [d], lt)
    {
      EnvRecordedAll(m0, prefix, ds, lt);
      forall e | e in ds + [d] && e in idists
        ensures RecordLinkIs(m1, prefix, e, RecordedLinkOf(e, lt))
      {
        if e != d {
          JsonNameInjective(e, d);
          var n := e + ".json";
          assert e in ds;
          assert n in ListingAt(m0, prefix) && n != d + ".json";
          assert n in ListingAt(m1, prefix) && ListingAt(m1, prefix)[n] == ListingAt(m0, prefix)[n];
        }
      }
      EnvRecordedAll(m1, prefix, ds + [d], lt);
    }

    /** Unlinking ids none of `ds` is among keeps the records of `ds`. */
    lemma RecordedSurvive(m0: map<string, map<string, Meta>>, m1: map<string, map<string, Meta>>, prefix: string,
                          ds: seq<string>, removed: set<string>, lt: LinkType)
      requires EnvRecordedAt(m0, prefix, ds, lt)
      requires Elements(ds) * removed == {}
      requires forall n :: n in ListingAt(m0, prefix) && EndsWith(n, ".json") && n[..|n| - 5] !in removed ==>
        n in ListingAt(m1, prefix) && ListingAt(m1, prefix)[n] == ListingAt(m0, prefix)[n]
      ensures EnvRecordedAt(m1, prefix, ds, lt)
    {
      EnvRecordedAll(m0, prefix, ds, lt);
      forall d | d in ds && d in idists
        ensures RecordLinkIs(m1, prefix, d, RecordedLinkOf(d, lt))
      {
        var n := d + ".json";
        assert n[..|n| - 5] == d;
        assert d !in removed by {
          assert d in Elements(ds);
          assert d !in Elements(ds) * removed;
        }
      }
      EnvRecordedAll(m1, prefix, ds, lt);
    }

    /** Linking the environment `names[i]` keeps the records of the environments before it. */
    lemma EnvsRecordedStep(before: map<string, map<string, Meta>>, after: map<string, map<string, Meta>>,
                           envs: map<string, seq<string>>, names: seq<string>, i: nat, lt: LinkType)
      requires i < |names| && StrictlySorted(names) && forall k :: 0 <= k < |names| ==> names[k] in envs
      requires EnvNamesRelative(envs)
      requires after - {PrefixEnv(rootPrefix, names[i])} == before - {PrefixEnv(rootPrefix, names[i])}
      requires EnvsRecorded(before, envs, names, i, lt)
      requires EnvRecordedAt(after, PrefixEnv(rootPrefix, names[i]), envs[names[i]], lt)
      ensures EnvsRecorded(after, envs, names, i + 1, lt)
    {
      forall k | 0 <= k < i
        ensures EnvRecordedAt(after, PrefixEnv(rootPrefix, names[k]), envs[names[k]], lt)
      {
        LexLessIrreflexive(names[i]);
        PrefixEnvDistinct(rootPrefix, names[k], names[i]);
        ListingFrame(before, after, PrefixEnv(rootPrefix, names[k]), PrefixEnv(rootPrefix, names[i]));
        EnvRecordedAll(before, PrefixEnv(rootPrefix, names[k]), envs[names[k]], lt);
        EnvRecordedAll(after, PrefixEnv(rootPrefix, names[k]), envs[names[k]], lt);
      }
    }

    /** `linked(prefix)`. */
    function LinkedIn(prefix: string): set<string>
      reads this`metaDirs
    {
      LinkedAt(metaDirs, prefix)
    }

    /**
     * `create_meta`: the record of `index.json` updated with `extra`, written
     * to `<prefix>/conda-meta/<dist>.json` (the directory is made if needed).
     */
    method CreateMetaFile(prefix: string, dist: string, infoDir: string, extra: Meta) returns (r: Outcome<LinkError>)
      modifies this`metaDirs
      ensures ReadFile(Join(infoDir, "index.json")).None? ==>
        r == Fail(MissingFile(Join(infoDir, "index.json"))) && metaDirs == old(metaDirs)
      ensures ReadFile(Join(infoDir, "index.json")).Some? && IndexOf(infoDir).None? ==>
        r == Fail(BadIndex(Join(infoDir, "index.json"))) && metaDirs == old(metaDirs)
      ensures IndexOf(infoDir).Some? ==>
        r.Pass? && metaDirs == WithRecord(old(metaDirs), prefix, dist, CreateMeta(IndexOf(infoDir).value, extra))
    {
      var path := Join(infoDir, "index.json");
      var bytes := ReadFile(path);
      if bytes.None? {
        return Fail(MissingFile(path));
      }
      var index := parseIndex(bytes.value);
      if index.None? {
        return Fail(BadIndex(path));
      }
      metaDirs := WithRecord(metaDirs, prefix, dist, CreateMeta(index.value, extra));
      r := Pass;
    }

    /**
     * The file work of `link`: the placement loop when the package comes
     * from the package cache, then the rewrite loop. When every has_prefix
     * entry is one of the relative names of the file list and ends up a
     * regular file, no inode that existed before (the package cache's files
     * in particular) changes.
     */
    method InstallFiles(prefix: string, sourceDir: string, files: seq<string>, hasPrefix: map<string, PrefixEntry>,
                        noLink: set<string>, linkType: Option<LinkType>) returns (r: Outcome<LinkError>, ghost placed: map<nat, Bytes>)
      requires Valid()
      modifies this`tree, this`data, this`nextIno
      ensures Valid() && old(nextIno) <= nextIno
      ensures linkType.None? ==> tree == old(tree) && placed == old(data)
      ensures r.Fail? && r.error.DstExists? ==> !force
      ensures (!force && linkType.Some? && exists k :: 0 <= k < |files| && Join(prefix, files[k]) in old(tree)) ==> r.Fail?
      ensures r.Pass? && linkType.Some? && AllRelative(files) && SourcesApart(prefix, sourceDir, files) ==>
        forall k :: 0 <= k < |files| ==>
          PlacedFrom(tree, placed, refused, prefix, sourceDir, files[k], hasPrefix.Keys, noLink, linkType.value,
                     old(tree), old(data), old(nextIno))
      ensures r.Pass? ==> Rewrote(tree, placed, data, prefix, hasPrefix)
      ensures (r.Pass? && linkType.Some? && CopiesOnly(prefix, files, hasPrefix.Keys) &&
               (forall f :: f in hasPrefix ==> !IsLink(Join(prefix, f)))) ==>
        DataKept(old(data), data)
    {
      ghost var base := nextIno;
      ghost var data0 := data;
      placed := data;
      if linkType.Some? {
        r := PlaceFiles(prefix, sourceDir, files, hasPrefix.Keys, noLink, linkType.value);
        placed := data;
        if r.Fail? {
          return;
        }
      }
      ghost var mid := data;
      r := RewritePrefixes(prefix, hasPrefix);
      if r.Fail? {
        return;
      }
      if linkType.Some? && CopiesOnly(prefix, files, hasPrefix.Keys) &&
         (forall f :: f in hasPrefix ==> !IsLink(Join(prefix, f))) {
        forall j | j in data0
          ensures j in data && data[j] == data0[j]
        {
          forall f | f in hasPrefix
            ensures Resolve(Join(prefix, f)) != Some(j)
          {
            var k :| 0 <= k < |files| && files[k] == f;
            assert Fresh(tree, Join(prefix, files[k]), base);
          }
          assert j in mid && mid[j] == data0[j];
        }
      }
    }

    /**
     * The end of `link`: the post-link script must succeed; then the
     * package's record (index, file list, link entry, origin and installer
     * name) is written to the prefix's conda-meta directory.
     */
    method RecordPackage(prefix: string, dist: string, infoDir: string, files: seq<string>,
                         linkType: Option<LinkType>) returns (r: Outcome<LinkError>)
      modifies this`metaDirs
      ensures !ScriptSucceeds(prefix, dist) ==> r == Fail(PostLinkFailed(dist)) && metaDirs == old(metaDirs)
      ensures ScriptSucceeds(prefix, dist) && IndexOf(infoDir).None? ==> r.Fail? && metaDirs == old(metaDirs)
      ensures r.Fail? ==> r.error.PostLinkFailed? || r.error.MissingFile? || r.error.BadIndex?
      ensures ScriptSucceeds(prefix, dist) && IndexOf(infoDir).Some? ==>
        && r.Pass?
        && metaDirs == WithRecord(old(metaDirs), prefix, dist,
             PackageMeta(IndexOf(infoDir).value, files, LinkEntry(SourceDir(dist), linkType), OriginFor(dist)))
    {
      if !ScriptSucceeds(prefix, dist) {
        return Fail(PostLinkFailed(dist));
      }
      r := WritePackageMeta(prefix, dist, infoDir, files, linkType);
    }

    /** The record `link` writes once the post-link script has succeeded. */
    method WritePackageMeta(prefix: string, dist: string, infoDir: string, files: seq<string>,
                            linkType: Option<LinkType>) returns (r: Outcome<LinkError>)
      modifies this`metaDirs
      ensures IndexOf(infoDir).None? ==> r.Fail? && metaDirs == old(metaDirs)
      ensures r.Fail? ==> r.error.MissingFile? || r.error.BadIndex?
      ensures IndexOf(infoDir).Some? ==>
        && r.Pass?
        && metaDirs == WithRecord(old(metaDirs), prefix, dist,
             PackageMeta(IndexOf(infoDir).value, files, LinkEntry(SourceDir(dist), linkType), OriginFor(dist)))
    {
      var origin := ReadOrigin(dist);
      var extra := ExtraInfo(files, LinkEntry(SourceDir(dist), linkType), origin);
      r := CreateMetaFile(prefix, dist, infoDir, extra);
    }

    /**
     * What `link` reads from the package's `info` directory before it
     * changes anything: the file list (`None` when `info/files` cannot be
     * opened), the has_prefix table and, for a package from the cache, the
     * union of `no_link` and `no_softlink`.
     */
    function InfoOf(infoDir: string, fromCache: bool): Option<PackageInfo>
      reads this`tree, this`data
    {
      InfoAt(tree, data, infoDir, fromCache)
    }

    /**
     * `link(prefix, dist, linkType)`: places the package's files (when it
     * comes from the package cache), rewrites the prefix placeholders, runs
     * the post-link script and writes the package's metadata.
     */
    method Link(prefix: string, dist: string, linkType: Option<LinkType>)
      returns (r: Outcome<LinkError>, ghost info: Option<PackageInfo>, ghost placed: map<nat, Bytes>)
      requires Valid()
      modifies this`tree, this`data, this`nextIno, this`metaDirs
      ensures Valid() && old(nextIno) <= nextIno
      ensures info == old(InfoOf(InfoDir(prefix, dist, linkType), linkType.Some?))
      ensures info.None? ==>
        r == Fail(MissingFile(Join(InfoDir(prefix, dist, linkType), "files"))) && tree == old(tree) && data == old(data)
      ensures r.Fail? ==> metaDirs == old(metaDirs)
      ensures r.Fail? && r.error.DstExists? ==> !force
      ensures metaDirs - {prefix} == old(metaDirs) - {prefix}
      ensures r.Pass? ==> LinkedIn(prefix) == old(LinkedIn(prefix)) + {dist}
      ensures linkType.None? ==> tree == old(tree) && placed == old(data)
      ensures r.Pass? && linkType.Some? && AllRelative(info.value.files) &&
              SourcesApart(prefix, SourceDir(dist), info.value.files) ==>
        forall k :: 0 <= k < |info.value.files| ==>
          PlacedFrom(tree, placed, refused, prefix, SourceDir(dist), info.value.files[k], info.value.hasPrefix.Keys,
                     info.value.noLink, linkType.value, old(tree), old(data), old(nextIno))
      ensures r.Pass? ==>
        && info.Some? && IndexOf(InfoDir(prefix, dist, linkType)).Some? && ScriptSucceeds(prefix, dist)
        && Rewrote(tree, placed, data, prefix, info.value.hasPrefix)
        && metaDirs == WithRecord(old(metaDirs), prefix, dist,
             PackageMeta(IndexOf(InfoDir(prefix, dist, linkType)).value, info.value.files,
                         LinkEntry(SourceDir(dist), linkType), OriginFor(dist)))
      ensures r.Pass? && linkType.Some? && AllRelative(info.value.files) &&
              SourcesApart(prefix, SourceDir(dist), info.value.files) && DistinctTargets(prefix, info.value.hasPrefix) ==>
        RewrittenFromSource(tree, data, prefix, SourceDir(dist), info.value.files, info.value.hasPrefix, old(tree), old(data))
      ensures (!force && linkType.Some? && info.Some? &&
               exists k :: 0 <= k < |info.value.files| && Join(prefix, info.value.files[k]) in old(tree)) ==> r.Fail?
      ensures (r.Pass? && linkType.Some? && info.Some? &&
               CopiesOnly(prefix, info.value.files, info.value.hasPrefix.Keys) &&
               (forall f :: f in info.value.hasPrefix ==> !IsLink(Join(prefix, f)))) ==>
        DataKept(old(data), data)
    {
      var infoDir := InfoDir(prefix, dist, linkType);
      var read := ReadInfo(ReadText(Join(infoDir, "files")), ReadText(Join(infoDir, "has_prefix")),
                           ReadText(Join(infoDir, "no_link")), ReadText(Join(infoDir, "no_softlink")), linkType.Some?);
      info := read;
      placed := data;
      assert info == InfoOf(infoDir, linkType.Some?);
      if read.None? {
        return Fail(MissingFile(Join(infoDir, "files"))), info, placed;
      }
      ghost var tree0, data0, base, metaDirs0 := tree, data, nextIno, metaDirs;
      r, placed := LinkPackage(prefix, dist, infoDir, read.value, linkType);
      var pkg := read.value;
      if r.Pass? {
        WithRecordLinks(metaDirs0, prefix, dist, metaDirs[prefix][dist + ".json"]);
      }
      if r.Pass? && linkType.Some? && AllRelative(pkg.files) && SourcesApart(prefix, SourceDir(dist), pkg.files) &&
         DistinctTargets(prefix, pkg.hasPrefix) {
        PlacedThenRewritten(tree, placed, data, refused, prefix, SourceDir(dist), pkg.files, pkg.hasPrefix, pkg.noLink,
                            linkType.value, tree0, data0, base);
      }
    }

    /** The rest of `link` once the package's info files have been read into `pkg`. */
    method LinkPackage(prefix: string, dist: string, infoDir: string, pkg: PackageInfo, linkType: Option<LinkType>)
      returns (r: Outcome<LinkError>, ghost placed: map<nat, Bytes>)
      requires Valid()
      modifies this`tree, this`data, this`nextIno, this`metaDirs
      ensures Valid() && old(nextIno) <= nextIno
      ensures r.Fail? ==> metaDirs == old(metaDirs)
      ensures r.Fail? && r.error.DstExists? ==> !force
      ensures linkType.None? ==> tree == old(tree) && placed == old(data)
      ensures r.Pass? && linkType.Some? && AllRelative(pkg.files) && SourcesApart(prefix, SourceDir(dist), pkg.files) ==>
        forall k :: 0 <= k < |pkg.files| ==>
          PlacedFrom(tree, placed, refused, prefix, SourceDir(dist), pkg.files[k], pkg.hasPrefix.Keys, pkg.noLink,
                     linkType.value, old(tree), old(data), old(nextIno))
      ensures r.Pass? ==>
        && IndexOf(infoDir).Some? && ScriptSucceeds(prefix, dist)
        && Rewrote(tree, placed, data, prefix, pkg.hasPrefix)
        && metaDirs == WithRecord(old(metaDirs), prefix, dist,
             PackageMeta(IndexOf(infoDir).value, pkg.files, LinkEntry(SourceDir(dist), linkType), OriginFor(dist)))
      ensures (!force && linkType.Some? &&
               exists k :: 0 <= k < |pkg.files| && Join(prefix, pkg.files[k]) in old(tree)) ==> r.Fail?
      ensures (r.Pass? && linkType.Some? && CopiesOnly(prefix, pkg.files, pkg.hasPrefix.Keys) &&
               (forall f :: f in pkg.hasPrefix ==> !IsLink(Join(prefix, f)))) ==>
        DataKept(old(data), data)
    {
      r, placed := InstallFiles(prefix, SourceDir(dist), pkg.files, pkg.hasPrefix, pkg.noLink, linkType);
      if r.Fail? {
        return;
      }
      r := RecordPackage(prefix, dist, infoDir, pkg.files, linkType);
    }

    // -------------------------------------------------------------------------
    // post_extract

    /**
     * `post_extract(envName)`: for a package extracted in place into the
     * environment's prefix, `link` without placing files, under the id the
     * package's `info/index.json` gives; then `info` is removed.
     */
    method PostExtract(envName: string) returns (r: Outcome<LinkError>)
      requires Valid()
      modifies this`tree, this`data, this`nextIno, this`metaDirs
      ensures Valid()
      ensures var infoDir := Join(PrefixEnv(rootPrefix, envName), "info");
        old(IndexOf(infoDir)).None? ==> r.Fail? && tree == old(tree) && data == old(data) && metaDirs == old(metaDirs)
      ensures r.Fail? ==> tree == old(tree) && metaDirs == old(metaDirs)
      ensures var infoDir := Join(PrefixEnv(rootPrefix, envName), "info");
        r.Pass? ==>
          && old(IndexOf(infoDir)).Some? && DistOf(old(IndexOf(infoDir)).value).Some?
          && LinkedInPlace(old(tree), old(data), data, old(metaDirs), metaDirs,
                           PrefixEnv(rootPrefix, envName), DistOf(old(IndexOf(infoDir)).value).value)
          && (forall k :: k in tree <==> k in old(tree) && !Under(infoDir, k))
          && (forall k :: k in tree ==> tree[k] == old(tree)[k])
    {
      var prefix := PrefixEnv(rootPrefix, envName);
      var infoDir := Join(prefix, "info");
      var path := Join(infoDir, "index.json");
      var bytes := ReadFile(path);
      if bytes.None? {
        return Fail(MissingFile(path));
      }
      var index := parseIndex(bytes.value);
      if index.None? {
        return Fail(BadIndex(path));
      }
      var dist := DistOf(index.value);
      if dist.None? {
        return Fail(BadIndex(path));
      }
      r := LinkInPlace(prefix, dist.value);
      if r.Fail? {
        return;
      }
      RemoveTree(infoDir);
    }

    /** `shutil.rmtree(dir)`: every path under `dir` is gone and nothing else changes. */
    method RemoveTree(dir: string)
      requires Valid()
      modifies this`tree
      ensures Valid()
      ensures forall k :: k in tree <==> k in old(tree) && !Under(dir, k)
      ensures forall k :: k in tree ==> tree[k] == old(tree)[k]
    {
      tree := map k | k in tree && !Under(dir, k) :: tree[k];
    }

    /**
     * `link(prefix, dist, None)` as `post_extract` sees it: no file is placed;
     * the has_prefix files of the prefix's `info` are rewritten in place, the
     * post-link script succeeds and the package's record, with a null `link`
     * entry, is written. A failure leaves conda-meta untouched.
     */
    method LinkInPlace(prefix: string, dist: string) returns (r: Outcome<LinkError>)
      requires Valid()
      modifies this`tree, this`data, this`nextIno, this`metaDirs
      ensures Valid() && tree == old(tree)
      ensures r.Fail? ==> metaDirs == old(metaDirs)
      ensures r.Pass? ==> LinkedInPlace(tree, old(data), data, old(metaDirs), metaDirs, prefix, dist)
    {
      ghost var info, placed;
      r, info, placed := Link(prefix, dist, None);
    }

    // -------------------------------------------------------------------------
    // link_idists

    /**
     * The unlinking loop of `link_idists` on `prefix`: the ids listed stop
     * being linked there, and other prefixes are untouched. When the
     * conda-meta directory does not exist, every rename and every removal
     * finds nothing.
     */
    method UnlinkDuplicates(prefix: string, dists: seq<string>)
      modifies this`metaDirs
      ensures metaDirs.Keys == old(metaDirs).Keys
      ensures metaDirs - {prefix} == old(metaDirs) - {prefix}
      ensures LinkedIn(prefix) == old(LinkedIn(prefix)) - (set d | d in dists)
      ensures forall n :: n in old(Listing(prefix)) && EndsWith(n, ".json") && n[..|n| - 5] !in dists ==>
        n in Listing(prefix) && Listing(prefix)[n] == old(Listing(prefix))[n]
    {
      if prefix in metaDirs {
        var listing := UnlinkListing(metaDirs[prefix], Join(prefix, "conda-meta"), renameRefused, dists);
        metaDirs := metaDirs[prefix := listing];
      }
    }

    /**
     * `link(prefix, dist, lt)` as one environment's loop sees it; `done` are
     * the ids the loop linked before, whose records stay as they were.
     */
    method LinkInto(prefix: string, dist: string, lt: LinkType, ghost done: seq<string>) returns (r: Outcome<LinkError>)
      requires Valid()
      modifies this`tree, this`data, this`nextIno, this`metaDirs
      ensures Valid()
      ensures metaDirs - {prefix} == old(metaDirs) - {prefix}
      ensures r.Pass? ==> LinkedIn(prefix) == old(LinkedIn(prefix)) + {dist}
      ensures r.Pass? && EnvRecordedAt(old(metaDirs), prefix, done, lt) ==> EnvRecordedAt(metaDirs, prefix, done + [dist], lt)
    {
      ghost var info, placed;
      ghost var m0 := metaDirs;
      r, info, placed := Link(prefix, dist, Some(lt));
      if r.Pass? {
        ghost var record := PackageMeta(IndexOf(InfoDir(prefix, dist, Some(lt))).value, info.value.files,
                                        LinkEntry(SourceDir(dist), Some(lt)), OriginFor(dist));
        RecordWritten(m0, prefix, dist, record);
        if EnvRecordedAt(m0, prefix, done, lt) {
          RecordedStep(m0, metaDirs, prefix, done, dist, lt);
        }
      }
    }

    /** The promise of `link_idists` for one environment: its ids are linked, and one build per name is left when they hold one. */
    ghost predicate EnvLinked(prefix: string, dists: seq<string>)
      reads this`metaDirs
    {
      EnvLinkedAt(metaDirs, prefix, dists)
    }

    /**
     * One environment of `link_idists`: every id must be in IDISTS and is
     * linked in turn; then the duplicates `duplicates_to_remove` names are
     * unlinked.
     */
    method LinkEnv(prefix: string, dists: seq<string>, lt: LinkType) returns (r: Outcome<LinkError>)
      requires Valid()
      modifies this`tree, this`data, this`nextIno, this`metaDirs
      ensures Valid()
      ensures metaDirs - {prefix} == old(metaDirs) - {prefix}
      ensures r.Pass? ==> forall d :: d in dists ==> d in idists
      ensures r.Pass? ==>
        var keep := Elements(dists);
        var linked := old(LinkedIn(prefix)) + keep;
        LinkedIn(prefix) == linked - ToRemove(linked, keep)
      ensures r.Pass? ==> EnvLinked(prefix, dists)
      ensures r.Pass? ==> EnvRecordedAt(metaDirs, prefix, dists, lt)
    {
      r := LinkAll(prefix, dists, lt);
      if r.Fail? {
        return;
      }
      ghost var linked, before := LinkedIn(prefix), metaDirs;
      ResolveDuplicates(prefix, dists);
      EnvResolved(linked, Elements(dists));
      assert EnvRecordedAt(metaDirs, prefix, dists, lt) by {
        RecordedSurvive(before, metaDirs, prefix, dists, ToRemove(linked, Elements(dists)), lt);
      }
    }

    /** The loop of one environment: each id must be in IDISTS and is linked in turn. */
    method LinkAll(prefix: string, dists: seq<string>, lt: LinkType) returns (r: Outcome<LinkError>)
      requires Valid()
      modifies this`tree, this`data, this`nextIno, this`metaDirs
      ensures Valid()
      ensures metaDirs - {prefix} == old(metaDirs) - {prefix}
      ensures r.Pass? ==> forall d :: d in dists ==> d in idists
      ensures r.Pass? ==> LinkedIn(prefix) == old(LinkedIn(prefix)) + Elements(dists)
      ensures r.Pass? ==> EnvRecordedAt(metaDirs, prefix, dists, lt)
    {
      for i := 0 to |dists|
        invariant Valid()
        invariant metaDirs - {prefix} == old(metaDirs) - {prefix}
        invariant forall k :: 0 <= k < i ==> dists[k] in idists
        invariant LinkedIn(prefix) == old(LinkedIn(prefix)) + Elements(dists[..i])
        invariant EnvRecordedAt(metaDirs, prefix, dists[..i], lt)
      {
        r := LinkNext(prefix, dists, i, lt, old(LinkedIn(prefix)));
        if r.Fail? {
          return;
        }
        assert forall k :: 0 <= k < i + 1 ==> dists[k] in idists;
      }
      assert dists[..|dists|] == dists;
      r := Pass;
    }

    /**
     * One turn of the loop of one environment, on `dists[i]`: the id must be
     * in IDISTS and is linked. `linked0` is what the prefix had linked before
     * the loop.
     */
    method LinkNext(prefix: string, dists: seq<string>, i: nat, lt: LinkType, ghost linked0: set<string>)
      returns (r: Outcome<LinkError>)
      requires Valid() && i < |dists|
      requires LinkedIn(prefix) == linked0 + Elements(dists[..i])
      requires EnvRecordedAt(metaDirs, prefix, dists[..i], lt)
      modifies this`tree, this`data, this`nextIno, this`metaDirs
      ensures Valid()
      ensures metaDirs - {prefix} == old(metaDirs) - {prefix}
      ensures dists[i] !in idists ==> r == Fail(NotInIndex(dists[i]))
      ensures r.Pass? ==> dists[i] in idists
      ensures r.Pass? ==> LinkedIn(prefix) == linked0 + Elements(dists[..i + 1])
      ensures r.Pass? ==> EnvRecordedAt(metaDirs, prefix, dists[..i + 1], lt)
    {
      assert dists[..i + 1] == dists[..i] + [dists[i]];
      ElementsSnoc(dists, i);
      if dists[i] !in idists {
        return Fail(NotInIndex(dists[i]));
      }
      r := LinkInto(prefix, dists[i], lt, dists[..i]);
    }

    /** The end of one environment: the builds `duplicates_to_remove` names are unlinked. */
    method ResolveDuplicates(prefix: string, dists: seq<string>)
      modifies this`metaDirs
      ensures metaDirs - {prefix} == old(metaDirs) - {prefix}
      ensures metaDirs.Keys == old(metaDirs).Keys
      ensures LinkedIn(prefix) == old(LinkedIn(prefix)) - ToRemove(old(LinkedIn(prefix)), Elements(dists))
      ensures forall n :: n in old(Listing(prefix)) && EndsWith(n, ".json") &&
                          n[..|n| - 5] !in ToRemove(old(LinkedIn(prefix)), Elements(dists)) ==>
        n in Listing(prefix) && Listing(prefix)[n] == old(Listing(prefix))[n]
    {
      var toRemove := DuplicatesToRemove(LinkedIn(prefix), dists);
      assert (set d | d in toRemove) == ToRemove(LinkedIn(prefix), Elements(dists));
      UnlinkDuplicates(prefix, toRemove);
    }

    /**
     * The hard-link probe of `link_idists`: `src` is hard-linked to `dst` and
     * `dst` removed again; hard links are used when the link succeeded.
     */
    method ProbeHardLink(src: string, dst: string) returns (lt: LinkType)
      requires Valid() && src in tree
      modifies this`tree, this`data, this`nextIno
      ensures Valid()
      ensures lt == LinkHard <==> dst !in old(tree) && dst !in refused
      ensures lt == LinkHard || lt == LinkCopy
      ensures tree == old(tree) - {dst} && data == old(data)
    {
      lt := LinkCopy;
      if dst !in tree {
        var _ := PlaceFile(src, dst, LinkHard);
        if dst in tree {
          lt := LinkHard;
        }
      }
      // rm_rf(dst)
      tree := tree - {dst};
    }

    /**
     * `link_idists`: probes whether hard links work from the package cache
     * into the root prefix (`.hard-link`), then links the packages of every
     * environment, in sorted order of environment name, with hard links when
     * the probe succeeded and copies otherwise.
     */
    method LinkIdists(envs: map<string, seq<string>>) returns (r: Outcome<LinkError>, ghost lt: LinkType)
      requires Valid()
      modifies this`tree, this`data, this`nextIno, this`metaDirs
      ensures Valid()
      ensures old(Resolve(Join(PkgsDir(), "urls"))).None? ==> r == Fail(NoUrlsFile(Join(PkgsDir(), "urls")))
      ensures old(Resolve(Join(PkgsDir(), "urls"))).Some? && old(Resolve(Join(rootPrefix, ".hard-link"))).Some? ==>
        r == Fail(ProbeExists(Join(rootPrefix, ".hard-link")))
      ensures lt == LinkHard <==> Join(rootPrefix, ".hard-link") !in old(tree) && Join(rootPrefix, ".hard-link") !in refused
      ensures r.Pass? ==> forall env :: env in envs ==> forall d :: d in envs[env] ==> d in idists
      ensures r.Pass? && EnvNamesRelative(envs) ==>
        forall env :: env in envs && envs[env] != [] ==> EnvLinkedAt(metaDirs, PrefixEnv(rootPrefix, env), envs[env])
      ensures r.Pass? && EnvNamesRelative(envs) ==>
        forall env :: env in envs ==> EnvRecordedAt(metaDirs, PrefixEnv(rootPrefix, env), envs[env], lt)
    {
      var src := Join(PkgsDir(), "urls");
      var dst := Join(rootPrefix, ".hard-link");
      lt := if dst !in tree && dst !in refused then LinkHard else LinkCopy;
      if Resolve(src).None? {
        return Fail(NoUrlsFile(src)), lt;
      }
      if Resolve(dst).Some? {
        return Fail(ProbeExists(dst)), lt;
      }
      var linkType := ProbeHardLink(src, dst);
      assert linkType == lt;

      var names := SortStrings(envs.Keys);
      r := LinkEnvs(envs, names, linkType);
      forall env | env in envs
        ensures exists k :: 0 <= k < |names| && names[k] == env
      {
        assert env in names;
      }
    }

    /** The environment loop of `link_idists`, over the environment names in sorted order. */
    method LinkEnvs(envs: map<string, seq<string>>, names: seq<string>, lt: LinkType) returns (r: Outcome<LinkError>)
      requires Valid()
      requires StrictlySorted(names) && forall k :: 0 <= k < |names| ==> names[k] in envs
      modifies this`tree, this`data, this`nextIno, this`metaDirs
      ensures Valid()
      ensures r.Pass? ==> forall k :: 0 <= k < |names| ==> forall d :: d in envs[names[k]] ==> d in idists
      ensures r.Pass? && EnvNamesRelative(envs) ==> EnvsLinked(metaDirs, rootPrefix, envs, names, |names|)
      ensures r.Pass? && EnvNamesRelative(envs) ==> EnvsRecorded(metaDirs, envs, names, |names|, lt)
    {
      for i := 0 to |names|
        invariant Valid()
        invariant forall k :: 0 <= k < i ==> forall d :: d in envs[names[k]] ==> d in idists
        invariant EnvNamesRelative(envs) ==> EnvsLinked(metaDirs, rootPrefix, envs, names, i)
        invariant EnvNamesRelative(envs) ==> EnvsRecorded(metaDirs, envs, names, i, lt)
      {
        r := LinkEnvsNext(envs, names, i, lt);
        if r.Fail? {
          return;
        }
        assert forall k :: 0 <= k < i + 1 ==> forall d :: d in envs[names[k]] ==> d in idists;
      }
      r := Pass;
    }

    /**
     * One turn of the environment loop, on `names[i]`: an environment with no
     * ids is skipped, any other is linked into its prefix.
     */
    method LinkEnvsNext(envs: map<string, seq<string>>, names: seq<string>, i: nat, lt: LinkType)
      returns (r: Outcome<LinkError>)
      requires Valid()
      requires StrictlySorted(names) && i < |names| && forall k :: 0 <= k < |names| ==> names[k] in envs
      requires EnvNamesRelative(envs) ==> EnvsLinked(metaDirs, rootPrefix, envs, names, i)
      requires EnvNamesRelative(envs) ==> EnvsRecorded(metaDirs, envs, names, i, lt)
      modifies this`tree, this`data, this`nextIno, this`metaDirs
      ensures Valid()
      ensures envs[names[i]] == [] ==> r.Pass? && metaDirs == old(metaDirs)
      ensures r.Pass? ==> forall d :: d in envs[names[i]] ==> d in idists
      ensures r.Pass? && EnvNamesRelative(envs) ==> EnvsLinked(metaDirs, rootPrefix, envs, names, i + 1)
      ensures r.Pass? && EnvNamesRelative(envs) ==> EnvsRecorded(metaDirs, envs, names, i + 1, lt)
    {
      var dists := envs[names[i]];
      if |dists| == 0 {
        return Pass;
      }
      var prefix := PrefixEnv(rootPrefix, names[i]);
      ghost var before := metaDirs;
      r := LinkEnv(prefix, dists, lt);
      if r.Pass? && EnvNamesRelative(envs) {
        assert EnvsLinked(metaDirs, rootPrefix, envs, names, i + 1) by {
          EnvsLinkedStep(before, metaDirs, rootPrefix, envs, names, i);
        }
        assert EnvsRecorded(metaDirs, envs, names, i + 1, lt) by {
          EnvsRecordedStep(before, metaDirs, envs, names, i, lt);
        }
      }
    }
  }

  /**
   * The unlinking loop of `link_idists` on one conda-meta listing: each
   * `<d>.json` is renamed to `<d>.json.bak`, or removed when the rename is
   * refused. The ids listed stop being linked, and the records of all other
   * ids stay as they were.
   */
  method UnlinkListing(listing: map<string, Meta>, metaDir: string, renameRefused: set<string>, dists: seq<string>)
    returns (res: map<string, Meta>)
    ensures Linked(Some(res.Keys)) == Linked(Some(listing.Keys)) - (set d | d in dists)
    ensures forall n :: n in listing && EndsWith(n, ".json") && n[..|n| - 5] !in dists ==>
      n in res && res[n] == listing[n]
  {
    res := listing;
    for i := 0 to |dists|
      invariant Linked(Some(res.Keys)) == Linked(Some(listing.Keys)) - Elements(dists[..i])
      invariant forall n :: n in listing && EndsWith(n, ".json") && n[..|n| - 5] !in dists[..i] ==>
        n in res && res[n] == listing[n]
    {
      var d := dists[i];
      var name := d + ".json";
      var next: map<string, Meta>;
      ghost var extra: set<string> := {};
      if Join(metaDir, name) in renameRefused {
        // the rename fails and rm_rf removes the record
        next := res - {name};
      } else if name in res {
        var bak := name + ".bak";
        assert !EndsWith(bak, ".json") by {
          assert bak[|bak| - 1] == 'k';
        }
        next := (res - {name})[bak := res[name]];
        extra := {bak};
      } else {
        // the rename of a missing record fails and rm_rf finds nothing
        next := res;
      }
      assert next.Keys == res.Keys - {name} + extra;
      UnlinkedStep(listing.Keys, res.Keys, next.Keys, dists, i, extra);
      KeptStep(listing, res, next, dists[..i], d);
      assert dists[..i + 1] == dists[..i] + [d];
      res := next;
    }
    assert dists[..|dists|] == dists;
  }

  /** The set of the elements of a sequence. */
  function Elements(s: seq<string>): set<string> {
    set x | x in s
  }

  lemma ElementsSnoc(s: seq<string>, i: nat)
    requires i < |s|
    ensures Elements(s[..i + 1]) == Elements(s[..i]) + {s[i]}
  {
    assert s[..i + 1] == s[..i] + [s[i]];
  }

  /** `EnvLinked` over an explicit set of conda-meta listings. */
  ghost predicate EnvLinkedAt(metaDirs: map<string, map<string, Meta>>, prefix: string, dists: seq<string>) {
    var linked := Linked(if prefix in metaDirs then Some(metaDirs[prefix].Keys) else None);
    && (forall d :: d in dists ==> d in linked)
    && (OneBuildEach(Elements(dists)) ==> OneBuildEach(linked))
  }

  /** The record of `d` is in the conda-meta listing of `prefix`, and its `link` entry is `link`. */
  ghost predicate RecordLinkIs(m: map<string, map<string, Meta>>, prefix: string, d: string, link: Json) {
    var listing := ListingAt(m, prefix);
    d + ".json" in listing && "link" in listing[d + ".json"] && listing[d + ".json"]["link"] == link
  }

  /** Every entry of `prefix`'s listing other than `key` is still there, unchanged. */
  ghost predicate RecordsKept(m0: map<string, map<string, Meta>>, m1: map<string, map<string, Meta>>, prefix: string,
                              key: string)
  {
    forall n :: n in ListingAt(m0, prefix) && n != key ==> n in ListingAt(m1, prefix) && ListingAt(m1, prefix)[n] == ListingAt(m0, prefix)[n]
  }

  /** Writing the record of `dist` keeps every other entry of the listing, and the record is there with its `link` entry. */
  lemma RecordWritten(m: map<string, map<string, Meta>>, prefix: string, dist: string, record: Meta)
    ensures RecordsKept(m, WithRecord(m, prefix, dist, record), prefix, dist + ".json")
    ensures "link" in record ==> RecordLinkIs(WithRecord(m, prefix, dist, record), prefix, dist, record["link"])
  {
  }

  /** Different ids have different record names. */
  lemma JsonNameInjective(d: string, e: string)
    ensures d + ".json" == e + ".json" <==> d == e
  {
    if d + ".json" == e + ".json" {
      assert |d| == |e|;
      assert d == (d + ".json")[..|d|];
    }
  }

  /** Changing the listings of one prefix leaves the listing of another as it was. */
  lemma ListingFrame(m1: map<string, map<string, Meta>>, m2: map<string, map<string, Meta>>, prefix: string, other: string)
    requires m1 - {other} == m2 - {other} && prefix != other
    ensures ListingAt(m1, prefix) == ListingAt(m2, prefix)
  {
    assert prefix in m1 <==> prefix in m1 - {other};
    assert prefix in m2 <==> prefix in m2 - {other};
    if prefix in m1 {
      assert m1[prefix] == (m1 - {other})[prefix];
      assert m2[prefix] == (m2 - {other})[prefix];
    }
  }

  /** Linking into one prefix keeps what `link_idists` established for another. */
  lemma EnvLinkedFrame(m1: map<string, map<string, Meta>>, m2: map<string, map<string, Meta>>,
                       prefix: string, other: string, dists: seq<string>)
    requires m1 - {other} == m2 - {other} && prefix != other
    requires EnvLinkedAt(m1, prefix, dists)
    ensures EnvLinkedAt(m2, prefix, dists)
  {
    assert prefix in m1 <==> prefix in m1 - {other};
    assert prefix in m2 <==> prefix in m2 - {other};
    if prefix in m1 {
      assert m1[prefix] == (m1 - {other})[prefix];
      assert m2[prefix] == (m2 - {other})[prefix];
    }
  }

  /** `path` is the directory `dir` or lies below it. */
  predicate Under(dir: string, path: string) {
    path == dir || StartsWith(path, dir + "/")
  }

  /**
   * The id `post_extract` links under names the package `name_dist` finds
   * in it, when the version and build hold no hyphen.
   */
  lemma PostExtractName(meta: Meta)
    requires HasIdFields(meta) && IsField(meta["version"].s) && IsField(meta["build"].s)
    ensures NameDist(DistOf(meta).value) == meta["name"].s
  {
    NameDistOfId(meta["name"].s, meta["version"].s, meta["build"].s);
  }

  /** The conda-meta listing of `prefix`, empty when the directory does not exist. */
  function ListingAt(metaDirs: map<string, map<string, Meta>>, prefix: string): map<string, Meta> {
    if prefix in metaDirs then metaDirs[prefix] else map[]
  }

  /** `linked(prefix)` over an explicit set of conda-meta listings. */
  function LinkedAt(metaDirs: map<string, map<string, Meta>>, prefix: string): set<string> {
    Linked(if prefix in metaDirs then Some(metaDirs[prefix].Keys) else None)
  }

  /** The listings after `create_meta` writes `record` to `<prefix>/conda-meta/<dist>.json` (making the directory). */
  function WithRecord(metaDirs: map<string, map<string, Meta>>, prefix: string, dist: string, record: Meta)
    : map<string, map<string, Meta>>
  {
    metaDirs[prefix := ListingAt(metaDirs, prefix)[dist + ".json" := record]]
  }

  /** Writing a record links exactly its id in its prefix, and leaves the other prefixes as they were. */
  lemma WithRecordLinks(metaDirs: map<string, map<string, Meta>>, prefix: string, dist: string, record: Meta)
    ensures var m := WithRecord(metaDirs, prefix, dist, record);
      && LinkedAt(m, prefix) == LinkedAt(metaDirs, prefix) + {dist}
      && m - {prefix} == metaDirs - {prefix}
      && m[prefix][dist + ".json"] == record
  {
    var listing := ListingAt(metaDirs, prefix);
    LinkedAdd(listing.Keys, dist);
    if prefix !in metaDirs {
      assert Linked(Some(listing.Keys)) == {} by {
        forall d ensures d !in Linked(Some(listing.Keys)) {
          LinkedIff(listing.Keys, d);
        }
      }
    }
  }

  /** The first `i` environments of `names` that list ids have what `link_idists` promises. */
  ghost predicate EnvsLinked(metaDirs: map<string, map<string, Meta>>, root: string, envs: map<string, seq<string>>,
                             names: seq<string>, i: nat)
    requires i <= |names| && forall k :: 0 <= k < |names| ==> names[k] in envs
  {
    forall k :: 0 <= k < i && envs[names[k]] != [] ==> EnvLinkedAt(metaDirs, PrefixEnv(root, names[k]), envs[names[k]])
  }

  /** Linking the environment `names[i]` keeps what holds for the environments before it. */
  lemma EnvsLinkedStep(before: map<string, map<string, Meta>>, after: map<string, map<string, Meta>>, root: string,
                       envs: map<string, seq<string>>, names: seq<string>, i: nat)
    requires i < |names| && StrictlySorted(names) && forall k :: 0 <= k < |names| ==> names[k] in envs
    requires EnvNamesRelative(envs)
    requires after - {PrefixEnv(root, names[i])} == before - {PrefixEnv(root, names[i])}
    requires EnvsLinked(before, root, envs, names, i)
    requires EnvLinkedAt(after, PrefixEnv(root, names[i]), envs[names[i]])
    ensures EnvsLinked(after, root, envs, names, i + 1)
  {
    forall k | 0 <= k < i && envs[names[k]] != []
      ensures EnvLinkedAt(after, PrefixEnv(root, names[k]), envs[names[k]])
    {
      LexLessIrreflexive(names[i]);
      PrefixEnvDistinct(root, names[k], names[i]);
      EnvLinkedFrame(before, after, PrefixEnv(root, names[k]), PrefixEnv(root, names[i]), envs[names[k]]);
    }
  }

  /** No environment name is an absolute path, so each environment has a prefix of its own. */
  predicate EnvNamesRelative(envs: map<string, seq<string>>) {
    forall env :: env in envs ==> !IsAbsolute(env)
  }

  /** At most one build of each package name. */
  ghost predicate OneBuildEach(dists: set<string>) {
    forall name :: |Group(dists, name)| <= 1
  }

  /**
   * After `duplicates_to_remove`, the protected ids are still there, and a
   * package with at most one protected build keeps at most one build.
   */
  lemma EnvResolved(linked: set<string>, keep: set<string>)
    requires keep <= linked
    ensures keep <= linked - ToRemove(linked, keep)
    ensures OneBuildEach(keep) ==> OneBuildEach(linked - ToRemove(linked, keep))
  {
    forall d | d in keep
      ensures d !in ToRemove(linked, keep)
    {
      assert d !in ToRemove(linked, keep) * keep;
    }
    if OneBuildEach(keep) {
      forall name
        ensures |Group(linked - ToRemove(linked, keep), name)| <= 1
      {
        assert Group(linked * keep, name) <= Group(keep, name);
        SubsetCard(Group(linked * keep, name), Group(keep, name));
        OneBuildPerName(linked, keep, name);
      }
    }
  }

  /**
   * The path `open(p)` reaches in `tree`: the target of a symbolic link (a
   * relative target is taken from the link's directory), or `p` itself.
   */
  function TargetIn(tree: map<string, Node>, p: string): string {
    if p in tree && tree[p].Symlink? then
      var t := tree[p].target;
      if IsAbsolute(t) then t else Join(Dirname(p), t)
    else p
  }

  /** The inode `open(p)` reaches in `tree`, if it is a regular file's. */
  function ResolveIn(tree: map<string, Node>, p: string): (r: Option<nat>)
    ensures p in tree && tree[p].Regular? ==> r == Some(tree[p].ino)
    ensures p !in tree ==> r.None?
    ensures r.Some? ==> TargetIn(tree, p) in tree && tree[TargetIn(tree, p)] == Regular(r.value)
  {
    var q := TargetIn(tree, p);
    if q in tree && tree[q].Regular? then Some(tree[q].ino) else None
  }

  /**
   * Unlinking `d` keeps every other record: a record of `listing` kept so far
   * is still there once the listing changes at most at `<d>.json` and at
   * names that are not records.
   */
  lemma KeptStep(listing: map<string, Meta>, res: map<string, Meta>, next: map<string, Meta>, ds: seq<string>, d: string)
    requires forall n :: n in listing && EndsWith(n, ".json") && n[..|n| - 5] !in ds ==> n in res && res[n] == listing[n]
    requires forall n :: n in res && n != d + ".json" && EndsWith(n, ".json") ==> n in next && next[n] == res[n]
    ensures forall n :: n in listing && EndsWith(n, ".json") && n[..|n| - 5] !in ds + [d] ==>
      n in next && next[n] == listing[n]
  {
    var dn := d + ".json";
    assert dn[..|dn| - 5] == d;
  }

  /** Unlinking `dists[i]` extends the ids unlinked so far by that id. */
  lemma UnlinkedStep(listing: set<string>, names: set<string>, next: set<string>, dists: seq<string>, i: nat,
                     extra: set<string>)
    requires i < |dists|
    requires Linked(Some(names)) == Linked(Some(listing)) - Elements(dists[..i])
    requires forall n :: n in extra ==> !EndsWith(n, ".json")
    requires next == names - {dists[i] + ".json"} + extra
    ensures Linked(Some(next)) == Linked(Some(listing)) - Elements(dists[..i + 1])
  {
    LinkedRemove(names, dists[i], extra);
    ElementsSnoc(dists, i);
  }

  /** The bytes `open(p).read()` returns in `tree` and `data`, `None` for an IOError. */
  function ReadFileIn(tree: map<string, Node>, data: map<nat, Bytes>, p: string): Option<Bytes> {
    match ResolveIn(tree, p)
    case None => None
    case Some(i) => if i in data then Some(data[i]) else None
  }

  /** A file of `tree` and `data` read in text mode. */
  function ReadTextIn(tree: map<string, Node>, data: map<nat, Bytes>, p: string): Option<string> {
    match ReadFileIn(tree, data, p)
    case None => None
    case Some(bs) => Some(Latin1(bs))
  }

  /** What `link` reads from the `info` directory `infoDir` of `tree` and `data`. */
  function InfoAt(tree: map<string, Node>, data: map<nat, Bytes>, infoDir: string, fromCache: bool): Option<PackageInfo> {
    InfoFrom(ReadTextIn(tree, data, Join(infoDir, "files")), ReadTextIn(tree, data, Join(infoDir, "has_prefix")),
             ReadTextIn(tree, data, Join(infoDir, "no_link")), ReadTextIn(tree, data, Join(infoDir, "no_softlink")),
             fromCache)
  }

  /** Every regular file in `tree` has content in `data`. */
  ghost predicate ContentFor(tree: map<string, Node>, data: map<nat, Bytes>) {
    forall p :: p in tree && tree[p].Regular? ==> tree[p].ino in data
  }

  /** `update_prefix` on the file system `tree` and `data`: the outcome and the new contents. */
  method UpdatePrefixIn(tree: map<string, Node>, data: map<nat, Bytes>, path: string, newPrefix: string,
                        entry: PrefixEntry) returns (r: Outcome<LinkError>, d: map<nat, Bytes>)
    requires ContentFor(tree, data)
    ensures d.Keys == data.Keys
    ensures ResolveIn(tree, path).None? ==> r == Fail(MissingFile(path)) && d == data
    ensures ResolveIn(tree, path).Some? ==>
      var i := ResolveIn(tree, path).value;
      var res := UpdatePrefixData(data[i], newPrefix, entry.placeholder, entry.mode);
      && (res.Failure? ==> r == Fail(RewriteFailed(path, res.error)) && d == data)
      && (res.Success? ==> r.Pass? && d == data[i := Rewritten(data[i], newPrefix, entry)])
  {
    d := data;
    var ino := ResolveIn(tree, path);
    if ino.None? {
      return Fail(MissingFile(path)), d;
    }
    var i := ino.value;
    var res := UpdatePrefixData(data[i], newPrefix, entry.placeholder, entry.mode);
    if res.Failure? {
      return Fail(RewriteFailed(path, res.error)), d;
    }
    if res.value.Some? {
      d := data[i := res.value.value];
    }
    r := Pass;
  }

  /** `update_prefix` as the rewrite loop sees it: on success the file reached holds its rewritten bytes. */
  method RewriteOne(tree: map<string, Node>, data: map<nat, Bytes>, path: string, newPrefix: string,
                    entry: PrefixEntry) returns (r: Outcome<LinkError>, d: map<nat, Bytes>)
    requires ContentFor(tree, data)
    ensures d.Keys == data.Keys
    ensures r.Fail? ==> d == data && (r.error.MissingFile? || r.error.RewriteFailed?)
    ensures r.Pass? ==>
      && ResolveIn(tree, path).Some?
      && d == data[ResolveIn(tree, path).value := Rewritten(data[ResolveIn(tree, path).value], newPrefix, entry)]
  {
    r, d := UpdatePrefixIn(tree, data, path, newPrefix, entry);
  }

  /** No two has_prefix entries reach the same inode of `tree`. */
  ghost predicate DistinctTargetsIn(tree: map<string, Node>, prefix: string, table: map<string, PrefixEntry>) {
    forall f, g :: f in table && g in table && f != g ==>
      ResolveIn(tree, Join(prefix, f)) != ResolveIn(tree, Join(prefix, g))
  }

  /**
   * Visiting the has_prefix entries in sorted order covers the table: an
   * inode no entry reaches is reached at no position, and entries that reach
   * distinct inodes by name do so by position.
   */
  lemma SortedEntries(tree: map<string, Node>, prefix: string, table: map<string, PrefixEntry>, keys: seq<string>,
                      rs: seq<Option<nat>>, es: seq<PrefixEntry>)
    requires StrictlySorted(keys) && (forall x :: x in keys <==> x in table)
    requires |rs| == |keys| == |es|
    requires forall k :: 0 <= k < |keys| ==>
      keys[k] in table && rs[k] == ResolveIn(tree, Join(prefix, keys[k])) && es[k] == table[keys[k]]
    ensures forall f :: f in table ==> exists k :: 0 <= k < |keys| && keys[k] == f
    ensures forall j :: (forall f :: f in table ==> ResolveIn(tree, Join(prefix, f)) != Some(j)) ==>
      forall k :: 0 <= k < |keys| ==> rs[k] != Some(j)
    ensures DistinctTargetsIn(tree, prefix, table) ==> DistinctSome(rs)
  {
    forall f | f in table
      ensures exists k :: 0 <= k < |keys| && keys[k] == f
    {
      assert f in keys;
    }
    if DistinctTargetsIn(tree, prefix, table) {
      forall k, m | 0 <= k < |keys| && 0 <= m < |keys| && k != m
        ensures rs[k] != rs[m]
      {
        if k < m {
          LexLessIrreflexive(keys[k]);
        } else {
          LexLessIrreflexive(keys[m]);
        }
      }
    }
  }

  /** The rewrite loop of `link` on the file system `tree` and `data`. */
  method RewriteAll(tree: map<string, Node>, data: map<nat, Bytes>, prefix: string, table: map<string, PrefixEntry>)
    returns (r: Outcome<LinkError>, d: map<nat, Bytes>)
    requires ContentFor(tree, data)
    ensures d.Keys == data.Keys
    ensures r.Fail? ==> r.error.MissingFile? || r.error.RewriteFailed?
    ensures forall j :: j in data && (forall f :: f in table ==> ResolveIn(tree, Join(prefix, f)) != Some(j)) ==>
      d[j] == data[j]
    ensures r.Pass? ==> forall f :: f in table ==> ResolveIn(tree, Join(prefix, f)).Some?
    ensures r.Pass? && DistinctTargetsIn(tree, prefix, table) ==>
      forall f :: f in table ==>
        var j := ResolveIn(tree, Join(prefix, f)).value; d[j] == Rewritten(data[j], prefix, table[f])
  {
    d := data;
    var keys := SortStrings(table.Keys);
    ghost var rs := seq(|keys|, k requires 0 <= k < |keys| => ResolveIn(tree, Join(prefix, keys[k])));
    assert forall k :: 0 <= k < |keys| ==> keys[k] in table;
    ghost var es := seq(|keys|, k requires 0 <= k < |keys| && keys[k] in table => table[keys[k]]);
    SortedEntries(tree, prefix, table, keys, rs, es);
    var i := 0;
    while i < |keys|
      invariant 0 <= i <= |keys|
      invariant d.Keys == data.Keys
      invariant KeptOutside(rs, i, data, d)
      invariant forall k :: 0 <= k < i ==> rs[k].Some?
      invariant DistinctSome(rs) ==> RewrittenUpTo(rs, es, i, prefix, data, d)
    {
      var f := keys[i];
      assert f in table && es[i] == table[f];
      var res, d' := RewriteOne(tree, d, Join(prefix, f), prefix, table[f]);
      if res.Fail? {
        return res, d;
      }
      RewriteStep(rs, es, i, prefix, data, d, d');
      d := d';
      i := i + 1;
    }
    r := Pass;
  }

  datatype PackageInfo = PackageInfo(files: seq<string>, hasPrefix: map<string, PrefixEntry>, noLink: set<string>)

  /**
   * What `link` reads from a package's `info` directory before it changes
   * anything, from the texts of `files`, `has_prefix`, `no_link` and
   * `no_softlink` (`None` for a file that cannot be opened): the file list,
   * the has_prefix table and, for a package from the cache, the union of the
   * no_link sets. Without a file list there is nothing (`None`).
   */
  function InfoFrom(files: Option<string>, hasPrefix: Option<string>, noLink: Option<string>,
                    noSoftlink: Option<string>, fromCache: bool): (r: Option<PackageInfo>)
    ensures r.Some? <==> files.Some?
    ensures r.Some? ==> r.value.files == YieldLines(files.value) && r.value.hasPrefix == HasPrefixTable(hasPrefix)
    ensures r.Some? && !fromCache ==> r.value.noLink == {}
    ensures r.Some? && fromCache ==> forall x :: x in r.value.noLink <==>
      (noLink.Some? && x in YieldLines(noLink.value)) || (noSoftlink.Some? && x in YieldLines(noSoftlink.value))
  {
    match files
    case None => None
    case Some(text) =>
      Some(PackageInfo(YieldLines(text), HasPrefixTable(hasPrefix), if fromCache then NoLinkOf(noLink, noSoftlink) else {}))
  }

  /**
   * The reads at the start of `link`: `read_no_link` for a package from the
   * cache, then `yield_lines` of `files` and `read_has_prefix`.
   */
  method ReadInfo(files: Option<string>, hasPrefix: Option<string>, noLink: Option<string>,
                  noSoftlink: Option<string>, fromCache: bool) returns (r: Option<PackageInfo>)
    ensures r == InfoFrom(files, hasPrefix, noLink, noSoftlink, fromCache)
  {
    var skip: set<string> := {};
    if fromCache {
      skip := ReadNoLink(noLink, noSoftlink);
    }
    if files.None? {
      return None;
    }
    var table := ReadHasPrefix(hasPrefix);
    r := Some(PackageInfo(YieldLines(files.value), table, skip));
  }

  /** Inodes no entry before `i` reaches keep their bytes. */
  ghost predicate KeptOutside(rs: seq<Option<nat>>, i: nat, d0: map<nat, Bytes>, d: map<nat, Bytes>)
    requires i <= |rs|
  {
    forall j :: j in d0 && (forall k :: 0 <= k < i ==> rs[k] != Some(j)) ==> j in d && d[j] == d0[j]
  }

  /** No two entries reach the same inode. */
  ghost predicate DistinctSome(rs: seq<Option<nat>>) {
    forall k, m :: 0 <= k < |rs| && 0 <= m < |rs| && k != m ==> rs[k] != rs[m]
  }

  /** Every entry before `i` holds its rewritten bytes. */
  ghost predicate RewrittenUpTo(rs: seq<Option<nat>>, es: seq<PrefixEntry>, i: nat, newPrefix: string,
                                d0: map<nat, Bytes>, d: map<nat, Bytes>)
    requires i <= |rs| == |es|
  {
    forall k :: 0 <= k < i && rs[k].Some? ==>
      rs[k].value in d0 && rs[k].value in d && d[rs[k].value] == Rewritten(d0[rs[k].value], newPrefix, es[k])
  }

  /** One `update_prefix` of the rewrite loop keeps what the loop has established. */
  lemma RewriteStep(rs: seq<Option<nat>>, es: seq<PrefixEntry>, i: nat, newPrefix: string,
                    d0: map<nat, Bytes>, d1: map<nat, Bytes>, d2: map<nat, Bytes>)
    requires i < |rs| == |es| && rs[i].Some? && rs[i].value in d1 && d1.Keys == d0.Keys
    requires d2 == d1[rs[i].value := Rewritten(d1[rs[i].value], newPrefix, es[i])]
    requires KeptOutside(rs, i, d0, d1)
    requires DistinctSome(rs) ==> RewrittenUpTo(rs, es, i, newPrefix, d0, d1)
    ensures KeptOutside(rs, i + 1, d0, d2)
    ensures DistinctSome(rs) ==> RewrittenUpTo(rs, es, i + 1, newPrefix, d0, d2)
  {
    var t := rs[i].value;
    if DistinctSome(rs) {
      assert forall k :: 0 <= k < i ==> rs[k] != Some(t);
      assert d1[t] == d0[t];
    }
  }

  /**
   * What the rewrite loop of `link` leaves in `data`, starting from `placed`:
   * every has_prefix entry reaches a regular file; inodes no entry reaches
   * keep their bytes; and, when no two entries share an inode, each inode an
   * entry reaches holds the entry's rewrite of its bytes.
   */
  ghost predicate Rewrote(tree: map<string, Node>, placed: map<nat, Bytes>, data: map<nat, Bytes>, prefix: string,
                          table: map<string, PrefixEntry>)
  {
    && data.Keys == placed.Keys
    && (forall f :: f in table ==> ResolveIn(tree, Join(prefix, f)).Some?)
    && (forall j :: j in placed && (forall f :: f in table ==> ResolveIn(tree, Join(prefix, f)) != Some(j)) ==>
          data[j] == placed[j])
    && (DistinctTargetsIn(tree, prefix, table) ==>
          forall f :: f in table ==>
            var j := ResolveIn(tree, Join(prefix, f)).value; j in placed && data[j] == Rewritten(placed[j], prefix, table[f]))
  }

  /**
   * Each has_prefix file of the list whose source in `tree0` was a regular
   * file reaches an inode holding the rewrite of the source's bytes.
   */
  ghost predicate RewrittenFromSource(tree: map<string, Node>, data: map<nat, Bytes>, prefix: string, sourceDir: string,
                                      files: seq<string>, table: map<string, PrefixEntry>,
                                      tree0: map<string, Node>, data0: map<nat, Bytes>)
  {
    forall k :: 0 <= k < |files| && files[k] in table ==>
      var src := Join(sourceDir, files[k]);
      (src in tree0 && tree0[src].Regular? && tree0[src].ino in data0) ==>
        var j := ResolveIn(tree, Join(prefix, files[k]));
        j.Some? && j.value in data && data[j.value] == Rewritten(data0[tree0[src].ino], prefix, table[files[k]])
  }

  /**
   * A has_prefix file is always copied, so once the rewrite loop has run
   * (no two entries sharing an inode) its copy holds the rewrite of the
   * source's bytes.
   */
  lemma PlacedThenRewritten(tree: map<string, Node>, placed: map<nat, Bytes>, data: map<nat, Bytes>,
                            refused: set<string>, prefix: string, sourceDir: string, files: seq<string>,
                            table: map<string, PrefixEntry>, noLink: set<string>, lt: LinkType,
                            tree0: map<string, Node>, data0: map<nat, Bytes>, base: nat)
    requires forall k :: 0 <= k < |files| ==>
      PlacedFrom(tree, placed, refused, prefix, sourceDir, files[k], table.Keys, noLink, lt, tree0, data0, base)
    requires Rewrote(tree, placed, data, prefix, table) && DistinctTargetsIn(tree, prefix, table)
    ensures RewrittenFromSource(tree, data, prefix, sourceDir, files, table, tree0, data0)
  {
    forall k | 0 <= k < |files| && files[k] in table
      ensures var src := Join(sourceDir, files[k]);
        (src in tree0 && tree0[src].Regular? && tree0[src].ino in data0) ==>
          var j := ResolveIn(tree, Join(prefix, files[k]));
          j.Some? && j.value in data && data[j.value] == Rewritten(data0[tree0[src].ino], prefix, table[files[k]])
    {
      var src, dst := Join(sourceDir, files[k]), Join(prefix, files[k]);
      if src in tree0 && tree0[src].Regular? && tree0[src].ino in data0 {
        assert Strategy(files[k] in table.Keys, files[k] in noLink, false, lt) == LinkCopy;
        assert PlacedFrom(tree, placed, refused, prefix, sourceDir, files[k], table.Keys, noLink, lt, tree0, data0, base);
        assert dst in tree && tree[dst].Regular? && placed[tree[dst].ino] == data0[tree0[src].ino];
        assert ResolveIn(tree, dst) == Some(tree[dst].ino);
      }
    }
  }

  /** Every has_prefix entry is in the file list, and every file name is relative. */
  predicate CopiesOnly(prefix: string, files: seq<string>, hasPrefix: set<string>) {
    AllRelative(files) && forall f :: f in hasPrefix ==> f in files
  }

  /** The bytes a successful `update_prefix` with `entry` leaves in a file that held `bytes`. */
  function Rewritten(bytes: Bytes, newPrefix: string, entry: PrefixEntry): (r: Bytes)
    ensures (UpdatePrefixData(bytes, newPrefix, entry.placeholder, entry.mode) == Success(None)) ==> r == bytes
  {
    match UpdatePrefixData(bytes, newPrefix, entry.placeholder, entry.mode)
    case Success(Some(nd)) => nd
    case _ => bytes
  }


  /** Every entry of a file list is a relative path. */
  predicate AllRelative(files: seq<string>) {
    forall k :: 0 <= k < |files| ==> !IsAbsolute(files[k])
  }

  /** No source of a file list is also one of its destinations. */
  predicate SourcesApart(prefix: string, sourceDir: string, files: seq<string>) {
    forall k, j :: 0 <= k < |files| && 0 <= j < |files| ==> Join(sourceDir, files[k]) != Join(prefix, files[j])
  }

  /** A has_prefix destination is absent, a symbolic link, or a regular file with an inode from `base` up. */
  ghost predicate Fresh(tree: map<string, Node>, dst: string, base: nat) {
    dst !in tree || tree[dst].Symlink? || base <= tree[dst].ino
  }

  /**
   * The destination of a file whose source is the regular file `srcNode`
   * holding `srcBytes`, placed with link type `how`: a hard link shares the
   * source's inode unless the destination is refused; a copy is an inode
   * from `base` up holding the same bytes.
   */
  ghost predicate Placed(tree: map<string, Node>, data: map<nat, Bytes>, refused: set<string>, dst: string,
                         srcNode: Node, srcBytes: Bytes, how: LinkType, base: nat)
  {
    match how
    case LinkHard => if dst in refused then dst !in tree else dst in tree && tree[dst] == srcNode
    case LinkCopy =>
      && dst in tree && tree[dst].Regular? && base <= tree[dst].ino
      && tree[dst].ino in data && data[tree[dst].ino] == srcBytes
    case LinkSoft => false
  }

  /**
   * File `f` of a package, whose source was a regular file in `tree0`, is in
   * place as the link type `Strategy` picks for it dictates.
   */
  ghost predicate PlacedFrom(tree: map<string, Node>, data: map<nat, Bytes>, refused: set<string>,
                             prefix: string, sourceDir: string, f: string, hasPrefix: set<string>,
                             noLink: set<string>, lt: LinkType, tree0: map<string, Node>,
                             data0: map<nat, Bytes>, base: nat)
  {
    var src := Join(sourceDir, f);
    (src in tree0 && tree0[src].Regular? && tree0[src].ino in data0) ==>
      Placed(tree, data, refused, Join(prefix, f), tree0[src], data0[tree0[src].ino],
             Strategy(f in hasPrefix, f in noLink, false, lt), base)
  }

  /** Every inode of `d0` is still there, holding the same bytes, in `d1`. */
  ghost predicate DataKept(d0: map<nat, Bytes>, d1: map<nat, Bytes>) {
    forall j :: j in d0 ==> j in d1 && d1[j] == d0[j]
  }

  /** `t2` differs from `t1` at most at `dst`. */
  ghost predicate TreeKeptBut(t1: map<string, Node>, t2: map<string, Node>, dst: string) {
    forall p :: p != dst ==> (p in t2 <==> p in t1) && (p in t2 ==> t2[p] == t1[p])
  }

  /**
   * What the placement loop of `link` has achieved after its first `i` files,
   * starting from `tree0` and `data0` with fresh inodes from `base` up.
   */
  ghost predicate PlacedSoFar(tree: map<string, Node>, data: map<nat, Bytes>, refused: set<string>, force: bool,
                              prefix: string, sourceDir: string, files: seq<string>, hasPrefix: set<string>,
                              noLink: set<string>, lt: LinkType, tree0: map<string, Node>, data0: map<nat, Bytes>,
                              base: nat, i: nat)
    requires i <= |files|
  {
    && DataKept(data0, data)
    && (forall p :: p in tree0 && (forall k :: 0 <= k < i ==> Join(prefix, files[k]) != p) ==>
          p in tree && tree[p] == tree0[p])
    && (!force ==> tree0.Keys <= tree.Keys)
    && (!force ==> forall k :: 0 <= k < i ==> Join(prefix, files[k]) !in tree0)
    && (AllRelative(files) ==>
          forall k :: 0 <= k < i && files[k] in hasPrefix ==> Fresh(tree, Join(prefix, files[k]), base))
    && (AllRelative(files) && SourcesApart(prefix, sourceDir, files) ==>
          forall k :: 0 <= k < i ==>
            PlacedFrom(tree, data, refused, prefix, sourceDir, files[k], hasPrefix, noLink, lt, tree0, data0, base))
  }

  /** One successful turn of the placement loop, on file `i`, extends what it has achieved. */
  lemma PlaceStep(t2: map<string, Node>, d2: map<nat, Bytes>, refused: set<string>, force: bool,
                  prefix: string, sourceDir: string, files: seq<string>, hasPrefix: set<string>,
                  noLink: set<string>, lt: LinkType, tree0: map<string, Node>, data0: map<nat, Bytes>, base: nat,
                  i: nat, t1: map<string, Node>, d1: map<nat, Bytes>, base1: nat)
    requires i < |files| && base <= base1
    requires forall p :: p in t1 && t1[p].Regular? ==> t1[p].ino in d1
    requires PlacedSoFar(t1, d1, refused, force, prefix, sourceDir, files, hasPrefix, noLink, lt, tree0, data0, base, i)
    requires DataKept(d1, d2) && TreeKeptBut(t1, t2, Join(prefix, files[i]))
    requires !force ==> Join(prefix, files[i]) !in t1
    requires files[i] in hasPrefix ==> Fresh(t2, Join(prefix, files[i]), base1)
    requires var src := Join(sourceDir, files[i]);
      (src != Join(prefix, files[i]) && src in t1 && t1[src].Regular?) ==>
      Placed(t2, d2, refused, Join(prefix, files[i]), t1[src], d1[t1[src].ino],
             Strategy(files[i] in hasPrefix, files[i] in noLink, false, lt), base1)
    ensures PlacedSoFar(t2, d2, refused, force, prefix, sourceDir, files, hasPrefix, noLink, lt, tree0, data0, base, i + 1)
  {
    var dst := Join(prefix, files[i]);
    forall p | p in tree0 && (forall k :: 0 <= k < i + 1 ==> Join(prefix, files[k]) != p)
      ensures p in t2 && t2[p] == tree0[p]
    {
      assert p != dst;
    }
    if !force {
      assert dst !in tree0;
      assert tree0.Keys <= t2.Keys;
    }
    if AllRelative(files) {
      FreshKept(files, i, prefix, hasPrefix, base, base1, t1, t2);
      if SourcesApart(prefix, sourceDir, files) {
        PlacedKept(files, i, prefix, sourceDir, hasPrefix, noLink, lt, refused, tree0, data0, base,
                   t1, d1, base1, t2, d2);
      }
    }
  }

  /** Placing file `i` keeps every earlier has_prefix destination fresh. */
  lemma FreshKept(files: seq<string>, i: nat, prefix: string, hasPrefix: set<string>, base: nat, base1: nat,
                  t1: map<string, Node>, t2: map<string, Node>)
    requires i < |files| && AllRelative(files) && base <= base1
    requires TreeKeptBut(t1, t2, Join(prefix, files[i]))
    requires files[i] in hasPrefix ==> Fresh(t2, Join(prefix, files[i]), base1)
    requires forall k :: 0 <= k < i && files[k] in hasPrefix ==> Fresh(t1, Join(prefix, files[k]), base)
    ensures forall k :: 0 <= k < i + 1 && files[k] in hasPrefix ==> Fresh(t2, Join(prefix, files[k]), base)
  {
    forall k | 0 <= k < i + 1 && files[k] in hasPrefix
      ensures Fresh(t2, Join(prefix, files[k]), base)
    {
      if Join(prefix, files[k]) == Join(prefix, files[i]) {
        JoinRelative(prefix, files[k], files[i]);
      }
    }
  }

  /** Placing file `i` leaves every earlier file in place and places file `i`. */
  lemma PlacedKept(files: seq<string>, i: nat, prefix: string, sourceDir: string, hasPrefix: set<string>,
                   noLink: set<string>, lt: LinkType, refused: set<string>,
                   tree0: map<string, Node>, data0: map<nat, Bytes>, base: nat,
                   t1: map<string, Node>, d1: map<nat, Bytes>, base1: nat,
                   t2: map<string, Node>, d2: map<nat, Bytes>)
    requires i < |files| && AllRelative(files) && SourcesApart(prefix, sourceDir, files) && base <= base1
    requires forall p :: p in t1 && t1[p].Regular? ==> t1[p].ino in d1
    requires DataKept(data0, d1) && DataKept(d1, d2)
    requires forall p :: p in tree0 && (forall k :: 0 <= k < i ==> Join(prefix, files[k]) != p) ==>
      p in t1 && t1[p] == tree0[p]
    requires TreeKeptBut(t1, t2, Join(prefix, files[i]))
    requires var src := Join(sourceDir, files[i]);
      (src != Join(prefix, files[i]) && src in t1 && t1[src].Regular?) ==>
      Placed(t2, d2, refused, Join(prefix, files[i]), t1[src], d1[t1[src].ino],
             Strategy(files[i] in hasPrefix, files[i] in noLink, false, lt), base1)
    requires forall k :: 0 <= k < i ==>
      PlacedFrom(t1, d1, refused, prefix, sourceDir, files[k], hasPrefix, noLink, lt, tree0, data0, base)
    ensures forall k :: 0 <= k < i + 1 ==>
      PlacedFrom(t2, d2, refused, prefix, sourceDir, files[k], hasPrefix, noLink, lt, tree0, data0, base)
  {
    var src := Join(sourceDir, files[i]);
    var dsti := Join(prefix, files[i]);
    var how := Strategy(files[i] in hasPrefix, files[i] in noLink, false, lt);
    if src in tree0 && tree0[src].Regular? && tree0[src].ino in data0 {
      assert forall k :: 0 <= k < i ==> Join(prefix, files[k]) != src;
      assert src in t1 && t1[src] == tree0[src];
      assert src != dsti;
      PlacedBase(t2, d2, refused, dsti, tree0[src], data0[tree0[src].ino], how, base, base1);
    }
    forall k | 0 <= k < i + 1
      ensures PlacedFrom(t2, d2, refused, prefix, sourceDir, files[k], hasPrefix, noLink, lt, tree0, data0, base)
    {
      var dst := Join(prefix, files[k]);
      if dst == dsti {
        JoinRelative(prefix, files[k], files[i]);
      } else {
        var srck := Join(sourceDir, files[k]);
        if srck in tree0 && tree0[srck].Regular? && tree0[srck].ino in data0 {
          PlacedStable(t1, d1, t2, d2, refused, dst, tree0[srck], data0[tree0[srck].ino],
                       Strategy(files[k] in hasPrefix, files[k] in noLink, false, lt), base);
        }
      }
    }
  }

  /** A placement from inode `base1` up is one from any lower `base`. */
  lemma PlacedBase(tree: map<string, Node>, data: map<nat, Bytes>, refused: set<string>, dst: string,
                   srcNode: Node, srcBytes: Bytes, how: LinkType, base: nat, base1: nat)
    requires base <= base1 && Placed(tree, data, refused, dst, srcNode, srcBytes, how, base1)
    ensures Placed(tree, data, refused, dst, srcNode, srcBytes, how, base)
  {
  }

  /** A placement survives changes elsewhere in the tree and new inodes. */
  lemma PlacedStable(t1: map<string, Node>, d1: map<nat, Bytes>, t2: map<string, Node>, d2: map<nat, Bytes>,
                     refused: set<string>, dst: string, srcNode: Node, srcBytes: Bytes, how: LinkType, base: nat)
    requires (dst in t1 <==> dst in t2) && (dst in t2 ==> t2[dst] == t1[dst])
    requires dst in t1 && t1[dst].Regular? ==> t1[dst].ino in d1
    requires DataKept(d1, d2)
    requires Placed(t1, d1, refused, dst, srcNode, srcBytes, how, base)
    ensures Placed(t2, d2, refused, dst, srcNode, srcBytes, how, base)
  {
  }

  /**
   * A number above every inode number in use. The source has no such step: it
   * only lets the constructor hand out fresh inode numbers.
   */
  method NextFree(s: set<nat>) returns (n: nat)
    ensures forall i :: i in s ==> i < n
  {
    n := 0;
    var todo := s;
    ghost var seen: set<nat> := {};
    while todo != {}
      invariant todo <= s && seen == s - todo
      invariant forall i :: i in seen ==> i < n
      decreases todo
    {
      var x :| x in todo;
      if n <= x {
        n := x + 1;
      }
      todo := todo - {x};
      seen := seen + {x};
    }
    assert seen == s;
  }
}
