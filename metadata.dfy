/**
 * The conda metadata the linker writes to `<prefix>/conda-meta/<dist>.json`,
 * and `linked()`, which reads the set of installed ids back from that
 * directory's listing.
 */
module Metadata {
  import opened Wrappers
  import opened Strings

  /** A JSON value as `json.load` / `json.dump` see it; numbers are integers (`build_number`, `size`). */
  datatype Json = JNull | JBool(b: bool) | JNum(n: int) | JStr(s: string) | JList(items: seq<Json>) | JObj(fields: map<string, Json>)

  /** A metadata record: a JSON object. */
  type Meta = map<string, Json>

  /** `LINK_HARD`, `LINK_SOFT` and `LINK_COPY` (1, 2 and 3). */
  datatype LinkType = LinkHard | LinkSoft | LinkCopy

  /** `link_name_map`: the name each link type is recorded under. */
  function LinkName(t: LinkType): (name: string)
    ensures name in {"hard-link", "soft-link", "copy"}
  {
    match t
    case LinkHard => "hard-link"
    case LinkSoft => "soft-link"
    case LinkCopy => "copy"
  }

  /** Different link types are recorded under different names. */
  lemma LinkNameInjective(t1: LinkType, t2: LinkType)
    requires LinkName(t1) == LinkName(t2)
    ensures t1 == t2
  {
    assert "copy" != "hard-link" && "copy" != "soft-link" && "hard-link" != "soft-link";
  }

  const InstalledBy: string := "Anaconda2-4.2.0-Linux-x86_64"

  /** The `link` entry: where the files came from and how, or null when the package was extracted in place. */
  function LinkEntry(sourceDir: string, linkType: Option<LinkType>): (j: Json)
    ensures linkType.None? <==> j == JNull
    ensures linkType.Some? ==>
      && j.JObj? && j.fields.Keys == {"source", "type"}
      && j.fields["source"] == JStr(sourceDir) && j.fields["type"] == JStr(LinkName(linkType.value))
  {
    match linkType
    case None => JNull
    case Some(t) => JObj(map["source" := JStr(sourceDir), "type" := JStr(LinkName(t))])
  }

  function FileList(files: seq<string>): (j: Json)
    ensures j.JList? && |j.items| == |files|
    ensures forall k :: 0 <= k < |files| ==> j.items[k] == JStr(files[k])
  {
    JList(seq(|files|, k requires 0 <= k < |files| => JStr(files[k])))
  }

  /**
   * The extra information `link` adds: the file list and link entry, then the
   * origin (url and md5) laid over them, then `installed_by` over everything.
   */
  function ExtraInfo(files: seq<string>, link: Json, origin: Meta): Meta {
    (map["files" := FileList(files), "link" := link] + origin)["installed_by" := JStr(InstalledBy)]
  }

  /** `create_meta`: the package's `index.json` record updated with the extra information. */
  function CreateMeta(index: Meta, extra: Meta): Meta {
    index + extra
  }

  /**
   * The record `link` writes for a package: `installed_by` always; every
   * origin key other than `installed_by`; the file list and link entry unless
   * the origin overrides them; and every other key of `index.json`.
   */
  function PackageMeta(index: Meta, files: seq<string>, link: Json, origin: Meta): (m: Meta)
    ensures m.Keys == index.Keys + origin.Keys + {"files", "link", "installed_by"}
    ensures m["installed_by"] == JStr(InstalledBy)
    ensures forall k :: k in origin && k != "installed_by" ==> m[k] == origin[k]
    ensures "files" !in origin ==> m["files"] == FileList(files)
    ensures "link" !in origin ==> m["link"] == link
    ensures forall k :: k in index && k !in origin && k !in {"files", "link", "installed_by"} ==> m[k] == index[k]
  {
    CreateMeta(index, ExtraInfo(files, link, origin))
  }

  // ---------------------------------------------------------------------------
  // linked(prefix)

  /**
   * `linked`: the ids whose `<id>.json` is listed in `conda-meta`; `None`
   * stands for a prefix without a `conda-meta` directory.
   */
  function Linked(metaDir: Option<set<string>>): set<string> {
    match metaDir
    case None => {}
    case Some(names) => set fn | fn in names && EndsWith(fn, ".json") :: fn[..|fn| - 5]
  }

  /** An id is linked exactly when its metadata file is listed. */
  lemma LinkedIff(names: set<string>, d: string)
    ensures d in Linked(Some(names)) <==> d + ".json" in names
  {
    var fn := d + ".json";
    assert fn[..|fn| - 5] == d;
    assert EndsWith(fn, ".json") by {
      assert fn[|fn| - 5..] == ".json";
    }
    if d in Linked(Some(names)) {
      var g :| g in names && EndsWith(g, ".json") && g[..|g| - 5] == d;
      assert g == g[..|g| - 5] + g[|g| - 5..];
    }
  }

  /** Writing `<d>.json` links `d` and nothing else. */
  lemma LinkedAdd(names: set<string>, d: string)
    ensures Linked(Some(names + {d + ".json"})) == Linked(Some(names)) + {d}
  {
    forall x
      ensures x in Linked(Some(names + {d + ".json"})) <==> x in Linked(Some(names)) + {d}
    {
      LinkedIff(names + {d + ".json"}, x);
      LinkedIff(names, x);
      if x + ".json" == d + ".json" {
        assert x == (x + ".json")[..|x|];
      }
    }
  }

  /**
   * Removing `<d>.json`, and adding only names that do not end in `.json`
   * (a `.bak` copy), unlinks `d` and nothing else.
   */
  lemma LinkedRemove(names: set<string>, d: string, extra: set<string>)
    requires forall n :: n in extra ==> !EndsWith(n, ".json")
    ensures Linked(Some(names - {d + ".json"} + extra)) == Linked(Some(names)) - {d}
  {
    forall x
      ensures x in Linked(Some(names - {d + ".json"} + extra)) <==> x in Linked(Some(names)) - {d}
    {
      LinkedIff(names - {d + ".json"} + extra, x);
      LinkedIff(names, x);
      var fn := x + ".json";
      assert fn[|fn| - 5..] == ".json";
      if fn == d + ".json" {
        assert x == fn[..|x|];
      }
    }
  }

  /** The index fields an id is formatted from are present and hold strings. */
  predicate HasIdFields(meta: Meta) {
    && "name" in meta && meta["name"].JStr?
    && "version" in meta && meta["version"].JStr?
    && "build" in meta && meta["build"].JStr?
  }

  /** `'%(name)s-%(version)s-%(build)s' % meta`: the id a package's index describes. */
  function DistOf(meta: Meta): (r: Option<string>)
    ensures r.Some? <==> HasIdFields(meta)
    ensures r.Some? ==> StartsWith(r.value, meta["name"].s + "-")
  {
    if HasIdFields(meta) then
      var id := meta["name"].s + "-" + meta["version"].s + "-" + meta["build"].s;
      assert id[..|meta["name"].s| + 1] == meta["name"].s + "-";
      Some(id)
    else None
  }
}
