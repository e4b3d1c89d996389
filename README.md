# conda's standalone installer linker, in Dafny

This project models the linker that the Anaconda installer runs after it
unpacks its packages (`pkgs/.install.py`). The linker works in two modes.

- In `link_idists` mode, it places each package's files from the package
  cache (`<root>/pkgs/<dist>`) into every environment prefix. It uses hard
  links when a probe shows they work; otherwise it copies. Files listed in
  `has_prefix` or `no_link`, and symbolic links, are always copied.
- In `post_extract` mode, it finishes a package that was already extracted
  into its prefix.

In both modes it then does the same three things:

1. It rewrites the build-time prefix placeholder inside files, as text or
   as a NUL-padded binary replacement that keeps the file's length.
2. It runs the package's post-link script.
3. It writes the package's record to `<prefix>/conda-meta/<dist>.json`.

When several builds of one package end up linked, the linker unlinks all
but one of them.

Modules, one per component of the linker:

| file | module | models |
|---|---|---|
| wrappers.dfy | `Wrappers` | `Option`, `Result`, `Outcome` |
| strings.dfy | `Strings` | Python 2 byte strings: `strip`, `split`, `splitlines`, `find`, `sorted` order, the ASCII check of `str.encode` |
| paths.dfy | `Paths` | `posixpath.join`, `posixpath.dirname`, `prefix_env` |
| placeholder.dfy | `Placeholder` | `bytes.replace`, `binary_replace`, `PaddingError`, the data part of `update_prefix` |
| dists.dfy | `Dists` | `name_dist`, `duplicates_to_remove` |
| info_files.dfy | `InfoFiles` | `yield_lines`, `shlex.split(posix=False)`, `read_has_prefix`, `read_no_link` |
| metadata.dfy | `Metadata` | `link_name_map`, the record `link` assembles and `create_meta` merges, `linked` |
| urls.dfy | `Urls` | `url_pat` and `read_urls` |
| linker.dfy | `Linker` | `_link`, `update_prefix`, `link`, `link_idists`, `post_extract`, as class `Installer` over a file tree |

`Linker.Installer` holds the state that `link` and `link_idists` change:

- `tree` maps each path to a regular file (an inode number) or to a
  symbolic link (its target). `data` maps each inode to its bytes.
  Because inodes are separate from paths, a hard link shares its source's
  bytes. Rewriting a file that has several names is seen through all of
  them.
- `metaDirs` holds each prefix's conda-meta listing.
- The configuration is fixed for a run: `ROOT_PREFIX`, `FORCE`,
  `SKIP_SCRIPTS` and the `IDISTS` table.
- So are the operating system's answers: which destinations refuse a new
  entry, which post-link scripts fail, which records cannot be renamed, and
  what `json.load` makes of an `index.json`.

Every error that stops the Python program (an uncaught exception, a failed
`assert` or `sys.exit`) is a `Fail` outcome. The `OSError`s that `link`
catches around `_link` are a skipped file.

Where a comment or docstring in the source promises more than its code
does, the model follows the code:

- The docstring of `duplicates_to_remove` promises that only one
  distribution of each name remains. The code never removes an id of
  `keep_dists`, so this holds only when the environment's own list names at
  most one build of each package (`Dists.ProtectedBuildsAllStay` shows two
  listed builds both staying). `Dists.OneBuildPerName`, `Linker.EnvResolved`
  and `Linker.Installer.LinkIdists` state the conditional form.
- `sys.exit("Invalid mode:" % mode)` raises `TypeError` rather than exiting
  with a message. It still stops the linker, so it is the error
  `InvalidMode`.
- In Python 2, `str.encode('utf-8')` decodes the byte string as ASCII first.
  A placeholder or prefix with a byte of 128 or more therefore raises
  `UnicodeDecodeError`, which is the error `NotAscii`.

## Model

| member | source | states |
|---|---|---|
| Strings.EncodeAscii | resources/home/dnanexus/anaconda2/pkgs/.install.py:1213-1217 | `encode('utf-8')` of a Python 2 string succeeds exactly when every character is ASCII, and then gives the same codes byte for byte |
| Strings.EncodeLatin1 | resources/home/dnanexus/anaconda2/pkgs/.install.py:1210-1217 | bytes read from a file and re-encoded come back unchanged when they are ASCII |
| Strings.SplitJoinLines | resources/home/dnanexus/anaconda2/pkgs/.install.py:1122 | iterating a file by lines recovers exactly the lines it was written from |
| Strings.SplitJoinWords | resources/home/dnanexus/anaconda2/pkgs/.install.py:1295 | `split()` recovers exactly the non-blank words a text was written from |
| Strings.StripByFixed | resources/home/dnanexus/anaconda2/pkgs/.install.py:1123 | `strip()` leaves a string that has no leading or trailing whitespace unchanged |
| Strings.LexLessTotal | resources/home/dnanexus/anaconda2/pkgs/.install.py:1417 | Python's string order is total: of two different ids one sorts first |
| Strings.LexLessTransitive | resources/home/dnanexus/anaconda2/pkgs/.install.py:1417 | Python's string order is transitive |
| Strings.SortStrings | resources/home/dnanexus/anaconda2/pkgs/.install.py:1364 | `sorted` of a set returns its elements exactly, in strictly increasing order |
| Strings.SortedAllButLast | resources/home/dnanexus/anaconda2/pkgs/.install.py:1416 | `sorted(g)[:-1]` holds exactly the ids of `g` that have a greater id in `g` |
| Paths.JoinRelative | resources/home/dnanexus/anaconda2/pkgs/.install.py:1346-1347 | `posixpath.join` (`Join`) of a relative file name keeps the directory as a prefix, and different names give different paths |
| Paths.PrefixEnvDistinct | resources/home/dnanexus/anaconda2/pkgs/.install.py:1453-1457 | `prefix_env` (`PrefixEnv`): two differently named environments with relative names never share a prefix |
| Placeholder.ReplaceAllLength | resources/home/dnanexus/anaconda2/pkgs/.install.py:1213-1214 | text replacement (`ReplaceAll`) changes the length by (new − old length) × the number of occurrences (`Count`) |
| Placeholder.ReplaceAllSelf | resources/home/dnanexus/anaconda2/pkgs/.install.py:1213-1214 | replacing the placeholder with itself leaves the data unchanged |
| Placeholder.ReplaceAllAbsent | resources/home/dnanexus/anaconda2/pkgs/.install.py:1213-1214 | data without the placeholder is unchanged by text replacement |
| Placeholder.MatchLength | resources/home/dnanexus/anaconda2/pkgs/.install.py:1197 | a run starts with the placeholder and ends at the first NUL after it; there is none when no NUL follows |
| Placeholder.RewriteRun | resources/home/dnanexus/anaconda2/pkgs/.install.py:1190-1195 | a run is rewritten iff the new prefix is no longer than the placeholder; then its length is kept; otherwise `PaddingError` carries a negative padding |
| Placeholder.BinaryReplace | resources/home/dnanexus/anaconda2/pkgs/.install.py:1184-1200 | a successful binary replacement keeps the data's exact length |
| Placeholder.BinaryReplaceFails | resources/home/dnanexus/anaconda2/pkgs/.install.py:1192-1194 | `PaddingError` is raised iff the new prefix is longer and at least one run matches |
| Placeholder.BinaryReplaceNoRun | resources/home/dnanexus/anaconda2/pkgs/.install.py:1196-1198 | data with no placeholder…NUL run is returned as is |
| Placeholder.BinaryReplaceOutsideRuns | resources/home/dnanexus/anaconda2/pkgs/.install.py:1196-1198 | every byte outside the matched runs is unchanged |
| Placeholder.BinaryReplaceSkipsPrefix | resources/home/dnanexus/anaconda2/pkgs/.install.py:1196-1197 | bytes before the first run are copied and the rest is replaced independently |
| Placeholder.BinaryReplaceFirstRun | resources/home/dnanexus/anaconda2/pkgs/.install.py:1190-1197 | the first matched run is replaced by its rewritten form, and scanning resumes after its NUL |
| Placeholder.BinaryReplaceSelf | resources/home/dnanexus/anaconda2/pkgs/.install.py:1184-1200 | replacing a placeholder with itself returns the data unchanged |
| Placeholder.UpdatePrefixDataOutcome | resources/home/dnanexus/anaconda2/pkgs/.install.py:1212-1222 | the data part of `update_prefix` (`UpdatePrefixData`): an unknown mode fails; text mode always succeeds with the plain replacement; binary mode fails iff the new prefix is longer and a run matches, and otherwise keeps the length; nothing is written when the data are unchanged |
| Placeholder.UpdatePrefixDataSelf | resources/home/dnanexus/anaconda2/pkgs/.install.py:1212-1222 | rewriting with the placeholder itself writes nothing, in both modes |
| Dists.DropLastField | resources/home/dnanexus/anaconda2/pkgs/.install.py:1230 | one `rsplit('-')` step drops exactly the text after the last hyphen, and returns a string without a hyphen unchanged |
| Dists.NameDist | resources/home/dnanexus/anaconda2/pkgs/.install.py:1229-1230 | `name_dist` returns a leading part of the id |
| Dists.NameDistOfId | resources/home/dnanexus/anaconda2/pkgs/.install.py:1229-1230 | `name_dist("<name>-<version>-<build>")` is `<name>`, whatever hyphens the name holds |
| Dists.Evicted | resources/home/dnanexus/anaconda2/pkgs/.install.py:1406-1416 | a group's evictions are members of the group and never protected; a single-build group evicts nothing |
| Dists.ToRemove | resources/home/dnanexus/anaconda2/pkgs/.install.py:1389-1417 | what is removed is linked and never protected |
| Dists.ToRemoveByName | resources/home/dnanexus/anaconda2/pkgs/.install.py:1399-1416 | the removed builds of each name are exactly that name's group's evictions |
| Dists.GroupByName | resources/home/dnanexus/anaconda2/pkgs/.install.py:1398-1401 | the `defaultdict` holds one non-empty group for each name that occurs, with exactly that name's ids |
| Dists.AllButGreatest | resources/home/dnanexus/anaconda2/pkgs/.install.py:1416 | `sorted(dists)[:-1]` holds exactly the ids with a greater id in the group |
| Dists.DuplicatesToRemove | resources/home/dnanexus/anaconda2/pkgs/.install.py:1389-1417 | the result is sorted and holds exactly the ids `ToRemove` names |
| Dists.GreatestExists | resources/home/dnanexus/anaconda2/pkgs/.install.py:1416 | every non-empty group has a greatest id |
| Dists.UnprotectedSurvivor | resources/home/dnanexus/anaconda2/pkgs/.install.py:1414-1416 | an unprotected name with several builds keeps exactly its greatest build |
| Dists.Remaining | resources/home/dnanexus/anaconda2/pkgs/.install.py:1404-1416 | a single build stays; a protected group keeps exactly its protected builds; an unprotected group keeps one |
| Dists.OneBuildPerName | resources/home/dnanexus/anaconda2/pkgs/.install.py:1390-1393 | when the protected ids hold at most one build of a name, at most one build of it remains |
| Dists.KeptBuildsStay | resources/home/dnanexus/anaconda2/pkgs/.install.py:1409-1413 | when nothing protected is removed, two protected builds of one name leave a group of at least two |
| Dists.ToRemoveIdempotent | resources/home/dnanexus/anaconda2/pkgs/.install.py:1389-1417 | resolving again what was left removes nothing |
| Dists.ProtectedBuildsAllStay | resources/home/dnanexus/anaconda2/pkgs/.install.py:1409-1413 | two protected builds of one name both remain |
| InfoFiles.ContentLines | resources/home/dnanexus/anaconda2/pkgs/.install.py:1121-1126 | every line `yield_lines` (`YieldLines`) produces is stripped, non-empty and not a comment |
| InfoFiles.YieldLinesRoundTrip | resources/home/dnanexus/anaconda2/pkgs/.install.py:1121-1126 | a file written from clean lines yields exactly those lines |
| InfoFiles.StripByFixedPoint | resources/home/dnanexus/anaconda2/pkgs/.install.py:1123 | stripping twice is stripping once |
| InfoFiles.ShlexSplit | resources/home/dnanexus/anaconda2/pkgs/.install.py:1146-1147 | every word `shlex.split(posix=False)` returns is non-empty |
| InfoFiles.ShlexSplitPlainWords | resources/home/dnanexus/anaconda2/pkgs/.install.py:1146-1147 | on a line of unquoted words, `shlex.split` gives back exactly those words |
| InfoFiles.PlainWordThen | resources/home/dnanexus/anaconda2/pkgs/.install.py:1146-1147 | a plain word followed by whitespace or the end is split off as one word |
| InfoFiles.UnclosedQuote | resources/home/dnanexus/anaconda2/pkgs/.install.py:1146-1150 | an unclosed quote makes `shlex.split` raise `ValueError` |
| InfoFiles.HasPrefixThreeFields | resources/home/dnanexus/anaconda2/pkgs/.install.py:1145-1148 | `HasPrefixLine` maps the file of an unquoted `placeholder mode file` line to (placeholder, mode) |
| InfoFiles.HasPrefixBareFile | resources/home/dnanexus/anaconda2/pkgs/.install.py:1149-1150 | a line with just a file name maps it to (the default placeholder, text) |
| InfoFiles.TableLastWins | resources/home/dnanexus/anaconda2/pkgs/.install.py:1144-1150 | a file is in the table iff some line names it, and the last such line decides its entry |
| InfoFiles.ReadHasPrefix | resources/home/dnanexus/anaconda2/pkgs/.install.py:1135-1153 | the loop builds exactly the table of the file's lines, and the empty table when the file cannot be opened |
| InfoFiles.HasPrefixLoop | resources/home/dnanexus/anaconda2/pkgs/.install.py:1144-1151 | the loop over the content lines builds the table in which the last line naming a file decides its entry |
| InfoFiles.NoLinkOf | resources/home/dnanexus/anaconda2/pkgs/.install.py:1307-1314 | a name is excluded from linking iff it is a line of `no_link` or of `no_softlink`, whichever can be opened |
| InfoFiles.ReadNoLink | resources/home/dnanexus/anaconda2/pkgs/.install.py:1307-1314 | the loop collects exactly `NoLinkOf` |
| Metadata.LinkName | resources/home/dnanexus/anaconda2/pkgs/.install.py:39-43 | each link type is recorded as `hard-link`, `soft-link` or `copy` |
| Metadata.LinkNameInjective | resources/home/dnanexus/anaconda2/pkgs/.install.py:39-43 | different link types are recorded under different names |
| Metadata.LinkEntry | resources/home/dnanexus/anaconda2/pkgs/.install.py:1377-1379 | the `link` entry is null for an in-place package, and otherwise exactly `{source, type}` |
| Metadata.FileList | resources/home/dnanexus/anaconda2/pkgs/.install.py:1376 | the `files` entry lists the package's files in order |
| Metadata.PackageMeta | resources/home/dnanexus/anaconda2/pkgs/.install.py:1375-1385 | the record `create_meta` (`CreateMeta` of the index and `ExtraInfo`) merges has the index's keys, the origin's keys, `files`, `link` and `installed_by`. The origin overrides `files`, `link` and the index, `installed_by` overrides everything, and the index fills the rest |
| Metadata.LinkedIff | resources/home/dnanexus/anaconda2/pkgs/.install.py:1317-1324 | `linked` (`Linked`): an id is linked iff its `.json` record is in conda-meta |
| Metadata.LinkedAdd | resources/home/dnanexus/anaconda2/pkgs/.install.py:1246 | writing a record links exactly its id in addition |
| Metadata.LinkedRemove | resources/home/dnanexus/anaconda2/pkgs/.install.py:1447-1450 | renaming or removing a record unlinks exactly its id |
| Metadata.DistOf | resources/home/dnanexus/anaconda2/pkgs/.install.py:1471 | in the model, the id can be formatted iff name, version and build are strings, and it starts with `<name>-` |
| Urls.UrlMatchRender | resources/home/dnanexus/anaconda2/pkgs/.install.py:1285-1290 | `url_pat` (`UrlMatch`) parses a well-formed `<baseurl>/<fn>[#md5]` token back into its parts |
| Urls.UrlMatchSound | resources/home/dnanexus/anaconda2/pkgs/.install.py:1285-1290 | every match is well formed and reassembles to the token |
| Urls.LastEntry | resources/home/dnanexus/anaconda2/pkgs/.install.py:1295-1299 | the backwards scan finds the last token whose file name is `<dist>.tar.bz2`, or reports that there is none |
| Urls.UrlsOriginLastEntry | resources/home/dnanexus/anaconda2/pkgs/.install.py:1292-1304 | `read_urls` (`UrlsOrigin`): the origin is empty iff no token names the package's archive; otherwise it comes from the last such token |
| Urls.ReadUrls | resources/home/dnanexus/anaconda2/pkgs/.install.py:1292-1304 | the early-returning loop computes `UrlsOrigin` |
| Urls.LastTrue | resources/home/dnanexus/anaconda2/pkgs/.install.py:1295-1301 | the backwards scan stops at the last position that holds, and finds none only when no position holds |
| Urls.LastEntryUnique | resources/home/dnanexus/anaconda2/pkgs/.install.py:1295-1301 | the entry after which no token names the archive is the one the scan finds |
| Linker.Strategy | resources/home/dnanexus/anaconda2/pkgs/.install.py:1356-1358 | a file is copied iff it is in has_prefix or no_link, its source is a symbolic link, or the package link type is copy; otherwise the package link type is used |
| Linker.Installer.constructor | resources/home/dnanexus/anaconda2/pkgs/.install.py:46-49 | the installer starts with the given configuration and file tree, and no conda-meta records |
| Linker.Installer.Resolve | resources/home/dnanexus/anaconda2/pkgs/.install.py:1209 | `realpath` reaches a regular file's inode, or none for a missing path |
| Linker.Installer.PlaceFile | resources/home/dnanexus/anaconda2/pkgs/.install.py:1089-1102 | the new tree and inode state for each outcome of `_link` (`PlacementOf`); `OSError` is a skip and a failed copy is fatal. A hard link never stops the linker, writes no inode, and gives the destination its source's own node; a copied regular file gets an inode that did not exist before, holding the bytes the source reads as; a copied symbolic link is a relative link like its source |
| Linker.Installer.PlaceOne | resources/home/dnanexus/anaconda2/pkgs/.install.py:1346-1362 | an existing destination is an error without FORCE and is replaced with it; only that path changes; old inodes keep their bytes; a has_prefix file gets a new inode |
| Linker.PlaceStep | resources/home/dnanexus/anaconda2/pkgs/.install.py:1345-1362 | placing one more file keeps everything established for the files before it and adds the facts of the new file |
| Linker.Installer.PlaceFiles | resources/home/dnanexus/anaconda2/pkgs/.install.py:1345-1362 | the placement loop fails when a destination exists without FORCE. It leaves every other path and old inode alone, and places each file by `Strategy` |
| Linker.ResolveIn | resources/home/dnanexus/anaconda2/pkgs/.install.py:1209 | `realpath` of a path to a regular file reaches its inode; a missing path reaches none; whatever is reached is a regular file of the tree |
| Linker.UpdatePrefixIn | resources/home/dnanexus/anaconda2/pkgs/.install.py:1203-1226 | a missing file or a rewrite error leaves every inode as it was; otherwise exactly the reached inode holds the rewritten bytes |
| Linker.RewriteOne | resources/home/dnanexus/anaconda2/pkgs/.install.py:1364-1370 | one step of the rewrite loop: a failure changes nothing; a success rewrites exactly the inode the entry reaches |
| Linker.RewriteAll | resources/home/dnanexus/anaconda2/pkgs/.install.py:1364-1370 | inodes no has_prefix entry reaches keep their bytes; on success every entry reached a file, and, when no two entries share an inode, each holds its rewritten bytes |
| Linker.Installer.UpdatePrefix | resources/home/dnanexus/anaconda2/pkgs/.install.py:1203-1226 | a missing file or a rewrite error stops the linker; otherwise the reached inode holds the rewritten bytes (unchanged when equal) |
| Linker.Installer.RewritePrefixes | resources/home/dnanexus/anaconda2/pkgs/.install.py:1364-1370 | only the inodes of has_prefix entries are written. On success each entry reached a file and holds its rewritten bytes, when no two entries share an inode |
| Linker.Installer.CreateMetaFile | resources/home/dnanexus/anaconda2/pkgs/.install.py:1233-1247 | a missing or non-object index stops the linker; otherwise `<dist>.json` holds the merged record and the id is linked |
| Linker.Installer.InstallFiles | resources/home/dnanexus/anaconda2/pkgs/.install.py:1344-1370 | an in-place package keeps the tree. Without FORCE an existing destination is an error, and a `DstExists` error happens only without FORCE. For relative names whose sources lie apart from the destinations, each file is placed by `Strategy` (`PlacedFrom`). On success every has_prefix file exists, only the inodes they reach are rewritten, and, when no two share an inode, each holds its placed bytes rewritten (`Rewrote`). When every has_prefix entry is a listed relative file and not a symbolic link, no pre-existing inode changes |
| Linker.Installer.ReadOrigin | resources/home/dnanexus/anaconda2/pkgs/.install.py:1381-1384 | the origin (`OriginFor`) is the IDISTS entry when there is one, and otherwise what `read_urls` finds in the cache history |
| Linker.Installer.WritePackageMeta | resources/home/dnanexus/anaconda2/pkgs/.install.py:1375-1386 | a missing or unreadable index stops the linker with conda-meta untouched; otherwise `<dist>.json` holds the record of index, files, link entry, origin and `installed_by` |
| Linker.Installer.RecordPackage | resources/home/dnanexus/anaconda2/pkgs/.install.py:1372-1386 | a failing post-link script (`ScriptSucceeds`) stops the linker; otherwise the record holds index, files, link entry, origin (from IDISTS, else `read_urls`) and `installed_by` |
| Linker.InfoFrom | resources/home/dnanexus/anaconda2/pkgs/.install.py:1334-1342 | what `link` reads exists iff the file list can be opened; it holds the file list's lines and the has_prefix table; the no_link set is empty unless the package comes from the cache, and then holds exactly the lines of `no_link` and `no_softlink` |
| Linker.ReadInfo | resources/home/dnanexus/anaconda2/pkgs/.install.py:1334-1342 | the reads of `link` (the file list, the has_prefix table and, for a cached package only, `read_no_link`) compute `InfoFrom` |
| Linker.Installer.LinkPackage | resources/home/dnanexus/anaconda2/pkgs/.install.py:1344-1386 | the work of `link` once its info files are read: an in-place package keeps the tree; failure leaves conda-meta untouched; FORCE decides existing destinations both ways; placement by `Strategy` and the rewrite facts as for `InstallFiles`; success means the index was readable, the post-link script succeeded (`ScriptSucceeds`), and the record of index, files, link entry, origin (`OriginFor`) and `installed_by` is written |
| Linker.WithRecordLinks | resources/home/dnanexus/anaconda2/pkgs/.install.py:1233-1247 | writing a record links exactly its id in its prefix, stores the record, and leaves the other prefixes alone |
| Linker.Installer.Link | resources/home/dnanexus/anaconda2/pkgs/.install.py:1327-1386 | what `link` reads is `InfoFrom` of its info files, and a missing file list stops it with nothing changed. On failure conda-meta is untouched, and other prefixes never change. FORCE decides existing destinations both ways. An in-place package keeps the tree. For relative names with sources apart from the destinations each file is placed by `Strategy`; when the has_prefix files reach distinct inodes each holds its source's bytes rewritten (`RewrittenFromSource`). On success the script succeeded, the record of index, files, link entry and origin is written, and exactly the id is added to the prefix's linked set. When the has_prefix entries are listed relative files that are not symbolic links, no pre-existing inode changes |
| Linker.PlacedThenRewritten | resources/home/dnanexus/anaconda2/pkgs/.install.py:1344-1370 | placing each file by `Strategy` and then rewriting the has_prefix files leaves each has_prefix file holding its source's bytes rewritten, when no two share an inode |
| Linker.Installer.LinkInPlace | resources/home/dnanexus/anaconda2/pkgs/.install.py:1327-1386 | `link(prefix, dist, None)`, as `post_extract` calls it, leaves the file tree alone; failure leaves conda-meta untouched; success is `LinkedInPlace`: `info` was readable, each has_prefix file holds its old bytes rewritten when no two share an inode and other inodes keep theirs, the post-link script succeeded, and the record with a null `link` entry is written, linking the id |
| Linker.Installer.PostExtract | resources/home/dnanexus/anaconda2/pkgs/.install.py:1460-1473 | a missing or unreadable index stops the linker with nothing changed; any failure leaves the tree and conda-meta as they were. On success the id formatted from the index (`DistOf`) is linked in place as `LinkedInPlace` states, and `info` is gone, with the rest of the tree unchanged |
| Linker.Installer.RemoveTree | resources/home/dnanexus/anaconda2/pkgs/.install.py:1473 | `shutil.rmtree(dir)` removes exactly the paths under `dir` and changes no other path |
| Linker.PostExtractName | resources/home/dnanexus/anaconda2/pkgs/.install.py:1471 | the id `post_extract` formats names the package's own name back through `name_dist` |
| Linker.UnlinkListing | resources/home/dnanexus/anaconda2/pkgs/.install.py:1444-1450 | each listed record is renamed to `.bak` or removed; exactly those ids stop being linked, and the other records are kept |
| Linker.Installer.UnlinkDuplicates | resources/home/dnanexus/anaconda2/pkgs/.install.py:1444-1450 | the unlinking changes only this prefix's conda-meta, and unlinks exactly the listed ids |
| Linker.Installer.LinkInto | resources/home/dnanexus/anaconda2/pkgs/.install.py:1442 | linking one id into a prefix adds exactly that id to the prefix's linked set and leaves other prefixes alone; the records of the ids linked before stay, and the id's own record carries the `link` entry of link type `lt` (`EnvRecordedAt`) |
| Linker.Installer.LinkNext | resources/home/dnanexus/anaconda2/pkgs/.install.py:1440-1442 | one turn of an environment's loop: an id missing from IDISTS stops the linker; otherwise the id is linked, its record carries the `link` entry of `lt`, and the records linked before stay |
| Linker.Installer.LinkAll | resources/home/dnanexus/anaconda2/pkgs/.install.py:1440-1442 | an id missing from IDISTS stops the linker; on success the prefix's linked set grows by exactly the environment's ids, each of their records carries the `link` entry of link type `lt`, and other prefixes are untouched |
| Linker.Installer.ResolveDuplicates | resources/home/dnanexus/anaconda2/pkgs/.install.py:1444-1450 | exactly the ids `duplicates_to_remove` names are unlinked from the prefix, and other prefixes are untouched |
| Linker.Installer.LinkEnv | resources/home/dnanexus/anaconda2/pkgs/.install.py:1436-1450 | an id missing from IDISTS stops the linker. On success the linked set is the old set plus the environment's ids, minus `duplicates_to_remove`; every id of the list stays linked and its record carries the `link` entry of `lt` |
| Linker.EnvResolved | resources/home/dnanexus/anaconda2/pkgs/.install.py:1390-1393 | resolution keeps the protected ids, and leaves one build per name when they hold one |
| Linker.EnvLinkedFrame | resources/home/dnanexus/anaconda2/pkgs/.install.py:1433-1442 | linking into one prefix keeps what was established for another |
| Linker.EnvsLinkedStep | resources/home/dnanexus/anaconda2/pkgs/.install.py:1433-1450 | handling one more environment keeps what was established for the environments before it, since their prefixes differ |
| Linker.Installer.LinkEnvs | resources/home/dnanexus/anaconda2/pkgs/.install.py:1433-1450 | the loop over the sorted environment names: on success every listed id is in IDISTS, and each environment has its ids linked, with records whose `link` entry is that of `lt` |
| Linker.Installer.LinkEnvsNext | resources/home/dnanexus/anaconda2/pkgs/.install.py:1433-1450 | one turn of the environment loop: an environment with no ids is skipped and changes nothing; otherwise, on success, its ids are in IDISTS and linked with records carrying the `link` entry of `lt`, and what held for the environments before it still holds |
| Linker.Installer.ProbeHardLink | resources/home/dnanexus/anaconda2/pkgs/.install.py:1425-1431 | the probe picks hard links iff the link could be made, and leaves the tree without the probe file |
| Linker.Installer.LinkIdists | resources/home/dnanexus/anaconda2/pkgs/.install.py:1420-1450 | a missing `urls` file or an existing probe file stops the linker. `lt` is hard iff the probe link could be made, and it is the link type every record written carries: on success every listed id is in IDISTS, and each environment has its ids linked, with one build per name when its list has one, and each id's record has the `link` entry `{source: <pkgs>/<id>, type: <lt>}` unless IDISTS overrides `link` |
| Linker.Installer.RecordedLinkOf | resources/home/dnanexus/anaconda2/pkgs/.install.py:1377-1384 | the `link` entry of a record written from the package cache with type `lt`: `{source, type}` unless the IDISTS entry has its own `link` key |
| Linker.Installer.EnvRecordedAll | resources/home/dnanexus/anaconda2/pkgs/.install.py:1440-1442 | `EnvRecordedAt` holds iff every id of the list that IDISTS names has its record, and that record's `link` entry is the one of `lt` |
| Linker.Installer.RecordedStep | resources/home/dnanexus/anaconda2/pkgs/.install.py:1442 | writing one more record, and nothing else, keeps the records written before it |
| Linker.Installer.RecordedSurvive | resources/home/dnanexus/anaconda2/pkgs/.install.py:1444-1450 | unlinking duplicates none of the environment's ids is among keeps those ids' records |
| Linker.Installer.EnvsRecordedStep | resources/home/dnanexus/anaconda2/pkgs/.install.py:1433-1450 | linking one more environment keeps the records of the environments before it, since their prefixes differ |

## Left out

- Directories are not modelled: `makedirs`, `isdir` and `listdir` act on the path keys, and conda-meta is a listing of its own per prefix.
- `exists(dst)` is modelled as "the path has an entry". Python's `exists` is false for a dangling symbolic link, and `os.link` then fails, which the linker skips; the model removes such an entry under FORCE and fails without it.
- Linker.Installer.Resolve: `realpath` follows one level of symbolic link; chains of links and `..` are not normalised.
- File modes, `lstat`, `chmod` and the time stamps `copy2` keeps are not modelled.
- `run_script` starts a subprocess; the model only consults whether the script file exists, whether scripts are skipped, and whether the script is one of those that fail.
- `json.load` and `json.dump` are not modelled: an index's bytes are turned into a record by a fixed parameter, and records are stored as values, not as text. JSON numbers are integers; floating-point values are not modelled.
- Linker.UpdatePrefixIn: the write-back `open(path, 'wb')` never fails here; in Python an `IOError` on a file that cannot be written is fatal.
- Linker.Installer.UpdatePrefix: the write-back `open(path, 'wb')` never fails here; in Python an `IOError` on a file that cannot be written is fatal.
- `exp_backoff_fn` and every `on_win` branch are Windows only and are left out; on POSIX `exp_backoff_fn` is a direct call.
- `main`, `main2`, option parsing, the `FORCE` environment variable and the warning `print`s are left out; the configuration is the installer's constructor arguments.
- The literal `IDISTS` and `C_ENVS` tables are left out: IDISTS is a parameter of the installer, and `LinkIdists` takes the environments as a map.
- Urls.UrlMatch: defined for single whitespace-free tokens only, the only strings `read_urls` applies it to.
- Linker.Installer.PlaceOne: the placement facts are stated for regular-file sources lying apart from the destination; a symbolic-link source is described only by `PlaceFile`.
- Linker.Installer.PlaceFiles: placement by `Strategy` is stated for regular-file sources, relative file names and sources apart from the destinations; a symbolic-link source is covered only file by file by `PlaceFile`, and an absolute name in `files` is not covered.
- Linker.Installer.InstallFiles: the placement facts hold for relative file names whose sources lie apart from the destinations, as for `PlaceFiles`.
- Linker.Installer.LinkPackage: the placement facts hold for relative file names whose sources lie apart from the destinations, as for `PlaceFiles`.
- Linker.Installer.Link: the placement facts hold for relative file names whose sources lie apart from the destinations, and the rewritten-from-source facts also need the has_prefix files to reach distinct inodes.
- Linker.RewriteAll: the final bytes are stated when no two has_prefix entries reach the same inode; otherwise the later rewrite works on the earlier result, which is not stated.
- Linker.Installer.RewritePrefixes: the final bytes are stated when no two has_prefix entries reach the same inode; otherwise the later rewrite works on the earlier result, which is not stated.
- Linker.Installer.LinkIdists: the facts about each environment hold when no environment name is an absolute path, which is what keeps prefixes apart.
- Linker.Installer.LinkEnvs: the facts about each environment hold when no environment name is an absolute path, which is what keeps prefixes apart.
- Metadata.DistOf: a `name`, `version` or `build` field that is not a string is an error here; Python formats it with `str()`.
- Linker.Installer.PostExtract: a `name`, `version` or `build` field that is not a string is an error here; Python would format it with `str()`. `shutil.rmtree(info_dir)` always succeeds in the model; in Python an error while removing raises.
- `rm_rf` swallowing its own errors is left out: removing a destination or the probe file always succeeds.
- Python's `assert` statements in `link_idists` are kept as errors (they are not stripped as under `python -O`).
