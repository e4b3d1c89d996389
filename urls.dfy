/**
 * Where a package was downloaded from: the `url_pat` pattern and
 * `read_urls`, which looks a package's archive up in the `urls` history of
 * the package cache.
 */
module Urls {
  import opened Wrappers
  import opened Strings
  import opened Metadata

  /** The groups of a `url_pat` match. */
  datatype UrlParts = UrlParts(baseurl: string, fn: string, md5: Option<string>)

  predicate IsLowerHex(c: char) {
    ('0' <= c <= '9') || ('a' <= c <= 'f')
  }

  predicate IsMd5(s: string) {
    |s| == 32 && forall c :: c in s ==> IsLowerHex(c)
  }

  /** A token of the history: `str.split()` never yields whitespace. */
  predicate IsToken(s: string) {
    forall c :: c in s ==> !IsSpace(c)
  }

  /**
   * `url_pat.match(token)`: the base URL runs to the last slash and has at
   * least one character before it; the file name follows up to an optional
   * `#`, after which exactly 32 lowercase hex digits must end the token.
   */
  function UrlMatch(token: string): Option<UrlParts>
    requires IsToken(token)
  {
    match LastIndexOf(token, '/')
    case None => None
    case Some(k) =>
      if k == 0 then None
      else
        var rest := token[k + 1..];
        match IndexOf(rest, '#')
        case None => if rest == [] then None else Some(UrlParts(token[..k + 1], rest, None))
        case Some(p) =>
          if p > 0 && IsMd5(rest[p + 1..]) then Some(UrlParts(token[..k + 1], rest[..p], Some(rest[p + 1..])))
          else None
  }

  /** The parts a well-formed history token is made of. */
  predicate WellFormed(u: UrlParts) {
    && |u.baseurl| >= 2 && u.baseurl[|u.baseurl| - 1] == '/' && IsToken(u.baseurl)
    && u.fn != [] && '/' !in u.fn && '#' !in u.fn && IsToken(u.fn)
    && (u.md5.Some? ==> IsMd5(u.md5.value))
  }

  /** What follows the file name in a token: nothing, or `#` and the MD5. */
  function Md5Suffix(md5: Option<string>): string {
    match md5
    case None => ""
    case Some(m) => "#" + m
  }

  /** The history token for `u`: base URL, file name and, if known, `#` and the MD5. */
  function Render(u: UrlParts): string {
    u.baseurl + u.fn + Md5Suffix(u.md5)
  }

  lemma Md5SuffixChars(md5: Option<string>)
    requires md5.Some? ==> IsMd5(md5.value)
    ensures IsToken(Md5Suffix(md5)) && '/' !in Md5Suffix(md5)
  {
    if md5.Some? {
      var m := md5.value;
      assert Md5Suffix(md5) == ['#'] + m;
      forall c | c in m
        ensures c != '/' && !IsSpace(c)
      {
        assert IsLowerHex(c);
      }
    }
  }

  lemma TokenConcat(a: string, b: string)
    requires IsToken(a) && IsToken(b)
    ensures IsToken(a + b)
  {
    forall c | c in a + b
      ensures !IsSpace(c)
    {
      if c !in a {
        assert c in b;
      }
    }
  }

  lemma LastSlashAt(a: string, b: string)
    requires a != [] && a[|a| - 1] == '/' && '/' !in b
    ensures LastIndexOf(a + b, '/') == Some(|a| - 1)
  {
    var t := a + b;
    assert t[|a| - 1] == '/';
    assert t[|a|..] == b;
  }

  lemma FirstHashAt(f: string, m: string)
    requires '#' !in f
    ensures IndexOf(f + "#" + m, '#') == Some(|f|)
  {
    var t := f + "#" + m;
    assert t[|f|] == '#';
    assert t[..|f|] == f;
  }

  /** Matching reads back exactly the parts a well-formed token was written from. */
  lemma UrlMatchRender(u: UrlParts)
    requires WellFormed(u)
    ensures IsToken(Render(u)) && UrlMatch(Render(u)) == Some(u)
  {
    var tail := Md5Suffix(u.md5);
    var rest := u.fn + tail;
    var t := Render(u);
    var k := |u.baseurl| - 1;
    Md5SuffixChars(u.md5);
    TokenConcat(u.fn, tail);
    TokenConcat(u.baseurl, rest);
    assert t == u.baseurl + rest;
    LastSlashAt(u.baseurl, rest);
    assert t[k + 1..] == rest;
    assert t[..k + 1] == u.baseurl;
    if u.md5.None? {
      assert rest == u.fn;
      assert IndexOf(rest, '#') == None;
    } else {
      var m := u.md5.value;
      assert rest == u.fn + "#" + m;
      FirstHashAt(u.fn, m);
      assert rest[..|u.fn|] == u.fn;
      assert rest[|u.fn| + 1..] == m;
    }
  }

  /** Whatever matches is well formed and is written back as the token it came from. */
  lemma UrlMatchSound(token: string)
    requires IsToken(token) && UrlMatch(token).Some?
    ensures WellFormed(UrlMatch(token).value) && Render(UrlMatch(token).value) == token
  {
    var u := UrlMatch(token).value;
    var k := LastIndexOf(token, '/').value;
    var rest := token[k + 1..];
    assert token == token[..k + 1] + rest;
    match IndexOf(rest, '#')
    case None =>
      assert Render(u) == token[..k + 1] + rest + "";
    case Some(p) =>
      assert rest == rest[..p] + ("#" + rest[p + 1..]);
      assert '#' !in rest[..p];
  }

  // ---------------------------------------------------------------------------
  // read_urls

  /** The archive name a package id is recorded under in the history. */
  function Archive(dist: string): string {
    dist + ".tar.bz2"
  }

  /** `token` is a history entry for the archive of `dist`. */
  predicate IsEntryFor(token: string, dist: string)
    requires IsToken(token)
  {
    UrlMatch(token).Some? && UrlMatch(token).value.fn == Archive(dist)
  }

  /** The last position holding `true`, searching from the end. */
  function LastTrue(flags: seq<bool>): (r: Option<nat>)
    ensures r.Some? ==> r.value < |flags| && flags[r.value] && forall j :: r.value < j < |flags| ==> !flags[j]
    ensures r.None? ==> forall j :: 0 <= j < |flags| ==> !flags[j]
  {
    if flags == [] then None
    else if flags[|flags| - 1] then Some(|flags| - 1)
    else LastTrue(flags[..|flags| - 1])
  }

  /** The last entry for `dist` among `tokens`, searching from the end as `read_urls` does. */
  function LastEntry(tokens: seq<string>, dist: string): (r: Option<nat>)
    requires forall k :: 0 <= k < |tokens| ==> IsToken(tokens[k])
    ensures r.Some? ==>
      && r.value < |tokens| && IsEntryFor(tokens[r.value], dist)
      && forall j :: r.value < j < |tokens| ==> !IsEntryFor(tokens[j], dist)
    ensures r.None? ==> forall j :: 0 <= j < |tokens| ==> !IsEntryFor(tokens[j], dist)
  {
    LastTrue(EntryFlags(tokens, dist))
  }

  /** Which tokens are entries for `dist`. */
  function EntryFlags(tokens: seq<string>, dist: string): (flags: seq<bool>)
    requires forall k :: 0 <= k < |tokens| ==> IsToken(tokens[k])
    ensures |flags| == |tokens| && forall k :: 0 <= k < |tokens| ==> flags[k] == IsEntryFor(tokens[k], dist)
  {
    seq(|tokens|, k requires 0 <= k < |tokens| => IsEntryFor(tokens[k], dist))
  }

  /** The origin record built from a matching entry: its URL and its MD5, null when absent. */
  function OriginOf(u: UrlParts): Meta {
    map["url" := JStr(u.baseurl + u.fn), "md5" := match u.md5 case None => JNull case Some(m) => JStr(m)]
  }

  function Tokens(urls: string): (r: seq<string>)
    ensures forall k :: 0 <= k < |r| ==> IsToken(r[k])
  {
    var r := SplitWhitespace(urls);
    assert forall k :: 0 <= k < |r| ==> IsToken(r[k]);
    r
  }

  /** What `read_urls` returns for a history with text `urls`, or for no readable history. */
  function UrlsOrigin(urls: Option<string>, dist: string): Meta {
    match urls
    case None => map[]
    case Some(text) =>
      var tokens := Tokens(text);
      match LastEntry(tokens, dist)
      case None => map[]
      case Some(i) => OriginOf(UrlMatch(tokens[i]).value)
  }

  /**
   * The origin comes from the last history token that names the package's
   * archive; without one (or without a history) it is empty.
   */
  lemma UrlsOriginLastEntry(text: string, dist: string)
    ensures var tokens := Tokens(text);
      && (UrlsOrigin(Some(text), dist) == map[] <==> forall j :: 0 <= j < |tokens| ==> !IsEntryFor(tokens[j], dist))
      && forall i :: (0 <= i < |tokens| && IsEntryFor(tokens[i], dist) &&
           forall j :: i < j < |tokens| ==> !IsEntryFor(tokens[j], dist)) ==>
           UrlsOrigin(Some(text), dist) == OriginOf(UrlMatch(tokens[i]).value)
  {
    var tokens := Tokens(text);
    var last := LastEntry(tokens, dist);
    if last.Some? {
      assert "url" in OriginOf(UrlMatch(tokens[last.value]).value);
    }
    forall i | 0 <= i < |tokens| && IsEntryFor(tokens[i], dist) &&
                 (forall j :: i < j < |tokens| ==> !IsEntryFor(tokens[j], dist))
      ensures UrlsOrigin(Some(text), dist) == OriginOf(UrlMatch(tokens[i]).value)
    {
      LastEntryUnique(tokens, dist, i);
    }
  }

  /** Only one position holds an entry with none after it: the one `LastEntry` finds. */
  lemma LastEntryUnique(tokens: seq<string>, dist: string, i: nat)
    requires forall k :: 0 <= k < |tokens| ==> IsToken(tokens[k])
    requires i < |tokens| && IsEntryFor(tokens[i], dist)
    requires forall j :: i < j < |tokens| ==> !IsEntryFor(tokens[j], dist)
    ensures LastEntry(tokens, dist) == Some(i)
  {
    var last := LastEntry(tokens, dist);
    assert last.Some?;
    assert last.value >= i;
    assert last.value <= i;
  }

  /** `read_urls`: scans the history tokens from the last one backwards and stops at the first entry for `dist`. */
  method ReadUrls(urls: Option<string>, dist: string) returns (res: Meta)
    ensures res == UrlsOrigin(urls, dist)
  {
    if urls.None? {
      return map[];
    }
    var tokens := Tokens(urls.value);
    var i := |tokens|;
    while i > 0
      invariant 0 <= i <= |tokens|
      invariant forall j :: i <= j < |tokens| ==> !IsEntryFor(tokens[j], dist)
    {
      i := i - 1;
      var m := UrlMatch(tokens[i]);
      if m.None? {
        continue;
      }
      if m.value.fn == Archive(dist) {
        LastEntryUnique(tokens, dist, i);
        return OriginOf(m.value);
      }
    }
    LastEntryIsNone(tokens, dist);
    return map[];
  }

  lemma LastEntryIsNone(tokens: seq<string>, dist: string)
    requires forall k :: 0 <= k < |tokens| ==> IsToken(tokens[k])
    requires forall j :: 0 <= j < |tokens| ==> !IsEntryFor(tokens[j], dist)
    ensures LastEntry(tokens, dist) == None
  {
  }
}
