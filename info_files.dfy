/**
 * Readers for the plain-text files of a package's `info/` directory:
 * `files`, `has_prefix`, `no_link` and `no_softlink`. A file is given as its
 * text, or `None` when opening it raises IOError.
 */
module InfoFiles {
  import opened Wrappers
  import opened Strings

  /** The placeholder a package was built with, unless `has_prefix` names another. */
  const PrefixPlaceholder: string := "/opt/anaconda1anaconda2anaconda3"

  // ---------------------------------------------------------------------------
  // yield_lines

  /** A line `yield_lines` passes on: stripped, not empty, not a comment. */
  predicate IsContentLine(l: string) {
    l != [] && l[0] != '#' && Strip(l) == l
  }

  /** Strips each line and keeps those that are neither empty nor comments. */
  function ContentLines(lines: seq<string>): (r: seq<string>)
    ensures |r| <= |lines|
    ensures forall k :: 0 <= k < |r| ==> IsContentLine(r[k])
  {
    if lines == [] then []
    else
      var l := Strip(lines[0]);
      var rest := ContentLines(lines[1..]);
      if l == [] || l[0] == '#' then rest
      else
        StripByFixedPoint(lines[0]);
        [l] + rest
  }

  lemma StripByFixedPoint(s: string)
    ensures Strip(Strip(s)) == Strip(s)
  {
    var r := Strip(s);
    var l := LStrip(s, IsSpace);
    if r != [] {
      assert r[0] == l[0];
    }
    StripByFixed(r, IsSpace);
  }

  /** `yield_lines`: the content lines of a text file, in file order. */
  function YieldLines(text: string): seq<string> {
    ContentLines(SplitLines(text))
  }

  /** Content lines written one per line are read back exactly. */
  lemma {:induction false} YieldLinesRoundTrip(ls: seq<string>)
    requires forall k :: 0 <= k < |ls| ==> IsContentLine(ls[k]) && '\n' !in ls[k]
    ensures YieldLines(JoinLines(ls + [""])) == ls
  {
    var all := ls + [""];
    forall k | 0 <= k < |all|
      ensures '\n' !in all[k]
    {
      if k < |ls| {
        assert all[k] == ls[k];
      }
    }
    SplitJoinLines(all);
    ContentLinesClean(ls);
  }

  lemma {:induction false} ContentLinesClean(ls: seq<string>)
    requires forall k :: 0 <= k < |ls| ==> IsContentLine(ls[k])
    ensures ContentLines(ls + [""]) == ls
  {
    if ls == [] {
      assert Strip("") == "";
      assert ContentLines([""]) == [] + ContentLines([]);
    } else {
      assert (ls + [""])[1..] == ls[1..] + [""];
      ContentLinesClean(ls[1..]);
    }
  }

  // ---------------------------------------------------------------------------
  // shlex.split(line, posix=False)

  /** shlex's whitespace (vertical tab and form feed are not among it). */
  predicate IsShlexSpace(c: char) {
    c == ' ' || c == '\t' || c == '\r' || c == '\n'
  }

  predicate IsQuote(c: char) {
    c == '"' || c == '\''
  }

  /** Length of the run of characters up to the next shlex whitespace. */
  function WordRun(s: string): (n: nat)
    ensures n <= |s|
    ensures forall k :: 0 <= k < n ==> !IsShlexSpace(s[k])
    ensures n < |s| ==> IsShlexSpace(s[n])
  {
    if s == [] || IsShlexSpace(s[0]) then 0 else 1 + WordRun(s[1..])
  }

  /**
   * The tokens of `shlex.split(s, posix=False)`, or `None` for the ValueError
   * of an unclosed quotation. A token that starts with a quote runs to the
   * matching quote, both included, and ends there; any other token runs to
   * the next whitespace, quotes inside it being ordinary characters.
   */
  function ShlexSplit(s: string): (r: Option<seq<string>>)
    ensures r.Some? ==> forall k :: 0 <= k < |r.value| ==> r.value[k] != []
    decreases |s|
  {
    if s == [] then Some([])
    else if IsShlexSpace(s[0]) then ShlexSplit(s[1..])
    else if IsQuote(s[0]) then
      match IndexOf(s[1..], s[0])
      case None => None
      case Some(j) =>
        match ShlexSplit(s[j + 2..])
        case None => None
        case Some(rest) => Some([s[..j + 2]] + rest)
    else
      var n := WordRun(s);
      match ShlexSplit(s[n..])
      case None => None
      case Some(rest) => Some([s[..n]] + rest)
  }

  /** A token that shlex reads as a plain word: no whitespace, not opening with a quote. */
  predicate IsPlainWord(w: string) {
    w != [] && !IsQuote(w[0]) && forall c :: c in w ==> !IsShlexSpace(c)
  }

  /** A single-space separated line of plain words splits back into those words. */
  lemma {:induction false} ShlexSplitPlainWords(ws: seq<string>)
    requires forall k :: 0 <= k < |ws| ==> IsPlainWord(ws[k])
    ensures ShlexSplit(Spaced(ws)) == Some(ws)
  {
    if ws != [] {
      var w := ws[0];
      if |ws| == 1 {
        PlainWordThen(w, "");
        assert w + "" == w && [w] + [] == ws;
      } else {
        var tail := " " + Spaced(ws[1..]);
        assert Spaced(ws) == w + tail;
        ShlexSplitPlainWords(ws[1..]);
        assert ShlexSplit(tail) == ShlexSplit(Spaced(ws[1..])) by {
          assert tail[1..] == Spaced(ws[1..]);
        }
        PlainWordThen(w, tail);
        assert [w] + ws[1..] == ws;
      }
    }
  }

  /** A plain word followed by whitespace or nothing is read as one token, and the rest afresh. */
  lemma PlainWordThen(w: string, tail: string)
    requires IsPlainWord(w)
    requires tail == [] || IsShlexSpace(tail[0])
    ensures ShlexSplit(tail).Some? ==> ShlexSplit(w + tail) == Some([w] + ShlexSplit(tail).value)
  {
    var s := w + tail;
    assert w[0] in w;
    assert s[0] == w[0] && !IsShlexSpace(s[0]) && !IsQuote(s[0]);
    PlainWordRun(w, tail);
    assert s[|w|..] == tail;
  }

  /** Words joined by single spaces, as the lines of `has_prefix` are written. */
  function Spaced(ws: seq<string>): string {
    if ws == [] then "" else if |ws| == 1 then ws[0] else ws[0] + " " + Spaced(ws[1..])
  }

  lemma PlainWordRun(w: string, tail: string)
    requires w != [] && forall c :: c in w ==> !IsShlexSpace(c)
    requires tail == [] || IsShlexSpace(tail[0])
    ensures WordRun(w + tail) == |w| && (w + tail)[..|w|] == w
  {
    var s := w + tail;
    assert s[0] == w[0] && w[0] in w;
    if |w| > 1 {
      assert s[1..] == w[1..] + tail;
      forall c | c in w[1..] ensures !IsShlexSpace(c) {
        assert c in w;
      }
      PlainWordRun(w[1..], tail);
    } else {
      assert s[1..] == tail;
    }
  }

  /** An opening quote with no matching quote after it is the ValueError case. */
  lemma UnclosedQuote(q: char, body: string)
    requires IsQuote(q) && q !in body
    ensures ShlexSplit([q] + body) == None
  {
    assert ([q] + body)[1..] == body;
  }

  // ---------------------------------------------------------------------------
  // read_has_prefix

  /** `x.strip('"\'')`. */
  function StripQuotes(s: string): string {
    StripBy(s, IsQuote)
  }

  datatype PrefixEntry = PrefixEntry(placeholder: string, mode: string)

  /**
   * The key and value one `has_prefix` line contributes: a line of three
   * tokens is `placeholder mode file`; any other line, or one with an
   * unclosed quote, names a text-mode file with the default placeholder.
   */
  function HasPrefixLine(line: string): (string, PrefixEntry) {
    match ShlexSplit(line)
    case Some(ts) =>
      if |ts| == 3 then (StripQuotes(ts[2]), PrefixEntry(StripQuotes(ts[0]), StripQuotes(ts[1])))
      else (line, PrefixEntry(PrefixPlaceholder, "text"))
    case None => (line, PrefixEntry(PrefixPlaceholder, "text"))
  }

  /** A quote-free word comes out of `strip('"\'')` as it went in. */
  lemma StripQuotesPlain(w: string)
    requires forall c :: c in w ==> !IsQuote(c)
    ensures StripQuotes(w) == w
  {
    if w != [] {
      assert w[0] in w && w[|w| - 1] in w;
    }
    StripByFixed(w, IsQuote);
  }

  predicate IsBareWord(w: string) {
    IsPlainWord(w) && forall c :: c in w ==> !IsQuote(c)
  }

  /** `placeholder mode file` maps the file to its placeholder and mode. */
  lemma HasPrefixThreeFields(placeholder: string, mode: string, file: string)
    requires IsBareWord(placeholder) && IsBareWord(mode) && IsBareWord(file)
    ensures HasPrefixLine(placeholder + " " + mode + " " + file) == (file, PrefixEntry(placeholder, mode))
  {
    var ws := [placeholder, mode, file];
    assert ws[1..] == [mode, file] && ws[1..][1..] == [file];
    assert Spaced([file]) == file;
    assert Spaced([mode, file]) == mode + " " + file;
    assert Spaced(ws) == placeholder + " " + (mode + " " + file);
    assert placeholder + " " + (mode + " " + file) == placeholder + " " + mode + " " + file;
    ShlexSplitPlainWords(ws);
    StripQuotesPlain(placeholder);
    StripQuotesPlain(mode);
    StripQuotesPlain(file);
  }

  /** A line holding only a file name names a text file with the default placeholder. */
  lemma HasPrefixBareFile(file: string)
    requires IsPlainWord(file)
    ensures HasPrefixLine(file) == (file, PrefixEntry(PrefixPlaceholder, "text"))
  {
    assert Spaced([file]) == file;
    ShlexSplitPlainWords([file]);
  }

  /** The entry each content line of `has_prefix` contributes, in file order. */
  function HasPrefixEntries(lines: seq<string>): seq<(string, PrefixEntry)> {
    seq(|lines|, i requires 0 <= i < |lines| => HasPrefixLine(lines[i]))
  }

  /** A dictionary filled from `entries` in order, a later entry overriding an earlier one. */
  function Table<K, V>(entries: seq<(K, V)>): map<K, V>
    decreases |entries|
  {
    if entries == [] then map[]
    else
      var last := entries[|entries| - 1];
      Table(entries[..|entries| - 1])[last.0 := last.1]
  }

  /**
   * A key is in the table exactly when some entry has it, and it is mapped
   * to the value of the last such entry.
   */
  lemma {:induction false} TableLastWins<K, V>(entries: seq<(K, V)>, key: K)
    ensures key in Table(entries) <==> exists i :: 0 <= i < |entries| && entries[i].0 == key
    ensures forall i :: (0 <= i < |entries| && entries[i].0 == key &&
      forall j :: i < j < |entries| ==> entries[j].0 != key) ==>
      Table(entries)[key] == entries[i].1
    decreases |entries|
  {
    if entries != [] {
      var init := entries[..|entries| - 1];
      TableLastWins(init, key);
      assert forall i :: 0 <= i < |init| ==> init[i] == entries[i];
      if key in Table(entries) && entries[|entries| - 1].0 != key {
        var i :| 0 <= i < |init| && init[i].0 == key;
        assert entries[i].0 == key;
      }
    }
  }

  lemma TableSnoc<K, V>(entries: seq<(K, V)>, i: nat)
    requires i < |entries|
    ensures Table(entries[..i + 1]) == Table(entries[..i])[entries[i].0 := entries[i].1]
  {
    assert entries[..i + 1][..i] == entries[..i];
  }

  /** The table `read_has_prefix` builds from a `has_prefix` file's text, empty without a file. */
  function HasPrefixTable(file: Option<string>): map<string, PrefixEntry> {
    match file
    case None => map[]
    case Some(text) => Table(HasPrefixEntries(YieldLines(text)))
  }

  /** `read_has_prefix`: the table of the `has_prefix` file, empty when it cannot be opened. */
  method ReadHasPrefix(file: Option<string>) returns (res: map<string, PrefixEntry>)
    ensures res == HasPrefixTable(file)
  {
    res := map[];
    if file.Some? {
      res := HasPrefixLoop(YieldLines(file.value));
    }
  }

  /** The loop of `read_has_prefix` over the content lines. */
  method HasPrefixLoop(lines: seq<string>) returns (res: map<string, PrefixEntry>)
    ensures res == Table(HasPrefixEntries(lines))
  {
    res := map[];
    ghost var entries := HasPrefixEntries(lines);
    for i := 0 to |lines|
      invariant res == Table(entries[..i])
    {
      var entry := HasPrefixLine(lines[i]);
      TableSnoc(entries, i);
      res := res[entry.0 := entry.1];
    }
    assert entries[..|lines|] == entries;
  }

  // ---------------------------------------------------------------------------
  // read_no_link

  /**
   * `read_no_link`: the union of the content lines of `no_link` and
   * `no_softlink`; a file that cannot be opened adds nothing.
   */
  method ReadNoLink(noLink: Option<string>, noSoftlink: Option<string>) returns (res: set<string>)
    ensures res == NoLinkOf(noLink, noSoftlink)
  {
    var files := [noLink, noSoftlink];
    res := {};
    assert files[0] == noLink && files[1] == noSoftlink;
    for i := 0 to |files|
      invariant forall x :: x in res <==>
        (0 < i && noLink.Some? && x in YieldLines(noLink.value)) ||
        (1 < i && noSoftlink.Some? && x in YieldLines(noSoftlink.value))
    {
      if files[i].Some? {
        res := res + set l | l in YieldLines(files[i].value);
      }
    }
  }

  /** The set `read_no_link` collects: the content lines of whichever of the two files could be opened. */
  function NoLinkOf(noLink: Option<string>, noSoftlink: Option<string>): (r: set<string>)
    ensures forall x :: x in r <==>
      (noLink.Some? && x in YieldLines(noLink.value)) || (noSoftlink.Some? && x in YieldLines(noSoftlink.value))
  {
    (if noLink.Some? then set x | x in YieldLines(noLink.value) else {}) +
    (if noSoftlink.Some? then set x | x in YieldLines(noSoftlink.value) else {})
  }
}
