/**
 * String helpers with the meaning the installer's Python 2 code gives them:
 * whitespace as `str.strip()`/`str.split()` see it, `str.find`/`str.rfind`,
 * stripping, line splitting, and the lexicographic order that `sorted()` uses.
 */
module Strings {
  import opened Wrappers

  /** Python 2 byte-string whitespace: space, \t, \n, \v, \f and \r. */
  predicate IsSpace(c: char) {
    c == ' ' || c == '\t' || c == '\n' || c == '\r' || c == 11 as char || c == 12 as char
  }

  /** A byte: an integer from 0 to 255. */
  newtype Byte = x: int | 0 <= x < 256

  /** A Python 2 `str` is a byte string; file contents are bytes. */
  type Bytes = seq<Byte>

  /** Reading a file in text mode: each byte becomes the character with that code. */
  function Latin1(bs: Bytes): (s: string)
    ensures |s| == |bs| && forall k :: 0 <= k < |bs| ==> s[k] as int == bs[k] as int
  {
    seq(|bs|, k requires 0 <= k < |bs| => (bs[k] as int) as char)
  }

  predicate IsAscii(s: string) {
    forall k :: 0 <= k < |s| ==> s[k] as int < 128
  }

  /**
   * `s.encode('utf-8')` on a Python 2 byte string: the string is first decoded
   * as ASCII, so any character from 128 up raises UnicodeDecodeError (`None`).
   */
  function EncodeAscii(s: string): (r: Option<Bytes>)
    ensures r.Some? <==> IsAscii(s)
    ensures r.Some? ==> |r.value| == |s| && forall k :: 0 <= k < |s| ==> r.value[k] as int == s[k] as int
  {
    if IsAscii(s) then Some(seq(|s|, k requires 0 <= k < |s| && IsAscii(s) => ByteOf(s[k]))) else None
  }

  /** The byte with the code of an ASCII character. */
  function ByteOf(c: char): (b: Byte)
    requires c as int < 128
    ensures b as int == c as int
  {
    (c as int) as Byte
  }

  /** Encoding what was read from an ASCII file gives back the file's bytes. */
  lemma EncodeLatin1(bs: Bytes)
    requires forall k :: 0 <= k < |bs| ==> bs[k] < 128
    ensures EncodeAscii(Latin1(bs)) == Some(bs)
  {
    var s := Latin1(bs);
    assert IsAscii(s) by {
      forall k | 0 <= k < |s| ensures s[k] as int < 128 {
        assert s[k] as int == bs[k] as int;
      }
    }
    var r := EncodeAscii(s).value;
    assert forall k :: 0 <= k < |bs| ==> r[k] as int == bs[k] as int;
    assert r == bs;
  }

  predicate StartsWith<T(==)>(s: seq<T>, p: seq<T>) {
    |p| <= |s| && s[..|p|] == p
  }

  predicate EndsWith<T(==)>(s: seq<T>, p: seq<T>) {
    |p| <= |s| && s[|s| - |p|..] == p
  }

  /** Position of the first `x` in `s`, as `find` gives it. */
  function IndexOf<T(==)>(s: seq<T>, x: T): (r: Option<nat>)
    ensures r.Some? ==> r.value < |s| && s[r.value] == x && x !in s[..r.value]
    ensures r.None? ==> x !in s
  {
    if s == [] then None
    else if s[0] == x then Some(0)
    else match IndexOf(s[1..], x)
      case None => None
      case Some(i) =>
        assert s[..i + 1] == [s[0]] + s[1..][..i];
        Some(i + 1)
  }

  /** Position of the last `x` in `s`, as `rfind` gives it. */
  function LastIndexOf<T(==)>(s: seq<T>, x: T): (r: Option<nat>)
    ensures r.Some? ==> r.value < |s| && s[r.value] == x && x !in s[r.value + 1..]
    ensures r.None? ==> x !in s
  {
    if s == [] then None
    else if s[|s| - 1] == x then Some(|s| - 1)
    else
      var r := LastIndexOf(s[..|s| - 1], x);
      assert r.Some? ==> s[r.value + 1..] == s[..|s| - 1][r.value + 1..] + [s[|s| - 1]];
      assert s == s[..|s| - 1] + [s[|s| - 1]];
      r
  }

  /** `lstrip`: drops the longest prefix of characters satisfying `drop`. */
  function LStrip(s: string, drop: char -> bool): (r: string)
    ensures |r| <= |s| && r == s[|s| - |r|..]
    ensures forall k :: 0 <= k < |s| - |r| ==> drop(s[k])
    ensures r != [] ==> !drop(r[0])
  {
    if s != [] && drop(s[0]) then LStrip(s[1..], drop) else s
  }

  /** `rstrip`: drops the longest suffix of characters satisfying `drop`. */
  function RStrip(s: string, drop: char -> bool): (r: string)
    ensures |r| <= |s| && r == s[..|r|]
    ensures forall k :: |r| <= k < |s| ==> drop(s[k])
    ensures r != [] ==> !drop(r[|r| - 1])
  {
    if s != [] && drop(s[|s| - 1]) then RStrip(s[..|s| - 1], drop) else s
  }

  function StripBy(s: string, drop: char -> bool): string {
    RStrip(LStrip(s, drop), drop)
  }

  /** `str.strip()` with no argument. */
  function Strip(s: string): string {
    StripBy(s, IsSpace)
  }

  /** A string that `strip` leaves alone is one that neither begins nor ends with a dropped character. */
  lemma StripByFixed(s: string, drop: char -> bool)
    requires s != [] ==> !drop(s[0]) && !drop(s[|s| - 1])
    ensures StripBy(s, drop) == s
  {
    var l := LStrip(s, drop);
    if |l| < |s| {
      assert drop(s[0]);
    }
    assert l == s;
  }

  /**
   * The pieces of `s` between newline characters. Iterating over a file in
   * Python yields the same pieces with their newline attached, and every
   * caller strips it off again, so both views give the same stripped lines.
   */
  function SplitLines(s: string): (r: seq<string>)
    ensures |r| >= 1
    ensures forall k :: 0 <= k < |r| ==> '\n' !in r[k]
    decreases |s|
  {
    match IndexOf(s, '\n')
    case None => [s]
    case Some(i) => [s[..i]] + SplitLines(s[i + 1..])
  }

  /** The text whose lines are `ls`, joined by newline characters. */
  function JoinLines(ls: seq<string>): string
    requires |ls| >= 1
  {
    if |ls| == 1 then ls[0] else ls[0] + "\n" + JoinLines(ls[1..])
  }

  /** Splitting a text made of newline-free lines gives those lines back. */
  lemma {:induction false} SplitJoinLines(ls: seq<string>)
    requires |ls| >= 1
    requires forall k :: 0 <= k < |ls| ==> '\n' !in ls[k]
    ensures SplitLines(JoinLines(ls)) == ls
  {
    if |ls| == 1 {
      assert IndexOf(ls[0], '\n').None?;
    } else {
      var s := JoinLines(ls);
      var rest := JoinLines(ls[1..]);
      assert s == ls[0] + "\n" + rest;
      assert s[|ls[0]|] == '\n';
      assert s[..|ls[0]|] == ls[0];
      var i := IndexOf(s, '\n');
      assert '\n' !in s[..|ls[0]|];
      assert i.Some? && i.value == |ls[0]|;
      assert s[|ls[0]| + 1..] == rest;
      SplitJoinLines(ls[1..]);
    }
  }

  /** Python's `str.split()` with no argument: the maximal runs of non-whitespace. */
  function SplitWhitespace(s: string): (r: seq<string>)
    ensures forall k :: 0 <= k < |r| ==> r[k] != [] && forall c :: c in r[k] ==> !IsSpace(c)
    decreases |s|
  {
    if s == [] then []
    else if IsSpace(s[0]) then SplitWhitespace(s[1..])
    else
      var n := WordLength(s);
      [s[..n]] + SplitWhitespace(s[n..])
  }

  /** Length of the run of non-whitespace characters that starts `s`. */
  function WordLength(s: string): (n: nat)
    ensures n <= |s|
    ensures forall k :: 0 <= k < n ==> !IsSpace(s[k])
    ensures n < |s| ==> IsSpace(s[n])
  {
    if s == [] || IsSpace(s[0]) then 0 else 1 + WordLength(s[1..])
  }

  /** Words joined by single spaces. */
  function JoinWords(ws: seq<string>): string {
    if ws == [] then "" else if |ws| == 1 then ws[0] else ws[0] + " " + JoinWords(ws[1..])
  }

  /** `split()` recovers the words of a space-joined text. */
  lemma {:induction false} SplitJoinWords(ws: seq<string>)
    requires forall k :: 0 <= k < |ws| ==> ws[k] != [] && forall c :: c in ws[k] ==> !IsSpace(c)
    ensures SplitWhitespace(JoinWords(ws)) == ws
  {
    if ws == [] {
    } else {
      var w := ws[0];
      WordOfPrefix(w, if |ws| == 1 then "" else " " + JoinWords(ws[1..]));
      if |ws| == 1 {
        assert JoinWords(ws) == w + "";
        assert JoinWords(ws)[|w|..] == "";
      } else {
        var s := JoinWords(ws);
        assert s == w + (" " + JoinWords(ws[1..]));
        assert s[|w|..] == " " + JoinWords(ws[1..]);
        assert s[|w|..][1..] == JoinWords(ws[1..]);
        SplitJoinWords(ws[1..]);
      }
    }
  }

  lemma WordOfPrefix(w: string, tail: string)
    requires w != [] && forall c :: c in w ==> !IsSpace(c)
    requires tail == [] || IsSpace(tail[0])
    ensures WordLength(w + tail) == |w|
    ensures (w + tail)[..|w|] == w
  {
    var s := w + tail;
    assert s[0] == w[0] && w[0] in w;
    if |w| > 1 {
      assert s[1..] == w[1..] + tail;
      forall c | c in w[1..] ensures !IsSpace(c) {
        assert c in w;
      }
      WordOfPrefix(w[1..], tail);
    } else {
      assert s[1..] == tail;
    }
  }

  // ---------------------------------------------------------------------------
  // Lexicographic order on strings, the order of Python's `<` and `sorted()`.

  /** `a` sorts strictly before `b`: a proper prefix, or smaller at the first difference. */
  predicate LexLess(a: string, b: string)
    decreases |a|
  {
    |b| > 0 && (|a| == 0 || a[0] < b[0] || (a[0] == b[0] && LexLess(a[1..], b[1..])))
  }

  lemma {:induction false} LexLessIrreflexive(a: string)
    ensures !LexLess(a, a)
  {
    if |a| > 0 {
      LexLessIrreflexive(a[1..]);
    }
  }

  lemma {:induction false} LexLessTransitive(a: string, b: string, c: string)
    requires LexLess(a, b) && LexLess(b, c)
    ensures LexLess(a, c)
  {
    if |a| > 0 && a[0] == b[0] && b[0] == c[0] {
      LexLessTransitive(a[1..], b[1..], c[1..]);
    }
  }

  lemma {:induction false} LexLessTotal(a: string, b: string)
    requires a != b
    ensures LexLess(a, b) || LexLess(b, a)
  {
    if |a| > 0 && |b| > 0 && a[0] == b[0] {
      assert a == [a[0]] + a[1..] && b == [b[0]] + b[1..];
      LexLessTotal(a[1..], b[1..]);
    }
  }

  lemma LexLessAsymmetric(a: string, b: string)
    requires LexLess(a, b)
    ensures !LexLess(b, a)
  {
    if LexLess(b, a) {
      LexLessTransitive(a, b, a);
      LexLessIrreflexive(a);
    }
  }

  predicate StrictlySorted(s: seq<string>) {
    forall i, j :: 0 <= i < j < |s| ==> LexLess(s[i], s[j])
  }

  /** Inserting `x` where the smaller elements end keeps a sorted sequence sorted. */
  lemma InsertSorted(r: seq<string>, i: nat, x: string)
    requires StrictlySorted(r) && i <= |r|
    requires forall k :: 0 <= k < i ==> LexLess(r[k], x)
    requires i < |r| ==> LexLess(x, r[i])
    ensures StrictlySorted(r[..i] + [x] + r[i..])
  {
    var t := r[..i] + [x] + r[i..];
    forall p, q | 0 <= p < q < |t|
      ensures LexLess(t[p], t[q])
    {
      if q < i {
        assert t[p] == r[p] && t[q] == r[q];
      } else if q == i {
        assert t[p] == r[p] && t[q] == x;
      } else if p == i {
        assert t[q] == r[q - 1];
        if q - 1 > i {
          LexLessTransitive(x, r[i], r[q - 1]);
        }
      } else if p < i {
        assert t[p] == r[p] && t[q] == r[q - 1];
      } else {
        assert t[p] == r[p - 1] && t[q] == r[q - 1];
      }
    }
  }

  /** Python's `sorted()` over a set of strings: ascending, each element once. */
  method SortStrings(s: set<string>) returns (r: seq<string>)
    ensures StrictlySorted(r)
    ensures forall x :: x in r <==> x in s
  {
    r := [];
    var todo := s;
    while todo != {}
      invariant todo <= s
      invariant StrictlySorted(r)
      invariant forall x :: x in r <==> x in s - todo
      decreases todo
    {
      var x :| x in todo;
      var i := 0;
      while i < |r| && LexLess(r[i], x)
        invariant 0 <= i <= |r|
        invariant forall k :: 0 <= k < i ==> LexLess(r[k], x)
      {
        i := i + 1;
      }
      if i < |r| {
        assert r[i] in r;
        LexLessTotal(r[i], x);
      }
      InsertSorted(r, i, x);
      assert forall y :: y in r[..i] + [x] + r[i..] <==> y in r || y == x by {
        assert r == r[..i] + r[i..];
      }
      r := r[..i] + [x] + r[i..];
      todo := todo - {x};
    }
  }

  /** In a sorted sequence, exactly the elements before the last have a larger element. */
  lemma SortedAllButLast(r: seq<string>, x: string)
    requires StrictlySorted(r) && |r| > 0
    ensures x in r[..|r| - 1] <==> x in r && exists y :: y in r && LexLess(x, y)
  {
    var last := r[|r| - 1];
    if x in r[..|r| - 1] {
      var k :| 0 <= k < |r| - 1 && r[..|r| - 1][k] == x;
      assert r[k] == x && LexLess(x, last) && last in r;
    }
    if x in r && x !in r[..|r| - 1] {
      assert x == last;
      forall y | y in r
        ensures !LexLess(x, y)
      {
        var k :| 0 <= k < |r| && r[k] == y;
        if k < |r| - 1 {
          LexLessAsymmetric(y, x);
        } else {
          LexLessIrreflexive(x);
        }
      }
    }
  }
}
