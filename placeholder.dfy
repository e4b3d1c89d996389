/**
 * The placeholder rewriter: `binary_replace` and the text/binary dispatch of
 * `update_prefix` (.install.py). Packages are built under a dummy prefix; at
 * install time that placeholder is replaced by the real prefix, either as a
 * plain substring replacement (text mode) or, in binaries, inside each
 * NUL-terminated string with NUL padding so that no byte moves (binary mode).
 */
module Placeholder {
  import opened Wrappers
  import opened Strings

  const NUL: Byte := 0

  // ---------------------------------------------------------------------------
  // Python's bytes.count and bytes.replace

  /** `s.count(a)`: non-overlapping occurrences, left to right; the empty pattern occurs |s| + 1 times. */
  function Count(s: Bytes, a: Bytes): nat
    decreases |s|
  {
    if |a| == 0 then |s| + 1
    else if |s| < |a| then 0
    else if s[..|a|] == a then 1 + Count(s[|a|..], a)
    else Count(s[1..], a)
  }

  /** `s.replace(a, b)`: every non-overlapping occurrence, left to right. */
  function ReplaceAll(s: Bytes, a: Bytes, b: Bytes): Bytes
    decreases |s|
  {
    if |a| == 0 then Interleave(s, b)
    else if |s| < |a| then s
    else if s[..|a|] == a then b + ReplaceAll(s[|a|..], a, b)
    else [s[0]] + ReplaceAll(s[1..], a, b)
  }

  /** `s.replace(b'', b)` puts `b` before every byte and at the end. */
  function Interleave(s: Bytes, b: Bytes): Bytes {
    if s == [] then b else b + [s[0]] + Interleave(s[1..], b)
  }

  lemma {:induction false} InterleaveLength(s: Bytes, b: Bytes)
    ensures |Interleave(s, b)| == |s| + |b| * (|s| + 1)
  {
    if s != [] {
      InterleaveLength(s[1..], b);
      assert |b| * (|s| + 1) == |b| + |b| * |s|;
      assert |b| * |s| == |b| + |b| * (|s| - 1);
    }
  }

  /** Each replaced occurrence changes the length by |b| - |a|. */
  lemma {:induction false} ReplaceAllLength(s: Bytes, a: Bytes, b: Bytes)
    ensures |ReplaceAll(s, a, b)| == |s| + (|b| - |a|) * Count(s, a)
    decreases |s|
  {
    if |a| == 0 {
      InterleaveLength(s, b);
    } else if |s| < |a| {
    } else if s[..|a|] == a {
      ReplaceAllLength(s[|a|..], a, b);
      MulSucc(|b| - |a|, Count(s[|a|..], a));
    } else {
      ReplaceAllLength(s[1..], a, b);
    }
  }

  lemma {:induction false} InterleaveEmpty(s: Bytes)
    ensures Interleave(s, []) == s
  {
    if s != [] {
      InterleaveEmpty(s[1..]);
    }
  }

  /** Replacing a pattern by itself changes nothing. */
  lemma {:induction false} ReplaceAllSelf(s: Bytes, a: Bytes)
    ensures ReplaceAll(s, a, a) == s
    decreases |s|
  {
    if |a| == 0 {
      InterleaveEmpty(s);
    } else if |s| < |a| {
    } else if s[..|a|] == a {
      ReplaceAllSelf(s[|a|..], a);
      assert s == s[..|a|] + s[|a|..];
    } else {
      ReplaceAllSelf(s[1..], a);
      assert s == [s[0]] + s[1..];
    }
  }

  /** A pattern that does not occur is not replaced. */
  lemma {:induction false} ReplaceAllAbsent(s: Bytes, a: Bytes, b: Bytes)
    requires Count(s, a) == 0
    ensures ReplaceAll(s, a, b) == s
    decreases |s|
  {
    if |s| >= |a| && s[..|a|] != a {
      ReplaceAllAbsent(s[1..], a, b);
      assert s == [s[0]] + s[1..];
    }
  }

  lemma MulSucc(d: int, c: int)
    ensures d * (1 + c) == d + d * c
  {
  }

  lemma MulSign(d: int, c: int)
    requires c >= 1
    ensures d * c < 0 <==> d < 0
    ensures (-d) * c == -(d * c)
  {
  }

  lemma CountAtStart(s: Bytes, a: Bytes)
    requires StartsWith(s, a)
    ensures Count(s, a) >= 1
  {
  }

  // ---------------------------------------------------------------------------
  // binary_replace

  datatype PaddingError = PaddingError(placeholder: Bytes, replacement: Bytes, padding: int)

  /**
   * Length of the match of the pattern `re.escape(a) + b'([^\0]*?)\0'` at the
   * start of `s`: the placeholder, then everything up to and including the
   * first NUL after it. `None` when the placeholder is not there or no NUL follows.
   */
  function MatchLength(s: Bytes, a: Bytes): (r: Option<nat>)
    ensures r.Some? ==> |a| < r.value <= |s| && s[..|a|] == a && s[r.value - 1] == NUL
    ensures r.Some? ==> forall k :: |a| <= k < r.value - 1 ==> s[k] != NUL
    ensures r.None? ==> !StartsWith(s, a) || forall k :: |a| <= k < |s| ==> s[k] != NUL
  {
    if StartsWith(s, a) then
      match IndexOf(s[|a|..], NUL)
      case Some(j) =>
        assert forall k :: |a| <= k < |a| + j ==> s[k] == s[|a|..][..j][k - |a|];
        Some(|a| + j + 1)
      case None =>
        assert forall k :: |a| <= k < |s| ==> s[k] == s[|a|..][k - |a|];
        None
    else None
  }

  function Nuls(n: nat): (r: Bytes)
    ensures |r| == n && forall k :: 0 <= k < n ==> r[k] == NUL
  {
    seq(n, _ => NUL)
  }

  /**
   * The replacement of one matched run: every placeholder in it replaced, then
   * `(len(a) - len(b)) * occurrences` NUL bytes; a negative padding is a PaddingError.
   */
  function RewriteRun(run: Bytes, a: Bytes, b: Bytes): (r: Result<Bytes, PaddingError>)
    requires StartsWith(run, a)
    ensures r.Success? <==> |b| <= |a|
    ensures r.Success? ==> |r.value| == |run|
    ensures r.Failure? ==> r.error.placeholder == a && r.error.replacement == b && r.error.padding < 0
  {
    var occurrences := Count(run, a);
    var padding := (|a| - |b|) * occurrences;
    CountAtStart(run, a);
    ReplaceAllLength(run, a, b);
    MulSign(|a| - |b|, occurrences);
    assert (|b| - |a|) == -(|a| - |b|);
    if padding < 0 then Failure(PaddingError(a, b, padding))
    else Success(ReplaceAll(run, a, b) + Nuls(padding))
  }

  /**
   * `binary_replace(data, a, b)`: `re.sub` scans left to right; at each position
   * where the pattern matches, the run is rewritten and scanning resumes after
   * it; elsewhere the byte is kept and scanning moves on by one.
   */
  function BinaryReplace(data: Bytes, a: Bytes, b: Bytes): (r: Result<Bytes, PaddingError>)
    ensures r.Success? ==> |r.value| == |data|
    decreases |data|
  {
    match MatchLength(data, a)
    case Some(n) =>
      (match RewriteRun(data[..n], a, b)
       case Failure(e) => Failure(e)
       case Success(run) =>
         match BinaryReplace(data[n..], a, b)
         case Failure(e) => Failure(e)
         case Success(rest) => Success(run + rest))
    case None =>
      if data == [] then Success([])
      else
        match BinaryReplace(data[1..], a, b)
        case Failure(e) => Failure(e)
        case Success(rest) => Success([data[0]] + rest)
  }

  /** Some placeholder in `data` is followed, somewhere after it, by a NUL byte. */
  ghost predicate HasRun(data: Bytes, a: Bytes) {
    exists i :: 0 <= i <= |data| && MatchLength(data[i..], a).Some?
  }

  /** Byte `k` of `data` lies inside the run that matches at position `i`. */
  predicate InRunAt(data: Bytes, a: Bytes, i: nat, k: nat) {
    i <= k < |data| &&
    match MatchLength(data[i..], a)
    case Some(n) => k < i + n
    case None => false
  }

  lemma HasRunShift(data: Bytes, a: Bytes)
    requires data != [] && MatchLength(data, a).None?
    ensures HasRun(data, a) <==> HasRun(data[1..], a)
  {
    if HasRun(data, a) {
      var i :| 0 <= i <= |data| && MatchLength(data[i..], a).Some?;
      assert i != 0 by {
        assert data[0..] == data;
      }
      assert data[1..][i - 1..] == data[i..];
    }
    if HasRun(data[1..], a) {
      var i :| 0 <= i <= |data[1..]| && MatchLength(data[1..][i..], a).Some?;
      assert data[1..][i..] == data[i + 1..];
    }
  }

  /** A PaddingError happens exactly when the replacement is longer and at least one run matches. */
  lemma {:induction false} BinaryReplaceFails(data: Bytes, a: Bytes, b: Bytes)
    ensures BinaryReplace(data, a, b).Failure? <==> |b| > |a| && HasRun(data, a)
    ensures BinaryReplace(data, a, b).Failure? ==> BinaryReplace(data, a, b).error.padding < 0
    decreases |data|
  {
    match MatchLength(data, a)
    case Some(n) =>
      assert data[0..] == data;
      if |b| <= |a| {
        BinaryReplaceFails(data[n..], a, b);
      }
    case None =>
      if data == [] {
        assert forall i :: 0 <= i <= |data| ==> data[i..] == data;
      } else {
        BinaryReplaceFails(data[1..], a, b);
        HasRunShift(data, a);
      }
  }

  /** Data without any placeholder run comes back unchanged. */
  lemma {:induction false} BinaryReplaceNoRun(data: Bytes, a: Bytes, b: Bytes)
    requires !HasRun(data, a)
    ensures BinaryReplace(data, a, b) == Success(data)
    decreases |data|
  {
    assert data[0..] == data;
    if data != [] {
      HasRunShift(data, a);
      BinaryReplaceNoRun(data[1..], a, b);
      assert data == [data[0]] + data[1..];
    }
  }

  lemma InRunShift(data: Bytes, a: Bytes, m: nat, i: nat, k: nat)
    requires m <= |data|
    ensures InRunAt(data[m..], a, i, k) <==> InRunAt(data, a, m + i, m + k)
  {
    if i <= |data[m..]| {
      assert data[m..][i..] == data[m + i..];
    }
  }

  /** A byte that lies in no placeholder run keeps its value. */
  lemma {:induction false} BinaryReplaceOutsideRuns(data: Bytes, a: Bytes, b: Bytes, k: nat)
    requires BinaryReplace(data, a, b).Success?
    requires k < |data| && forall i :: 0 <= i <= k ==> !InRunAt(data, a, i, k)
    ensures BinaryReplace(data, a, b).value[k] == data[k]
    decreases |data|
  {
    assert data[0..] == data;
    match MatchLength(data, a)
    case Some(n) =>
      assert !InRunAt(data, a, 0, k);
      var rest, k' := data[n..], k - n;
      forall i | 0 <= i <= k'
        ensures !InRunAt(rest, a, i, k')
      {
        InRunShift(data, a, n, i, k');
      }
      BinaryReplaceOutsideRuns(rest, a, b, k');
    case None =>
      if k > 0 {
        var rest, k' := data[1..], k - 1;
        forall i | 0 <= i <= k'
          ensures !InRunAt(rest, a, i, k')
        {
          InRunShift(data, a, 1, i, k');
        }
        BinaryReplaceOutsideRuns(rest, a, b, k');
      }
  }

  /** Bytes in front of the leftmost run are copied unchanged and the scan resumes at the run. */
  lemma {:induction false} BinaryReplaceSkipsPrefix(data: Bytes, a: Bytes, b: Bytes, i: nat)
    requires i <= |data|
    requires forall j :: 0 <= j < i ==> MatchLength(data[j..], a).None?
    ensures BinaryReplace(data, a, b).Success? <==> BinaryReplace(data[i..], a, b).Success?
    ensures BinaryReplace(data, a, b).Success? ==>
      BinaryReplace(data, a, b).value == data[..i] + BinaryReplace(data[i..], a, b).value
    decreases i
  {
    if i > 0 {
      var rest := data[1..];
      NoRunShift(data, a, i);
      SkipByte(data, a, b);
      BinaryReplaceSkipsPrefix(rest, a, b, i - 1);
      assert rest[i - 1..] == data[i..];
      assert data[..i] == [data[0]] + rest[..i - 1];
    }
  }

  /** No run before position `i` means none at the start, and none before `i - 1` past the first byte. */
  lemma NoRunShift(data: Bytes, a: Bytes, i: nat)
    requires 0 < i <= |data|
    requires forall j :: 0 <= j < i ==> MatchLength(data[j..], a).None?
    ensures MatchLength(data, a).None?
    ensures forall j :: 0 <= j < i - 1 ==> MatchLength(data[1..][j..], a).None?
  {
    assert data[0..] == data;
    forall j | 0 <= j < i - 1
      ensures MatchLength(data[1..][j..], a).None?
    {
      assert data[1..][j..] == data[j + 1..];
    }
  }

  /**
   * The leftmost run decides the shape of the result: bytes before it are
   * kept, the run is rewritten by RewriteRun, and the rest is processed afresh.
   */
  lemma BinaryReplaceFirstRun(data: Bytes, a: Bytes, b: Bytes, i: nat)
    requires i <= |data| && MatchLength(data[i..], a).Some?
    requires forall j :: 0 <= j < i ==> MatchLength(data[j..], a).None?
    requires BinaryReplace(data, a, b).Success?
    ensures var tail := data[i..];
      var n := MatchLength(tail, a).value;
      && RewriteRun(LeadingRun(tail, a), a, b).Success?
      && BinaryReplace(tail[n..], a, b).Success?
      && BinaryReplace(data, a, b).value
         == data[..i] + RewriteRun(LeadingRun(tail, a), a, b).value + BinaryReplace(tail[n..], a, b).value
  {
    BinaryReplaceSkipsPrefix(data, a, b, i);
    RunAtStart(data[i..], a, b);
  }

  /** The run matched at the start of `s`. */
  function LeadingRun(s: Bytes, a: Bytes): (r: Bytes)
    requires MatchLength(s, a).Some?
    ensures StartsWith(r, a) && r == s[..MatchLength(s, a).value]
  {
    var n := MatchLength(s, a).value;
    assert s[..n][..|a|] == s[..|a|];
    s[..n]
  }

  lemma RunAtStart(data: Bytes, a: Bytes, b: Bytes)
    requires MatchLength(data, a).Some?
    requires BinaryReplace(data, a, b).Success?
    ensures var n := MatchLength(data, a).value;
      && RewriteRun(data[..n], a, b).Success?
      && BinaryReplace(data[n..], a, b).Success?
      && BinaryReplace(data, a, b).value == RewriteRun(data[..n], a, b).value + BinaryReplace(data[n..], a, b).value
  {
  }

  lemma SkipByte(data: Bytes, a: Bytes, b: Bytes)
    requires data != [] && MatchLength(data, a).None?
    ensures BinaryReplace(data, a, b).Success? <==> BinaryReplace(data[1..], a, b).Success?
    ensures BinaryReplace(data, a, b).Success? ==>
      BinaryReplace(data, a, b).value == [data[0]] + BinaryReplace(data[1..], a, b).value
  {
  }

  /** Rewriting a placeholder into itself changes nothing, in binary mode as in text mode. */
  lemma {:induction false} BinaryReplaceSelf(data: Bytes, a: Bytes)
    ensures BinaryReplace(data, a, a) == Success(data)
    decreases |data|
  {
    match MatchLength(data, a)
    case Some(n) =>
      ReplaceAllSelf(data[..n], a);
      assert (|a| - |a|) * Count(data[..n], a) == 0;
      assert RewriteRun(data[..n], a, a) == Success(data[..n] + Nuls(0));
      assert data[..n] + Nuls(0) == data[..n];
      BinaryReplaceSelf(data[n..], a);
      assert data == data[..n] + data[n..];
    case None =>
      if data != [] {
        BinaryReplaceSelf(data[1..], a);
        assert data == [data[0]] + data[1..];
      }
  }

  // ---------------------------------------------------------------------------
  // update_prefix, without the file I/O

  datatype RewriteError =
    | Padding(e: PaddingError)     // PaddingError out of binary_replace
    | NotAscii(s: string)          // UnicodeDecodeError from str.encode('utf-8') on a Python 2 str
    | InvalidMode(mode: string)    // a mode other than 'text' or 'binary'

  /**
   * The content `update_prefix` writes back for a file holding `data`, or
   * `None` when the new content equals the old and the file is not written.
   */
  function UpdatePrefixData(data: Bytes, newPrefix: string, placeholder: string, mode: string)
    : Result<Option<Bytes>, RewriteError>
  {
    if mode == "text" || mode == "binary" then
      match EncodeAscii(placeholder)
      case None => Failure(NotAscii(placeholder))
      case Some(a) =>
        match EncodeAscii(newPrefix)
        case None => Failure(NotAscii(newPrefix))
        case Some(b) =>
          var replaced := if mode == "text" then Success(ReplaceAll(data, a, b)) else BinaryReplace(data, a, b);
          match replaced
          case Failure(e) => Failure(Padding(e))
          case Success(newData) => Success(if newData == data then None else Some(newData))
    else Failure(InvalidMode(mode))
  }

  /**
   * What update_prefix does to a file's content in each mode: text mode is a
   * plain replacement that may change the length; binary mode keeps the
   * length and fails only when the prefix is longer than the placeholder and
   * some run matches; any other mode fails.
   */
  lemma UpdatePrefixDataOutcome(data: Bytes, newPrefix: string, placeholder: string, mode: string)
    requires IsAscii(newPrefix) && IsAscii(placeholder)
    ensures var r := UpdatePrefixData(data, newPrefix, placeholder, mode);
      var a, b := EncodeAscii(placeholder).value, EncodeAscii(newPrefix).value;
      && (mode != "text" && mode != "binary" ==> r == Failure(InvalidMode(mode)))
      && (mode == "text" ==>
            r.Success? && (if r.value.Some? then r.value.value == ReplaceAll(data, a, b) else ReplaceAll(data, a, b) == data))
      && (mode == "binary" ==>
            (r.Failure? <==> |newPrefix| > |placeholder| && HasRun(data, a))
            && (r.Success? && r.value.Some? ==> |r.value.value| == |data|))
  {
    var a, b := EncodeAscii(placeholder).value, EncodeAscii(newPrefix).value;
    BinaryReplaceFails(data, a, b);
  }

  /** With the placeholder as its own replacement the file is never rewritten. */
  lemma UpdatePrefixDataSelf(data: Bytes, placeholder: string, mode: string)
    requires IsAscii(placeholder) && (mode == "text" || mode == "binary")
    ensures UpdatePrefixData(data, placeholder, placeholder, mode) == Success(None)
  {
    var a := EncodeAscii(placeholder).value;
    ReplaceAllSelf(data, a);
    BinaryReplaceSelf(data, a);
  }
}
