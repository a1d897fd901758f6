/** The JavaScript string operations the data layer relies on, on `seq<char>`. */
module JsStrings {
  import opened Wrappers

  // ---------------------------------------------------------------------------
  // String.prototype.split with a one-character separator
  // ---------------------------------------------------------------------------

  /** Index of the first occurrence of `c` in `s`. */
  function IndexOf(s: string, c: char): (i: nat)
    requires c in s
    ensures i < |s| && s[i] == c && c !in s[..i]
  {
    if s[0] == c then 0 else 1 + IndexOf(s[1..], c)
  }

  /** `parts.join(c)`. */
  function Join(parts: seq<string>, c: char): string
  {
    if |parts| == 0 then ""
    else if |parts| == 1 then parts[0]
    else parts[0] + [c] + Join(parts[1..], c)
  }

  /** `s.split(c)`: cuts at every occurrence of `c`, so there is always one more
      part than there are separators, and the empty string gives `[""]`. */
  function Split(s: string, c: char): (parts: seq<string>)
    ensures |parts| >= 1
    ensures forall i :: 0 <= i < |parts| ==> c !in parts[i]
    ensures forall i, ch :: 0 <= i < |parts| && ch in parts[i] ==> ch in s
    ensures Join(parts, c) == s
    decreases |s|
  {
    if c !in s then [s]
    else
      var i := IndexOf(s, c);
      var rest := Split(s[i + 1..], c);
      SplitStepFacts(s, c, i, rest);
      [s[..i]] + rest
  }

  /** The facts about one cutting step of `Split` that its contract needs. */
  lemma SplitStepFacts(s: string, c: char, i: nat, rest: seq<string>)
    requires i < |s| && s[i] == c && |rest| >= 1
    requires Join(rest, c) == s[i + 1..]
    requires forall k, ch :: 0 <= k < |rest| && ch in rest[k] ==> ch in s[i + 1..]
    ensures Join([s[..i]] + rest, c) == s
    ensures forall k, ch :: 0 <= k < |[s[..i]] + rest| && ch in ([s[..i]] + rest)[k] ==> ch in s
  {
    assert ([s[..i]] + rest)[1..] == rest;
    assert s == s[..i] + [c] + s[i + 1..];
    forall k, ch | 0 <= k < |[s[..i]] + rest| && ch in ([s[..i]] + rest)[k]
      ensures ch in s
    {
      if k > 0 {
        assert ch in rest[k - 1];
        assert ch in s[i + 1..];
      } else {
        assert ch in s[..i];
      }
    }
  }

  /** Joining a part to the end: `(ps + [x]).join(c) == ps.join(c) + c + x`. */
  lemma {:induction false} JoinSnoc(ps: seq<string>, x: string, c: char)
    requires |ps| >= 1
    ensures Join(ps + [x], c) == Join(ps, c) + [c] + x
  {
    if |ps| == 1 {
      assert (ps + [x])[1..] == [x];
    } else {
      assert (ps + [x])[1..] == ps[1..] + [x];
      JoinSnoc(ps[1..], x, c);
    }
  }

  /** `split` undoes `join` when no part contains the separator. */
  lemma {:induction false} SplitJoin(parts: seq<string>, c: char)
    requires |parts| >= 1
    requires forall i :: 0 <= i < |parts| ==> c !in parts[i]
    ensures Split(Join(parts, c), c) == parts
  {
    if |parts| > 1 {
      var p := parts[0];
      var tail := Join(parts[1..], c);
      var s := Join(parts, c);
      assert s == p + [c] + tail;
      assert s[|p|] == c;
      var i := IndexOf(s, c);
      assert i == |p|;
      assert s[..i] == p;
      assert s[i + 1..] == tail;
      SplitJoin(parts[1..], c);
    }
  }

  /** The last element of a non-empty sequence (`Array.prototype.pop` on a fresh array). */
  function Last<T>(s: seq<T>): T
    requires |s| >= 1
  {
    s[|s| - 1]
  }

  lemma ConcatAssoc<T>(a: seq<T>, b: seq<T>, c: seq<T>)
    ensures (a + b) + c == a + (b + c)
  {
  }

  /** Dropping or taking the first part of a concatenation. */
  lemma ConcatSlices<T>(a: seq<T>, b: seq<T>)
    ensures (a + b)[|a|..] == b && (a + b)[..|a|] == a
  {
  }

  lemma DropConcat<T>(a: seq<T>, b: seq<T>, k: nat)
    requires k <= |a|
    ensures (a + b)[k..] == a[k..] + b
  {
  }

  // ---------------------------------------------------------------------------
  // String.prototype.trim
  // ---------------------------------------------------------------------------

  /** JavaScript line terminators: what `.` in a regular expression does not match. */
  predicate IsLineTerminator(ch: char)
  {
    ch == '\n' || ch == '\r' || ch == '\U{2028}' || ch == '\U{2029}'
  }

  /** JavaScript white space and line terminators: what `trim` removes. */
  predicate IsWhitespace(ch: char)
  {
    || ch == '\t' || ch == '\U{B}' || ch == '\U{C}' || ch == ' '
    || ch == '\U{A0}' || ch == '\U{1680}' || ('\U{2000}' <= ch <= '\U{200A}')
    || ch == '\U{202F}' || ch == '\U{205F}' || ch == '\U{3000}' || ch == '\U{FEFF}'
    || IsLineTerminator(ch)
  }

  /** Number of white-space characters at the start of `s`. */
  function LeadingWhitespace(s: string): (n: nat)
    ensures n <= |s|
    ensures forall i :: 0 <= i < n ==> IsWhitespace(s[i])
    ensures n < |s| ==> !IsWhitespace(s[n])
  {
    if |s| == 0 || !IsWhitespace(s[0]) then 0 else 1 + LeadingWhitespace(s[1..])
  }

  /** Number of white-space characters at the end of `s`. */
  function TrailingWhitespace(s: string): (n: nat)
    ensures n <= |s|
    ensures forall i :: |s| - n <= i < |s| ==> IsWhitespace(s[i])
    ensures n < |s| ==> !IsWhitespace(s[|s| - 1 - n])
  {
    if |s| == 0 || !IsWhitespace(s[|s| - 1]) then 0 else 1 + TrailingWhitespace(s[..|s| - 1])
  }

  /** `r` occurs in `s` at index `a` with nothing but white space around it. */
  predicate Framed(s: string, a: nat, r: string)
  {
    && a + |r| <= |s| && s[a..a + |r|] == r
    && (forall i :: 0 <= i < a ==> IsWhitespace(s[i]))
    && (forall i :: a + |r| <= i < |s| ==> IsWhitespace(s[i]))
  }

  /** `s.trim()`: the slice of `s` left after dropping white space at both ends. */
  function Trim(s: string): (r: string)
    ensures r == "" || (!IsWhitespace(r[0]) && !IsWhitespace(r[|r| - 1]))
    ensures r == "" <==> forall i :: 0 <= i < |s| ==> IsWhitespace(s[i])
    ensures Framed(s, LeadingWhitespace(s), r)
  {
    var a := LeadingWhitespace(s);
    var t := s[a..];
    var b := TrailingWhitespace(t);
    TrimFacts(s, a, b);
    t[..|t| - b]
  }

  lemma TrimFacts(s: string, a: nat, b: nat)
    requires a == LeadingWhitespace(s) && b == TrailingWhitespace(s[a..])
    ensures var r := s[a..][..|s[a..]| - b];
      && (r == "" || (!IsWhitespace(r[0]) && !IsWhitespace(r[|r| - 1])))
      && (r == "" <==> forall i :: 0 <= i < |s| ==> IsWhitespace(s[i]))
      && Framed(s, a, r)
  {
    TrimFramed(s, a, b);
    TrimEnds(s, a, b);
  }

  lemma TrimFramed(s: string, a: nat, b: nat)
    requires a == LeadingWhitespace(s) && b == TrailingWhitespace(s[a..])
    ensures Framed(s, a, s[a..][..|s[a..]| - b])
  {
    var t := s[a..];
    var r := t[..|t| - b];
    assert r == s[a..|s| - b];
    TrimTail(s, a, b);
  }

  /** The trailing white space of the rest is white space of `s`. */
  lemma TrimTail(s: string, a: nat, b: nat)
    requires a == LeadingWhitespace(s) && b == TrailingWhitespace(s[a..])
    ensures forall i :: |s| - b <= i < |s| ==> IsWhitespace(s[i])
  {
    SuffixWhitespace(s, a, b);
  }

  /** White space ending a suffix of `s` ends `s`. */
  lemma SuffixWhitespace(s: string, a: nat, b: nat)
    requires a <= |s| && b <= |s| - a
    requires forall i :: |s| - a - b <= i < |s| - a ==> IsWhitespace(s[a..][i])
    ensures forall i :: |s| - b <= i < |s| ==> IsWhitespace(s[i])
  {
    var t := s[a..];
    forall i | |s| - b <= i < |s|
      ensures IsWhitespace(s[i])
    {
      assert s[i] == t[i - a];
    }
  }

  lemma TrimEnds(s: string, a: nat, b: nat)
    requires a == LeadingWhitespace(s) && b == TrailingWhitespace(s[a..])
    ensures var r := s[a..][..|s[a..]| - b];
      && (r == "" || (!IsWhitespace(r[0]) && !IsWhitespace(r[|r| - 1])))
      && (r == "" <==> forall i :: 0 <= i < |s| ==> IsWhitespace(s[i]))
  {
    var t := s[a..];
    var r := t[..|t| - b];
    if r == "" {
      assert a == |s|;
    } else {
      assert r[0] == s[a];
      assert r[|r| - 1] == t[|t| - 1 - b];
    }
  }

  // ---------------------------------------------------------------------------
  // toUpperCase / toLowerCase (ASCII letters)
  // ---------------------------------------------------------------------------

  function UpperChar(ch: char): char
  {
    if 'a' <= ch <= 'z' then (ch as int - 32) as char else ch
  }

  function LowerChar(ch: char): char
  {
    if 'A' <= ch <= 'Z' then (ch as int + 32) as char else ch
  }

  function ToUpper(s: string): (r: string)
    ensures |r| == |s|
  {
    seq(|s|, i requires 0 <= i < |s| => UpperChar(s[i]))
  }

  function ToLower(s: string): (r: string)
    ensures |r| == |s|
  {
    seq(|s|, i requires 0 <= i < |s| => LowerChar(s[i]))
  }

  /** Upper case shifts exactly the ASCII lower-case letters and lower case
      exactly the upper-case ones, leaving every other character; so upper
      case holds no lower-case letter and lower case no upper-case one, each
      is idempotent, and each undoes the other up to case. */
  lemma CaseMapping(s: string)
    ensures forall i :: 0 <= i < |s| ==> !('a' <= ToUpper(s)[i] <= 'z') && !('A' <= ToLower(s)[i] <= 'Z')
    ensures ToUpper(ToUpper(s)) == ToUpper(s) && ToLower(ToLower(s)) == ToLower(s)
    ensures ToLower(ToUpper(s)) == ToLower(s) && ToUpper(ToLower(s)) == ToUpper(s)
    ensures forall i :: 0 <= i < |s| ==>
      ToUpper(s)[i] == if 'a' <= s[i] <= 'z' then (s[i] as int - 32) as char else s[i]
    ensures forall i :: 0 <= i < |s| ==>
      ToLower(s)[i] == if 'A' <= s[i] <= 'Z' then (s[i] as int + 32) as char else s[i]
  {
    var u, l := ToUpper(s), ToLower(s);
    forall i | 0 <= i < |s|
      ensures ToUpper(u)[i] == u[i] && ToLower(l)[i] == l[i]
      ensures ToLower(u)[i] == l[i] && ToUpper(l)[i] == u[i]
    {
      assert u[i] == UpperChar(s[i]) && l[i] == LowerChar(s[i]);
    }
  }

  // ---------------------------------------------------------------------------
  // Literal patterns: what the source's regular expressions do
  // ---------------------------------------------------------------------------

  /** `pat` occurs in `s` starting at index `k`. */
  predicate StartsAt(s: string, k: nat, pat: string)
  {
    k + |pat| <= |s| && s[k..k + |pat|] == pat
  }

  /** An `open` at `i` and a `close` at `k` frame the text between them. */
  lemma FramedSlice(s: string, i: nat, k: nat, open: string, close: string)
    requires i + |open| <= k
    requires StartsAt(s, i, open) && StartsAt(s, k, close)
    ensures s[i..k + |close|] == open + s[i + |open|..k] + close
  {
    var a, e := i + |open|, k + |close|;
    assert s[i..e] == s[i..a] + s[a..k] + s[k..e];
  }

  /** An occurrence inside a slice is an occurrence in the whole string. */
  lemma StartsAtSlice(s: string, a: nat, b: nat, j: nat, pat: string)
    requires a <= b <= |s|
    requires StartsAt(s[a..b], j, pat)
    ensures StartsAt(s, a + j, pat)
  {
    var t := s[a..b];
    forall k | 0 <= k < |pat|
      ensures s[a + j + k] == pat[k]
    {
      assert t[j..j + |pat|][k] == t[j + k];
    }
    assert s[a + j..a + j + |pat|] == pat;
  }

  /** The lazy `(.*?)close` (or `([\s\S]*?)close` when `dotAll`) starting at
      `from`: the first index at or after `from` where `close` occurs, giving up
      at the end of the string and, unless `dotAll`, at a line terminator. */
  function LazyClose(s: string, close: string, from: nat, dotAll: bool): (r: Option<nat>)
    requires from <= |s|
    ensures r.Some? ==> from <= r.value && r.value + |close| <= |s|
    decreases |s| - from
  {
    if StartsAt(s, from, close) then Some(from)
    else if from == |s| || (!dotAll && IsLineTerminator(s[from])) then None
    else LazyClose(s, close, from + 1, dotAll)
  }

  /** What `LazyClose` finds is an occurrence of `close` with no earlier one
      (and, unless `dotAll`, no line terminator) between `from` and it; it
      finds nothing under `dotAll` only when `close` does not occur again. */
  lemma {:induction false} LazyCloseFirst(s: string, close: string, from: nat, dotAll: bool)
    requires from <= |s|
    ensures LazyClose(s, close, from, dotAll).Some? ==> StartsAt(s, LazyClose(s, close, from, dotAll).value, close)
    ensures LazyClose(s, close, from, dotAll).Some? ==> forall j :: from <= j < LazyClose(s, close, from, dotAll).value ==>
              !StartsAt(s, j, close) && (!dotAll ==> !IsLineTerminator(s[j]))
    ensures LazyClose(s, close, from, dotAll).None? && dotAll ==> forall j :: from <= j <= |s| ==> !StartsAt(s, j, close)
    decreases |s| - from
  {
    if !StartsAt(s, from, close) && from < |s| && (dotAll || !IsLineTerminator(s[from])) {
      LazyCloseFirst(s, close, from + 1, dotAll);
    }
  }

  /** A match of `open(.*?)close` can start at index `j`. */
  predicate MatchesAt(s: string, j: nat, open: string, close: string, dotAll: bool)
  {
    StartsAt(s, j, open) && LazyClose(s, close, j + |open|, dotAll).Some?
  }

  /** The match of `open(.*?)close` found by searching from index `from`: the
      leftmost start where `open` occurs and the lazy body reaches a `close`.
      Gives the start of the match and the index of its `close`. */
  function MatchFrom(s: string, open: string, close: string, from: nat, dotAll: bool): (r: Option<(nat, nat)>)
    requires from <= |s|
    ensures r.Some? ==> from <= r.value.0 && MatchesAt(s, r.value.0, open, close, dotAll)
    ensures r.Some? ==> LazyClose(s, close, r.value.0 + |open|, dotAll) == Some(r.value.1)
    decreases |s| - from
  {
    if MatchesAt(s, from, open, close, dotAll) then
      Some((from, LazyClose(s, close, from + |open|, dotAll).value))
    else if from == |s| then None
    else MatchFrom(s, open, close, from + 1, dotAll)
  }

  /** The match `MatchFrom` finds is the leftmost one, and it finds none only
      when no start position at or after `from` can match. */
  lemma {:induction false} MatchFromLeftmost(s: string, open: string, close: string, from: nat, dotAll: bool)
    requires from <= |s|
    ensures var r := MatchFrom(s, open, close, from, dotAll);
      && (r.Some? ==> forall j :: from <= j < r.value.0 ==> !MatchesAt(s, j, open, close, dotAll))
      && (r.None? ==> forall j :: from <= j <= |s| ==> !MatchesAt(s, j, open, close, dotAll))
    decreases |s| - from
  {
    if !MatchesAt(s, from, open, close, dotAll) && from < |s| {
      MatchFromLeftmost(s, open, close, from + 1, dotAll);
    }
  }

  /** `s.match(/open(.*?)close/)?.[1]`: the text captured by the first match. */
  function FirstCapture(s: string, open: string, close: string): Option<string>
  {
    match MatchFrom(s, open, close, 0, false)
    case None => None
    case Some((i, k)) => Some(s[i + |open|..k])
  }

  /** The captured text stands between an `open` and a `close` in `s`, holds no
      line terminator and no `close`; without an `open` there is no capture. */
  lemma FirstCaptureSpec(s: string, open: string, close: string)
    ensures var r := FirstCapture(s, open, close);
      && (r.Some? ==> exists i :: StartsAt(s, i, open + r.value + close))
      && (r.Some? ==> forall k :: 0 <= k < |r.value| ==> !IsLineTerminator(r.value[k]))
      && (r.Some? ==> forall j :: 0 <= j < |r.value| ==> !StartsAt(r.value, j, close))
      && ((forall i :: 0 <= i <= |s| ==> !StartsAt(s, i, open)) ==> r.None?)
  {
    var m := MatchFrom(s, open, close, 0, false);
    if m.Some? {
      var i, k := m.value.0, m.value.1;
      var a := i + |open|;
      assert MatchesAt(s, i, open, close, false);
      assert a - |open| == i;
      assert FirstCapture(s, open, close) == Some(s[a..k]);
      CaptureFacts(s, open, close, a, k);
    }
  }

  lemma CaptureFacts(s: string, open: string, close: string, a: nat, k: nat)
    requires |open| <= a <= k <= |s|
    requires StartsAt(s, a - |open|, open)
    requires LazyClose(s, close, a, false) == Some(k)
    ensures StartsAt(s, a - |open|, open + s[a..k] + close)
    ensures forall j :: 0 <= j < k - a ==> !IsLineTerminator(s[a..k][j])
    ensures forall j :: 0 <= j < k - a ==> !StartsAt(s[a..k], j, close)
  {
    var i := a - |open|;
    var body := s[a..k];
    LazyCloseFirst(s, close, a, false);
    assert s[i..k + |close|] == open + body + close;
    forall j | 0 <= j < |body| && StartsAt(body, j, close)
      ensures false
    {
      StartsAtSlice(s, a, k, j, close);
    }
    forall j | 0 <= j < |body|
      ensures !IsLineTerminator(body[j])
    {
      assert body[j] == s[a + j];
    }
  }

  /** No line terminator in `s[a..b]`. */
  predicate LineFree(s: string, a: nat, b: nat)
  {
    b <= |s| && forall m :: a <= m < b ==> !IsLineTerminator(s[m])
  }

  /** At `j` there is an `open`, then text on one line, then a `close`: a
      place where `open(.*?)close` can match. */
  ghost predicate OneLineMatchAt(s: string, j: nat, open: string, close: string)
  {
    StartsAt(s, j, open) &&
    (exists k :: j + |open| <= k && StartsAt(s, k, close) && LineFree(s, j + |open|, k))
  }

  /** A `close` reachable from `from` without crossing a line terminator is
      found by the lazy body. */
  lemma {:induction false} LazyCloseComplete(s: string, close: string, from: nat, k: nat)
    requires from <= k && StartsAt(s, k, close) && LineFree(s, from, k)
    ensures LazyClose(s, close, from, false).Some?
    decreases k - from
  {
    if !StartsAt(s, from, close) {
      assert !IsLineTerminator(s[from]);
      LazyCloseComplete(s, close, from + 1, k);
    }
  }

  /** Without dot-all, a match can start at `j` exactly when an `open` there is
      followed on the same line by a `close`. */
  lemma MatchesAtOneLine(s: string, j: nat, open: string, close: string)
    ensures MatchesAt(s, j, open, close, false) <==> OneLineMatchAt(s, j, open, close)
  {
    if MatchesAt(s, j, open, close, false) {
      var a := j + |open|;
      var k := LazyClose(s, close, a, false).value;
      LazyCloseFirst(s, close, a, false);
      assert LineFree(s, a, k);
    }
    if OneLineMatchAt(s, j, open, close) {
      var k :| j + |open| <= k && StartsAt(s, k, close) && LineFree(s, j + |open|, k);
      LazyCloseComplete(s, close, j + |open|, k);
    }
  }

  /** `open + t + close` at `i`, on one line, is a place where a match can start. */
  lemma ElementMatches(s: string, i: nat, open: string, t: string, close: string)
    requires StartsAt(s, i, open + t + close)
    requires forall m :: 0 <= m < |t| ==> !IsLineTerminator(t[m])
    ensures OneLineMatchAt(s, i, open, close)
  {
    var w := open + t + close;
    var a, k := i + |open|, i + |open| + |t|;
    assert s[i..i + |w|] == w;
    assert s[i..a] == w[..|open|] == open;
    assert s[k..k + |close|] == w[|open| + |t|..] == close;
    forall m | a <= m < k
      ensures !IsLineTerminator(s[m])
    {
      assert s[m] == w[m - i] == t[m - a];
    }
    assert StartsAt(s, k, close) && LineFree(s, a, k);
  }

  /** The capture exists exactly when some `open`, one-line text, `close`
      occurs. */
  lemma FirstCaptureFound(s: string, open: string, close: string)
    ensures FirstCapture(s, open, close).Some? <==>
      exists i: nat :: i <= |s| && OneLineMatchAt(s, i, open, close)
  {
    var m := MatchFrom(s, open, close, 0, false);
    MatchFromLeftmost(s, open, close, 0, false);
    if m.None? {
      forall j: nat | j <= |s|
        ensures !OneLineMatchAt(s, j, open, close)
      {
        MatchesAtOneLine(s, j, open, close);
      }
    } else {
      MatchesAtOneLine(s, m.value.0, open, close);
    }
  }

  /** No one-line element starts before the first match. */
  lemma NoOneLineBefore(s: string, open: string, close: string)
    requires MatchFrom(s, open, close, 0, false).Some?
    ensures forall j: nat :: j < MatchFrom(s, open, close, 0, false).value.0 ==> !OneLineMatchAt(s, j, open, close)
  {
    MatchFromLeftmost(s, open, close, 0, false);
    forall j: nat | j < MatchFrom(s, open, close, 0, false).value.0
      ensures !OneLineMatchAt(s, j, open, close)
    {
      MatchesAtOneLine(s, j, open, close);
    }
  }

  /** A match starting at `i` whose body ends at `k` is framed by `open` and
      `close` around `s[i + |open|..k]`. */
  lemma MatchFramed(s: string, open: string, close: string, i: nat, k: nat)
    requires StartsAt(s, i, open) && LazyClose(s, close, i + |open|, false) == Some(k)
    ensures StartsAt(s, i, open + s[i + |open|..k] + close)
  {
    var a := i + |open|;
    assert a - |open| == i;
    CaptureFacts(s, open, close, a, k);
  }

  /** The first match is framed by `open` and `close` around its capture. */
  lemma FirstMatchFramed(s: string, open: string, close: string)
    requires MatchFrom(s, open, close, 0, false).Some?
    ensures FirstCapture(s, open, close).Some?
    ensures StartsAt(s, MatchFrom(s, open, close, 0, false).value.0, open + FirstCapture(s, open, close).value + close)
  {
    var m := MatchFrom(s, open, close, 0, false);
    var i, k := m.value.0, m.value.1;
    assert FirstCapture(s, open, close) == Some(s[i + |open|..k]);
    MatchFramed(s, open, close, i, k);
  }

  /** The capture is the text after the leftmost `open` that a one-line text
      and a `close` follow. */
  lemma FirstCaptureLeftmost(s: string, open: string, close: string)
    requires FirstCapture(s, open, close).Some?
    ensures var t := FirstCapture(s, open, close).value;
      exists i: nat :: (StartsAt(s, i, open + t + close) &&
        forall j: nat :: j < i ==> !OneLineMatchAt(s, j, open, close))
  {
    var i := MatchFrom(s, open, close, 0, false).value.0;
    FirstMatchFramed(s, open, close);
    NoOneLineBefore(s, open, close);
  }

  // ---------------------------------------------------------------------------
  // Keyed collections: first-insertion order
  // ---------------------------------------------------------------------------

  /** The elements of `s` in order of first occurrence, each once: the key
      order of a JavaScript `Map` or array de-duplicated by first insertion. */
  function Distinct<T(==)>(s: seq<T>): seq<T>
  {
    if s == [] then []
    else
      var d := Distinct(s[..|s| - 1]);
      if Last(s) in s[..|s| - 1] then d else d + [Last(s)]
  }

  predicate NoDuplicates<T(==)>(s: seq<T>)
  {
    forall i, j :: 0 <= i < j < |s| ==> s[i] != s[j]
  }

  /** `Distinct` keeps every element once and invents none. */
  lemma {:induction false} DistinctSpec<T>(s: seq<T>)
    ensures NoDuplicates(Distinct(s))
    ensures forall x :: x in Distinct(s) <==> x in s
  {
    if s != [] {
      var p := s[..|s| - 1];
      DistinctSpec(p);
      assert s == p + [Last(s)];
    }
  }

  /** Adding one element at the end keeps the order so far, and appends the
      element only when it is new. */
  lemma DistinctSnoc<T>(s: seq<T>, x: T)
    ensures Distinct(s + [x]) == if x in s then Distinct(s) else Distinct(s) + [x]
  {
    assert (s + [x])[..|s|] == s;
  }
}
