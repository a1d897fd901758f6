/** Reading an Amazon S3 `ListObjectsV2` response (`ListBucketResult`) into
    listed documents, as `parseListObjectsXml` in src/lib/utils.ts does with
    regular expressions. */
module R2Listing {
  import opened Wrappers
  import opened JsStrings

  const R2_BUCKET_NAME := "vm-personal-website"

  /** The public address given to every listed object, whichever transport listed it. */
  function ObjectUrl(key: string): string
  {
    "https://" + R2_BUCKET_NAME + ".r2.cloudflarestorage.com/" + key
  }

  /** A JavaScript number as `parseInt` can return it. */
  datatype ParsedInt = Num(n: int) | NaN

  /** A `Date`: built from a timestamp text, or the moment of the call (`new Date()`). */
  datatype Instant = Parsed(text: string) | CurrentTime

  /** One stored object, as the listing reports it. */
  datatype R2Document = R2Document(key: string, size: ParsedInt, uploaded: Instant, url: string)

  // ---------------------------------------------------------------------------
  // parseInt(text) with no radix argument
  // ---------------------------------------------------------------------------

  predicate IsDigit(ch: char, radix: nat)
  {
    if radix == 16 then '0' <= ch <= '9' || 'a' <= ch <= 'f' || 'A' <= ch <= 'F'
    else '0' <= ch <= '9'
  }

  function DigitValue(ch: char): nat
  {
    if '0' <= ch <= '9' then ch as int - '0' as int
    else if 'a' <= ch <= 'f' then ch as int - 'a' as int + 10
    else if 'A' <= ch <= 'F' then ch as int - 'A' as int + 10
    else 0
  }

  /** Length of the run of digits at the start of `s`. */
  function DigitRun(s: string, radix: nat): (n: nat)
    ensures n <= |s|
    ensures forall i :: 0 <= i < n ==> IsDigit(s[i], radix)
    ensures n < |s| ==> !IsDigit(s[n], radix)
  {
    if |s| == 0 || !IsDigit(s[0], radix) then 0 else 1 + DigitRun(s[1..], radix)
  }

  /** The value of a digit string, most significant digit first. */
  function DigitsValue(ds: string, radix: nat): nat
  {
    if ds == [] then 0 else DigitsValue(ds[..|ds| - 1], radix) * radix + DigitValue(Last(ds))
  }

  /** `parseInt(s)`: skips leading white space, takes an optional sign and an
      optional `0x` prefix (base 16), then reads the longest run of digits;
      no digits at all gives NaN. */
  function ParseInt(s: string): ParsedInt
  {
    ParseSigned(s[LeadingWhitespace(s)..])
  }

  /** `parseInt` after the white space: an optional sign, then the number. */
  function ParseSigned(t: string): ParsedInt
  {
    if |t| > 0 && (t[0] == '-' || t[0] == '+') then ParseUnsigned(t[1..], t[0] == '-')
    else ParseUnsigned(t, false)
  }

  /** `parseInt` after the sign: an optional `0x` prefix, then the longest run
      of digits of that base. */
  function ParseUnsigned(u: string, negative: bool): ParsedInt
  {
    if |u| >= 2 && u[0] == '0' && (u[1] == 'x' || u[1] == 'X') then ReadDigits(u[2..], 16, negative)
    else ReadDigits(u, 10, negative)
  }

  /** The longest run of digits at the start of `v`, negated if `negative`;
      NaN when there is none. */
  function ReadDigits(v: string, radix: nat, negative: bool): ParsedInt
  {
    var n := DigitRun(v, radix);
    if n == 0 then NaN
    else if negative then Num(-(DigitsValue(v[..n], radix) as int))
    else Num(DigitsValue(v[..n], radix))
  }

  /** A run of digits followed by a non-digit is read whole. */
  lemma ReadDigitsPrefix(ds: string, rest: string, radix: nat, negative: bool)
    requires |ds| >= 1 && forall i :: 0 <= i < |ds| ==> IsDigit(ds[i], radix)
    requires rest == [] || !IsDigit(rest[0], radix)
    ensures ReadDigits(ds + rest, radix, negative) ==
      Num(if negative then -(DigitsValue(ds, radix) as int) else DigitsValue(ds, radix))
  {
    DigitRunPrefix(ds, rest, radix);
    ConcatSlices(ds, rest);
  }

  /** The decimal text of `n`, as a `<Size>` element carries it. */
  function DecimalString(n: nat): (r: string)
    ensures |r| >= 1
    ensures forall i :: 0 <= i < |r| ==> '0' <= r[i] <= '9'
    ensures |r| > 1 ==> r[0] != '0'
  {
    var d := ['0' + ((n % 10) as char)];
    if n < 10 then d else DecimalString(n / 10) + d
  }

  lemma {:induction false} DecimalStringValue(n: nat)
    ensures DigitsValue(DecimalString(n), 10) == n
  {
    var r := DecimalString(n);
    if n >= 10 {
      assert r[..|r| - 1] == DecimalString(n / 10);
      DecimalStringValue(n / 10);
    }
  }

  /** `parseInt` reads back the decimal text of every natural number. */
  lemma ParseIntDecimal(n: nat)
    ensures ParseInt(DecimalString(n)) == Num(n)
  {
    var r := DecimalString(n);
    assert LeadingWhitespace(r) == 0;
    assert r[0..] == r;
    assert DigitRun(r, 10) == |r| by {
      DigitRunAll(r, 10);
    }
    assert r[..|r|] == r;
    DecimalStringValue(n);
  }

  lemma {:induction false} DigitRunAll(s: string, radix: nat)
    requires forall i :: 0 <= i < |s| ==> IsDigit(s[i], radix)
    ensures DigitRun(s, radix) == |s|
  {
    if |s| > 0 {
      DigitRunAll(s[1..], radix);
    }
  }

  /** A run of digits followed by a non-digit is read whole. */
  lemma {:induction false} DigitRunPrefix(ds: string, rest: string, radix: nat)
    requires forall i :: 0 <= i < |ds| ==> IsDigit(ds[i], radix)
    requires rest == [] || !IsDigit(rest[0], radix)
    ensures DigitRun(ds + rest, radix) == |ds|
  {
    if ds != [] {
      assert (ds + rest)[1..] == ds[1..] + rest;
      DigitRunPrefix(ds[1..], rest, radix);
    }
  }

  /** The white space skipped in front of text that does not start with white space. */
  lemma {:induction false} LeadingWhitespaceOf(w: string, x: string)
    requires forall i :: 0 <= i < |w| ==> IsWhitespace(w[i])
    requires x == [] || !IsWhitespace(x[0])
    ensures LeadingWhitespace(w + x) == |w|
  {
    if w != [] {
      assert (w + x)[1..] == w[1..] + x;
      LeadingWhitespaceOf(w[1..], x);
    }
  }

  /** `parseInt` skips the white space in front of text that does not start with white space. */
  lemma ParseIntSkip(w: string, x: string)
    requires forall i :: 0 <= i < |w| ==> IsWhitespace(w[i])
    requires x == [] || !IsWhitespace(x[0])
    ensures ParseInt(w + x) == ParseSigned(x)
  {
    LeadingWhitespaceOf(w, x);
    ConcatSlices(w, x);
  }

  /** `parseInt` reads an optional sign in front of text that does not start with one. */
  lemma ParseSignedSign(sign: string, u: string)
    requires sign == "" || sign == "+" || sign == "-"
    requires sign == "" ==> u == [] || (u[0] != '+' && u[0] != '-')
    ensures ParseSigned(sign + u) == ParseUnsigned(u, sign == "-")
  {
    if sign != "" {
      assert (sign + u)[0] == sign[0];
      assert (sign + u)[1..] == u;
    } else {
      assert sign + u == u;
    }
  }

  /** Decimal digits not read as a `0x` prefix give their value, whatever follows them. */
  lemma ParseUnsignedDecimal(ds: string, rest: string, negative: bool)
    requires |ds| >= 1 && forall i :: 0 <= i < |ds| ==> IsDigit(ds[i], 10)
    requires rest == [] || !IsDigit(rest[0], 10)
    requires !(ds == "0" && |rest| > 0 && (rest[0] == 'x' || rest[0] == 'X'))
    ensures ParseUnsigned(ds + rest, negative) ==
      Num(if negative then -(DigitsValue(ds, 10) as int) else DigitsValue(ds, 10))
  {
    var u := ds + rest;
    assert u[0] == ds[0];
    assert !(|u| >= 2 && u[0] == '0' && (u[1] == 'x' || u[1] == 'X')) by {
      if |ds| >= 2 {
        assert u[1] == ds[1];
      } else if |u| >= 2 {
        assert u[1] == rest[0];
      }
    }
    ReadDigitsPrefix(ds, rest, 10, negative);
  }

  /** After `0x` or `0X` the digits are read in base 16. */
  lemma ParseUnsignedHex(u: string, negative: bool)
    requires |u| >= 2 && u[0] == '0' && (u[1] == 'x' || u[1] == 'X')
    ensures ParseUnsigned(u, negative) == ReadDigits(u[2..], 16, negative)
  {
  }

  /** White space and an optional sign in front of the number `u`: what `u`
      gives, negated after `-`. */
  lemma ParseIntPrefixed(w: string, sign: string, u: string)
    requires forall i :: 0 <= i < |w| ==> IsWhitespace(w[i])
    requires sign == "" || sign == "+" || sign == "-"
    requires u == [] || (!IsWhitespace(u[0]) && u[0] != '+' && u[0] != '-')
    ensures ParseInt(w + sign + u) == ParseUnsigned(u, sign == "-")
  {
    ConcatAssoc(w, sign, u);
    assert sign + u == [] || (sign + u)[0] == if sign == "" then u[0] else sign[0];
    ParseIntSkip(w, sign + u);
    ParseSignedSign(sign, u);
  }

  /** White space, a sign, then decimal digits not read as a `0x` prefix: the
      value of the digits, negated after `-`, whatever follows them. */
  lemma ParseIntDigits(w: string, sign: string, ds: string, rest: string)
    requires forall i :: 0 <= i < |w| ==> IsWhitespace(w[i])
    requires sign == "" || sign == "+" || sign == "-"
    requires |ds| >= 1 && forall i :: 0 <= i < |ds| ==> IsDigit(ds[i], 10)
    requires rest == [] || !IsDigit(rest[0], 10)
    requires !(ds == "0" && |rest| > 0 && (rest[0] == 'x' || rest[0] == 'X'))
    ensures ParseInt(w + sign + ds + rest) ==
      Num(if sign == "-" then -(DigitsValue(ds, 10) as int) else DigitsValue(ds, 10))
  {
    ConcatAssoc(w + sign, ds, rest);
    assert (ds + rest)[0] == ds[0];
    ParseIntPrefixed(w, sign, ds + rest);
    ParseUnsignedDecimal(ds, rest, sign == "-");
  }

  /** White space, a sign, then `0x` or `0X` and hexadecimal digits: the
      value of those digits, negated after `-`, whatever follows them. */
  lemma ParseIntHex(w: string, sign: string, hd: string, rest: string)
    requires forall i :: 0 <= i < |w| ==> IsWhitespace(w[i])
    requires sign == "" || sign == "+" || sign == "-"
    requires |hd| >= 3 && hd[0] == '0' && (hd[1] == 'x' || hd[1] == 'X')
    requires forall i :: 2 <= i < |hd| ==> IsDigit(hd[i], 16)
    requires rest == [] || !IsDigit(rest[0], 16)
    ensures ParseInt(w + sign + hd + rest) ==
      Num(if sign == "-" then -(DigitsValue(hd[2..], 16) as int) else DigitsValue(hd[2..], 16))
  {
    var u, negative := hd + rest, sign == "-";
    ConcatAssoc(w + sign, hd, rest);
    assert u[0] == '0' && u[1] == hd[1];
    ParseIntPrefixed(w, sign, u);
    ParseUnsignedHex(u, negative);
    DropConcat(hd, rest, 2);
    ReadDigitsPrefix(hd[2..], rest, 16, negative);
  }

  /** White space and a sign with no digit after them: NaN. */
  lemma ParseIntNoDigits(w: string, sign: string, rest: string)
    requires forall i :: 0 <= i < |w| ==> IsWhitespace(w[i])
    requires sign == "" || sign == "+" || sign == "-"
    requires rest == [] || (!IsDigit(rest[0], 10) && !IsWhitespace(rest[0]) && rest[0] != '+' && rest[0] != '-')
    ensures ParseInt(w + sign + rest) == NaN
  {
    ParseIntPrefixed(w, sign, rest);
  }

  /** White space, a sign and a `0x` or `0X` prefix with no hexadecimal digit
      after it: NaN. */
  lemma ParseIntHexNoDigits(w: string, sign: string, x: char, rest: string)
    requires forall i :: 0 <= i < |w| ==> IsWhitespace(w[i])
    requires sign == "" || sign == "+" || sign == "-"
    requires x == 'x' || x == 'X'
    requires rest == [] || !IsDigit(rest[0], 16)
    ensures ParseInt(w + sign + ['0', x] + rest) == NaN
  {
    var u := ['0', x] + rest;
    ConcatAssoc(w + sign, ['0', x], rest);
    assert u[0] == '0' && u[1] == x;
    ParseIntPrefixed(w, sign, u);
    ParseUnsignedHex(u, sign == "-");
    assert u[2..] == rest;
  }

  // ---------------------------------------------------------------------------
  // The <Contents> blocks of a ListBucketResult
  // ---------------------------------------------------------------------------

  const CONTENTS_OPEN := "<Contents>"
  const CONTENTS_CLOSE := "</Contents>"

  /** One call of `/<Contents>([\s\S]*?)<\/Contents>/g.exec(xml)` with
      `lastIndex == pos`: the captured block and the new `lastIndex`. */
  function NextContents(xml: string, pos: nat): (r: Option<(string, nat)>)
    requires pos <= |xml|
    ensures r.Some? ==> pos < r.value.1 <= |xml|
  {
    match MatchFrom(xml, CONTENTS_OPEN, CONTENTS_CLOSE, pos, true)
    case None => None
    case Some((i, k)) => Some((xml[i + |CONTENTS_OPEN|..k], k + |CONTENTS_CLOSE|))
  }

  /** A block is the text strictly between a `<Contents>` and the first
      `</Contents>` after it, and the scan resumes right after that tag. */
  lemma ContentsBlockDelimited(xml: string, pos: nat)
    requires pos <= |xml|
    requires NextContents(xml, pos).Some?
    ensures var (body, end) := NextContents(xml, pos).value;
      && end >= |CONTENTS_OPEN| + |body| + |CONTENTS_CLOSE|
      && StartsAt(xml, end - |CONTENTS_CLOSE| - |body| - |CONTENTS_OPEN|, CONTENTS_OPEN + body + CONTENTS_CLOSE)
      && pos <= end - |CONTENTS_CLOSE| - |body| - |CONTENTS_OPEN|
      && forall j :: 0 <= j < |body| ==> !StartsAt(body, j, CONTENTS_CLOSE)
  {
    var (i, k) := MatchFrom(xml, CONTENTS_OPEN, CONTENTS_CLOSE, pos, true).value;
    var a := i + |CONTENTS_OPEN|;
    var body := xml[a..k];
    LazyCloseFirst(xml, CONTENTS_CLOSE, a, true);
    FramedSlice(xml, i, k, CONTENTS_OPEN, CONTENTS_CLOSE);
    var end := k + |CONTENTS_CLOSE|;
    assert end - |CONTENTS_CLOSE| - |body| - |CONTENTS_OPEN| == i;
    assert StartsAt(xml, i, CONTENTS_OPEN + body + CONTENTS_CLOSE);
    forall j | 0 <= j < |body| && StartsAt(body, j, CONTENTS_CLOSE)
      ensures false
    {
      StartsAtSlice(xml, a, k, j, CONTENTS_CLOSE);
    }
  }

  /** The scan stops only when no `<Contents>` at or after `pos` is ever closed. */
  lemma ContentsScanEnd(xml: string, pos: nat)
    requires pos <= |xml|
    requires NextContents(xml, pos).None?
    ensures forall i :: pos <= i <= |xml| && StartsAt(xml, i, CONTENTS_OPEN) ==>
      forall j :: i + |CONTENTS_OPEN| <= j <= |xml| ==> !StartsAt(xml, j, CONTENTS_CLOSE)
  {
    MatchFromLeftmost(xml, CONTENTS_OPEN, CONTENTS_CLOSE, pos, true);
    forall i | pos <= i <= |xml| && StartsAt(xml, i, CONTENTS_OPEN)
      ensures forall j :: i + |CONTENTS_OPEN| <= j <= |xml| ==> !StartsAt(xml, j, CONTENTS_CLOSE)
    {
      assert !MatchesAt(xml, i, CONTENTS_OPEN, CONTENTS_CLOSE, true);
      LazyCloseFirst(xml, CONTENTS_CLOSE, i + |CONTENTS_OPEN|, true);
    }
  }

  /** The blocks that repeated `exec` calls capture from `pos` on, in order. */
  function Blocks(xml: string, pos: nat): seq<string>
    requires pos <= |xml|
    decreases |xml| - pos
  {
    match NextContents(xml, pos)
    case None => []
    case Some((body, end)) => [body] + Blocks(xml, end)
  }

  // ---------------------------------------------------------------------------
  // One block to one document
  // ---------------------------------------------------------------------------

  /** The document a block yields: none without a `<Key>`; the size is 0 when
      there is no `<Size>`, and the upload time is the current time when there
      is no `<LastModified>`. */
  function BlockDocument(block: string): (r: Option<R2Document>)
  {
    match FirstCapture(block, "<Key>", "</Key>")
    case None => None
    case Some(key) =>
      var size := match FirstCapture(block, "<Size>", "</Size>")
        case None => Num(0)
        case Some(text) => ParseInt(text);
      var uploaded := match FirstCapture(block, "<LastModified>", "</LastModified>")
        case None => CurrentTime
        case Some(text) => Parsed(text);
      Some(R2Document(key, size, uploaded, ObjectUrl(key)))
  }

  /** A block yields a document exactly when it has a `<Key>` element on one
      line; the key is the text of the leftmost such element, cut at the
      first `</Key>` after it. */
  lemma BlockKeyFound(block: string)
    ensures BlockDocument(block).Some? <==>
      exists i: nat :: i <= |block| && OneLineMatchAt(block, i, "<Key>", "</Key>")
    ensures BlockDocument(block).Some? ==>
      var key := BlockDocument(block).value.key;
      exists i: nat :: (StartsAt(block, i, "<Key>" + key + "</Key>") &&
        forall j: nat :: j < i ==> !OneLineMatchAt(block, j, "<Key>", "</Key>"))
  {
    FirstCaptureFound(block, "<Key>", "</Key>");
    if BlockDocument(block).Some? {
      FirstCaptureLeftmost(block, "<Key>", "</Key>");
    }
  }

  /** Every block holding `<Key>t</Key>` with `t` on one line yields a document. */
  lemma KeyElementYields(block: string, i: nat, t: string)
    requires StartsAt(block, i, "<Key>" + t + "</Key>")
    requires forall m :: 0 <= m < |t| ==> !IsLineTerminator(t[m])
    ensures BlockDocument(block).Some?
  {
    ElementMatches(block, i, "<Key>", t, "</Key>");
    BlockKeyFound(block);
  }

  /** The key never spans a line break and holds no `</Key>`; the address is
      the key's public address; a missing `<Size>` gives size 0 and a missing
      `<LastModified>` the current time. */
  lemma BlockDocumentFields(block: string)
    ensures var r := BlockDocument(block);
      && (r.Some? <==> FirstCapture(block, "<Key>", "</Key>").Some?)
      && (r.Some? ==> forall k :: 0 <= k < |r.value.key| ==> !IsLineTerminator(r.value.key[k]))
      && (r.Some? ==> forall j :: 0 <= j < |r.value.key| ==> !StartsAt(r.value.key, j, "</Key>"))
      && (r.Some? ==> r.value.url == ObjectUrl(r.value.key))
      && (r.Some? && FirstCapture(block, "<Size>", "</Size>").None? ==> r.value.size == Num(0))
      && (r.Some? && FirstCapture(block, "<LastModified>", "</LastModified>").None? ==>
            r.value.uploaded == CurrentTime)
  {
    FirstCaptureSpec(block, "<Key>", "</Key>");
  }

  /** The defined results of `f` over `xs`, in order. */
  function Collect<T, U>(f: T -> Option<U>, xs: seq<T>): seq<U>
  {
    if xs == [] then [] else Present(f(xs[0])) + Collect(f, xs[1..])
  }

  function Present<U>(o: Option<U>): seq<U>
  {
    match o
    case None => []
    case Some(u) => [u]
  }

  /** The indices, from `from` on, at which `f` is defined. */
  function Hits<T, U>(f: T -> Option<U>, xs: seq<T>, from: nat): seq<nat>
    requires from <= |xs|
    decreases |xs| - from
  {
    if from == |xs| then []
    else (if f(xs[from]).Some? then [from] else []) + Hits(f, xs, from + 1)
  }

  /** One step of `Collect` and `Hits` from `from`. */
  lemma CollectStep<T, U>(f: T -> Option<U>, xs: seq<T>, from: nat)
    requires from < |xs|
    ensures Collect(f, xs[from..]) == Present(f(xs[from])) + Collect(f, xs[from + 1..])
    ensures Hits(f, xs, from) == (if f(xs[from]).Some? then [from] else []) + Hits(f, xs, from + 1)
  {
    assert xs[from..][0] == xs[from];
    assert xs[from..][1..] == xs[from + 1..];
  }

  /** `Collect` over a sequence with a first element. */
  lemma CollectCons<T, U>(f: T -> Option<U>, x: T, xs: seq<T>)
    ensures Collect(f, [x] + xs) == Present(f(x)) + Collect(f, xs)
  {
    assert ([x] + xs)[1..] == xs;
  }

  /** The hits are increasing indices from `from` on at which `f` is defined,
      and there is one result per hit. */
  lemma {:induction false} HitsOrdered<T, U>(f: T -> Option<U>, xs: seq<T>, from: nat)
    requires from <= |xs|
    ensures var idx := Hits(f, xs, from);
      && |Collect(f, xs[from..])| == |idx| <= |xs| - from
      && (forall j :: 0 <= j < |idx| ==> from <= idx[j] < |xs|)
      && (forall j, k :: 0 <= j < k < |idx| ==> idx[j] < idx[k])
    decreases |xs| - from
  {
    if from < |xs| {
      HitsOrdered(f, xs, from + 1);
      CollectStep(f, xs, from);
    }
  }

  /** An index from `from` on is a hit exactly when `f` is defined there. */
  lemma {:induction false} HitsComplete<T, U>(f: T -> Option<U>, xs: seq<T>, from: nat)
    requires from <= |xs|
    ensures forall i :: from <= i < |xs| ==> (f(xs[i]).Some? <==> i in Hits(f, xs, from))
    decreases |xs| - from
  {
    if from < |xs| {
      HitsComplete(f, xs, from + 1);
      HitsOrdered(f, xs, from + 1);
      CollectStep(f, xs, from);
    }
  }

  /** The `j`-th result is the value of `f` at the `j`-th hit. */
  lemma {:induction false} CollectAtHits<T, U>(f: T -> Option<U>, xs: seq<T>, from: nat)
    requires from <= |xs|
    ensures var ys, idx := Collect(f, xs[from..]), Hits(f, xs, from);
      |ys| == |idx| && forall j :: 0 <= j < |idx| ==> idx[j] < |xs| && f(xs[idx[j]]) == Some(ys[j])
    decreases |xs| - from
  {
    HitsOrdered(f, xs, from);
    if from < |xs| {
      CollectAtHits(f, xs, from + 1);
      CollectStep(f, xs, from);
      var ysRest, idxRest := Collect(f, xs[from + 1..]), Hits(f, xs, from + 1);
      var ys, idx := Collect(f, xs[from..]), Hits(f, xs, from);
      if f(xs[from]).Some? {
        forall j | 0 <= j < |idx|
          ensures idx[j] < |xs| && f(xs[idx[j]]) == Some(ys[j])
        {
          if j > 0 {
            assert idx[j] == idxRest[j - 1] && ys[j] == ysRest[j - 1];
          }
        }
      } else {
        assert ys == ysRest;
        assert idx == idxRest;
      }
    }
  }

  /** The documents of a sequence of blocks, in block order. */
  function DocumentsOf(blocks: seq<string>): seq<R2Document>
  {
    Collect(BlockDocument, blocks)
  }

  /** What one block adds to the result: its document, if it has one. */
  function Yield(block: string): seq<R2Document>
  {
    Present(BlockDocument(block))
  }

  /** What `parseListObjectsXml` returns for `xml`. */
  function ListingDocuments(xml: string): seq<R2Document>
  {
    DocumentsOf(Blocks(xml, 0))
  }

  /** Indices, from `from` on, of the blocks that carry a `<Key>`. */
  function KeyedFrom(blocks: seq<string>, from: nat): seq<nat>
    requires from <= |blocks|
  {
    Hits(BlockDocument, blocks, from)
  }

  /** Exactly one document per keyed block, in block order: the documents are
      the keyed blocks' documents taken at increasing block indices, and every
      keyed block is among them. */
  lemma DocumentsOfKeyedBlocks(blocks: seq<string>, from: nat)
    requires from <= |blocks|
    ensures var docs, idx := DocumentsOf(blocks[from..]), KeyedFrom(blocks, from);
      && |docs| == |idx| <= |blocks| - from
      && (forall j :: 0 <= j < |idx| ==> from <= idx[j] < |blocks| && BlockDocument(blocks[idx[j]]) == Some(docs[j]))
      && (forall j, k :: 0 <= j < k < |idx| ==> idx[j] < idx[k])
      && (forall i :: from <= i < |blocks| ==> (BlockDocument(blocks[i]).Some? <==> i in idx))
  {
    HitsOrdered(BlockDocument, blocks, from);
    HitsComplete(BlockDocument, blocks, from);
    CollectAtHits(BlockDocument, blocks, from);
  }

  /** Every document's address is the bucket's public address of its key. */
  lemma {:induction false} DocumentsOfUrls(blocks: seq<string>)
    ensures forall d :: d in DocumentsOf(blocks) ==> d.url == ObjectUrl(d.key)
  {
    if blocks != [] {
      DocumentsOfUrls(blocks[1..]);
    }
  }

  /** The documents still to come from `pos` on: those of the block found
      there, then those of the rest. */
  lemma ListingStep(xml: string, pos: nat, done: seq<R2Document>)
    requires pos <= |xml|
    ensures NextContents(xml, pos).None? ==> done + DocumentsOf(Blocks(xml, pos)) == done
    ensures NextContents(xml, pos).Some? ==>
      done + DocumentsOf(Blocks(xml, pos)) ==
        (done + Yield(NextContents(xml, pos).value.0)) + DocumentsOf(Blocks(xml, NextContents(xml, pos).value.1))
  {
    var next := NextContents(xml, pos);
    if next.None? {
      assert Blocks(xml, pos) == [];
      assert done + [] == done;
    } else {
      var body, end := next.value.0, next.value.1;
      var rest := Blocks(xml, end);
      assert Blocks(xml, pos) == [body] + rest;
      CollectCons(BlockDocument, body, rest);
      ConcatAssoc(done, Yield(body), DocumentsOf(rest));
    }
  }

  /** At most one document per block, each with its public address. */
  lemma ListingBounds(xml: string)
    ensures |ListingDocuments(xml)| <= |Blocks(xml, 0)|
    ensures forall d :: d in ListingDocuments(xml) ==> d.url == ObjectUrl(d.key)
  {
    DocumentsOfKeyedBlocks(Blocks(xml, 0), 0);
    assert Blocks(xml, 0)[0..] == Blocks(xml, 0);
    DocumentsOfUrls(Blocks(xml, 0));
  }

  /** `parseListObjectsXml`: repeats the `<Contents>` search from the last
      match's end until it fails, appending the document of every block
      that has a key. */
  method ParseListObjectsXml(xmlText: string) returns (documents: seq<R2Document>)
    ensures documents == ListingDocuments(xmlText)
  {
    documents := [];
    var lastIndex := 0;
    var m := NextContents(xmlText, lastIndex);
    while m.Some?
      invariant lastIndex <= |xmlText|
      invariant m == NextContents(xmlText, lastIndex)
      invariant documents + DocumentsOf(Blocks(xmlText, lastIndex)) == ListingDocuments(xmlText)
      decreases |xmlText| - lastIndex
    {
      var contentXml, end := m.value.0, m.value.1;
      ListingStep(xmlText, lastIndex, documents);
      ghost var before := documents;
      var doc := BlockDocument(contentXml);
      if doc.Some? {
        documents := documents + [doc.value];
      }
      assert documents == before + Yield(contentXml);
      lastIndex := end;
      m := NextContents(xmlText, lastIndex);
    }
    ListingStep(xmlText, lastIndex, documents);
  }
}
