/**
 The framing loop that collects one request from the chunks a connection delivers, and why the
 split into chunks does not matter.
 */
module Framing {
  import opened Prelude
  import opened Text
  import opened Http

  const LENGTH: Bytes := "Content-Length:"
  const LENGTH_LOWER: Bytes := "content-length:"
  const MAX_CHUNKS: nat := 100
  const SIZE: nat := 0x1_0000_0000_0000_0000

  // ----- std::stoull -----

  predicate IsDigit(c: Byte) { '0' <= c <= '9' }

  predicate IsSpace(c: Byte) { c == ' ' || '\t' <= c <= '\r' }

  function SkipSpaces(s: Bytes): Bytes {
    if s != [] && IsSpace(s[0]) then SkipSpaces(s[1..]) else s
  }

  /** The leading digits. */
  function Digits(s: Bytes): Bytes {
    if s != [] && IsDigit(s[0]) then [s[0]] + Digits(s[1..]) else []
  }

  function Number(digits: Bytes): nat
    requires forall k :: 0 <= k < |digits| ==> IsDigit(digits[k])
  {
    if digits == [] then 0
    else
      assert IsDigit(digits[|digits| - 1]);
      Number(digits[..|digits| - 1]) * 10 + (digits[|digits| - 1] as int - '0' as int)
  }

  lemma {:induction false} DigitsAreDigits(s: Bytes)
    ensures forall k :: 0 <= k < |Digits(s)| ==> IsDigit(Digits(s)[k])
    decreases |s|
  {
    if s != [] && IsDigit(s[0]) { DigitsAreDigits(s[1..]); }
  }

  /** The value of a header as the source reads it: an unsigned 64-bit number with optional white
      space and sign, a minus sign wrapping around; 0 if there is no number or it is too large. */
  function Stoull(s: Bytes): (n: nat)
    ensures n < SIZE
  {
    var t := SkipSpaces(s);
    var unsigned := if t != [] && (t[0] == '-' || t[0] == '+') then t[1..] else t;
    DigitsAreDigits(unsigned);
    var n := Number(Digits(unsigned));
    if n >= SIZE then 0
    else if t != [] && t[0] == '-' then (SIZE - n) % SIZE
    else n
  }

  // ----- the loop's test -----

  /** Whether the loop stops, reads on, or runs off the end of the string (an exception). */
  datatype Verdict = Stop | ReadOn | OutOfRange

  /** The first length header, in the one spelling or else in the other, wherever it is. */
  function LengthAt(raw: Bytes): Option<nat> {
    if Find(raw, LENGTH, 0).Some? then Find(raw, LENGTH, 0) else Find(raw, LENGTH_LOWER, 0)
  }

  /** The length a header at this position gives; a missing or early line end makes the rest of the
      string the value. */
  function LengthValue(raw: Bytes, at: nat): (n: nat)
    requires at + 16 <= |raw|
    ensures n < SIZE
  {
    var end := Find(raw, CRLF, at);
    Stoull(if end.Some? && at + 16 <= end.value then raw[at + 16..end.value] else raw[at + 16..])
  }

  function Check(raw: Bytes): Verdict {
    match Find(raw, BLANK, 0)
    case None => ReadOn
    case Some(headerEnd) =>
      match LengthAt(raw)
      case None => Stop
      case Some(at) =>
        if |raw| < at + 16 then OutOfRange
        else if |raw| >= (headerEnd + 4 + LengthValue(raw, at)) % SIZE then Stop
        else ReadOn
  }

  function Concat(chunks: seq<Bytes>): Bytes {
    if chunks == [] then [] else Concat(chunks[..|chunks| - 1]) + chunks[|chunks| - 1]
  }

  lemma ConcatNothing(chunks: seq<Bytes>)
    ensures Concat(chunks[..0]) == []
  {
  }

  lemma ConcatNext(chunks: seq<Bytes>, n: nat)
    requires n < |chunks|
    ensures Concat(chunks[..n + 1]) == Concat(chunks[..n]) + chunks[n]
  {
    assert chunks[..n + 1][..n] == chunks[..n];
  }

  /** Every chunk the connection delivers is non-empty; an empty one is its end. */
  ghost predicate NonEmpty(chunks: seq<Bytes>) { forall k :: 0 <= k < |chunks| ==> chunks[k] != [] }

  /** How many chunks the loop takes: up to the first after which it does not read on, or all of them,
      or the limit. */
  ghost predicate Takes(chunks: seq<Bytes>, n: nat) {
    && n <= |chunks| && n <= 100
    && (forall k :: 0 < k < n ==> Check(Concat(chunks[..k])) == ReadOn)
    && (n == |chunks| || n == 100 || (n > 0 && Check(Concat(chunks[..n])) != ReadOn))
  }

  /** The test's three outcomes. */
  lemma CheckMeans(raw: Bytes)
    ensures Framed(raw) && Needed(raw) < SIZE ==> Check(raw) == if Needed(raw) <= |raw| then Stop else ReadOn
    ensures Check(raw) == OutOfRange <==>
              Find(raw, BLANK, 0).Some? && LengthAt(raw).Some? && |raw| == LengthAt(raw).value + 15
  {
    hide Find, LengthValue, Framed, Needed, LengthAt;
    LengthEndsBefore(raw);
    if Framed(raw) && Needed(raw) < SIZE {
      assert raw[..|raw|] == raw;
      CheckOnPrefix(raw, |raw|);
    }
  }

  lemma LengthEndsBefore(raw: Bytes)
    ensures LengthAt(raw).Some? ==> LengthAt(raw).value + 15 <= |raw|
  {
    hide Find;
  }

  /** The test inside the framing loop. On a framed request it stops exactly when what the headers ask
      for is there; it fails exactly when the name of the length header is the last thing received. */
  method Examine(request: Bytes) returns (v: Verdict)
    ensures v == Check(request)
    ensures Framed(request) && Needed(request) < SIZE ==>
              v == if Needed(request) <= |request| then Stop else ReadOn
    ensures v == OutOfRange <==>
              Find(request, BLANK, 0).Some? && LengthAt(request).Some? && |request| == LengthAt(request).value + 15
  {
    hide Find, MatchAt, LengthValue, Framed, Needed;
    CheckMeans(request);
    var headerEnd := Find(request, BLANK, 0);
    if headerEnd.None? { return ReadOn; }
    var at := Find(request, LENGTH, 0);
    if at.None? { at := Find(request, LENGTH_LOWER, 0); }
    if at.None? { return Stop; }
    if |request| < at.value + 16 { return OutOfRange; }
    var length := LengthValue(request, at.value);
    var bodyStart := headerEnd.value + 4;
    if |request| >= (bodyStart + length) % SIZE { return Stop; }
    return ReadOn;
  }

  /** The framing loop; nothing is returned if it runs off the end. */
  method Collect(chunks: seq<Bytes>) returns (raw: Option<Bytes>, n: nat)
    requires NonEmpty(chunks)
    ensures Takes(chunks, n)
    ensures raw == if n > 0 && Check(Concat(chunks[..n])) == OutOfRange then None else Some(Concat(chunks[..n]))
  {
    hide Check, Concat;
    ConcatNothing(chunks);
    var request: Bytes := [];
    n := 0;
    for i := 0 to MAX_CHUNKS
      invariant n == i <= |chunks| && request == Concat(chunks[..n])
      invariant forall k :: 0 < k <= n ==> Check(Concat(chunks[..k])) == ReadOn
    {
      var chunk := if i < |chunks| then chunks[i] else [];
      if |chunk| == 0 { break; }
      ConcatNext(chunks, n);
      request := request + chunk;
      n := n + 1;
      var v := Examine(request);
      if v == OutOfRange { return None, n; }
      if v == Stop { break; }
    }
    raw := Some(request);
  }

  // ----- what a complete request needs -----

  /** The length header, if there is any, lies within the headers, with its value on its line. */
  ghost predicate Framed(raw: Bytes) {
    && Find(raw, BLANK, 0).Some?
    && (LengthAt(raw).Some? ==>
          var at := LengthAt(raw).value;
          Find(raw, CRLF, at).Some? && at + 16 <= Find(raw, CRLF, at).value <= Find(raw, BLANK, 0).value)
  }

  /** The bytes the headers ask for. */
  ghost function Needed(raw: Bytes): nat
    requires Framed(raw)
  {
    var bodyStart := Find(raw, BLANK, 0).value + 4;
    match LengthAt(raw)
    case None => bodyStart
    case Some(at) => bodyStart + Stoull(raw[at + 16..Find(raw, CRLF, at).value])
  }

  lemma LengthInPrefix(raw: Bytes, k: nat)
    requires Framed(raw) && Find(raw, BLANK, 0).value + 4 <= k <= |raw|
    ensures LengthAt(raw[..k]) == LengthAt(raw)
    ensures LengthAt(raw).Some? ==> Find(raw[..k], CRLF, LengthAt(raw).value) == Find(raw, CRLF, LengthAt(raw).value)
  {
    FindInPrefix(raw, LENGTH, k, 0);
    FindInPrefix(raw, LENGTH_LOWER, k, 0);
    if LengthAt(raw).Some? { FindInPrefix(raw, CRLF, k, LengthAt(raw).value); }
    hide Find, MatchAt;
  }

  /** The loop's test, once the headers' end and the length are known. */
  lemma CheckIs(raw: Bytes, headerEnd: nat, length: Option<nat>)
    requires Find(raw, BLANK, 0) == Some(headerEnd)
    requires match length
             case None => LengthAt(raw).None?
             case Some(n) =>
               && LengthAt(raw).Some? && LengthAt(raw).value + 16 <= |raw|
               && LengthValue(raw, LengthAt(raw).value) == n
    requires length.Some? ==> headerEnd + 4 + length.value < SIZE
    ensures Check(raw) == if length.None? || headerEnd + 4 + length.value <= |raw| then Stop else ReadOn
  {
    hide Find, LengthAt, LengthValue;
    if length.Some? { NoWrap(headerEnd + 4 + length.value); }
  }

  lemma NoWrap(n: nat)
    requires n < SIZE
    ensures n % SIZE == n
  {
  }

  /** The loop's test on any beginning of a request: it stops as soon as what the headers ask for is
      there, and not before. */
  lemma CheckOnPrefix(raw: Bytes, k: nat)
    requires Framed(raw) && k <= |raw| && Needed(raw) < SIZE
    ensures Check(raw[..k]) == if Needed(raw) <= k then Stop else ReadOn
  {
    FindInPrefix(raw, BLANK, k, 0);
    var headerEnd := Find(raw, BLANK, 0).value;
    if headerEnd + 4 <= k {
      LengthInPrefix(raw, k);
      if LengthAt(raw).Some? {
        var at := LengthAt(raw).value;
        ValueInPrefix(raw, k, at);
        hide Find, LengthAt, LengthValue, Stoull, Check;
        CheckIs(raw[..k], headerEnd, Some(Stoull(raw[at + 16..Find(raw, CRLF, at).value])));
      } else {
        hide Find, LengthAt, Check;
        CheckIs(raw[..k], headerEnd, None);
      }
    } else {
      hide Find, LengthAt;
    }
  }

  lemma ValueInPrefix(raw: Bytes, k: nat, at: nat)
    requires k <= |raw| && Find(raw[..k], CRLF, at) == Find(raw, CRLF, at)
    requires Find(raw, CRLF, at).Some? && at + 16 <= Find(raw, CRLF, at).value <= k
    ensures LengthValue(raw[..k], at) == Stoull(raw[at + 16..Find(raw, CRLF, at).value])
  {
    hide Find, Stoull;
    var end := Find(raw, CRLF, at).value;
    assert raw[..k][at + 16..end] == raw[at + 16..end];
  }

  // ----- chunks -----

  lemma {:induction false} ConcatPrefix(chunks: seq<Bytes>, n: nat)
    requires n <= |chunks| && NonEmpty(chunks)
    ensures |Concat(chunks[..n])| <= |Concat(chunks)| && Concat(chunks)[..|Concat(chunks[..n])|] == Concat(chunks[..n])
    ensures n < |chunks| ==> |Concat(chunks[..n])| < |Concat(chunks)|
    decreases |chunks|
  {
    if n == |chunks| { assert chunks[..n] == chunks; }
    else {
      var front := chunks[..|chunks| - 1];
      assert front[..n] == chunks[..n];
      ConcatPrefix(front, n);
    }
  }

  /** The first length header lies in the headers. */
  ghost predicate LengthInHead(raw: Bytes)
    requires Find(raw, BLANK, 0).Some?
  {
    LengthAt(raw).Some? && LengthAt(raw).value + 15 <= Find(raw, BLANK, 0).value
  }

  /** What the headers alone, with the blank line, say is the length; the value may reach into the next
      header line if its own line is empty. */
  ghost function HeadValue(raw: Bytes): nat
    requires Find(raw, BLANK, 0).Some? && LengthInHead(raw)
  {
    var headerEnd := Find(raw, BLANK, 0).value;
    LengthValue(raw[..headerEnd + 4], LengthAt(raw).value)
  }

  /** The size at which the loop stops. */
  ghost function Asked(raw: Bytes): nat
    requires Find(raw, BLANK, 0).Some? && LengthInHead(raw)
  {
    (Find(raw, BLANK, 0).value + 4 + HeadValue(raw)) % SIZE
  }

  /** There is no blank line, or nothing after it, or the first length header is in the headers and
      gives at least what follows. */
  ghost predicate Whole(raw: Bytes) {
    match Find(raw, BLANK, 0)
    case None => true
    case Some(headerEnd) => |raw| == headerEnd + 4 || (LengthInHead(raw) && |raw| <= Asked(raw))
  }

  // ----- names and line ends do not overlap -----

  lemma NotAcross(raw: Bytes, name: Bytes, p: nat, h: nat)
    requires OneLine(name) && name != [] && MatchAt(raw, name, p) && MatchAt(raw, BLANK, h)
    ensures p + |name| <= h || h + 4 <= p
  {
    if p < h + 4 && h < p + |name| {
      var j := if p < h then h else p;
      ByteOfMatch(raw, BLANK, h, j);
      ByteOfMatch(raw, name, p, j);
    }
  }

  lemma ByteOfMatch(raw: Bytes, pattern: Bytes, p: nat, j: nat)
    requires MatchAt(raw, pattern, p) && p <= j < p + |pattern|
    ensures raw[j] == pattern[j - p] && raw[j] in pattern
  {
    assert raw[j] == raw[p..p + |pattern|][j - p];
  }

  lemma NamesAreOneLine()
    ensures OneLine(LENGTH) && OneLine(LENGTH_LOWER) && |LENGTH| == 15 && |LENGTH_LOWER| == 15
  {
  }

  /** Where the line of a header in the head ends, in any beginning that has the head. */
  lemma EndInHead(raw: Bytes, h: nat, at: nat, k: nat)
    requires Find(raw, BLANK, 0) == Some(h) && at <= h && h + 4 <= k <= |raw|
    ensures Find(raw[..k], CRLF, at) == Find(raw, CRLF, at)
    ensures Find(raw, CRLF, at).Some? && Find(raw, CRLF, at).value <= h
  {
    hide MatchAt, Find;
    FindMeans(raw, BLANK, 0);
    FindMeans(raw, CRLF, at);
    LineEndsAtBlank(raw, h);
    FindInPrefix(raw, CRLF, k, at);
  }

  lemma LineEndsAtBlank(raw: Bytes, h: nat)
    requires MatchAt(raw, BLANK, h)
    ensures MatchAt(raw, CRLF, h) && h + 4 <= |raw|
  {
    ByteOfMatch(raw, BLANK, h, h);
    ByteOfMatch(raw, BLANK, h, h + 1);
    assert raw[h..h + 2] == [raw[h], raw[h + 1]];
  }

  // ----- a value that ended stays -----

  lemma {:induction false} SkipAppend(x: Bytes, y: Bytes)
    requires SkipSpaces(x) != []
    ensures SkipSpaces(x + y) == SkipSpaces(x) + y
    ensures !IsSpace(SkipSpaces(x)[0]) && SkipSpaces(x)[|SkipSpaces(x)| - 1] == x[|x| - 1]
    decreases |x|
  {
    if IsSpace(x[0]) {
      assert (x + y)[1..] == x[1..] + y;
      SkipAppend(x[1..], y);
    }
  }

  lemma {:induction false} DigitsAppend(u: Bytes, y: Bytes)
    requires u != [] && !IsDigit(u[|u| - 1])
    ensures Digits(u + y) == Digits(u)
    decreases |u|
  {
    if IsDigit(u[0]) {
      assert (u + y)[1..] == u[1..] + y;
      DigitsAppend(u[1..], y);
    }
  }

  /** Bytes behind a line end do not change a number that was read before it. */
  lemma StoullStays(x: Bytes, y: Bytes)
    requires x != [] && x[|x| - 1] == '\n' && Stoull(x) > 0
    ensures Stoull(x + y) == Stoull(x)
  {
    var t := SkipSpaces(x);
    if t == [] { StoullOfSpaces(x); }
    SkipAppend(x, y);
    var signed := t[0] == '-' || t[0] == '+';
    var u := if signed then t[1..] else t;
    assert (t + y)[1..] == t[1..] + y;
    assert u[|u| - 1] == '\n';
    DigitsAppend(u, y);
    assert (if signed then (t + y)[1..] else t + y) == u + y;
  }

  lemma StoullOfSpaces(x: Bytes)
    requires SkipSpaces(x) == []
    ensures Stoull(x) == 0
  {
    assert Digits([]) == [];
  }

  /** A positive length is the same in every beginning that has the head. */
  lemma ValueStays(raw: Bytes, k: nat)
    requires Find(raw, BLANK, 0).Some? && LengthInHead(raw) && Find(raw, BLANK, 0).value + 4 <= k <= |raw|
    requires HeadValue(raw) > 0
    ensures LengthValue(raw[..k], LengthAt(raw).value) == HeadValue(raw)
  {
    hide Find, MatchAt, Stoull, LengthAt;
    var h, at := Find(raw, BLANK, 0).value, LengthAt(raw).value;
    EndInHead(raw, h, at, k);
    EndInHead(raw, h, at, h + 4);
    var end := Find(raw, CRLF, at).value;
    if at + 16 <= end {
      assert raw[..k][at + 16..end] == raw[at + 16..end] == raw[..h + 4][at + 16..end];
    } else {
      var x, y := raw[..h + 4][at + 16..], raw[h + 4..k];
      assert raw[..k][at + 16..] == x + y;
      BlankEnds(raw, h);
      assert x[|x| - 1] == raw[h + 3];
      StoullStays(x, y);
    }
  }

  lemma BlankEnds(raw: Bytes, h: nat)
    requires Find(raw, BLANK, 0) == Some(h)
    ensures h + 4 <= |raw| && raw[h + 3] == '\n'
  {
    hide Find;
    FindMeans(raw, BLANK, 0);
    assert raw[h + 3] == raw[h..h + 4][3];
  }

  // ----- the test on any beginning of any request -----

  lemma LengthInAnyPrefix(raw: Bytes, k: nat)
    requires k <= |raw|
    ensures LengthAt(raw[..k]) ==
            var a, b := Find(raw, LENGTH, 0), Find(raw, LENGTH_LOWER, 0);
            if a.Some? && a.value + 15 <= k then a
            else if b.Some? && b.value + 15 <= k then b
            else None
  {
    hide Find, MatchAt;
    FindInPrefix(raw, LENGTH, k, 0);
    FindInPrefix(raw, LENGTH_LOWER, k, 0);
  }

  lemma BlankInPrefix(raw: Bytes, k: nat)
    requires k <= |raw|
    ensures Find(raw[..k], BLANK, 0) ==
            match Find(raw, BLANK, 0)
            case Some(h) => if h + 4 <= k then Some(h) else None
            case None => None
  {
    FindInPrefix(raw, BLANK, k, 0);
  }

  /** Where the names can be: before the blank line or behind it. */
  lemma NamePlaces(raw: Bytes)
    requires Find(raw, BLANK, 0).Some?
    ensures var h := Find(raw, BLANK, 0).value;
            && h + 4 <= |raw|
            && (Find(raw, LENGTH, 0).Some? ==>
                  Find(raw, LENGTH, 0).value + 15 <= h || h + 4 <= Find(raw, LENGTH, 0).value)
            && (Find(raw, LENGTH, 0).Some? ==> Find(raw, LENGTH, 0).value + 15 <= |raw|)
            && (Find(raw, LENGTH_LOWER, 0).Some? ==>
                  Find(raw, LENGTH_LOWER, 0).value + 15 <= h || h + 4 <= Find(raw, LENGTH_LOWER, 0).value)
  {
    hide Find, MatchAt;
    var h := Find(raw, BLANK, 0).value;
    NamesAreOneLine();
    FindMeans(raw, BLANK, 0);
    FindMeans(raw, LENGTH, 0);
    FindMeans(raw, LENGTH_LOWER, 0);
    var a, b := Find(raw, LENGTH, 0), Find(raw, LENGTH_LOWER, 0);
    if a.Some? { NotAcross(raw, LENGTH, a.value, h); }
    if b.Some? { NotAcross(raw, LENGTH_LOWER, b.value, h); }
  }

  /** With the length in the head, the test on a beginning that has the head. */
  lemma CheckWithHead(raw: Bytes, k: nat)
    requires Find(raw, BLANK, 0).Some? && LengthInHead(raw) && Find(raw, BLANK, 0).value + 4 <= k <= |raw|
    ensures LengthAt(raw).value + 16 <= k
    ensures Check(raw[..k]) ==
            if k >= (Find(raw, BLANK, 0).value + 4 + LengthValue(raw[..k], LengthAt(raw).value)) % SIZE
            then Stop else ReadOn
  {
    hide Find, MatchAt, LengthAt, LengthValue, Check;
    BlankInPrefix(raw, k);
    HeadLengthInPrefix(raw, k);
    CheckBy(raw[..k], Find(raw, BLANK, 0).value, LengthAt(raw).value);
  }

  lemma HeadLengthInPrefix(raw: Bytes, k: nat)
    requires Find(raw, BLANK, 0).Some? && LengthInHead(raw) && Find(raw, BLANK, 0).value + 4 <= k <= |raw|
    ensures LengthAt(raw[..k]) == LengthAt(raw)
  {
    hide Find, MatchAt;
    LengthInAnyPrefix(raw, k);
  }

  lemma CheckBy(raw: Bytes, headerEnd: nat, at: nat)
    requires Find(raw, BLANK, 0) == Some(headerEnd) && LengthAt(raw) == Some(at) && at + 16 <= |raw|
    ensures Check(raw) == if |raw| >= (headerEnd + 4 + LengthValue(raw, at)) % SIZE then Stop else ReadOn
  {
    hide Find, LengthAt, LengthValue;
  }

  /** A whole request is read on from every proper beginning, and its end is not out of range. */
  lemma WholeReadsOn(raw: Bytes, k: nat)
    requires Whole(raw) && k <= |raw|
    ensures k < |raw| ==> Check(raw[..k]) == ReadOn
    ensures k == |raw| ==> Check(raw[..k]) != OutOfRange
  {
    hide Find, LengthValue, LengthAt;
    BlankInPrefix(raw, k);
    if Find(raw, BLANK, 0).Some? && Find(raw, BLANK, 0).value + 4 <= k {
      var h := Find(raw, BLANK, 0).value;
      if LengthInHead(raw) {
        CheckWithHead(raw, k);
        if k < |raw| {
          if HeadValue(raw) == 0 { ZeroAsksNothing(h + 4); } else { ValueStays(raw, k); }
        }
      } else {
        assert raw[..k] == raw;
        EmptyBodyInRange(raw);
      }
    }
  }

  lemma ZeroAsksNothing(n: nat)
    ensures n % SIZE <= n
  {
  }

  lemma EmptyBodyInRange(raw: Bytes)
    requires Find(raw, BLANK, 0).Some? && |raw| == Find(raw, BLANK, 0).value + 4
    ensures Check(raw) != OutOfRange
  {
    hide Find, LengthValue;
    NamePlaces(raw);
    LengthInAnyPrefix(raw, |raw|);
    assert raw[..|raw|] == raw;
  }

  /** Any other request has a beginning after which the loop does not read on. */
  lemma StopsEarly(raw: Bytes) returns (k: nat)
    requires !Whole(raw)
    ensures 0 < k <= |raw| && Check(raw[..k]) != ReadOn
    ensures k == |raw| ==> Check(raw) == OutOfRange
  {
    hide Find, LengthValue;
    var h := Find(raw, BLANK, 0).value;
    NamePlaces(raw);
    if LengthInHead(raw) {
      k := if HeadValue(raw) == 0 || Asked(raw) <= h + 4 then h + 4 else Asked(raw);
      CheckWithHead(raw, k);
      if HeadValue(raw) > 0 { ValueStays(raw, k); } else { ZeroAsksNothing(h + 4); }
    } else {
      k := StopsOutside(raw);
    }
  }

  lemma StopsOutside(raw: Bytes) returns (k: nat)
    requires Find(raw, BLANK, 0).Some? && !LengthInHead(raw) && |raw| > Find(raw, BLANK, 0).value + 4
    ensures 0 < k <= |raw| && Check(raw[..k]) != ReadOn
    ensures k == |raw| ==> Check(raw) == OutOfRange
  {
    hide Find, LengthValue;
    NamePlaces(raw);
    var h, a := Find(raw, BLANK, 0).value, Find(raw, LENGTH, 0);
    k := h + 4;
    LengthInAnyPrefix(raw, k);
    BlankInPrefix(raw, k);
    if LengthAt(raw[..k]).Some? {
      k := a.value + 15;
      LengthInAnyPrefix(raw, k);
      BlankInPrefix(raw, k);
      if k == |raw| { assert raw[..k] == raw; }
    }
  }

  // ----- chunk independence -----

  /** A split of a request into chunks the loop could be given. */
  ghost predicate SplitOf(raw: Bytes, chunks: seq<Bytes>) {
    NonEmpty(chunks) && |chunks| <= 100 && Concat(chunks) == raw
  }

  /** The loop collects the whole of it, and does not run off its end. */
  ghost predicate CollectsAll(raw: Bytes, chunks: seq<Bytes>) {
    forall n: nat :: Takes(chunks, n) ==> Concat(chunks[..n]) == raw && Check(raw) != OutOfRange
  }

  /** Whatever the split, the loop returns all of a whole request: it stops at no earlier chunk. */
  lemma TakesEverything(chunks: seq<Bytes>, n: nat)
    requires NonEmpty(chunks) && |chunks| <= 100 && Takes(chunks, n) && Whole(Concat(chunks))
    ensures Concat(chunks[..n]) == Concat(chunks)
    ensures Check(Concat(chunks[..n])) != OutOfRange
  {
    hide Check, Whole;
    var raw := Concat(chunks);
    ConcatPrefix(chunks, n);
    WholeReadsOn(raw, |Concat(chunks[..n])|);
    WholeReadsOn(raw, |raw|);
    assert chunks[..|chunks|] == chunks && raw[..|raw|] == raw;
  }

  /** Every request, exactly: the loop collects it the same way for every split if and only if it is
      whole. */
  lemma ChunkIndependentIff(raw: Bytes)
    ensures (forall chunks :: SplitOf(raw, chunks) ==> CollectsAll(raw, chunks)) <==> Whole(raw)
  {
    hide Check, Whole;
    if Whole(raw) {
      forall chunks | SplitOf(raw, chunks) ensures CollectsAll(raw, chunks) {
        forall n: nat | Takes(chunks, n) ensures Concat(chunks[..n]) == raw && Check(raw) != OutOfRange {
          TakesEverything(chunks, n);
        }
      }
    } else {
      var k := StopsEarly(raw);
      if k < |raw| {
        TwoChunks(raw[..k], raw[k..]);
        assert raw[..k] + raw[k..] == raw;
        assert !CollectsAll(raw, [raw[..k], raw[k..]]);
      } else {
        assert raw[..k] == raw;
        OneChunk(raw);
        assert !CollectsAll(raw, [raw]);
      }
    }
  }

  lemma OneChunk(raw: Bytes)
    requires raw != []
    ensures Takes([raw], 1) && SplitOf(raw, [raw])
  {
    hide Check;
    ConcatOne(raw);
  }

  lemma TwoChunks(first: Bytes, second: Bytes)
    requires first != [] && second != [] && Check(first) != ReadOn
    ensures var chunks := [first, second];
            Takes(chunks, 1) && Concat(chunks[..1]) == first && SplitOf(first + second, chunks)
  {
    hide Check;
    var chunks := [first, second];
    ConcatOne(first);
    assert chunks[..1] == [first];
    assert Concat(chunks) == Concat(chunks[..1]) + second;
  }

  /** A request whose length is given on its line is whole if its body is no longer than that. */
  lemma FramedIsWhole(raw: Bytes)
    requires Framed(raw) && Needed(raw) < SIZE
    ensures Whole(raw) <==> |raw| <= Needed(raw)
  {
    hide Find, MatchAt, LengthAt, Stoull;
    var h := Find(raw, BLANK, 0).value;
    BlankEnds(raw, h);
    if LengthAt(raw).Some? {
      var at := LengthAt(raw).value;
      EndInHead(raw, h, at, h + 4);
      ValueInPrefix(raw, h + 4, at);
      NoWrap(Needed(raw));
    }
  }

  // ----- what a length means -----

  predicate AllSpaces(s: Bytes) { forall k :: 0 <= k < |s| ==> s[k] == ' ' || 9 <= s[k] as int <= 13 }

  lemma {:induction false} SpacesSkipped(spaces: Bytes, text: Bytes)
    requires AllSpaces(spaces) && (text != [] ==> text[0] != ' ' && !(9 <= text[0] as int <= 13))
    ensures SkipSpaces(spaces + text) == text
    decreases |spaces|
  {
    if spaces == [] { assert spaces + text == text; }
    else {
      assert (spaces + text)[1..] == spaces[1..] + text;
      SpacesSkipped(spaces[1..], text);
    }
  }

  lemma {:induction false} DigitsOf(digits: Bytes, rest: Bytes)
    requires forall k :: 0 <= k < |digits| ==> IsDigit(digits[k])
    requires rest != [] ==> !('0' <= rest[0] <= '9')
    ensures Digits(digits + rest) == digits
    decreases |digits|
  {
    if digits == [] { assert digits + rest == rest; }
    else {
      assert (digits + rest)[1..] == digits[1..] + rest;
      DigitsOf(digits[1..], rest);
    }
  }

  /** A number in decimal, behind any white space and an optional sign and before anything that is no
      digit, is read as its value; as the negated value modulo 2^64 behind a minus sign; as 0 if it does
      not fit in 64 bits. */
  lemma StoullMeans(spaces: Bytes, sign: Bytes, n: nat, rest: Bytes)
    requires AllSpaces(spaces) && (sign == [] || sign == ['+'] || sign == ['-'])
    requires rest != [] ==> !('0' <= rest[0] <= '9')
    ensures Stoull(spaces + (sign + (Decimal(n) + rest)))
            == if n >= 0x1_0000_0000_0000_0000 then 0
               else if sign == ['-'] && n > 0 then 0x1_0000_0000_0000_0000 - n
               else n
  {
    hide Decimal, SkipSpaces, Digits, Number;
    DecimalIsNumber(n);
    assert IsDigit(Decimal(n)[0]);
    var number := Decimal(n) + rest;
    var text := sign + number;
    assert text[0] == if sign == [] then Decimal(n)[0] else sign[0];
    SpacesSkipped(spaces, text);
    DigitsOf(Decimal(n), rest);
    if sign != [] { assert text[1..] == number; } else { assert text == number; }
    if n < SIZE { NegationWraps(n); }
  }

  lemma NegationWraps(n: nat)
    requires n < SIZE
    ensures (SIZE - n) % SIZE == if n == 0 then 0 else SIZE - n
  {
  }

  /** Text in which no digit follows the white space and the sign is read as 0. */
  lemma NoNumberIsZero(spaces: Bytes, sign: Bytes, rest: Bytes)
    requires AllSpaces(spaces) && (sign == [] || sign == ['+'] || sign == ['-'])
    requires rest != [] ==> !('0' <= rest[0] <= '9')
    requires sign == [] && rest != [] ==>
               rest[0] != ' ' && !(9 <= rest[0] as int <= 13) && rest[0] != '+' && rest[0] != '-'
    ensures Stoull(spaces + (sign + rest)) == 0
  {
    var text := sign + rest;
    assert sign != [] ==> text[0] == sign[0] && text[1..] == rest;
    assert sign == [] ==> text == rest;
    SpacesSkipped(spaces, text);
    DigitsOf([], rest);
    assert [] + rest == rest;
    hide SkipSpaces, Digits;
  }

  // ----- from a rendered request to the parsed one -----

  function Decimal(n: nat): Bytes {
    if n < 10 then [('0' as int + n) as char] else Decimal(n / 10) + [('0' as int + n % 10) as char]
  }

  lemma {:induction false} DecimalIsNumber(n: nat)
    ensures Decimal(n) != []
    ensures forall k :: 0 <= k < |Decimal(n)| ==> IsDigit(Decimal(n)[k])
    ensures Number(Decimal(n)) == n
    decreases n
  {
    if n >= 10 {
      DecimalIsNumber(n / 10);
      assert Decimal(n)[..|Decimal(n)| - 1] == Decimal(n / 10);
    } else {
      assert Decimal(n)[..0] == [];
    }
  }

  lemma {:induction false} AllDigits(s: Bytes)
    requires forall k :: 0 <= k < |s| ==> IsDigit(s[k])
    ensures Digits(s) == s
    decreases |s|
  {
    if s != [] { AllDigits(s[1..]); }
  }

  /** A length written in decimal is read back. */
  lemma StoullOfDecimal(n: nat)
    requires n < SIZE
    ensures Stoull(Decimal(n)) == n
  {
    DecimalIsNumber(n);
    AllDigits(Decimal(n));
    assert IsDigit(Decimal(n)[0]);
    assert SkipSpaces(Decimal(n)) == Decimal(n);
  }

  lemma ConcatOne(chunk: Bytes)
    ensures Concat([chunk]) == chunk
  {
    assert [chunk][..0] == [];
  }

  lemma {:induction false} TerminatedAppend(a: seq<Bytes>, b: seq<Bytes>)
    ensures Terminated(CRLF, a + b) == Terminated(CRLF, a) + Terminated(CRLF, b)
    decreases |a|
  {
    if a == [] { assert a + b == b; }
    else {
      TerminatedAppend(a[1..], b);
      assert (a + b)[1..] == a[1..] + b;
      assert a[0] + CRLF + (Terminated(CRLF, a[1..]) + Terminated(CRLF, b))
          == a[0] + CRLF + Terminated(CRLF, a[1..]) + Terminated(CRLF, b);
    }
  }

  /** What a rendered request has before one of its fields. */
  function Before(m: Message, i: nat): Bytes
    requires i <= |m.fields|
  {
    StartLine(m) + CRLF + Terminated(CRLF, FieldLines(m.fields[..i]))
  }

  function Behind(m: Message, i: nat): Bytes
    requires i < |m.fields|
  {
    Terminated(CRLF, FieldLines(m.fields[i + 1..])) + CRLF + m.body
  }

  lemma RenderAround(m: Message, i: nat)
    requires i < |m.fields|
    ensures Render(m) == Before(m, i) + FieldLine(m.fields[i]) + CRLF + Behind(m, i)
  {
    var a, f, b := FieldLines(m.fields[..i]), FieldLine(m.fields[i]), FieldLines(m.fields[i + 1..]);
    assert FieldLines(m.fields) == a + ([f] + b);
    TerminatedAppend(a, [f] + b);
    assert ([f] + b)[1..] == b;
    assert Terminated(CRLF, [f] + b) == f + CRLF + Terminated(CRLF, b);
    var start := StartLine(m);
    hide Terminated, FieldLines, FieldLine, StartLine;
    Regroup(start + CRLF, Terminated(CRLF, a), f, Terminated(CRLF, b), m.body);
  }

  lemma Regroup(start: Bytes, a: Bytes, f: Bytes, b: Bytes, body: Bytes)
    ensures start + (a + (f + CRLF + b)) + CRLF + body == start + a + f + CRLF + (b + CRLF + body)
  {
  }

  lemma LineEnd(pre: Bytes, line: Bytes, post: Bytes)
    requires OneLine(line)
    ensures Find(pre + line + CRLF + post, CRLF, |pre|) == Some(|pre| + |line|)
  {
    var raw := pre + line + CRLF + post;
    var end := |pre| + |line|;
    assert raw[end..end + 2] == CRLF;
    forall q: nat | |pre| <= q < end ensures !MatchAt(raw, CRLF, q) {
      assert raw[q] == line[q - |pre|] != '\r';
      if q + 2 <= |raw| { assert raw[q..q + 2][0] == raw[q]; }
    }
    FirstMatchIs(raw, CRLF, |pre|, end);
  }

  /** The field that gives the length of the body, in either spelling, and where the loop first finds its
      name. */
  ghost predicate SaysLength(m: Message, i: nat)
    requires i < |m.fields|
  {
    && m.fields[i].value == Decimal(|m.body|)
    && (|| (m.fields[i].name == "Content-Length" && Find(Render(m), "Content-Length:", 0) == Some(|Before(m, i)|))
        || (m.fields[i].name == "content-length" && Find(Render(m), "Content-Length:", 0).None?
            && Find(Render(m), "content-length:", 0) == Some(|Before(m, i)|)))
  }

  lemma LengthLine(f: Field, n: nat)
    requires |f.name| == 14 && f.value == Decimal(n)
    ensures |FieldLine(f)| >= 16 && FieldLine(f)[16..] == Decimal(n)
  {
    hide Decimal;
  }

  lemma LengthFoundIn(pre: Bytes, line: Bytes, post: Bytes, digits: Bytes)
    requires OneLine(line) && |line| >= 16 && line[16..] == digits
    ensures var raw := pre + line + CRLF + post;
            && Find(raw, CRLF, |pre|) == Some(|pre| + |line|)
            && |raw| == |pre| + |line| + 2 + |post|
            && raw[|pre| + 16..|pre| + |line|] == digits
  {
    LineEnd(pre, line, post);
    hide Find, OneLine;
    var raw := pre + line + CRLF + post;
    assert raw[|pre|..|pre| + |line|] == line;
    assert raw[|pre| + 16..|pre| + |line|] == line[16..];
  }

  /** The value that starts 16 bytes after this position and ends with its line. */
  ghost predicate ValueAt(raw: Bytes, at: nat, end: nat, value: Bytes) {
    at + 16 <= end <= |raw| && Find(raw, CRLF, at) == Some(end) && raw[at + 16..end] == value
  }

  /** What makes a request framed, and what it then needs. */
  lemma FramedBy(raw: Bytes, headerEnd: nat, at: nat, end: nat, digits: Bytes)
    requires Find(raw, BLANK, 0) == Some(headerEnd) && LengthAt(raw) == Some(at)
    requires ValueAt(raw, at, end, digits) && end <= headerEnd
    ensures Framed(raw) && Needed(raw) == headerEnd + 4 + Stoull(digits)
  {
    hide Find, Stoull;
  }

  /** Where a rendered request's length line is. */
  lemma LengthFound(m: Message, i: nat)
    requires Clean(m) && i < |m.fields| && SaysLength(m, i)
    ensures var raw, at, end := Render(m), |Before(m, i)|, |Before(m, i)| + |FieldLine(m.fields[i])|;
            ValueAt(raw, at, end, Decimal(|m.body|)) && end + |m.body| + 4 <= |raw|
  {
    hide Find, MatchAt, Render, Behind, Before, Decimal, FieldLine, OneLine, Clean;
    var pre, line, post := Before(m, i), FieldLine(m.fields[i]), Behind(m, i);
    RenderAround(m, i);
    LengthFieldLine(m, i);
    BehindSize(m, i);
    LengthFoundIn(pre, line, post, Decimal(|m.body|));
  }

  lemma LengthFieldLine(m: Message, i: nat)
    requires Clean(m) && i < |m.fields| && SaysLength(m, i)
    ensures var line := FieldLine(m.fields[i]); OneLine(line) && |line| >= 16 && line[16..] == Decimal(|m.body|)
  {
    hide FieldLine, OneLine, Decimal, Find, Render, SaysLength;
    SaysLengthAt(m, i);
    CleanFieldLine(m.fields[i]);
    LengthLine(m.fields[i], |m.body|);
  }

  lemma BehindSize(m: Message, i: nat)
    requires i < |m.fields|
    ensures |Behind(m, i)| >= |m.body| + 2
  {
    hide Terminated, FieldLines;
  }

  lemma RenderedSize(m: Message)
    ensures |Render(m)| == |Head(m)| + 4 + |m.body|
  {
    RenderedHead(m);
    hide Render, Head;
  }

  lemma RenderedBlank(m: Message)
    requires Clean(m)
    ensures Find(Render(m), BLANK, 0) == Some(|Head(m)|)
  {
    RenderedParts(m);
  }

  /** A rendered request that says its length is framed, and needs exactly its own bytes. */
  lemma RenderedIsFramed(m: Message, i: nat)
    requires Clean(m) && i < |m.fields| && SaysLength(m, i) && |Render(m)| < SIZE
    ensures Framed(Render(m)) && Needed(Render(m)) == |Render(m)|
  {
    hide *;
    SaysLengthAt(m, i);
    RenderedBlank(m);
    RenderedSize(m);
    LengthFound(m, i);
    StoullOfDecimal(|m.body|);
    FramedBy(Render(m), |Head(m)|, |Before(m, i)|, |Before(m, i)| + |FieldLine(m.fields[i])|, Decimal(|m.body|));
  }

  lemma SaysLengthAt(m: Message, i: nat)
    requires i < |m.fields| && SaysLength(m, i)
    ensures LengthAt(Render(m)) == Some(|Before(m, i)|) && |m.fields[i].name| == 14
    ensures m.fields[i].value == Decimal(|m.body|)
  {
    hide Find, Render, Before, Decimal;
  }

  /** From the connection to the parsed request: whatever non-empty chunks, at most 100, a rendered
      request arrives in, the loop and the parser give back its parts. */
  lemma ReceivedAsSent(m: Message, i: nat, chunks: seq<Bytes>, n: nat)
    requires Clean(m) && i < |m.fields| && SaysLength(m, i) && |Render(m)| < 0x1_0000_0000_0000_0000
    requires SplitOf(Render(m), chunks) && Takes(chunks, n)
    ensures Check(Concat(chunks[..n])) != OutOfRange && Parse(Concat(chunks[..n])) == Some(Expected(m))
  {
    hide Framed, Needed, Whole, Check, Render, Parse, Expected, SaysLength, Clean;
    RenderedIsFramed(m, i);
    FramedIsWhole(Render(m));
    ParseRendered(m);
    TakesEverything(chunks, n);
  }

  /** Without a length header the loop stops at the end of the headers: a body is collected only if
      it happens to arrive with them. */
  lemma NoLengthNeedsNoBody(raw: Bytes)
    requires Find(raw, BLANK, 0).Some? && LengthAt(raw).None?
    ensures (forall chunks :: SplitOf(raw, chunks) ==> CollectsAll(raw, chunks))
            <==> |raw| == Find(raw, BLANK, 0).value + 4
  {
    hide Find, LengthAt, SplitOf, CollectsAll;
    ChunkIndependentIff(raw);
  }
}
