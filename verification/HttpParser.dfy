/**
 The minimal HTTP/1.1 request parser, and what it makes of a request rendered with CRLF line ends
 (section 2.1 of RFC 9112).
 */
module Http {
  import opened Prelude
  import opened Text

  datatype Request = Request(verb: Bytes, path: Bytes, version: Bytes, headers: map<Bytes, Bytes>, body: Bytes)

  const CRLF: Bytes := ['\r', '\n']
  const BLANK: Bytes := ['\r', '\n', '\r', '\n']
  const BARE_BLANK: Bytes := ['\n', '\n']

  /** HttpRequest::header. */
  function Header(req: Request, key: Bytes): Option<Bytes> {
    if Lower(key) in req.headers then Some(req.headers[Lower(key)]) else None
  }

  // ----- what the parser computes -----

  function TrimCr(line: Bytes): Bytes {
    if line != [] && line[|line| - 1] == '\r' then line[..|line| - 1] else line
  }

  function TrimSpaces(value: Bytes): Bytes {
    if value != [] && value[0] == ' ' then TrimSpaces(value[1..]) else value
  }

  /** One header line; a line without a colon is ignored, and a later line replaces an earlier one
      with the same name. */
  function AddHeader(headers: map<Bytes, Bytes>, line: Bytes): map<Bytes, Bytes> {
    match FindChar(line, ':', 0)
    case None => headers
    case Some(colon) => headers[Lower(line[..colon]) := TrimSpaces(line[colon + 1..])]
  }

  function ParseHeaders(remaining: Bytes, headers: map<Bytes, Bytes>): map<Bytes, Bytes>
    decreases |remaining|
  {
    if remaining == [] then headers
    else match FindChar(remaining, '\n', 0)
      case None => AddHeader(headers, TrimCr(remaining))
      case Some(end) => ParseHeaders(remaining[end + 1..], AddHeader(headers, TrimCr(remaining[..end])))
  }

  /** The end of the headers; a bare double line feed is the fallback. */
  function HeaderEnd(raw: Bytes): (r: Option<nat>)
    ensures r.Some? ==> r.value < |raw| && (raw[r.value] == '\r' || raw[r.value] == '\n')
  {
    if Find(raw, BLANK, 0).Some? then
      var p := Find(raw, BLANK, 0).value;
      FindMeans(raw, BLANK, 0);
      assert raw[p..p + 4][0] == raw[p];
      Some(p)
    else if Find(raw, BARE_BLANK, 0).Some? then
      var p := Find(raw, BARE_BLANK, 0).value;
      FindMeans(raw, BARE_BLANK, 0);
      assert raw[p..p + 2][0] == raw[p];
      Some(p)
    else None
  }

  /** The method, the path and whatever follows the second space. */
  function ParseStart(line: Bytes): Option<(Bytes, Bytes, Bytes)> {
    match FindChar(line, ' ', 0)
    case None => None
    case Some(sp1) =>
      match FindChar(line, ' ', sp1 + 1)
      case None => None
      case Some(sp2) => Some((line[..sp1], line[sp1 + 1..sp2], line[sp2 + 1..]))
  }

  function Body(raw: Bytes, headerEnd: nat): Bytes
    requires headerEnd < |raw|
  {
    var bodyStart := headerEnd + if raw[headerEnd] == '\r' then 4 else 2;
    if bodyStart < |raw| then raw[bodyStart..] else []
  }

  function ParseSection(section: Bytes, body: Bytes): Option<Request> {
    match FindChar(section, '\n', 0)
    case None => None
    case Some(lineEnd) =>
      match ParseStart(TrimCr(section[..lineEnd]))
      case None => None
      case Some((verb, path, version)) =>
        Some(Request(verb, path, version, ParseHeaders(section[lineEnd + 1..], map[]), body))
  }

  function Parse(raw: Bytes): Option<Request> {
    match HeaderEnd(raw)
    case None => None
    case Some(headerEnd) => ParseSection(raw[..headerEnd], Body(raw, headerEnd))
  }

  /** HttpParser::parse. */
  method ParseRequest(raw: Bytes) returns (req: Option<Request>)
    ensures req == Parse(raw)
  {
    hide FindChar, Find, HeaderEnd, ParseHeaders;
    var end := HeaderEnd(raw);
    if end.None? { return None; }
    var section := raw[..end.value];
    var lineEnd := FindChar(section, '\n', 0);
    if lineEnd.None? { return None; }
    var line := section[..lineEnd.value];
    if |line| > 0 && line[|line| - 1] == '\r' { line := line[..|line| - 1]; }
    assert line == TrimCr(section[..lineEnd.value]);
    hide TrimCr;
    var sp1 := FindChar(line, ' ', 0);
    if sp1.None? { return None; }
    var sp2 := FindChar(line, ' ', sp1.value + 1);
    if sp2.None? { return None; }
    var headers := ReadHeaders(section[lineEnd.value + 1..]);
    var body: Bytes := [];
    var bodyStart := end.value + if raw[end.value] == '\r' then 4 else 2;
    if bodyStart < |raw| { body := raw[bodyStart..]; }
    return Some(Request(line[..sp1.value], line[sp1.value + 1..sp2.value], line[sp2.value + 1..], headers, body));
  }

  /** The header loop of parse. */
  method ReadHeaders(section: Bytes) returns (headers: map<Bytes, Bytes>)
    ensures headers == ParseHeaders(section, map[])
  {
    hide FindChar, AddHeader;
    headers := map[];
    var remaining := section;
    while |remaining| > 0
      invariant ParseHeaders(section, map[]) == ParseHeaders(remaining, headers)
      decreases |remaining|
    {
      var lineEnd := FindChar(remaining, '\n', 0);
      var line := if lineEnd.Some? then remaining[..lineEnd.value] else remaining;
      ghost var whole := line;
      if |line| > 0 && line[|line| - 1] == '\r' { line := line[..|line| - 1]; }
      assert line == TrimCr(whole);
      headers := ReadHeader(headers, line);
      if lineEnd.None? { return; }
      remaining := remaining[lineEnd.value + 1..];
    }
  }

  method ReadHeader(before: map<Bytes, Bytes>, line: Bytes) returns (headers: map<Bytes, Bytes>)
    ensures headers == AddHeader(before, line)
  {
    headers := before;
    if |line| > 0 {
      var colon := FindChar(line, ':', 0);
      if colon.Some? {
        var key := Lower(line[..colon.value]);
        var value := StripSpaces(line[colon.value + 1..]);
        headers := headers[key := value];
      }
    }
  }

  method StripSpaces(text: Bytes) returns (value: Bytes)
    ensures value == TrimSpaces(text)
  {
    value := text;
    while |value| > 0 && value[0] == ' '
      invariant TrimSpaces(text) == TrimSpaces(value)
    {
      value := value[1..];
    }
  }

  // ----- rendering -----

  datatype Field = Field(name: Bytes, value: Bytes)

  datatype Message = Message(verb: Bytes, path: Bytes, version: Bytes, fields: seq<Field>, body: Bytes)

  function StartLine(m: Message): Bytes { Joined(' ', m.verb, m.path, m.version) }

  function FieldLine(f: Field): Bytes { f.name + [':', ' '] + f.value }

  function FieldLines(fields: seq<Field>): (lines: seq<Bytes>)
    ensures |lines| == |fields|
  {
    seq(|fields|, i requires 0 <= i < |fields| => FieldLine(fields[i]))
  }

  /** Lines, each with its end. */
  function Terminated(end: Bytes, lines: seq<Bytes>): Bytes
    decreases |lines|
  {
    if lines == [] then [] else lines[0] + end + Terminated(end, lines[1..])
  }

  /** A request as section 2.1 of RFC 9112 writes it. */
  function Render(m: Message): Bytes {
    RenderWith(CRLF, m)
  }

  /** The same with another line end. */
  function RenderWith(end: Bytes, m: Message): Bytes {
    StartLine(m) + end + Terminated(end, FieldLines(m.fields)) + end + m.body
  }

  ghost predicate OneLine(s: Bytes) { Lacks(s, '\r') && Lacks(s, '\n') }

  /** Fields that can be told apart again once rendered; the body may be anything. */
  ghost predicate Clean(m: Message) {
    && OneLine(m.verb) && Lacks(m.verb, ' ')
    && OneLine(m.path) && Lacks(m.path, ' ')
    && OneLine(m.version)
    && forall i :: 0 <= i < |m.fields| ==> CleanField(m.fields[i])
  }

  ghost predicate CleanField(f: Field) {
    OneLine(f.name) && Lacks(f.name, ':') && OneLine(f.value) && (f.value != [] ==> f.value[0] != ' ')
  }

  /** The header map of a list of fields: the last of several with the same name counts. */
  function HeaderMap(fields: seq<Field>): map<Bytes, Bytes> {
    if fields == [] then map[]
    else HeaderMap(fields[..|fields| - 1])[Lower(fields[|fields| - 1].name) := fields[|fields| - 1].value]
  }

  // ----- lines joined by CRLF -----

  const LF: Bytes := ['\n']

  /** The two ways to end a line. */
  ghost predicate LineEnd(end: Bytes) { end == CRLF || end == LF }

  function JoinLines(end: Bytes, lines: seq<Bytes>): Bytes
    requires lines != []
    decreases |lines|
  {
    if |lines| == 1 then lines[0] else lines[0] + end + JoinLines(end, lines[1..])
  }

  ghost predicate CleanLines(lines: seq<Bytes>) {
    lines != [] && forall i :: 0 <= i < |lines| ==> lines[i] != [] && OneLine(lines[i])
  }

  lemma {:induction false} TerminatedIsJoined(end: Bytes, lines: seq<Bytes>)
    requires lines != []
    ensures Terminated(end, lines) == JoinLines(end, lines) + end
    decreases |lines|
  {
    if |lines| > 1 {
      TerminatedIsJoined(end, lines[1..]);
      var rest := JoinLines(end, lines[1..]);
      assert lines[0] + end + (rest + end) == lines[0] + end + rest + end;
    } else {
      assert Terminated(end, lines[1..]) == [];
    }
  }

  /** Every CR is followed by a LF and then by something that is no CR. */
  ghost predicate Spread(s: Bytes) {
    forall p :: 0 <= p < |s| && s[p] == '\r' ==> p + 2 < |s| && s[p + 2] != '\r'
  }

  lemma SpreadLine(line: Bytes, rest: Bytes)
    requires OneLine(line) && Spread(rest) && rest != [] && rest[0] != '\r'
    ensures Spread(line + CRLF + rest)
  {
    var s := line + CRLF + rest;
    assert forall p :: 0 <= p < |line| ==> s[p] == line[p] != '\r';
    forall p | 0 <= p < |s| && s[p] == '\r' ensures p + 2 < |s| && s[p + 2] != '\r' {
      if p >= |line| + 2 {
        assert s[p] == rest[p - |line| - 2];
        assert s[p + 2] == rest[p - |line|];
      } else { assert s[|line| + 2] == rest[0]; }
    }
  }

  lemma {:induction false} JoinedIsSpread(lines: seq<Bytes>)
    requires CleanLines(lines)
    ensures var s := JoinLines(CRLF, lines); Spread(s) && s != [] && s[0] != '\r'
    decreases |lines|
  {
    assert lines[0][0] in lines[0];
    if |lines| > 1 {
      JoinedIsSpread(lines[1..]);
      SpreadLine(lines[0], JoinLines(CRLF, lines[1..]));
    }
  }

  lemma MatchMeans(raw: Bytes, q: nat)
    requires MatchAt(raw, BLANK, q)
    ensures raw[q] == '\r' && raw[q + 2] == '\r'
  {
    assert raw[q] == raw[q..q + 4][0] && raw[q + 2] == raw[q..q + 4][2];
  }

  /** The blank line is found right after the lines. */
  lemma BlankAfterLines(head: Bytes, body: Bytes)
    requires Spread(head)
    ensures Find(head + BLANK + body, BLANK, 0) == Some(|head|)
  {
    var raw := head + BLANK + body;
    assert raw[|head|..|head| + 4] == BLANK;
    forall q: nat | q < |head| ensures !MatchAt(raw, BLANK, q) {
      if MatchAt(raw, BLANK, q) { MatchMeans(raw, q); }
      assert raw[q] == head[q];
      if head[q] == '\r' { assert raw[q + 2] == head[q + 2]; }
    }
    FirstMatchIs(raw, BLANK, 0, |head|);
  }

  /** The first of several lines ends at the first line feed. */
  lemma FirstLine(line: Bytes, end: Bytes, rest: Bytes)
    requires OneLine(line) && LineEnd(end)
    ensures var s, p := line + end + rest, |line| + |end| - 1;
            && FindChar(s, '\n', 0) == Some(p)
            && TrimCr(s[..p]) == line
            && s[p + 1..] == rest
  {
    var s := line + end + rest;
    var front := if end == CRLF then line + ['\r'] else line;
    assert s == front + ['\n'] + rest;
    FindBetween(front, '\n', rest);
    Cut(front, '\n', rest);
    assert front[..|line|] == line;
    if end == LF { OnlyLine(line); }
  }

  lemma OnlyLine(line: Bytes)
    requires OneLine(line)
    ensures FindChar(line, '\n', 0) == None && TrimCr(line) == line
  {
    assert line != [] ==> line[|line| - 1] in line;
  }

  function AddAll(headers: map<Bytes, Bytes>, lines: seq<Bytes>): map<Bytes, Bytes>
    decreases |lines|
  {
    if lines == [] then headers else AddAll(AddHeader(headers, lines[0]), lines[1..])
  }

  /** The header loop reads the joined lines one by one. */
  lemma {:induction false} ParseHeadersReadsLines(end: Bytes, lines: seq<Bytes>, headers: map<Bytes, Bytes>)
    requires CleanLines(lines) && LineEnd(end)
    ensures ParseHeaders(JoinLines(end, lines), headers) == AddAll(headers, lines)
    decreases |lines|
  {
    hide FindChar, TrimCr, AddHeader;
    if |lines| == 1 {
      OnlyLine(lines[0]);
      assert lines[1..] == [];
    } else {
      var rest := JoinLines(end, lines[1..]);
      FirstLine(lines[0], end, rest);
      ParseHeadersReadsLines(end, lines[1..], AddHeader(headers, lines[0]));
      assert JoinLines(end, lines) == lines[0] + end + rest;
    }
  }

  // ----- field lines -----

  lemma AddFieldLine(headers: map<Bytes, Bytes>, f: Field)
    requires CleanField(f)
    ensures AddHeader(headers, FieldLine(f)) == headers[Lower(f.name) := f.value]
  {
    var line := FieldLine(f);
    assert line == f.name + [':'] + ([' '] + f.value);
    FindBetween(f.name, ':', [' '] + f.value);
    Cut(f.name, ':', [' '] + f.value);
    assert ([' '] + f.value)[1..] == f.value;
    assert TrimSpaces(f.value) == f.value;
    assert TrimSpaces([' '] + f.value) == f.value;
  }

  lemma {:induction false} AddAllAppend(headers: map<Bytes, Bytes>, lines: seq<Bytes>, line: Bytes)
    ensures AddAll(headers, lines + [line]) == AddHeader(AddAll(headers, lines), line)
    decreases |lines|
  {
    hide AddHeader;
    if lines == [] { assert [line][1..] == []; }
    else {
      assert (lines + [line])[1..] == lines[1..] + [line];
      AddAllAppend(AddHeader(headers, lines[0]), lines[1..], line);
    }
  }

  lemma {:induction false} AddAllIsHeaderMap(fields: seq<Field>)
    requires forall i :: 0 <= i < |fields| ==> CleanField(fields[i])
    ensures AddAll(map[], FieldLines(fields)) == HeaderMap(fields)
    decreases |fields|
  {
    if fields != [] {
      var n := |fields| - 1;
      AddAllIsHeaderMap(fields[..n]);
      assert FieldLines(fields) == FieldLines(fields[..n]) + [FieldLine(fields[n])];
      AddAllAppend(map[], FieldLines(fields[..n]), FieldLine(fields[n]));
      AddFieldLine(HeaderMap(fields[..n]), fields[n]);
      hide AddHeader, AddAll, FieldLine, Lower, CleanField;
    }
  }

  lemma CleanFieldLine(f: Field)
    requires CleanField(f)
    ensures FieldLine(f) != [] && OneLine(FieldLine(f))
  {
  }

  lemma CleanFieldLines(fields: seq<Field>)
    requires fields != [] && forall i :: 0 <= i < |fields| ==> CleanField(fields[i])
    ensures CleanLines(FieldLines(fields))
  {
    forall i | 0 <= i < |fields| ensures FieldLines(fields)[i] != [] && OneLine(FieldLines(fields)[i]) {
      CleanFieldLine(fields[i]);
    }
  }

  lemma CleanStartLine(m: Message)
    requires Clean(m)
    ensures StartLine(m) != [] && OneLine(StartLine(m))
  {
  }

  // ----- parse after render -----

  function Expected(m: Message): Request { Request(m.verb, m.path, m.version, HeaderMap(m.fields), m.body) }

  /** What comes before the blank line. */
  function HeadWith(end: Bytes, m: Message): Bytes {
    if m.fields == [] then StartLine(m) else StartLine(m) + end + JoinLines(end, FieldLines(m.fields))
  }

  function Head(m: Message): Bytes { HeadWith(CRLF, m) }

  lemma RenderedWith(end: Bytes, m: Message)
    ensures RenderWith(end, m) == HeadWith(end, m) + (end + end) + m.body
  {
    var start, lines := StartLine(m), FieldLines(m.fields);
    hide StartLine, JoinLines, FieldLines;
    if m.fields != [] {
      TerminatedIsJoined(end, lines);
      hide Terminated;
      assert start + end + (JoinLines(end, lines) + end) + end == start + end + JoinLines(end, lines) + (end + end);
    } else {
      assert Terminated(end, lines) == [];
      assert start + end + [] + end == start + (end + end);
    }
  }

  lemma RenderedHead(m: Message)
    ensures Render(m) == Head(m) + BLANK + m.body
  {
    hide RenderWith, HeadWith;
    RenderedWith(CRLF, m);
    assert CRLF + CRLF == BLANK;
  }

  lemma HeadIsSpread(m: Message)
    requires Clean(m)
    ensures Spread(Head(m))
  {
    CleanStartLine(m);
    if m.fields != [] {
      CleanFieldLines(m.fields);
      JoinedIsSpread(FieldLines(m.fields));
      SpreadLine(StartLine(m), JoinLines(CRLF, FieldLines(m.fields)));
    }
  }

  /** Where a rendered request's headers end, and what is on both sides. */
  lemma RenderedParts(m: Message)
    requires Clean(m)
    ensures var raw, n := Render(m), |Head(m)|;
            && Find(raw, BLANK, 0) == Some(n) && HeaderEnd(raw) == Some(n) && raw[n] == '\r'
            && raw[..n] == Head(m) && n + 4 <= |raw| && raw[n + 4..] == m.body
  {
    RenderedHead(m);
    HeadIsSpread(m);
    BlankAfterLines(Head(m), m.body);
    var head := Head(m);
    hide Head, Render, Spread, Clean, Find;
    var raw := head + BLANK + m.body;
    assert raw[..|head|] == head && raw[|head| + 4..] == m.body && raw[|head|] == '\r';
  }

  lemma ParseStartLine(m: Message)
    requires Clean(m)
    ensures ParseStart(StartLine(m)) == Some((m.verb, m.path, m.version))
  {
    SplitAtTwo(' ', m.verb, m.path, m.version);
    hide FindChar, Joined, Lacks;
  }

  lemma HeadIsLines(end: Bytes, m: Message)
    requires m.fields != []
    ensures HeadWith(end, m) == StartLine(m) + end + JoinLines(end, FieldLines(m.fields))
  {
    hide StartLine, JoinLines, FieldLines;
  }

  lemma HeadersOf(end: Bytes, m: Message)
    requires Clean(m) && m.fields != [] && LineEnd(end)
    ensures ParseHeaders(JoinLines(end, FieldLines(m.fields)), map[]) == HeaderMap(m.fields)
  {
    hide ParseHeaders, JoinLines, FieldLines, HeaderMap, AddAll, CleanLines, CleanField;
    CleanFieldLines(m.fields);
    ParseHeadersReadsLines(end, FieldLines(m.fields), map[]);
    AddAllIsHeaderMap(m.fields);
  }

  lemma ParseHead(end: Bytes, m: Message)
    requires Clean(m) && m.fields != [] && LineEnd(end)
    ensures ParseSection(HeadWith(end, m), m.body) == Some(Expected(m))
  {
    hide StartLine, HeadWith, JoinLines, FieldLines, ParseSection, ParseStart, ParseHeaders, FindChar, TrimCr;
    hide Expected, HeaderMap, Clean, OneLine;
    var start, rest := StartLine(m), JoinLines(end, FieldLines(m.fields));
    CleanStartLine(m);
    ParseStartLine(m);
    HeadersOf(end, m);
    HeadIsLines(end, m);
    FirstLine(start, end, rest);
    HeadersFollow(HeadWith(end, m), m.body, start, |start| + |end| - 1, rest, m.verb, m.path, m.version);
    ExpectedIs(m);
  }

  lemma ExpectedIs(m: Message)
    ensures Expected(m) == Request(m.verb, m.path, m.version, HeaderMap(m.fields), m.body)
  {
  }

  lemma HeadersFollow(section: Bytes, body: Bytes, line: Bytes, p: nat, rest: Bytes,
                      verb: Bytes, path: Bytes, version: Bytes)
    requires FindChar(section, '\n', 0) == Some(p) && p < |section|
    requires TrimCr(section[..p]) == line && section[p + 1..] == rest
    requires ParseStart(line) == Some((verb, path, version))
    ensures ParseSection(section, body) == Some(Request(verb, path, version, ParseHeaders(rest, map[]), body))
  {
    hide FindChar, TrimCr, ParseStart, ParseHeaders;
  }

  /** Parsing a rendered request with at least one header gives back its method, path, version and
      body, and the lower-cased header map. */
  lemma ParseRendered(m: Message)
    requires Clean(m) && m.fields != []
    ensures Parse(Render(m)) == Some(Expected(m))
  {
    RenderedParts(m);
    ParseHead(CRLF, m);
    hide Render, HeaderEnd, Clean, ParseSection, Expected, Head, Find;
  }

  /** The parser gives a clean request back exactly if it has a header; without one it refuses it. */
  lemma ParseRenderedIffHeader(m: Message)
    requires Clean(m)
    ensures Parse(Render(m)) == Some(Expected(m)) <==> m.fields != []
    ensures m.fields == [] ==> Parse(Render(m)) == None
  {
    if m.fields != [] { ParseRendered(m); }
    else {
      RenderedParts(m);
      CleanStartLine(m);
      OnlyLine(StartLine(m));
      hide FindChar, Render, HeaderEnd, Find, Clean;
    }
  }

  // ----- looking headers up -----

  /** No two names are the same up to case. */
  ghost predicate DistinctNames(fields: seq<Field>) {
    forall i, j :: 0 <= i < j < |fields| ==> !SameButCase(fields[i].name, fields[j].name)
  }

  lemma {:induction false} HeaderMapHolds(fields: seq<Field>, i: nat)
    requires DistinctNames(fields) && i < |fields|
    ensures Lower(fields[i].name) in HeaderMap(fields) && HeaderMap(fields)[Lower(fields[i].name)] == fields[i].value
    decreases |fields|
  {
    hide Lower, SameButCase;
    var n := |fields| - 1;
    if i < n {
      HeaderMapHolds(fields[..n], i);
      LowerIff(fields[i].name, fields[n].name);
    }
  }

  lemma {:induction false} HeaderMapLacks(fields: seq<Field>, key: Bytes)
    requires forall i :: 0 <= i < |fields| ==> Lower(fields[i].name) != key
    ensures key !in HeaderMap(fields)
    decreases |fields|
  {
    if fields != [] { HeaderMapLacks(fields[..|fields| - 1], key); }
  }

  /** With names that differ in more than case, the parsed request answers for every field under any
      spelling of its name, and for nothing else. */
  lemma LookUpAfterParse(m: Message, key: Bytes)
    requires Clean(m) && m.fields != [] && DistinctNames(m.fields)
    ensures Parse(Render(m)).Some?
    ensures var req := Parse(Render(m)).value;
            && (forall i :: 0 <= i < |m.fields| && SameButCase(m.fields[i].name, key) ==>
                  Header(req, key) == Some(m.fields[i].value))
            && (Header(req, key).Some? ==> exists i :: 0 <= i < |m.fields| && SameButCase(m.fields[i].name, key))
  {
    hide Parse, Render, Lower, SameButCase;
    ParseRendered(m);
    forall i | 0 <= i < |m.fields|
      ensures Lower(m.fields[i].name) in HeaderMap(m.fields)
      ensures HeaderMap(m.fields)[Lower(m.fields[i].name)] == m.fields[i].value
      ensures Lower(m.fields[i].name) == Lower(key) <==> SameButCase(m.fields[i].name, key)
    {
      HeaderMapHolds(m.fields, i);
      LowerIff(m.fields[i].name, key);
    }
    if forall i :: 0 <= i < |m.fields| ==> Lower(m.fields[i].name) != Lower(key) {
      HeaderMapLacks(m.fields, Lower(key));
    }
  }

  // ----- header lines in general -----

  function Spaces(n: nat): Bytes { seq(n, (_: nat) => ' ') }

  lemma {:induction false} TrimSpacesOf(n: nat, value: Bytes)
    requires value != [] ==> value[0] != ' '
    ensures TrimSpaces(Spaces(n) + value) == value
    decreases n
  {
    if n == 0 { assert Spaces(0) + value == value; }
    else {
      assert (Spaces(n) + value)[1..] == Spaces(n - 1) + value;
      TrimSpacesOf(n - 1, value);
    }
  }

  /** A name, a colon, any number of spaces and a value set the lower-cased name to the value; a line
      without a colon sets nothing. */
  lemma HeaderLineMeans(headers: map<Bytes, Bytes>, name: Bytes, n: nat, value: Bytes, line: Bytes)
    requires Lacks(name, ':') && (value != [] ==> value[0] != ' ') && Lacks(line, ':')
    ensures AddHeader(headers, name + [':'] + (Spaces(n) + value)) == headers[Lower(name) := value]
    ensures AddHeader(headers, line) == headers
  {
    var rest := Spaces(n) + value;
    FindBetween(name, ':', rest);
    Cut(name, ':', rest);
    TrimSpacesOf(n, value);
    var found := FindChar(line, ':', 0);
    assert line[0..] == line;
    hide FindChar, TrimSpaces, Spaces, Lower;
  }

  // ----- bare line feeds -----

  /** Every line feed is followed by something that is no line feed. */
  ghost predicate SingleFeeds(s: Bytes) {
    forall p :: 0 <= p < |s| && s[p] == '\n' ==> p + 1 < |s| && s[p + 1] != '\n'
  }

  lemma FeedLine(line: Bytes, rest: Bytes)
    requires OneLine(line) && SingleFeeds(rest) && rest != [] && rest[0] != '\n'
    ensures SingleFeeds(line + LF + rest)
  {
    var s := line + LF + rest;
    assert forall p :: 0 <= p < |line| ==> s[p] == line[p] != '\n';
    forall p | 0 <= p < |s| && s[p] == '\n' ensures p + 1 < |s| && s[p + 1] != '\n' {
      if p > |line| {
        assert s[p] == rest[p - |line| - 1];
        assert p + 1 < |s| ==> s[p + 1] == rest[p - |line|];
      } else { assert s[|line| + 1] == rest[0]; }
    }
  }

  lemma {:induction false} FeedsAreSingle(lines: seq<Bytes>)
    requires CleanLines(lines)
    ensures var s := JoinLines(LF, lines); SingleFeeds(s) && s != [] && s[0] != '\n' && Lacks(s, '\r')
    decreases |lines|
  {
    assert lines[0][0] in lines[0];
    if |lines| > 1 {
      FeedsAreSingle(lines[1..]);
      FeedLine(lines[0], JoinLines(LF, lines[1..]));
    } else {
      assert forall p :: 0 <= p < |lines[0]| ==> lines[0][p] != '\n';
    }
  }

  lemma FeedHead(m: Message)
    requires Clean(m)
    ensures SingleFeeds(HeadWith(LF, m)) && Lacks(HeadWith(LF, m), '\r')
  {
    CleanStartLine(m);
    if m.fields != [] {
      CleanFieldLines(m.fields);
      FeedsAreSingle(FieldLines(m.fields));
      FeedLine(StartLine(m), JoinLines(LF, FieldLines(m.fields)));
    } else {
      var start := StartLine(m);
      assert forall p :: 0 <= p < |start| ==> start[p] != '\n';
    }
  }

  /** A blank CRLF line behind a bare blank line is one of the body. */
  lemma BlankOnlyInBody(head: Bytes, body: Bytes, q: nat)
    requires Lacks(head, '\r')
    ensures var n := |head| + 2;
            MatchAt(head + BARE_BLANK + body, BLANK, q) <==> n <= q && MatchAt(body, BLANK, q - n)
  {
    var raw, n := head + BARE_BLANK + body, |head| + 2;
    if n <= q {
      if q + 4 <= |raw| { assert raw[q..q + 4] == body[q - n..q - n + 4]; }
    } else {
      assert raw[q] != '\r' by { assert q < |head| ==> raw[q] == head[q]; }
      if MatchAt(raw, BLANK, q) { MatchMeans(raw, q); }
    }
  }

  /** With bare line feeds the headers end at the first double one, unless the body has a CRLF pair. */
  lemma BareBlank(head: Bytes, body: Bytes)
    requires SingleFeeds(head) && Lacks(head, '\r')
    ensures var raw := head + BARE_BLANK + body;
            && (Find(body, BLANK, 0).None? ==> HeaderEnd(raw) == Some(|head|))
            && (Find(body, BLANK, 0).Some? ==> HeaderEnd(raw) == Some(|head| + 2 + Find(body, BLANK, 0).value))
  {
    hide Find, MatchAt, SingleFeeds, Lacks;
    var raw, n := head + BARE_BLANK + body, |head| + 2;
    FindMeans(body, BLANK, 0);
    forall q: nat ensures MatchAt(raw, BLANK, q) <==> n <= q && MatchAt(body, BLANK, q - n) {
      BlankOnlyInBody(head, body, q);
    }
    BareFound(head, body);
    if Find(body, BLANK, 0).Some? { FirstMatchIs(raw, BLANK, 0, n + Find(body, BLANK, 0).value); }
    else { NoMatchIs(raw, BLANK, 0); }
  }

  lemma BareFound(head: Bytes, body: Bytes)
    requires SingleFeeds(head)
    ensures Find(head + BARE_BLANK + body, BARE_BLANK, 0) == Some(|head|)
  {
    var raw := head + BARE_BLANK + body;
    assert raw[|head|..|head| + 2] == BARE_BLANK;
    forall q: nat | q < |head| ensures !MatchAt(raw, BARE_BLANK, q) {
      assert raw[q] == head[q];
      if head[q] == '\n' { assert raw[q + 1] == head[q + 1]; }
      if q + 2 <= |raw| { assert raw[q..q + 2][0] == raw[q] && raw[q..q + 2][1] == raw[q + 1]; }
    }
    FirstMatchIs(raw, BARE_BLANK, 0, |head|);
  }

  /** A request with bare line feeds and at least one header is parsed like one with CRLF, if and only if
      its body has no blank CRLF line. */
  lemma ParseWithFeedsIff(m: Message)
    requires Clean(m) && m.fields != []
    ensures Parse(RenderWith(LF, m)) == Some(Expected(m)) <==> Find(m.body, BLANK, 0).None?
  {
    hide HeadWith, RenderWith, HeaderEnd, Find, ParseSection, Parse, Expected, SingleFeeds, Clean, Lacks;
    var head, raw := HeadWith(LF, m), RenderWith(LF, m);
    RenderedWith(LF, m);
    assert LF + LF == BARE_BLANK;
    FeedHead(m);
    BareBlank(head, m.body);
    ParseHead(LF, m);
    if Find(m.body, BLANK, 0).None? { ParseAtBareBlank(m, head); }
    else { BodyIsShorter(m, raw); }
  }

  lemma ParseAtBareBlank(m: Message, head: Bytes)
    requires HeaderEnd(head + BARE_BLANK + m.body) == Some(|head|)
    requires ParseSection(head, m.body) == Some(Expected(m))
    ensures Parse(head + BARE_BLANK + m.body) == Some(Expected(m))
  {
    hide HeaderEnd, ParseSection, Expected;
    var raw := head + BARE_BLANK + m.body;
    assert raw[..|head|] == head && raw[|head|] == '\n' && raw[|head| + 2..] == m.body;
  }

  lemma BodyIsShorter(m: Message, raw: Bytes)
    requires HeaderEnd(raw).Some? && HeaderEnd(raw).value >= |raw| - |m.body|
    ensures Parse(raw) != Some(Expected(m))
  {
    hide HeaderEnd, ParseHeaders;
  }
}
