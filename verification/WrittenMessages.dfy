/** SIP messages and HTTP header sections as they are written, and the length framing tells of each
  * (section 7 of RFC 3261, section 5 of RFC 9112). */
module WrittenMessages {
  import opened Options
  import opened Decimal
  import opened Text
  import opened HeaderLines
  import opened MessageFraming

  // ── Lines ──

  predicate IsLineEnd(end: string) {
    end == "\r\n" || end == "\n"
  }

  /** A line's text, as it is told from its end. */
  predicate IsLineText(text: string, end: string) {
    IsLineEnd(end) && '\n' !in text && (end == "\n" && text != "" ==> text[|text| - 1] != '\r')
  }

  lemma LineIsRead(bytes: string, at: nat, text: string, end: string)
    requires IsLineText(text, end) && TextAt(bytes, at, text + end)
    ensures NextLine(bytes, at) == Some(Line(text, at + |text + end|))
  {
    hide IndexOf;
    var lf := at + |text + end| - 1;
    LineFeedIs(bytes, at, text, end);
    TextSplits(bytes, at, text, end);
    CharsAt(bytes, at, text + end);
    assert bytes[at + |text|] == (text + end)[|text|] == end[0];
    assert text != "" ==> bytes[at + (|text| - 1)] == (text + end)[|text| - 1];
  }

  lemma LineFeedIs(bytes: string, at: nat, text: string, end: string)
    requires IsLineText(text, end) && TextAt(bytes, at, text + end)
    ensures at + |text + end| <= |bytes| && IndexOf(bytes, '\n', at) == at + |text + end| - 1
  {
    var whole := text + end;
    CharsAt(bytes, at, whole);
    forall k | at <= k < at + |whole| - 1
      ensures bytes[k] != '\n'
    {
      assert bytes[at + (k - at)] == whole[k - at];
    }
    assert bytes[at + (|whole| - 1)] == whole[|whole| - 1] == '\n';
    IndexIs(bytes, '\n', at, at + |whole| - 1);
  }

  /** A text without blanks around it. */
  predicate IsBare(s: string) {
    s != "" ==> !IsBlank(s[0]) && !IsBlank(s[|s| - 1])
  }

  /** Blanks around a text are passed over. */
  lemma {:induction false} BareIsRead(lead: string, value: string, trail: string)
    requires AllBlanks(lead) && IsBare(value) && AllBlanks(trail)
    ensures Trimmed(lead + value + trail) == value
    decreases |lead| + |trail|
  {
    var whole := lead + value + trail;
    if lead != "" {
      assert whole[1..] == lead[1..] + value + trail;
      BareIsRead(lead[1..], value, trail);
    } else if trail != "" {
      var n := |trail| - 1;
      assert whole == value + trail && whole[|whole| - 1] == trail[n];
      if value == "" {
        assert whole[1..] == [] + value + trail[1..];
        BareIsRead("", value, trail[1..]);
      } else {
        assert whole[..|whole| - 1] == [] + value + trail[..n];
        BareIsRead("", value, trail[..n]);
      }
    } else {
      assert whole == value;
    }
  }

  // ── SIP ──

  /** A header line: one that goes on with the header before it, one that is no header, or a header. */
  datatype Header =
    | Folded(text: string, end: string)
    | Bare(text: string, end: string)
    | Field(name: string, gap: string, lead: string, value: string, trail: string, end: string)

  function HeaderText(h: Header): string {
    match h
    case Folded(text, _) => text
    case Bare(text, _) => text
    case Field(name, gap, lead, value, trail, _) => name + gap + ":" + (lead + value + trail)
  }

  predicate IsHeader(h: Header) {
    && IsLineText(HeaderText(h), h.end)
    && match h
       case Folded(text, _) => text != "" && IsBlank(text[0])
       case Bare(text, _) => text != "" && !IsBlank(text[0]) && ':' !in text
       case Field(name, gap, lead, value, trail, _) =>
         name != "" && IsBare(name) && ':' !in name && IsBare(value) && AllBlanks(gap) && AllBlanks(lead) && AllBlanks(trail)
  }

  /** Content-Length, or l for short. */
  predicate IsLengthName(name: string) {
    LowerText(name) in ["content-length", "l"]
  }

  /** The value of the first Content-Length. */
  function LengthValue(headers: seq<Header>): Option<string> {
    if headers == [] then None
    else if headers[0].Field? && IsLengthName(headers[0].name) then Some(headers[0].value)
    else LengthValue(headers[1..])
  }

  /** One to nine digits, of at most 100 million. */
  predicate IsLength(value: string) {
    0 < |value| <= 9 && AllDigits(value) && Value(value) <= 100_000_000
  }

  predicate HasBare(headers: seq<Header>) {
    exists k :: 0 <= k < |headers| && headers[k].Bare?
  }

  function HeaderSection(headers: seq<Header>): string {
    if headers == [] then "" else HeaderText(headers[0]) + headers[0].end + HeaderSection(headers[1..])
  }

  lemma FieldIsRead(h: Header, read: Headers, end: nat)
    requires IsHeader(h) && h.Field? && read.count < MaxHeaderLines
    ensures HeaderText(h) != []
    ensures WithLine(read, Line(HeaderText(h), end)) ==
            var counted := read.(at := end, count := read.count + 1, ended := false);
            if IsLengthName(h.name) && read.contentLength == None then
              if IsLength(h.value) then counted.(contentLength := Some(Value(h.value)), malformed := false) else counted.(malformed := true)
            else counted.(malformed := false)
  {
    hide Trimmed, Value;
    var text, before := HeaderText(h), h.name + h.gap;
    assert text[|before|] == ':' && text[..|before|] == before && text[|before| + 1..] == h.lead + h.value + h.trail;
    forall m | 0 <= m < |before|
      ensures text[m] != ':'
    {
      assert text[m] == before[m];
    }
    IndexIs(text, ':', 0, |before|);
    assert "" + h.name + h.gap == before;
    BareIsRead("", h.name, h.gap);
    BareIsRead(h.lead, h.value, h.trail);
    assert text[0] == h.name[0];
  }

  lemma OtherIsRead(h: Header, read: Headers, end: nat)
    requires IsHeader(h) && !h.Field? && read.count < MaxHeaderLines
    ensures HeaderText(h) != []
    ensures WithLine(read, Line(HeaderText(h), end)) == read.(at := end, count := read.count + 1, ended := false, malformed := h.Bare?)
  {
    if h.Bare? {
      NoColon(h.text);
    }
  }

  lemma NoColon(text: string)
    requires ':' !in text
    ensures IndexOf(text, ':', 0) == |text|
  {
  }

  /** Whether the lines make the message malformed: too many, one that is no header, or a bad Content-Length. */
  predicate IsMalformed(headers: seq<Header>, before: nat, needsLength: bool) {
    || before + |headers| > 128 || HasBare(headers)
    || (needsLength && LengthValue(headers).Some? && !IsLength(LengthValue(headers).value))
  }

  /** The length read before, or else that of the first Content-Length, if there is one. */
  function LengthAfter(headers: seq<Header>, contentLength: Option<nat>): Option<nat>
    requires contentLength == None && LengthValue(headers).Some? ==> IsLength(LengthValue(headers).value)
  {
    if contentLength.Some? then contentLength
    else if LengthValue(headers).Some? then Some(Value(LengthValue(headers).value))
    else None
  }

  lemma FirstHeader(h: Header, rest: seq<Header>)
    ensures HasBare([h] + rest) <==> h.Bare? || HasBare(rest)
    ensures LengthValue([h] + rest) == if h.Field? && IsLengthName(h.name) then Some(h.value) else LengthValue(rest)
  {
    var all := [h] + rest;
    assert all[1..] == rest;
    if HasBare(rest) {
      var k :| 0 <= k < |rest| && rest[k].Bare?;
      assert all[k + 1].Bare?;
    }
    if h.Bare? {
      assert all[0].Bare?;
    }
  }

  predicate IsBadLine(h: Header, needsLength: bool) {
    h.Bare? || (h.Field? && IsLengthName(h.name) && needsLength && !IsLength(h.value))
  }

  function LengthWith(h: Header, contentLength: Option<nat>): Option<nat>
    requires !IsBadLine(h, contentLength == None)
  {
    if h.Field? && IsLengthName(h.name) && contentLength == None then Some(Value(h.value)) else contentLength
  }

  lemma MalformedStep(h: Header, rest: seq<Header>, count: nat, contentLength: Option<nat>)
    requires count < MaxHeaderLines
    ensures IsBadLine(h, contentLength == None) ==> IsMalformed([h] + rest, count, contentLength == None)
    ensures !IsBadLine(h, contentLength == None) ==>
              var next := LengthWith(h, contentLength);
              && (IsMalformed([h] + rest, count, contentLength == None) <==> IsMalformed(rest, count + 1, next == None))
              && (!IsMalformed(rest, count + 1, next == None) ==> LengthAfter([h] + rest, contentLength) == LengthAfter(rest, next))
  {
    hide HasBare, IsLengthName, Value, LengthValue, IsLength;
    FirstHeader(h, rest);
  }

  /** What reading a header section up to `end` tells. */
  ghost predicate IsSectionRead(read: Headers, headers: seq<Header>, end: nat, count: nat, contentLength: Option<nat>) {
    if IsMalformed(headers, count, contentLength == None) then read.malformed
    else read == Headers(end, count + |headers|, LengthAfter(headers, contentLength), true, false)
  }

  /** The header section is read to its end, line by line. */
  lemma {:induction false} SectionIsRead(bytes: string, at: nat, headers: seq<Header>, last: string, count: nat, contentLength: Option<nat>)
    requires forall k :: 0 <= k < |headers| ==> IsHeader(headers[k])
    requires IsLineEnd(last) && TextAt(bytes, at, HeaderSection(headers) + last) && at <= |bytes| && count <= MaxHeaderLines
    ensures IsSectionRead(ReadHeaders(bytes, at, count, contentLength), headers, at + |HeaderSection(headers) + last|, count, contentLength)
    decreases |headers|
  {
    hide WithLine, IsLength, IsLineText, IsLineEnd, NextLine, TextAt, IsHeader, HeaderText, IsMalformed, LengthAfter, ReadHeaders, IsBadLine,
         LengthWith;
    if headers == [] {
      NoHeaders(bytes, at, last, count, contentLength);
    } else {
      var h, rest := headers[0], headers[1..];
      var line, more := HeaderText(h) + h.end, HeaderSection(rest) + last;
      assert HeaderSection(headers) + last == line + more;
      TextSplits(bytes, at, line, more);
      HeaderStands(bytes, at, h);
      assert headers == [h] + rest;
      if count == MaxHeaderLines {
        TooManyLines(bytes, at, h, count, contentLength);
        TooMany(headers, count, contentLength);
      } else {
        HeaderGoesOn(bytes, at, h, count, contentLength);
        MalformedStep(h, rest, count, contentLength);
        if !IsBadLine(h, contentLength == None) {
          SectionIsRead(bytes, at + |line|, rest, last, count + 1, LengthWith(h, contentLength));
        }
      }
    }
  }

  lemma HeaderStands(bytes: string, at: nat, h: Header)
    requires IsHeader(h) && TextAt(bytes, at, HeaderText(h) + h.end)
    ensures at + |HeaderText(h) + h.end| <= |bytes| && NextLine(bytes, at) == Some(Line(HeaderText(h), at + |HeaderText(h) + h.end|))
  {
    hide HeaderText, NextLine;
    LineIsRead(bytes, at, HeaderText(h), h.end);
  }

  lemma TooMany(headers: seq<Header>, count: nat, contentLength: Option<nat>)
    requires count == MaxHeaderLines && headers != []
    ensures IsMalformed(headers, count, contentLength == None)
  {
  }

  lemma NoHeaders(bytes: string, at: nat, last: string, count: nat, contentLength: Option<nat>)
    requires IsLineEnd(last) && TextAt(bytes, at, HeaderSection([]) + last) && count <= MaxHeaderLines
    ensures at <= |bytes|
    ensures IsSectionRead(ReadHeaders(bytes, at, count, contentLength), [], at + |HeaderSection([]) + last|, count, contentLength)
  {
    hide NextLine;
    assert "" + last == last;
    EmptyLineIsRead(bytes, at, last);
  }

  lemma EmptyLineIsRead(bytes: string, at: nat, last: string)
    requires IsLineEnd(last) && TextAt(bytes, at, last)
    ensures NextLine(bytes, at) == Some(Line("", at + |last|))
  {
    assert "" + last == last;
    LineIsRead(bytes, at, "", last);
  }

  lemma TooManyLines(bytes: string, at: nat, h: Header, count: nat, contentLength: Option<nat>)
    requires IsHeader(h) && count == MaxHeaderLines && at <= |bytes|
    requires NextLine(bytes, at) == Some(Line(HeaderText(h), at + |HeaderText(h) + h.end|))
    ensures ReadHeaders(bytes, at, count, contentLength).malformed
  {
    hide NextLine, Trimmed;
  }

  /** What a header line adds, and that reading goes on behind it unless it is malformed. */
  lemma HeaderGoesOn(bytes: string, at: nat, h: Header, count: nat, contentLength: Option<nat>)
    requires IsHeader(h) && count < MaxHeaderLines && at <= |bytes| && at + |HeaderText(h) + h.end| <= |bytes|
    requires NextLine(bytes, at) == Some(Line(HeaderText(h), at + |HeaderText(h) + h.end|))
    ensures var read := ReadHeaders(bytes, at, count, contentLength);
            if IsBadLine(h, contentLength == None) then read.malformed
            else read == ReadHeaders(bytes, at + |HeaderText(h) + h.end|, count + 1, LengthWith(h, contentLength))
  {
    hide NextLine, WithLine, Value, IsLengthName;
    var end := at + |HeaderText(h) + h.end|;
    var before := Headers(at, count, contentLength, false, false);
    if h.Field? {
      FieldIsRead(h, before, end);
    } else {
      OtherIsRead(h, before, end);
    }
  }

  /** A start line: a request's method and URI, or a response's code and what follows it. */
  datatype StartLine = Request(token: string, uri: string) | Status(code: string, reason: string)

  function StartText(start: StartLine): string {
    match start
    case Request(name, uri) => name + " " + (uri + " SIP/2.0")
    case Status(code, reason) => "SIP/2.0 " + (code + reason)
  }

  /** A token and a URI with a scheme, or three digits and a reason. */
  predicate IsStart(start: StartLine) {
    match start
    case Request(name, uri) =>
      && 0 < |name| <= 32 && (forall k :: 0 <= k < |name| ==> IsTokenChar(name[k]))
      && uri != "" && IsLetter(uri[0]) && ':' in uri && forall k :: 0 <= k < |uri| ==> ' ' < uri[k] < '\U{7F}'
    case Status(code, reason) =>
      && |code| == 3 && '1' <= code[0] <= '6' && IsDigit(code[1]) && IsDigit(code[2])
      && (reason != "" ==> reason[0] == ' ' && '\n' !in reason)
  }

  lemma {:induction false} TokenIsRead(token: string, rest: string)
    requires (forall k :: 0 <= k < |token| ==> IsTokenChar(token[k])) && (rest != "" ==> !IsTokenChar(rest[0]))
    ensures TokenLength(token + rest) == |token|
  {
    hide IsTokenChar;
    if token == "" {
      assert token + rest == rest;
    } else {
      assert (token + rest)[1..] == token[1..] + rest;
      TokenIsRead(token[1..], rest);
    }
  }

  lemma {:induction false} UriIsRead(uri: string, rest: string)
    requires (forall k :: 0 <= k < |uri| ==> ' ' < uri[k] < '\U{7F}') && (rest != "" ==> rest[0] == ' ')
    ensures UriLength(uri + rest) == |uri|
  {
    if uri == "" {
      assert uri + rest == rest;
    } else {
      assert (uri + rest)[1..] == uri[1..] + rest;
      UriIsRead(uri[1..], rest);
    }
  }

  lemma StartIsRead(start: StartLine)
    requires IsStart(start)
    ensures var text := StartText(start); IsStartLine(text) && '\n' !in text && text != "" && text[0] !in "\r\n"
  {
    hide TokenLength, UriLength;
    var text := StartText(start);
    match start {
      case Request(name, uri) =>
        var behind := uri + " SIP/2.0";
        TokenIsRead(name, " " + behind);
        assert text == name + (" " + behind) && text[|name|] == ' ' && text[|name| + 1..] == behind;
        UriIsRead(uri, " SIP/2.0");
        assert behind[..|uri|] == uri && behind[|uri|..] == " SIP/2.0";
        NotStatus(name, behind);
        NoLineFeedIn(name, uri);
      case Status(code, reason) =>
        assert text[..8] == "SIP/2.0 " && text[8..] == code + reason;
    }
  }

  /** No token begins a status line. */
  lemma NotStatus(name: string, behind: string)
    requires forall k :: 0 <= k < |name| ==> IsTokenChar(name[k])
    ensures !StartsWith(name + " " + behind, "SIP/2.0 ")
  {
    var text := name + " " + behind;
    if |name| > 3 {
      assert text[3] == name[3];
    } else {
      assert text[|name|] == ' ';
    }
  }

  lemma NoLineFeedIn(name: string, uri: string)
    requires (forall k :: 0 <= k < |name| ==> IsTokenChar(name[k])) && forall k :: 0 <= k < |uri| ==> ' ' < uri[k]
    requires name != ""
    ensures '\n' !in name + " " + (uri + " SIP/2.0") && name[0] !in "\r\n"
  {
  }

  predicate AllLineEnds(s: string) {
    forall k :: 0 <= k < |s| ==> s[k] == '\r' || s[k] == '\n'
  }

  lemma {:induction false} LineEndsAreSkipped(bytes: string, at: nat, next: nat)
    requires at <= next < |bytes| && AllLineEnds(bytes[at..next]) && bytes[next] !in "\r\n"
    ensures SkipLineEnds(bytes, at) == next
    decreases next - at
  {
    if at < next {
      assert bytes[at] == bytes[at..next][0] && bytes[at + 1..next] == bytes[at..next][1..];
      LineEndsAreSkipped(bytes, at + 1, next);
    }
  }

  /** A message up to its body: the line ends before it, the start line, the header lines, the empty line. */
  function SipSection(before: string, start: StartLine, end: string, headers: seq<Header>, last: string): string {
    before + (StartText(start) + end) + (HeaderSection(headers) + last)
  }

  predicate IsSipSection(before: string, start: StartLine, end: string, headers: seq<Header>, last: string) {
    && AllLineEnds(before) && IsStart(start) && IsLineText(StartText(start), end) && IsLineEnd(last)
    && forall k :: 0 <= k < |headers| ==> IsHeader(headers[k])
  }

  /** The header lines begin behind the start line, whatever follows. */
  lemma HeadersBegin(before: string, start: StartLine, end: string, rest: string)
    requires AllLineEnds(before) && IsStart(start) && IsLineText(StartText(start), end)
    ensures HeadersAt(before + (StartText(start) + end) + rest) == Some(|before| + |StartText(start) + end|)
  {
    hide StartText, IsStartLine, NextLine;
    var text := StartText(start);
    var bytes := before + (text + end) + rest;
    StartIsRead(start);
    assert bytes[0..|before|] == before && bytes[|before|] == text[0];
    LineEndsAreSkipped(bytes, 0, |before|);
    assert bytes[|before|..|before| + |text + end|] == text + end;
    LineIsRead(bytes, |before|, text, end);
  }

  /** A written message is framed as its header section and what the first Content-Length says, whatever
    * bytes follow; without one as the header section alone; and malformed lines reject it. */
  lemma MessageIsFramed(before: string, start: StartLine, end: string, headers: seq<Header>, last: string, rest: string)
    requires IsSipSection(before, start, end, headers, last)
    ensures var section := SipSection(before, start, end, headers, last);
            if IsMalformed(headers, 0, true) then FrameSip(section + rest) == None
            else FrameSip(section + rest) == Some(|section| + match LengthValue(headers) case None => 0 case Some(value) => Value(value))
  {
    hide StartText, HeaderSection, HeadersAt, ReadHeaders, IsLength, LengthValue, Value, IsHeader, HasBare;
    var first, lines := before + (StartText(start) + end), HeaderSection(headers) + last;
    var bytes := SipSection(before, start, end, headers, last) + rest;
    assert bytes == first + (lines + rest);
    HeadersBegin(before, start, end, lines + rest);
    assert bytes[|first|..|first| + |lines|] == lines;
    SectionIsRead(bytes, |first|, headers, last, 0, None);
  }

  /** While its header section is not whole, a message that has its start line is told to go on: one byte more than there are. */
  lemma PartIsNotFramed(before: string, start: StartLine, end: string, headers: seq<Header>, last: string, part: string)
    requires IsSipSection(before, start, end, headers, last) && !IsMalformed(headers, 0, true)
    requires before + (StartText(start) + end) <= part < SipSection(before, start, end, headers, last)
    ensures FrameSip(part) == Some(|part| + 1)
  {
    hide StartText, HeaderSection, HeadersAt, ReadHeaders, IsLength, LengthValue, Value, IsHeader, HasBare, LengthAfter;
    var first, section := before + (StartText(start) + end), SipSection(before, start, end, headers, last);
    var lines := HeaderSection(headers) + last;
    assert part == first + part[|first|..];
    HeadersBegin(before, start, end, part[|first|..]);
    assert section[|first|..|first| + |lines|] == lines;
    SectionIsRead(section, |first|, headers, last, 0, None);
    ReadHeadersStays(part, section, |first|, 0, None);
  }

  // ── HTTP ──

  /** A line of a header section: not empty, nor read as the end of one. */
  predicate IsSectionLine(text: string, end: string) {
    IsLineEnd(end) && text != "" && '\n' !in text && !(text == "\r" && end == "\n")
  }

  datatype TextLine = TextLine(text: string, end: string)

  function LinesText(lines: seq<TextLine>): string {
    if lines == [] then "" else lines[0].text + lines[0].end + LinesText(lines[1..])
  }

  /** A request of one of the methods, or a response. */
  predicate IsHttpStart(text: string) {
    exists first :: first in ["GET ", "POST ", "PUT ", "DELETE ", "HEAD ", "PATCH ", "OPTIONS ", "CONNECT ", "HTTP/"] && first <= text
  }

  /** No empty line begins in a line, unless it is behind it. */
  lemma {:induction false} LineIsPassed(bytes: string, from: nat, next: nat)
    requires from < next < |bytes| && bytes[next - 1] == '\n' && (forall k :: from <= k < next - 1 ==> bytes[k] != '\n')
    ensures EmptyLineEnd(bytes, from) == EmptyLineEnd(bytes, next - 1)
    decreases next - from
  {
    if from < next - 1 {
      LineIsPassed(bytes, from + 1, next);
    }
  }

  /** Behind each line another follows, up to the empty one: the section ends with that. */
  lemma {:induction false} LinesArePassed(bytes: string, at: nat, lines: seq<TextLine>, last: string)
    requires 0 < at <= |bytes| && bytes[at - 1] == '\n' && TextAt(bytes, at, LinesText(lines) + last) && IsLineEnd(last)
    requires forall k :: 0 <= k < |lines| ==> IsSectionLine(lines[k].text, lines[k].end)
    ensures EmptyLineEnd(bytes, at - 1) == Some(at + |LinesText(lines) + last|)
    decreases |lines|
  {
    hide TextAt;
    if lines == [] {
      assert "" + last == last;
      CharsAt(bytes, at, last);
      assert bytes[at + 0] == last[0] && (|last| > 1 ==> bytes[at + 1] == last[1]);
      assert bytes[at - 1] == '\n';
    } else {
      var line, rest := lines[0], lines[1..];
      var text, more := line.text + line.end, LinesText(rest) + last;
      assert LinesText(lines) + last == text + more;
      TextSplits(bytes, at, text, more);
      CharsAt(bytes, at + |text|, more);
      NotEmptyAt(bytes, at, line.text, line.end);
      LineIsPassed(bytes, at, at + |text|);
      LinesArePassed(bytes, at + |text|, rest, last);
    }
  }

  lemma NotEmptyAt(bytes: string, at: nat, text: string, end: string)
    requires 0 < at <= |bytes| && bytes[at - 1] == '\n' && TextAt(bytes, at, text + end) && IsSectionLine(text, end) && at + |text + end| < |bytes|
    ensures !EmptyLineAt(bytes, at - 1)
    ensures bytes[at + |text + end| - 1] == '\n'
    ensures forall k :: at <= k < at + |text + end| - 1 ==> bytes[k] != '\n'
  {
    var whole := text + end;
    CharsAt(bytes, at, whole);
    forall k | at <= k < at + |whole| - 1
      ensures bytes[k] != '\n'
    {
      assert bytes[at + (k - at)] == whole[k - at];
    }
    assert bytes[at + (|whole| - 1)] == whole[|whole| - 1] == '\n';
    assert bytes[at + 0] == whole[0] == text[0] && bytes[at + 1] == whole[1];
  }

  /** A header section in lines, ended by an empty one, is framed at its end, whatever follows. */
  lemma SectionIsFramed(start: TextLine, lines: seq<TextLine>, last: string, rest: string)
    requires IsSectionLine(start.text, start.end) && IsHttpStart(start.text) && IsLineEnd(last)
    requires forall k :: 0 <= k < |lines| ==> IsSectionLine(lines[k].text, lines[k].end)
    ensures var section := start.text + start.end + (LinesText(lines) + last);
            FrameHttp(section + rest) == Some(|section|)
  {
    hide LinesText, EmptyLineEnd;
    var first, more := start.text + start.end, LinesText(lines) + last;
    var bytes := first + more + rest;
    StartBegins(start.text, bytes);
    assert bytes[|first|..|first| + |more|] == more;
    assert first[|first| - 1] == '\n' && bytes[|first| - 1] == first[|first| - 1];
    forall k | 0 <= k < |first| - 1
      ensures bytes[k] != '\n'
    {
      assert bytes[k] == first[k];
    }
    LineIsPassed(bytes, 0, |first|);
    LinesArePassed(bytes, |first|, lines, last);
  }

  lemma StartBegins(text: string, bytes: string)
    requires IsHttpStart(text) && text <= bytes
    ensures BeginsHttp(bytes)
  {
    var first :| first in ["GET ", "POST ", "PUT ", "DELETE ", "HEAD ", "PATCH ", "OPTIONS ", "CONNECT ", "HTTP/"] && first <= text;
    assert first <= bytes;
  }
}
