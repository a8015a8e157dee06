/** Framing the message a byte string begins with, as its bytes come (src/describe_sip.cpp,
  * src/describe_http.cpp): given the bytes again with more behind them, only the new ones are read. */
module MessageFraming {
  import opened Options
  import opened Decimal
  import opened Text
  import opened HeaderLines

  predicate StartsWith(t: string, prefix: string) {
    prefix <= t
  }

  // ── A SIP message ──

  const MaxMethodBytes: nat := 32

  predicate IsTokenChar(c: char) {
    IsLetter(c) || IsDigit(c) || c in "-.!%*_+`'~"
  }

  function TokenLength(t: string): (n: nat)
    ensures n <= |t|
  {
    if t == [] || !IsTokenChar(t[0]) then 0 else 1 + TokenLength(t[1..])
  }

  function UriLength(t: string): (n: nat)
    ensures n <= |t|
  {
    if t == [] || t[0] <= ' ' || t[0] >= '\U{7F}' then 0 else 1 + UriLength(t[1..])
  }

  /** A start line: SIP/2.0 200 OK, or INVITE sip:bob@example.com SIP/2.0. */
  predicate IsStartLine(line: string) {
    if StartsWith(line, "SIP/2.0 ") then
      var rest := line[8..];
      && |rest| >= 3 && '1' <= rest[0] <= '6' && IsDigit(rest[1]) && IsDigit(rest[2])
      && (|rest| > 3 ==> rest[3] == ' ')
    else
      var n := TokenLength(line);
      && 0 < n <= MaxMethodBytes && n < |line| && line[n] == ' '
      && var rest := line[n + 1..];
         var u := UriLength(rest);
         u > 0 && ':' in rest[..u] && IsLetter(rest[0]) && rest[u..] == " SIP/2.0"
  }

  function SkipLineEnds(bytes: string, at: nat): (next: nat)
    requires at <= |bytes|
    ensures at <= next <= |bytes| && (next < |bytes| ==> bytes[next] !in "\r\n")
    decreases |bytes| - at
  {
    if at < |bytes| && (bytes[at] == '\r' || bytes[at] == '\n') then SkipLineEnds(bytes, at + 1) else at
  }

  /** Where the header lines begin, if the bytes begin with a whole start line. */
  function HeadersAt(bytes: string): (at: Option<nat>)
    ensures at.Some? ==> 0 < at.value <= |bytes|
  {
    match NextLine(bytes, SkipLineEnds(bytes, 0))
    case None => None
    case Some(line) => if IsStartLine(line.text) then Some(line.end) else None
  }

  /** The length of the message; one more than the bytes while its header section goes on; none if malformed. */
  function Decide(read: Headers, length: nat): Option<nat> {
    if read.malformed then None
    else if !read.ended then Some(length + 1)
    else Some(read.at + if read.contentLength.Some? then read.contentLength.value else 0)
  }

  /** Framing from scratch. */
  function FrameSip(bytes: string): Option<nat> {
    match HeadersAt(bytes)
    case None => None
    case Some(at) => Decide(ReadHeaders(bytes, at, 0, None), |bytes|)
  }

  lemma {:induction false} SkipStays(bytes: string, more: string, at: nat)
    requires bytes <= more && at <= |bytes| && SkipLineEnds(bytes, at) < |bytes|
    ensures SkipLineEnds(more, at) == SkipLineEnds(bytes, at)
    decreases |bytes| - at
  {
    if bytes[at] == '\r' || bytes[at] == '\n' {
      SkipStays(bytes, more, at + 1);
    }
  }

  lemma HeadersAtStays(bytes: string, more: string)
    requires bytes <= more && HeadersAt(bytes).Some?
    ensures HeadersAt(more) == HeadersAt(bytes)
  {
    var at := SkipLineEnds(bytes, 0);
    NextLineStays(bytes, more, at);
    SkipStays(bytes, more, 0);
  }

  /** Header lines read already tell, of these bytes and of all with more behind them, what reading them again would. */
  ghost predicate ReadSoFar(bytes: string, at: nat, count: nat, contentLength: Option<nat>) {
    && at <= |bytes|
    && forall more :: bytes <= more ==> FrameSip(more) == Decide(ReadHeaders(more, at, count, contentLength), |more|)
  }

  ghost predicate Decided(bytes: string, length: nat) {
    forall more :: bytes <= more ==> FrameSip(more) == Some(length)
  }

  lemma StartRead(bytes: string)
    requires HeadersAt(bytes).Some?
    ensures ReadSoFar(bytes, HeadersAt(bytes).value, 0, None)
  {
    forall more | bytes <= more
      ensures FrameSip(more) == Decide(ReadHeaders(more, HeadersAt(bytes).value, 0, None), |more|)
    {
      HeadersAtStays(bytes, more);
    }
  }

  lemma EndedRead(bytes: string, at: nat, count: nat, contentLength: Option<nat>)
    requires ReadSoFar(bytes, at, count, contentLength) && ReadHeaders(bytes, at, count, contentLength).ended
    ensures Decided(bytes, Decide(ReadHeaders(bytes, at, count, contentLength), |bytes|).value)
  {
    hide ReadHeaders, FrameSip;
    forall more | bytes <= more
      ensures FrameSip(more) == Decide(ReadHeaders(bytes, at, count, contentLength), |bytes|)
    {
      ReadHeadersStays(bytes, more, at, count, contentLength);
    }
  }

  lemma MalformedRead(bytes: string, at: nat, count: nat, contentLength: Option<nat>, further: nat)
    requires ReadSoFar(bytes, at, count, contentLength) && ReadHeaders(bytes, at, count, contentLength).malformed && count <= further
    ensures ReadSoFar(bytes, at, further, contentLength)
  {
    hide ReadHeaders, FrameSip;
    forall more | bytes <= more
      ensures FrameSip(more) == Decide(ReadHeaders(more, at, further, contentLength), |more|)
    {
      ReadHeadersStays(bytes, more, at, count, contentLength);
      MalformedCounted(more, at, count, further, contentLength);
    }
  }

  lemma PartRead(bytes: string, at: nat, count: nat, contentLength: Option<nat>)
    requires ReadSoFar(bytes, at, count, contentLength)
    requires var read := ReadHeaders(bytes, at, count, contentLength); !read.ended && !read.malformed
    ensures var read := ReadHeaders(bytes, at, count, contentLength);
            ReadSoFar(bytes, read.at, read.count, read.contentLength) && NextLine(bytes, read.at) == None
  {
    hide ReadHeaders, FrameSip;
    var read := ReadHeaders(bytes, at, count, contentLength);
    forall more | bytes <= more
      ensures FrameSip(more) == Decide(ReadHeaders(more, read.at, read.count, read.contentLength), |more|)
    {
      ReadHeadersStays(bytes, more, at, count, contentLength);
    }
    StoppedForWant(bytes, at, count, contentLength);
  }

  /** Without a line feed behind what was read, the header section goes on. */
  lemma NothingNew(bytes: string, more: string, at: nat, count: nat, contentLength: Option<nat>, searched: nat)
    requires ReadSoFar(bytes, at, count, contentLength) && bytes <= more && searched <= |bytes|
    requires forall i :: at <= i < searched ==> bytes[i] != '\n'
    requires forall i :: searched <= i < |more| ==> more[i] != '\n'
    ensures FrameSip(more) == Some(|more| + 1)
  {
    NoLineFeed(more, at);
    assert FrameSip(more) == Decide(ReadHeaders(more, at, count, contentLength), |more|);
  }

  lemma ReadSoFarStays(bytes: string, more: string, at: nat, count: nat, contentLength: Option<nat>)
    requires ReadSoFar(bytes, at, count, contentLength) && bytes <= more
    ensures ReadSoFar(more, at, count, contentLength)
    ensures FrameSip(more) == Decide(ReadHeaders(more, at, count, contentLength), |more|)
  {
  }

  lemma {:induction false} NoLineFeed(bytes: string, at: nat)
    requires at <= |bytes|
    ensures NextLine(bytes, at) == None <==> forall i :: at <= i < |bytes| ==> bytes[i] != '\n'
  {
  }

  /** What framing found in the first bytes of a message that goes on past them. */
  class FramerLook {
    var searched: nat
    var read: nat
    var headerLines: nat
    var contentLength: Option<nat>
    var length: nat

    /** The bytes framed last, those looked at in all, and whether the framing was settled: no message, or for HTTP its end. */
    ghost var given: string
    ghost var looked: nat
    ghost var settled: bool

    /** What is kept is what framing from scratch would find. */
    ghost predicate Valid()
      reads this
    {
      if length > 0 then Decided(given, length)
      else if read == 0 then searched == 0 && headerLines == 0 && contentLength == None
      else
        && ReadSoFar(given, read, headerLines, contentLength) && searched <= |given|
        && forall i :: read <= i < searched ==> given[i] != '\n'
    }

    /** Until a length is decided or the bytes are rejected, at most three bytes were looked at for each given. */
    ghost predicate Frugal()
      reads this
    {
      !settled ==>
        if length > 0 then looked <= 3 * |given|
        else if read == 0 then looked == 0
        else read <= |given| && looked <= read + 2 * |given| && searched == |given|
    }

    constructor ()
      ensures Valid() && Frugal() && given == "" && looked == 0 && !settled && searched == read == length == 0
    {
      searched, read, headerLines, contentLength, length := 0, 0, 0, None, 0;
      given, looked, settled := "", 0, false;
    }

    /** Frame the SIP message the bytes begin with: what framing from scratch tells. */
    method FrameSipMessage(payload: string) returns (framed: Option<nat>)
      requires Valid() && Frugal() && given <= payload
      modifies this
      ensures Valid() && Frugal() && given == payload && settled == (old(settled) || framed == None)
      ensures framed == FrameSip(payload)
      ensures old(length) > 0 ==> looked == old(looked)
    {
      hide ReadHeaders, ReadSoFar, IsStartLine, IndexOf, NextLine;
      var len := |payload|;
      ghost var before, seen := given, 0;
      if length > 0 {
        given := payload;
        return Some(length); // its header section told it, and more bytes change nothing
      }
      if read == 0 {
        var at := SkipLineEnds(payload, 0);
        var line := NextLine(payload, at);
        if line == None || !IsStartLine(line.value.text) {
          given, settled := payload, true;
          return None;
        }
        StartRead(payload);
        read := line.value.end;
        looked := looked + read;
      } else {
        var from := if searched < len then searched else len;
        looked := looked + (len - from);
        NoLineFeed(payload, from);
        if IndexOf(payload, '\n', from) == len {
          NothingNew(before, payload, read, headerLines, contentLength, from);
          ReadSoFarStays(before, payload, read, headerLines, contentLength);
          searched, given := len, payload;
          return Some(len + 1);
        }
        ReadSoFarStays(before, payload, read, headerLines, contentLength);
        seen := from;
      }
      framed := ReadOn(payload, seen);
    }

    /** Read the header lines behind those read already. */
    method ReadOn(payload: string, ghost seen: nat) returns (framed: Option<nat>)
      requires length == 0 && 0 < read <= |payload| && ReadSoFar(payload, read, headerLines, contentLength)
      requires searched <= |payload| && forall i :: read <= i < searched ==> payload[i] != '\n'
      requires seen <= |payload| && (seen > 0 ==> exists i :: seen <= i < |payload| && payload[i] == '\n')
      requires settled || looked <= read + |payload| + seen
      modifies this
      ensures Valid() && Frugal() && given == payload && settled == (old(settled) || framed == None)
      ensures framed == FrameSip(payload)
    {
      hide ReadHeaders, ReadSoFar, Decided, FrameSip, NextLine;
      ReadSoFarStays(payload, payload, read, headerLines, contentLength);
      var len := |payload|;
      looked := looked + (len - read);
      var lines := new Lines(payload, read);
      var headers := ReadHeaderLines(lines, headerLines, contentLength);
      given := payload;
      if headers.malformed {
        MalformedRead(payload, read, headerLines, contentLength, headers.count);
        headerLines, settled := headers.count, true;
        return None;
      }
      if !headers.ended {
        PartRead(payload, read, headerLines, contentLength);
        NoLineFeed(payload, headers.at);
      } else {
        EndedRead(payload, read, headerLines, contentLength);
      }
      headerLines, read, searched, contentLength := headers.count, headers.at, len, headers.contentLength;
      if !headers.ended {
        return Some(len + 1);
      }
      length := read + if contentLength.Some? then contentLength.value else 0;
      return Some(length);
    }

    /** Of an HTTP message, no empty line begins in what was searched, whatever bytes follow. */
    ghost predicate ValidHttp()
      reads this
    {
      NoEmptyLineBefore(given, searched)
    }

    /** Until the empty line comes or the bytes are rejected, at most three bytes were looked at for each given. */
    ghost predicate FrugalHttp()
      reads this
    {
      settled || (looked <= 3 * |given| && |given| <= searched + 2)
    }

    /** Frame the header section of the HTTP message the bytes begin with: what framing from scratch tells. */
    method FrameHttpHeader(payload: string) returns (framed: Option<nat>)
      requires ValidHttp() && FrugalHttp() && given <= payload && given != payload
      modifies this
      ensures ValidHttp() && FrugalHttp() && given == payload
      ensures settled == (old(settled) || framed != Some(|payload| + 1)) && looked <= old(looked) + |payload|
      ensures framed == FrameHttp(payload)
      ensures !old(settled) ==> looked <= 3 * |payload|
    {
      var len := |payload|;
      NoEmptyLineStays(given, payload, searched);
      ghost var before := given;
      given := payload;
      if !BeginsHttp(payload) {
        settled := true;
        return None;
      }
      var from := if searched < len then searched else len;
      looked := looked + (len - from);
      var i := from;
      while i + 1 < len
        invariant from <= i && forall k :: 0 <= k < i && k < len ==> !EmptyLineAt(payload, k)
        decreases len - i
      {
        if EmptyLineAt(payload, i) {
          FirstEmptyLine(payload, i);
          settled := true;
          return Some(if payload[i + 1] == '\n' then i + 2 else i + 3);
        }
        i := i + 1;
      }
      NoEmptyLine(payload);
      searched := if len < 2 then 0 else len - 2;
      return Some(len + 1);
    }
  }

  // ── An HTTP header section ──

  predicate BeginsHttp(bytes: string) {
    || StartsWith(bytes, "GET ") || StartsWith(bytes, "POST ") || StartsWith(bytes, "PUT ") || StartsWith(bytes, "DELETE ")
    || StartsWith(bytes, "HEAD ") || StartsWith(bytes, "PATCH ") || StartsWith(bytes, "OPTIONS ") || StartsWith(bytes, "CONNECT ")
    || StartsWith(bytes, "HTTP/")
  }

  /** An empty line, and the end of the line before it, begin at `i`. */
  predicate EmptyLineAt(bytes: string, i: nat) {
    && i + 1 < |bytes| && bytes[i] == '\n'
    && (bytes[i + 1] == '\n' || (bytes[i + 1] == '\r' && i + 2 < |bytes| && bytes[i + 2] == '\n'))
  }

  /** Where the first empty line ends. */
  function EmptyLineEnd(bytes: string, from: nat): Option<nat>
    decreases |bytes| - from
  {
    if from >= |bytes| then None
    else if EmptyLineAt(bytes, from) then Some(if bytes[from + 1] == '\n' then from + 2 else from + 3)
    else EmptyLineEnd(bytes, from + 1)
  }

  /** Framing from scratch. */
  function FrameHttp(bytes: string): Option<nat> {
    if !BeginsHttp(bytes) then None
    else
      match EmptyLineEnd(bytes, 0)
      case Some(end) => Some(end)
      case None => Some(|bytes| + 1)
  }

  ghost predicate NoEmptyLineBefore(bytes: string, searched: nat) {
    searched <= |bytes| && forall more, i :: bytes <= more && 0 <= i < searched ==> !EmptyLineAt(more, i)
  }

  lemma NoEmptyLineStays(bytes: string, more: string, searched: nat)
    requires NoEmptyLineBefore(bytes, searched) && bytes <= more
    ensures NoEmptyLineBefore(more, searched)
  {
  }

  lemma {:induction false} FirstEmptyLineFrom(bytes: string, from: nat, i: nat)
    requires from <= i && EmptyLineAt(bytes, i) && forall k :: from <= k < i ==> !EmptyLineAt(bytes, k)
    ensures EmptyLineEnd(bytes, from) == Some(if bytes[i + 1] == '\n' then i + 2 else i + 3)
    decreases i - from
  {
    if from < i {
      FirstEmptyLineFrom(bytes, from + 1, i);
    }
  }

  lemma FirstEmptyLine(bytes: string, i: nat)
    requires EmptyLineAt(bytes, i) && forall k :: 0 <= k < i && k < |bytes| ==> !EmptyLineAt(bytes, k)
    ensures EmptyLineEnd(bytes, 0) == Some(if bytes[i + 1] == '\n' then i + 2 else i + 3)
  {
    FirstEmptyLineFrom(bytes, 0, i);
  }

  lemma {:induction false} NoEmptyLineFrom(bytes: string, from: nat)
    requires forall k :: from <= k < |bytes| ==> !EmptyLineAt(bytes, k)
    ensures EmptyLineEnd(bytes, from) == None
    decreases |bytes| - from
  {
    if from < |bytes| {
      NoEmptyLineFrom(bytes, from + 1);
    }
  }

  /** Where none begins, one may still begin in the last two bytes and end in the next. */
  lemma NoEmptyLine(bytes: string)
    requires forall k :: 0 <= k && k + 1 < |bytes| ==> !EmptyLineAt(bytes, k)
    ensures EmptyLineEnd(bytes, 0) == None
    ensures NoEmptyLineBefore(bytes, if |bytes| < 2 then 0 else |bytes| - 2)
  {
    NoEmptyLineFrom(bytes, 0);
    forall more, i | bytes <= more && 0 <= i < |bytes| - 2
      ensures !EmptyLineAt(more, i)
    {
      assert !EmptyLineAt(bytes, i);
    }
  }
}
