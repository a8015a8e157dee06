/** The header section of a SIP message, line by line (src/describe_sip.cpp). Bytes are characters. */
module HeaderLines {
  import opened Options
  import opened Decimal
  import opened Text

  predicate IsBlank(c: char) {
    c == ' ' || c == '\t'
  }

  function Trimmed(t: string): (trimmed: string)
    decreases |t|
  {
    if t != [] && IsBlank(t[0]) then Trimmed(t[1..])
    else if t != [] && IsBlank(t[|t| - 1]) then Trimmed(t[..|t| - 1])
    else t
  }

  function NumberOf(t: string, maxDigits: nat): Option<nat> {
    if t == [] || |t| > maxDigits || !AllDigits(t) then None else Some(Value(t))
  }

  // ── Lines ──

  datatype Line = Line(text: string, end: nat)

  /** The whole line that begins at `at`, and where the next one does: none if the bytes end before its line feed. */
  function NextLine(bytes: string, at: nat): (line: Option<Line>)
    requires at <= |bytes|
    ensures line.Some? ==> at < line.value.end <= |bytes|
  {
    var lf := IndexOf(bytes, '\n', at);
    if lf == |bytes| then None
    else
      var cut := if lf > at && bytes[lf - 1] == '\r' then lf - 1 else lf;
      Some(Line(bytes[at..cut], lf + 1))
  }

  /** With more bytes, a line that was whole stays as it was. */
  lemma NextLineStays(bytes: string, more: string, at: nat)
    requires bytes <= more && at <= |bytes| && NextLine(bytes, at).Some?
    ensures NextLine(more, at) == NextLine(bytes, at)
  {
    IndexStays(bytes, more, '\n', at);
    assert forall i, j :: 0 <= i <= j <= |bytes| ==> more[i..j] == bytes[i..j];
  }

  lemma IndexStays(bytes: string, more: string, c: char, at: nat)
    requires bytes <= more && at <= |bytes| && IndexOf(bytes, c, at) < |bytes|
    ensures IndexOf(more, c, at) == IndexOf(bytes, c, at)
  {
  }

  class Lines {
    const bytes: string
    var at: nat

    ghost predicate Valid()
      reads this
    {
      at <= |bytes|
    }

    constructor (bytes: string, at: nat)
      requires at <= |bytes|
      ensures Valid() && this.bytes == bytes && this.at == at
    {
      this.bytes, this.at := bytes, at;
    }

    method Next() returns (line: Option<string>)
      requires Valid()
      modifies this
      ensures Valid() && (line.Some? <==> NextLine(bytes, old(at)).Some?)
      ensures if line.Some? then NextLine(bytes, old(at)) == Some(Line(line.value, at)) else at == old(at)
    {
      var lf := IndexOf(bytes, '\n', at);
      if lf == |bytes| {
        return None;
      }
      var cut := if lf > at && bytes[lf - 1] == '\r' then lf - 1 else lf;
      line := Some(bytes[at..cut]);
      at := lf + 1;
    }
  }

  // ── Header lines ──

  const MaxHeaderLines: nat := 128
  const MaxContentLength: nat := 100000000

  /** What was read of a header section: where, how many lines, the Content-Length; whether the empty
    * line came, and whether a line was malformed. */
  datatype Headers = Headers(at: nat, count: nat, contentLength: Option<nat>, ended: bool, malformed: bool)

  /** What one header line, not an empty one, adds. */
  function WithLine(read: Headers, line: Line): (next: Headers)
    requires line.text != []
    ensures next.at == line.end && !next.ended
  {
    var counted := read.(at := line.end, count := read.count + 1, ended := false);
    if counted.count > MaxHeaderLines then counted.(malformed := true)
    else if IsBlank(line.text[0]) then counted.(malformed := false)
    else
      var colon := IndexOf(line.text, ':', 0);
      if colon == |line.text| then counted.(malformed := true)
      else
        var name, value := LowerText(Trimmed(line.text[..colon])), Trimmed(line.text[colon + 1..]);
        if (name == "content-length" || name == "l") && read.contentLength == None then
          match NumberOf(value, 9)
          case Some(n) => if n > MaxContentLength then counted.(malformed := true) else counted.(contentLength := Some(n), malformed := false)
          case None => counted.(malformed := true)
        else counted.(malformed := false)
  }

  /** The header section as far as the bytes hold whole lines of it, from `at` on. */
  function ReadHeaders(bytes: string, at: nat, count: nat, contentLength: Option<nat>): (read: Headers)
    requires at <= |bytes|
    ensures at <= read.at <= |bytes| && !(read.ended && read.malformed) && count <= read.count
    decreases |bytes| - at
  {
    match NextLine(bytes, at)
    case None => Headers(at, count, contentLength, false, false)
    case Some(line) =>
      if line.text == [] then Headers(line.end, count, contentLength, true, false)
      else
        var next := WithLine(Headers(at, count, contentLength, false, false), line);
        if next.malformed then next else ReadHeaders(bytes, line.end, next.count, next.contentLength)
  }

  method ReadHeaderLines(lines: Lines, count: nat, contentLength: Option<nat>) returns (read: Headers)
    requires lines.Valid()
    modifies lines
    ensures lines.Valid() && read == ReadHeaders(lines.bytes, old(lines.at), count, contentLength) && lines.at == read.at
  {
    read := Headers(lines.at, count, contentLength, false, false);
    while true
      invariant lines.Valid() && read.at == lines.at && !read.ended && !read.malformed
      invariant ReadHeaders(lines.bytes, old(lines.at), count, contentLength)
                == ReadHeaders(lines.bytes, lines.at, read.count, read.contentLength)
      decreases |lines.bytes| - lines.at
    {
      var line := lines.Next();
      if line == None {
        return;
      }
      if line.value == [] {
        read := read.(at := lines.at, ended := true);
        return;
      }
      read := WithLine(read, Line(line.value, lines.at));
      if read.malformed {
        return;
      }
    }
  }

  /** More lines counted before a malformed header section do not mend it. */
  lemma {:induction false} MalformedCounted(bytes: string, at: nat, count: nat, more: nat, contentLength: Option<nat>)
    requires at <= |bytes| && count <= more && ReadHeaders(bytes, at, count, contentLength).malformed
    ensures ReadHeaders(bytes, at, more, contentLength).malformed
    decreases |bytes| - at
  {
    var line := NextLine(bytes, at).value;
    var next := WithLine(Headers(at, count, contentLength, false, false), line);
    var further := WithLine(Headers(at, more, contentLength, false, false), line);
    if !further.malformed {
      MalformedCounted(bytes, line.end, next.count, further.count, next.contentLength);
    }
  }

  /** With more bytes, reading goes on where it stopped, and what it told stays told. */
  lemma {:induction false} ReadHeadersStays(bytes: string, more: string, at: nat, count: nat, contentLength: Option<nat>)
    requires bytes <= more && at <= |bytes|
    ensures var read := ReadHeaders(bytes, at, count, contentLength);
            && (read.ended ==> ReadHeaders(more, at, count, contentLength) == read)
            && (read.malformed ==> ReadHeaders(more, at, count, contentLength).malformed)
            && (!read.ended && !read.malformed ==>
                  ReadHeaders(more, at, count, contentLength) == ReadHeaders(more, read.at, read.count, read.contentLength))
    decreases |bytes| - at
  {
    if NextLine(bytes, at).Some? {
      NextLineStays(bytes, more, at);
      var line := NextLine(bytes, at).value;
      if line.text != [] {
        var next := WithLine(Headers(at, count, contentLength, false, false), line);
        if !next.malformed {
          ReadHeadersStays(bytes, more, line.end, next.count, next.contentLength);
        }
      }
    }
  }

  /** Where reading stopped for want of a line feed, there is none. */
  lemma {:induction false} StoppedForWant(bytes: string, at: nat, count: nat, contentLength: Option<nat>)
    requires at <= |bytes|
    ensures var read := ReadHeaders(bytes, at, count, contentLength);
            !read.ended && !read.malformed ==> NextLine(bytes, read.at) == None
    decreases |bytes| - at
  {
    if NextLine(bytes, at).Some? {
      var line := NextLine(bytes, at).value;
      if line.text != [] {
        var next := WithLine(Headers(at, count, contentLength, false, false), line);
        if !next.malformed {
          StoppedForWant(bytes, line.end, next.count, next.contentLength);
        }
      }
    }
  }
}
