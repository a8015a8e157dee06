/** Splitting a capture command into words as a POSIX shell quotes them, and filling in its placeholders
  * (src/command_source.cpp, src/live_source.cpp). */
module CommandLines {
  import opened Options
  import opened Text

  // ── Splitting ──

  /** The words, the first that a shell would take for an operator, and whether a quote or an escape is open. */
  datatype SplitCommand = SplitCommand(words: seq<string>, shellOperator: string, failed: bool)

  datatype Splitting = Splitting(words: seq<string>, shellOperator: string, word: string, inWord: bool, plain: bool)

  const Start := Splitting([], "", "", false, true)

  predicate HasOperator(word: string) {
    exists k :: 0 <= k < |word| && word[k] in "|&;<>"
  }

  /** The word is ended, if there is one. */
  function Finish(s: Splitting): Splitting {
    if !s.inWord then s
    else Splitting(s.words + [s.word], if s.plain && s.shellOperator == "" && HasOperator(s.word) then s.word else s.shellOperator,
                   "", false, true)
  }

  function Failed(s: Splitting): SplitCommand {
    SplitCommand(s.words, s.shellOperator, true)
  }

  function WithText(s: Splitting, text: string, plain: bool): Splitting {
    s.(inWord := true, plain := s.plain && plain, word := s.word + text)
  }

  /** The text in double quotes from `i` on, and where the closing one is. */
  datatype Quoted = Quoted(text: string, close: nat)

  function DoubleQuoted(line: string, i: nat): (quoted: Option<Quoted>)
    requires i <= |line|
    ensures quoted.Some? ==> i <= quoted.value.close < |line|
    decreases |line| - i
  {
    if i == |line| then None
    else if line[i] == '"' then Some(Quoted("", i))
    else
      var n := if line[i] == '\\' && i + 1 < |line| && (line[i + 1] == '"' || line[i + 1] == '\\') then 2 else 1;
      Behind([line[i + n - 1]], DoubleQuoted(line, i + n))
  }

  /** Quoted text behind text read before it. */
  function Behind(text: string, quoted: Option<Quoted>): Option<Quoted> {
    if quoted.Some? then Some(Quoted(text + quoted.value.text, quoted.value.close)) else None
  }

  lemma BehindMore(text: string, more: string, quoted: Option<Quoted>)
    ensures Behind(text, Behind(more, quoted)) == Behind(text + more, quoted)
  {
    if quoted.Some? {
      assert text + (more + quoted.value.text) == text + more + quoted.value.text;
    }
  }

  lemma BehindNothing(quoted: Option<Quoted>)
    ensures Behind("", quoted) == quoted
  {
    if quoted.Some? {
      assert "" + quoted.value.text == quoted.value.text;
    }
  }

  function SplitFrom(line: string, i: nat, s: Splitting): SplitCommand
    requires i <= |line|
    decreases |line| - i
  {
    if i == |line| then
      var done := Finish(s);
      SplitCommand(done.words, done.shellOperator, false)
    else if line[i] == ' ' || line[i] == '\t' then SplitFrom(line, i + 1, Finish(s))
    else if line[i] == '\'' then
      var close := IndexOf(line, '\'', i + 1);
      if close == |line| then Failed(s) else SplitFrom(line, close + 1, WithText(s, line[i + 1..close], false))
    else if line[i] == '"' then
      match DoubleQuoted(line, i + 1)
      case None => Failed(s)
      case Some(quoted) => SplitFrom(line, quoted.close + 1, WithText(s, quoted.text, false))
    else if line[i] == '\\' then
      if i + 1 >= |line| then Failed(s) else SplitFrom(line, i + 2, WithText(s, [line[i + 1]], false))
    else SplitFrom(line, i + 1, WithText(s, [line[i]], true))
  }

  method ReadDoubleQuoted(line: string, start: nat) returns (closed: bool, text: string, i: nat)
    requires start <= |line|
    ensures closed <==> DoubleQuoted(line, start).Some?
    ensures closed ==> DoubleQuoted(line, start) == Some(Quoted(text, i))
  {
    hide Behind;
    closed, text, i := false, "", start;
    BehindNothing(DoubleQuoted(line, start));
    while i < |line|
      invariant start <= i <= |line|
      invariant DoubleQuoted(line, start) == Behind(text, DoubleQuoted(line, i))
    {
      if line[i] == '"' {
        BehindLast(text, i);
        return true, text, i;
      }
      if line[i] == '\\' && i + 1 < |line| && (line[i + 1] == '"' || line[i + 1] == '\\') {
        i := i + 1;
      }
      BehindMore(text, [line[i]], DoubleQuoted(line, i + 1));
      text := text + [line[i]];
      i := i + 1;
    }
    BehindNone(text);
  }

  lemma BehindLast(text: string, close: nat)
    ensures Behind(text, Some(Quoted("", close))) == Some(Quoted(text, close))
  {
    assert text + "" == text;
  }

  lemma BehindNone(text: string)
    ensures Behind(text, None) == None
  {
  }

  method SplitCommandLine(line: string) returns (split: SplitCommand)
    ensures split == SplitFrom(line, 0, Start)
  {
    hide DoubleQuoted, Finish;
    var s, i := Start, 0;
    while i < |line|
      invariant i <= |line|
      invariant SplitFrom(line, 0, Start) == SplitFrom(line, i, s)
      decreases |line| - i
    {
      var c := line[i];
      if c == ' ' || c == '\t' {
        s := Finish(s);
      } else if c == '\'' {
        var close := IndexOf(line, '\'', i + 1);
        if close == |line| {
          return Failed(s);
        }
        s := WithText(s, line[i + 1..close], false);
        i := close;
      } else if c == '"' {
        var closed, text, close := ReadDoubleQuoted(line, i + 1);
        if !closed {
          return Failed(s);
        }
        s := WithText(s, text, false);
        i := close;
      } else if c == '\\' {
        if i + 1 >= |line| {
          return Failed(s);
        }
        s := WithText(s, [line[i + 1]], false);
        i := i + 1;
      } else {
        s := WithText(s, [c], true);
      }
      i := i + 1;
    }
    s := Finish(s);
    return SplitCommand(s.words, s.shellOperator, false);
  }

  // ── Quoting ──

  /** The word with each quote written as an escaped one between two quoted parts. */
  function Escaped(word: string): string {
    if word == "" then "" else (if word[0] == '\'' then "'\\''" else [word[0]]) + Escaped(word[1..])
  }

  function ShellQuote(word: string): string {
    "'" + Escaped(word) + "'"
  }

  lemma CharAt(line: string, i: nat, c: char)
    requires TextAt(line, i, [c])
    ensures i < |line| && line[i] == c
  {
    assert line[i..i + 1][0] == line[i];
  }

  /** The part of a word before its first quote, and what is behind it. */
  lemma {:induction false} EscapedSplits(word: string) returns (k: nat)
    ensures k == IndexOf(word, '\'', 0)
    ensures Escaped(word) == word[..k] + if k == |word| then "" else "'\\''" + Escaped(word[k + 1..])
    ensures forall m :: 0 <= m < k ==> word[m] != '\''
    decreases |word|
  {
    k := IndexOf(word, '\'', 0);
    if k == 0 {
      assert word[..0] == "";
    } else {
      var rest := EscapedSplits(word[1..]);
      IndexBehindFirst(word, '\'');
      assert word[..k] == [word[0]] + word[1..][..k - 1];
      assert k < |word| ==> word[1..][k..] == word[k + 1..];
    }
  }

  lemma IndexBehindFirst(word: string, c: char)
    requires word != "" && word[0] != c
    ensures IndexOf(word, c, 0) == 1 + IndexOf(word[1..], c, 0)
  {
    var k := IndexOf(word[1..], c, 0);
    assert forall m :: 0 <= m < |word| - 1 ==> word[1..][m] == word[m + 1];
  }

  /** A quoted word is a quoted part, or one up to a quote, that quote escaped, and the rest quoted. */
  lemma QuoteParts(word: string) returns (k: nat)
    ensures k <= |word| && forall m :: 0 <= m < k ==> word[m] != '\''
    ensures if k == |word| then ShellQuote(word) == "'" + word + "'"
            else word[k] == '\'' && ShellQuote(word) == ("'" + word[..k] + "'") + ("\\'" + ShellQuote(word[k + 1..]))
  {
    hide Escaped;
    k := EscapedSplits(word);
    if k == |word| {
      assert word[..k] == word && word + "" == word;
    } else {
      assert "'\\''" == "'" + "\\'" + "'";
      Regroup("'", word[..k], "\\'", Escaped(word[k + 1..]));
    }
  }

  lemma Regroup(quote: string, part: string, escape: string, rest: string)
    ensures quote + (part + ((quote + escape + quote) + rest)) + quote == (quote + part + quote) + (escape + (quote + rest + quote))
  {
  }

  /** A quoted word is read whole, whatever is in it. */
  lemma {:induction false} QuotedIsRead(line: string, i: nat, word: string, s: Splitting)
    requires TextAt(line, i, ShellQuote(word))
    ensures SplitFrom(line, i, s) == SplitFrom(line, i + |ShellQuote(word)|, WithText(s, word, false))
    decreases |word|
  {
    hide SplitFrom, ShellQuote;
    var k := QuoteParts(word);
    var part := word[..k];
    if k == |word| {
      PartIsRead(line, i, word, s);
    } else {
      var rest := word[k + 1..];
      TextSplits(line, i, "'" + part + "'", "\\'" + ShellQuote(rest));
      PartIsRead(line, i, part, s);
      var j := i + k + 2;
      TextSplits(line, j, "\\'", ShellQuote(rest));
      EscapeIsRead(line, j, WithText(s, part, false));
      var t := WithText(WithText(s, part, false), "'", false);
      QuotedIsRead(line, j + 2, rest, t);
      assert s.word + word == s.word + part + "'" + rest;
    }
  }

  /** The text between two quotes. */
  lemma PartIsRead(line: string, i: nat, part: string, s: Splitting)
    requires TextAt(line, i, "'" + part + "'") && forall m :: 0 <= m < |part| ==> part[m] != '\''
    ensures SplitFrom(line, i, s) == SplitFrom(line, i + |part| + 2, WithText(s, part, false))
  {
    TextSplits(line, i, "'" + part, "'");
    TextSplits(line, i, "'", part);
    CharAt(line, i, '\'');
    var close := i + 1 + |part|;
    CharAt(line, close, '\'');
    assert forall m :: i + 1 <= m < close ==> line[m] == line[i + 1..close][m - (i + 1)];
    IndexIs(line, '\'', i + 1, close);
  }

  lemma EscapeIsRead(line: string, i: nat, s: Splitting)
    requires TextAt(line, i, "\\'")
    ensures SplitFrom(line, i, s) == SplitFrom(line, i + 2, WithText(s, "'", false))
  {
    TextSplits(line, i, "\\", "'");
    CharAt(line, i, '\\');
    CharAt(line, i + 1, '\'');
  }

  /** The words, each quoted, with blanks between them. */
  function QuotedLine(words: seq<string>): string {
    if words == [] then ""
    else if |words| == 1 then ShellQuote(words[0])
    else ShellQuote(words[0]) + " " + QuotedLine(words[1..])
  }

  lemma {:induction false} LineIsRead(line: string, i: nat, words: seq<string>, s: Splitting)
    requires TextAt(line, i, QuotedLine(words)) && i + |QuotedLine(words)| == |line| && !s.inWord && s.word == "" && s.plain
    ensures SplitFrom(line, i, s) == SplitCommand(s.words + words, s.shellOperator, false)
    decreases |words|
  {
    hide ShellQuote, HasOperator;
    if words == [] {
      assert s.words + [] == s.words;
    } else {
      var word := words[0];
      var t := WithText(s, word, false);
      assert "" + word == word;
      if |words| == 1 {
        QuotedIsRead(line, i, word, s);
        assert s.words + words == s.words + [word];
      } else {
        var rest := words[1..];
        TextSplits(line, i, ShellQuote(word) + " ", QuotedLine(rest));
        TextSplits(line, i, ShellQuote(word), " ");
        QuotedIsRead(line, i, word, s);
        var j := i + |ShellQuote(word)|;
        CharAt(line, j, ' ');
        LineIsRead(line, j + 1, rest, Finish(t));
        assert s.words + [word] + rest == s.words + words;
      }
    }
  }

  /** Splitting undoes quoting: the words come back, and none of them is an operator. */
  lemma SplitUndoesQuoting(words: seq<string>)
    ensures SplitFrom(QuotedLine(words), 0, Start) == SplitCommand(words, "", false)
  {
    hide QuotedLine, SplitFrom;
    var line := QuotedLine(words);
    assert line[0..|line|] == line;
    LineIsRead(line, 0, words, Start);
    assert [] + words == words;
  }

  // ── Placeholders ──

  datatype Field = Interface | Filter | Snaplen

  /** The values that take the placeholders' places. */
  datatype Values = Values(interface: string, filter: string, snaplen: string)

  function ValueOf(values: Values, field: Field): string {
    match field
    case Interface => values.interface
    case Filter => values.filter
    case Snaplen => values.snaplen
  }

  function NameOf(field: Field): string {
    match field
    case Interface => "interface"
    case Filter => "filter"
    case Snaplen => "snaplen"
  }

  /** A placeholder as it is written: {name}, or {name:sh} for its value quoted. */
  datatype Hole = Hole(field: Field, quoted: bool)

  function Written(hole: Hole): (text: string)
    ensures |text| > 2
  {
    "{" + NameOf(hole.field) + if hole.quoted then ":sh}" else "}"
  }

  const Holes: seq<Hole> :=
    [Hole(Interface, false), Hole(Interface, true), Hole(Filter, false), Hole(Filter, true), Hole(Snaplen, false), Hole(Snaplen, true)]

  /** The first of the placeholders that the text has at `i`. */
  function HoleAmong(text: string, i: nat, holes: seq<Hole>): (hole: Option<Hole>)
    requires i <= |text|
    ensures hole.Some? ==> hole.value in holes && Written(hole.value) <= text[i..]
  {
    if holes == [] then None
    else if Written(holes[0]) <= text[i..] then Some(holes[0])
    else HoleAmong(text, i, holes[1..])
  }

  function HoleAt(text: string, i: nat): (hole: Option<Hole>)
    requires i <= |text|
    ensures hole.Some? ==> i + |Written(hole.value)| <= |text|
  {
    HoleAmong(text, i, Holes)
  }

  /** A text in pieces: its placeholders, and what is between them. */
  datatype Piece = Plain(text: string) | Filled(hole: Hole)

  function PiecesFrom(text: string, done: nat, i: nat): seq<Piece>
    requires done <= i <= |text|
    decreases |text| - i
  {
    if i == |text| then [Plain(text[done..])]
    else
      match HoleAt(text, i)
      case None => PiecesFrom(text, done, i + 1)
      case Some(hole) =>
        var end := i + |Written(hole)|;
        [Plain(text[done..i]), Filled(hole)] + PiecesFrom(text, end, end)
  }

  function Pieces(text: string): seq<Piece> {
    PiecesFrom(text, 0, 0)
  }

  function Rendered(piece: Piece, values: Values): string {
    match piece
    case Plain(text) => text
    case Filled(hole) => if hole.quoted then ShellQuote(ValueOf(values, hole.field)) else ValueOf(values, hole.field)
  }

  function AllRendered(pieces: seq<Piece>, values: Values): string {
    if pieces == [] then "" else Rendered(pieces[0], values) + AllRendered(pieces[1..], values)
  }

  function AllWritten(pieces: seq<Piece>): string {
    if pieces == [] then ""
    else (match pieces[0] case Plain(text) => text case Filled(hole) => Written(hole)) + AllWritten(pieces[1..])
  }

  method ReplacePlaceholders(text: string, values: Values) returns (replaced: string)
    ensures replaced == AllRendered(Pieces(text), values)
  {
    hide HoleAt, Rendered, AllRendered;
    replaced := "";
    var done: nat, i: nat := 0, 0;
    while i < |text|
      invariant done <= i <= |text|
      invariant AllRendered(Pieces(text), values) == replaced + AllRendered(PiecesFrom(text, done, i), values)
      decreases |text| - i
    {
      var hole := HoleAt(text, i);
      if hole == None {
        i := i + 1;
      } else {
        var end := i + |Written(hole.value)|;
        RenderHole(replaced, text[done..i], hole.value, PiecesFrom(text, end, end), values);
        replaced := replaced + text[done..i];
        replaced := replaced + Rendered(Filled(hole.value), values);
        done, i := end, end;
      }
    }
    RenderLast(text[done..], values);
    replaced := replaced + text[done..];
  }

  lemma RenderHole(before: string, text: string, hole: Hole, rest: seq<Piece>, values: Values)
    ensures before + AllRendered([Plain(text), Filled(hole)] + rest, values)
            == before + text + Rendered(Filled(hole), values) + AllRendered(rest, values)
  {
    var pieces := [Plain(text), Filled(hole)] + rest;
    assert pieces[1..] == [Filled(hole)] + rest && ([Filled(hole)] + rest)[1..] == rest;
    assert AllRendered(pieces, values) == text + (Rendered(Filled(hole), values) + AllRendered(rest, values));
  }

  lemma RenderLast(text: string, values: Values)
    ensures AllRendered([Plain(text)], values) == text
  {
    assert text + "" == text;
  }

  /** The pieces are the text, whatever the values are. */
  lemma {:induction false} PiecesAreTheText(text: string, done: nat, i: nat)
    requires done <= i <= |text|
    ensures AllWritten(PiecesFrom(text, done, i)) == text[done..]
    decreases |text| - i
  {
    hide HoleAt, AllWritten, Written;
    if i == |text| {
      WrittenLast(text[done..]);
    } else if HoleAt(text, i) == None {
      PiecesAreTheText(text, done, i + 1);
    } else {
      var hole := HoleAt(text, i).value;
      var end := i + |Written(hole)|;
      var rest := PiecesFrom(text, end, end);
      PiecesAreTheText(text, end, end);
      WrittenHole(text[done..i], hole, rest);
      HoleIsWritten(text, i);
      assert text[done..] == text[done..i] + (text[i..end] + text[end..]);
    }
  }

  lemma WrittenHole(text: string, hole: Hole, rest: seq<Piece>)
    ensures AllWritten([Plain(text), Filled(hole)] + rest) == text + (Written(hole) + AllWritten(rest))
  {
    var pieces := [Plain(text), Filled(hole)] + rest;
    assert pieces[1..] == [Filled(hole)] + rest && ([Filled(hole)] + rest)[1..] == rest;
  }

  lemma WrittenLast(text: string)
    ensures AllWritten([Plain(text)]) == text
  {
    assert text + "" == text;
  }

  lemma HoleIsWritten(text: string, i: nat)
    requires i <= |text| && HoleAt(text, i).Some?
    ensures var end := i + |Written(HoleAt(text, i).value)|; end <= |text| && text[i..end] == Written(HoleAt(text, i).value)
  {
    var hole := HoleAt(text, i).value;
    assert text[i..][..|Written(hole)|] == text[i..i + |Written(hole)|];
  }

  /** A placeholder alone gives its value as it is, though that hold a placeholder itself. */
  lemma ValueStays(hole: Hole, values: Values)
    ensures AllRendered(Pieces(Written(hole)), values) == Rendered(Filled(hole), values)
  {
    var text := Written(hole);
    HoleIsFound(hole);
    assert text[|text|..] == "" && PiecesFrom(text, |text|, |text|) == [Plain("")];
    var pieces := [Plain(""), Filled(hole), Plain("")];
    assert PiecesFrom(text, 0, 0) == [Plain(text[0..0]), Filled(hole)] + [Plain(text[|text|..])];
    assert Pieces(text) == pieces;
    assert pieces[1..] == [Filled(hole), Plain("")] && pieces[1..][1..] == [Plain("")];
    RenderLast("", values);
    assert "" + (Rendered(Filled(hole), values) + "") == Rendered(Filled(hole), values);
  }

  lemma HoleIsFound(hole: Hole)
    ensures HoleAt(Written(hole), 0) == Some(hole)
  {
    var text := Written(hole);
    assert text[0..] == text;
    DifferentHoles();
    assert hole in Holes;
    FirstFound(hole, Holes);
  }

  lemma {:induction false} FirstFound(hole: Hole, holes: seq<Hole>)
    requires hole in holes && forall other :: other in holes && Written(other) <= Written(hole)[0..] ==> other == hole
    ensures HoleAmong(Written(hole), 0, holes) == Some(hole)
  {
    if holes[0] != hole {
      FirstFound(hole, holes[1..]);
    } else {
      assert Written(hole)[0..] == Written(hole);
    }
  }

  lemma DifferentHoles()
    ensures forall a: Hole, b: Hole :: Written(a) <= Written(b)[0..] ==> a == b
  {
    forall a: Hole, b: Hole | Written(a) <= Written(b)[0..]
      ensures a == b
    {
      assert Written(b)[0..] == Written(b);
      var n := |Written(a)| - 1;
      assert Written(a)[n] == Written(b)[n] == '}' && Written(a)[1] == Written(b)[1];
    }
  }

  /** Each placeholder gives its own value, quoted behind `:sh`. */
  lemma PlaceholdersMean(values: Values)
    ensures AllRendered(Pieces("{interface}"), values) == values.interface
    ensures AllRendered(Pieces("{interface:sh}"), values) == ShellQuote(values.interface)
    ensures AllRendered(Pieces("{filter}"), values) == values.filter
    ensures AllRendered(Pieces("{filter:sh}"), values) == ShellQuote(values.filter)
    ensures AllRendered(Pieces("{snaplen}"), values) == values.snaplen
    ensures AllRendered(Pieces("{snaplen:sh}"), values) == ShellQuote(values.snaplen)
  {
    hide AllRendered, Pieces, ShellQuote;
    ValuesStay(Interface, values);
    ValuesStay(Filter, values);
    ValuesStay(Snaplen, values);
    assert Written(Hole(Interface, false)) == "{interface}" && Written(Hole(Interface, true)) == "{interface:sh}";
    assert Written(Hole(Filter, false)) == "{filter}" && Written(Hole(Filter, true)) == "{filter:sh}";
    assert Written(Hole(Snaplen, false)) == "{snaplen}" && Written(Hole(Snaplen, true)) == "{snaplen:sh}";
  }

  lemma ValuesStay(field: Field, values: Values)
    ensures AllRendered(Pieces(Written(Hole(field, false))), values) == ValueOf(values, field)
    ensures AllRendered(Pieces(Written(Hole(field, true))), values) == ShellQuote(ValueOf(values, field))
  {
    hide AllRendered, Pieces, ShellQuote, Written;
    ValueStays(Hole(field, false), values);
    ValueStays(Hole(field, true), values);
  }

  ghost predicate HasHole(text: string) {
    exists k, hole :: 0 <= k <= |text| && Written(hole) <= text[k..]
  }

  lemma {:induction false} NoneAmong(text: string, i: nat, holes: seq<Hole>, hole: Hole)
    requires i <= |text| && HoleAmong(text, i, holes) == None && hole in holes
    ensures !(Written(hole) <= text[i..])
  {
    hide Written;
    if holes[0] != hole {
      NoneAmong(text, i, holes[1..], hole);
    }
  }

  lemma AllHoles(hole: Hole)
    ensures hole in Holes
  {
    assert hole == Hole(hole.field, hole.quoted);
    match hole.field {
      case Interface => assert hole == Holes[0] || hole == Holes[1];
      case Filter => assert hole == Holes[2] || hole == Holes[3];
      case Snaplen => assert hole == Holes[4] || hole == Holes[5];
    }
  }

  /** A text without a placeholder at its own places has none. */
  lemma NoHoleIn(text: string, done: nat, end: nat)
    requires done <= end <= |text| && forall k :: done <= k < end ==> HoleAt(text, k) == None
    ensures !HasHole(text[done..end])
  {
    hide Written, HoleAt;
    var plain := text[done..end];
    forall k, hole | 0 <= k <= |plain|
      ensures !(Written(hole) <= plain[k..])
    {
      if Written(hole) <= plain[k..] {
        HoleNotMissed(text, done + k, plain[k..], hole);
      }
    }
  }

  lemma HoleNotMissed(text: string, i: nat, part: string, hole: Hole)
    requires i <= |text| && part <= text[i..] && Written(hole) <= part
    ensures HoleAt(text, i).Some?
  {
    hide Written, HoleAmong;
    assert Written(hole) <= text[i..];
    AllHoles(hole);
    if HoleAmong(text, i, Holes) == None {
      NoneAmong(text, i, Holes, hole);
    }
  }

  ghost predicate NoHoleLeft(pieces: seq<Piece>) {
    forall piece :: piece in pieces && piece.Plain? ==> !HasHole(piece.text)
  }

  /** No placeholder is left in the text between those that are filled. */
  lemma {:induction false} EveryHoleIsFilled(text: string, done: nat, i: nat)
    requires done <= i <= |text| && forall k :: done <= k < i ==> HoleAt(text, k) == None
    ensures NoHoleLeft(PiecesFrom(text, done, i))
    decreases |text| - i
  {
    hide HoleAt, Written, HasHole;
    NoHoleIn(text, done, i);
    if i == |text| {
      assert text[done..] == text[done..i];
    } else if HoleAt(text, i) == None {
      EveryHoleIsFilled(text, done, i + 1);
    } else {
      var end := i + |Written(HoleAt(text, i).value)|;
      EveryHoleIsFilled(text, end, end);
    }
  }

  /** A text is its plain parts and its placeholders in order, and every placeholder in it is among them. */
  lemma PiecesAreExact(text: string)
    ensures AllWritten(Pieces(text)) == text && NoHoleLeft(Pieces(text))
  {
    hide AllWritten, PiecesFrom, NoHoleLeft;
    PiecesAreTheText(text, 0, 0);
    EveryHoleIsFilled(text, 0, 0);
    assert text[0..] == text;
  }

  // ── The arguments ──

  predicate IsFilterAlone(word: string) {
    word == "{filter}" || word == "{filter:sh}"
  }

  /** The words with their placeholders filled in; an empty filter's own words are left out. */
  function Arguments(words: seq<string>, values: Values): seq<string> {
    if words == [] then [] else Argument(words[0], values) + Arguments(words[1..], values)
  }

  function Argument(word: string, values: Values): seq<string> {
    if IsFilterAlone(word) && values.filter == "" then [] else [AllRendered(Pieces(word), values)]
  }

  /** How many arguments there are depends on the words and on whether the filter is empty, not on the values. */
  lemma {:induction false} ArgumentCount(words: seq<string>, a: Values, b: Values)
    requires a.filter == "" <==> b.filter == ""
    ensures |Arguments(words, a)| == |Arguments(words, b)|
  {
    if words != [] {
      ArgumentCount(words[1..], a, b);
    }
  }

  /** With a filter, each word makes the argument of its own place: a value never reaches another's. */
  lemma {:induction false} ArgumentsInPlace(words: seq<string>, values: Values)
    requires values.filter != ""
    ensures |Arguments(words, values)| == |words|
    ensures forall k :: 0 <= k < |words| ==> Arguments(words, values)[k] == AllRendered(Pieces(words[k]), values)
  {
    if words != [] {
      ArgumentsInPlace(words[1..], values);
    }
  }

  /** Each word makes its own argument, in order, but the filter's own word makes none when the filter is empty. */
  lemma {:induction false} ArgumentsBoth(words: seq<string>, more: seq<string>, values: Values)
    ensures Arguments(words + more, values) == Arguments(words, values) + Arguments(more, values)
  {
    hide Argument;
    if words == [] {
      assert [] + more == more && [] + Arguments(more, values) == Arguments(more, values);
    } else {
      ArgumentsBoth(words[1..], more, values);
      assert (words + more)[1..] == words[1..] + more;
      Regrouped(Argument(words[0], values), Arguments(words[1..], values), Arguments(more, values));
    }
  }

  lemma Regrouped(a: seq<string>, b: seq<string>, c: seq<string>)
    ensures a + (b + c) == a + b + c
  {
  }

  lemma OneArgument(word: string, values: Values)
    ensures Arguments([word], values) ==
            if values.filter == "" && (word == "{filter}" || word == "{filter:sh}") then []
            else [AllRendered(Pieces(word), values)]
  {
    hide AllRendered, Pieces;
    assert [word][1..] == [] && Arguments([], values) == [];
  }

  /** A value a remote shell gets quoted is one word for it, the value itself. */
  lemma QuotedValueIsOneWord(field: Field, values: Values)
    ensures SplitFrom(AllRendered(Pieces(Written(Hole(field, true))), values), 0, Start)
            == SplitCommand([ValueOf(values, field)], "", false)
  {
    hide SplitFrom, Pieces, ShellQuote;
    ValueStays(Hole(field, true), values);
    SplitUndoesQuoting([ValueOf(values, field)]);
  }

  lemma SomethingToRead(text: string)
    ensures !AllWhitespace(text) ==> text != ""
  {
  }

  /** A control character other than a tab. */
  predicate HasControl(text: string) {
    exists k :: 0 <= k < |text| && text[k] != '\t' && (text[k] < ' ' || '\U{7F}' <= text[k] <= '\U{9F}')
  }

  predicate Mentions(text: string, part: string) {
    exists k :: 0 <= k <= |text| && part <= text[k..]
  }

  /** A line that may be run: a command in one line, and an interface that is no option if it uses one. */
  predicate MayRun(line: string, interface: string) {
    && !AllWhitespace(line) && !HasControl(line)
    && (Mentions(line, Written(Hole(Interface, false))) || Mentions(line, Written(Hole(Interface, true))) ==>
          !AllWhitespace(interface) && !HasControl(interface) && interface[0] != '-')
  }

  /** The program and its arguments of a command run without a shell: none of a line that may not run or has an
    * open quote, an operator, or no program. */
  method CustomCommand(line: string, values: Values) returns (command: Option<seq<string>>)
    ensures var split := SplitFrom(line, 0, Start);
            var arguments := Arguments(split.words, values);
            command == if !MayRun(line, values.interface) || split.failed || split.shellOperator != ""
                          || arguments == [] || arguments[0] == "" then None else Some(arguments)
  {
    hide SplitFrom, Pieces, AllRendered, AllWhitespace, HasControl, Mentions;
    if AllWhitespace(line) || HasControl(line) {
      return None;
    }
    if Mentions(line, Written(Hole(Interface, false))) || Mentions(line, Written(Hole(Interface, true))) {
      SomethingToRead(values.interface);
      if AllWhitespace(values.interface) || HasControl(values.interface) || values.interface[0] == '-' {
        return None;
      }
    }
    var split := SplitCommandLine(line);
    if split.failed || split.shellOperator != "" {
      return None;
    }
    var words: seq<string> := [];
    for k := 0 to |split.words|
      invariant words + Arguments(split.words[k..], values) == Arguments(split.words, values)
    {
      var word := split.words[k];
      assert split.words[k..][1..] == split.words[k + 1..];
      if IsFilterAlone(word) && values.filter == "" {
        assert words + ([] + Arguments(split.words[k + 1..], values)) == words + Arguments(split.words[k + 1..], values);
        continue;
      }
      ghost var before := words;
      var argument := ReplacePlaceholders(word, values);
      words := words + [argument];
      assert before + ([argument] + Arguments(split.words[k + 1..], values)) == words + Arguments(split.words[k + 1..], values);
    }
    assert words + [] == words;
    if words == [] || words[0] == "" {
      return None;
    }
    return Some(words);
  }
}
