/** Command lines as they are written, in words of plain, quoted and escaped parts, and what splitting
  * gives of them (src/command_source.cpp). */
module WrittenCommands {
  import opened Options
  import opened Text
  import opened CommandLines

  /** A part of a word: plain, in single or in double quotes, or a character behind a backslash. */
  datatype Part = Unquoted(text: string) | Single(text: string) | Double(text: string) | Backslashed(escaped: char)

  predicate IsSpecial(c: char) {
    c == ' ' || c == '\t' || c == '\'' || c == '"' || c == '\\'
  }

  predicate IsPart(part: Part) {
    match part
    case Unquoted(text) => text != "" && forall k :: 0 <= k < |text| ==> !IsSpecial(text[k])
    case Single(text) => '\'' !in text
    case Double(_) => true
    case Backslashed(_) => true
  }

  /** In double quotes a backslash stands before a double quote or another backslash. */
  function InDouble(text: string): string {
    if text == "" then "" else (if text[0] == '"' || text[0] == '\\' then ['\\', text[0]] else [text[0]]) + InDouble(text[1..])
  }

  function PartText(part: Part): string {
    match part
    case Unquoted(text) => text
    case Single(text) => "'" + text + "'"
    case Double(text) => "\"" + InDouble(text) + "\""
    case Backslashed(c) => ['\\', c]
  }

  function PartMeaning(part: Part): string {
    match part
    case Backslashed(c) => [c]
    case _ => part.text
  }

  function WordText(parts: seq<Part>): string {
    if parts == [] then "" else PartText(parts[0]) + WordText(parts[1..])
  }

  function WordMeaning(parts: seq<Part>): string {
    if parts == [] then "" else PartMeaning(parts[0]) + WordMeaning(parts[1..])
  }

  predicate AllParts(parts: seq<Part>) {
    forall k :: 0 <= k < |parts| ==> IsPart(parts[k])
  }

  predicate AllUnquoted(parts: seq<Part>) {
    forall k :: 0 <= k < |parts| ==> parts[k].Unquoted?
  }

  // ── Reading a part ──

  lemma {:induction false} UnquotedIsRead(line: string, i: nat, text: string, s: Splitting)
    requires TextAt(line, i, text) && forall k :: 0 <= k < |text| ==> !IsSpecial(text[k])
    ensures SplitFrom(line, i, s) == SplitFrom(line, i + |text|, if text == "" then s else WithText(s, text, true))
    decreases |text|
  {
    hide TextAt;
    if text != "" {
      var first, rest := text[..1], text[1..];
      assert text == first + rest;
      TextSplits(line, i, first, rest);
      CharsAt(line, i, first);
      assert line[i + 0] == first[0] && [line[i]] == first && !IsSpecial(text[0]);
      UnquotedIsRead(line, i + 1, rest, WithText(s, first, true));
      assert s.word + first + rest == s.word + text && (rest == "" ==> first == text);
    }
  }

  lemma {:induction false} DoubleIsRead(line: string, i: nat, text: string)
    requires TextAt(line, i, InDouble(text) + "\"")
    ensures i <= |line| && DoubleQuoted(line, i) == Some(Quoted(text, i + |InDouble(text)|))
    decreases |text|
  {
    hide TextAt;
    CharsAt(line, i, InDouble(text) + "\"");
    if text == "" {
      assert line[i + 0] == (InDouble(text) + "\"")[0] == '"';
    } else {
      var first, rest := if text[0] == '"' || text[0] == '\\' then ['\\', text[0]] else [text[0]], InDouble(text[1..]) + "\"";
      assert InDouble(text) + "\"" == first + rest;
      TextSplits(line, i, first, rest);
      CharsAt(line, i, first);
      assert line[i + 0] == first[0] && (|first| > 1 ==> line[i + 1] == first[1]);
      DoubleIsRead(line, i + |first|, text[1..]);
      assert [text[0]] + text[1..] == text;
    }
  }

  lemma QuoteIsRead(line: string, i: nat, text: string, s: Splitting)
    requires TextAt(line, i, "\"" + InDouble(text) + "\"")
    ensures SplitFrom(line, i, s) == SplitFrom(line, i + |InDouble(text)| + 2, WithText(s, text, false))
  {
    hide TextAt, InDouble, DoubleQuoted;
    assert "\"" + InDouble(text) + "\"" == "\"" + (InDouble(text) + "\"");
    TextSplits(line, i, "\"", InDouble(text) + "\"");
    CharsAt(line, i, "\"");
    assert line[i + 0] == "\""[0] == '"';
    DoubleIsRead(line, i + 1, text);
  }

  lemma BackslashIsRead(line: string, i: nat, c: char, s: Splitting)
    requires TextAt(line, i, ['\\', c])
    ensures SplitFrom(line, i, s) == SplitFrom(line, i + 2, WithText(s, [c], false))
  {
    hide TextAt;
    var text := ['\\', c];
    CharsAt(line, i, text);
    assert line[i + 0] == text[0] == '\\' && line[i + 1] == text[1] == c;
  }

  lemma WrittenPartIsRead(line: string, i: nat, part: Part, s: Splitting)
    requires IsPart(part) && TextAt(line, i, PartText(part))
    ensures SplitFrom(line, i, s) == SplitFrom(line, i + |PartText(part)|, WithText(s, PartMeaning(part), part.Unquoted?))
  {
    hide SplitFrom, TextAt, InDouble;
    match part {
      case Unquoted(text) => UnquotedIsRead(line, i, text, s);
      case Single(text) => PartIsRead(line, i, text, s);
      case Double(text) => QuoteIsRead(line, i, text, s);
      case Backslashed(c) => BackslashIsRead(line, i, c, s);
    }
  }

  // ── Reading a word ──

  lemma {:induction false} WordIsRead(line: string, i: nat, parts: seq<Part>, s: Splitting)
    requires AllParts(parts) && parts != [] && TextAt(line, i, WordText(parts))
    ensures SplitFrom(line, i, s) == SplitFrom(line, i + |WordText(parts)|, WithText(s, WordMeaning(parts), AllUnquoted(parts)))
    decreases |parts|
  {
    hide SplitFrom, TextAt, PartText, PartMeaning;
    var first, rest := parts[0], parts[1..];
    TextSplits(line, i, PartText(first), WordText(rest));
    WrittenPartIsRead(line, i, first, s);
    assert AllUnquoted(parts) <==> first.Unquoted? && AllUnquoted(rest) by {
      assert parts == [first] + rest;
    }
    if rest == [] {
      assert PartText(first) + "" == PartText(first) && PartMeaning(first) + "" == PartMeaning(first);
    } else {
      WordIsRead(line, i + |PartText(first)|, rest, WithText(s, PartMeaning(first), first.Unquoted?));
      assert s.word + PartMeaning(first) + WordMeaning(rest) == s.word + WordMeaning(parts);
    }
  }

  // ── Reading a line ──

  /** A word, and the blanks behind it. */
  datatype WrittenWord = WrittenWord(parts: seq<Part>, blanks: string)

  /** Words are told apart by blanks; the last may have some behind it. */
  predicate AreWords(words: seq<WrittenWord>) {
    forall k :: 0 <= k < |words| ==>
      words[k].parts != [] && AllParts(words[k].parts) && AllBlanks(words[k].blanks) && (k < |words| - 1 ==> words[k].blanks != "")
  }

  function LineText(words: seq<WrittenWord>): string {
    if words == [] then "" else WordText(words[0].parts) + words[0].blanks + LineText(words[1..])
  }

  function Meanings(words: seq<WrittenWord>): seq<string> {
    if words == [] then [] else [WordMeaning(words[0].parts)] + Meanings(words[1..])
  }

  /** A character by which a shell would make a pipe, a list or a redirection, in a word without quotes. */
  predicate IsShellOperator(word: WrittenWord) {
    AllUnquoted(word.parts)
    && exists k :: 0 <= k < |WordMeaning(word.parts)| && WordMeaning(word.parts)[k] in ['|', '&', ';', '<', '>']
  }

  function FirstOperator(words: seq<WrittenWord>): string {
    if words == [] then "" else if IsShellOperator(words[0]) then WordMeaning(words[0].parts) else FirstOperator(words[1..])
  }

  lemma OperatorIsTold(word: WrittenWord)
    ensures IsShellOperator(word) <==> AllUnquoted(word.parts) && HasOperator(WordMeaning(word.parts))
  {
  }

  lemma {:induction false} BlanksAreRead(line: string, i: nat, blanks: string, s: Splitting)
    requires AllBlanks(blanks) && TextAt(line, i, blanks)
    ensures SplitFrom(line, i, s) == SplitFrom(line, i + |blanks|, if blanks == "" then s else Finish(s))
    decreases |blanks|
  {
    hide TextAt, HasOperator;
    if blanks != "" {
      var first, rest := blanks[..1], blanks[1..];
      assert blanks == first + rest;
      TextSplits(line, i, first, rest);
      CharsAt(line, i, first);
      assert line[i + 0] == blanks[0];
      BlanksAreRead(line, i + 1, rest, Finish(s));
    }
  }

  predicate BetweenWords(s: Splitting) {
    !s.inWord && s.word == "" && s.plain
  }

  lemma FinishWord(s: Splitting, word: WrittenWord)
    requires BetweenWords(s)
    ensures var t := Finish(WithText(s, WordMeaning(word.parts), AllUnquoted(word.parts)));
            && BetweenWords(t) && t.words == s.words + [WordMeaning(word.parts)]
            && t.shellOperator == if s.shellOperator == "" && IsShellOperator(word) then WordMeaning(word.parts) else s.shellOperator
  {
    hide WordMeaning, AllUnquoted, IsShellOperator, HasOperator;
    OperatorIsTold(word);
    assert "" + WordMeaning(word.parts) == WordMeaning(word.parts);
  }

  /** A line gives its words, whatever is quoted in them, and the first operator written without quotes. */
  lemma {:induction false} WrittenLineIsRead(line: string, i: nat, words: seq<WrittenWord>, s: Splitting)
    requires AreWords(words) && TextAt(line, i, LineText(words)) && i + |LineText(words)| == |line| && BetweenWords(s)
    ensures SplitFrom(line, i, s)
            == SplitCommand(s.words + Meanings(words), if s.shellOperator == "" then FirstOperator(words) else s.shellOperator, false)
    decreases |words|
  {
    hide SplitFrom, TextAt, WordText, WordMeaning, AllUnquoted, Finish, WithText, IsShellOperator;
    if words == [] {
      LineEnds(line, s);
      assert s.words + [] == s.words;
    } else {
      var word, rest := words[0], words[1..];
      var text, more := WordText(word.parts), LineText(rest);
      TextSplits(line, i, text + word.blanks, more);
      TextSplits(line, i, text, word.blanks);
      WordIsRead(line, i, word.parts, s);
      var t := WithText(s, WordMeaning(word.parts), AllUnquoted(word.parts));
      BlanksAreRead(line, i + |text|, word.blanks, t);
      FinishWord(s, word);
      assert s.words + [WordMeaning(word.parts)] + Meanings(rest) == s.words + Meanings(words);
      if word.blanks == "" {
        LastWord(words);
        LineEnds(line, t);
      } else {
        RestAreWords(words);
        WrittenLineIsRead(line, i + |text + word.blanks|, rest, Finish(t));
        OperatorsAreTexts(word);
      }
    }
  }

  lemma LastWord(words: seq<WrittenWord>)
    requires AreWords(words) && words != [] && words[0].blanks == ""
    ensures words[1..] == [] && LineText(words[1..]) == "" && Meanings(words[1..]) == []
  {
  }

  lemma RestAreWords(words: seq<WrittenWord>)
    requires AreWords(words) && words != []
    ensures AreWords(words[1..])
  {
  }

  lemma OperatorsAreTexts(word: WrittenWord)
    ensures IsShellOperator(word) ==> WordMeaning(word.parts) != ""
  {
  }

  lemma LineEnds(line: string, s: Splitting)
    ensures SplitFrom(line, |line|, s) == SplitCommand(Finish(s).words, Finish(s).shellOperator, false)
    ensures BetweenWords(s) ==> Finish(s) == s
  {
  }

  /** The whole line, blanks before it. */
  lemma LineIsSplit(blanks: string, words: seq<WrittenWord>)
    requires AllBlanks(blanks) && AreWords(words)
    ensures SplitFrom(blanks + LineText(words), 0, Start) == SplitCommand(Meanings(words), FirstOperator(words), false)
  {
    hide SplitFrom, LineText, Meanings, FirstOperator, AreWords, Finish;
    var line := blanks + LineText(words);
    assert line[0..|blanks|] == blanks && line[|blanks|..|line|] == LineText(words);
    BlanksAreRead(line, 0, blanks, Start);
    LineEnds(line, Start);
    WrittenLineIsRead(line, |blanks|, words, Start);
    assert [] + Meanings(words) == Meanings(words);
  }

  // ── What is left open ──

  /** A quote that is not closed, or a backslash at the end. */
  datatype Open = OpenSingle(text: string) | OpenDouble(text: string) | OpenBackslash

  function OpenText(open: Open): string {
    match open
    case OpenSingle(text) => "'" + text
    case OpenDouble(text) => "\"" + InDouble(text)
    case OpenBackslash => "\\"
  }

  lemma {:induction false} DoubleIsOpen(line: string, i: nat, text: string)
    requires TextAt(line, i, InDouble(text)) && i + |InDouble(text)| == |line|
    ensures DoubleQuoted(line, i) == None
    decreases |text|
  {
    hide TextAt;
    if text != "" {
      var first, rest := if text[0] == '"' || text[0] == '\\' then ['\\', text[0]] else [text[0]], InDouble(text[1..]);
      TextSplits(line, i, first, rest);
      CharsAt(line, i, first);
      assert line[i + 0] == first[0] && (|first| > 1 ==> line[i + 1] == first[1]);
      DoubleIsOpen(line, i + |first|, text[1..]);
    }
  }

  lemma OpenIsRefused(line: string, i: nat, open: Open, s: Splitting)
    requires TextAt(line, i, OpenText(open)) && i + |OpenText(open)| == |line| && (open.OpenSingle? ==> '\'' !in open.text)
    ensures SplitFrom(line, i, s).failed
  {
    hide TextAt, InDouble, DoubleQuoted;
    CharsAt(line, i, OpenText(open));
    assert line[i + 0] == OpenText(open)[0];
    match open {
      case OpenSingle(text) =>
        forall k | i + 1 <= k < |line|
          ensures line[k] != '\''
        {
          assert line[i + (k - i)] == OpenText(open)[k - i] == text[k - i - 1];
        }
      case OpenDouble(text) =>
        TextSplits(line, i, "\"", InDouble(text));
        DoubleIsOpen(line, i + 1, text);
      case OpenBackslash =>
    }
  }

  /** A line whose last word has a quote or an escape left open fails. */
  lemma {:induction false} OpenLineFails(line: string, i: nat, words: seq<WrittenWord>, parts: seq<Part>, open: Open, s: Splitting)
    requires AreWords(words) && (words != [] ==> words[|words| - 1].blanks != "") && AllParts(parts)
    requires open.OpenSingle? ==> '\'' !in open.text
    requires TextAt(line, i, LineText(words) + (WordText(parts) + OpenText(open)))
    requires i + |LineText(words) + (WordText(parts) + OpenText(open))| == |line|
    ensures SplitFrom(line, i, s).failed
    decreases |words|
  {
    hide SplitFrom, TextAt, WordText, WordMeaning, AllUnquoted, Finish, WithText, OpenText;
    var last := WordText(parts) + OpenText(open);
    if words == [] {
      assert "" + last == last;
      TextSplits(line, i, WordText(parts), OpenText(open));
      if parts == [] {
        NoText();
        OpenIsRefused(line, i, open, s);
      } else {
        WordIsRead(line, i, parts, s);
        OpenIsRefused(line, i + |WordText(parts)|, open, WithText(s, WordMeaning(parts), AllUnquoted(parts)));
      }
    } else {
      var word, rest := words[0], words[1..];
      var text := WordText(word.parts);
      assert LineText(words) + last == text + word.blanks + (LineText(rest) + last);
      TextSplits(line, i, text + word.blanks, LineText(rest) + last);
      TextSplits(line, i, text, word.blanks);
      WordIsRead(line, i, word.parts, s);
      var t := WithText(s, WordMeaning(word.parts), AllUnquoted(word.parts));
      BlanksAreRead(line, i + |text|, word.blanks, t);
      RestAreWords(words);
      OpenLineFails(line, i + |text + word.blanks|, rest, parts, open, Finish(t));
    }
  }

  lemma NoText()
    ensures WordText([]) == ""
  {
  }
}
