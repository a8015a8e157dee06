/** Cutting a display filter into words, operators and parentheses (src/display_filter.cpp). */
module FilterTokens {
  import opened Options
  import opened Text
  import opened FilterExpression

  datatype TokenKind =
    | Word(text: string) | Opening | Closing | Negation | Conjunction | Disjunction | Comparing(op: Operator) | End

  datatype Token = Token(kind: TokenKind, position: nat)

  /** What was read, or where the filter is rejected. */
  datatype Outcome<+T> = Accepted(value: T) | Rejected(position: nat)

  // ── Characters and words ──

  predicate IsWordCharacter(c: char) {
    IsLetter(c) || '0' <= c <= '9' || c == '_' || c == '.' || c == ':' || c == '-' || c == '/'
  }

  predicate AllWordCharacters(s: string) {
    forall k :: 0 <= k < |s| ==> IsWordCharacter(s[k])
  }

  /** The operators the subset leaves out. */
  predicate IsUnsupported(lower: string) {
    lower in ["contains", "matches", "in", "bitand", "any", "all", "xor"]
  }

  /** The comparison a word stands for. */
  function ComparisonNamed(lower: string): Option<Operator> {
    if lower == "eq" then Some(Equal)
    else if lower == "ne" then Some(NotEqual)
    else if lower == "lt" then Some(Less)
    else if lower == "gt" then Some(Greater)
    else if lower == "le" then Some(LessEqual)
    else if lower == "ge" then Some(GreaterEqual)
    else None
  }

  /** What a word is; nothing if its operator is not supported. */
  function WordKind(word: string): Option<TokenKind> {
    var lower := LowerText(word);
    if lower == "and" then Some(Conjunction)
    else if lower == "or" then Some(Disjunction)
    else if lower == "not" then Some(Negation)
    else if ComparisonNamed(lower).Some? then Some(Comparing(ComparisonNamed(lower).value))
    else if IsUnsupported(lower) then None
    else Some(Word(word))
  }

  // ── The tokens ──

  function At(filter: string, i: nat): char {
    if i < |filter| then filter[i] else '\0'
  }

  /** Where the word characters from `i` on end. */
  function WordEnd(filter: string, i: nat): (end: nat)
    requires i <= |filter|
    ensures i <= end <= |filter| && AllWordCharacters(filter[i..end])
    ensures end < |filter| ==> !IsWordCharacter(filter[end])
    decreases |filter| - i
  {
    if i < |filter| && IsWordCharacter(filter[i]) then
      var end := WordEnd(filter, i + 1);
      assert filter[i..end] == [filter[i]] + filter[i + 1..end];
      end
    else i
  }

  datatype Piece = Piece(kind: TokenKind, end: nat)

  /** The token that begins at `i`. */
  function PieceAt(filter: string, i: nat): (piece: Option<Piece>)
    requires i < |filter|
    ensures piece.Some? ==> i < piece.value.end <= |filter| && piece.value.kind != End
  {
    var c, second, third := filter[i], At(filter, i + 1), At(filter, i + 2);
    if c == '(' then Some(Piece(Opening, i + 1))
    else if c == ')' then Some(Piece(Closing, i + 1))
    else if c == '!' && second == '=' then if third == '=' then None else Some(Piece(Comparing(NotEqual), i + 2))
    else if c == '!' then Some(Piece(Negation, i + 1))
    else if c == '=' then if second != '=' || third == '=' then None else Some(Piece(Comparing(Equal), i + 2))
    else if c == '<' then if second == '=' then Some(Piece(Comparing(LessEqual), i + 2)) else Some(Piece(Comparing(Less), i + 1))
    else if c == '>' then
      if second == '=' then Some(Piece(Comparing(GreaterEqual), i + 2)) else Some(Piece(Comparing(Greater), i + 1))
    else if c == '&' then if second == '&' then Some(Piece(Conjunction, i + 2)) else None
    else if c == '|' then if second == '|' then Some(Piece(Disjunction, i + 2)) else None
    else if IsWordCharacter(c) then
      var end := WordEnd(filter, i);
      if WordKind(filter[i..end]).Some? then Some(Piece(WordKind(filter[i..end]).value, end)) else None
    else None
  }

  function TokensFrom(filter: string, i: nat): Outcome<seq<Token>>
    requires i <= |filter|
    decreases |filter| - i
  {
    if i == |filter| then Accepted([Token(End, i)])
    else if IsWhitespace(filter[i]) then TokensFrom(filter, i + 1)
    else
      match PieceAt(filter, i)
      case None => Rejected(i)
      case Some(piece) => Behind([Token(piece.kind, i)], TokensFrom(filter, piece.end))
  }

  function Behind(tokens: seq<Token>, more: Outcome<seq<Token>>): Outcome<seq<Token>> {
    match more
    case Accepted(rest) => Accepted(tokens + rest)
    case Rejected(position) => Rejected(position)
  }

  lemma BehindBoth(tokens: seq<Token>, token: Token, more: Outcome<seq<Token>>)
    ensures Behind(tokens, Behind([token], more)) == Behind(tokens + [token], more)
  {
    if more.Accepted? {
      assert tokens + ([token] + more.value) == tokens + [token] + more.value;
    }
  }

  lemma BehindNothing(more: Outcome<seq<Token>>)
    ensures Behind([], more) == more
  {
    if more.Accepted? {
      assert [] + more.value == more.value;
    }
  }

  method Tokenize(filter: string) returns (read: Outcome<seq<Token>>)
    ensures read == TokensFrom(filter, 0)
  {
    hide WordKind, IsWhitespace, IsWordCharacter;
    var tokens, i := [], 0;
    BehindNothing(TokensFrom(filter, 0));
    while i < |filter|
      invariant i <= |filter| && TokensFrom(filter, 0) == Behind(tokens, TokensFrom(filter, i))
    {
      var c := filter[i];
      if IsWhitespace(c) {
        i := i + 1;
        continue;
      }
      var position, kind := i, End;
      if c == '(' || c == ')' {
        kind := if c == '(' then Opening else Closing;
        i := i + 1;
      } else if c == '!' && At(filter, i + 1) == '=' {
        if At(filter, i + 2) == '=' {
          return Rejected(i);
        }
        kind, i := Comparing(NotEqual), i + 2;
      } else if c == '!' {
        kind, i := Negation, i + 1;
      } else if c == '=' {
        if At(filter, i + 1) != '=' {
          return Rejected(i);
        }
        if At(filter, i + 2) == '=' {
          return Rejected(i);
        }
        kind, i := Comparing(Equal), i + 2;
      } else if c == '<' || c == '>' {
        var orEqual := At(filter, i + 1) == '=';
        kind := Comparing(if c == '<' then if orEqual then LessEqual else Less
                          else if orEqual then GreaterEqual else Greater);
        i := i + if orEqual then 2 else 1;
      } else if c == '&' || c == '|' {
        if At(filter, i + 1) != c {
          return Rejected(i);
        }
        kind, i := if c == '&' then Conjunction else Disjunction, i + 2;
      } else if IsWordCharacter(c) {
        var end := i;
        while end < |filter| && IsWordCharacter(filter[end])
          invariant i <= end <= |filter| && WordEnd(filter, end) == WordEnd(filter, i)
        {
          end := end + 1;
        }
        var word := WordKind(filter[i..end]);
        if word == None {
          return Rejected(i);
        }
        kind, i := word.value, end;
      } else {
        return Rejected(i);
      }
      BehindBoth(tokens, Token(kind, position), TokensFrom(filter, i));
      tokens := tokens + [Token(kind, position)];
    }
    return Accepted(tokens + [Token(End, |filter|)]);
  }

  // ── What the tokens say of the filter ──

  /** A token in characters that are not a word's; none for a word, and for the filter's end. */
  function Symbol(kind: TokenKind): string {
    match kind
    case Opening => "("
    case Closing => ")"
    case Negation => "!"
    case Conjunction => "&&"
    case Disjunction => "||"
    case Comparing(Equal) => "=="
    case Comparing(NotEqual) => "!="
    case Comparing(Less) => "<"
    case Comparing(Greater) => ">"
    case Comparing(LessEqual) => "<="
    case Comparing(GreaterEqual) => ">="
    case _ => ""
  }

  /** A token as a word, case aside; none for a parenthesis, a word and the filter's end. */
  function Name(kind: TokenKind): string {
    match kind
    case Negation => "not"
    case Conjunction => "and"
    case Disjunction => "or"
    case Comparing(Equal) => "eq"
    case Comparing(NotEqual) => "ne"
    case Comparing(Less) => "lt"
    case Comparing(Greater) => "gt"
    case Comparing(LessEqual) => "le"
    case Comparing(GreaterEqual) => "ge"
    case _ => ""
  }

  /** A word that is neither an operator nor one that is left out. */
  predicate IsWord(word: string) {
    && word != "" && AllWordCharacters(word)
    && LowerText(word) !in ["and", "or", "not", "eq", "ne", "lt", "gt", "le", "ge",
                            "contains", "matches", "in", "bitand", "any", "all", "xor"]
  }

  /** Whether `text` is one of the spellings of a token: its symbol, its name, or the word it is. */
  predicate Spells(text: string, kind: TokenKind) {
    if kind.Word? then text == kind.text && IsWord(text)
    else text != "" && (text == Symbol(kind) || LowerText(text) == Name(kind))
  }

  lemma NamesAreWords(text: string, kind: TokenKind)
    requires text != "" && LowerText(text) == Name(kind)
    ensures AllWordCharacters(text) && WordKind(text) == Some(kind)
  {
    hide IsUnsupported;
    var lower := LowerText(text);
    forall k | 0 <= k < |text|
      ensures IsWordCharacter(text[k])
    {
      assert IsWordCharacter(lower[k]);
    }
  }

  /** A word stands for what its spelling says. */
  lemma WordSpells(text: string, kind: TokenKind)
    requires text != "" && AllWordCharacters(text) && WordKind(text) == Some(kind)
    ensures Spells(text, kind)
  {
    hide LowerText, AllWordCharacters;
  }

  lemma PlainWord(text: string)
    requires IsWord(text)
    ensures WordKind(text) == Some(Word(text))
  {
    hide LowerText, AllWordCharacters;
  }

  /** A token does not end where a longer one would go on: a word, or an operator that `=` would change. */
  predicate EndsAt(filter: string, i: nat, end: nat)
    requires i < end <= |filter|
  {
    if IsWordCharacter(filter[i]) then end < |filter| ==> !IsWordCharacter(filter[end])
    else filter[i..end] in ["!", "<", ">", "==", "!="] ==> At(filter, end) != '='
  }

  /** The filter behind `i` is its tokens in order, each where it says and as long as it can be, and blanks. */
  ghost predicate Cuts(filter: string, i: nat, tokens: seq<Token>)
    decreases |tokens|
  {
    && tokens != [] && i <= tokens[0].position <= |filter| && AllWhitespace(filter[i..tokens[0].position])
    && if tokens[0].kind == End then tokens[0].position == |filter| && |tokens| == 1
       else exists e: nat :: IsPiece(filter, tokens[0].position, e, tokens[0].kind) && Cuts(filter, e, tokens[1..])
  }

  predicate IsPiece(filter: string, i: nat, end: nat, kind: TokenKind) {
    i < end <= |filter| && Spells(filter[i..end], kind) && EndsAt(filter, i, end)
  }

  lemma {:induction false} WordEndIs(filter: string, i: nat, end: nat)
    requires i <= end <= |filter| && AllWordCharacters(filter[i..end]) && (end < |filter| ==> !IsWordCharacter(filter[end]))
    ensures WordEnd(filter, i) == end
    decreases end - i
  {
    if i < end {
      assert IsWordCharacter(filter[i..end][0]);
      assert filter[i + 1..end] == filter[i..end][1..];
      WordEndIs(filter, i + 1, end);
    }
  }

  lemma SpelledAsWord(text: string, kind: TokenKind)
    requires text != "" && IsWordCharacter(text[0])
    ensures Spells(text, kind) <==> AllWordCharacters(text) && WordKind(text) == Some(kind)
  {
    hide WordKind, Name;
    if Spells(text, kind) {
      if kind.Word? {
        PlainWord(text);
      } else {
        NamesAreWords(text, kind);
      }
    } else if AllWordCharacters(text) && WordKind(text) == Some(kind) {
      WordSpells(text, kind);
    }
  }

  lemma SpelledAsSymbol(text: string, kind: TokenKind)
    requires text != "" && !IsWordCharacter(text[0])
    ensures Spells(text, kind) <==> text == Symbol(kind)
  {
    hide WordKind, Name, Symbol, IsWordCharacter;
    if LowerText(text) == Name(kind) {
      NamesAreWords(text, kind);
    }
    SymbolIsNoWord(kind);
  }

  lemma SymbolIsNoWord(kind: TokenKind)
    ensures kind.Word? ==> Symbol(kind) == ""
  {
  }

  /** The token that begins at `i` is the longest one spelled there. */
  lemma PieceIs(filter: string, i: nat, end: nat, kind: TokenKind)
    requires i < |filter|
    ensures PieceAt(filter, i) == Some(Piece(kind, end)) <==> IsPiece(filter, i, end, kind)
  {
    hide IsWhitespace, WordKind, Name, Spells;
    if IsWordCharacter(filter[i]) {
      WordPieceIs(filter, i, end, kind);
    } else if i < end <= |filter| {
      SpelledAsSymbol(filter[i..end], kind);
      SymbolPieceIs(filter, i, end, kind);
    }
  }

  lemma WordPieceIs(filter: string, i: nat, end: nat, kind: TokenKind)
    requires i < |filter| && IsWordCharacter(filter[i])
    ensures PieceAt(filter, i) == Some(Piece(kind, end)) <==> IsPiece(filter, i, end, kind)
  {
    hide WordKind, Spells;
    if i < end <= |filter| {
      SpelledAsWord(filter[i..end], kind);
      if IsPiece(filter, i, end, kind) {
        WordEndIs(filter, i, end);
      }
    }
  }

  lemma SymbolPieceIs(filter: string, i: nat, end: nat, kind: TokenKind)
    requires i < end <= |filter| && !IsWordCharacter(filter[i])
    ensures PieceAt(filter, i) == Some(Piece(kind, end)) <==> filter[i..end] == Symbol(kind) && EndsAt(filter, i, end)
  {
    hide WordKind, WordEnd;
    if end == i + 1 {
      assert filter[i..end] == [filter[i]];
    } else if end == i + 2 {
      assert filter[i..end] == [filter[i], filter[i + 1]];
    }
  }

  /** The tokens read are the only cut of the filter. */
  lemma {:induction false} FilterIsItsTokens(filter: string, i: nat, tokens: seq<Token>)
    requires i <= |filter|
    ensures TokensFrom(filter, i) == Accepted(tokens) <==> Cuts(filter, i, tokens)
    decreases |filter| - i
  {
    hide IsPiece, IsWhitespace, PieceAt;
    if i == |filter| {
      NothingToCut(filter, tokens);
    } else if IsWhitespace(filter[i]) {
      FilterIsItsTokens(filter, i + 1, tokens);
      BlankBefore(filter, i, tokens);
    } else if tokens != [] {
      FirstIsCut(filter, i, tokens);
      if PieceAt(filter, i).Some? {
        var piece := PieceAt(filter, i).value;
        FilterIsItsTokens(filter, piece.end, tokens[1..]);
        FirstIsBehind(tokens, Token(piece.kind, i), TokensFrom(filter, piece.end));
      }
    }
  }

  lemma FirstIsBehind(tokens: seq<Token>, first: Token, more: Outcome<seq<Token>>)
    requires tokens != []
    ensures Behind([first], more) == Accepted(tokens) <==> tokens[0] == first && more == Accepted(tokens[1..])
  {
    assert tokens == [tokens[0]] + tokens[1..];
    if more.Accepted? {
      assert ([first] + more.value)[1..] == more.value;
    }
  }

  lemma NothingToCut(filter: string, tokens: seq<Token>)
    ensures Cuts(filter, |filter|, tokens) <==> tokens == [Token(End, |filter|)]
  {
    assert filter[|filter|..|filter|] == "";
  }

  lemma FirstIsBlank(filter: string, i: nat, end: nat)
    requires i <= end <= |filter| && AllWhitespace(filter[i..end])
    ensures i < end ==> IsWhitespace(filter[i])
  {
    hide IsWhitespace;
    if i < end {
      assert IsWhitespace(filter[i..end][0]);
    }
  }

  /** Without a blank at `i`, a cut begins with the token there. */
  lemma FirstIsCut(filter: string, i: nat, tokens: seq<Token>)
    requires i < |filter| && !IsWhitespace(filter[i]) && tokens != []
    ensures Cuts(filter, i, tokens) <==>
            && PieceAt(filter, i).Some? && tokens[0] == Token(PieceAt(filter, i).value.kind, i)
            && Cuts(filter, PieceAt(filter, i).value.end, tokens[1..])
  {
    hide IsPiece, IsWhitespace, PieceAt;
    if Cuts(filter, i, tokens) {
      FirstIsBlank(filter, i, tokens[0].position);
      var e: nat :| IsPiece(filter, i, e, tokens[0].kind) && Cuts(filter, e, tokens[1..]);
      PieceIs(filter, i, e, tokens[0].kind);
    } else if PieceAt(filter, i).Some? && tokens[0] == Token(PieceAt(filter, i).value.kind, i) {
      PieceIs(filter, i, PieceAt(filter, i).value.end, tokens[0].kind);
      assert filter[i..i] == "";
    }
  }

  lemma BlankBefore(filter: string, i: nat, tokens: seq<Token>)
    requires i < |filter| && IsWhitespace(filter[i])
    ensures Cuts(filter, i + 1, tokens) <==> Cuts(filter, i, tokens)
  {
    hide Spells, IsWhitespace;
    if tokens != [] && i < tokens[0].position <= |filter| {
      assert filter[i..tokens[0].position] == [filter[i]] + filter[i + 1..tokens[0].position];
    }
    if tokens != [] && tokens[0].position == i {
      BlankIsNoPiece(filter, i, tokens[0].kind);
    }
  }

  lemma BlankIsNoPiece(filter: string, i: nat, kind: TokenKind)
    requires i < |filter| && IsWhitespace(filter[i])
    ensures forall end: nat :: !IsPiece(filter, i, end, kind)
  {
    hide IsPiece, WordEnd, WordKind;
    assert PieceAt(filter, i) == None;
    forall end: nat
      ensures !IsPiece(filter, i, end, kind)
    {
      PieceIs(filter, i, end, kind);
    }
  }

  lemma {:induction false} RejectedWhere(filter: string, i: nat)
    requires i <= |filter|
    ensures TokensFrom(filter, i).Rejected? ==> i <= TokensFrom(filter, i).position < |filter|
    decreases |filter| - i
  {
    hide IsWhitespace, PieceAt;
    if i < |filter| {
      if IsWhitespace(filter[i]) {
        RejectedWhere(filter, i + 1);
      } else if PieceAt(filter, i).Some? {
        RejectedWhere(filter, PieceAt(filter, i).value.end);
      }
    }
  }

  // ── A filter as it may be written ──

  /** A token in one of its spellings, and the blanks behind it. */
  datatype Spelling = Spelling(kind: TokenKind, text: string, blanks: string)

  predicate IsSpelling(s: Spelling) {
    Spells(s.text, s.kind) && s.blanks != "" && AllWhitespace(s.blanks)
  }

  function Written(spellings: seq<Spelling>): string {
    if spellings == [] then "" else spellings[0].text + spellings[0].blanks + Written(spellings[1..])
  }

  /** The tokens are of these kinds, in order, and end there. */
  predicate AreOfKinds(tokens: seq<Token>, spellings: seq<Spelling>) {
    && |tokens| == |spellings| + 1 && tokens[|spellings|].kind == End
    && forall k :: 0 <= k < |spellings| ==> tokens[k].kind == spellings[k].kind
  }

  /** Whether `text` stands at `i` of the filter, and a blank behind it. */
  predicate StandsAt(filter: string, i: nat, text: string) {
    i + |text| < |filter| && filter[i..i + |text|] == text && IsWhitespace(filter[i + |text|])
  }

  lemma SpellingIsRead(filter: string, i: nat, text: string, kind: TokenKind)
    requires StandsAt(filter, i, text) && Spells(text, kind)
    ensures PieceAt(filter, i) == Some(Piece(kind, i + |text|)) && !IsWhitespace(filter[i])
  {
    hide Spells, WordEnd, WordKind, PieceAt;
    SpelledIsSome(text, kind);
    BlankEnds(filter[i + |text|]);
    PieceIs(filter, i, i + |text|, kind);
    if IsWhitespace(filter[i]) {
      BlankIsNoPiece(filter, i, kind);
    }
  }

  lemma SpelledIsSome(text: string, kind: TokenKind)
    ensures Spells(text, kind) ==> text != ""
  {
  }

  lemma BlankEnds(c: char)
    ensures IsWhitespace(c) ==> !IsWordCharacter(c) && c != '='
  {
  }

  lemma {:induction false} BlanksAreSkipped(filter: string, i: nat, end: nat)
    requires i <= end <= |filter| && AllWhitespace(filter[i..end])
    ensures TokensFrom(filter, i) == TokensFrom(filter, end)
    decreases end - i
  {
    hide IsWhitespace, PieceAt;
    if i < end {
      assert IsWhitespace(filter[i..end][0]);
      assert filter[i + 1..end] == filter[i..end][1..];
      BlanksAreSkipped(filter, i + 1, end);
    }
  }

  /** However the operators are spelled and whatever blanks there are, the filter's tokens are those written. */
  lemma {:induction false} WrittenIsRead(filter: string, i: nat, spellings: seq<Spelling>)
    requires forall k :: 0 <= k < |spellings| ==> IsSpelling(spellings[k])
    requires i <= |filter| && filter[i..] == Written(spellings)
    ensures TokensFrom(filter, i).Accepted? && AreOfKinds(TokensFrom(filter, i).value, spellings)
    decreases |spellings|
  {
    hide IsWhitespace, PieceAt, Spells;
    if spellings != [] {
      var first := spellings[0];
      var end, next := FirstStands(filter, i, first.text, first.blanks, Written(spellings[1..]));
      SpellingIsRead(filter, i, first.text, first.kind);
      BlanksAreSkipped(filter, end, next);
      WrittenIsRead(filter, next, spellings[1..]);
      assert TokensFrom(filter, i).value == [Token(first.kind, i)] + TokensFrom(filter, next).value;
    }
  }

  lemma FirstStands(filter: string, i: nat, text: string, blanks: string, rest: string) returns (end: nat, next: nat)
    requires blanks != "" && AllWhitespace(blanks)
    requires i <= |filter| && filter[i..] == text + blanks + rest
    ensures end == i + |text| && end < next <= |filter| && StandsAt(filter, i, text)
    ensures AllWhitespace(filter[end..next]) && filter[next..] == rest
  {
    hide IsWhitespace;
    end, next := i + |text|, i + |text| + |blanks|;
    assert filter[i..end] == filter[i..][..|text|] == text;
    assert filter[end..next] == filter[i..][|text|..|text| + |blanks|] == blanks;
    assert filter[next..] == filter[i..][|text| + |blanks|..] == rest;
    assert filter[end] == blanks[0];
  }

  // ── The tokens' end ──

  /** The last token, and no other, is the filter's end; words are no operators, operators compare. */
  predicate AreTokens(tokens: seq<Token>) {
    && tokens != [] && (forall k :: 0 <= k < |tokens| ==> (tokens[k].kind == End <==> k == |tokens| - 1))
    && forall k :: 0 <= k < |tokens| ==> IsToken(tokens[k].kind)
  }

  predicate IsToken(kind: TokenKind) {
    kind != Comparing(Present) && (kind.Word? ==> IsWord(kind.text))
  }

  /** Every token lies in the filter. */
  predicate InFilter(tokens: seq<Token>, length: nat) {
    forall k :: 0 <= k < |tokens| ==>
      tokens[k].position + (if tokens[k].kind.Word? then |tokens[k].kind.text| else 0) <= length
  }

  lemma {:induction false} TokensEnd(filter: string, i: nat, tokens: seq<Token>)
    requires Cuts(filter, i, tokens)
    ensures AreTokens(tokens) && InFilter(tokens, |filter|)
    decreases |tokens|
  {
    hide IsWhitespace, WordKind;
    if tokens[0].kind != End {
      var e: nat :| IsPiece(filter, tokens[0].position, e, tokens[0].kind) && Cuts(filter, e, tokens[1..]);
      TokensEnd(filter, e, tokens[1..]);
      WordIsItself(filter[tokens[0].position..e], tokens[0].kind);
      assert tokens == [tokens[0]] + tokens[1..];
    }
  }

  lemma WordIsItself(text: string, kind: TokenKind)
    requires Spells(text, kind)
    ensures IsToken(kind) && (kind.Word? ==> text == kind.text)
  {
    hide LowerText, IsUnsupported;
  }
}
