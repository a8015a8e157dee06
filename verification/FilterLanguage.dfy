/** The language of display filters: a text is a filter exactly when it is cut into the tokens of a tree, and
  * the filter holds of a packet when the tree does. */
module FilterLanguage {
  import opened Options
  import opened FilterExpression
  import opened FilterTranslation
  import opened FilterTokens
  import opened FilterTests
  import opened FilterTestSyntax
  import opened FilterGrammar
  import opened FilterSyntax
  import opened PacketLines
  import opened FilterCorrect
  import opened DisplayFilters

  // ── The texts that are filters ──

  ghost predicate IsFilter(filter: string, e: Expr) {
    exists tokens :: Cuts(filter, 0, tokens) && tokens != [] && IsFilterFor(KindsIn(tokens, 0, |tokens| - 1), e)
  }

  lemma SomeToken(filter: string, tokens: seq<Token>)
    requires Cuts(filter, 0, tokens)
    ensures tokens != []
  {
  }

  /** A text is accepted as the expression its tree means if it has one, and rejected if it has none. */
  lemma {:induction false} AcceptedFilters(filter: string, e: Expr)
    ensures ParseFilter(filter) == Accepted(e) <==> IsFilter(filter, e)
  {
    hide TokensFrom, ParseTokens, AreTokens, InFilter, Cuts, IsFilterFor, KindsIn;
    ReadTokens(filter);
    if TokensFrom(filter, 0).Accepted? {
      var tokens := TokensFrom(filter, 0).value;
      FilterIsItsTokens(filter, 0, tokens);
      SomeToken(filter, tokens);
      AcceptedExactly(tokens, e);
    }
    if IsFilter(filter, e) {
      var tokens :| Cuts(filter, 0, tokens) && tokens != [] && IsFilterFor(KindsIn(tokens, 0, |tokens| - 1), e);
      FilterIsItsTokens(filter, 0, tokens);
    }
  }

  // ── When a tree holds ──

  ghost predicate UnaryHolds(u: Unary, p: PacketRecord)
    decreases u, 0
  {
    match u
    case Negated(operand) => !UnaryHolds(operand, p)
    case Parenthesised(inner) => DisjunctsHold(inner, p)
    case Test(_, expression) => WellFormed(expression) && Evaluate(expression, p)
  }

  ghost predicate ConjunctsHold(c: Conjuncts, p: PacketRecord)
    decreases c, 0
  {
    forall u :: u in c.operands ==> UnaryHolds(u, p)
  }

  ghost predicate DisjunctsHold(d: Disjuncts, p: PacketRecord)
    decreases d, 0
  {
    exists c :: c in d.operands && ConjunctsHold(c, p)
  }

  function TokenOf(kinds: seq<TokenKind>, k: nat): Token {
    Token(if k < |kinds| then kinds[k] else End, 0)
  }

  lemma TokensOf(kinds: seq<TokenKind>) returns (tokens: seq<Token>)
    requires AllTokens(kinds)
    ensures AreTokens(tokens) && |tokens| == |kinds| + 1 && KindsIn(tokens, 0, |kinds|) == kinds
    ensures tokens[|kinds|].kind == End && forall k :: 0 <= k < |kinds| ==> tokens[k].kind == kinds[k]
  {
    hide IsWord;
    tokens := seq(|kinds| + 1, k requires 0 <= k <= |kinds| => TokenOf(kinds, k));
    assert IsToken(End);
    assert forall k :: 0 <= k <= |kinds| ==> tokens[k] == TokenOf(kinds, k);
  }

  /** A test is a leaf in canonical values, for which the translation is defined. */
  lemma TestIsWellFormedLeaf(kinds: seq<TokenKind>, e: Expr)
    requires AllTokens(kinds) && IsTestOf(kinds, e)
    ensures WellFormed(e)
  {
    hide IsSingle, IsCompared, IsToken, ReadTest, IsLeaf, WellFormed, AreTokens, AllTokens, KindsIn;
    var tokens := TokensOf(kinds);
    FilterTestSyntax.TestMeans(tokens, 0, e, |kinds|);
    TestIsLeaf(tokens, 0);
    LeafIsWellFormed(e);
  }

  lemma LeafIsWellFormed(e: Expr)
    requires IsLeaf(e)
    ensures WellFormed(e)
  {
    hide IsCanonical, WellFormedTest, IsProtocolName, IsName;
    match e {
      case Compare(test) => TestIsWellFormed(test);
      case Protocol(name) => NameIsWellFormed(name);
    }
  }

  lemma {:induction false} UnaryMeans(u: Unary, p: PacketRecord)
    requires IsUnary(u)
    ensures WellFormed(UnaryMeaning(u)) && (Evaluate(UnaryMeaning(u), p) <==> UnaryHolds(u, p))
    decreases u, 0
  {
    hide DisjunctsMeaning, DisjunctsHold, AreDisjuncts, EvaluateTest, WellFormedTest, IsName, SameName, IsTestOf, AllTokens;
    match u {
      case Negated(operand) => UnaryMeans(operand, p);
      case Parenthesised(inner) => DisjunctsMean(inner, p);
      case Test(kinds, e) => TestIsWellFormedLeaf(kinds, e);
    }
  }

  lemma {:induction false} MeaningsAre(operands: seq<Unary>)
    ensures forall k :: 0 <= k < |operands| ==> UnaryMeanings(operands)[k] == UnaryMeaning(operands[k])
  {
    hide UnaryMeaning;
    if operands != [] {
      MeaningsAre(operands[1..]);
      assert forall k :: 0 < k < |operands| ==> UnaryMeanings(operands)[k] == UnaryMeanings(operands[1..])[k - 1];
    }
  }

  lemma {:induction false} ConjunctsMean(c: Conjuncts, p: PacketRecord)
    requires AreConjuncts(c)
    ensures WellFormed(ConjunctsMeaning(c)) && (Evaluate(ConjunctsMeaning(c), p) <==> ConjunctsHold(c, p))
    decreases c, 0
  {
    hide UnaryMeaning, UnaryMeanings, UnaryHolds, IsUnary, Combine, Evaluate, WellFormed;
    var meanings := UnaryMeanings(c.operands);
    MeaningsAre(c.operands);
    forall u | u in c.operands
      ensures WellFormed(UnaryMeaning(u)) && (Evaluate(UnaryMeaning(u), p) <==> UnaryHolds(u, p))
    {
      UnaryMeans(u, p);
    }
    CombineMeans(true, meanings, p);
    assert forall k :: 0 <= k < |meanings| ==> meanings[k] in meanings && c.operands[k] in c.operands;
  }

  lemma {:induction false} AllMeaningsAre(operands: seq<Conjuncts>)
    ensures forall k :: 0 <= k < |operands| ==> ConjunctsMeanings(operands)[k] == ConjunctsMeaning(operands[k])
  {
    hide ConjunctsMeaning;
    if operands != [] {
      AllMeaningsAre(operands[1..]);
      assert forall k :: 0 < k < |operands| ==> ConjunctsMeanings(operands)[k] == ConjunctsMeanings(operands[1..])[k - 1];
    }
  }

  /** What a tree means holds of a packet when the tree does: `||` if any of its operands does, `&&` if all do,
    * and `!` if its operand does not. */
  lemma {:induction false} DisjunctsMean(d: Disjuncts, p: PacketRecord)
    requires AreDisjuncts(d)
    ensures WellFormed(DisjunctsMeaning(d)) && (Evaluate(DisjunctsMeaning(d), p) <==> DisjunctsHold(d, p))
    decreases d, 0
  {
    hide ConjunctsMeaning, ConjunctsMeanings, ConjunctsHold, AreConjuncts, Combine, Evaluate, WellFormed;
    var meanings := ConjunctsMeanings(d.operands);
    AllMeaningsAre(d.operands);
    forall c | c in d.operands
      ensures WellFormed(ConjunctsMeaning(c)) && (Evaluate(ConjunctsMeaning(c), p) <==> ConjunctsHold(c, p))
    {
      ConjunctsMean(c, p);
    }
    CombineMeans(false, meanings, p);
    assert forall k :: 0 <= k < |meanings| ==> meanings[k] in meanings && d.operands[k] in d.operands;
  }

  /** A filter cut into the tokens of a tree selects the lines of the packets of which the tree holds. */
  lemma {:induction false} SelectedByTree(filter: string, tokens: seq<Token>, d: Disjuncts, p: PacketRecord)
    requires tokens != [] && Cuts(filter, 0, tokens) && AreDisjuncts(d) && DisjunctsDepth(d.operands) <= MaxDepth
    requires DisjunctsTokens(d.operands) == KindsIn(tokens, 0, |tokens| - 1)
    requires WellFormedPacket(p)
    ensures ParseFilter(filter) == Accepted(DisjunctsMeaning(d)) && WellFormed(DisjunctsMeaning(d))
    ensures Selects(FilterPattern(DisjunctsMeaning(d)), FormatPacketLine(p)) <==> DisjunctsHold(d, p)
  {
    hide Cuts, KindsIn, AreDisjuncts, DisjunctsTokens, DisjunctsDepth, DisjunctsMeaning, DisjunctsHold, ParseFilter;
    hide WellFormed, Evaluate, Selects, FilterPattern, FormatPacketLine, WellFormedPacket;
    var e := DisjunctsMeaning(d);
    assert IsTreeOf(d, KindsIn(tokens, 0, |tokens| - 1), e);
    AcceptedFilters(filter, e);
    DisjunctsMean(d, p);
    FilterSelectsPackets(e, p);
  }
}
