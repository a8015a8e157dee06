/** The grammar of display filters (src/display_filter.h): the parser accepts the tokens of its trees and no
  * others, and gives what each tree means. */
module FilterSyntax {
  import opened Options
  import opened FilterExpression
  import opened FilterTokens
  import opened FilterTests
  import opened FilterTestSyntax
  import opened FilterGrammar

  /** `||` of one operand or more, `&&` of one or more, and what either combines. */
  datatype Disjuncts = Disjuncts(operands: seq<Conjuncts>)
  datatype Conjuncts = Conjuncts(operands: seq<Unary>)
  datatype Unary = Negated(operand: Unary) | Parenthesised(inner: Disjuncts) | Test(kinds: seq<TokenKind>, expression: Expr)

  ghost predicate AreDisjuncts(d: Disjuncts) {
    d.operands != [] && forall c :: c in d.operands ==> AreConjuncts(c)
  }

  ghost predicate AreConjuncts(c: Conjuncts) {
    c.operands != [] && forall u :: u in c.operands ==> IsUnary(u)
  }

  predicate AllTokens(kinds: seq<TokenKind>) {
    forall k :: 0 <= k < |kinds| ==> kinds[k] != End && IsToken(kinds[k])
  }

  ghost predicate IsUnary(u: Unary) {
    match u
    case Negated(operand) => IsUnary(operand)
    case Parenthesised(inner) => AreDisjuncts(inner)
    case Test(kinds, expression) => AllTokens(kinds) && IsTestOf(kinds, expression)
  }

  // ── A tree's tokens, its meaning and its depth ──

  function UnaryTokens(u: Unary): seq<TokenKind>
    decreases u, 0
  {
    match u
    case Negated(operand) => [Negation] + UnaryTokens(operand)
    case Parenthesised(inner) => [Opening] + DisjunctsTokens(inner.operands) + [Closing]
    case Test(kinds, _) => kinds
  }

  function ConjunctsTokens(operands: seq<Unary>): seq<TokenKind>
    decreases operands, 1
  {
    if operands == [] then [] else UnaryTokens(operands[0]) + MoreConjunctsTokens(operands[1..])
  }

  function MoreConjunctsTokens(operands: seq<Unary>): seq<TokenKind>
    decreases operands, 0
  {
    if operands == [] then [] else [Conjunction] + (UnaryTokens(operands[0]) + MoreConjunctsTokens(operands[1..]))
  }

  function DisjunctsTokens(operands: seq<Conjuncts>): seq<TokenKind>
    decreases operands, 1
  {
    if operands == [] then [] else ConjunctsTokens(operands[0].operands) + MoreDisjunctsTokens(operands[1..])
  }

  function MoreDisjunctsTokens(operands: seq<Conjuncts>): seq<TokenKind>
    decreases operands, 0
  {
    if operands == [] then [] else [Disjunction] + (ConjunctsTokens(operands[0].operands) + MoreDisjunctsTokens(operands[1..]))
  }

  function UnaryMeaning(u: Unary): Expr
    decreases u, 0
  {
    match u
    case Negated(operand) => Not(UnaryMeaning(operand))
    case Parenthesised(inner) => DisjunctsMeaning(inner)
    case Test(_, expression) => expression
  }

  function UnaryMeanings(operands: seq<Unary>): (meanings: seq<Expr>)
    ensures |meanings| == |operands|
    decreases operands, 1
  {
    if operands == [] then [] else [UnaryMeaning(operands[0])] + UnaryMeanings(operands[1..])
  }

  function ConjunctsMeaning(c: Conjuncts): Expr
    decreases c, 0
  {
    if c.operands == [] then And([]) else Combine(true, UnaryMeanings(c.operands))
  }

  function ConjunctsMeanings(operands: seq<Conjuncts>): (meanings: seq<Expr>)
    ensures |meanings| == |operands|
    decreases operands, 1
  {
    if operands == [] then [] else [ConjunctsMeaning(operands[0])] + ConjunctsMeanings(operands[1..])
  }

  function DisjunctsMeaning(d: Disjuncts): Expr
    decreases d, 0
  {
    if d.operands == [] then Or([]) else Combine(false, ConjunctsMeanings(d.operands))
  }

  function Larger(m: nat, n: nat): nat {
    if m < n then n else m
  }

  /** The parentheses and negations nested in a tree. */
  function UnaryDepth(u: Unary): nat
    decreases u, 0
  {
    match u
    case Negated(operand) => 1 + UnaryDepth(operand)
    case Parenthesised(inner) => 1 + DisjunctsDepth(inner.operands)
    case Test(_, _) => 0
  }

  function ConjunctsDepth(operands: seq<Unary>): nat
    decreases operands, 1
  {
    if operands == [] then 0 else Larger(UnaryDepth(operands[0]), ConjunctsDepth(operands[1..]))
  }

  function DisjunctsDepth(operands: seq<Conjuncts>): nat
    decreases operands, 1
  {
    if operands == [] then 0 else Larger(ConjunctsDepth(operands[0].operands), DisjunctsDepth(operands[1..]))
  }

  // ── The parser reads every tree ──

  /** Read as the expression if it does not nest too deep, and rejected if it does. */
  predicate IsRead(read: Outcome<Part>, e: Expr, end: nat, depth: nat) {
    if depth <= MaxDepth then read == Accepted(Part(e, end)) else read.Rejected?
  }

  /** The tokens at `next` are these, and others are behind them. */
  predicate Stand(tokens: seq<Token>, next: nat, kinds: seq<TokenKind>) {
    next + |kinds| < |tokens| && forall k :: 0 <= k < |kinds| ==> tokens[next + k].kind == kinds[k]
  }

  lemma StandSplits(tokens: seq<Token>, next: nat, a: seq<TokenKind>, b: seq<TokenKind>)
    requires Stand(tokens, next, a + b)
    ensures next + |a| < |tokens| && Stand(tokens, next, a) && Stand(tokens, next + |a|, b)
    ensures b != [] ==> tokens[next + |a|].kind == b[0]
  {
    assert forall k :: 0 <= k < |a| ==> (a + b)[k] == a[k];
    assert forall k :: 0 <= k < |b| ==> (a + b)[|a| + k] == b[k];
    assert forall k :: 0 <= k < |b| ==> tokens[next + (|a| + k)].kind == b[k];
  }

  lemma StandFits(tokens: seq<Token>, next: nat, kinds: seq<TokenKind>)
    requires Stand(tokens, next, kinds)
    ensures next + |kinds| < |tokens|
  {
  }

  lemma FirstStands(tokens: seq<Token>, next: nat, first: TokenKind, rest: seq<TokenKind>)
    requires Stand(tokens, next, [first] + rest)
    ensures next + 1 < |tokens| && tokens[next].kind == first && Stand(tokens, next + 1, rest)
  {
    StandSplits(tokens, next, [first], rest);
    assert tokens[next + 0].kind == [first][0];
  }

  lemma StandIsIn(tokens: seq<Token>, next: nat, kinds: seq<TokenKind>)
    requires Stand(tokens, next, kinds)
    ensures KindsIn(tokens, next, next + |kinds|) == kinds
  {
  }

  lemma {:induction false} UnaryIsRead(u: Unary, tokens: seq<Token>, next: nat, depth: nat)
    requires AreTokens(tokens) && IsUnary(u) && depth <= MaxDepth && Stand(tokens, next, UnaryTokens(u))
    requires !tokens[next + |UnaryTokens(u)|].kind.Comparing?
    ensures IsRead(ParseUnary(tokens, next, depth), UnaryMeaning(u), next + |UnaryTokens(u)|, depth + UnaryDepth(u))
    decreases u, 0
  {
    hide AreTokens, Stand, IsTestOf, ReadTest, ParseOr, DisjunctsTokens, DisjunctsDepth, DisjunctsMeaning;
    match u {
      case Negated(operand) =>
        FirstStands(tokens, next, Negation, UnaryTokens(operand));
        if depth < MaxDepth {
          UnaryIsRead(operand, tokens, next + 1, depth + 1);
        }
      case Parenthesised(inner) =>
        var kinds := DisjunctsTokens(inner.operands);
        StandSplits(tokens, next, [Opening] + kinds, [Closing]);
        FirstStands(tokens, next, Opening, kinds);
        if depth < MaxDepth {
          DisjunctsAreRead(inner, tokens, next + 1, depth + 1);
        }
      case Test(kinds, e) =>
        TestIsRead(kinds, e, tokens, next, depth);
    }
  }

  lemma TestIsRead(kinds: seq<TokenKind>, e: Expr, tokens: seq<Token>, next: nat, depth: nat)
    requires AreTokens(tokens) && IsTestOf(kinds, e) && Stand(tokens, next, kinds) && !tokens[next + |kinds|].kind.Comparing?
    ensures ParseUnary(tokens, next, depth) == Accepted(Part(e, next + |kinds|))
  {
    hide IsSingle, IsCompared, ReadTest;
    assert tokens[next + 0].kind == kinds[0];
    StandIsIn(tokens, next, kinds);
    TestMeans(tokens, next, e, next + |kinds|);
  }

  lemma {:induction false} ConjunctsAreRead(c: Conjuncts, tokens: seq<Token>, next: nat, depth: nat)
    requires AreTokens(tokens) && AreConjuncts(c) && depth <= MaxDepth && Stand(tokens, next, ConjunctsTokens(c.operands))
    requires var after := tokens[next + |ConjunctsTokens(c.operands)|].kind; !after.Comparing? && after != Conjunction
    ensures IsRead(ParseAnd(tokens, next, depth), ConjunctsMeaning(c), next + |ConjunctsTokens(c.operands)|, depth + ConjunctsDepth(c.operands))
    decreases c, 0
  {
    hide AreTokens, Stand, IsUnary, ParseUnary, UnaryTokens, UnaryDepth, UnaryMeaning, Combine;
    var first, rest := c.operands[0], c.operands[1..];
    StandSplits(tokens, next, UnaryTokens(first), MoreConjunctsTokens(rest));
    UnaryIsRead(first, tokens, next, depth);
    MoreConjunctsAreRead(rest, [UnaryMeaning(first)], tokens, next + |UnaryTokens(first)|, depth);
  }

  lemma NoConjuncts()
    ensures MoreConjunctsTokens([]) == [] && UnaryMeanings([]) == [] && ConjunctsDepth([]) == 0
  {
  }

  lemma NoMoreAnd(tokens: seq<Token>, next: nat, depth: nat, before: seq<Expr>)
    requires AreTokens(tokens) && next < |tokens| && before != [] && tokens[next].kind != Conjunction
    ensures MoreAnd(tokens, next, depth, before) == Accepted(Part(Combine(true, before + []), next))
    ensures depth <= MaxDepth ==> IsRead(MoreAnd(tokens, next, depth, before), Combine(true, before + []), next, depth)
  {
    hide AreTokens, Combine;
    assert before + [] == before;
  }

  lemma MoreAndStep(tokens: seq<Token>, next: nat, depth: nat, before: seq<Expr>)
    requires AreTokens(tokens) && next + 1 < |tokens| && before != [] && tokens[next].kind == Conjunction
    ensures MoreAnd(tokens, next, depth, before) ==
            match ParseUnary(tokens, next + 1, depth)
            case Rejected(position) => Rejected(position)
            case Accepted(part) => MoreAnd(tokens, part.next, depth, before + [part.expression])
  {
    hide AreTokens, ParseUnary, Combine;
  }

  lemma MoreConjunctsAre(operands: seq<Unary>)
    ensures operands != [] ==> MoreConjunctsTokens(operands) == [Conjunction] + (UnaryTokens(operands[0]) + MoreConjunctsTokens(operands[1..]))
    ensures MoreConjunctsTokens(operands) != [] ==> MoreConjunctsTokens(operands)[0] == Conjunction
  {
    hide UnaryTokens;
  }

  lemma MoreConjunctsStand(operands: seq<Unary>, tokens: seq<Token>, next: nat)
    requires operands != [] && Stand(tokens, next, MoreConjunctsTokens(operands))
    ensures next + 1 < |tokens| && tokens[next].kind == Conjunction
    ensures var kinds, more := UnaryTokens(operands[0]), MoreConjunctsTokens(operands[1..]);
            && |MoreConjunctsTokens(operands)| == 1 + |kinds| + |more|
            && next + 1 + |kinds| < |tokens| && Stand(tokens, next + 1, kinds) && Stand(tokens, next + 1 + |kinds|, more)
            && (more != [] ==> tokens[next + 1 + |kinds|].kind == Conjunction)
  {
    hide Stand, UnaryTokens, MoreConjunctsTokens;
    var kinds, more := UnaryTokens(operands[0]), MoreConjunctsTokens(operands[1..]);
    MoreConjunctsAre(operands);
    MoreConjunctsAre(operands[1..]);
    FirstStands(tokens, next, Conjunction, kinds + more);
    StandSplits(tokens, next + 1, kinds, more);
  }

  lemma MoreAndIsRead(first: Unary, rest: seq<Unary>, before: seq<Expr>, tokens: seq<Token>, next: nat, end: nat, depth: nat)
    requires AreTokens(tokens) && before != [] && next + 1 < |tokens| && tokens[next].kind == Conjunction && next + 1 + |UnaryTokens(first)| < |tokens|
    requires IsRead(ParseUnary(tokens, next + 1, depth), UnaryMeaning(first), next + 1 + |UnaryTokens(first)|, depth + UnaryDepth(first))
    requires IsRead(MoreAnd(tokens, next + 1 + |UnaryTokens(first)|, depth, before + [UnaryMeaning(first)]),
                    Combine(true, before + [UnaryMeaning(first)] + UnaryMeanings(rest)), end, depth + ConjunctsDepth(rest))
    ensures IsRead(MoreAnd(tokens, next, depth, before), Combine(true, before + UnaryMeanings([first] + rest)), end,
                   depth + ConjunctsDepth([first] + rest))
  {
    hide AreTokens, ParseUnary, UnaryTokens, UnaryDepth, UnaryMeaning, Combine, MoreAnd;
    MoreAndStep(tokens, next, depth, before);
    assert ([first] + rest)[1..] == rest;
    assert before + [UnaryMeaning(first)] + UnaryMeanings(rest) == before + UnaryMeanings([first] + rest);
  }

  lemma {:induction false} MoreConjunctsAreRead(operands: seq<Unary>, before: seq<Expr>, tokens: seq<Token>, next: nat, depth: nat)
    requires AreTokens(tokens) && depth <= MaxDepth && before != [] && forall u :: u in operands ==> IsUnary(u)
    requires Stand(tokens, next, MoreConjunctsTokens(operands))
    requires var after := tokens[next + |MoreConjunctsTokens(operands)|].kind; !after.Comparing? && after != Conjunction
    ensures IsRead(MoreAnd(tokens, next, depth, before), Combine(true, before + UnaryMeanings(operands)),
                   next + |MoreConjunctsTokens(operands)|, depth + ConjunctsDepth(operands))
    decreases operands, 1
  {
    hide IsRead, UnaryMeanings, ConjunctsDepth, AreTokens, Stand, IsUnary, ParseUnary, UnaryTokens, UnaryDepth, UnaryMeaning, Combine, MoreAnd, MoreConjunctsTokens;
    if operands == [] {
      NoConjuncts();
      StandFits(tokens, next, []);
      NoMoreAnd(tokens, next, depth, before);
    } else {
      var first, rest := operands[0], operands[1..];
      MoreConjunctsStand(operands, tokens, next);
      UnaryIsRead(first, tokens, next + 1, depth);
      MoreConjunctsAreRead(rest, before + [UnaryMeaning(first)], tokens, next + 1 + |UnaryTokens(first)|, depth);
      assert operands == [first] + rest;
      MoreAndIsRead(first, rest, before, tokens, next, next + |MoreConjunctsTokens(operands)|, depth);
    }
  }

  lemma {:induction false} DisjunctsAreRead(d: Disjuncts, tokens: seq<Token>, next: nat, depth: nat)
    requires AreTokens(tokens) && AreDisjuncts(d) && depth <= MaxDepth && Stand(tokens, next, DisjunctsTokens(d.operands))
    requires var after := tokens[next + |DisjunctsTokens(d.operands)|].kind; !after.Comparing? && after != Conjunction && after != Disjunction
    ensures IsRead(ParseOr(tokens, next, depth), DisjunctsMeaning(d), next + |DisjunctsTokens(d.operands)|, depth + DisjunctsDepth(d.operands))
    decreases d, 0
  {
    hide AreTokens, Stand, AreConjuncts, ParseAnd, ConjunctsTokens, ConjunctsDepth, ConjunctsMeaning, Combine;
    var first, rest := d.operands[0], d.operands[1..];
    StandSplits(tokens, next, ConjunctsTokens(first.operands), MoreDisjunctsTokens(rest));
    ConjunctsAreRead(first, tokens, next, depth);
    MoreDisjunctsAreRead(rest, [ConjunctsMeaning(first)], tokens, next + |ConjunctsTokens(first.operands)|, depth);
  }

  lemma NoDisjuncts()
    ensures MoreDisjunctsTokens([]) == [] && ConjunctsMeanings([]) == [] && DisjunctsDepth([]) == 0
  {
  }

  lemma NoMoreOr(tokens: seq<Token>, next: nat, depth: nat, before: seq<Expr>)
    requires AreTokens(tokens) && next < |tokens| && before != [] && tokens[next].kind != Disjunction
    ensures MoreOr(tokens, next, depth, before) == Accepted(Part(Combine(false, before + []), next))
    ensures depth <= MaxDepth ==> IsRead(MoreOr(tokens, next, depth, before), Combine(false, before + []), next, depth)
  {
    hide AreTokens, Combine;
    assert before + [] == before;
  }

  lemma MoreOrStep(tokens: seq<Token>, next: nat, depth: nat, before: seq<Expr>)
    requires AreTokens(tokens) && next + 1 < |tokens| && before != [] && tokens[next].kind == Disjunction
    ensures MoreOr(tokens, next, depth, before) ==
            match ParseAnd(tokens, next + 1, depth)
            case Rejected(position) => Rejected(position)
            case Accepted(part) => MoreOr(tokens, part.next, depth, before + [part.expression])
  {
    hide AreTokens, ParseAnd, Combine;
  }

  lemma MoreDisjunctsAre(operands: seq<Conjuncts>)
    ensures operands != [] ==> MoreDisjunctsTokens(operands) == [Disjunction] + (ConjunctsTokens(operands[0].operands) + MoreDisjunctsTokens(operands[1..]))
    ensures MoreDisjunctsTokens(operands) != [] ==> MoreDisjunctsTokens(operands)[0] == Disjunction
  {
    hide ConjunctsTokens;
  }

  lemma MoreDisjunctsStand(operands: seq<Conjuncts>, tokens: seq<Token>, next: nat)
    requires operands != [] && Stand(tokens, next, MoreDisjunctsTokens(operands))
    ensures next + 1 < |tokens| && tokens[next].kind == Disjunction
    ensures var kinds, more := ConjunctsTokens(operands[0].operands), MoreDisjunctsTokens(operands[1..]);
            && |MoreDisjunctsTokens(operands)| == 1 + |kinds| + |more|
            && next + 1 + |kinds| < |tokens| && Stand(tokens, next + 1, kinds) && Stand(tokens, next + 1 + |kinds|, more)
            && (more != [] ==> tokens[next + 1 + |kinds|].kind == Disjunction)
  {
    hide Stand, ConjunctsTokens, MoreDisjunctsTokens;
    var kinds, more := ConjunctsTokens(operands[0].operands), MoreDisjunctsTokens(operands[1..]);
    MoreDisjunctsAre(operands);
    MoreDisjunctsAre(operands[1..]);
    FirstStands(tokens, next, Disjunction, kinds + more);
    StandSplits(tokens, next + 1, kinds, more);
  }

  lemma MoreOrIsRead(first: Conjuncts, rest: seq<Conjuncts>, before: seq<Expr>, tokens: seq<Token>, next: nat, end: nat, depth: nat)
    requires AreTokens(tokens) && before != [] && next + 1 < |tokens| && tokens[next].kind == Disjunction && next + 1 + |ConjunctsTokens(first.operands)| < |tokens|
    requires IsRead(ParseAnd(tokens, next + 1, depth), ConjunctsMeaning(first), next + 1 + |ConjunctsTokens(first.operands)|, depth + ConjunctsDepth(first.operands))
    requires IsRead(MoreOr(tokens, next + 1 + |ConjunctsTokens(first.operands)|, depth, before + [ConjunctsMeaning(first)]),
                    Combine(false, before + [ConjunctsMeaning(first)] + ConjunctsMeanings(rest)), end, depth + DisjunctsDepth(rest))
    ensures IsRead(MoreOr(tokens, next, depth, before), Combine(false, before + ConjunctsMeanings([first] + rest)), end,
                   depth + DisjunctsDepth([first] + rest))
  {
    hide AreTokens, ParseAnd, ConjunctsTokens, ConjunctsDepth, ConjunctsMeaning, Combine, MoreOr;
    MoreOrStep(tokens, next, depth, before);
    assert ([first] + rest)[1..] == rest;
    assert before + [ConjunctsMeaning(first)] + ConjunctsMeanings(rest) == before + ConjunctsMeanings([first] + rest);
  }

  lemma {:induction false} MoreDisjunctsAreRead(operands: seq<Conjuncts>, before: seq<Expr>, tokens: seq<Token>, next: nat, depth: nat)
    requires AreTokens(tokens) && depth <= MaxDepth && before != [] && forall c :: c in operands ==> AreConjuncts(c)
    requires Stand(tokens, next, MoreDisjunctsTokens(operands))
    requires var after := tokens[next + |MoreDisjunctsTokens(operands)|].kind; !after.Comparing? && after != Conjunction && after != Disjunction
    ensures IsRead(MoreOr(tokens, next, depth, before), Combine(false, before + ConjunctsMeanings(operands)),
                   next + |MoreDisjunctsTokens(operands)|, depth + DisjunctsDepth(operands))
    decreases operands, 1
  {
    hide IsRead, ConjunctsMeanings, DisjunctsDepth, AreTokens, Stand, AreConjuncts, ParseAnd, ConjunctsTokens, ConjunctsDepth, ConjunctsMeaning, Combine;
    hide MoreOr, MoreDisjunctsTokens;
    if operands == [] {
      NoDisjuncts();
      StandFits(tokens, next, []);
      NoMoreOr(tokens, next, depth, before);
    } else {
      var first, rest := operands[0], operands[1..];
      MoreDisjunctsStand(operands, tokens, next);
      ConjunctsAreRead(first, tokens, next + 1, depth);
      MoreDisjunctsAreRead(rest, before + [ConjunctsMeaning(first)], tokens, next + 1 + |ConjunctsTokens(first.operands)|, depth);
      assert operands == [first] + rest;
      MoreOrIsRead(first, rest, before, tokens, next, next + |MoreDisjunctsTokens(operands)|, depth);
    }
  }

  // ── What the parser accepts is a tree ──

  lemma KindsJoin(tokens: seq<Token>, from: nat, mid: nat, to: nat)
    requires from <= mid <= to <= |tokens|
    ensures KindsIn(tokens, from, to) == KindsIn(tokens, from, mid) + KindsIn(tokens, mid, to)
  {
  }

  lemma OneKind(tokens: seq<Token>, at: nat)
    requires at < |tokens|
    ensures KindsIn(tokens, at, at + 1) == [tokens[at].kind]
  {
  }

  lemma LaterToken(tokens: seq<Token>, next: nat)
    requires AreTokens(tokens) && next < |tokens| && tokens[next].kind != End
    ensures next + 1 < |tokens|
  {
  }

  lemma KindsAreTokens(tokens: seq<Token>, from: nat, to: nat)
    requires AreTokens(tokens) && from <= to < |tokens|
    ensures AllTokens(KindsIn(tokens, from, to))
  {
  }

  lemma {:induction false} UnaryHasTree(tokens: seq<Token>, next: nat, depth: nat) returns (u: Unary)
    requires AreTokens(tokens) && next < |tokens| && depth <= MaxDepth && ParseUnary(tokens, next, depth).Accepted?
    ensures var part := ParseUnary(tokens, next, depth).value;
            && IsUnary(u) && UnaryTokens(u) == KindsIn(tokens, next, part.next)
            && UnaryMeaning(u) == part.expression && depth + UnaryDepth(u) <= MaxDepth
    decreases |tokens| - next, 1
  {
    hide AreTokens, AllTokens, IsTestOf, ReadTest, ParseOr, DisjunctsTokens, DisjunctsDepth, DisjunctsMeaning, AreDisjuncts, KindsIn;
    LaterToken(tokens, next);
    OneKind(tokens, next);
    var end := ParseUnary(tokens, next, depth).value.next;
    KindsJoin(tokens, next, next + 1, end);
    match tokens[next].kind {
      case Negation =>
        var operand := UnaryHasTree(tokens, next + 1, depth + 1);
        u := Negated(operand);
      case Opening =>
        var inner := DisjunctsHaveTree(tokens, next + 1, depth + 1);
        KindsJoin(tokens, next + 1, end - 1, end);
        OneKind(tokens, end - 1);
        u := Parenthesised(inner);
      case Word(_) =>
        var part := ReadTest(tokens, next).value;
        TestMeans(tokens, next, part.expression, part.next);
        KindsAreTokens(tokens, next, end);
        u := Test(KindsIn(tokens, next, end), part.expression);
    }
  }

  lemma {:induction false} ConjunctsHaveTree(tokens: seq<Token>, next: nat, depth: nat) returns (c: Conjuncts)
    requires AreTokens(tokens) && next < |tokens| && depth <= MaxDepth && ParseAnd(tokens, next, depth).Accepted?
    ensures var part := ParseAnd(tokens, next, depth).value;
            && AreConjuncts(c) && ConjunctsTokens(c.operands) == KindsIn(tokens, next, part.next)
            && ConjunctsMeaning(c) == part.expression && depth + ConjunctsDepth(c.operands) <= MaxDepth
    decreases |tokens| - next, 2
  {
    hide AreTokens, IsUnary, ParseUnary, MoreAnd, UnaryTokens, UnaryDepth, UnaryMeaning, Combine, KindsIn;
    var first := UnaryHasTree(tokens, next, depth);
    var mid := ParseUnary(tokens, next, depth).value.next;
    var rest := MoreConjunctsHaveTree(tokens, mid, depth, [UnaryMeaning(first)]);
    KindsJoin(tokens, next, mid, ParseAnd(tokens, next, depth).value.next);
    c := Conjuncts([first] + rest);
    assert c.operands[1..] == rest;
  }

  lemma {:induction false} MoreConjunctsHaveTree(tokens: seq<Token>, next: nat, depth: nat, before: seq<Expr>) returns (operands: seq<Unary>)
    requires AreTokens(tokens) && next < |tokens| && depth <= MaxDepth && before != [] && MoreAnd(tokens, next, depth, before).Accepted?
    ensures var part := MoreAnd(tokens, next, depth, before).value;
            && (forall u :: u in operands ==> IsUnary(u)) && MoreConjunctsTokens(operands) == KindsIn(tokens, next, part.next)
            && Combine(true, before + UnaryMeanings(operands)) == part.expression && depth + ConjunctsDepth(operands) <= MaxDepth
    decreases |tokens| - next, 3
  {
    hide AreTokens, IsUnary, ParseUnary, UnaryTokens, UnaryDepth, UnaryMeaning, Combine, KindsIn;
    if tokens[next].kind != Conjunction {
      operands := [];
      assert before + [] == before;
      NoKinds(tokens, next);
    } else {
      hide MoreAnd;
      LaterToken(tokens, next);
      MoreAndStep(tokens, next, depth, before);
      var first := UnaryHasTree(tokens, next + 1, depth);
      var mid := ParseUnary(tokens, next + 1, depth).value.next;
      var rest := MoreConjunctsHaveTree(tokens, mid, depth, before + [UnaryMeaning(first)]);
      var end := MoreAnd(tokens, next, depth, before).value.next;
      OneKind(tokens, next);
      KindsJoin(tokens, next, next + 1, end);
      KindsJoin(tokens, next + 1, mid, end);
      operands := [first] + rest;
      assert operands[1..] == rest;
      assert before + [UnaryMeaning(first)] + UnaryMeanings(rest) == before + UnaryMeanings(operands);
    }
  }

  lemma NoKinds(tokens: seq<Token>, at: nat)
    requires at <= |tokens|
    ensures KindsIn(tokens, at, at) == []
  {
  }

  lemma {:induction false} DisjunctsHaveTree(tokens: seq<Token>, next: nat, depth: nat) returns (d: Disjuncts)
    requires AreTokens(tokens) && next < |tokens| && depth <= MaxDepth && ParseOr(tokens, next, depth).Accepted?
    ensures var part := ParseOr(tokens, next, depth).value;
            && AreDisjuncts(d) && DisjunctsTokens(d.operands) == KindsIn(tokens, next, part.next)
            && DisjunctsMeaning(d) == part.expression && depth + DisjunctsDepth(d.operands) <= MaxDepth
    decreases |tokens| - next, 4
  {
    hide AreTokens, AreConjuncts, ParseAnd, MoreOr, ConjunctsTokens, ConjunctsDepth, ConjunctsMeaning, Combine, KindsIn;
    var first := ConjunctsHaveTree(tokens, next, depth);
    var mid := ParseAnd(tokens, next, depth).value.next;
    var rest := MoreDisjunctsHaveTree(tokens, mid, depth, [ConjunctsMeaning(first)]);
    KindsJoin(tokens, next, mid, ParseOr(tokens, next, depth).value.next);
    d := Disjuncts([first] + rest);
    assert d.operands[1..] == rest;
  }

  lemma {:induction false} MoreDisjunctsHaveTree(tokens: seq<Token>, next: nat, depth: nat, before: seq<Expr>) returns (operands: seq<Conjuncts>)
    requires AreTokens(tokens) && next < |tokens| && depth <= MaxDepth && before != [] && MoreOr(tokens, next, depth, before).Accepted?
    ensures var part := MoreOr(tokens, next, depth, before).value;
            && (forall c :: c in operands ==> AreConjuncts(c)) && MoreDisjunctsTokens(operands) == KindsIn(tokens, next, part.next)
            && Combine(false, before + ConjunctsMeanings(operands)) == part.expression && depth + DisjunctsDepth(operands) <= MaxDepth
    decreases |tokens| - next, 5
  {
    hide AreTokens, AreConjuncts, ParseAnd, ConjunctsTokens, ConjunctsDepth, ConjunctsMeaning, Combine, KindsIn;
    if tokens[next].kind != Disjunction {
      operands := [];
      assert before + [] == before;
      NoKinds(tokens, next);
    } else {
      hide MoreOr;
      LaterToken(tokens, next);
      MoreOrStep(tokens, next, depth, before);
      var first := ConjunctsHaveTree(tokens, next + 1, depth);
      var mid := ParseAnd(tokens, next + 1, depth).value.next;
      var rest := MoreDisjunctsHaveTree(tokens, mid, depth, before + [ConjunctsMeaning(first)]);
      var end := MoreOr(tokens, next, depth, before).value.next;
      OneKind(tokens, next);
      KindsJoin(tokens, next, next + 1, end);
      KindsJoin(tokens, next + 1, mid, end);
      operands := [first] + rest;
      assert operands[1..] == rest;
      assert before + [ConjunctsMeaning(first)] + ConjunctsMeanings(rest) == before + ConjunctsMeanings(operands);
    }
  }

  // ── Whole filters ──

  /** The tokens are those of a tree that means the expression and nests no deeper
    * than allowed. */
  ghost predicate IsFilterFor(kinds: seq<TokenKind>, e: Expr) {
    exists d :: IsTreeOf(d, kinds, e)
  }

  ghost predicate IsTreeOf(d: Disjuncts, kinds: seq<TokenKind>, e: Expr) {
    AreDisjuncts(d) && DisjunctsTokens(d.operands) == kinds && DisjunctsMeaning(d) == e && DisjunctsDepth(d.operands) <= 64
  }

  lemma {:induction false} KindsStand(tokens: seq<Token>, kinds: seq<TokenKind>)
    requires tokens != [] && KindsIn(tokens, 0, |tokens| - 1) == kinds
    ensures Stand(tokens, 0, kinds) && |tokens| == |kinds| + 1
  {
    assert forall k :: 0 <= k < |kinds| ==> tokens[0 + k].kind == kinds[k];
  }

  lemma StandsFirst(tokens: seq<Token>)
    requires AreTokens(tokens) && |tokens| > 1
    ensures tokens[0].kind != End && tokens[|tokens| - 1].kind == End
  {
  }

  /** The parser accepts the tokens of the grammar's trees, as what they mean, and no others. */
  lemma {:induction false} AcceptedExactly(tokens: seq<Token>, e: Expr)
    requires AreTokens(tokens)
    ensures |tokens| >= 1
    ensures ParseTokens(tokens) == Accepted(e) <==> IsFilterFor(KindsIn(tokens, 0, |tokens| - 1), e)
  {
    hide AreTokens, ParseOr, AreDisjuncts, DisjunctsTokens, DisjunctsMeaning, DisjunctsDepth, KindsIn, Stand;
    EndIsLast(tokens, 0);
    if ParseTokens(tokens) == Accepted(e) {
      var d := DisjunctsHaveTree(tokens, 0, 0);
      EndIsLast(tokens, ParseOr(tokens, 0, 0).value.next);
      assert IsTreeOf(d, KindsIn(tokens, 0, |tokens| - 1), e);
    }
    if IsFilterFor(KindsIn(tokens, 0, |tokens| - 1), e) {
      var d :| IsTreeOf(d, KindsIn(tokens, 0, |tokens| - 1), e);
      KindsStand(tokens, DisjunctsTokens(d.operands));
      SomeTokens(d);
      StandsFirst(tokens);
      DisjunctsAreRead(d, tokens, 0, 0);
    }
  }

  lemma EndIsLast(tokens: seq<Token>, at: nat)
    requires AreTokens(tokens)
    ensures |tokens| >= 1 && (at < |tokens| ==> (tokens[at].kind == End <==> at == |tokens| - 1))
  {
  }

  lemma {:induction false} UnaryHasTokens(u: Unary)
    requires IsUnary(u)
    ensures UnaryTokens(u) != []
  {
    hide IsSingle, IsCompared, IsToken;
  }

  lemma SomeTokens(d: Disjuncts)
    requires AreDisjuncts(d)
    ensures DisjunctsTokens(d.operands) != []
  {
    hide UnaryTokens, IsUnary;
    var first := d.operands[0];
    assert AreConjuncts(first);
    UnaryHasTokens(first.operands[0]);
  }
}
