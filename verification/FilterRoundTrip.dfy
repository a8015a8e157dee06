/** Writing a filter's expression and parsing it gives the expression back; what parses is in the form written. */
module FilterRoundTrip {
  import opened Options
  import opened Text
  import opened FilterExpression
  import opened FilterTokens
  import opened FilterTests
  import opened FilterGrammar

  /** Two operands or more, none of its own kind; every test in canonical form. */
  predicate IsNormal(e: Expr) {
    match e
    case And(operands) => |operands| >= 2 && forall o :: o in operands ==> !o.And? && IsNormal(o)
    case Or(operands) => |operands| >= 2 && forall o :: o in operands ==> !o.Or? && IsNormal(o)
    case Not(operand) => IsNormal(operand)
    case _ => IsLeaf(e)
  }

  // ── Writing ──

  /** The tokens of an operand of `!` or `&&`: other combinations in parentheses. */
  function UnaryKinds(e: Expr): (kinds: seq<TokenKind>)
    decreases e, 0
  {
    match e
    case And(operands) => [Opening] + ListKinds(true, operands) + [Closing]
    case Or(operands) => [Opening] + ListKinds(false, operands) + [Closing]
    case Not(operand) => [Negation] + UnaryKinds(operand)
    case _ => TestKinds(e)
  }

  /** The tokens of an operand of `||`: `&&` needs no parentheses in it. */
  function AndKinds(e: Expr): seq<TokenKind>
    decreases e, 2
  {
    if e.And? then ListKinds(true, e.operands) else UnaryKinds(e)
  }

  function OrKinds(e: Expr): seq<TokenKind> {
    if e.Or? then ListKinds(false, e.operands) else AndKinds(e)
  }

  function OperandKinds(all: bool, e: Expr): seq<TokenKind>
    decreases e, 3
  {
    if all then UnaryKinds(e) else AndKinds(e)
  }

  function ListKinds(all: bool, operands: seq<Expr>): seq<TokenKind>
    decreases operands, 1
  {
    if operands == [] then [] else OperandKinds(all, operands[0]) + MoreKinds(all, operands[1..])
  }

  function MoreKinds(all: bool, operands: seq<Expr>): seq<TokenKind>
    decreases operands, 0
  {
    if operands == [] then [] else [Separator(all)] + (OperandKinds(all, operands[0]) + MoreKinds(all, operands[1..]))
  }

  function Separator(all: bool): TokenKind {
    if all then Conjunction else Disjunction
  }

  // ── How deep that nests ──

  function Larger(m: nat, n: nat): nat {
    if m < n then n else m
  }

  /** The parentheses and negations nested in an operand of `!` or `&&`. */
  function UnaryNesting(e: Expr): nat
    decreases e, 0
  {
    match e
    case And(operands) => 1 + ListNesting(true, operands)
    case Or(operands) => 1 + ListNesting(false, operands)
    case Not(operand) => 1 + UnaryNesting(operand)
    case _ => 0
  }

  function AndNesting(e: Expr): nat
    decreases e, 2
  {
    if e.And? then ListNesting(true, e.operands) else UnaryNesting(e)
  }

  function Nesting(e: Expr): nat {
    if e.Or? then ListNesting(false, e.operands) else AndNesting(e)
  }

  function OperandNesting(all: bool, e: Expr): nat
    decreases e, 3
  {
    if all then UnaryNesting(e) else AndNesting(e)
  }

  function ListNesting(all: bool, operands: seq<Expr>): nat
    decreases operands, 1
  {
    if operands == [] then 0 else Larger(OperandNesting(all, operands[0]), ListNesting(all, operands[1..]))
  }

  // ── What is written is read ──

  /** Read as the expression if it does not nest too deep, and rejected if it does. */
  predicate IsRead(read: Outcome<Part>, e: Expr, end: nat, nesting: nat) {
    if nesting <= MaxDepth then read == Accepted(Part(e, end)) else read.Rejected?
  }

  /** The token behind an operand is none that would make it go on. */
  predicate Ends(all: bool, kind: TokenKind) {
    !kind.Comparing? && (!all ==> kind != Conjunction)
  }

  lemma StandSplits(tokens: seq<Token>, next: nat, a: seq<TokenKind>, b: seq<TokenKind>)
    requires StandAt(tokens, next, a + b)
    ensures StandAt(tokens, next, a) && StandAt(tokens, next + |a|, b)
    ensures b != [] ==> next + |a| < |tokens| && tokens[next + |a|].kind == b[0]
  {
    assert forall k :: 0 <= k < |a| ==> (a + b)[k] == a[k];
    assert forall k :: 0 <= k < |b| ==> (a + b)[|a| + k] == b[k];
    assert forall k :: 0 <= k < |b| ==> tokens[next + (|a| + k)].kind == b[k];
  }

  lemma {:induction false} NothingMerged(all: bool, operands: seq<Expr>)
    requires forall o :: o in operands ==> !IsKind(all, o)
    ensures Merged(all, operands) == operands
  {
    if operands != [] {
      NothingMerged(all, operands[..|operands| - 1]);
    }
  }

  lemma {:induction false} UnaryIsRead(e: Expr, tokens: seq<Token>, next: nat, depth: nat)
    requires AreTokens(tokens) && IsNormal(e) && depth <= MaxDepth && StandAt(tokens, next, UnaryKinds(e))
    requires next + |UnaryKinds(e)| < |tokens| && Ends(true, tokens[next + |UnaryKinds(e)|].kind)
    ensures IsRead(ParseUnary(tokens, next, depth), e, next + |UnaryKinds(e)|, depth + UnaryNesting(e))
    decreases e, 0
  {
    hide TestKinds, ReadTest, IsLeaf, ParseAnd, MoreOr, ListKinds, ListNesting;
    match e {
      case Not(operand) =>
        StandSplits(tokens, next, [Negation], UnaryKinds(operand));
        assert tokens[next + 0].kind == UnaryKinds(e)[0];
        if depth < MaxDepth {
          UnaryIsRead(operand, tokens, next + 1, depth + 1);
        }
      case And(operands) =>
        ParenthesesAreRead(true, operands, tokens, next, depth);
      case Or(operands) =>
        ParenthesesAreRead(false, operands, tokens, next, depth);
      case _ =>
        assert tokens[next + 0].kind == UnaryKinds(e)[0];
        TestReads(e, tokens, next);
    }
  }

  lemma {:induction false} ParenthesesAreRead(all: bool, operands: seq<Expr>, tokens: seq<Token>, next: nat, depth: nat)
    requires AreTokens(tokens) && IsNormal(Combination(all, operands)) && depth <= MaxDepth
    requires StandAt(tokens, next, [Opening] + ListKinds(all, operands) + [Closing])
    requires next + |ListKinds(all, operands)| + 2 < |tokens|
    ensures IsRead(ParseUnary(tokens, next, depth), Combination(all, operands), next + |ListKinds(all, operands)| + 2,
                   depth + 1 + ListNesting(all, operands))
    decreases operands, 2
  {
    hide ListKinds, ListNesting, IsLeaf, MoreAnd, ReadTest;
    var inner := ListKinds(all, operands);
    StandSplits(tokens, next, [Opening] + inner, [Closing]);
    StandSplits(tokens, next, [Opening], inner);
    assert tokens[next + 0].kind == ([Opening] + inner)[0];
    if depth < MaxDepth {
      ListIsRead(all, operands, tokens, next + 1, depth + 1);
      if all {
        OneOperand(tokens, next + 1, depth + 1);
      }
    }
  }

  /** With no `||` behind it, an operand is the whole. */
  lemma OneOperand(tokens: seq<Token>, next: nat, depth: nat)
    requires AreTokens(tokens) && next < |tokens|
    ensures var read := ParseAnd(tokens, next, depth);
            && (read.Rejected? ==> ParseOr(tokens, next, depth).Rejected?)
            && (read.Accepted? && tokens[read.value.next].kind != Disjunction ==> ParseOr(tokens, next, depth) == read)
  {
    hide ParseAnd;
  }

  /** Operands of `&&` or of `||` with their separators. */
  lemma {:induction false} ListIsRead(all: bool, operands: seq<Expr>, tokens: seq<Token>, next: nat, depth: nat)
    requires AreTokens(tokens) && IsNormal(Combination(all, operands)) && depth <= MaxDepth
    requires StandAt(tokens, next, ListKinds(all, operands)) && next + |ListKinds(all, operands)| < |tokens|
    requires var after := tokens[next + |ListKinds(all, operands)|].kind; Ends(all, after) && after != Separator(all)
    ensures IsRead(if all then ParseAnd(tokens, next, depth) else ParseOr(tokens, next, depth), Combination(all, operands),
                   next + |ListKinds(all, operands)|, depth + ListNesting(all, operands))
    decreases operands, 1
  {
    hide OperandKinds, OperandNesting, IsLeaf, ParseUnary;
    var first, rest := operands[0], operands[1..];
    StandSplits(tokens, next, OperandKinds(all, first), MoreKinds(all, rest));
    OperandIsRead(all, first, tokens, next, depth);
    var behind := next + |OperandKinds(all, first)|;
    assert operands == [first] + rest;
    MoreAreRead(all, [first], rest, tokens, behind, depth);
  }

  lemma {:induction false} OperandIsRead(all: bool, e: Expr, tokens: seq<Token>, next: nat, depth: nat)
    requires AreTokens(tokens) && IsNormal(e) && depth <= MaxDepth && StandAt(tokens, next, OperandKinds(all, e))
    requires next + |OperandKinds(all, e)| < |tokens| && Ends(all, tokens[next + |OperandKinds(all, e)|].kind)
    ensures IsRead(if all then ParseUnary(tokens, next, depth) else ParseAnd(tokens, next, depth), e,
                   next + |OperandKinds(all, e)|, depth + OperandNesting(all, e))
    decreases e, 2
  {
    hide UnaryKinds, ListKinds, UnaryNesting, ListNesting, ParseUnary, IsLeaf;
    if !all && e.And? {
      ListIsRead(true, e.operands, tokens, next, depth);
    } else {
      UnaryIsRead(e, tokens, next, depth);
    }
  }

  lemma OneStands(tokens: seq<Token>, next: nat, kind: TokenKind)
    requires StandAt(tokens, next, [kind])
    ensures next < |tokens| && tokens[next].kind == kind
  {
    assert tokens[next + 0].kind == [kind][0];
  }

  lemma AllStand(tokens: seq<Token>, next: nat, separator: TokenKind, kinds: seq<TokenKind>, more: seq<TokenKind>)
    requires StandAt(tokens, next, [separator] + (kinds + more))
    ensures next < |tokens| && tokens[next].kind == separator
    ensures StandAt(tokens, next + 1, kinds) && StandAt(tokens, next + 1 + |kinds|, more)
    ensures more != [] ==> next + 1 + |kinds| < |tokens| && tokens[next + 1 + |kinds|].kind == more[0]
  {
    hide StandAt;
    StandSplits(tokens, next, [separator], kinds + more);
    OneStands(tokens, next, separator);
    StandSplits(tokens, next + 1, kinds, more);
  }

  lemma MoreStand(all: bool, operands: seq<Expr>, tokens: seq<Token>, next: nat)
    requires operands != [] && StandAt(tokens, next, MoreKinds(all, operands)) && next + |MoreKinds(all, operands)| < |tokens|
    ensures var kinds, more := OperandKinds(all, operands[0]), MoreKinds(all, operands[1..]);
            && |MoreKinds(all, operands)| == 1 + |kinds| + |more|
            && tokens[next].kind == Separator(all) && StandAt(tokens, next + 1, kinds) && StandAt(tokens, next + 1 + |kinds|, more)
            && (more != [] ==> tokens[next + 1 + |kinds|].kind == Separator(all))
  {
    hide OperandKinds, StandAt;
    AllStand(tokens, next, Separator(all), OperandKinds(all, operands[0]), MoreKinds(all, operands[1..]));
  }

  lemma {:induction false} MoreAreRead(all: bool, before: seq<Expr>, operands: seq<Expr>, tokens: seq<Token>, next: nat, depth: nat)
    requires AreTokens(tokens) && before != [] && depth <= MaxDepth
    requires forall o :: o in before ==> !IsKind(all, o)
    requires forall o :: o in operands ==> !IsKind(all, o) && IsNormal(o)
    requires |before| + |operands| >= 2
    requires StandAt(tokens, next, MoreKinds(all, operands)) && next + |MoreKinds(all, operands)| < |tokens|
    requires var after := tokens[next + |MoreKinds(all, operands)|].kind; Ends(all, after) && after != Separator(all)
    ensures IsRead(if all then MoreAnd(tokens, next, depth, before) else MoreOr(tokens, next, depth, before),
                   Combination(all, before + operands), next + |MoreKinds(all, operands)|, depth + ListNesting(all, operands))
    decreases operands, 0
  {
    hide OperandKinds, OperandNesting, IsLeaf, ParseUnary, ParseAnd, IsNormal, AreTokens, StandAt, IsKind;
    if operands == [] {
      assert before + operands == before;
      NothingMerged(all, before);
    } else {
      var first, rest := operands[0], operands[1..];
      var kinds := OperandKinds(all, first);
      MoreStand(all, operands, tokens, next);
      OperandIsRead(all, first, tokens, next + 1, depth);
      assert before + operands == before + [first] + rest;
      MoreAreRead(all, before + [first], rest, tokens, next + 1 + |kinds|, depth);
    }
  }

  /** An expression's tokens are parsed as that expression exactly when it nests no deeper than allowed. */
  lemma ExpressionIsRead(e: Expr, tokens: seq<Token>)
    requires AreTokens(tokens) && IsNormal(e) && StandAt(tokens, 0, OrKinds(e)) && |tokens| == |OrKinds(e)| + 1
    ensures if Nesting(e) <= MaxDepth then ParseTokens(tokens) == Accepted(e) else ParseTokens(tokens).Rejected?
  {
    hide ParseOr, ListKinds, UnaryKinds, ListNesting, UnaryNesting, IsLeaf;
    if e.Or? {
      ListIsRead(false, e.operands, tokens, 0, 0);
    } else {
      OperandIsRead(false, e, tokens, 0, 0);
      OneOperand(tokens, 0, 0);
    }
  }

  // ── What is read is in the form written ──

  /** In normal form, and nested no deeper than allowed with the levels open around it. */
  predicate Fits(e: Expr, depth: nat, nesting: nat) {
    IsNormal(e) && depth + nesting <= MaxDepth
  }

  lemma {:induction false} ListFits(all: bool, operands: seq<Expr>, depth: nat)
    requires depth <= MaxDepth && forall o :: o in operands ==> depth + OperandNesting(all, o) <= MaxDepth
    ensures depth + ListNesting(all, operands) <= MaxDepth
  {
    hide OperandNesting;
    if operands != [] {
      ListFits(all, operands[1..], depth);
    }
  }

  lemma {:induction false} OperandFits(all: bool, operands: seq<Expr>, o: Expr)
    requires o in operands
    ensures OperandNesting(all, o) <= ListNesting(all, operands)
  {
    hide OperandNesting;
    if o != operands[0] {
      OperandFits(all, operands[1..], o);
    }
  }

  lemma {:induction false} MergedFit(all: bool, operands: seq<Expr>, depth: nat)
    requires forall o :: o in operands ==> Fits(o, depth, OperandNesting(all, o))
    ensures forall o :: o in Merged(all, operands) ==> !IsKind(all, o) && Fits(o, depth, OperandNesting(all, o))
    ensures |Merged(all, operands)| >= |operands|
  {
    hide OperandNesting, IsLeaf;
    if operands != [] {
      var last := operands[|operands| - 1];
      MergedFit(all, operands[..|operands| - 1], depth);
      if IsKind(all, last) {
        InnerFit(all, last, depth);
      }
    }
  }

  lemma NestingOfKind(all: bool, e: Expr)
    requires e.And? || e.Or?
    ensures IsKind(all, e) ==> OperandNesting(all, e) == 1 + ListNesting(all, e.operands)
    ensures IsKind(all, e) ==> (if all then AndNesting(e) else Nesting(e)) == ListNesting(all, e.operands)
  {
    assert e.Or? ==> AndNesting(e) == UnaryNesting(e) == 1 + ListNesting(false, e.operands);
  }

  lemma NestingOfOperand(all: bool, e: Expr)
    ensures (if all then AndNesting(e) else Nesting(e)) <= OperandNesting(all, e)
  {
    assert e.Or? ==> AndNesting(e) == UnaryNesting(e) == 1 + ListNesting(false, e.operands);
    assert e.And? ==> UnaryNesting(e) == 1 + ListNesting(true, e.operands) && AndNesting(e) == ListNesting(true, e.operands);
  }

  lemma InnerFit(all: bool, e: Expr, depth: nat)
    requires IsKind(all, e) && Fits(e, depth, OperandNesting(all, e))
    ensures |e.operands| >= 2
    ensures forall o :: o in e.operands ==> !IsKind(all, o) && Fits(o, depth, OperandNesting(all, o))
  {
    hide IsLeaf, OperandNesting, ListNesting;
    NestingOfKind(all, e);
    forall o | o in e.operands
      ensures Fits(o, depth, OperandNesting(all, o))
    {
      OperandFits(all, e.operands, o);
    }
  }

  /** Combining keeps the normal form, and nests no deeper. */
  lemma CombinedFits(all: bool, operands: seq<Expr>, depth: nat)
    requires operands != [] && depth <= MaxDepth && forall o :: o in operands ==> Fits(o, depth, OperandNesting(all, o))
    ensures var e := Combine(all, operands); Fits(e, depth, if all then AndNesting(e) else Nesting(e))
  {
    hide IsLeaf, OperandNesting, ListNesting, AndNesting, Nesting;
    if |operands| > 1 {
      MergedFit(all, operands, depth);
      ListFits(all, Merged(all, operands), depth);
      NestingOfKind(all, Combine(all, operands));
    } else {
      NestingOfOperand(all, operands[0]);
    }
  }

  lemma {:induction false} OrFits(tokens: seq<Token>, next: nat, depth: nat, length: nat)
    requires AreTokens(tokens) && InFilter(tokens, length) && next < |tokens| && depth <= MaxDepth
    ensures var read := ParseOr(tokens, next, depth);
            if read.Accepted? then Fits(read.value.expression, depth, Nesting(read.value.expression)) else read.position <= length
    decreases |tokens| - next, 4
  {
    hide ParseAnd, IsNormal, Nesting, AndNesting, AreTokens, InFilter;
    AndFits(tokens, next, depth, length);
    var first := ParseAnd(tokens, next, depth);
    if first.Accepted? {
      MoreOrFits(tokens, first.value.next, depth, length, [first.value.expression]);
    }
  }

  lemma {:induction false} MoreOrFits(tokens: seq<Token>, next: nat, depth: nat, length: nat, operands: seq<Expr>)
    requires AreTokens(tokens) && InFilter(tokens, length) && next < |tokens| && depth <= MaxDepth
    requires operands != [] && forall o :: o in operands ==> Fits(o, depth, OperandNesting(false, o))
    ensures var read := MoreOr(tokens, next, depth, operands);
            if read.Accepted? then Fits(read.value.expression, depth, Nesting(read.value.expression)) else read.position <= length
    decreases |tokens| - next, 5
  {
    hide ParseAnd, IsNormal, Nesting, AndNesting, AreTokens, InFilter, Combine;
    if tokens[next].kind == Disjunction {
      LastIsEnd(tokens, next);
      AndFits(tokens, next + 1, depth, length);
      var operand := ParseAnd(tokens, next + 1, depth);
      if operand.Accepted? {
        MoreOrFits(tokens, operand.value.next, depth, length, operands + [operand.value.expression]);
      }
    } else {
      CombinedFits(false, operands, depth);
    }
  }

  lemma LastIsEnd(tokens: seq<Token>, next: nat)
    requires AreTokens(tokens) && next < |tokens| && tokens[next].kind != End
    ensures next + 1 < |tokens|
  {
  }

  lemma {:induction false} AndFits(tokens: seq<Token>, next: nat, depth: nat, length: nat)
    requires AreTokens(tokens) && InFilter(tokens, length) && next < |tokens| && depth <= MaxDepth
    ensures var read := ParseAnd(tokens, next, depth);
            if read.Accepted? then Fits(read.value.expression, depth, AndNesting(read.value.expression)) else read.position <= length
    decreases |tokens| - next, 2
  {
    hide ParseUnary, IsNormal, UnaryNesting, AndNesting, AreTokens, InFilter;
    UnaryFits(tokens, next, depth, length);
    var first := ParseUnary(tokens, next, depth);
    if first.Accepted? {
      MoreAndFits(tokens, first.value.next, depth, length, [first.value.expression]);
    }
  }

  lemma {:induction false} MoreAndFits(tokens: seq<Token>, next: nat, depth: nat, length: nat, operands: seq<Expr>)
    requires AreTokens(tokens) && InFilter(tokens, length) && next < |tokens| && depth <= MaxDepth
    requires operands != [] && forall o :: o in operands ==> Fits(o, depth, OperandNesting(true, o))
    ensures var read := MoreAnd(tokens, next, depth, operands);
            if read.Accepted? then Fits(read.value.expression, depth, AndNesting(read.value.expression)) else read.position <= length
    decreases |tokens| - next, 3
  {
    hide ParseUnary, IsNormal, UnaryNesting, AndNesting, AreTokens, InFilter, Combine;
    if tokens[next].kind == Conjunction {
      LastIsEnd(tokens, next);
      UnaryFits(tokens, next + 1, depth, length);
      var operand := ParseUnary(tokens, next + 1, depth);
      if operand.Accepted? {
        MoreAndFits(tokens, operand.value.next, depth, length, operands + [operand.value.expression]);
      }
    } else {
      CombinedFits(true, operands, depth);
    }
  }

  lemma {:induction false} UnaryFits(tokens: seq<Token>, next: nat, depth: nat, length: nat)
    requires AreTokens(tokens) && InFilter(tokens, length) && next < |tokens| && depth <= MaxDepth
    ensures var read := ParseUnary(tokens, next, depth);
            if read.Accepted? then Fits(read.value.expression, depth, UnaryNesting(read.value.expression)) else read.position <= length
    decreases |tokens| - next, 1
  {
    hide ParseOr, AreTokens, ReadTest, IsLeaf, ListNesting;
    match tokens[next].kind {
      case Negation =>
        LastIsEnd(tokens, next);
        if depth < MaxDepth {
          UnaryFits(tokens, next + 1, depth + 1, length);
        }
      case Opening =>
        LastIsEnd(tokens, next);
        if depth < MaxDepth {
          OrFits(tokens, next + 1, depth + 1, length);
        }
      case Word(_) =>
        TestIsLeaf(tokens, next);
        LeafFits(tokens, next);
        TestRejects(tokens, next, length);
      case _ =>
    }
  }

  lemma LeafFits(tokens: seq<Token>, next: nat)
    requires AreTokens(tokens) && next < |tokens| && tokens[next].kind.Word?
    requires ReadTest(tokens, next).Accepted? ==> IsLeaf(ReadTest(tokens, next).value.expression)
    ensures ReadTest(tokens, next).Accepted? ==>
              var e := ReadTest(tokens, next).value.expression; IsNormal(e) && UnaryNesting(e) == 0
  {
    hide ReadTest, AreTokens;
  }

  /** Every filter that is accepted is in normal form, in canonical values, and nested no deeper than
    * allowed; one that is not is rejected at a position in it. */
  lemma AcceptedIsNormal(tokens: seq<Token>, length: nat)
    requires AreTokens(tokens) && InFilter(tokens, length)
    ensures match ParseTokens(tokens)
            case Accepted(e) => IsNormal(e) && Nesting(e) <= MaxDepth
            case Rejected(position) => position <= length
  {
    hide ParseOr, IsNormal, Nesting;
    OrFits(tokens, 0, 0, length);
  }
}
