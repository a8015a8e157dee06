/** What the display filter's parser reads (src/display_filter.cpp): `!` before `&&` before `||`. */
module FilterGrammar {
  import opened FilterExpression
  import opened FilterTokens
  import opened FilterTests

  /** Parentheses and negations nested at most. */
  const MaxDepth: nat := 64

  predicate IsKind(all: bool, e: Expr) {
    if all then e.And? else e.Or?
  }

  function Combination(all: bool, operands: seq<Expr>): Expr {
    if all then And(operands) else Or(operands)
  }

  /** The operands, those of the same kind replaced by their own. */
  function Merged(all: bool, operands: seq<Expr>): seq<Expr> {
    if operands == [] then []
    else
      var last := operands[|operands| - 1];
      Merged(all, operands[..|operands| - 1]) + if IsKind(all, last) then last.operands else [last]
  }

  function Combine(all: bool, operands: seq<Expr>): Expr
    requires operands != []
  {
    if |operands| == 1 then operands[0] else Combination(all, Merged(all, operands))
  }

  function ParseOr(tokens: seq<Token>, next: nat, depth: nat): (read: Outcome<Part>)
    requires AreTokens(tokens) && next < |tokens|
    ensures read.Accepted? ==> next < read.value.next < |tokens|
    decreases |tokens| - next, 4
  {
    match ParseAnd(tokens, next, depth)
    case Rejected(position) => Rejected(position)
    case Accepted(part) => MoreOr(tokens, part.next, depth, [part.expression])
  }

  /** The operands read so far, and those that `||` puts behind them. */
  function MoreOr(tokens: seq<Token>, next: nat, depth: nat, operands: seq<Expr>): (read: Outcome<Part>)
    requires AreTokens(tokens) && next < |tokens| && operands != []
    ensures read.Accepted? ==> next <= read.value.next < |tokens|
    decreases |tokens| - next, 5
  {
    if tokens[next].kind != Disjunction then Accepted(Part(Combine(false, operands), next))
    else
      match ParseAnd(tokens, next + 1, depth)
      case Rejected(position) => Rejected(position)
      case Accepted(part) => MoreOr(tokens, part.next, depth, operands + [part.expression])
  }

  function ParseAnd(tokens: seq<Token>, next: nat, depth: nat): (read: Outcome<Part>)
    requires AreTokens(tokens) && next < |tokens|
    ensures read.Accepted? ==> next < read.value.next < |tokens|
    decreases |tokens| - next, 2
  {
    match ParseUnary(tokens, next, depth)
    case Rejected(position) => Rejected(position)
    case Accepted(part) => MoreAnd(tokens, part.next, depth, [part.expression])
  }

  function MoreAnd(tokens: seq<Token>, next: nat, depth: nat, operands: seq<Expr>): (read: Outcome<Part>)
    requires AreTokens(tokens) && next < |tokens| && operands != []
    ensures read.Accepted? ==> next <= read.value.next < |tokens|
    decreases |tokens| - next, 3
  {
    if tokens[next].kind != Conjunction then Accepted(Part(Combine(true, operands), next))
    else
      match ParseUnary(tokens, next + 1, depth)
      case Rejected(position) => Rejected(position)
      case Accepted(part) => MoreAnd(tokens, part.next, depth, operands + [part.expression])
  }

  function ParseUnary(tokens: seq<Token>, next: nat, depth: nat): (read: Outcome<Part>)
    requires AreTokens(tokens) && next < |tokens|
    ensures read.Accepted? ==> next < read.value.next < |tokens|
    decreases |tokens| - next, 1
  {
    if tokens[next].kind != Negation then ParsePrimary(tokens, next, depth)
    else if depth >= MaxDepth then Rejected(tokens[next].position)
    else
      match ParseUnary(tokens, next + 1, depth + 1)
      case Rejected(position) => Rejected(position)
      case Accepted(part) => Accepted(Part(Not(part.expression), part.next))
  }

  function ParsePrimary(tokens: seq<Token>, next: nat, depth: nat): (read: Outcome<Part>)
    requires AreTokens(tokens) && next < |tokens|
    ensures read.Accepted? ==> next < read.value.next < |tokens|
    decreases |tokens| - next, 0
  {
    match tokens[next].kind
    case Opening =>
      if depth >= MaxDepth then Rejected(tokens[next].position)
      else (
        match ParseOr(tokens, next + 1, depth + 1)
        case Rejected(position) => Rejected(position)
        case Accepted(part) =>
          if tokens[part.next].kind != Closing then Rejected(tokens[part.next].position)
          else Accepted(Part(part.expression, part.next + 1)))
    case Word(_) => ReadTest(tokens, next)
    case _ => Rejected(tokens[next].position)
  }

  /** A whole filter. */
  function ParseTokens(tokens: seq<Token>): Outcome<Expr>
    requires AreTokens(tokens)
  {
    if tokens[0].kind == End then Rejected(0)
    else
      match ParseOr(tokens, 0, 0)
      case Rejected(position) => Rejected(position)
      case Accepted(part) =>
        if tokens[part.next].kind != End then Rejected(tokens[part.next].position) else Accepted(part.expression)
  }
}
