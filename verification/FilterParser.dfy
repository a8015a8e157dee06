/** The display filter's parser as it runs (src/display_filter.cpp), proved against what it reads. */
module FilterParser {
  import opened Options
  import opened Text
  import opened FilterExpression
  import opened FilterTokens
  import opened FilterTests
  import opened FilterGrammar

  /** What was read from `next` on with so many levels open: the expression, and the token it left off at. */
  predicate Reads(read: Outcome<Expr>, next: nat, expected: Outcome<Part>) {
    match expected
    case Accepted(part) => read == Accepted(part.expression) && next == part.next
    case Rejected(position) => read == Rejected(position)
  }

  class Parser {
    const tokens: seq<Token>
    var next: nat
    var depth: nat

    constructor (tokens: seq<Token>)
      ensures this.tokens == tokens && next == 0 && depth == 0
    {
      this.tokens := tokens;
      next, depth := 0, 0;
    }

    /** The parser stands at a token, with no more levels open than allowed. */
    predicate Valid()
      reads this
    {
      AreTokens(tokens) && next < |tokens| && depth <= MaxDepth
    }

    method Take() returns (token: Token)
      requires Valid()
      modifies this`next
      ensures token == tokens[old(next)] && next == old(next) + 1
    {
      token := tokens[next];
      next := next + 1;
    }

    static method CombineAll(all: bool, operands: seq<Expr>) returns (combined: Expr)
      requires operands != []
      ensures combined == Combine(all, operands)
    {
      if |operands| == 1 {
        return operands[0];
      }
      var merged: seq<Expr> := [];
      for i := 0 to |operands|
        invariant merged == Merged(all, operands[..i])
      {
        assert operands[..i + 1][..i] == operands[..i];
        var operand := operands[i];
        if IsKind(all, operand) {
          for j := 0 to |operand.operands|
            invariant merged == Merged(all, operands[..i]) + operand.operands[..j]
          {
            merged := merged + [operand.operands[j]];
          }
          assert operand.operands[..|operand.operands|] == operand.operands;
        } else {
          merged := merged + [operand];
        }
      }
      assert operands[..|operands|] == operands;
      return Combination(all, merged);
    }

    method ReadOr() returns (read: Outcome<Expr>)
      requires Valid()
      modifies this`next, this`depth
      ensures Reads(read, next, ParseOr(tokens, old(next), old(depth)))
      ensures depth == old(depth) && (read.Accepted? ==> Valid())
      decreases |tokens| - next, 4
    {
      hide ParseAnd, ReadTest, ParsePrimary, ParseUnary, Combine;
      var start, level := next, depth;
      var first := ReadAnd();
      if first.Rejected? {
        return first;
      }
      var operands := [first.value];
      while tokens[next].kind == Disjunction
        invariant Valid() && depth == level && start < next && operands != []
        invariant ParseOr(tokens, start, level) == MoreOr(tokens, next, level, operands)
        decreases |tokens| - next
      {
        var _ := Take();
        var operand := ReadAnd();
        if operand.Rejected? {
          return operand;
        }
        operands := operands + [operand.value];
      }
      var combined := CombineAll(false, operands);
      return Accepted(combined);
    }

    method ReadAnd() returns (read: Outcome<Expr>)
      requires Valid()
      modifies this`next, this`depth
      ensures Reads(read, next, ParseAnd(tokens, old(next), old(depth)))
      ensures depth == old(depth) && (read.Accepted? ==> Valid())
      decreases |tokens| - next, 3
    {
      hide ParseOr, ReadTest, ParsePrimary, ParseUnary, Combine;
      var start, level := next, depth;
      var first := ReadUnary();
      if first.Rejected? {
        return first;
      }
      var operands := [first.value];
      while tokens[next].kind == Conjunction
        invariant Valid() && depth == level && start < next && operands != []
        invariant ParseAnd(tokens, start, level) == MoreAnd(tokens, next, level, operands)
        decreases |tokens| - next
      {
        var _ := Take();
        var operand := ReadUnary();
        if operand.Rejected? {
          return operand;
        }
        operands := operands + [operand.value];
      }
      var combined := CombineAll(true, operands);
      return Accepted(combined);
    }

    /** One level deeper for the token at `position`, unless there are too many. */
    method Deepen() returns (deeper: bool)
      modifies this`depth
      ensures deeper == (old(depth) < MaxDepth) && depth == old(depth) + if deeper then 1 else 0
    {
      depth := depth + 1;
      deeper := depth <= MaxDepth;
      if !deeper {
        depth := depth - 1;
      }
    }

    method ReadUnary() returns (read: Outcome<Expr>)
      requires Valid()
      modifies this`next, this`depth
      ensures Reads(read, next, ParseUnary(tokens, old(next), old(depth)))
      ensures depth == old(depth) && (read.Accepted? ==> Valid())
      decreases |tokens| - next, 2
    {
      hide ParseOr, ParseAnd, ReadTest, ParsePrimary;
      if tokens[next].kind == Negation {
        var token := Take();
        var deeper := Deepen();
        if !deeper {
          return Rejected(token.position);
        }
        read := ReadUnary();
        depth := depth - 1;
        if read.Accepted? {
          read := Accepted(Not(read.value));
        }
        return;
      }
      read := ReadPrimary();
    }

    method ReadPrimary() returns (read: Outcome<Expr>)
      requires Valid()
      modifies this`next, this`depth
      ensures Reads(read, next, ParsePrimary(tokens, old(next), old(depth)))
      ensures depth == old(depth) && (read.Accepted? ==> Valid())
      decreases |tokens| - next, 1
    {
      hide ParseOr, ParseAnd, ReadTest;
      var token := Take();
      match token.kind {
        case Opening =>
          var deeper := Deepen();
          if !deeper {
            return Rejected(token.position);
          }
          read := ReadOr();
          depth := depth - 1;
          if read.Accepted? {
            if tokens[next].kind != Closing {
              return Rejected(tokens[next].position);
            }
            var _ := Take();
          }
        case Word(_) =>
          read := ReadOneTest(token);
        case _ =>
          return Rejected(token.position);
      }
    }

    /** The test whose word was taken. */
    method ReadOneTest(word: Token) returns (read: Outcome<Expr>)
      requires AreTokens(tokens) && 0 < next < |tokens| && word == tokens[next - 1] && word.kind.Word?
      modifies this`next
      ensures Reads(read, next, ReadTest(tokens, old(next) - 1))
    {
      hide FieldNamed, ReadComparison, ShorthandNamed;
      var text := word.kind.text;
      if !IsLetter(text[0]) {
        return Rejected(word.position);
      }
      var lower := LowerText(text);
      if '.' in lower {
        var field := FindField(lower);
        if field == None {
          return Rejected(word.position);
        }
        if tokens[next].kind.Comparing? {
          read := ReadOneComparison(field.value);
          return;
        }
        return Accepted(Compare(Presence(field.value)));
      }
      var shorthand := ShorthandNamed(lower);
      if tokens[next].kind.Comparing? {
        return Rejected(tokens[next].position);
      }
      return Accepted(if shorthand.Some? then Compare(Presence(shorthand.value)) else Protocol(text));
    }

    method ReadOneComparison(field: Field) returns (read: Outcome<Expr>)
      requires AreTokens(tokens) && next < |tokens| && tokens[next].kind.Comparing?
      modifies this`next
      ensures Reads(read, next, ReadComparison(field, tokens, old(next)))
    {
      hide FieldNamed, AddressValue, NumberValue;
      var op := tokens[next];
      next := next + 1;
      var value := tokens[next];
      next := next + 1;
      if !value.kind.Word? {
        return Rejected(value.position);
      }
      var other := FindField(LowerText(value.kind.text));
      if other.Some? {
        return Rejected(value.position);
      }
      if KindOf(field) == Ipv4 || KindOf(field) == Ipv6 {
        if op.kind.op != Equal && op.kind.op != NotEqual {
          return Rejected(op.position);
        }
        var address := ParseAddress(value.kind.text, KindOf(field) == Ipv6);
        if address.Rejected? {
          return Rejected(value.position + address.position);
        }
        return Accepted(Compare(Comparison(field, op.kind.op, 0, address.value.text, address.value.prefixLength)));
      }
      var number := ParseNumber(value.kind.text, KindOf(field));
      if number == None {
        return Rejected(value.position);
      }
      return Accepted(Compare(Comparison(field, op.kind.op, number.value, "", -1)));
    }

    method Parse() returns (read: Outcome<Expr>)
      requires Valid() && next == 0 && depth == 0
      modifies this`next, this`depth
      ensures read == ParseTokens(tokens)
    {
      hide ParseOr;
      if tokens[next].kind == End {
        return Rejected(0);
      }
      read := ReadOr();
      if read.Rejected? {
        return;
      }
      if tokens[next].kind == Closing {
        return Rejected(tokens[next].position);
      }
      if tokens[next].kind != End {
        return Rejected(tokens[next].position);
      }
    }
  }
}
