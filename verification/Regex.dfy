/** The regular expressions the display filter is translated into, as PCRE2
  * reads them: a syntax tree, and what it means for one to match a stretch of a line.
  *
  * Only whether there is a match matters to a filter, never which one is tried
  * first, so alternation and repetition are given their set meaning. */
module Regex {

  datatype CharSet =
    | One(c: char)
    | Range(lo: char, hi: char)
    | NonSpace              // \S
    | Except(c: char)       // [^c]
    | Either(a: CharSet, b: CharSet)

  predicate IsSpace(c: char) {
    c == ' ' || '\t' <= c <= '\r'
  }

  predicate Has(set_: CharSet, c: char) {
    match set_
    case One(d) => c == d
    case Range(lo, hi) => lo <= c <= hi
    case NonSpace => !IsSpace(c)
    case Except(d) => c != d
    case Either(a, b) => Has(a, c) || Has(b, c)
  }

  const Digit := Range('0', '9')

  datatype Re =
    | Empty
    | Chars(cs: CharSet)
    | Then(first: Re, rest: Re)
    | Alt(left: Re, right: Re)
    | Star(body: Re)
    | Ahead(inner: Re)      // (?=inner)
    | NotAhead(inner: Re)   // (?!inner)

  /** `r` matches the characters of `s` from `i` up to `j`. */
  ghost predicate M(r: Re, s: string, i: nat, j: nat)
    decreases r, j - i
  {
    i <= j <= |s| &&
    match r
    case Empty => i == j
    case Chars(cs) => j == i + 1 && Has(cs, s[i])
    case Then(a, b) => exists k: nat :: i <= k <= j && M(a, s, i, k) && M(b, s, k, j)
    case Alt(a, b) => M(a, s, i, j) || M(b, s, i, j)
    case Star(a) => i == j || exists k: nat :: i < k <= j && M(a, s, i, k) && M(r, s, k, j)
    case Ahead(a) => i == j && exists k: nat :: i <= k <= |s| && M(a, s, i, k)
    case NotAhead(a) => i == j && !exists k: nat :: i <= k <= |s| && M(a, s, i, k)
  }

  /** `r` matches some characters of `s` from `i` on. */
  ghost predicate Begins(r: Re, s: string, i: nat) {
    exists k: nat :: i <= k <= |s| && M(r, s, i, k)
  }

  /** The pattern that never matches, `(?!)`. */
  const Never := NotAhead(Empty)

  function Literal(text: string): Re {
    if text == [] then Empty else Then(Chars(One(text[0])), Literal(text[1..]))
  }

  /** The alternatives of a group, `a|b|c`. */
  function AnyOf(parts: seq<Re>): Re {
    if parts == [] then Empty
    else if |parts| == 1 then parts[0]
    else Alt(parts[0], AnyOf(parts[1..]))
  }

  function Times(r: Re, n: nat): Re {
    if n == 0 then Empty else Then(r, Times(r, n - 1))
  }

  function Plus(r: Re): Re {
    Then(r, Star(r))
  }

  function Optional(r: Re): Re {
    Alt(r, Empty)
  }

  // ── What the derived forms match ──

  lemma {:induction false} LiteralMatches(text: string, s: string, i: nat, j: nat)
    ensures M(Literal(text), s, i, j) <==> i + |text| == j <= |s| && s[i..j] == text
  {
    if text == [] {
    } else {
      var rest := Literal(text[1..]);
      if i < |s| {
        LiteralMatches(text[1..], s, i + 1, j);
      }
      assert Literal(text) == Then(Chars(One(text[0])), rest);
      if M(Literal(text), s, i, j) {
        var k := ThenSplit(Chars(One(text[0])), rest, s, i, j);
        assert s[i..j] == [s[i]] + s[i + 1..j];
      }
      if i + |text| == j <= |s| && s[i..j] == text {
        assert s[i..j][1..] == s[i + 1..j];
        assert s[i] == s[i..j][0];
        assert M(Chars(One(text[0])), s, i, i + 1) && M(rest, s, i + 1, j);
      }
    }
  }

  lemma {:induction false} AnyOfMatches(parts: seq<Re>, s: string, i: nat, j: nat)
    requires parts != []
    ensures M(AnyOf(parts), s, i, j) <==> exists p :: 0 <= p < |parts| && M(parts[p], s, i, j)
  {
    if |parts| == 1 {
    } else {
      AnyOfMatches(parts[1..], s, i, j);
      if p :| 0 <= p < |parts| && M(parts[p], s, i, j) {
        if p > 0 {
          assert parts[p] == parts[1..][p - 1];
        }
      }
      if q :| 0 <= q < |parts[1..]| && M(parts[1..][q], s, i, j) {
        assert parts[q + 1] == parts[1..][q];
      }
    }
  }

  /** All characters from `i` up to `j` are in `cs`. */
  ghost predicate AllIn(cs: CharSet, s: string, i: nat, j: nat) {
    i <= j <= |s| && forall k :: i <= k < j ==> Has(cs, s[k])
  }

  lemma {:induction false} TimesMatches(cs: CharSet, n: nat, s: string, i: nat, j: nat)
    ensures M(Times(Chars(cs), n), s, i, j) <==> j == i + n && AllIn(cs, s, i, j)
  {
    if n > 0 {
      var rest := Times(Chars(cs), n - 1);
      assert Times(Chars(cs), n) == Then(Chars(cs), rest);
      TimesMatches(cs, n - 1, s, i + 1, j);
      if j == i + n && AllIn(cs, s, i, j) {
        assert M(Chars(cs), s, i, i + 1) && M(rest, s, i + 1, j);
      }
    }
  }

  lemma {:induction false} StarMatches(cs: CharSet, s: string, i: nat, j: nat)
    ensures M(Star(Chars(cs)), s, i, j) <==> AllIn(cs, s, i, j)
    decreases j - i
  {
    if i < j <= |s| {
      StarMatches(cs, s, i + 1, j);
      if AllIn(cs, s, i, j) {
        assert M(Chars(cs), s, i, i + 1) && M(Star(Chars(cs)), s, i + 1, j);
      }
    }
  }

  lemma PlusMatches(cs: CharSet, s: string, i: nat, j: nat)
    ensures M(Plus(Chars(cs)), s, i, j) <==> i < j && AllIn(cs, s, i, j)
  {
    StarMatches(cs, s, i + 1, j);
    if i < j && AllIn(cs, s, i, j) {
      assert M(Chars(cs), s, i, i + 1) && M(Star(Chars(cs)), s, i + 1, j);
    }
  }

  lemma ThenSplit(a: Re, b: Re, s: string, i: nat, j: nat) returns (k: nat)
    requires M(Then(a, b), s, i, j)
    ensures i <= k <= j && M(a, s, i, k) && M(b, s, k, j)
  {
    k :| i <= k <= j && M(a, s, i, k) && M(b, s, k, j);
  }

  lemma StarSplit(a: Re, s: string, i: nat, j: nat) returns (k: nat)
    requires i < j && M(Star(a), s, i, j)
    ensures i < k <= j && M(a, s, i, k) && M(Star(a), s, k, j)
  {
    k :| i < k <= j && M(a, s, i, k) && M(Star(a), s, k, j);
  }

  lemma ThenIntro(a: Re, b: Re, s: string, i: nat, k: nat, j: nat)
    requires M(a, s, i, k) && M(b, s, k, j)
    ensures M(Then(a, b), s, i, j)
  {
  }

  // ── Patterns of words ──

  predicate NoSpaces(cs: CharSet) {
    match cs
    case One(c) => !IsSpace(c)
    case Range(lo, hi) => lo > ' '
    case NonSpace => true
    case Except(_) => false
    case Either(a, b) => NoSpaces(a) && NoSpaces(b)
  }

  /** A pattern without a space in anything it matches. */
  predicate Solid(r: Re) {
    match r
    case Empty => true
    case Chars(cs) => NoSpaces(cs)
    case Then(a, b) => Solid(a) && Solid(b)
    case Alt(a, b) => Solid(a) && Solid(b)
    case Star(a) => Solid(a)
    case Ahead(_) => false
    case NotAhead(_) => false
  }

  /** A pattern that matches at least one character. */
  predicate Consumes(r: Re) {
    match r
    case Empty => false
    case Chars(_) => true
    case Then(a, b) => Consumes(a) || Consumes(b)
    case Alt(a, b) => Consumes(a) && Consumes(b)
    case Star(_) => false
    case Ahead(_) => false
    case NotAhead(_) => false
  }

  lemma {:induction false} SolidMatches(r: Re, s: string, i: nat, j: nat)
    requires Solid(r) && M(r, s, i, j)
    ensures AllIn(NonSpace, s, i, j)
    decreases r, j - i
  {
    match r {
      case Empty =>
      case Chars(cs) => NoSpacesHas(cs, s[i]);
      case Then(a, b) =>
        var k := ThenSplit(a, b, s, i, j);
        SolidMatches(a, s, i, k);
        SolidMatches(b, s, k, j);
      case Alt(a, b) =>
        if M(a, s, i, j) {
          SolidMatches(a, s, i, j);
        } else {
          SolidMatches(b, s, i, j);
        }
      case Star(a) =>
        if i < j {
          var k: nat :| i < k <= j && M(a, s, i, k) && M(r, s, k, j);
          SolidMatches(a, s, i, k);
          SolidMatches(r, s, k, j);
        }
    }
  }

  lemma {:induction false} NoSpacesHas(cs: CharSet, c: char)
    requires NoSpaces(cs) && Has(cs, c)
    ensures !IsSpace(c)
  {
    match cs {
      case Either(a, b) =>
        if Has(a, c) {
          NoSpacesHas(a, c);
        } else {
          NoSpacesHas(b, c);
        }
      case _ =>
    }
  }

  lemma {:induction false} ConsumesMatches(r: Re, s: string, i: nat, j: nat)
    requires Consumes(r) && M(r, s, i, j)
    ensures i < j
  {
    match r {
      case Chars(_) =>
      case Then(a, b) =>
        var k := ThenSplit(a, b, s, i, j);
        if Consumes(a) {
          ConsumesMatches(a, s, i, k);
        } else {
          ConsumesMatches(b, s, k, j);
        }
      case Alt(a, b) =>
        if M(a, s, i, j) {
          ConsumesMatches(a, s, i, j);
        } else {
          ConsumesMatches(b, s, i, j);
        }
    }
  }

  lemma {:induction false} LiteralIsSolid(text: string)
    requires forall k :: 0 <= k < |text| ==> !IsSpace(text[k])
    ensures Solid(Literal(text)) && (text != [] ==> Consumes(Literal(text)))
  {
    if text != [] {
      LiteralIsSolid(text[1..]);
    }
  }

  // ── Characters a pattern cannot match, or cannot do without ──

  predicate Avoids(r: Re, c: char) {
    match r
    case Empty => true
    case Chars(cs) => !Has(cs, c)
    case Then(a, b) => Avoids(a, c) && Avoids(b, c)
    case Alt(a, b) => Avoids(a, c) && Avoids(b, c)
    case Star(a) => Avoids(a, c)
    case Ahead(_) => false
    case NotAhead(_) => false
  }

  lemma {:induction false} AvoidsMatches(r: Re, c: char, s: string, i: nat, j: nat)
    requires Avoids(r, c) && M(r, s, i, j)
    ensures AllIn(Except(c), s, i, j)
    decreases r, j - i
  {
    match r {
      case Empty =>
      case Chars(cs) =>
      case Then(a, b) =>
        var k := ThenSplit(a, b, s, i, j);
        AvoidsMatches(a, c, s, i, k);
        AvoidsMatches(b, c, s, k, j);
      case Alt(a, b) =>
        if M(a, s, i, j) {
          AvoidsMatches(a, c, s, i, j);
        } else {
          AvoidsMatches(b, c, s, i, j);
        }
      case Star(a) =>
        if i < j {
          var k: nat :| i < k <= j && M(a, s, i, k) && M(r, s, k, j);
          AvoidsMatches(a, c, s, i, k);
          AvoidsMatches(r, c, s, k, j);
        }
    }
  }

  predicate Needs(r: Re, cs: CharSet) {
    match r
    case Empty => false
    case Chars(own) => own == cs
    case Then(a, b) => Needs(a, cs) || Needs(b, cs)
    case Alt(a, b) => Needs(a, cs) && Needs(b, cs)
    case Star(_) => false
    case Ahead(_) => false
    case NotAhead(_) => false
  }

  lemma {:induction false} NeedsMatches(r: Re, cs: CharSet, s: string, i: nat, j: nat) returns (k: nat)
    requires Needs(r, cs) && M(r, s, i, j)
    ensures i <= k < j <= |s| && Has(cs, s[k])
  {
    match r {
      case Chars(_) => k := i;
      case Then(a, b) =>
        var m := ThenSplit(a, b, s, i, j);
        if Needs(a, cs) {
          k := NeedsMatches(a, cs, s, i, m);
        } else {
          k := NeedsMatches(b, cs, s, m, j);
        }
      case Alt(a, b) =>
        if M(a, s, i, j) {
          k := NeedsMatches(a, cs, s, i, j);
        } else {
          k := NeedsMatches(b, cs, s, i, j);
        }
    }
  }

  /** A pattern that does not look beyond what it matches. */
  predicate Plain(r: Re) {
    match r
    case Then(a, b) => Plain(a) && Plain(b)
    case Alt(a, b) => Plain(a) && Plain(b)
    case Star(a) => Plain(a)
    case Ahead(_) => false
    case NotAhead(_) => false
    case _ => true
  }

  /** Such a pattern matches a text wherever the text stands. */
  lemma {:induction false} MatchMoves(r: Re, s: string, i: nat, j: nat, t: string, x: nat)
    requires Plain(r) && M(r, s, i, j) && x + (j - i) <= |t| && s[i..j] == t[x..x + (j - i)]
    ensures M(r, t, x, x + (j - i))
    decreases r, j - i
  {
    match r {
      case Empty =>
      case Chars(cs) => assert s[i] == s[i..j][0] == t[x];
      case Then(a, b) =>
        var k := ThenSplit(a, b, s, i, j);
        SliceMoves(s, i, k, j, t, x);
        MatchMoves(a, s, i, k, t, x);
        MatchMoves(b, s, k, j, t, x + (k - i));
        ThenIntro(a, b, t, x, x + (k - i), x + (j - i));
      case Alt(a, b) =>
        if M(a, s, i, j) {
          MatchMoves(a, s, i, j, t, x);
        } else {
          MatchMoves(b, s, i, j, t, x);
        }
      case Star(a) =>
        if i < j {
          var k: nat :| i < k <= j && M(a, s, i, k) && M(r, s, k, j);
          SliceMoves(s, i, k, j, t, x);
          MatchMoves(a, s, i, k, t, x);
          MatchMoves(r, s, k, j, t, x + (k - i));
        }
    }
  }

  lemma SliceMoves(s: string, i: nat, k: nat, j: nat, t: string, x: nat)
    requires i <= k <= j <= |s| && x + (j - i) <= |t| && s[i..j] == t[x..x + (j - i)]
    ensures s[i..k] == t[x..x + (k - i)] && s[k..j] == t[x + (k - i)..x + (j - i)]
  {
    assert s[i..k] == s[i..j][..k - i] && s[k..j] == s[i..j][k - i..];
    assert t[x..x + (k - i)] == t[x..x + (j - i)][..k - i];
    assert t[x + (k - i)..x + (j - i)] == t[x..x + (j - i)][k - i..];
  }
}
