/** Reading the columns of a packet line: however the pattern tries to place them, it reads
  * each column where the formatter wrote it. */
module LineColumns {
  import opened Options
  import opened Regex
  import opened Decimal
  import opened Text
  import opened NumberRange
  import opened FilterTranslation
  import opened Patterns
  import opened PacketLines

  /** A column from `b` to `e`, and the spaces after it up to `n`. */
  ghost predicate Cell(s: string, b: nat, e: nat, n: nat) {
    b < e < n <= |s| && AllIn(NonSpace, s, b, e) && AllIn(One(' '), s, e, n)
  }

  ghost predicate StartsWord(r: Re, s: string) {
    forall i: nat :: Begins(r, s, i) ==> i < |s| && s[i] != ' '
  }

  lemma WordStarts(t: Re, r: Re, s: string)
    requires Within(t, Word, s)
    ensures StartsWord(Then(t, r), s)
  {
    forall i: nat | Begins(Then(t, r), s, i)
      ensures i < |s| && s[i] != ' '
    {
      BeginsThen(t, r, s, i);
      var k: nat :| M(t, s, i, k) && Begins(r, s, k);
      PlusMatches(NonSpace, s, i, k);
    }
  }

  /** Word characters from the start of a column up to a space are all of the column. */
  lemma WordEnd(s: string, b: nat, e: nat, n: nat, k: nat)
    requires Cell(s, b, e, n) && b < k < |s| && AllIn(NonSpace, s, b, k) && s[k] == ' '
    ensures k == e
  {
    assert Has(One(' '), s[e]);
    var atK, atE := s[k], s[e];
    assert k < e ==> Has(NonSpace, atK);
    assert k > e ==> Has(NonSpace, atE);
  }

  /** Spaces from the end of a column up to a word are all of the gap. */
  lemma GapEnd(s: string, e: nat, n: nat, m: nat)
    requires e < n < |s| && AllIn(One(' '), s, e, n) && s[n] != ' '
    requires e < m < |s| && AllIn(One(' '), s, e, m) && s[m] != ' '
    ensures m == n
  {
    var atM, atN := s[m], s[n];
    assert m < n ==> Has(One(' '), atM);
    assert m > n ==> Has(One(' '), atN);
  }

  /** The spaces of a gap end where the next word begins. */
  lemma GapStep(r: Re, s: string, e: nat, n: nat)
    requires e < n < |s| && AllIn(One(' '), s, e, n) && s[n] != ' ' && StartsWord(r, s)
    ensures Begins(Then(Gap, r), s, e) <==> Begins(r, s, n)
  {
    BeginsThen(Gap, r, s, e);
    if Begins(Then(Gap, r), s, e) {
      var k: nat :| M(Gap, s, e, k) && Begins(r, s, k);
      PlusMatches(One(' '), s, e, k);
    }
    PlusMatches(One(' '), s, e, n);
  }

  /** A word pattern before a gap reads a whole column. */
  lemma CellStep(t: Re, r: Re, s: string, b: nat, e: nat, n: nat)
    requires Cell(s, b, e, n) && n < |s| && s[n] != ' ' && Within(t, Word, s) && StartsWord(r, s)
    ensures Begins(Then(t, Then(Gap, r)), s, b) <==> M(t, s, b, e) && Begins(r, s, n)
  {
    BeginsThen(t, Then(Gap, r), s, b);
    GapStep(r, s, e, n);
    if Begins(Then(t, Then(Gap, r)), s, b) {
      var k: nat :| M(t, s, b, k) && Begins(Then(Gap, r), s, k);
      PlusMatches(NonSpace, s, b, k);
      BeginsThen(Gap, r, s, k);
      var m: nat :| M(Gap, s, k, m) && Begins(r, s, m);
      PlusMatches(One(' '), s, k, m);
      assert Has(One(' '), s[k]);
      WordEnd(s, b, e, n, k);
    }
  }

  /** The same before a single space, where a column ends the ones read. */
  lemma LastCellStep(t: Re, r: Re, s: string, b: nat, e: nat, n: nat)
    requires Cell(s, b, e, n) && Within(t, Word, s)
    ensures Begins(Then(t, Then(Chars(One(' ')), r)), s, b) <==> M(t, s, b, e) && Begins(r, s, e + 1)
  {
    hide NoSpaces;
    var space := Chars(One(' '));
    BeginsThen(t, Then(space, r), s, b);
    BeginsThen(space, r, s, e);
    assert M(space, s, e, e + 1);
    if Begins(Then(t, Then(space, r)), s, b) {
      var k: nat :| M(t, s, b, k) && Begins(Then(space, r), s, k);
      PlusMatches(NonSpace, s, b, k);
      BeginsThen(space, r, s, k);
      var m: nat :| M(space, s, k, m) && Begins(r, s, m);
      WordEnd(s, b, e, n, k);
    }
  }

  /** Two columns and the gap between them. */
  ghost predicate TwoCells(s: string, b1: nat, e1: nat, b2: nat, e2: nat, n: nat) {
    Cell(s, b1, e1, b2) && Cell(s, b2, e2, n)
  }

  /** A pattern of two words before a gap reads two whole columns. */
  lemma PairStep(t: Re, r: Re, s: string, b1: nat, e1: nat, b2: nat, e2: nat, n: nat)
    requires TwoCells(s, b1, e1, b2, e2, n) && n < |s| && s[n] != ' '
    requires Within(t, AnyPair, s) && StartsWord(r, s)
    ensures Begins(Then(t, Then(Gap, r)), s, b1) <==> M(t, s, b1, e2) && Begins(r, s, n)
  {
    BeginsThen(t, Then(Gap, r), s, b1);
    GapStep(r, s, e2, n);
    if Begins(Then(t, Then(Gap, r)), s, b1) {
      var k: nat :| M(t, s, b1, k) && Begins(Then(Gap, r), s, k);
      var x := ThenSplit(Word, Then(Gap, Word), s, b1, k);
      var y := ThenSplit(Gap, Word, s, x, k);
      PlusMatches(NonSpace, s, b1, x);
      PlusMatches(One(' '), s, x, y);
      PlusMatches(NonSpace, s, y, k);
      assert Has(One(' '), s[x]) && Has(NonSpace, s[y]);
      WordEnd(s, b1, e1, b2, x);
      GapEnd(s, e1, b2, y);
      BeginsThen(Gap, r, s, k);
      var m: nat :| M(Gap, s, k, m) && Begins(r, s, m);
      PlusMatches(One(' '), s, k, m);
      assert Has(One(' '), s[k]);
      WordEnd(s, b2, e2, n, k);
    }
  }

  /** Two word patterns and a gap read each its column. */
  lemma PairMatches(a: Re, b: Re, s: string, b1: nat, e1: nat, b2: nat, e2: nat, n: nat)
    requires TwoCells(s, b1, e1, b2, e2, n) && Within(a, Word, s) && Within(b, Word, s)
    ensures M(Pair(a, b), s, b1, e2) <==> M(a, s, b1, e1) && M(b, s, b2, e2)
  {
    if M(Pair(a, b), s, b1, e2) {
      var x := ThenSplit(a, Then(Gap, b), s, b1, e2);
      var y := ThenSplit(Gap, b, s, x, e2);
      PlusMatches(NonSpace, s, b1, x);
      PlusMatches(One(' '), s, x, y);
      PlusMatches(NonSpace, s, y, e2);
      assert Has(One(' '), s[x]) && Has(NonSpace, s[y]) && Has(NonSpace, s[b2]);
      WordEnd(s, b1, e1, b2, x);
      GapEnd(s, e1, b2, y);
    }
    if M(a, s, b1, e1) && M(b, s, b2, e2) {
      PlusMatches(One(' '), s, e1, b2);
      ThenIntro(Gap, b, s, e1, b2, e2);
      ThenIntro(a, Then(Gap, b), s, b1, e1, e2);
    }
  }

  // ── The time columns ──

  /** The columns of a line. `times` is where those before Source begin: the UTC time's two words,
    * the relative time, either, or neither. */
  datatype Marks = Marks(
    numberEnd: nat, stream: nat, streamEnd: nat, times: nat,
    utc: Option<(nat, nat, nat)>,   // the end of the date, where the clock begins, and where it ends
    relative: Option<(nat, nat)>,   // where it begins and ends
    source: nat, sourceEnd: nat, destination: nat, destinationEnd: nat,
    protocol: nat, protocolEnd: nat, length: nat, lengthEnd: nat, body: nat)

  /** Where the relative time column begins, or Source without one. */
  function AfterUtc(m: Marks): nat {
    if m.relative.Some? then m.relative.value.0 else m.source
  }

  ghost predicate UtcMarked(m: Marks, s: string) {
    match m.utc
    case Some((dateEnd, clock, clockEnd)) =>
      && clock == dateEnd + 1 && Cell(s, m.times, dateEnd, clock) && Cell(s, clock, clockEnd, AfterUtc(m))
      && M(DateWord, s, m.times, dateEnd) && M(ClockWord, s, clock, clockEnd)
    case None => m.times == AfterUtc(m)
  }

  ghost predicate RelativeMarked(m: Marks, s: string) {
    match m.relative
    case Some((seconds, secondsEnd)) =>
      Cell(s, seconds, secondsEnd, m.source) && M(SecondsWord, s, seconds, secondsEnd)
    case None => true
  }

  /** The number and the stream, before the time columns. */
  ghost predicate FrontMarked(m: Marks, s: string) {
    && Cell(s, 0, m.numberEnd, m.stream) && M(Digits, s, 0, m.numberEnd)
    && Cell(s, m.stream, m.streamEnd, m.times)
  }

  /** The columns from Source to Length. */
  ghost predicate BackMarked(m: Marks, s: string) {
    && TwoCells(s, m.source, m.sourceEnd, m.destination, m.destinationEnd, m.protocol)
    && Cell(s, m.protocol, m.protocolEnd, m.length)
    && Cell(s, m.length, m.lengthEnd, m.body) && M(Digits, s, m.length, m.lengthEnd)
  }

  ghost predicate At(m: Marks, s: string) {
    FrontMarked(m, s) && UtcMarked(m, s) && RelativeMarked(m, s) && BackMarked(m, s)
  }

  /** No column slips: an address never reads as a time or a number, nor a protocol as a number. */
  ghost predicate NoSlip(m: Marks, s: string) {
    && !M(Digits, s, m.source, m.sourceEnd) && !M(Digits, s, m.destination, m.destinationEnd)
    && !M(Digits, s, m.protocol, m.protocolEnd)
    && !M(SecondsWord, s, m.source, m.sourceEnd) && !M(DateWord, s, m.source, m.sourceEnd)
  }

  ghost predicate Columned(addresses: Re, protocol: Re, length: Re, s: string) {
    Within(addresses, AnyPair, s) && Within(protocol, Word, s) && Within(length, Digits, s)
  }

  lemma AddressesStart(addresses: Re, protocol: Re, length: Re, info: Re, s: string)
    requires Columned(addresses, protocol, length, s)
    ensures StartsWord(AddressesOn(addresses, protocol, length, info), s)
    ensures StartsWord(Then(protocol, Then(Gap, Then(length, Then(Chars(One(' ')), info)))), s)
    ensures StartsWord(Then(length, Then(Chars(One(' ')), info)), s)
  {
    DigitsAreAWord(s);
    WithinTransitive(length, Digits, Word, s);
    WordStarts(length, Then(Chars(One(' ')), info), s);
    WordStarts(protocol, Then(Gap, Then(length, Then(Chars(One(' ')), info))), s);
    var rest := Then(Gap, Then(protocol, Then(Gap, Then(length, Then(Chars(One(' ')), info)))));
    forall i: nat | Begins(AddressesOn(addresses, protocol, length, info), s, i)
      ensures i < |s| && s[i] != ' '
    {
      BeginsThen(addresses, rest, s, i);
      var k: nat :| M(addresses, s, i, k) && Begins(rest, s, k);
      var x := ThenSplit(Word, Then(Gap, Word), s, i, k);
      PlusMatches(NonSpace, s, i, x);
    }
  }

  /** From Source on, each column is read in its place. */
  lemma AddressesRead(addresses: Re, protocol: Re, length: Re, info: Re, m: Marks, s: string)
    requires Columned(addresses, protocol, length, s) && At(m, s)
    ensures Begins(AddressesOn(addresses, protocol, length, info), s, m.source) <==>
            && M(addresses, s, m.source, m.destinationEnd) && M(protocol, s, m.protocol, m.protocolEnd)
            && M(length, s, m.length, m.lengthEnd) && Begins(info, s, m.lengthEnd + 1)
  {
    AddressesStart(addresses, protocol, length, info, s);
    DigitsAreAWord(s);
    WithinTransitive(length, Digits, Word, s);
    var fromLength := Then(length, Then(Chars(One(' ')), info));
    LastCellStep(length, info, s, m.length, m.lengthEnd, m.body);
    assert Has(NonSpace, s[m.length]) && Has(NonSpace, s[m.protocol]);
    CellStep(protocol, fromLength, s, m.protocol, m.protocolEnd, m.length);
    PairStep(addresses, Then(protocol, Then(Gap, fromLength)), s,
             m.source, m.sourceEnd, m.destination, m.destinationEnd, m.protocol);
  }

  /** The columns are not read a word early: the fourth word would have to be the Length. */
  lemma NotEarly(addresses: Re, protocol: Re, length: Re, info: Re, s: string,
                 b1: nat, e1: nat, b2: nat, e2: nat, b3: nat, e3: nat, b4: nat, e4: nat, n: nat)
    requires Columned(addresses, protocol, length, s)
    requires TwoCells(s, b1, e1, b2, e2, b3) && Cell(s, b3, e3, b4) && Cell(s, b4, e4, n)
    requires !M(Digits, s, b4, e4)
    ensures !Begins(AddressesOn(addresses, protocol, length, info), s, b1)
  {
    AddressesStart(addresses, protocol, length, info, s);
    DigitsAreAWord(s);
    WithinTransitive(length, Digits, Word, s);
    var fromLength := Then(length, Then(Chars(One(' ')), info));
    LastCellStep(length, info, s, b4, e4, n);
    assert Has(NonSpace, s[b4]) && Has(NonSpace, s[b3]);
    CellStep(protocol, fromLength, s, b3, e3, b4);
    PairStep(addresses, Then(protocol, Then(Gap, fromLength)), s, b1, e1, b2, e2, b3);
  }

  lemma OptionalStep(g: Re, r: Re, s: string, i: nat)
    ensures Begins(Then(Optional(g), r), s, i) <==> Begins(Then(g, r), s, i) || (i <= |s| && Begins(r, s, i))
  {
    BeginsThen(Optional(g), r, s, i);
    BeginsThen(g, r, s, i);
    if i <= |s| {
      assert M(Empty, s, i, i);
    }
  }

  lemma Regroup(a: Re, b: Re, c: Re, s: string, i: nat)
    ensures Begins(Then(Then(a, b), c), s, i) <==> Begins(Then(a, Then(b, c)), s, i)
  {
    BeginsThen(Then(a, b), c, s, i);
    BeginsThen(a, Then(b, c), s, i);
    if Begins(Then(Then(a, b), c), s, i) {
      var k: nat :| M(Then(a, b), s, i, k) && Begins(c, s, k);
      var m := ThenSplit(a, b, s, i, k);
      BeginsThen(b, c, s, m);
    }
    if Begins(Then(a, Then(b, c)), s, i) {
      var m: nat :| M(a, s, i, m) && Begins(Then(b, c), s, m);
      BeginsThen(b, c, s, m);
      var k: nat :| M(b, s, m, k) && Begins(c, s, k);
      ThenIntro(a, b, s, i, m, k);
    }
  }

  lemma TimesAreWords(s: string)
    ensures Within(DateWord, Word, s) && Within(ClockWord, Word, s) && Within(SecondsWord, Word, s)
  {
    assert Solid(DateWord) && Consumes(DateWord);
    assert Solid(ClockWord) && Consumes(ClockWord);
    assert Solid(SecondsWord) && Consumes(SecondsWord);
    SolidIsAWord(DateWord, s);
    SolidIsAWord(ClockWord, s);
    SolidIsAWord(SecondsWord, s);
  }

  /** A date has no decimal point, a number of seconds has one. */
  lemma DateOrSeconds(s: string, i: nat, j: nat)
    ensures !(M(DateWord, s, i, j) && M(SecondsWord, s, i, j))
  {
    assert Avoids(DateWord, '.');
    assert Needs(SecondsWord, One('.'));
    if M(DateWord, s, i, j) && M(SecondsWord, s, i, j) {
      AvoidsMatches(DateWord, '.', s, i, j);
      var k := NeedsMatches(SecondsWord, One('.'), s, i, j);
      assert false;
    }
  }

  lemma RelativeStarts(a: Re, s: string)
    requires StartsWord(a, s)
    ensures StartsWord(Then(Optional(RelativeTime), a), s)
  {
    TimesAreWords(s);
    WordStarts(SecondsWord, Then(Gap, a), s);
    forall i: nat | Begins(Then(Optional(RelativeTime), a), s, i)
      ensures i < |s| && s[i] != ' '
    {
      OptionalStep(RelativeTime, a, s, i);
      Regroup(SecondsWord, Gap, a, s, i);
    }
  }

  /** The relative time, or nothing where it is left out, and never Source in its place. */
  lemma RelativeRead(a: Re, m: Marks, s: string)
    requires At(m, s) && NoSlip(m, s) && StartsWord(a, s)
    requires m.relative.Some? ==> !Begins(a, s, m.relative.value.0)
    ensures Begins(Then(Optional(RelativeTime), a), s, AfterUtc(m)) <==> Begins(a, s, m.source)
  {
    TimesAreWords(s);
    OptionalStep(RelativeTime, a, s, AfterUtc(m));
    Regroup(SecondsWord, Gap, a, s, AfterUtc(m));
    assert Has(NonSpace, s[m.source]) && Has(NonSpace, s[m.destination]);
    match m.relative {
      case Some((seconds, secondsEnd)) => CellStep(SecondsWord, a, s, seconds, secondsEnd, m.source);
      case None => CellStep(SecondsWord, a, s, m.source, m.sourceEnd, m.destination);
    }
  }

  /** The UTC time, then what follows it. */
  lemma UtcGroup(r: Re, s: string, i: nat)
    ensures Begins(Then(UtcTime, r), s, i) <==>
            Begins(Then(DateWord, Then(Chars(One(' ')), Then(ClockWord, Then(Gap, r)))), s, i)
  {
    var space := Chars(One(' '));
    Regroup(DateWord, Then(space, Then(ClockWord, Gap)), r, s, i);
    forall k: nat
      ensures Begins(Then(Then(space, Then(ClockWord, Gap)), r), s, k)
              <==> Begins(Then(space, Then(ClockWord, Then(Gap, r))), s, k)
    {
      Regroup(space, Then(ClockWord, Gap), r, s, k);
      forall l: nat
        ensures Begins(Then(Then(ClockWord, Gap), r), s, l) <==> Begins(Then(ClockWord, Then(Gap, r)), s, l)
      {
        Regroup(ClockWord, Gap, r, s, l);
      }
      BeginsThen(space, Then(Then(ClockWord, Gap), r), s, k);
      BeginsThen(space, Then(ClockWord, Then(Gap, r)), s, k);
    }
    BeginsThen(DateWord, Then(Then(space, Then(ClockWord, Gap)), r), s, i);
    BeginsThen(DateWord, Then(space, Then(ClockWord, Then(Gap, r))), s, i);
  }

  /** The time columns are read where they are, whichever the layout shows. */
  lemma TimesRead(a: Re, m: Marks, s: string)
    requires At(m, s) && NoSlip(m, s) && StartsWord(a, s)
    requires m.relative.Some? ==> !Begins(a, s, m.relative.value.0)
    requires m.utc.Some? ==> !Begins(a, s, m.times)
    ensures Begins(Then(Optional(UtcTime), Then(Optional(RelativeTime), a)), s, m.times) <==> Begins(a, s, m.source)
  {
    var r := Then(Optional(RelativeTime), a);
    TimesAreWords(s);
    RelativeStarts(a, s);
    RelativeRead(a, m, s);
    OptionalStep(UtcTime, r, s, m.times);
    UtcGroup(r, s, m.times);
    assert Has(NonSpace, s[m.source]) && Has(NonSpace, s[m.destination]);
    var fromClock := Then(ClockWord, Then(Gap, r));
    match m.utc {
      case Some((dateEnd, clock, clockEnd)) =>
        assert Has(NonSpace, s[clock]) && Has(NonSpace, s[AfterUtc(m)]);
        LastCellStep(DateWord, fromClock, s, m.times, dateEnd, clock);
        CellStep(ClockWord, r, s, clock, clockEnd, AfterUtc(m));
        OptionalStep(RelativeTime, a, s, m.times);
        Regroup(SecondsWord, Gap, a, s, m.times);
        CellStep(SecondsWord, a, s, m.times, dateEnd, clock);
        DateOrSeconds(s, m.times, dateEnd);
      case None =>
        match m.relative {
          case Some((seconds, secondsEnd)) =>
            LastCellStep(DateWord, fromClock, s, seconds, secondsEnd, m.source);
            DateOrSeconds(s, seconds, secondsEnd);
          case None => LastCellStep(DateWord, fromClock, s, m.source, m.sourceEnd, m.destination);
        }
    }
  }

  /** Reading a packet line: the pattern begins it exactly if each column, as the formatter
    * wrote it, matches its part of the pattern, and what follows Length begins `info`. */
  lemma ColumnsRead(stream: Re, addresses: Re, protocol: Re, length: Re, info: Re, m: Marks, s: string)
    requires Within(stream, Word, s) && Columned(addresses, protocol, length, s) && At(m, s) && NoSlip(m, s)
    ensures Begins(Columns(stream, addresses, protocol, length, info), s, 0) <==>
            && M(stream, s, m.stream, m.streamEnd) && M(addresses, s, m.source, m.destinationEnd)
            && M(protocol, s, m.protocol, m.protocolEnd) && M(length, s, m.length, m.lengthEnd)
            && Begins(info, s, m.lengthEnd + 1)
  {
    var a := AddressesOn(addresses, protocol, length, info);
    AddressesStart(addresses, protocol, length, info, s);
    AddressesRead(addresses, protocol, length, info, m, s);
    NotTooEarly(addresses, protocol, length, info, m, s);
    TimesRead(a, m, s);
    var r := Then(Optional(RelativeTime), a);
    var fromTimes := Then(Optional(UtcTime), r);
    TimesStart(a, s);
    DigitsAreAWord(s);
    assert Has(NonSpace, s[m.stream]);
    assert s[m.times] != ' ' by {
      match m.utc {
        case Some((dateEnd, clock, clockEnd)) => assert Has(NonSpace, s[m.times]);
        case None =>
          assert m.relative.Some? ==> Has(NonSpace, s[m.relative.value.0]);
          assert Has(NonSpace, s[m.source]);
      }
    }
    CellStep(stream, fromTimes, s, m.stream, m.streamEnd, m.times);
    WordStarts(stream, Then(Gap, fromTimes), s);
    CellStep(Digits, Then(stream, Then(Gap, fromTimes)), s, 0, m.numberEnd, m.stream);
  }

  lemma TimesStart(a: Re, s: string)
    requires StartsWord(a, s)
    ensures StartsWord(Then(Optional(UtcTime), Then(Optional(RelativeTime), a)), s)
  {
    var r := Then(Optional(RelativeTime), a);
    RelativeStarts(a, s);
    TimesAreWords(s);
    WordStarts(DateWord, Then(Chars(One(' ')), Then(ClockWord, Then(Gap, r))), s);
    forall i: nat | Begins(Then(Optional(UtcTime), r), s, i)
      ensures i < |s| && s[i] != ' '
    {
      OptionalStep(UtcTime, r, s, i);
      UtcGroup(r, s, i);
    }
  }

  lemma NotTooEarly(addresses: Re, protocol: Re, length: Re, info: Re, m: Marks, s: string)
    requires Columned(addresses, protocol, length, s) && At(m, s) && NoSlip(m, s)
    ensures var a := AddressesOn(addresses, protocol, length, info);
            && (m.relative.Some? ==> !Begins(a, s, m.relative.value.0))
            && (m.utc.Some? ==> !Begins(a, s, m.times))
  {
    if m.relative.Some? {
      var (seconds, secondsEnd) := m.relative.value;
      NotEarly(addresses, protocol, length, info, s, seconds, secondsEnd, m.source, m.sourceEnd,
               m.destination, m.destinationEnd, m.protocol, m.protocolEnd, m.length);
    }
    if m.utc.Some? {
      var (dateEnd, clock, clockEnd) := m.utc.value;
      if m.relative.Some? {
        var (seconds, secondsEnd) := m.relative.value;
        NotEarly(addresses, protocol, length, info, s, m.times, dateEnd, clock, clockEnd,
                 seconds, secondsEnd, m.source, m.sourceEnd, m.destination);
      } else {
        NotEarly(addresses, protocol, length, info, s, m.times, dateEnd, clock, clockEnd,
                 m.source, m.sourceEnd, m.destination, m.destinationEnd, m.protocol);
      }
    }
  }
}
