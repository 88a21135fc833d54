/** What the rule actions of parser.rb compute, stated for whole token
    sequences and, through the tokenizer, for whole phrases. */
module TimePhrases {
  import opened Text
  import opened TimeLex
  import opened TimeLexFacts
  import opened TimeParse
  import opened TimeGrammar

  /** A bare unit is a period of its multiplier: 1, 7 or 30 days. */
  lemma BareUnitPeriod(cal: Calendar, u: Token)
    requires IsUnit(u) && WellValued(cal, u)
    ensures PeriodValue([u]) == Some(if u.Day? then 1 else if u.Week? then 7 else 30)
  {
  }

  /** A count before a unit multiplies the unit's days. */
  lemma CountedPeriod(cal: Calendar, c: Token, u: Token)
    requires IsCount(c) && IsUnit(u) && WellValued(cal, u)
    ensures PeriodValue([c, u]) == Some(c.value * (if u.Day? then 1 else if u.Week? then 7 else 30))
  {
  }

  /** A period with nothing around it is not a time: the grammar error
      is reported at the end of the input. */
  lemma PeriodAloneFails(cal: Calendar, ps: seq<Token>)
    requires PeriodValue(ps).Some?
    ensures ParseTime(cal, ps) == Err(GrammarError(|ps|))
  {
    ParsePeriodExact(ps, 0);
    assert ps[0..|ps|] == ps;
  }

  /** "P from T" and "P after T" are T + P; "P to T" is T - P. */
  lemma OffsetPhrases(cal: Calendar, ps: seq<Token>, ts: seq<Token>)
    requires PeriodValue(ps).Some? && PointValue(cal, ts).Some?
    ensures ParseTime(cal, ps + [From] + ts) == Ok(PointValue(cal, ts).value + PeriodValue(ps).value)
    ensures ParseTime(cal, ps + [After] + ts) == Ok(PointValue(cal, ts).value + PeriodValue(ps).value)
    ensures ParseTime(cal, ps + [To] + ts) == Ok(PointValue(cal, ts).value - PeriodValue(ps).value)
  {
    var m := |ps|;
    var p := PeriodValue(ps).value;
    var d := PointValue(cal, ts).value;
    forall c | c in [From, After, To]
      ensures ParseTime(cal, ps + [c] + ts) == Ok(if c == To then d - p else d + p)
    {
      var toks := ps + [c] + ts;
      assert toks[..m] == ps && toks[m] == c && toks[m + 1..] == ts;
      ParseOffsetComplete(cal, toks, m, if c == To then d - p else d + p);
    }
  }

  /** For one period and one point, "from" and "to" land the same distance
      after and before the point. */
  lemma FromToSymmetric(cal: Calendar, ps: seq<Token>, ts: seq<Token>)
    requires PeriodValue(ps).Some? && PointValue(cal, ts).Some?
    ensures ParseTime(cal, ps + [From] + ts).Ok? && ParseTime(cal, ps + [To] + ts).Ok?
    ensures ParseTime(cal, ps + [From] + ts).value + ParseTime(cal, ps + [To] + ts).value
            == 2 * PointValue(cal, ts).value
    ensures ParseTime(cal, ps + [From] + ts).value - ParseTime(cal, ps + [To] + ts).value
            == 2 * PeriodValue(ps).value
  {
    OffsetPhrases(cal, ps, ts);
  }

  /** "in P" is today + P. */
  lemma InPhrase(cal: Calendar, ps: seq<Token>)
    requires PeriodValue(ps).Some?
    ensures ParseTime(cal, [In] + ps) == Ok(cal.today + PeriodValue(ps).value)
  {
    assert ([In] + ps)[1..] == ps;
    ParseInComplete(cal, [In] + ps, cal.today + PeriodValue(ps).value);
  }

  /** "next WEEKDAY" is a week after the weekday's date; "next MONTHDAY" is
      the month-day's date moved to the next month. */
  lemma NextPhrases(cal: Calendar, d: int)
    ensures ParseTime(cal, [Next, Weekday(d)]) == Ok(d + 7)
    ensures ParseTime(cal, [Next, MonthDay(d)]) == Ok(cal.nextMonth(d))
  {
    ParsePointComplete(cal, [Next, Weekday(d)], d + 7);
    ParsePointComplete(cal, [Next, MonthDay(d)], cal.nextMonth(d));
  }

  /** Only blanks follow position `n`. */
  predicate BlankFrom(s: string, n: nat) {
    forall i :: n <= i < |s| ==> Ignored(s[i])
  }

  /** A phrase that is one token and then blanks parses as that token's
      timepoint. */
  lemma SingleTokenPhrase(cal: Calendar, s: string, t: Token, n: nat)
    requires ScansTo(cal, s, t, n) && BlankFrom(s, n) && IsAnchor(t)
    ensures Parse(cal, s) == Ok(t.value)
  {
    LexSingle(cal, s, t, n);
    ParseOfTokens(cal, s, [t]);
    ParsePointComplete(cal, [t], t.value);
  }

  /** One token and then blanks tokenize to that token alone. */
  lemma LexSingle(cal: Calendar, s: string, t: Token, n: nat)
    requires ScansTo(cal, s, t, n) && BlankFrom(s, n)
    ensures Lex(cal, s) == Ok([t])
  {
    var w := s[n..];
    assert forall i :: 0 <= i < |w| ==> Ignored(w[i]) by {
      forall i | 0 <= i < |w| ensures Ignored(w[i]) {
        assert w[i] == s[n + i];
      }
    }
    LexSkipsBlanks(cal, w, []);
    assert w + [] == w;
    assert Lex(cal, []) == Ok([]);
    LexCons(cal, s, t, n);
    assert [t] + [] == [t];
  }

  /** A phrase that tokenizes parses as its tokens. */
  lemma ParseOfTokens(cal: Calendar, s: string, toks: seq<Token>)
    requires Lex(cal, s) == Ok(toks)
    ensures Parse(cal, s) == ParseTime(cal, toks)
  {
  }

  /** "yesterday", in any case and with trailing blanks, is today - 1. */
  lemma YesterdayPhrase(cal: Calendar, s: string)
    requires StartsWithCI(s, "yesterday") && BlankFrom(s, 9)
    ensures Parse(cal, s) == Ok(cal.today - 1)
  {
    ScanYesterday(cal, s);
    SingleTokenPhrase(cal, s, Yesterday(cal.today - 1), 9);
  }

  /** "today" is today. */
  lemma TodayPhrase(cal: Calendar, s: string)
    requires StartsWithCI(s, "today") && BlankFrom(s, 5)
    ensures Parse(cal, s) == Ok(cal.today)
  {
    ScanToday(cal, s);
    SingleTokenPhrase(cal, s, Today(cal.today), 5);
  }

  /** "tomorrow" is today + 1. */
  lemma TomorrowPhrase(cal: Calendar, s: string)
    requires StartsWithCI(s, "tomorrow") && BlankFrom(s, 8)
    ensures Parse(cal, s) == Ok(cal.today + 1)
  {
    ScanTomorrow(cal, s);
    SingleTokenPhrase(cal, s, Tomorrow(cal.today + 1), 8);
  }

  /** A blank and then a single-token word. */
  lemma LexBlankWord(cal: Calendar, w: string, u: Token)
    requires ScansTo(cal, w, u, |w|)
    ensures Lex(cal, " " + w) == Ok([u])
  {
    LexCons(cal, w, u, |w|);
    assert w[|w|..] == [];
    assert Lex(cal, w[|w|..]) == Ok([]);
    assert [u] + [] == [u];
    LexSkipsBlanks(cal, " ", w);
  }

  /** A count in digits, a blank and a unit word, tokenized. */
  lemma LexCount(cal: Calendar, n: nat, w: string, u: Token)
    requires ScansTo(cal, w, u, |w|)
    ensures Lex(cal, NatToString(n) + " " + w) == Ok([Number(n), u])
  {
    var d := NatToString(n);
    var x := d + " " + w;
    DigitRunOf(d, " " + w);
    assert x == d + (" " + w);
    ScanNumber(cal, x);
    assert x[..|d|] == d;
    assert x[|d|..] == " " + w;
    LexBlankWord(cal, w, u);
    LexCons(cal, x, Number(n), |d|);
    assert [Number(n)] + [u] == [Number(n), u];
  }

  /** "in", a blank and a phrase: an IN token before the phrase's tokens. */
  lemma LexAfterIn(cal: Calendar, s: string)
    requires StartsWithCI(s, "in") && |s| > 2 && Ignored(s[2]) && Lex(cal, s[3..]).Ok?
    ensures Lex(cal, s) == Ok([In] + Lex(cal, s[3..]).value)
  {
    ScanIn(cal, s);
    LexCons(cal, s, In, 2);
    assert s[2..] == [s[2]] + s[3..];
    LexSkipsBlanks(cal, [s[2]], s[3..]);
  }

  /** "in", a blank and a period phrase is today plus the period. */
  lemma InPeriodPhrase(cal: Calendar, s: string, ps: seq<Token>)
    requires StartsWithCI(s, "in") && |s| > 2 && Ignored(s[2])
    requires Lex(cal, s[3..]) == Ok(ps) && PeriodValue(ps).Some?
    ensures Parse(cal, s) == Ok(cal.today + PeriodValue(ps).value)
  {
    LexAfterIn(cal, s);
    InPhrase(cal, ps);
  }

  /** "N weeks", in any case, is a NUMBER and a WEEK token. */
  lemma WeeksTokens(cal: Calendar, n: nat, w: string)
    requires StartsWithCI(w, "weeks") && |w| == 5
    ensures Lex(cal, NatToString(n) + " " + w) == Ok([Number(n), Week(7)])
  {
    assert StartsWithCI(w, "week") && Lower(w[4]) == 's';
    ScanWeek(cal, w);
    LexCount(cal, n, w, Week(7));
  }

  /** A word that is no keyword is no time: "frobnicate", alone or before
      a valid word, stops the phrase with a lexical error where it begins. */
  lemma FrobnicatePhrases(cal: Calendar)
    ensures Parse(cal, Frobnicate) == Err(LexError(Frobnicate))
    ensures Parse(cal, Frobnicate + " tomorrow") == Err(LexError(Frobnicate + " tomorrow"))
  {
    var s := Frobnicate + " tomorrow";
    assert s[..|Frobnicate|] == Frobnicate;
    assert 'y' !in s && 'Y' !in s;
    FrobnicateUnmatched(s);
    LexStray(cal, s);
    assert Frobnicate[..|Frobnicate|] == Frobnicate;
    FrobnicateUnmatched(Frobnicate);
    LexStray(cal, Frobnicate);
  }

  /** Tokens scanned before an unmatched word do not rescue the phrase:
      "tomorrow frobnicate" fails where "frobnicate" begins. */
  lemma TomorrowFrobnicatePhrase(cal: Calendar)
    ensures Parse(cal, "tomorrow " + Frobnicate) == Err(LexError(Frobnicate))
  {
    var s := "tomorrow " + Frobnicate;
    assert StartsWithCI(s, "tomorrow");
    ScanTomorrow(cal, s);
    assert s[8..][1..] == Frobnicate;
    assert Frobnicate[..|Frobnicate|] == Frobnicate;
    FrobnicateUnmatched(Frobnicate);
    assert Reaches(cal, s[8..], Frobnicate);
    LexFailsWhereReached(cal, s, Frobnicate);
  }

  /** A date that `Date.parse` rejects aborts the phrase with that lexeme:
      "30/2" in a calendar without a 30 February. */
  lemma InvalidDatePhrase(cal: Calendar)
    requires cal.parseDate("30/2").None?
    ensures Parse(cal, "30/2") == Err(InvalidDate("30/2"))
  {
    var s := "30/2";
    assert DigitRun(s) == 2 && DigitRun(s[3..]) == 1;
    assert DateLength(s) == 4;
    assert s[..4] == s;
    ScanDate(cal, s);
    LexInvalidDate(cal, s, s);
  }
}
