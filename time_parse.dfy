/** The `TimeParse` grammar of parser.rb, as a deterministic recursive
    descent over the token sequence the tokenizer produces.

      time       : timepoint
                 | timeperiod FROM timepoint | timeperiod AFTER timepoint
                 | timeperiod TO timepoint
                 | IN timeperiod
      timepoint  : DATE | TODAY | YESTERDAY | TOMORROW | WEEKDAY | MONTHDAY
                 | NEXT WEEKDAY | NEXT MONTHDAY
      timeunit   : DAY | WEEK | MONTH
      timeperiod : timeunit | NUMBER timeunit | ENUMBER timeunit

    Values are computed bottom-up as the rule actions do: a period is a
    number of days, a point is a day ordinal, and `Date ± Integer` is
    integer addition. The first token decides the alternative of `time`,
    so the descent never backtracks. */
module TimeParse {
  import opened Text
  import opened TimeLex

  predicate IsUnit(t: Token) { t.Day? || t.Week? || t.Month? }

  /** A count in front of a unit. */
  predicate IsCount(t: Token) { t.Number? || t.ENumber? }

  /** A token that is a timepoint on its own. */
  predicate IsAnchor(t: Token) {
    t.Date? || t.Today? || t.Yesterday? || t.Tomorrow? || t.Weekday? || t.MonthDay?
  }

  /** The connectors between a period and a point. */
  predicate IsOffset(t: Token) { t == From || t == After || t == To }

  /** `timeperiod` starting at token `i`: its value in days and the index
      after it. */
  function ParsePeriod(toks: seq<Token>, i: nat): (r: Result<(int, nat), Error>)
    ensures r.Ok? ==> i < r.value.1 <= |toks|
    ensures r.Err? ==> r.error.GrammarError? && i <= r.error.position <= i + 1
    ensures r.Err? && i <= |toks| ==> r.error.position <= |toks|
  {
    if i < |toks| && IsUnit(toks[i]) then Ok((toks[i].value, i + 1))
    else if i < |toks| && IsCount(toks[i]) then
      if i + 1 < |toks| && IsUnit(toks[i + 1]) then Ok((toks[i].value * toks[i + 1].value, i + 2))
      else Err(GrammarError(i + 1))
    else Err(GrammarError(i))
  }

  /** `timepoint` starting at token `i`: its day and the index after it. */
  function ParsePoint(cal: Calendar, toks: seq<Token>, i: nat): (r: Result<(int, nat), Error>)
    ensures r.Ok? ==> i < r.value.1 <= |toks|
    ensures r.Err? ==> r.error.GrammarError? && i <= r.error.position <= i + 1
    ensures r.Err? && i <= |toks| ==> r.error.position <= |toks|
  {
    if i < |toks| && IsAnchor(toks[i]) then Ok((toks[i].value, i + 1))
    else if i < |toks| && toks[i] == Next then
      if i + 1 < |toks| && toks[i + 1].Weekday? then Ok((toks[i + 1].value + 7, i + 2))
      else if i + 1 < |toks| && toks[i + 1].MonthDay? then Ok((cal.nextMonth(toks[i + 1].value), i + 2))
      else Err(GrammarError(i + 1))
    else Err(GrammarError(i))
  }

  /** The whole input must be consumed. */
  function AtEnd(toks: seq<Token>, j: nat): Result<(), Error> {
    if j == |toks| then Ok(()) else Err(GrammarError(j))
  }

  /** `time`: the day a whole token sequence denotes. */
  function ParseTime(cal: Calendar, toks: seq<Token>): (r: Result<int, Error>)
    ensures r.Err? ==> r.error.GrammarError? && r.error.position <= |toks|
  {
    if toks == [] then Err(GrammarError(0))
    else if toks[0] == In then
      var (p, j) :- ParsePeriod(toks, 1);
      var _ :- AtEnd(toks, j);
      Ok(cal.today + p)
    else if IsUnit(toks[0]) || IsCount(toks[0]) then
      var (p, j) :- ParsePeriod(toks, 0);
      if j < |toks| && IsOffset(toks[j]) then
        var (d, k) :- ParsePoint(cal, toks, j + 1);
        var _ :- AtEnd(toks, k);
        Ok(if toks[j] == To then d - p else d + p)
      else Err(GrammarError(j))
    else
      var (d, k) :- ParsePoint(cal, toks, 0);
      var _ :- AtEnd(toks, k);
      Ok(d)
  }

  /** A phrase's day: tokenize, then parse. */
  function Parse(cal: Calendar, s: string): (r: Result<int, Error>)
    ensures Lex(cal, s).Err? ==> r == Err(Lex(cal, s).error)
    ensures r.Err? && r.error.GrammarError? ==> Lex(cal, s).Ok? && r.error.position <= |Lex(cal, s).value|
  {
    var toks :- Lex(cal, s);
    ParseTime(cal, toks)
  }
}

/** The grammar read as a relation between token sequences and values,
    one production at a time, and the proof that the descent computes
    exactly that relation. */
module TimeGrammar {
  import opened Text
  import opened TimeLex
  import opened TimeParse

  /** `timeunit` and the two `timeperiod` productions. */
  function PeriodValue(toks: seq<Token>): Option<int> {
    if |toks| == 1 && IsUnit(toks[0]) then Some(toks[0].value)
    else if |toks| == 2 && IsCount(toks[0]) && IsUnit(toks[1]) then Some(toks[0].value * toks[1].value)
    else None
  }

  /** The `timepoint` productions. */
  function PointValue(cal: Calendar, toks: seq<Token>): Option<int> {
    if |toks| == 1 && IsAnchor(toks[0]) then Some(toks[0].value)
    else if |toks| == 2 && toks[0] == Next && toks[1].Weekday? then Some(toks[1].value + 7)
    else if |toks| == 2 && toks[0] == Next && toks[1].MonthDay? then Some(cal.nextMonth(toks[1].value))
    else None
  }

  /** `timeperiod FROM|AFTER|TO timepoint` with the connector at index `m`. */
  predicate OffsetAt(cal: Calendar, toks: seq<Token>, m: nat, v: int) {
    m < |toks| && IsOffset(toks[m])
    && PeriodValue(toks[..m]).Some? && PointValue(cal, toks[m + 1..]).Some?
    && var p := PeriodValue(toks[..m]).value;
       var d := PointValue(cal, toks[m + 1..]).value;
       v == (if toks[m] == To then d - p else d + p)
  }

  /** `time` derives the token sequence with value `v`. */
  predicate Derives(cal: Calendar, toks: seq<Token>, v: int) {
    PointValue(cal, toks) == Some(v)
    || (toks != [] && toks[0] == In && PeriodValue(toks[1..]).Some? && v == cal.today + PeriodValue(toks[1..]).value)
    || exists m: nat | m < |toks| :: OffsetAt(cal, toks, m, v)
  }

  /** The period parser reads exactly a `timeperiod`. */
  lemma ParsePeriodExact(toks: seq<Token>, i: nat)
    requires i <= |toks|
    ensures ParsePeriod(toks, i).Ok? ==>
      PeriodValue(toks[i..ParsePeriod(toks, i).value.1]) == Some(ParsePeriod(toks, i).value.0)
    ensures forall j :: i <= j <= |toks| && PeriodValue(toks[i..j]).Some? ==>
      ParsePeriod(toks, i) == Ok((PeriodValue(toks[i..j]).value, j))
  {
    forall j | i <= j <= |toks| && PeriodValue(toks[i..j]).Some?
      ensures ParsePeriod(toks, i) == Ok((PeriodValue(toks[i..j]).value, j))
    {
      assert toks[i..j][0] == toks[i];
      if j - i == 2 {
        assert toks[i..j][1] == toks[i + 1];
      }
    }
    if ParsePeriod(toks, i).Ok? {
      var j := ParsePeriod(toks, i).value.1;
      assert toks[i..j][0] == toks[i];
      if j - i == 2 {
        assert toks[i..j][1] == toks[i + 1];
      }
    }
  }

  /** The point parser reads exactly a `timepoint`. */
  lemma ParsePointExact(cal: Calendar, toks: seq<Token>, i: nat)
    requires i <= |toks|
    ensures ParsePoint(cal, toks, i).Ok? ==>
      PointValue(cal, toks[i..ParsePoint(cal, toks, i).value.1]) == Some(ParsePoint(cal, toks, i).value.0)
    ensures forall j :: i <= j <= |toks| && PointValue(cal, toks[i..j]).Some? ==>
      ParsePoint(cal, toks, i) == Ok((PointValue(cal, toks[i..j]).value, j))
  {
    forall j | i <= j <= |toks| && PointValue(cal, toks[i..j]).Some?
      ensures ParsePoint(cal, toks, i) == Ok((PointValue(cal, toks[i..j]).value, j))
    {
      assert toks[i..j][0] == toks[i];
      if j - i == 2 {
        assert toks[i..j][1] == toks[i + 1];
      }
    }
    if ParsePoint(cal, toks, i).Ok? {
      var j := ParsePoint(cal, toks, i).value.1;
      assert toks[i..j][0] == toks[i];
      if j - i == 2 {
        assert toks[i..j][1] == toks[i + 1];
      }
    }
  }

  /** Every value the parser returns is derived by the grammar. */
  lemma ParseTimeSound(cal: Calendar, toks: seq<Token>)
    ensures ParseTime(cal, toks).Ok? ==> Derives(cal, toks, ParseTime(cal, toks).value)
  {
    if ParseTime(cal, toks).Ok? {
      var v := ParseTime(cal, toks).value;
      if toks[0] == In {
        ParsePeriodExact(toks, 1);
      } else if IsUnit(toks[0]) || IsCount(toks[0]) {
        ParsePeriodExact(toks, 0);
        var m := ParsePeriod(toks, 0).value.1;
        ParsePointExact(cal, toks, m + 1);
        assert toks[0..m] == toks[..m];
        assert OffsetAt(cal, toks, m, v);
      } else {
        ParsePointExact(cal, toks, 0);
        assert toks[0..|toks|] == toks;
      }
    }
  }

  lemma ParsePointComplete(cal: Calendar, toks: seq<Token>, v: int)
    requires PointValue(cal, toks) == Some(v)
    ensures ParseTime(cal, toks) == Ok(v)
  {
    ParsePointExact(cal, toks, 0);
    assert toks[0..|toks|] == toks;
  }

  lemma ParseInComplete(cal: Calendar, toks: seq<Token>, v: int)
    requires toks != [] && toks[0] == In && PeriodValue(toks[1..]).Some?
    requires v == cal.today + PeriodValue(toks[1..]).value
    ensures ParseTime(cal, toks) == Ok(v)
  {
    ParsePeriodExact(toks, 1);
  }

  lemma ParseOffsetComplete(cal: Calendar, toks: seq<Token>, m: nat, v: int)
    requires OffsetAt(cal, toks, m, v)
    ensures ParseTime(cal, toks) == Ok(v)
  {
    ParsePeriodExact(toks, 0);
    assert toks[0..m] == toks[..m];
    ParsePointExact(cal, toks, m + 1);
    assert toks[m + 1..|toks|] == toks[m + 1..];
  }

  /** Every value the grammar derives is the one the parser returns. */
  lemma ParseTimeComplete(cal: Calendar, toks: seq<Token>, v: int)
    requires Derives(cal, toks, v)
    ensures ParseTime(cal, toks) == Ok(v)
  {
    if PointValue(cal, toks) == Some(v) {
      ParsePointComplete(cal, toks, v);
    } else if toks != [] && toks[0] == In && PeriodValue(toks[1..]).Some? && v == cal.today + PeriodValue(toks[1..]).value {
      ParseInComplete(cal, toks, v);
    } else {
      var m: nat :| m < |toks| && OffsetAt(cal, toks, m, v);
      ParseOffsetComplete(cal, toks, m, v);
    }
  }

  /** The descent computes exactly the grammar's relation. */
  lemma ParseTimeIffDerives(cal: Calendar, toks: seq<Token>, v: int)
    ensures ParseTime(cal, toks) == Ok(v) <==> Derives(cal, toks, v)
  {
    ParseTimeSound(cal, toks);
    if Derives(cal, toks, v) {
      ParseTimeComplete(cal, toks, v);
    }
  }

  /** The grammar is unambiguous: a token sequence has at most one value. */
  lemma DerivesUnique(cal: Calendar, toks: seq<Token>, v: int, w: int)
    requires Derives(cal, toks, v) && Derives(cal, toks, w)
    ensures v == w
  {
    ParseTimeComplete(cal, toks, v);
    ParseTimeComplete(cal, toks, w);
  }
}
