/** The `TimeLex` tokenizer of parser.rb.

    The tokenizer skips spaces, tabs and newlines, then tries the token
    patterns in the order they are declared and takes the first one that
    matches at the current position. Each pattern is written out below as a
    matcher that returns the length of its match (0 when it does not match:
    no pattern matches the empty string), following the regular
    expression's greedy, backtracking semantics. The value a token carries
    is computed at tokenization time, as the source's token blocks do.

    The clock (`Date.today`) and Ruby's date library (`Date.parse`,
    `Date#next_month`) are not part of this model: they are supplied in a
    `Calendar`. Dates are integer day ordinals. */
module TimeLex {
  import opened Text

  /** Today's day ordinal, `Date.parse` (None where Ruby raises "invalid
      date") and `Date#next_month`. */
  datatype Calendar = Calendar(today: int, parseDate: string -> Option<int>, nextMonth: int -> int)

  /** The token kinds, in the order parser.rb declares them; FirstMatch
      tries them in this order. */
  datatype Kind =
    | DAY | WEEK | MONTH | DATE | NEXT | MONTHDAY | YESTERDAY | TODAY | TOMORROW
    | WEEKDAY | NUMBER | IN | FROM | TO | AFTER | ENUMBER

  /** A token with the value its action stored in it: a unit multiplier,
      a date, or a count. Connectors carry nothing. */
  datatype Token =
    | Day(value: int) | Week(value: int) | Month(value: int)
    | Date(value: int) | Next | MonthDay(value: int)
    | Yesterday(value: int) | Today(value: int) | Tomorrow(value: int) | Weekday(value: int)
    | Number(value: int) | In | From | To | After | ENumber(value: int)

  /** Why a phrase has no value. `LexError` carries the unmatched remainder
      of the input (its offset is the input's length minus the remainder's);
      `InvalidDate` is the exception `Date.parse` raises inside a token
      action; `GrammarError` carries the index of the unexpected token, or
      the token count for an unexpected end of input. */
  datatype Error = LexError(rest: string) | InvalidDate(lexeme: string) | GrammarError(position: nat)

  /** `ignore " \t\n"` */
  predicate Ignored(c: char) { c == ' ' || c == '\t' || c == '\n' }

  predicate IsDateSep(c: char) { c == '/' || c == '-' }

  /** Every character a pattern can consume. */
  predicate IsLexemeChar(c: char) { IsWordChar(c) || IsDateSep(c) }

  predicate AllLexemeChars(s: string, n: nat)
    requires n <= |s|
  {
    forall i :: 0 <= i < n ==> IsLexemeChar(s[i])
  }

  /** `w` is made of small ASCII letters. */
  predicate IsLowerWord(w: string) {
    |w| == 0 || ('a' <= w[0] <= 'z' && IsLowerWord(w[1..]))
  }

  lemma {:induction false} LowerWordChars(w: string)
    requires IsLowerWord(w)
    ensures forall i :: 0 <= i < |w| ==> 'a' <= w[i] <= 'z'
    decreases |w|
  {
    if |w| > 0 {
      LowerWordChars(w[1..]);
      assert forall i :: 1 <= i < |w| ==> w[i] == w[1..][i - 1];
    }
  }

  /** A literal word, `/word/i`. */
  function Word(s: string, w: string): (n: nat)
    requires IsLowerWord(w)
    ensures n <= |s| && AllLexemeChars(s, n)
    ensures n > 0 <==> |w| > 0 && StartsWithCI(s, w)
    ensures n > 0 ==> n == |w|
  {
    LowerWordChars(w);
    if |w| > 0 && StartsWithCI(s, w) then
      assert forall i :: 0 <= i < |w| ==> IsWordChar(s[i]) by {
        forall i | 0 <= i < |w| ensures IsWordChar(s[i]) {
          assert Lower(s[i]) == w[i];
        }
      }
      |w|
    else 0
  }

  /** A word with an optional plural `s`, `/words?/i`. */
  function WordS(s: string, w: string): (n: nat)
    requires IsLowerWord(w)
    ensures n <= |s| && AllLexemeChars(s, n)
    ensures n > 0 <==> |w| > 0 && StartsWithCI(s, w)
    ensures n > 0 ==> n == if |w| < |s| && Lower(s[|w|]) == 's' then |w| + 1 else |w|
  {
    var k := Word(s, w);
    if k > 0 && k < |s| && Lower(s[k]) == 's' then k + 1 else k
  }

  /** `\d\d?`: one digit, and a second one when there is one. */
  function Digits12(s: string): (n: nat)
    ensures n <= 2 && n <= |s| && AllLexemeChars(s, n)
    ensures n == if DigitRun(s) < 2 then DigitRun(s) else 2
  {
    if DigitRun(s) < 2 then DigitRun(s) else 2
  }

  /** DATE, `\d\d?[\/-]\d\d?([\/-]\d\d(\d\d)?)?`: day and month, then an
      optional two- or four-digit year. */
  function DateLength(s: string): (n: nat)
    ensures n <= |s| && AllLexemeChars(s, n)
    ensures n > 0 ==> IsDigit(s[0]) && n >= 3
    ensures var a := Digits12(s);
      n > 0 <==> a > 0 && a + 1 < |s| && IsDateSep(s[a]) && IsDigit(s[a + 1])
    ensures n > 0 ==>
      var a := Digits12(s);
      var p := a + 1 + Digits12(s[a + 1..]);
      p <= |s| && n == p + YearLength(s[p..])
  {
    var a := Digits12(s);
    if a == 0 || a >= |s| || !IsDateSep(s[a]) then 0
    else
      var b := Digits12(s[a + 1..]);
      if b == 0 then 0
      else
        var p := a + 1 + b;
        var y := YearLength(s[p..]);
        DateChars(s, a, p, y);
        p + y
  }

  /** Day, separator, month and year are all lexeme characters. */
  lemma DateChars(s: string, a: nat, p: nat, y: nat)
    requires a < p <= |s| && y <= |s| - p && IsDateSep(s[a])
    requires AllLexemeChars(s, a) && AllLexemeChars(s[a + 1..], p - a - 1) && AllLexemeChars(s[p..], y)
    ensures AllLexemeChars(s, p + y)
  {
    forall i | 0 <= i < p + y ensures IsLexemeChar(s[i]) {
      if a < i < p {
        assert s[i] == s[a + 1..][i - a - 1];
      } else if i >= p {
        assert s[i] == s[p..][i - p];
      }
    }
  }

  /** The optional year of a DATE, `([\/-]\d\d(\d\d)?)?`. */
  function YearLength(s: string): (n: nat)
    ensures n <= |s| && AllLexemeChars(s, n)
    ensures n == 0 || n == 3 || n == 5
    ensures n > 0 <==> |s| >= 3 && IsDateSep(s[0]) && IsDigit(s[1]) && IsDigit(s[2])
    ensures n == 5 <==> |s| >= 5 && n > 0 && IsDigit(s[3]) && IsDigit(s[4])
  {
    if |s| >= 3 && IsDateSep(s[0]) && IsDigit(s[1]) && IsDigit(s[2]) then
      if |s| >= 5 && IsDigit(s[3]) && IsDigit(s[4]) then 5 else 3
    else 0
  }

  /** MONTHDAY, `(\d\d?th)|(\d\d?nd)|(\d\d?st)`. No `rd`: "3rd" is not one. */
  function MonthDayLength(s: string): (n: nat)
    ensures n <= |s| && AllLexemeChars(s, n)
    ensures n > 0 <==> Digits12(s) > 0 && (StartsWithCI(s[Digits12(s)..], "th") ||
                                          StartsWithCI(s[Digits12(s)..], "nd") ||
                                          StartsWithCI(s[Digits12(s)..], "st"))
    ensures n > 0 ==> n == Digits12(s) + 2
  {
    var a := Digits12(s);
    if a > 0 && (Word(s[a..], "th") > 0 || Word(s[a..], "nd") > 0 || Word(s[a..], "st") > 0) then
      assert AllLexemeChars(s[a..], 2);
      a + 2
    else 0
  }

  /** `s[..m]` ends in "day", ignoring case. */
  predicate EndsInDay(s: string, m: nat)
    requires m <= |s|
  {
    m >= 3 && StartsWithCI(s[m - 3..], "day")
  }

  /** The longest `n`, 4 <= n <= k, such that `s[..n]` ends in "day". */
  function DayEnding(s: string, k: nat): (n: nat)
    requires k <= |s|
    ensures n <= k
    ensures n > 0 ==> n >= 4 && EndsInDay(s, n)
    ensures forall m :: n < m <= k && m >= 4 ==> !EndsInDay(s, m)
    decreases k
  {
    if k < 4 then 0
    else if EndsInDay(s, k) then k
    else DayEnding(s, k - 1)
  }

  /** WEEKDAY, `\w+day`: the greedy `\w+` backs off to the last "day"
      inside the run of word characters. */
  function WeekdayLength(s: string): (n: nat)
    ensures n <= |s| && AllLexemeChars(s, n)
    ensures n > 0 ==> n >= 4 && n <= WordRun(s) && EndsInDay(s, n)
    ensures forall m :: n < m <= WordRun(s) && m >= 4 ==> !EndsInDay(s, m)
  {
    DayEnding(s, WordRun(s))
  }

  /** TO, `/to(?!d)/i`: "to" not followed by a "d" of either case. */
  function ToLength(s: string): (n: nat)
    ensures n <= |s| && AllLexemeChars(s, n)
    ensures n > 0 <==> StartsWithCI(s, "to") && !(|s| > 2 && Lower(s[2]) == 'd')
    ensures n > 0 ==> n == 2
  {
    if Word(s, "to") > 0 && !(|s| > 2 && Lower(s[2]) == 'd') then 2 else 0
  }

  /** The ENUMBER alternatives `(the)|a(?= )|(one)|(two)|…|(ten)` in the
      order the regular expression tries them, each with the number the
      token action gives it. */
  const Numerals: seq<(string, int)> :=
    [("the", 1), ("a", 1), ("one", 1), ("two", 2), ("three", 3), ("four", 4),
     ("five", 5), ("six", 6), ("seven", 7), ("eight", 8), ("nine", 9), ("ten", 10)]

  /** The alternative `w` matches at the start of `s`: "a" only when a
      space follows it (the lookahead `a(?= )`). */
  predicate NumeralAt(s: string, w: string) {
    StartsWithCI(s, w) && (w == "a" ==> |s| > 1 && s[1] == ' ')
  }

  lemma NumeralWords()
    ensures forall i :: 0 <= i < |Numerals| ==> IsLowerWord(Numerals[i].0)
  {
  }

  /** The first alternative from the `i`-th on that matches. */
  function NumeralFrom(s: string, i: nat): (r: Option<nat>)
    requires i <= |Numerals|
    ensures r.Some? ==> i <= r.value < |Numerals| && NumeralAt(s, Numerals[r.value].0)
    ensures r.Some? ==> forall j :: i <= j < r.value ==> !NumeralAt(s, Numerals[j].0)
    ensures r.None? ==> forall j :: i <= j < |Numerals| ==> !NumeralAt(s, Numerals[j].0)
    decreases |Numerals| - i
  {
    if i == |Numerals| then None
    else if NumeralAt(s, Numerals[i].0) then Some(i)
    else NumeralFrom(s, i + 1)
  }

  /** ENUMBER: the match is the first alternative that matches, and there
      is none when no alternative does. */
  function ENumberLength(s: string): (n: nat)
    ensures n <= |s| && AllLexemeChars(s, n)
    ensures n == 0 <==> forall i :: 0 <= i < |Numerals| ==> !NumeralAt(s, Numerals[i].0)
    ensures n > 0 ==> exists i :: 0 <= i < |Numerals| && NumeralAt(s, Numerals[i].0) &&
                                   n == |Numerals[i].0| &&
                                   forall j :: 0 <= j < i ==> !NumeralAt(s, Numerals[j].0)
  {
    match NumeralFrom(s, 0)
    case None => 0
    case Some(i) =>
      NumeralWords();
      Word(s, Numerals[i].0)
  }

  /** The length of the match of the pattern of kind `k` at the start of `s`. */
  function PatternLength(k: Kind, s: string): (n: nat)
    ensures n <= |s| && AllLexemeChars(s, n)
  {
    match k
    case DAY => WordS(s, "day")
    case WEEK => WordS(s, "week")
    case MONTH => WordS(s, "month")
    case DATE => DateLength(s)
    case NEXT => Word(s, "next")
    case MONTHDAY => MonthDayLength(s)
    case YESTERDAY => Word(s, "yesterday")
    case TODAY => Word(s, "today")
    case TOMORROW => Word(s, "tomorrow")
    case WEEKDAY => WeekdayLength(s)
    case NUMBER => DigitRun(s)
    case IN => Word(s, "in")
    case FROM => Word(s, "from")
    case TO => ToLength(s)
    case AFTER => Word(s, "after")
    case ENUMBER => ENumberLength(s)
  }

  /** The kinds in the order parser.rb declares their patterns. */
  const Order: seq<Kind> :=
    [DAY, WEEK, MONTH, DATE, NEXT, MONTHDAY, YESTERDAY, TODAY, TOMORROW,
     WEEKDAY, NUMBER, IN, FROM, TO, AFTER, ENUMBER]

  /** Where the pattern of kind `k` is declared. */
  function Rank(k: Kind): (i: nat)
    ensures i < |Order|
  {
    match k
    case DAY => 0
    case WEEK => 1
    case MONTH => 2
    case DATE => 3
    case NEXT => 4
    case MONTHDAY => 5
    case YESTERDAY => 6
    case TODAY => 7
    case TOMORROW => 8
    case WEEKDAY => 9
    case NUMBER => 10
    case IN => 11
    case FROM => 12
    case TO => 13
    case AFTER => 14
    case ENUMBER => 15
  }

  /** Every kind is listed at its rank. */
  lemma RankInOrder(k: Kind)
    ensures Order[Rank(k)] == k
  {
  }

  /** `Order` lists every kind once. */
  lemma RankOrder(i: nat)
    requires i < |Order|
    ensures Rank(Order[i]) == i
  {
  }

  /** No pattern declared before position `i` of `Order` matches at the
      start of `s`; FailsBeforeAll states it as a quantifier. */
  predicate FailsBefore(s: string, i: nat)
    requires i <= |Order|
  {
    i == 0 || (FailsBefore(s, i - 1) && PatternLength(Order[i - 1], s) == 0)
  }

  /** FailsBefore says every pattern declared before position `i` fails. */
  lemma {:induction false} FailsBeforeAll(s: string, i: nat)
    requires i <= |Order|
    ensures FailsBefore(s, i) <==> forall j :: 0 <= j < i ==> PatternLength(Order[j], s) == 0
    decreases i
  {
    if i > 0 {
      FailsBeforeAll(s, i - 1);
    }
  }

  /** The position in `Order[i..]` of the first pattern that matches at the
      start of `s`. */
  function MatchFrom(s: string, i: nat): (r: Option<nat>)
    requires i <= |Order| && FailsBefore(s, i)
    ensures r.Some? ==> i <= r.value < |Order| && PatternLength(Order[r.value], s) > 0
    ensures r.Some? ==> FailsBefore(s, r.value)
    ensures r.None? ==> FailsBefore(s, |Order|)
    decreases |Order| - i
  {
    if i == |Order| then None
    else
      RankOrder(i);
      if PatternLength(Order[i], s) > 0 then Some(i)
      else MatchFrom(s, i + 1)
  }

  /** The first pattern, in declaration order, that matches at the start of
      `s`, with the length of its match: every pattern declared before it
      fails there, and there is none only when no pattern matches. */
  function FirstMatch(s: string): (r: Option<(Kind, nat)>)
    ensures r.Some? ==> 0 < r.value.1 == PatternLength(r.value.0, s)
    ensures r.Some? ==> FailsBefore(s, Rank(r.value.0))
    ensures r.None? <==> FailsBefore(s, |Order|)
  {
    match MatchFrom(s, 0)
    case None => None
    case Some(i) =>
      RankOrder(i);
      FailsBeforeAll(s, |Order|);
      Some((Order[i], PatternLength(Order[i], s)))
  }

  /** The value of an ENUMBER lexeme: the `case` of parser.rb:72-97, whose
      `when` patterns are unanchored, case-insensitive and tried in order. */
  function ENumberValue(lexeme: string): int {
    NumeralCase(Lowered(lexeme))
  }

  /** The `case` on the lower-cased lexeme. The source repeats the `two` arm;
      the repeat can never be reached and is left out. Ruby's `case` would
      give nil where this gives 0: no ENUMBER lexeme gets there
      (ENumberValues). */
  function NumeralCase(l: string): (r: int)
    ensures 0 <= r <= 10
  {
    if Contains(l, "the") then 1
    else if Contains(l, "a") || Contains(l, "one") then 1
    else if Contains(l, "two") then 2
    else if Contains(l, "three") then 3
    else if Contains(l, "four") then 4
    else if Contains(l, "five") then 5
    else if Contains(l, "six") then 6
    else if Contains(l, "seven") then 7
    else if Contains(l, "eight") then 8
    else if Contains(l, "nine") then 9
    else if Contains(l, "ten") then 10
    else 0
  }

  /** The kind of pattern a token comes from. */
  function KindOf(t: Token): Kind {
    match t
    case Day(_) => DAY
    case Week(_) => WEEK
    case Month(_) => MONTH
    case Date(_) => DATE
    case Next => NEXT
    case MonthDay(_) => MONTHDAY
    case Yesterday(_) => YESTERDAY
    case Today(_) => TODAY
    case Tomorrow(_) => TOMORROW
    case Weekday(_) => WEEKDAY
    case Number(_) => NUMBER
    case In => IN
    case From => FROM
    case To => TO
    case After => AFTER
    case ENumber(_) => ENUMBER
  }

  /** The token action of kind `k` on its lexeme. DATE, MONTHDAY and
      WEEKDAY call `Date.parse`, which raises on a lexeme that names no date. */
  function MakeToken(cal: Calendar, k: Kind, lexeme: string): (r: Result<Token, Error>)
    requires k == NUMBER ==> AllDigits(lexeme)
    ensures r.Err? <==> (k == DATE || k == MONTHDAY || k == WEEKDAY) && cal.parseDate(lexeme).None?
    ensures r.Err? ==> r.error == InvalidDate(lexeme)
    ensures r.Ok? ==> KindOf(r.value) == k
    ensures r.Ok? && (k == DATE || k == MONTHDAY || k == WEEKDAY) ==> r.value.value == cal.parseDate(lexeme).value
    ensures r.Ok? && k == NUMBER ==> r.value.value == DigitsValue(lexeme)
    ensures r.Ok? && k == ENUMBER ==> r.value.value == ENumberValue(lexeme)
  {
    match k
    case DAY => Ok(Day(1))
    case WEEK => Ok(Week(7))
    case MONTH => Ok(Month(30))
    case NEXT => Ok(Next)
    case YESTERDAY => Ok(Yesterday(cal.today - 1))
    case TODAY => Ok(Today(cal.today))
    case TOMORROW => Ok(Tomorrow(cal.today + 1))
    case NUMBER => Ok(Number(DigitsValue(lexeme)))
    case IN => Ok(In)
    case FROM => Ok(From)
    case TO => Ok(To)
    case AFTER => Ok(After)
    case ENUMBER => Ok(ENumber(ENumberValue(lexeme)))
    case _ =>
      match cal.parseDate(lexeme)
      case None => Err(InvalidDate(lexeme))
      case Some(d) => Ok(if k == DATE then Date(d) else if k == MONTHDAY then MonthDay(d) else Weekday(d))
  }

  /** One token at the start of `s`, with the number of characters it
      consumes. */
  function Scan(cal: Calendar, s: string): (r: Result<(Token, nat), Error>)
    requires s != [] && !Ignored(s[0])
    ensures r.Ok? ==> 0 < r.value.1 <= |s|
    ensures r == Err(LexError(s)) <==> FirstMatch(s).None?
    ensures r.Err? ==> r.error == LexError(s) || r.error.InvalidDate?
  {
    match FirstMatch(s)
    case None => Err(LexError(s))
    case Some((k, n)) =>
      assert k == NUMBER ==> AllDigits(s[..n]);
      var t :- MakeToken(cal, k, s[..n]);
      Ok((t, n))
  }

  /** The whole phrase as tokens, or the first error. */
  function Lex(cal: Calendar, s: string): (r: Result<seq<Token>, Error>)
    ensures r.Ok? ==> |r.value| <= |s|
    ensures r.Err? ==> r.error.LexError? || r.error.InvalidDate?
    decreases |s|
  {
    if s == [] then Ok([])
    else if Ignored(s[0]) then Lex(cal, s[1..])
    else
      var (t, n) :- Scan(cal, s);
      var rest :- Lex(cal, s[n..]);
      Ok([t] + rest)
  }
}

module TimeLexFacts {
  import opened Text
  import opened TimeLex

  /** The lower-cased first characters with which the pattern of kind `k`
      can match. */
  predicate CanStart(k: Kind, c: char) {
    match k
    case DAY => c == 'd'
    case WEEK => c == 'w'
    case MONTH => c == 'm'
    case DATE => IsDigit(c)
    case NEXT => c == 'n'
    case MONTHDAY => IsDigit(c)
    case YESTERDAY => c == 'y'
    case TODAY => c == 't'
    case TOMORROW => c == 't'
    case WEEKDAY => IsWordChar(c)
    case NUMBER => IsDigit(c)
    case IN => c == 'i'
    case FROM => c == 'f'
    case TO => c == 't'
    case AFTER => c == 'a'
    case ENUMBER => c == 't' || c == 'a' || c == 'o' || c == 'f' || c == 's' || c == 'e' || c == 'n'
  }

  /** A pattern matches only at a character it can start with. */
  lemma StartChar(k: Kind, s: string)
    ensures PatternLength(k, s) > 0 ==> s != [] && CanStart(k, Lower(s[0]))
  {
    if PatternLength(k, s) > 0 {
      if k.DAY? || k.WEEK? || k.MONTH? {
        UnitStart(k, s);
      } else if k.DATE? || k.MONTHDAY? || k.WEEKDAY? || k.NUMBER? {
        RunStart(k, s);
      } else if k.NEXT? || k.YESTERDAY? || k.TODAY? || k.TOMORROW? {
        DayWordStart(k, s);
      } else if k.IN? || k.FROM? || k.TO? || k.AFTER? {
        LinkStart(k, s);
      } else {
        var i := NumeralFrom(s, 0).value;
        assert NumeralAt(s, Numerals[i].0);
      }
    }
  }

  lemma UnitStart(k: Kind, s: string)
    requires (k.DAY? || k.WEEK? || k.MONTH?) && PatternLength(k, s) > 0
    ensures s != [] && CanStart(k, Lower(s[0]))
  {
    match k
    case DAY => assert StartsWithCI(s, "day");
    case WEEK => assert StartsWithCI(s, "week");
    case MONTH => assert StartsWithCI(s, "month");
  }

  lemma RunStart(k: Kind, s: string)
    requires (k.DATE? || k.MONTHDAY? || k.WEEKDAY? || k.NUMBER?) && PatternLength(k, s) > 0
    ensures s != [] && CanStart(k, Lower(s[0]))
  {
  }

  lemma DayWordStart(k: Kind, s: string)
    requires (k.NEXT? || k.YESTERDAY? || k.TODAY? || k.TOMORROW?) && PatternLength(k, s) > 0
    ensures s != [] && CanStart(k, Lower(s[0]))
  {
    match k
    case NEXT => assert StartsWithCI(s, "next");
    case YESTERDAY => assert StartsWithCI(s, "yesterday");
    case TODAY => assert StartsWithCI(s, "today");
    case TOMORROW => assert StartsWithCI(s, "tomorrow");
  }

  lemma LinkStart(k: Kind, s: string)
    requires (k.IN? || k.FROM? || k.TO? || k.AFTER?) && PatternLength(k, s) > 0
    ensures s != [] && CanStart(k, Lower(s[0]))
  {
    match k
    case IN => assert StartsWithCI(s, "in");
    case FROM => assert StartsWithCI(s, "from");
    case TO => assert StartsWithCI(s, "to");
    case AFTER => assert StartsWithCI(s, "after");
  }

  lemma Unmatched(k: Kind, s: string)
    requires s != [] && !CanStart(k, Lower(s[0]))
    ensures PatternLength(k, s) == 0
  {
    StartChar(k, s);
  }

  /** A pattern that matches where every pattern declared before it fails
      is the first match. */
  lemma FirstMatchOf(s: string, k: Kind)
    requires PatternLength(k, s) > 0 && FailsBefore(s, Rank(k))
    ensures FirstMatch(s) == Some((k, PatternLength(k, s)))
  {
    RankInOrder(k);
    var r := FirstMatch(s);
    if r.None? {
      FailsBeforeAll(s, |Order|);
      assert false;
    }
    var k' := r.value.0;
    RankInOrder(k');
    FailsBeforeAll(s, Rank(k));
    FailsBeforeAll(s, Rank(k'));
    assert Rank(k) == Rank(k');
  }

  /** No pattern matches at the start of `s` exactly when there is no first
      match. */
  lemma FirstMatchNoneIff(s: string)
    ensures FirstMatch(s).None? <==> forall k :: PatternLength(k, s) == 0
  {
    FailsBeforeAll(s, |Order|);
    if FirstMatch(s).None? {
      forall k ensures PatternLength(k, s) == 0 {
        RankInOrder(k);
      }
    }
  }

  /** No pattern at positions `lo` to `hi` - 1 of `Order` can begin with
      the lower-cased character `c`. */
  predicate NoneCanStart(c: char, lo: nat, hi: nat)
    requires hi <= |Order|
    decreases hi - lo
  {
    lo >= hi || (!CanStart(Order[lo], c) && NoneCanStart(c, lo + 1, hi))
  }

  /** Patterns at positions `lo` to `hi` - 1 that cannot begin with the
      first character of `s` fail. */
  lemma {:induction false} SkipUnstartable(s: string, lo: nat, hi: nat)
    requires s != [] && lo <= hi <= |Order| && FailsBefore(s, lo)
    requires NoneCanStart(Lower(s[0]), lo, hi)
    ensures FailsBefore(s, hi)
    decreases hi - lo
  {
    if lo < hi {
      Unmatched(Order[lo], s);
      SkipUnstartable(s, lo + 1, hi);
    }
  }

  /** One more failing pattern. */
  lemma SkipFailing(s: string, k: Kind)
    requires FailsBefore(s, Rank(k)) && PatternLength(k, s) == 0
    ensures FailsBefore(s, Rank(k) + 1)
  {
    RankInOrder(k);
  }

  /** Scanning `s` yields token `t` from its first `n` characters. */
  predicate ScansTo(cal: Calendar, s: string, t: Token, n: nat) {
    s != [] && !Ignored(s[0]) && Scan(cal, s) == Ok((t, n))
  }

  /** Once the first match is known, scanning is the token action on the
      matched lexeme. */
  lemma ScanFirstMatch(cal: Calendar, s: string, k: Kind, n: nat, t: Token)
    requires FirstMatch(s) == Some((k, n))
    requires MakeToken(cal, k, s[..n]) == Ok(t)
    ensures ScansTo(cal, s, t, n)
  {
    assert IsLexemeChar(s[0]);
  }

  /** The length of `/words?/i` when `s` begins with `w`. */
  function PluralLength(s: string, k: nat): nat {
    if k < |s| && Lower(s[k]) == 's' then k + 1 else k
  }

  /** DAY matches in either case, singular or plural, and carries 1. */
  lemma ScanDay(cal: Calendar, s: string)
    requires StartsWithCI(s, "day")
    ensures ScansTo(cal, s, Day(1), PluralLength(s, 3))
  {
    FirstMatchOf(s, DAY);
    ScanFirstMatch(cal, s, DAY, PluralLength(s, 3), Day(1));
  }

  /** WEEK matches in either case, singular or plural, and carries 7. */
  lemma ScanWeek(cal: Calendar, s: string)
    requires StartsWithCI(s, "week")
    ensures ScansTo(cal, s, Week(7), PluralLength(s, 4))
  {
    assert Lower(s[0]) == 'w';
    SkipUnstartable(s, 0, 1);
    FirstMatchOf(s, WEEK);
    ScanFirstMatch(cal, s, WEEK, PluralLength(s, 4), Week(7));
  }

  /** MONTH matches in either case, singular or plural, and carries 30. */
  lemma ScanMonth(cal: Calendar, s: string)
    requires StartsWithCI(s, "month")
    ensures ScansTo(cal, s, Month(30), PluralLength(s, 5))
  {
    assert Lower(s[0]) == 'm';
    SkipUnstartable(s, 0, 2);
    FirstMatchOf(s, MONTH);
    ScanFirstMatch(cal, s, MONTH, PluralLength(s, 5), Month(30));
  }

  /** Patterns that cannot begin with the letter `c` fail before a word
      that begins with it. */
  lemma LetterAhead(s: string, c: char, hi: nat)
    requires s != [] && Lower(s[0]) == c
    requires hi <= |Order| && NoneCanStart(c, 0, hi)
    ensures FailsBefore(s, hi)
  {
    SkipUnstartable(s, 0, hi);
  }

  lemma YesterdayLength(s: string)
    requires StartsWithCI(s, "yesterday")
    ensures s != [] && Lower(s[0]) == 'y' && PatternLength(YESTERDAY, s) == 9
  {
  }

  lemma FirstMatchYesterday(s: string)
    requires StartsWithCI(s, "yesterday")
    ensures s != [] && !Ignored(s[0])
    ensures FirstMatch(s) == Some((YESTERDAY, 9))
  {
    YesterdayLength(s);
    LetterAhead(s, 'y', 6);
    FirstMatchOf(s, YESTERDAY);
  }

  /** "yesterday" is one YESTERDAY token dated today - 1. */
  lemma ScanYesterday(cal: Calendar, s: string)
    requires StartsWithCI(s, "yesterday")
    ensures ScansTo(cal, s, Yesterday(cal.today - 1), 9)
  {
    FirstMatchYesterday(s);
    ScanFirstMatch(cal, s, YESTERDAY, 9, Yesterday(cal.today - 1));
  }

  lemma TodayLength(s: string)
    requires StartsWithCI(s, "today")
    ensures s != [] && Lower(s[0]) == 't' && PatternLength(TODAY, s) == 5
  {
  }

  lemma FirstMatchToday(s: string)
    requires StartsWithCI(s, "today")
    ensures s != [] && !Ignored(s[0])
    ensures FirstMatch(s) == Some((TODAY, 5))
  {
    TodayLength(s);
    LetterAhead(s, 't', 7);
    FirstMatchOf(s, TODAY);
  }

  /** "today" is tried before TO (which refuses a following "d" anyway):
      it is one TODAY token dated today. */
  lemma ScanToday(cal: Calendar, s: string)
    requires StartsWithCI(s, "today")
    ensures ScansTo(cal, s, Today(cal.today), 5)
  {
    FirstMatchToday(s);
    ScanFirstMatch(cal, s, TODAY, 5, Today(cal.today));
  }

  lemma TomorrowLength(s: string)
    requires StartsWithCI(s, "tomorrow")
    ensures s != [] && Lower(s[0]) == 't'
    ensures PatternLength(TODAY, s) == 0 && PatternLength(TOMORROW, s) == 8
  {
    assert Lower(s[2]) == 'm';
  }

  lemma FirstMatchTomorrow(s: string)
    requires StartsWithCI(s, "tomorrow")
    ensures s != [] && !Ignored(s[0])
    ensures FirstMatch(s) == Some((TOMORROW, 8))
  {
    TomorrowLength(s);
    LetterAhead(s, 't', 7);
    SkipFailing(s, TODAY);
    FirstMatchOf(s, TOMORROW);
  }

  /** "tomorrow" is tried before TO: it is one TOMORROW token dated
      today + 1. */
  lemma ScanTomorrow(cal: Calendar, s: string)
    requires StartsWithCI(s, "tomorrow")
    ensures ScansTo(cal, s, Tomorrow(cal.today + 1), 8)
  {
    FirstMatchTomorrow(s);
    ScanFirstMatch(cal, s, TOMORROW, 8, Tomorrow(cal.today + 1));
  }

  /** The `case` gives each numeral word the number it names. */
  lemma NumeralsOneToThree()
    ensures NumeralCase("the") == 1 && NumeralCase("a") == 1 && NumeralCase("one") == 1
    ensures NumeralCase("two") == 2 && NumeralCase("three") == 3
  {
  }

  lemma NumeralsFourToSix()
    ensures NumeralCase("four") == 4 && NumeralCase("five") == 5 && NumeralCase("six") == 6
  {
  }

  lemma NumeralSeven()
    ensures NumeralCase("seven") == 7
  {
  }

  lemma NumeralEight()
    ensures NumeralCase("eight") == 8
  {
  }

  lemma NumeralsNineToTen()
    ensures NumeralCase("nine") == 9 && NumeralCase("ten") == 10
  {
  }

  /** A case-insensitive prefix, lower-cased, is the word itself. */
  lemma LoweredPrefix(s: string, w: string)
    requires StartsWithCI(s, w)
    ensures |w| <= |s| && Lowered(s[..|w|]) == w
  {
  }

  /** The `case` gives each ENUMBER alternative the number in the table. */
  lemma NumeralCaseTable()
    ensures forall i :: 0 <= i < |Numerals| ==> NumeralCase(Numerals[i].0) == Numerals[i].1
  {
    forall i | 0 <= i < |Numerals| ensures NumeralCase(Numerals[i].0) == Numerals[i].1 {
      if i < 5 {
        NumeralsOneToThree();
      } else if i < 8 {
        NumeralsFourToSix();
      } else if i == 8 {
        NumeralSeven();
      } else if i == 9 {
        NumeralEight();
      } else {
        NumeralsNineToTen();
      }
    }
  }

  /** Every ENUMBER lexeme has the value of the alternative it matched,
      from 1 to 10: the `case` never falls through to nil. */
  lemma ENumberValues(s: string)
    requires ENumberLength(s) > 0
    ensures exists i :: 0 <= i < |Numerals| && NumeralAt(s, Numerals[i].0) &&
                        ENumberValue(s[..ENumberLength(s)]) == Numerals[i].1
    ensures 1 <= ENumberValue(s[..ENumberLength(s)]) <= 10
  {
    var i :| 0 <= i < |Numerals| && NumeralAt(s, Numerals[i].0) && ENumberLength(s) == |Numerals[i].0|;
    NumeralValue(s, i);
  }

  /** An alternative that begins the input gives its table value. */
  lemma NumeralValue(s: string, i: nat)
    requires i < |Numerals| && StartsWithCI(s, Numerals[i].0)
    ensures |Numerals[i].0| <= |s| && ENumberValue(s[..|Numerals[i].0|]) == Numerals[i].1
    ensures 1 <= Numerals[i].1 <= 10
  {
    var w := Numerals[i].0;
    LoweredPrefix(s, w);
    NumeralCaseTable();
    calc {
      ENumberValue(s[..|w|]);
      NumeralCase(Lowered(s[..|w|]));
      NumeralCase(w);
    }
  }

  /** The value each token action stores: unit multipliers, dates relative
      to today, and counts. Dates that go through `Date.parse` are whatever
      the calendar says. */
  predicate WellValued(cal: Calendar, t: Token) {
    match t
    case Day(v) => v == 1
    case Week(v) => v == 7
    case Month(v) => v == 30
    case Yesterday(v) => v == cal.today - 1
    case Today(v) => v == cal.today
    case Tomorrow(v) => v == cal.today + 1
    case Number(v) => v >= 0
    case ENumber(v) => 1 <= v <= 10
    case _ => true
  }

  /** A successful scan is the action of the first pattern that matches. */
  lemma ScanParts(cal: Calendar, s: string) returns (k: Kind)
    requires s != [] && !Ignored(s[0]) && Scan(cal, s).Ok?
    ensures FirstMatch(s) == Some((k, Scan(cal, s).value.1))
    ensures k == NUMBER ==> AllDigits(s[..Scan(cal, s).value.1])
    ensures MakeToken(cal, k, s[..Scan(cal, s).value.1]) == Ok(Scan(cal, s).value.0)
  {
    k := FirstMatch(s).value.0;
  }

  lemma MakeTokenWellValued(cal: Calendar, k: Kind, lexeme: string)
    requires k == NUMBER ==> AllDigits(lexeme)
    requires k == ENUMBER ==> 1 <= ENumberValue(lexeme) <= 10
    requires MakeToken(cal, k, lexeme).Ok?
    ensures WellValued(cal, MakeToken(cal, k, lexeme).value)
  {
  }

  lemma ScanWellValued(cal: Calendar, s: string)
    requires s != [] && !Ignored(s[0]) && Scan(cal, s).Ok?
    ensures WellValued(cal, Scan(cal, s).value.0)
  {
    var k := ScanParts(cal, s);
    var n := Scan(cal, s).value.1;
    var t := Scan(cal, s).value.0;
    if k == ENUMBER {
      ENumberPattern(s);
      ENumberValues(s);
    }
    MakeTokenWellValued(cal, k, s[..n]);
    assert MakeToken(cal, k, s[..n]).value == t;
  }

  /** Every token the tokenizer produces carries the value its action
      stores. */
  lemma {:induction false} LexWellValued(cal: Calendar, s: string)
    ensures Lex(cal, s).Ok? ==> forall t :: t in Lex(cal, s).value ==> WellValued(cal, t)
    decreases |s|
  {
    if s != [] && Lex(cal, s).Ok? {
      if Ignored(s[0]) {
        LexWellValued(cal, s[1..]);
      } else {
        var n := Scan(cal, s).value.1;
        ScanWellValued(cal, s);
        LexWellValued(cal, s[n..]);
      }
    }
  }

  /** A day of the month with its suffix ("15th", "2nd", "1st") is one
      MONTHDAY token: DATE needs a separator after the digits, and
      MONTHDAY is tried before NUMBER. Its date is `Date.parse` of the
      whole lexeme, and an invalid date aborts the scan. */
  lemma ScanMonthDay(cal: Calendar, s: string)
    requires MonthDayLength(s) > 0
    ensures var n := MonthDayLength(s);
      && (cal.parseDate(s[..n]).Some? ==> ScansTo(cal, s, MonthDay(cal.parseDate(s[..n]).value), n))
      && (cal.parseDate(s[..n]).None? ==> Scan(cal, s) == Err(InvalidDate(s[..n])))
  {
    var n := MonthDayLength(s);
    var a := Digits12(s);
    assert IsDigit(s[0]) && !IsDateSep(s[a]);
    SkipUnstartable(s, 0, 3);
    assert DateLength(s) == 0;
    SkipFailing(s, DATE);
    SkipUnstartable(s, 4, 5);
    FirstMatchOf(s, MONTHDAY);
  }

  /** A run of digits not followed by a word character is the whole run
      of word characters. */
  lemma {:induction false} WordRunOfDigits(s: string)
    requires DigitRun(s) == |s| || !IsWordChar(s[DigitRun(s)])
    ensures WordRun(s) == DigitRun(s)
    decreases |s|
  {
    if |s| > 0 && IsDigit(s[0]) {
      assert DigitRun(s) == 1 + DigitRun(s[1..]);
      WordRunOfDigits(s[1..]);
    }
  }

  /** No run of digits ends in "day". */
  lemma {:induction false} NoDayInDigits(s: string, k: nat)
    requires k <= |s| && forall i :: 0 <= i < k ==> IsDigit(s[i])
    ensures DayEnding(s, k) == 0
    decreases k
  {
    if k >= 4 {
      assert !EndsInDay(s, k) by {
        assert s[k - 3..][0] == s[k - 3];
      }
      NoDayInDigits(s, k - 1);
    }
  }

  /** `s` begins with a run of digits that ends the phrase or is followed
      by a blank. */
  predicate NumberAhead(s: string) {
    DigitRun(s) > 0 && (DigitRun(s) == |s| || Ignored(s[DigitRun(s)]))
  }

  lemma NumberIsNotDate(s: string)
    requires NumberAhead(s)
    ensures DateLength(s) == 0
  {
    var a := Digits12(s);
    assert a < |s| ==> !IsDateSep(s[a]);
  }

  lemma NumberIsNotMonthDay(s: string)
    requires NumberAhead(s)
    ensures MonthDayLength(s) == 0
  {
    var a := Digits12(s);
    if a < |s| {
      assert IsDigit(s[a]) || Ignored(s[a]);
    }
  }

  lemma NumberIsNotWeekday(s: string)
    requires NumberAhead(s)
    ensures WeekdayLength(s) == 0
  {
    WordRunOfDigits(s);
    NoDayInDigits(s, DigitRun(s));
  }

  /** A digit starts no unit, NEXT, YESTERDAY, TODAY or TOMORROW. */
  lemma DigitLetter(c: char)
    requires IsDigit(c)
    ensures NoneCanStart(c, 0, 3) && NoneCanStart(c, 4, 5) && NoneCanStart(c, 6, 9)
  {
  }

  lemma FirstMatchNumber(s: string)
    requires NumberAhead(s)
    ensures s != [] && !Ignored(s[0])
    ensures FirstMatch(s) == Some((NUMBER, DigitRun(s)))
  {
    NumberPastWeekday(s);
    assert PatternLength(NUMBER, s) == DigitRun(s);
    FirstMatchOf(s, NUMBER);
  }

  lemma NumberPastMonthDay(s: string)
    requires NumberAhead(s)
    ensures FailsBefore(s, Rank(YESTERDAY))
  {
    assert IsDigit(s[0]) && Lower(s[0]) == s[0];
    DigitLetter(s[0]);
    SkipUnstartable(s, 0, 3);
    NumberIsNotDate(s);
    SkipFailing(s, DATE);
    SkipUnstartable(s, 4, 5);
    NumberIsNotMonthDay(s);
    SkipFailing(s, MONTHDAY);
  }

  lemma NumberPastWeekday(s: string)
    requires NumberAhead(s)
    ensures FailsBefore(s, Rank(NUMBER))
  {
    NumberPastMonthDay(s);
    assert IsDigit(s[0]) && Lower(s[0]) == s[0];
    DigitLetter(s[0]);
    SkipUnstartable(s, 6, 9);
    NumberIsNotWeekday(s);
    WeekdayPattern(s);
    SkipFailing(s, WEEKDAY);
  }

  /** A run of digits that ends the phrase or is followed by a blank is
      one NUMBER token carrying the digits' value. */
  lemma ScanNumber(cal: Calendar, s: string)
    requires NumberAhead(s)
    ensures ScansTo(cal, s, Number(DigitsValue(s[..DigitRun(s)])), DigitRun(s))
  {
    var n := DigitRun(s);
    FirstMatchNumber(s);
    assert AllDigits(s[..n]);
    ScanFirstMatch(cal, s, NUMBER, n, Number(DigitsValue(s[..n])));
  }

  /** A run of digits followed by a non-digit, or by nothing, is the
      digit run of the whole. */
  lemma {:induction false} DigitRunOf(d: string, rest: string)
    requires AllDigits(d) && (rest == [] || !IsDigit(rest[0]))
    ensures DigitRun(d + rest) == |d|
    decreases |d|
  {
    if d == [] {
      assert d + rest == rest;
    } else {
      assert (d + rest)[1..] == d[1..] + rest;
      DigitRunOf(d[1..], rest);
    }
  }

  lemma InWord(s: string)
    requires StartsWithCI(s, "in") && |s| > 2 && Ignored(s[2])
    ensures s != [] && Lower(s[0]) == 'i' && !Ignored(s[0])
    ensures WeekdayLength(s) == 0 && PatternLength(IN, s) == 2
  {
    assert Lower(s[0]) == 'i' && Lower(s[1]) == 'n';
    assert WordRun(s) == 2 by {
      assert WordRun(s[2..]) == 0;
      assert WordRun(s[1..]) == 1 + WordRun(s[1..][1..]) by {
        assert IsWordChar(s[1..][0]);
      }
      assert s[1..][1..] == s[2..];
    }
  }

  lemma FirstMatchIn(s: string)
    requires StartsWithCI(s, "in") && |s| > 2 && Ignored(s[2])
    ensures s != [] && !Ignored(s[0])
    ensures FirstMatch(s) == Some((IN, 2))
  {
    InWord(s);
    LinkLetters();
    WordPast(s, 'i', IN);
    FirstMatchOf(s, IN);
  }

  /** "in" followed by a blank is one IN token. */
  lemma ScanIn(cal: Calendar, s: string)
    requires StartsWithCI(s, "in") && |s| > 2 && Ignored(s[2])
    ensures ScansTo(cal, s, In, 2)
  {
    FirstMatchIn(s);
    ScanFirstMatch(cal, s, IN, 2, In);
  }

  /** A pattern that matches where every pattern declared before it fails
      scans to its token action on the matched lexeme. */
  lemma ScanAs(cal: Calendar, s: string, k: Kind, t: Token)
    requires s != [] && !Ignored(s[0])
    requires PatternLength(k, s) > 0 && FailsBefore(s, Rank(k))
    requires k != NUMBER && MakeToken(cal, k, s[..PatternLength(k, s)]) == Ok(t)
    ensures ScansTo(cal, s, t, PatternLength(k, s))
  {
    FirstMatchOf(s, k);
    ScanFirstMatch(cal, s, k, PatternLength(k, s), t);
  }

  /** "next" in any case is one NEXT token. */
  lemma ScanNext(cal: Calendar, s: string)
    requires StartsWithCI(s, "next")
    ensures ScansTo(cal, s, Next, 4)
  {
    assert Lower(s[0]) == 'n';
    SkipUnstartable(s, 0, 4);
    ScanAs(cal, s, NEXT, Next);
  }

  /** `s` begins with the word `w`, in any case, and no word character
      follows it. */
  predicate WholeWord(s: string, w: string) {
    StartsWithCI(s, w) && |w| <= |s| && (|s| == |w| || !IsWordChar(s[|w|]))
  }

  /** The run of word characters is exactly `k` long. */
  lemma {:induction false} WordRunAt(s: string, k: nat)
    requires k <= |s| && forall i :: 0 <= i < k ==> IsWordChar(s[i])
    requires k == |s| || !IsWordChar(s[k])
    ensures WordRun(s) == k
    decreases k
  {
    if k > 0 {
      assert forall i :: 0 <= i < k - 1 ==> IsWordChar(s[1..][i]) by {
        forall i | 0 <= i < k - 1 ensures IsWordChar(s[1..][i]) {
          assert s[1..][i] == s[i + 1];
        }
      }
      if k < |s| {
        assert s[1..][k - 1] == s[k];
      }
      WordRunAt(s[1..], k - 1);
    }
  }

  /** A whole word of letters is the run of word characters. */
  lemma WholeWordRun(s: string, w: string)
    requires IsLowerWord(w) && WholeWord(s, w)
    ensures WordRun(s) == |w|
  {
    LowerWordChars(w);
    assert forall i :: 0 <= i < |w| ==> IsWordChar(s[i]) by {
      forall i | 0 <= i < |w| ensures IsWordChar(s[i]) {
        assert Lower(s[i]) == w[i];
      }
    }
    WordRunAt(s, |w|);
  }

  /** A word whose first letter starts none of the patterns before
      WEEKDAY and which does not end in "day" gets past every pattern
      before NUMBER. */
  lemma WordPastWeekday(s: string)
    requires s != [] && NoneCanStart(Lower(s[0]), 0, 9) && WeekdayLength(s) == 0
    ensures FailsBefore(s, Rank(NUMBER))
  {
    SkipUnstartable(s, 0, 9);
    WeekdayPattern(s);
    SkipFailing(s, WEEKDAY);
  }

  /** ... and past the patterns from NUMBER up to `hi` that cannot begin
      with its first letter. */
  lemma WordPast(s: string, c: char, k: Kind)
    requires s != [] && Lower(s[0]) == c && WeekdayLength(s) == 0
    requires 10 <= Rank(k) && NoneCanStart(c, 0, 9) && NoneCanStart(c, 10, Rank(k))
    ensures FailsBefore(s, Rank(k))
  {
    WordPastWeekday(s);
    SkipUnstartable(s, 10, Rank(k));
  }

  /** "i", "f" and "a" start only WEEKDAY before IN, FROM and AFTER. */
  lemma LinkLetters()
    ensures NoneCanStart('i', 0, 9) && NoneCanStart('i', 10, Rank(IN))
    ensures NoneCanStart('f', 0, 9) && NoneCanStart('f', 10, Rank(FROM))
    ensures NoneCanStart('a', 0, 9) && NoneCanStart('a', 10, Rank(AFTER))
  {
  }

  lemma FromWord(s: string)
    requires WholeWord(s, "from")
    ensures s != [] && Lower(s[0]) == 'f' && !Ignored(s[0])
    ensures WeekdayLength(s) == 0 && PatternLength(FROM, s) == 4
  {
    assert Lower(s[0]) == 'f' && Lower(s[1]) == 'r';
    WholeWordRun(s, "from");
    assert !EndsInDay(s, 4);
  }

  lemma FirstMatchFrom(s: string)
    requires WholeWord(s, "from")
    ensures s != [] && !Ignored(s[0])
    ensures FirstMatch(s) == Some((FROM, 4))
  {
    FromWord(s);
    LinkLetters();
    WordPast(s, 'f', FROM);
    FirstMatchOf(s, FROM);
  }

  /** "from" as a whole word is one FROM token. */
  lemma ScanFrom(cal: Calendar, s: string)
    requires WholeWord(s, "from")
    ensures ScansTo(cal, s, From, 4)
  {
    FirstMatchFrom(s);
    ScanFirstMatch(cal, s, FROM, 4, From);
  }

  lemma AfterWord(s: string)
    requires WholeWord(s, "after")
    ensures s != [] && Lower(s[0]) == 'a' && !Ignored(s[0])
    ensures WeekdayLength(s) == 0 && PatternLength(AFTER, s) == 5
  {
    assert Lower(s[0]) == 'a' && Lower(s[1]) == 'f' && Lower(s[2]) == 't';
    WholeWordRun(s, "after");
    assert !EndsInDay(s, 4) && !EndsInDay(s, 5);
  }

  lemma FirstMatchAfter(s: string)
    requires WholeWord(s, "after")
    ensures s != [] && !Ignored(s[0])
    ensures FirstMatch(s) == Some((AFTER, 5))
  {
    AfterWord(s);
    PastBeforeAfter(s);
    FirstMatchOf(s, AFTER);
  }

  lemma PastBeforeAfter(s: string)
    requires WholeWord(s, "after")
    ensures FailsBefore(s, Rank(AFTER))
  {
    AfterWord(s);
    LinkLetters();
    WordPast(s, 'a', AFTER);
  }

  /** "after" as a whole word is one AFTER token. */
  lemma ScanAfter(cal: Calendar, s: string)
    requires WholeWord(s, "after")
    ensures ScansTo(cal, s, After, 5)
  {
    FirstMatchAfter(s);
    ScanFirstMatch(cal, s, AFTER, 5, After);
  }

  /** A date "d/m", "d-m", "d/m/yy" or "d/m/yyyy" (one or two digits for
      the day and the month) is one DATE token dated by `Date.parse` of the
      whole lexeme; an invalid date aborts the scan with that lexeme. */
  lemma ScanDate(cal: Calendar, s: string)
    requires DateLength(s) > 0
    ensures var n := DateLength(s);
      && (cal.parseDate(s[..n]).Some? ==> ScansTo(cal, s, Date(cal.parseDate(s[..n]).value), n))
      && (cal.parseDate(s[..n]).None? ==> Scan(cal, s) == Err(InvalidDate(s[..n])))
  {
    SkipUnstartable(s, 0, 3);
    FirstMatchOf(s, DATE);
  }

  /** When the pattern of kind `k` is the first to match, scanning is its
      token action on the lexeme, error included. */
  lemma ScanFirst(cal: Calendar, s: string, k: Kind)
    requires s != [] && !Ignored(s[0]) && k != NUMBER
    requires PatternLength(k, s) > 0 && FailsBefore(s, Rank(k))
    ensures var n := PatternLength(k, s);
      && n <= |s|
      && (MakeToken(cal, k, s[..n]).Ok? ==> Scan(cal, s) == Ok((MakeToken(cal, k, s[..n]).value, n)))
      && (MakeToken(cal, k, s[..n]).Err? ==> Scan(cal, s) == Err(MakeToken(cal, k, s[..n]).error))
  {
    FirstMatchOf(s, k);
  }

  /** A word ending in "day" that starts with no earlier keyword and no
      digit is one WEEKDAY token dated by `Date.parse` of the lexeme; an
      invalid date aborts the scan with that lexeme. */
  lemma ScanWeekday(cal: Calendar, s: string)
    requires WeekdayLength(s) > 0 && !IsDigit(s[0])
    requires !StartsWithCI(s, "day") && !StartsWithCI(s, "week") && !StartsWithCI(s, "month")
    requires !StartsWithCI(s, "next") && !StartsWithCI(s, "yesterday")
    requires !StartsWithCI(s, "today") && !StartsWithCI(s, "tomorrow")
    ensures var n := WeekdayLength(s);
      && (cal.parseDate(s[..n]).Some? ==> ScansTo(cal, s, Weekday(cal.parseDate(s[..n]).value), n))
      && (cal.parseDate(s[..n]).None? ==> Scan(cal, s) == Err(InvalidDate(s[..n])))
  {
    FirstMatchWeekday(s);
    WeekdayToken(cal, s[..WeekdayLength(s)]);
  }

  lemma FirstMatchWeekday(s: string)
    requires WeekdayLength(s) > 0 && !IsDigit(s[0])
    requires !StartsWithCI(s, "day") && !StartsWithCI(s, "week") && !StartsWithCI(s, "month")
    requires !StartsWithCI(s, "next") && !StartsWithCI(s, "yesterday")
    requires !StartsWithCI(s, "today") && !StartsWithCI(s, "tomorrow")
    ensures s != [] && !Ignored(s[0])
    ensures FirstMatch(s) == Some((WEEKDAY, WeekdayLength(s)))
  {
    WeekdayStarts(s);
    WeekdayAhead(s);
    WeekdayPattern(s);
    FirstMatchOf(s, WEEKDAY);
  }

  lemma WeekdayStarts(s: string)
    requires WeekdayLength(s) > 0
    ensures s != [] && !Ignored(s[0])
  {
    assert IsWordChar(s[0]);
  }

  lemma WeekdayToken(cal: Calendar, lexeme: string)
    ensures var r := MakeToken(cal, WEEKDAY, lexeme);
      && (cal.parseDate(lexeme).Some? ==> r == Ok(Weekday(cal.parseDate(lexeme).value)))
      && (cal.parseDate(lexeme).None? ==> r == Err(InvalidDate(lexeme)))
  {
  }

  lemma WeekdayAhead(s: string)
    requires s != [] && !IsDigit(s[0])
    requires !StartsWithCI(s, "day") && !StartsWithCI(s, "week") && !StartsWithCI(s, "month")
    requires !StartsWithCI(s, "next") && !StartsWithCI(s, "yesterday")
    requires !StartsWithCI(s, "today") && !StartsWithCI(s, "tomorrow")
    ensures FailsBefore(s, Rank(WEEKDAY))
  {
    UnitsFail(s);
    DatesFail(s);
    RelativeDaysFail(s);
  }

  lemma UnitsFail(s: string)
    requires !StartsWithCI(s, "day") && !StartsWithCI(s, "week") && !StartsWithCI(s, "month")
    ensures FailsBefore(s, Rank(DATE))
  {
    assert PatternLength(DAY, s) == 0;
    SkipFailing(s, DAY);
    assert PatternLength(WEEK, s) == 0;
    SkipFailing(s, WEEK);
    assert PatternLength(MONTH, s) == 0;
    SkipFailing(s, MONTH);
  }

  lemma DatesFail(s: string)
    requires s != [] && !IsDigit(s[0]) && !StartsWithCI(s, "next") && FailsBefore(s, Rank(DATE))
    ensures FailsBefore(s, Rank(YESTERDAY))
  {
    assert PatternLength(DATE, s) == 0;
    SkipFailing(s, DATE);
    assert PatternLength(NEXT, s) == 0;
    SkipFailing(s, NEXT);
    assert PatternLength(MONTHDAY, s) == 0;
    SkipFailing(s, MONTHDAY);
  }

  lemma RelativeDaysFail(s: string)
    requires !StartsWithCI(s, "yesterday") && !StartsWithCI(s, "today") && !StartsWithCI(s, "tomorrow")
    requires FailsBefore(s, Rank(YESTERDAY))
    ensures FailsBefore(s, Rank(WEEKDAY))
  {
    assert PatternLength(YESTERDAY, s) == 0;
    SkipFailing(s, YESTERDAY);
    assert PatternLength(TODAY, s) == 0;
    SkipFailing(s, TODAY);
    assert PatternLength(TOMORROW, s) == 0;
    SkipFailing(s, TOMORROW);
  }

  /** Two words that differ within their first three letters. */
  predicate Clash(u: string, w: string) {
    && |u| > 0 && |w| > 0
    && (u[0] != w[0] || (|u| > 1 && |w| > 1 && (u[1] != w[1] || (|u| > 2 && |w| > 2 && u[2] != w[2]))))
  }

  /** Any two ENUMBER alternatives differ within their first three letters. */
  lemma NumeralsClash()
    ensures forall i, j :: 0 <= i < |Numerals| && 0 <= j < |Numerals| && i != j ==>
      Clash(Numerals[i].0, Numerals[j].0)
  {
  }

  lemma ClashExcludes(s: string, u: string, w: string)
    requires StartsWithCI(s, u) && Clash(u, w)
    ensures !StartsWithCI(s, w)
  {
  }

  /** At most one ENUMBER alternative begins the input, so ENUMBER matches
      exactly that alternative. */
  lemma NumeralOnly(s: string, i: nat)
    requires i < |Numerals| && NumeralAt(s, Numerals[i].0)
    ensures forall j :: 0 <= j < |Numerals| && j != i ==> !NumeralAt(s, Numerals[j].0)
    ensures ENumberLength(s) == |Numerals[i].0|
  {
    NumeralsClash();
    forall j | 0 <= j < |Numerals| && j != i
      ensures !NumeralAt(s, Numerals[j].0)
    {
      ClashExcludes(s, Numerals[i].0, Numerals[j].0);
    }
  }

  /** The letters of the alternatives that decide which earlier patterns
      could match them. */
  lemma NumeralLetters(i: nat)
    requires i < |Numerals|
    ensures var w := Numerals[i].0;
      && 0 < |w| <= 5
      && (w[0] == 't' || w[0] == 'a' || w[0] == 'o' || w[0] == 'f' || w[0] == 's' || w[0] == 'e' || w[0] == 'n')
      && (w[0] == 'n' ==> |w| > 1 && w[1] != 'e')
      && (w[0] == 't' ==> |w| > 1 && w[1] != 'o')
      && (w[0] == 'f' ==> |w| > 1 && w[1] != 'r')
      && (w[0] == 'a' ==> w == "a")
      && forall k :: 0 <= k < |w| ==> w[k] != 'd'
  {
  }

  /** A word of at most five letters, none a "d", starting with a letter
      an ENUMBER alternative starts with and not with "ne", "to", "fr" or
      an "a" before anything but a space, matches no pattern before
      ENUMBER. */
  lemma NumeralAhead(s: string, n: nat)
    requires 0 < n <= 5 && n <= |s| && WordRun(s) == n
    requires var c := Lower(s[0]); c == 't' || c == 'a' || c == 'o' || c == 'f' || c == 's' || c == 'e' || c == 'n'
    requires Lower(s[0]) == 'n' ==> n > 1 && Lower(s[1]) != 'e'
    requires Lower(s[0]) == 't' ==> n > 1 && Lower(s[1]) != 'o'
    requires Lower(s[0]) == 'f' ==> n > 1 && Lower(s[1]) != 'r'
    requires Lower(s[0]) == 'a' ==> |s| > 1 && s[1] == ' '
    requires forall k :: 0 <= k < n ==> Lower(s[k]) != 'd'
    ensures FailsBefore(s, Rank(ENUMBER))
  {
    NumeralLetter(Lower(s[0]));
    NumeralNotKeyword(s);
    NumeralNotWeekday(s, n);
    FailsUpToENumber(s);
  }

  /** No letter an ENUMBER alternative starts with starts a unit, a date,
      YESTERDAY, NUMBER or IN. */
  lemma NumeralLetter(c: char)
    requires c == 't' || c == 'a' || c == 'o' || c == 'f' || c == 's' || c == 'e' || c == 'n'
    ensures NoneCanStart(c, 0, 4) && NoneCanStart(c, 5, 7) && NoneCanStart(c, 10, 12)
  {
  }

  lemma NumeralNotKeyword(s: string)
    requires s != []
    requires Lower(s[0]) == 'n' ==> |s| > 1 && Lower(s[1]) != 'e'
    requires Lower(s[0]) == 't' ==> |s| > 1 && Lower(s[1]) != 'o'
    requires Lower(s[0]) == 'f' ==> |s| > 1 && Lower(s[1]) != 'r'
    requires Lower(s[0]) == 'a' ==> |s| > 1 && s[1] == ' '
    ensures PatternLength(NEXT, s) == 0 && PatternLength(TODAY, s) == 0 && PatternLength(TOMORROW, s) == 0
    ensures PatternLength(FROM, s) == 0 && PatternLength(TO, s) == 0 && PatternLength(AFTER, s) == 0
  {
    assert !StartsWithCI(s, "next");
    assert !StartsWithCI(s, "today") && !StartsWithCI(s, "tomorrow");
    assert !StartsWithCI(s, "from") && !StartsWithCI(s, "to") && !StartsWithCI(s, "after");
  }

  lemma NumeralNotWeekday(s: string, n: nat)
    requires 0 < n <= 5 && n <= |s| && WordRun(s) == n
    requires forall k :: 0 <= k < n ==> Lower(s[k]) != 'd'
    ensures PatternLength(WEEKDAY, s) == 0
  {
    var w := WeekdayLength(s);
    if w > 0 {
      NoDayAt(s, w);
    }
    WeekdayPattern(s);
  }

  lemma WeekdayPattern(s: string)
    ensures PatternLength(WEEKDAY, s) == WeekdayLength(s)
  {
  }

  lemma NoDayAt(s: string, m: nat)
    requires 3 <= m <= |s| && Lower(s[m - 3]) != 'd'
    ensures !EndsInDay(s, m)
  {
    assert s[m - 3..][0] == s[m - 3];
  }

  lemma FailsUpToWeekday(s: string)
    requires s != [] && NoneCanStart(Lower(s[0]), 0, 4) && NoneCanStart(Lower(s[0]), 5, 7)
    requires PatternLength(NEXT, s) == 0 && PatternLength(TODAY, s) == 0 && PatternLength(TOMORROW, s) == 0
    ensures FailsBefore(s, Rank(WEEKDAY))
  {
    FailsUpToYesterday(s);
    SkipFailing(s, TODAY);
    SkipFailing(s, TOMORROW);
  }

  lemma FailsUpToYesterday(s: string)
    requires s != [] && NoneCanStart(Lower(s[0]), 0, 4) && NoneCanStart(Lower(s[0]), 5, 7)
    requires PatternLength(NEXT, s) == 0
    ensures FailsBefore(s, Rank(TODAY))
  {
    SkipUnstartable(s, 0, 4);
    SkipFailing(s, NEXT);
    SkipUnstartable(s, 5, 7);
  }

  /** Where every pattern before ENUMBER fails for the reasons above, all
      of them fail. */
  lemma FailsUpToENumber(s: string)
    requires s != [] && NoneCanStart(Lower(s[0]), 0, 4) && NoneCanStart(Lower(s[0]), 5, 7)
    requires NoneCanStart(Lower(s[0]), 10, 12)
    requires PatternLength(NEXT, s) == 0 && PatternLength(TODAY, s) == 0 && PatternLength(TOMORROW, s) == 0
    requires PatternLength(WEEKDAY, s) == 0
    requires PatternLength(FROM, s) == 0 && PatternLength(TO, s) == 0 && PatternLength(AFTER, s) == 0
    ensures FailsBefore(s, Rank(ENUMBER))
  {
    FailsUpToWeekday(s);
    SkipFailing(s, WEEKDAY);
    FailsFromNumber(s);
  }

  lemma FailsFromNumber(s: string)
    requires s != [] && NoneCanStart(Lower(s[0]), 10, 12) && FailsBefore(s, Rank(NUMBER))
    requires PatternLength(FROM, s) == 0 && PatternLength(TO, s) == 0 && PatternLength(AFTER, s) == 0
    ensures FailsBefore(s, Rank(ENUMBER))
  {
    SkipUnstartable(s, 10, 12);
    SkipFailing(s, FROM);
    SkipFailing(s, TO);
    SkipFailing(s, AFTER);
  }

  /** Each of the twelve numerals, as a whole word ("a" before a space),
      is one ENUMBER token carrying its number: "the" and "a" carry 1,
      "two" carries 2, and so on. */
  lemma ScanENumber(cal: Calendar, s: string, i: nat)
    requires i < |Numerals| && NumeralAt(s, Numerals[i].0) && WholeWord(s, Numerals[i].0)
    ensures ScansTo(cal, s, ENumber(Numerals[i].1), |Numerals[i].0|)
  {
    var w := Numerals[i].0;
    FirstMatchENumber(s, i);
    NumeralValue(s, i);
    ScanFirstMatch(cal, s, ENUMBER, |w|, ENumber(Numerals[i].1));
  }

  lemma FirstMatchENumber(s: string, i: nat)
    requires i < |Numerals| && NumeralAt(s, Numerals[i].0) && WholeWord(s, Numerals[i].0)
    ensures s != [] && !Ignored(s[0])
    ensures FirstMatch(s) == Some((ENUMBER, |Numerals[i].0|))
  {
    var w := Numerals[i].0;
    NumeralWords();
    NumeralLetters(i);
    NumeralOnly(s, i);
    WholeWordRun(s, w);
    NumeralAhead(s, |w|);
    ENumberPattern(s);
    FirstMatchOf(s, ENUMBER);
  }

  lemma ENumberPattern(s: string)
    ensures PatternLength(ENUMBER, s) == ENumberLength(s)
  {
  }

  /** A lexical error points into the phrase, at a character that is not
      blank and where no pattern matches. */
  predicate ErrorAt(s: string, e: string) {
    |e| <= |s| && e == s[|s| - |e|..] && e != [] && !Ignored(e[0]) && FirstMatch(e).None?
  }

  lemma ErrorAtShift(s: string, k: nat, e: string)
    requires k <= |s| && ErrorAt(s[k..], e)
    ensures ErrorAt(s, e)
  {
    assert s[k..][|s| - k - |e|..] == s[|s| - |e|..];
  }

  lemma ErrorAtScan(cal: Calendar, s: string)
    requires s != [] && !Ignored(s[0]) && Scan(cal, s) == Err(LexError(s))
    ensures ErrorAt(s, s)
  {
  }

  lemma {:induction false} LexErrorInside(cal: Calendar, s: string)
    ensures Lex(cal, s).Err? && Lex(cal, s).error.LexError? ==> ErrorAt(s, Lex(cal, s).error.rest)
    decreases |s|
  {
    if s != [] && Lex(cal, s).Err? && Lex(cal, s).error.LexError? {
      var e := Lex(cal, s).error.rest;
      if Ignored(s[0]) {
        LexErrorInside(cal, s[1..]);
        ErrorAtShift(s, 1, e);
      } else if Scan(cal, s).Err? {
        ErrorAtScan(cal, s);
      } else {
        var n := Scan(cal, s).value.1;
        LexErrorInside(cal, s[n..]);
        ErrorAtShift(s, n, e);
      }
    }
  }

  /** A TO token is never the start of "today" (TO refuses a following
      "d") nor of "tomorrow" (TOMORROW is tried first). */
  lemma ScanTo(cal: Calendar, s: string)
    requires s != [] && !Ignored(s[0]) && Scan(cal, s).Ok? && Scan(cal, s).value.0 == To
    ensures StartsWithCI(s, "to") && Scan(cal, s).value.1 == 2
    ensures !StartsWithCI(s, "today") && !StartsWithCI(s, "tomorrow")
  {
    var n := Scan(cal, s).value.1;
    assert FirstMatch(s) == Some((TO, n)) by {
      var k := ScanParts(cal, s);
      MakeTokenTo(cal, k, s[..n]);
    }
    FirstMatchTo(s, n);
  }

  lemma FirstMatchTo(s: string, n: nat)
    requires FirstMatch(s) == Some((TO, n))
    ensures StartsWithCI(s, "to") && n == 2
    ensures !StartsWithCI(s, "today") && !StartsWithCI(s, "tomorrow")
  {
    assert ToLength(s) == n;
    if StartsWithCI(s, "tomorrow") {
      FirstMatchTomorrow(s);
    }
  }

  lemma MakeTokenTo(cal: Calendar, k: Kind, lexeme: string)
    requires k == NUMBER ==> AllDigits(lexeme)
    requires MakeToken(cal, k, lexeme) == Ok(To)
    ensures k == TO
  {
  }

  /** Spaces, tabs and newlines in front of a phrase change nothing. */
  lemma {:induction false} LexSkipsBlanks(cal: Calendar, w: string, s: string)
    requires forall i :: 0 <= i < |w| ==> Ignored(w[i])
    ensures Lex(cal, w + s) == Lex(cal, s)
    decreases |w|
  {
    if w != [] {
      assert (w + s)[0] == w[0] && (w + s)[1..] == w[1..] + s;
      LexSkipsBlanks(cal, w[1..], s);
    } else {
      assert w + s == s;
    }
  }

  /** After a token is scanned, the rest of the phrase is tokenized on its
      own and the token goes in front; an error there is the phrase's error. */
  lemma LexCons(cal: Calendar, s: string, t: Token, n: nat)
    requires ScansTo(cal, s, t, n)
    ensures Lex(cal, s[n..]).Ok? ==> Lex(cal, s) == Ok([t] + Lex(cal, s[n..]).value)
    ensures Lex(cal, s[n..]).Err? ==> Lex(cal, s) == Lex(cal, s[n..])
  {
  }

  /** Every match begins with a character some pattern can consume. */
  lemma MatchStartsWithLexemeChar(k: Kind, s: string)
    ensures PatternLength(k, s) > 0 ==> IsLexemeChar(s[0])
  {
  }

  /** A character that no pattern can consume matches nothing. */
  lemma StrayUnmatched(s: string)
    requires s != [] && !IsLexemeChar(s[0])
    ensures FirstMatch(s).None?
  {
    forall k ensures PatternLength(k, s) == 0 {
      MatchStartsWithLexemeChar(k, s);
    }
    FirstMatchNoneIff(s);
  }

  /** A non-blank place where no pattern matches stops the tokenizer with
      a lexical error there; a character no pattern can consume is one. */
  lemma LexStray(cal: Calendar, s: string)
    requires s != [] && !Ignored(s[0]) && (FirstMatch(s).None? || !IsLexemeChar(s[0]))
    ensures Lex(cal, s) == Err(LexError(s))
  {
    if IsLexemeChar(s[0]) {
    } else {
      StrayUnmatched(s);
    }
  }

  /** A lexeme that `Date.parse` rejects stops the tokenizer with that
      lexeme's error. */
  lemma LexInvalidDate(cal: Calendar, s: string, w: string)
    requires s != [] && !Ignored(s[0]) && Scan(cal, s) == Err(InvalidDate(w))
    ensures Lex(cal, s) == Err(InvalidDate(w))
  {
  }

  /** The tokenizer gets from `s` to its suffix `e`: every non-blank
      place before `e` is scanned into a token. */
  predicate Reaches(cal: Calendar, s: string, e: string)
    decreases |s|
  {
    s == e
    || (s != [] && Ignored(s[0]) && Reaches(cal, s[1..], e))
    || (s != [] && !Ignored(s[0]) && Scan(cal, s).Ok? && Reaches(cal, s[Scan(cal, s).value.1..], e))
  }

  /** A place the tokenizer gets to where scanning fails ends the whole
      tokenization with that error: nothing is skipped and the tokens
      before it are dropped. */
  lemma {:induction false} LexFailsWhereReached(cal: Calendar, s: string, e: string)
    requires Reaches(cal, s, e) && e != [] && !Ignored(e[0]) && Scan(cal, e).Err?
    ensures Lex(cal, s) == Err(Scan(cal, e).error)
    decreases |s|
  {
    if s != e {
      if Ignored(s[0]) {
        LexFailsWhereReached(cal, s[1..], e);
      } else {
        LexFailsWhereReached(cal, s[Scan(cal, s).value.1..], e);
      }
    }
  }

  /** Every failed tokenization failed at a place it got to. */
  lemma {:induction false} LexErrorReached(cal: Calendar, s: string) returns (e: string)
    requires Lex(cal, s).Err?
    ensures Reaches(cal, s, e) && e != [] && !Ignored(e[0]) && Scan(cal, e) == Err(Lex(cal, s).error)
    decreases |s|
  {
    if Ignored(s[0]) {
      e := LexErrorReached(cal, s[1..]);
    } else if Scan(cal, s).Err? {
      e := s;
    } else {
      e := LexErrorReached(cal, s[Scan(cal, s).value.1..]);
    }
  }

  /** The tokenization fails exactly when it gets to a place where
      scanning fails. */
  lemma LexFailsIff(cal: Calendar, s: string)
    ensures Lex(cal, s).Err? <==>
            exists e :: Reaches(cal, s, e) && e != [] && !Ignored(e[0]) && Scan(cal, e).Err?
  {
    if Lex(cal, s).Err? {
      var e := LexErrorReached(cal, s);
    }
    forall e | Reaches(cal, s, e) && e != [] && !Ignored(e[0]) && Scan(cal, e).Err?
      ensures Lex(cal, s).Err?
    {
      LexFailsWhereReached(cal, s, e);
    }
  }

  /** A word beginning with "f" that is neither FROM, WEEKDAY nor
      ENUMBER has no match. */
  lemma UnmatchedF(s: string)
    requires s != [] && Lower(s[0]) == 'f' && WeekdayLength(s) == 0
    requires PatternLength(FROM, s) == 0 && PatternLength(ENUMBER, s) == 0
    ensures FirstMatch(s).None?
  {
    PastFrom(s);
    PastAfter(s);
    SkipFailing(s, ENUMBER);
    assert Rank(ENUMBER) + 1 == |Order|;
  }

  lemma PastAfter(s: string)
    requires s != [] && Lower(s[0]) == 'f' && FailsBefore(s, Rank(TO))
    ensures FailsBefore(s, Rank(ENUMBER))
  {
    assert NoneCanStart('f', Rank(TO), Rank(ENUMBER));
    SkipUnstartable(s, Rank(TO), Rank(ENUMBER));
  }

  lemma PastFrom(s: string)
    requires s != [] && Lower(s[0]) == 'f' && WeekdayLength(s) == 0 && PatternLength(FROM, s) == 0
    ensures FailsBefore(s, Rank(TO))
  {
    LinkLetters();
    WordPast(s, 'f', FROM);
    SkipFailing(s, FROM);
  }

  /** A phrase without a "y" in either case has no WEEKDAY match. */
  lemma NoYNoWeekday(s: string)
    requires 'y' !in s && 'Y' !in s
    ensures WeekdayLength(s) == 0
  {
    forall m | 4 <= m <= |s| ensures !EndsInDay(s, m) {
      assert s[m - 1] in s && s[m - 3..][2] == s[m - 1];
    }
  }

  /** No numeral has an "r" as its second letter. */
  lemma NoNumeralR(s: string)
    requires |s| > 1 && Lower(s[1]) == 'r'
    ensures PatternLength(ENUMBER, s) == 0
  {
    ENumberPattern(s);
    forall i | 0 <= i < |Numerals| ensures !NumeralAt(s, Numerals[i].0) {
    }
  }

  /** A word that is none of the keywords and does not end in "day". */
  const Frobnicate: string := "frobnicate"

  /** No pattern matches at a phrase that begins with "frobnicate" and
      has no "y". */
  lemma FrobnicateUnmatched(s: string)
    requires |s| >= |Frobnicate| && s[..|Frobnicate|] == Frobnicate && 'y' !in s && 'Y' !in s
    ensures s != [] && !Ignored(s[0]) && FirstMatch(s).None?
  {
    FrobnicateLetters(s);
    NoYNoWeekday(s);
    NoNumeralR(s);
    UnmatchedF(s);
  }

  lemma FrobnicateLetters(s: string)
    requires |s| >= |Frobnicate| && s[..|Frobnicate|] == Frobnicate
    ensures Lower(s[0]) == 'f' && Lower(s[1]) == 'r' && !Ignored(s[0])
    ensures PatternLength(FROM, s) == 0
  {
    assert s[0] == Frobnicate[0] && s[1] == Frobnicate[1] && s[3] == Frobnicate[3];
    assert Lower(s[3]) != 'm';
  }
}
