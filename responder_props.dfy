/**
 * What `getRuleBasedResponse` promises: normalisation first, the earliest
 * matching rule answers, exact arithmetic, the date rules shadowed by the
 * arithmetic rule, the weather stub's city and the random picks, and the
 * text transforms.
 */
module ResponderProperties {
  import opened JsText
  import opened Responder

  // ---------------------------------------------------------------------------
  // Normalisation

  /** Trimming and lower-casing a second time changes nothing. */
  lemma {:induction false} NormalizeIdempotent(raw: string)
    ensures Normalize(Normalize(raw)) == Normalize(raw)
  {
    var n := Normalize(raw);
    NormalizeSpec(raw);
    TrimTrimmed(n);
    LowerKeepsSpaces(Trim(raw));
  }

  /** The reply to any input is the reply to its normalised form. */
  lemma RespondNormalized(raw: string, env: Env)
    ensures Respond(Normalize(raw), env) == Respond(raw, env)
  {
    NormalizeIdempotent(raw);
  }

  /** The empty-input rule answers exactly the blank inputs, with the fixed prompt. */
  lemma BlankInput(raw: string, env: Env)
    ensures Winner(Normalize(raw)) == Some(Blank) <==> AllSpace(raw)
    ensures AllSpace(raw) ==> Respond(raw, env) == AskText
  {
    var s := Normalize(raw);
    NormalizeSpec(raw);
    WinnerSpec(s);
    if AllSpace(raw) {
      FirstMatchWins(s, 0);
      Answer(s, env.random, Blank, EmptyInput);
    }
  }

  // ---------------------------------------------------------------------------
  // First match wins

  /** A rule that matches, when no earlier rule does, is the one that answers. */
  lemma FirstMatchWins(s: string, k: nat)
    requires k < |Rules| && Matches(Rules[k], s)
    requires forall j | 0 <= j < k :: !Matches(Rules[j], s)
    ensures Winner(s) == Some(Rules[k])
  {
    WinnerSpec(s);
    var w := Winner(s);
    var i :| 0 <= i < |Rules| && Rules[i] == w.value && forall j | 0 <= j < i :: !Matches(Rules[j], s);
    assert i == k;
  }

  /** A rule's position in `Rules`. */
  function Rank(rule: Rule): nat {
    match rule
    case Blank => 0 case Greet => 1 case HowAreYou => 2 case TimeOfDay => 3
    case TodaysDate => 4 case TodaysWeekday => 5 case WeatherIn => 6 case SumOf => 7
    case Arithmetic => 8 case CelsiusToF => 9 case FahrenheitToC => 10 case DaysUntil => 11
    case WeekdayFor => 12 case JokeRequest => 13 case QuoteRequest => 14 case ReverseText => 15
    case UppercaseText => 16 case LowercaseText => 17 case HelpRequest => 18 case Farewell => 19
  }

  lemma RankIndex(rule: Rule, i: nat)
    ensures Rank(rule) < |Rules| && Rules[Rank(rule)] == rule
    ensures i < |Rules| ==> Rank(Rules[i]) == i
  {
  }

  /** When a rule matches, the rule that answers is that one or an earlier one. */
  lemma MatchBounds(s: string, rule: Rule)
    requires Matches(rule, s)
    ensures Winner(s).Some? && Rank(Winner(s).value) <= Rank(rule)
  {
    WinnerSpec(s);
    RankIndex(rule, 0);
    assert Matches(Rules[Rank(rule)], s);
    var w := Winner(s);
    var i :| 0 <= i < |Rules| && Rules[i] == w.value && forall j | 0 <= j < i :: !Matches(Rules[j], s);
    RankIndex(rule, i);
  }

  /** The rule that answers matches. */
  lemma WinnerMatches(s: string, rule: Rule)
    requires Winner(s) == Some(rule)
    ensures Matches(rule, s)
  {
    WinnerSpec(s);
  }

  /** The rule that answers decides the reply through its handler. */
  lemma Answer(s: string, random: Fraction, rule: Rule, hit: Hit)
    requires Winner(s) == Some(rule) && Test(rule, s) == Some(hit)
    ensures Decide(s, random) == Handle(hit, random)
  {
  }

  /** Every handler answers something other than the fallback. */
  lemma HandleAnswers(hit: Hit, random: Fraction)
    ensures Handle(hit, random) != NotUnderstood
  {
  }

  /** The fallback is given exactly when no rule matches. */
  lemma Fallback(s: string, random: Fraction)
    ensures Decide(s, random) == NotUnderstood <==> Winner(s).None?
  {
    if Winner(s).Some? {
      WinnerSpec(s);
      var rule := Winner(s).value;
      Answer(s, random, rule, Test(rule, s).value);
      HandleAnswers(Test(rule, s).value, random);
    }
  }

  /** An input no rule matches (`Winner` is none exactly then) gets the
      fallback text, verbatim. */
  lemma FallbackVerbatim(raw: string, env: Env)
    requires Winner(Normalize(raw)).None?
    ensures Respond(raw, env) == FallbackText
  {
    Fallback(Normalize(raw), env.random);
  }

  /** An input that starts with the whole word `hi`, `hello` or `hey` is
      greeted, whatever follows. */
  lemma GreetingWins(s: string, random: Fraction)
    requires GreetingWord(s, "hi") || GreetingWord(s, "hello") || GreetingWord(s, "hey")
    ensures Winner(s) == Some(Greet)
    ensures Decide(s, random) == Hello
  {
    FirstMatchWins(s, 1);
    Answer(s, random, Greet, Greeting);
  }

  /** The greeting needs the whole word: `history` is not a greeting, `hi there` is. */
  lemma GreetingNeedsWholeWord()
    ensures !Matches(Greet, "history")
    ensures Matches(Greet, "hi there")
  {
    assert !Boundary("history", 2);
    assert Boundary("hi there", 2);
  }

  /** A whole-word `time` is answered by the greeting, the well-being or the
      time rule, never by the date, weather, math, date-math, fun, transform,
      help or farewell rules. */
  lemma TimeBeatsLaterRules(s: string)
    requires HasWord(s, "time")
    ensures Winner(s).Some? && Winner(s).value in {Greet, HowAreYou, TimeOfDay}
  {
    MatchBounds(s, TimeOfDay);
    if Winner(s) == Some(Blank) {
      WinnerMatches(s, Blank);
    }
  }

  // ---------------------------------------------------------------------------
  // Sum and arithmetic

  /** A sum request is answered before the generic arithmetic rule is tried. */
  lemma SumBeforeArithmetic(s: string)
    requires Matches(SumOf, s)
    ensures Winner(s).Some? && Winner(s).value != Arithmetic
  {
    MatchBounds(s, SumOf);
  }

  /** The sum rule's groups are the numbers of the leftmost match of its
      pattern; `k` is where that match starts. */
  lemma SumCapture(s: string) returns (k: nat, m: Addends)
    requires Matches(SumOf, s)
    ensures Test(SumOf, s) == Some(AskedSum(m))
    ensures k <= |s| && SumAt(s, k) == Some(m) && forall j | 0 <= j < k :: SumAt(s, j).None?
  {
    k := FirstIndex(Hits(SumOf, s), 0);
    m := SumAt(s, k).value;
    forall j | 0 <= j < k ensures SumAt(s, j).None? {
      assert Hits(SumOf, s)[j].None?;
    }
  }

  /** When the sum rule answers, the reply adds its two numbers exactly. */
  lemma SumExact(s: string, random: Fraction, m: Addends)
    requires Winner(s) == Some(SumOf) && Test(SumOf, s) == Some(AskedSum(m))
    ensures var d := Decide(s, random); d.Total? && d.a == m.a && d.b == m.b && d.total == m.a + m.b
  {
    Answer(s, random, SumOf, AskedSum(m));
  }

  /** The arithmetic rule's groups are the operands and operator of the
      leftmost match of its pattern; `k` is where that match starts. */
  lemma ArithCapture(s: string) returns (k: nat, m: Operation)
    requires Matches(Arithmetic, s)
    ensures Test(Arithmetic, s) == Some(AskedArithmetic(m))
    ensures k <= |s| && ArithAt(s, k) == Some(m) && forall j | 0 <= j < k :: ArithAt(s, j).None?
  {
    k := FirstIndex(Hits(Arithmetic, s), 0);
    m := ArithAt(s, k).value;
    forall j | 0 <= j < k ensures ArithAt(s, j).None? {
      assert Hits(Arithmetic, s)[j].None?;
    }
  }

  /** When the arithmetic rule answers, the reply shows its operands and
      operator; the result is exact for `+`, `-` and `*`, and division by
      zero puts the literal `undefined` in the result slot instead of a
      number. */
  lemma ArithmeticExact(s: string, env: Env, m: Operation)
    requires Winner(s) == Some(Arithmetic) && Test(Arithmetic, s) == Some(AskedArithmetic(m))
    ensures var d := Decide(s, env.random);
      && d.Calculated? && d.a == m.a && d.op == m.op && d.b == m.b
      && (m.op == Plus ==> d.result == Value(m.a + m.b))
      && (m.op == Minus ==> d.result == Value(m.a - m.b))
      && (m.op == Times ==> d.result == Value(m.a * m.b))
      && (m.op == Divide && m.b != 0.0 ==> d.result == Value(m.a / m.b))
      && (d.result == Undefined <==> m.op == Divide && m.b == 0.0)
  {
    Answer(s, env.random, Arithmetic, AskedArithmetic(m));
    ArithmeticHandled(m, env.random);
  }

  lemma ArithmeticHandled(m: Operation, random: Fraction)
    ensures var d := Handle(AskedArithmetic(m), random);
      && d.Calculated? && d.a == m.a && d.op == m.op && d.b == m.b
      && (m.op == Plus ==> d.result == Value(m.a + m.b))
      && (m.op == Minus ==> d.result == Value(m.a - m.b))
      && (m.op == Times ==> d.result == Value(m.a * m.b))
      && (m.op == Divide && m.b != 0.0 ==> d.result == Value(m.a / m.b))
      && (d.result == Undefined <==> m.op == Divide && m.b == 0.0)
  {
  }

  /** A division by zero is shown with the literal `undefined` as its result. */
  lemma UndefinedText(a: real, b: real, env: Env)
    ensures Render(Calculated(a, Divide, b, Undefined), env) == env.number(a) + " / " + env.number(b) + " = undefined"
  {
  }

  // ---------------------------------------------------------------------------
  // Temperature conversions

  /** A Celsius-to-Fahrenheit reply shows the number asked about and a
      Fahrenheit value that converts back to it exactly. */
  lemma FahrenheitReply(s: string, random: Fraction, c: real)
    requires Winner(s) == Some(CelsiusToF) && Test(CelsiusToF, s) == Some(AskedFahrenheit(c))
    ensures var d := Decide(s, random);
      d.InFahrenheit? && d.celsius == c && (d.fahrenheit - 32.0) * 5.0 / 9.0 == c
  {
    Answer(s, random, CelsiusToF, AskedFahrenheit(c));
    FahrenheitHandled(c, random);
  }

  lemma FahrenheitHandled(c: real, random: Fraction)
    ensures var d := Handle(AskedFahrenheit(c), random);
      d.InFahrenheit? && d.celsius == c && (d.fahrenheit - 32.0) * 5.0 / 9.0 == c
  {
  }

  /** A Fahrenheit-to-Celsius reply shows the number asked about and a
      Celsius value that converts back to it exactly. */
  lemma CelsiusReply(s: string, random: Fraction, f: real)
    requires Winner(s) == Some(FahrenheitToC) && Test(FahrenheitToC, s) == Some(AskedCelsius(f))
    ensures var d := Decide(s, random);
      d.InCelsius? && d.fahrenheit == f && d.celsius * 9.0 / 5.0 + 32.0 == f
  {
    Answer(s, random, FahrenheitToC, AskedCelsius(f));
    CelsiusHandled(f, random);
  }

  lemma CelsiusHandled(f: real, random: Fraction)
    ensures var d := Handle(AskedCelsius(f), random);
      d.InCelsius? && d.fahrenheit == f && d.celsius * 9.0 / 5.0 + 32.0 == f
  {
  }

  /** A conversion rule's number is the one of the leftmost match of its
      pattern; `k` is where that match starts. */
  lemma ConversionCapture(s: string, rule: Rule, src: Scale, dst: Scale) returns (k: nat, x: real)
    requires (rule, src, dst) in {(CelsiusToF, Celsius, Fahrenheit), (FahrenheitToC, Fahrenheit, Celsius)}
    requires Matches(rule, s)
    ensures MatchAt(rule, s, k) == Test(rule, s)
    ensures k <= |s| && ConversionAt(s, k, src, dst) == Some(x) && forall j | 0 <= j < k :: ConversionAt(s, j, src, dst).None?
  {
    k := FirstIndex(Hits(rule, s), 0);
    x := ConversionAt(s, k, src, dst).value;
    forall j | 0 <= j < k ensures ConversionAt(s, j, src, dst).None? {
      assert Hits(rule, s)[j].None?;
    }
  }

  /** A text of the shape `dd u to v`, with `u` and `v` each `c` or `f`:
      the shape of the help text's conversion examples. */
  predicate ConversionShape(s: string) {
    && |s| == 9 && IsDigit(s[0]) && IsDigit(s[1]) && s[2] == ' '
    && (s[3] == 'c' || s[3] == 'f') && s[4] == ' ' && s[5] == 't' && s[6] == 'o' && s[7] == ' '
    && (s[8] == 'c' || s[8] == 'f')
  }

  /** In such a text the number is read from either of its digits up to the
      space. */
  lemma ShapeNumber(s: string, i: nat)
    requires ConversionShape(s) && i < 2
    ensures NumberAt(s, i).Some? && NumberAt(s, i).value.end == 2
  {
    assert RunEnd(s, i, IsDigit) == 2 by {
      assert RunEnd(s, 2, IsDigit) == 2;
    }
    assert FractionEnd(s, 2) == 2;
  }

  /** No keyword rule before the conversions matches such a text. */
  lemma ShapeNoKeyword(s: string)
    requires ConversionShape(s)
    ensures !Matches(Blank, s) && !Matches(Greet, s) && !Matches(HowAreYou, s)
    ensures !Matches(TimeOfDay, s) && !Matches(TodaysDate, s) && !Matches(TodaysWeekday, s)
  {
    MissingLetter(s, "hi", 0);
    MissingLetter(s, "hello", 0);
    MissingLetter(s, "hey", 0);
    MissingLetter(s, "how are you", 0);
    MissingLetter(s, "how are u", 0);
    MissingLetter(s, "time", 1);
    MissingLetter(s, "date", 0);
    MissingLetter(s, "what is the date", 0);
    MissingLetter(s, "what's the date", 0);
    MissingLetter(s, "weekday", 0);
    MissingLetter(s, "what day is it", 0);
  }

  /** Neither the weather nor the sum pattern matches such a text. */
  lemma ShapeNoWeatherOrSum(s: string)
    requires ConversionShape(s)
    ensures !Matches(WeatherIn, s) && !Matches(SumOf, s)
  {
    MissingLetter(s, "weather in ", 0);
    MissingLetter(s, "sum", 0);
    MissingLetter(s, "add", 0);
    forall i | 0 <= i <= |s| ensures Hits(WeatherIn, s)[i].None? && Hits(SumOf, s)[i].None? {
      assert !At(s, i, "weather in ") && !At(s, i, "sum") && !At(s, i, "add");
    }
    FirstNone(Hits(WeatherIn, s), 0);
    FirstNone(Hits(SumOf, s), 0);
  }

  /** The arithmetic pattern does not match such a text: its number is
      followed by a letter, not an operator. */
  lemma ShapeNoArithmetic(s: string)
    requires ConversionShape(s)
    ensures !Matches(Arithmetic, s)
  {
    forall i | 0 <= i <= |s| ensures Hits(Arithmetic, s)[i].None? {
      ShapeNoArithAt(s, i);
    }
    FirstNone(Hits(Arithmetic, s), 0);
  }

  lemma ShapeNoArithAt(s: string, i: nat)
    requires ConversionShape(s) && i <= |s|
    ensures ArithAt(s, i).None?
  {
    if i < 2 {
      ShapeNumber(s, i);
      assert RunEnd(s, 2, IsSpace) == 3 by {
        assert RunEnd(s, 3, IsSpace) == 3;
      }
    } else {
      assert NumberAt(s, i).None?;
    }
  }

  /** The rules before the conversions all fail on such a text. */
  lemma NothingBeforeConversion(s: string)
    requires ConversionShape(s)
    ensures forall j | 0 <= j < 9 :: !Matches(Rules[j], s)
  {
    ShapeNoKeyword(s);
    ShapeNoWeatherOrSum(s);
    ShapeNoArithmetic(s);
    forall j | 0 <= j < 9 ensures !Matches(Rules[j], s) {
      assert Rules[j] in [Blank, Greet, HowAreYou, TimeOfDay, TodaysDate, TodaysWeekday, WeatherIn, SumOf, Arithmetic];
    }
  }

  /** The conversion pattern from `u` to `v` matches such a text at its
      start, reading the number. */
  lemma ShapeConversion(s: string, src: Scale, dst: Scale)
    requires ConversionShape(s) && s[3..4] == ShortName(src) && s[8..9] == ShortName(dst)
    ensures ConversionAt(s, 0, src, dst) == Some(NumberAt(s, 0).value.value)
  {
    ShapeNumber(s, 0);
    assert RunEnd(s, 4, IsSpace) == 5 by {
      assert RunEnd(s, 5, IsSpace) == 5;
    }
    assert RunEnd(s, 7, IsSpace) == 8 by {
      assert RunEnd(s, 8, IsSpace) == 8;
    }
    assert At(s, 3, ShortName(src)) && At(s, 5, "to") && At(s, 8, ShortName(dst));
  }

  /** The Celsius-to-Fahrenheit rule reads 30 from `30 c to f`. */
  lemma CelsiusToFReads(s: string)
    requires s == "30 c to f"
    ensures ConversionShape(s)
    ensures Test(CelsiusToF, s) == Some(AskedFahrenheit(30.0))
  {
    ShapeConversion(s, Celsius, Fahrenheit);
    ShapeNumber(s, 0);
    assert s[0..2] == "30" && "30"[..1] == "3";
    FirstAt(Hits(CelsiusToF, s), 0, 0);
  }

  /** In a text of the conversion shape, the Celsius-to-Fahrenheit rule
      answers when it matches. */
  lemma CelsiusShapeWins(s: string)
    requires ConversionShape(s) && Matches(CelsiusToF, s)
    ensures Winner(s) == Some(CelsiusToF)
  {
    NothingBeforeConversion(s);
    FirstMatchWins(s, 9);
  }

  /** The help text's own example `30 c to f` is answered by the
      Celsius-to-Fahrenheit rule, with 86. */
  lemma CelsiusToFExample(s: string, random: Fraction)
    requires s == "30 c to f"
    ensures Winner(s) == Some(CelsiusToF)
    ensures Decide(s, random) == InFahrenheit(30.0, 86.0)
  {
    CelsiusToFReads(s);
    CelsiusShapeWins(s);
    Answer(s, random, CelsiusToF, AskedFahrenheit(30.0));
  }

  /** The Fahrenheit-to-Celsius rule reads 86 from `86 f to c`. */
  lemma FahrenheitToCReads(s: string)
    requires s == "86 f to c"
    ensures ConversionShape(s)
    ensures Test(FahrenheitToC, s) == Some(AskedCelsius(86.0))
  {
    ShapeConversion(s, Fahrenheit, Celsius);
    ShapeNumber(s, 0);
    assert s[0..2] == "86" && "86"[..1] == "8";
    FirstAt(Hits(FahrenheitToC, s), 0, 0);
  }

  /** The Celsius-to-Fahrenheit rule does not match `86 f to c`. */
  lemma FahrenheitToCNotCelsius(s: string)
    requires s == "86 f to c"
    ensures !Matches(CelsiusToF, s)
  {
    assert ConversionShape(s);
    assert !At(s, 3, "c") && !At(s, 3, "celsius");
    forall i | 0 <= i <= |s| ensures Hits(CelsiusToF, s)[i].None? {
      if i < 2 {
        ShapeNumber(s, i);
      } else {
        assert NumberAt(s, i).None?;
      }
    }
    FirstNone(Hits(CelsiusToF, s), 0);
  }

  /** In a text of the conversion shape, the Fahrenheit-to-Celsius rule
      answers when it matches and the Celsius-to-Fahrenheit rule does not. */
  lemma FahrenheitShapeWins(s: string)
    requires ConversionShape(s) && !Matches(CelsiusToF, s) && Matches(FahrenheitToC, s)
    ensures Winner(s) == Some(FahrenheitToC)
  {
    NothingBeforeConversion(s);
    FirstMatchWins(s, 10);
  }

  /** The help text's own example `86 f to c` is answered by the
      Fahrenheit-to-Celsius rule, with 30. */
  lemma FahrenheitToCExample(s: string, random: Fraction)
    requires s == "86 f to c"
    ensures Winner(s) == Some(FahrenheitToC)
    ensures Decide(s, random) == InCelsius(86.0, 30.0)
  {
    FahrenheitToCReads(s);
    FahrenheitToCNotCelsius(s);
    FahrenheitShapeWins(s);
    Answer(s, random, FahrenheitToC, AskedCelsius(86.0));
  }

  // ---------------------------------------------------------------------------
  // The date rules are shadowed

  /** The value of the year of a date `dddd-dd-dd` at `p`. */
  function YearOf(s: string, p: nat): nat
    requires IsoDateAt(s, p)
  {
    assert AllDigits(s[p..p + 4]) by {
      var y := s[p..p + 4];
      assert y[0] == s[p] && y[1] == s[p + 1] && y[2] == s[p + 2] && y[3] == s[p + 3];
    }
    Natural(s[p..p + 4])
  }

  /** The value of the month of a date `dddd-dd-dd` at `p`. */
  function MonthOf(s: string, p: nat): nat
    requires IsoDateAt(s, p)
  {
    assert AllDigits(s[p + 5..p + 7]) by {
      var m := s[p + 5..p + 7];
      assert m[0] == s[p + 5] && m[1] == s[p + 6];
    }
    Natural(s[p + 5..p + 7])
  }

  /** A date `dddd-dd-dd` starts a match of the arithmetic pattern: its year
      minus its month. */
  lemma IsoDateArithmetic(s: string, p: nat)
    requires IsoDateAt(s, p)
    ensures ArithAt(s, p) == Some(Operation(YearOf(s, p) as real, Minus, MonthOf(s, p) as real))
  {
    YearNumber(s, p);
    MonthNumber(s, p);
    assert RunEnd(s, p + 4, IsSpace) == p + 4;
    assert OpOf(s[p + 4]) == Some(Minus);
    assert RunEnd(s, p + 5, IsSpace) == p + 5;
  }

  /** The year of a date `dddd-dd-dd` reads as a number ending at the dash. */
  lemma YearNumber(s: string, p: nat)
    requires IsoDateAt(s, p)
    ensures NumberAt(s, p) == Some(Lexeme(YearOf(s, p) as real, p + 4))
  {
    assert RunEnd(s, p, IsDigit) == p + 4 by {
      assert RunEnd(s, p + 4, IsDigit) == p + 4;
    }
    assert FractionEnd(s, p + 4) == p + 4;
  }

  /** The month of a date `dddd-dd-dd` reads as a number ending at the
      second dash. */
  lemma MonthNumber(s: string, p: nat)
    requires IsoDateAt(s, p)
    ensures NumberAt(s, p + 5) == Some(Lexeme(MonthOf(s, p) as real, p + 7))
  {
    assert RunEnd(s, p + 5, IsDigit) == p + 7 by {
      assert RunEnd(s, p + 7, IsDigit) == p + 7;
    }
    assert FractionEnd(s, p + 7) == p + 7;
  }

  /** A date anywhere in the text makes the arithmetic rule match. */
  lemma DateMatchesArithmetic(s: string, p: nat)
    requires IsoDateAt(s, p)
    ensures Matches(Arithmetic, s)
  {
    IsoDateArithmetic(s, p);
    ArithmeticAt(s, p);
  }

  /** A match of the arithmetic pattern anywhere makes the arithmetic rule match. */
  lemma ArithmeticAt(s: string, p: nat)
    requires p <= |s| && ArithAt(s, p).Some?
    ensures Matches(Arithmetic, s)
  {
    ArithHit(s, p);
    FirstNone(Hits(Arithmetic, s), 0);
  }

  /** The arithmetic rule's search sees a match of its pattern. */
  lemma ArithHit(s: string, p: nat)
    requires p <= |s| && ArithAt(s, p).Some?
    ensures Hits(Arithmetic, s)[p].Some?
  {
    assert MatchAt(Arithmetic, s, p) == Some(AskedArithmetic(ArithAt(s, p).value));
  }

  /** Where the `days until` pattern matches, a date follows the keywords. */
  lemma DaysUntilDate(s: string, k: nat) returns (p: nat)
    requires MatchAt(DaysUntil, s, k).Some?
    ensures IsoDateAt(s, p)
  {
    assert DaysUntilAt(s, k).Some?;
    var j := if At(s, k + 3, "s") then k + 4 else k + 3;
    p := j + 7;
  }

  /** Whenever the `days until` pattern matches, the arithmetic pattern
      matches too, at the year of the date. */
  lemma DaysUntilIsArithmetic(s: string)
    requires Matches(DaysUntil, s)
    ensures Matches(Arithmetic, s)
  {
    var k := FirstIndex(Hits(DaysUntil, s), 0);
    var p := DaysUntilDate(s, k);
    DateMatchesArithmetic(s, p);
  }

  /** Whenever the `weekday for` pattern matches, the arithmetic pattern
      matches too, at the year of the date. */
  lemma WeekdayForIsArithmetic(s: string)
    requires Matches(WeekdayFor, s)
    ensures Matches(Arithmetic, s)
  {
    var k := FirstIndex(Hits(WeekdayFor, s), 0);
    assert WeekdayForAt(s, k).Some?;
    DateMatchesArithmetic(s, k + 12);
  }

  /** A rule that never matches without an earlier rule matching too never
      answers. */
  lemma Shadowed(s: string, rule: Rule, earlier: Rule)
    requires Rank(earlier) < Rank(rule)
    requires Matches(rule, s) ==> Matches(earlier, s)
    ensures Winner(s) != Some(rule)
  {
    if Winner(s) == Some(rule) {
      WinnerMatches(s, rule);
      MatchBounds(s, earlier);
    }
  }

  /** The `days until` rule never answers. */
  lemma DaysUntilNeverWins(s: string)
    ensures Winner(s) != Some(DaysUntil)
  {
    if Matches(DaysUntil, s) {
      DaysUntilIsArithmetic(s);
    }
    Shadowed(s, DaysUntil, Arithmetic);
  }

  /** The `weekday for` rule never answers. */
  lemma WeekdayForNeverWins(s: string)
    ensures Winner(s) != Some(WeekdayFor)
  {
    if Matches(WeekdayFor, s) {
      WeekdayForIsArithmetic(s);
    }
    Shadowed(s, WeekdayFor, Arithmetic);
  }

  /** A whole-word `weekday` is answered by the weekday rule or an earlier
      one, so `weekday for <date>` reaches neither the arithmetic nor the
      date-math rules. */
  lemma WeekdayWordWins(s: string)
    requires HasWord(s, "weekday")
    ensures Winner(s).Some? && Winner(s).value in {Greet, HowAreYou, TimeOfDay, TodaysDate, TodaysWeekday}
  {
    MatchBounds(s, TodaysWeekday);
    if Winner(s) == Some(Blank) {
      WinnerMatches(s, Blank);
    }
  }

  /** A text that lacks one of a word's letters contains the word nowhere. */
  lemma MissingLetter(s: string, w: string, k: nat)
    requires k < |w| && forall i | 0 <= i < |s| :: s[i] != w[k]
    ensures !Contains(s, w) && !HasWord(s, w)
  {
    forall i | 0 <= i <= |s| ensures !At(s, i, w) {
      if i + |w| <= |s| {
        assert s[i..i + |w|][k] == s[i + k] != w[k];
      }
    }
  }

  /** Input with a whole-word `weekday` and neither an `h` nor a `t` is
      answered by the weekday rule: no earlier rule can match without one
      of those letters. */
  lemma WeekdayAnswers(s: string)
    requires HasWord(s, "weekday")
    requires forall i | 0 <= i < |s| :: s[i] != 'h' && s[i] != 't'
    ensures Winner(s) == Some(TodaysWeekday)
  {
    NoHOrT(s);
    WeekdayWordWins(s);
    WinnerMatches(s, Winner(s).value);
  }

  /** Without an `h` or a `t`, neither the greeting, the "how are you", the
      time nor the date rule matches. */
  lemma NoHOrT(s: string)
    requires forall i | 0 <= i < |s| :: s[i] != 'h' && s[i] != 't'
    ensures !Matches(Greet, s) && !Matches(HowAreYou, s) && !Matches(TimeOfDay, s) && !Matches(TodaysDate, s)
  {
    MissingLetter(s, "hi", 0);
    MissingLetter(s, "hello", 0);
    MissingLetter(s, "hey", 0);
    MissingLetter(s, "how are you", 0);
    MissingLetter(s, "how are u", 0);
    MissingLetter(s, "time", 0);
    MissingLetter(s, "date", 2);
    MissingLetter(s, "what is the date", 1);
    MissingLetter(s, "what's the date", 1);
  }

  /** `weekday for 2025-01-01` is answered with today's weekday. */
  lemma WeekdayForToday()
    ensures Winner("weekday for 2025-01-01") == Some(TodaysWeekday)
  {
    var s := "weekday for 2025-01-01";
    assert At(s, 0, "weekday") && Boundary(s, 0) && Boundary(s, 7);
    WeekdayAnswers(s);
  }

  // ---------------------------------------------------------------------------
  // Weather stub and random picks

  /** Title-casing a second time changes nothing. */
  lemma TitleCaseIdempotent(s: string)
    ensures TitleCase(TitleCase(s)) == TitleCase(s)
  {
    var t := TitleCase(s);
    forall i | 0 <= i < |s| ensures WordAt(t, i) == WordAt(s, i) {
      UpperChar(s[i]);
    }
    forall i | 0 <= i < |s| ensures TitleCase(t)[i] == t[i] {
      assert Boundary(t, i) == Boundary(s, i);
      UpperChar(s[i]);
    }
  }

  /** The weather rule's group is the run of letters and white space after
      `weather in ` at the leftmost match; `k` is where that match starts. */
  lemma WeatherCapture(s: string) returns (k: nat, c: string)
    requires Matches(WeatherIn, s)
    ensures Test(WeatherIn, s) == Some(AskedWeather(c))
    ensures k <= |s| && WeatherAt(s, k) == Some(c) && forall j | 0 <= j < k :: WeatherAt(s, j).None?
  {
    k := FirstIndex(Hits(WeatherIn, s), 0);
    c := WeatherAt(s, k).value;
    forall j | 0 <= j < k ensures WeatherAt(s, j).None? {
      assert Hits(WeatherIn, s)[j].None?;
    }
  }

  /** A captured city holds no upper-case letter when the input holds none. */
  lemma CityIsLower(s: string, k: nat, c: string)
    requires forall i | 0 <= i < |s| :: !IsUpperLetter(s[i])
    requires WeatherAt(s, k) == Some(c)
    ensures forall n | 0 <= n < |c| :: !IsUpperLetter(c[n])
  {
    var i := k + |"weather in "|;
    assert c == s[i..RunEnd(s, i, IsCityChar)];
    forall n | 0 <= n < |c| ensures !IsUpperLetter(c[n]) {
      assert c[n] == s[i + n];
    }
  }

  /** When the weather rule answers a normalised input, the stub names the
      captured city, trimmed, with exactly the first letter of each word
      capitalised, and one of the five moods. */
  lemma WeatherReply(raw: string, random: Fraction, c: string)
    requires Winner(Normalize(raw)) == Some(WeatherIn) && Test(WeatherIn, Normalize(raw)) == Some(AskedWeather(c))
    ensures var d := Decide(Normalize(raw), random);
      && d.WeatherStub?
      && d.mood in Moods
      && |d.city| == |Trim(c)|
      && Lower(d.city) == Trim(c)
      && (forall n | 0 <= n < |d.city| :: d.city[n] != Trim(c)[n] <==> Boundary(Trim(c), n) && IsLowerLetter(Trim(c)[n]))
      && TitleCase(d.city) == d.city
      && (d.city == [] || !IsLowerLetter(d.city[0]))
  {
    var s := Normalize(raw);
    WinnerSpec(s);
    NormalizeSpec(raw);
    var k, c' := WeatherCapture(s);
    CityIsLower(s, k, c);
    Answer(s, random, WeatherIn, AskedWeather(c));
    var city := Trim(c);
    TrimSpec(c);
    TitleCaseSpec(city);
    var i :| 0 <= i <= |c| && Flanked(c, i, city);
    forall n | 0 <= n < |city| ensures !IsUpperLetter(city[n]) {
      assert city[n] == c[i + n];
    }
    LowerIdentity(city);
    TitleCaseIdempotent(city);
    if city != [] {
      UpperChar(city[0]);
    }
  }

  /** A joke is always one of the three fixed jokes. */
  lemma JokePick(s: string, random: Fraction)
    requires Winner(s) == Some(JokeRequest)
    ensures Decide(s, random).Joke? && Decide(s, random).text in Jokes
  {
    WinnerSpec(s);
    Answer(s, random, JokeRequest, AskedJoke);
  }

  /** A quote is always one of the three fixed quotes. */
  lemma QuotePick(s: string, random: Fraction)
    requires Winner(s) == Some(QuoteRequest)
    ensures Decide(s, random).Quote? && Decide(s, random).text in Quotes
  {
    WinnerSpec(s);
    Answer(s, random, QuoteRequest, AskedQuote);
  }

  // ---------------------------------------------------------------------------
  // Text transforms

  /** The remainder captured by `keyword(.+)` is non-empty, follows the
      keyword, and runs to the end of its line. */
  lemma CaptureFollowsKeyword(s: string, keyword: string, k: nat, c: string)
    requires CaptureAt(s, k, keyword) == Some(c)
    ensures c != [] && At(s, k, keyword + c)
    ensures forall n | 0 <= n < |c| :: IsLineChar(c[n])
    ensures var e := k + |keyword| + |c|; e == |s| || IsLineTerminator(s[e])
  {
    var j := k + |keyword|;
    assert c == s[j..RunEnd(s, j, IsLineChar)];
    assert s[k..k + |keyword + c|] == keyword + c;
  }

  /** A transform rule's group is the rest of the line after its keyword at
      the leftmost match; `k` is where that match starts. */
  lemma TransformCapture(s: string, rule: Rule, keyword: string) returns (k: nat, c: string)
    requires (rule, keyword) in {(ReverseText, "reverse "), (UppercaseText, "uppercase "), (LowercaseText, "lowercase ")}
    requires Matches(rule, s)
    ensures MatchAt(rule, s, k) == Test(rule, s)
    ensures k <= |s| && CaptureAt(s, k, keyword) == Some(c) && forall j | 0 <= j < k :: CaptureAt(s, j, keyword).None?
  {
    k := FirstIndex(Hits(rule, s), 0);
    c := CaptureAt(s, k, keyword).value;
    forall j | 0 <= j < k ensures CaptureAt(s, j, keyword).None? {
      assert Hits(rule, s)[j].None?;
    }
  }

  /** When the reverse rule answers, reversing the reply gives back the
      captured text. */
  lemma ReverseReply(s: string, random: Fraction, c: string)
    requires Winner(s) == Some(ReverseText) && Test(ReverseText, s) == Some(AskedReverse(c))
    ensures Decide(s, random).Reversed? && |Decide(s, random).text| == |c|
    ensures Reverse(Decide(s, random).text) == c
  {
    Answer(s, random, ReverseText, AskedReverse(c));
    ReverseInvolution(c);
  }

  /** When the uppercase rule answers, the reply is the captured text with
      every letter upper-case and nothing else changed. */
  lemma UppercaseReply(s: string, random: Fraction, c: string)
    requires Winner(s) == Some(UppercaseText) && Test(UppercaseText, s) == Some(AskedUppercase(c))
    ensures var d := Decide(s, random);
      && d.Uppercased?
      && |d.text| == |c|
      && Lower(d.text) == Lower(c)
      && forall n | 0 <= n < |c| :: !IsLowerLetter(d.text[n])
  {
    Answer(s, random, UppercaseText, AskedUppercase(c));
    UppercaseHandled(c, random);
  }

  lemma UppercaseHandled(c: string, random: Fraction)
    ensures var d := Handle(AskedUppercase(c), random);
      && d.Uppercased?
      && |d.text| == |c|
      && Lower(d.text) == Lower(c)
      && forall n | 0 <= n < |c| :: !IsLowerLetter(d.text[n])
  {
    UpperCases(c);
  }

  /** A captured remainder holds no upper-case letter when the input holds none. */
  lemma CaptureIsLower(s: string, k: nat, keyword: string, c: string)
    requires forall i | 0 <= i < |s| :: !IsUpperLetter(s[i])
    requires CaptureAt(s, k, keyword) == Some(c)
    ensures forall n | 0 <= n < |c| :: !IsUpperLetter(c[n])
  {
    var j := k + |keyword|;
    assert c == s[j..RunEnd(s, j, IsLineChar)];
    forall n | 0 <= n < |c| ensures !IsUpperLetter(c[n]) {
      assert c[n] == s[j + n];
    }
  }

  /** When the lowercase rule answers a normalised input, the reply echoes
      the captured text unchanged: the input was already lower-cased. */
  lemma LowercaseUnchanged(raw: string, random: Fraction, c: string)
    requires Winner(Normalize(raw)) == Some(LowercaseText) && Test(LowercaseText, Normalize(raw)) == Some(AskedLowercase(c))
    ensures Decide(Normalize(raw), random) == Lowercased(c)
  {
    var s := Normalize(raw);
    WinnerSpec(s);
    NormalizeSpec(raw);
    var k, c' := TransformCapture(s, LowercaseText, "lowercase ");
    CaptureIsLower(s, k, "lowercase ", c);
    LowerIdentity(c);
    Answer(s, random, LowercaseText, AskedLowercase(c));
  }

  /** The transforms are tried in the order reverse, uppercase, lowercase. */
  lemma ReverseBeforeCase(s: string)
    requires Matches(ReverseText, s)
    ensures Winner(s).Some? && Winner(s).value !in {UppercaseText, LowercaseText}
  {
    MatchBounds(s, ReverseText);
  }

  lemma UppercaseBeforeLowercase(s: string)
    requires Matches(UppercaseText, s)
    ensures Winner(s).Some? && Winner(s).value != LowercaseText
  {
    MatchBounds(s, UppercaseText);
  }
}
