/**
 * The rule-based responder `getRuleBasedResponse`: the input is trimmed and
 * lower-cased, then tested against an ordered list of rules; the first rule
 * whose pattern matches decides the reply, and an input no rule matches gets
 * the fallback. Each regular expression the responder uses is modelled by a
 * matcher `XAt(s, i)` (does the pattern match at position `i`, and with which
 * groups), and `Find` picks the first position where it matches, as an
 * unanchored pattern does.
 *
 * The clock, the locale, the JavaScript number formatting and `Math.random`
 * are not modelled; they reach the responder through an `Env`.
 */
module Responder {
  import opened JsText

  const BotName: string := "Jerry"

  /** A value of `Math.random()`. */
  type Fraction = r: real | 0.0 <= r < 1.0

  /** What the responder reads from outside itself. */
  datatype Env = Env(
    random: Fraction,                  // Math.random()
    clockTime: string,                 // new Date().toLocaleTimeString()
    clockDate: string,                 // new Date().toLocaleDateString()
    clockWeekday: string,              // new Date().toLocaleDateString(undefined, { weekday: 'long' })
    number: real -> string,            // `${x}` for a number x
    fixed2: real -> string,            // x.toFixed(2)
    daysUntil: string -> Option<int>,  // Math.ceil((new Date(d) - now) / one day); None when it is NaN
    dateString: string -> string,      // new Date(d).toDateString()
    weekdayOf: string -> string)       // new Date(d).toLocaleDateString(undefined, { weekday: 'long' })

  // ---------------------------------------------------------------------------
  // Normalisation

  /** `inputRaw.trim().toLowerCase()` */
  function Normalize(raw: string): string {
    Lower(Trim(raw))
  }

  /** The normalised input is empty exactly when the raw input is blank, has
      no white space at either end, and holds no upper-case letter. */
  lemma NormalizeSpec(raw: string)
    ensures var s := Normalize(raw);
      && (s == [] <==> AllSpace(raw))
      && (s == [] || (!IsSpace(s[0]) && !IsSpace(s[|s| - 1])))
      && forall i | 0 <= i < |s| :: !IsUpperLetter(s[i])
  {
    var t := Trim(raw);
    TrimSpec(raw);
    LowerKeepsSpaces(t);
    LowerSpec(t);
    forall i | 0 <= i < |t| ensures !IsUpperLetter(Lower(t)[i]) {
      LowerChar(t[i]);
    }
  }

  // ---------------------------------------------------------------------------
  // Numbers: `-?\d+(?:\.\d+)?` and parseFloat

  predicate AllDigits(ds: string) {
    forall i | 0 <= i < |ds| :: IsDigit(ds[i])
  }

  function DigitValue(c: char): (d: nat)
    requires IsDigit(c)
    ensures d < 10
  {
    c as int - '0' as int
  }

  /** The value of a run of decimal digits. */
  function Natural(ds: string): (v: nat)
    requires AllDigits(ds)
    ensures ds != [] ==> v < Pow10(|ds|)
  {
    if ds == [] then 0 else Natural(ds[..|ds| - 1]) * 10 + DigitValue(ds[|ds| - 1])
  }

  function Pow10(n: nat): (p: nat)
    ensures p >= 1
  {
    if n == 0 then 1 else 10 * Pow10(n - 1)
  }

  /** Reading two runs of digits one after the other as one number shifts
      the first by the length of the second. */
  lemma {:induction false} NaturalConcat(a: string, b: string)
    requires AllDigits(a) && AllDigits(b)
    ensures AllDigits(a + b)
    ensures Natural(a + b) == Natural(a) * Pow10(|b|) + Natural(b)
    decreases |b|
  {
    assert AllDigits(a + b) by {
      forall k | 0 <= k < |a + b| ensures IsDigit((a + b)[k]) {
        if k < |a| {
          assert (a + b)[k] == a[k];
        } else {
          assert (a + b)[k] == b[k - |a|];
        }
      }
    }
    if b == [] {
      assert a + b == a;
    } else {
      var b' := b[..|b| - 1];
      var c := b[|b| - 1];
      assert AllDigits(b') by {
        forall k | 0 <= k < |b'| ensures IsDigit(b'[k]) {
          assert b'[k] == b[k];
        }
      }
      NaturalConcat(a, b');
      assert (a + b)[..|a + b| - 1] == a + b';
      assert (a + b)[|a + b| - 1] == c;
      var na, nb, p := Natural(a), Natural(b'), Pow10(|b'|);
      assert Natural(a + b) == Natural(a + b') * 10 + DigitValue(c);
      assert Natural(a + b') == na * p + nb;
      assert Natural(b) == nb * 10 + DigitValue(c);
      assert Pow10(|b|) == p * 10;
      ShiftDigit(na, p, nb);
    }
  }

  lemma ShiftDigit(x: int, y: int, z: int)
    ensures (x * y + z) * 10 == x * (y * 10) + z * 10
  {
  }

  /** `t` is a match of `\d+(?:\.\d+)?` and `x` the value parseFloat gives
      it: the digits with the dot left out, read as one whole number, over
      ten to the number of digits after the dot. */
  predicate DecimalNumeral(t: string, x: real) {
    || (t != [] && AllDigits(t) && x == Natural(t) as real)
    || exists d | 0 < d < |t| - 1 :: t[d] == '.' && AllDigits(t[..d] + t[d + 1..]) && x == DotReading(t, d)
  }

  /** The digits of `t` either side of its dot at `d`, read as one whole
      number, over ten to the number of digits after the dot. */
  function DotReading(t: string, d: nat): real
    requires d < |t| && AllDigits(t[..d] + t[d + 1..])
  {
    Natural(t[..d] + t[d + 1..]) as real / Pow10(|t| - d - 1) as real
  }

  /** parseFloat of `\d+(?:\.\d+)?`, from its whole and fraction digits
      (the fraction possibly empty). */
  function DecimalValue(whole: string, fraction: string): (v: real)
    requires AllDigits(whole) && AllDigits(fraction)
    ensures Natural(whole) as real <= v < Natural(whole) as real + 1.0
  {
    var x, y, z := Natural(whole), Pow10(|fraction|), Natural(fraction);
    assert z < y;
    RatioBelowOne(z, y);
    x as real + z as real / y as real
  }

  /** parseFloat reads all the digits as one whole number, then places the
      dot: the value is that number over ten to the number of fraction
      digits. */
  lemma DecimalScaled(whole: string, fraction: string)
    requires AllDigits(whole) && AllDigits(fraction)
    ensures AllDigits(whole + fraction)
    ensures DecimalValue(whole, fraction) == Natural(whole + fraction) as real / Pow10(|fraction|) as real
  {
    NaturalConcat(whole, fraction);
    ShiftReal(Natural(whole), Pow10(|fraction|), Natural(fraction));
  }

  /** A fraction whose numerator is below its denominator is below one. */
  lemma RatioBelowOne(n: nat, p: nat)
    requires n < p
    ensures 0.0 <= n as real / p as real < 1.0
  {
    var q := n as real / p as real;
    assert q * p as real == n as real;
    if q >= 1.0 {
      assert false;
    }
  }

  /** Scaling `x + z / y` by `y`, in the reals, for integers. */
  lemma ShiftReal(x: int, y: int, z: int)
    requires y > 0
    ensures x as real + z as real / y as real == (x * y + z) as real / y as real
  {
    var q := z as real / y as real;
    assert q * y as real == z as real;
    assert (x * y) as real == x as real * y as real;
    assert (x as real + q) * y as real == (x * y + z) as real;
  }

  /** Where the greedy `(?:\.\d+)?` that starts at `e` ends. */
  function FractionEnd(s: string, e: nat): (f: nat)
    requires e <= |s|
    ensures f == e || (e + 1 < f <= |s| && s[e] == '.' && AllDigits(s[e + 1..f]) && (f == |s| || !IsDigit(s[f])))
  {
    if e + 1 < |s| && s[e] == '.' && IsDigit(s[e + 1]) then RunEnd(s, e + 1, IsDigit) else e
  }

  /** A number read from the input, and the position just after it. */
  datatype Lexeme = Lexeme(value: real, end: nat)

  /** Where the digits of a number that starts at `i` begin: after its
      minus sign, if it has one. */
  function DigitsStart(s: string, i: nat): (start: nat)
    ensures start == i || (start == i + 1 && i < |s| && s[i] == '-')
  {
    if i < |s| && s[i] == '-' then i + 1 else i
  }

  /** The digits `s[start..e]` and, unless `f == e`, a dot and the digits
      up to `f` spell the number that DecimalValue computes from them. */
  lemma NumeralRead(s: string, start: nat, e: nat, f: nat)
    requires start < e <= f <= |s| && AllDigits(s[start..e])
    requires f == e || (e + 1 < f && s[e] == '.' && AllDigits(s[e + 1..f]))
    ensures DecimalNumeral(s[start..f], DecimalValue(s[start..e], if f == e then [] else s[e + 1..f]))
  {
    if f == e {
      WholeRead(s[start..e]);
    } else {
      var t, d := s[start..f], e - start;
      assert t[..d] == s[start..e] && t[d + 1..] == s[e + 1..f] && t[d] == '.';
      FractionRead(t, d);
    }
  }

  /** Digits with no dot are read as a whole number. */
  lemma WholeRead(t: string)
    requires t != [] && AllDigits(t)
    ensures DecimalNumeral(t, DecimalValue(t, []))
  {
    DecimalScaled(t, []);
    assert t + [] == t;
  }

  /** Digits with a dot at `d` are read as the digits either side of it. */
  lemma FractionRead(t: string, d: nat)
    requires 0 < d < |t| - 1 && t[d] == '.' && AllDigits(t[..d]) && AllDigits(t[d + 1..])
    ensures DecimalNumeral(t, DecimalValue(t[..d], t[d + 1..]))
  {
    var x := DecimalValue(t[..d], t[d + 1..]);
    DecimalScaled(t[..d], t[d + 1..]);
    assert |t[d + 1..]| == |t| - d - 1;
    assert x == DotReading(t, d);
  }

  /** `-?\d+(?:\.\d+)?` at position `i`, read greedily, with its parseFloat
      value. No digit follows it, so no shorter reading can let a pattern
      succeed where this one fails. */
  function NumberAt(s: string, i: nat): (n: Option<Lexeme>)
    ensures n.Some? <==> i < |s| && (IsDigit(s[i]) || (s[i] == '-' && i + 1 < |s| && IsDigit(s[i + 1])))
    ensures n.Some? ==> i < n.value.end <= |s| && (n.value.end == |s| || !IsDigit(s[n.value.end]))
    ensures n.Some? && s[i] != '-' ==> n.value.value >= 0.0
  {
    if i >= |s| then None
    else
      var start := if s[i] == '-' then i + 1 else i;
      var e := RunEnd(s, start, IsDigit);
      if e == start then None
      else
        var f := FractionEnd(s, e);
        var fraction := if f == e then [] else s[e + 1..f];
        var sign := if s[i] == '-' then -1.0 else 1.0;
        Some(Lexeme(sign * DecimalValue(s[start..e], fraction), f))
  }

  /** The number read at `i` is the parseFloat value of the text it spans,
      minus sign apart, and a fraction is read whenever a dot and a digit
      follow the whole digits. */
  lemma NumberValue(s: string, i: nat)
    requires NumberAt(s, i).Some?
    ensures DigitsStart(s, i) < NumberAt(s, i).value.end
    ensures var n := NumberAt(s, i).value;
            DecimalNumeral(s[DigitsStart(s, i)..n.end], if s[i] == '-' then -n.value else n.value)
    ensures var n := NumberAt(s, i).value;
            n.end + 1 < |s| && s[n.end] == '.' && IsDigit(s[n.end + 1]) ==> '.' in s[DigitsStart(s, i)..n.end]
  {
    var start, e := NumberParts(s, i);
    var f := FractionEnd(s, e);
    NumeralRead(s, start, e, f);
    if f > e {
      assert s[start..f][e - start] == s[e];
    }
  }

  /** A numeral has one value: DecimalNumeral fixes what parseFloat returns. */
  lemma NumeralUnique(t: string, x: real, y: real)
    requires DecimalNumeral(t, x) && DecimalNumeral(t, y)
    ensures x == y
  {
    if AllDigits(t) {
      forall d | 0 < d < |t| - 1 ensures t[d] != '.' {
        assert IsDigit(t[d]);
      }
    } else {
      var d :| 0 < d < |t| - 1 && t[d] == '.' && AllDigits(t[..d] + t[d + 1..]) && x == DotReading(t, d);
      DotValue(t, y, d);
    }
  }

  /** With a dot at `d`, a numeral's value is read around that dot. */
  lemma DotValue(t: string, x: real, d: nat)
    requires 0 < d < |t| - 1 && t[d] == '.' && DecimalNumeral(t, x)
    ensures AllDigits(t[..d] + t[d + 1..]) && x == DotReading(t, d)
  {
    assert !IsDigit(t[d]);
    var d' :| 0 < d' < |t| - 1 && t[d'] == '.' && AllDigits(t[..d'] + t[d' + 1..]) && x == DotReading(t, d');
    OnlyDot(t, d, d');
  }

  /** Once the dot at `d'` is left out, all that is left is digits: so `d'`
      is the only dot. */
  lemma OnlyDot(t: string, d: nat, d': nat)
    requires d < |t| && d' < |t| && t[d] == '.' && AllDigits(t[..d'] + t[d' + 1..])
    ensures d == d'
  {
    var r := t[..d'] + t[d' + 1..];
    forall k | 0 <= k < |t| && k != d' ensures IsDigit(t[k]) {
      if k < d' {
        assert r[k] == t[k];
      } else {
        assert r[k - 1] == t[k];
      }
    }
  }

  /** `1.5` is read whole, fraction and all. */
  lemma ReadsFraction(s: string)
    requires s == "1.5"
    ensures NumberAt(s, 0) == Some(Lexeme(1.5, 3))
  {
    var start, e := NumberParts(s, 0);
    assert s[0] == '1' && s[1] == '.' && s[2] == '5';
    assert RunEnd(s, 0, IsDigit) == 1 by {
      assert RunEnd(s, 1, IsDigit) == 1;
    }
    assert FractionEnd(s, 1) == 3;
    assert Natural(s[0..1]) == 1 && Natural(s[2..3]) == 5;
  }

  /** How NumberAt reads the number at `i`: the whole digits `s[start..e]`,
      then the fraction FractionEnd finds after them. */
  lemma NumberParts(s: string, i: nat) returns (start: nat, e: nat)
    requires NumberAt(s, i).Some?
    ensures start == DigitsStart(s, i) && e == RunEnd(s, start, IsDigit)
    ensures start < e <= |s| && AllDigits(s[start..e])
    ensures var f := FractionEnd(s, e);
            && NumberAt(s, i).value.end == f
            && (if s[i] == '-' then -NumberAt(s, i).value.value else NumberAt(s, i).value.value)
               == DecimalValue(s[start..e], if f == e then [] else s[e + 1..f])
  {
    start := DigitsStart(s, i);
    e := RunEnd(s, start, IsDigit);
    assert AllDigits(s[start..e]);
  }

  // ---------------------------------------------------------------------------
  // The patterns

  /** `^(hi|hello|hey)\b` with `w` one of the three words */
  predicate GreetingWord(s: string, w: string) {
    At(s, 0, w) && Boundary(s, |w|)
  }

  predicate IsCityChar(c: char) { IsLowerLetter(c) || IsSpace(c) }

  /** `weather in ([a-z\s]+)` at `i`: the captured group */
  function WeatherAt(s: string, i: nat): Option<string> {
    var j := i + |"weather in "|;
    if At(s, i, "weather in ") && j < |s| && IsCityChar(s[j]) then Some(s[j..RunEnd(s, j, IsCityChar)])
    else None
  }

  datatype Addends = Addends(a: real, b: real)

  /** The length of `and`, `+` or `with` at `k`, the middle of the sum pattern. */
  function ConjunctionAt(s: string, k: nat): Option<nat> {
    if At(s, k, "and") then Some(3)
    else if At(s, k, "+") then Some(1)
    else if At(s, k, "with") then Some(4)
    else None
  }

  /** `(?:sum|add)\s+(NUM)\s+(?:and|\+|with)\s+(NUM)` at `i`: the two numbers */
  function SumAt(s: string, i: nat): Option<Addends> {
    if !(At(s, i, "sum") || At(s, i, "add")) then None
    else
      var j := RunEnd(s, i + 3, IsSpace);
      if j == i + 3 then None
      else match NumberAt(s, j)
        case None => None
        case Some(x) =>
          var k := RunEnd(s, x.end, IsSpace);
          var w := ConjunctionAt(s, k);
          if k == x.end || w.None? || k + w.value > |s| then None
          else
            var m := RunEnd(s, k + w.value, IsSpace);
            if m == k + w.value then None
            else match NumberAt(s, m)
              case None => None
              case Some(y) => Some(Addends(x.value, y.value))
  }

  datatype Op = Plus | Minus | Times | Divide

  function OpOf(c: char): Option<Op> {
    if c == '+' then Some(Plus)
    else if c == '-' then Some(Minus)
    else if c == '*' then Some(Times)
    else if c == '/' then Some(Divide)
    else None
  }

  datatype Operation = Operation(a: real, op: Op, b: real)

  /** `(NUM)\s*([+\-*\/])\s*(NUM)` at `i`: the operands and the operator */
  function ArithAt(s: string, i: nat): Option<Operation> {
    match NumberAt(s, i)
    case None => None
    case Some(x) =>
      var j := RunEnd(s, x.end, IsSpace);
      if j < |s| && OpOf(s[j]).Some? then
        match NumberAt(s, RunEnd(s, j + 1, IsSpace))
        case None => None
        case Some(y) => Some(Operation(x.value, OpOf(s[j]).value, y.value))
      else None
  }

  datatype Scale = Celsius | Fahrenheit

  function ShortName(u: Scale): string {
    match u
    case Celsius => "c"
    case Fahrenheit => "f"
  }

  function LongName(u: Scale): string {
    match u
    case Celsius => "celsius"
    case Fahrenheit => "fahrenheit"
  }

  /** `\s*(?:to|in)\s*(?:u|unit)` at `j` */
  predicate TargetAt(s: string, j: nat, u: Scale)
    requires j <= |s|
  {
    var a := RunEnd(s, j, IsSpace);
    && (At(s, a, "to") || At(s, a, "in"))
    && var b := RunEnd(s, a + 2, IsSpace);
       At(s, b, ShortName(u)) || At(s, b, LongName(u))
  }

  /** `(NUM)\s?(?:src|source)\s*(?:to|in)\s*(?:dst|target)` at `i`: the number */
  function ConversionAt(s: string, i: nat, src: Scale, dst: Scale): Option<real> {
    match NumberAt(s, i)
    case None => None
    case Some(x) =>
      var k := if x.end < |s| && IsSpace(s[x.end]) then x.end + 1 else x.end;
      if || (At(s, k, ShortName(src)) && TargetAt(s, k + |ShortName(src)|, dst))
         || (At(s, k, LongName(src)) && TargetAt(s, k + |LongName(src)|, dst))
      then Some(x.value)
      else None
  }

  /** `\d{4}-\d{2}-\d{2}` at `i` */
  predicate IsoDateAt(s: string, i: nat) {
    && i + 10 <= |s|
    && IsDigit(s[i]) && IsDigit(s[i + 1]) && IsDigit(s[i + 2]) && IsDigit(s[i + 3])
    && s[i + 4] == '-' && IsDigit(s[i + 5]) && IsDigit(s[i + 6])
    && s[i + 7] == '-' && IsDigit(s[i + 8]) && IsDigit(s[i + 9])
  }

  /** `days? until (\d{4}-\d{2}-\d{2})` at `i`: the date */
  function DaysUntilAt(s: string, i: nat): Option<string> {
    if !At(s, i, "day") then None
    else
      var j := if At(s, i + 3, "s") then i + 4 else i + 3;
      if At(s, j, " until ") && IsoDateAt(s, j + 7) then Some(s[j + 7..j + 17]) else None
  }

  /** `weekday for (\d{4}-\d{2}-\d{2})` at `i`: the date */
  function WeekdayForAt(s: string, i: nat): Option<string> {
    if At(s, i, "weekday for ") && IsoDateAt(s, i + 12) then Some(s[i + 12..i + 22]) else None
  }

  /** `keyword(.+)` at `i`, the keyword ending in a space: the captured group */
  function CaptureAt(s: string, i: nat, keyword: string): Option<string> {
    var j := i + |keyword|;
    if At(s, i, keyword) && j < |s| && IsLineChar(s[j]) then Some(s[j..RunEnd(s, j, IsLineChar)])
    else None
  }

  // ---------------------------------------------------------------------------
  // Handlers' helpers

  /** `city.replace(/\b\w/g, (m) => m.toUpperCase())` */
  function TitleCase(s: string): (r: string)
    ensures |r| == |s|
  {
    seq(|s|, i requires 0 <= i < |s| => if IsWordChar(s[i]) && Boundary(s, i) then ToUpperChar(s[i]) else s[i])
  }

  /** Title-casing changes exactly the lower-case letters that start a word,
      and changes no letter's lower-case form; with the length kept, this
      fixes the result. */
  lemma TitleCaseSpec(s: string)
    ensures Lower(TitleCase(s)) == Lower(s)
    ensures forall i | 0 <= i < |s| :: TitleCase(s)[i] != s[i] <==> Boundary(s, i) && IsLowerLetter(s[i])
  {
    var r := TitleCase(s);
    LowerSpec(r);
    LowerSpec(s);
    forall i | 0 <= i < |s|
      ensures Lower(r)[i] == Lower(s)[i]
      ensures r[i] != s[i] <==> Boundary(s, i) && IsLowerLetter(s[i])
    {
      UpperChar(s[i]);
    }
  }

  /** `options[Math.floor(random * options.length)]` */
  function Pick(options: seq<string>, random: Fraction): (x: string)
    requires options != []
    ensures x in options
  {
    var n := |options| as real;
    assert random * n < n by {
      assert n - random * n == (1.0 - random) * n;
    }
    options[(random * n).Floor]
  }

  const Moods: seq<string> := ["sunny", "cloudy", "breezy", "rainy", "cozy"]

  const Jokes: seq<string> := [
    "Why do programmers prefer dark mode? Because light attracts bugs!",
    "I told my computer I needed a break, and it said 'No problem\U{2014}I'll go to sleep.'",
    "There are 10 kinds of people: those who understand binary and those who don't."
  ]

  const Quotes: seq<string> := [
    "\U{201C}Simplicity is the soul of efficiency.\U{201D} \U{2014} Austin Freeman",
    "\U{201C}Code is like humor. When you have to explain it, it\U{2019}s bad.\U{201D} \U{2014} Cory House",
    "\U{201C}Make it work, make it right, make it fast.\U{201D} \U{2014} Kent Beck"
  ]

  /** The result slot of `a op b`: division by zero gives `undefined`. */
  datatype Outcome = Value(v: real) | Undefined

  function Evaluate(a: real, op: Op, b: real): (r: Outcome)
    ensures r.Undefined? <==> op == Divide && b == 0.0
    ensures r.Value? && op == Divide ==> r.v * b == a
    ensures r.Value? && op == Minus ==> r.v + b == a
  {
    match op
    case Plus => Value(a + b)
    case Minus => Value(a - b)
    case Times => Value(a * b)
    case Divide => if b == 0.0 then Undefined else Value(a / b)
  }

  // ---------------------------------------------------------------------------
  // Rules and replies

  /** The rules, one per test of the responder. */
  datatype Rule =
    | Blank | Greet | HowAreYou | TimeOfDay | TodaysDate | TodaysWeekday | WeatherIn
    | SumOf | Arithmetic | CelsiusToF | FahrenheitToC | DaysUntil | WeekdayFor
    | JokeRequest | QuoteRequest | ReverseText | UppercaseText | LowercaseText
    | HelpRequest | Farewell

  /** The order in which the responder tries them. */
  const Rules: seq<Rule> := [
    Blank, Greet, HowAreYou, TimeOfDay, TodaysDate, TodaysWeekday, WeatherIn,
    SumOf, Arithmetic, CelsiusToF, FahrenheitToC, DaysUntil, WeekdayFor,
    JokeRequest, QuoteRequest, ReverseText, UppercaseText, LowercaseText,
    HelpRequest, Farewell
  ]

  /** A successful test: which rule matched, with the groups its handler uses. */
  datatype Hit =
    | EmptyInput
    | Greeting
    | AskedHowAreYou
    | AskedTime
    | AskedDate
    | AskedWeekday
    | AskedWeather(capture: string)
    | AskedSum(addends: Addends)
    | AskedArithmetic(operation: Operation)
    | AskedFahrenheit(celsius: real)
    | AskedCelsius(fahrenheit: real)
    | AskedDaysUntil(date: string)
    | AskedWeekdayFor(date: string)
    | AskedJoke
    | AskedQuote
    | AskedReverse(capture: string)
    | AskedUppercase(capture: string)
    | AskedLowercase(capture: string)
    | AskedHelp
    | SaidBye

  /** The groups a rule's capturing pattern matches at position `i`, for the
      rules whose pattern captures; the other rules never match here. */
  function MatchAt(rule: Rule, s: string, i: nat): Option<Hit> {
    match rule
    case WeatherIn => (match WeatherAt(s, i) case None => None case Some(c) => Some(AskedWeather(c)))
    case SumOf => (match SumAt(s, i) case None => None case Some(m) => Some(AskedSum(m)))
    case Arithmetic => (match ArithAt(s, i) case None => None case Some(m) => Some(AskedArithmetic(m)))
    case CelsiusToF =>
      (match ConversionAt(s, i, Celsius, Fahrenheit) case None => None case Some(c) => Some(AskedFahrenheit(c)))
    case FahrenheitToC =>
      (match ConversionAt(s, i, Fahrenheit, Celsius) case None => None case Some(f) => Some(AskedCelsius(f)))
    case DaysUntil => (match DaysUntilAt(s, i) case None => None case Some(d) => Some(AskedDaysUntil(d)))
    case WeekdayFor => (match WeekdayForAt(s, i) case None => None case Some(d) => Some(AskedWeekdayFor(d)))
    case ReverseText => (match CaptureAt(s, i, "reverse ") case None => None case Some(c) => Some(AskedReverse(c)))
    case UppercaseText => (match CaptureAt(s, i, "uppercase ") case None => None case Some(c) => Some(AskedUppercase(c)))
    case LowercaseText => (match CaptureAt(s, i, "lowercase ") case None => None case Some(c) => Some(AskedLowercase(c)))
    case _ => None
  }

  /** What a capturing pattern finds at each start position `0..|s|`. */
  function Hits(rule: Rule, s: string): seq<Option<Hit>> {
    seq(|s| + 1, i requires 0 <= i <= |s| => MatchAt(rule, s, i))
  }

  /** The first entry of `hits` from `from` on that holds a match. */
  function First(hits: seq<Option<Hit>>, from: nat): Option<Hit>
    decreases |hits| - from
  {
    if from >= |hits| then None
    else if hits[from].Some? then hits[from]
    else First(hits, from + 1)
  }

  /** The leftmost match in `s[from..]` of a capturing pattern, as `match`
      reports it for an unanchored regular expression. */
  function Find(rule: Rule, s: string, from: nat): Option<Hit> {
    First(Hits(rule, s), from)
  }

  /** `First` finds nothing exactly when no entry from `from` on holds a match. */
  lemma {:induction false} FirstNone(hits: seq<Option<Hit>>, from: nat)
    ensures First(hits, from).None? <==> forall i | from <= i < |hits| :: hits[i].None?
    decreases |hits| - from
  {
    if from < |hits| && hits[from].None? {
      FirstNone(hits, from + 1);
    }
  }

  /** `First` returns the entry at `k`, the first one that holds a match. */
  lemma {:induction false} FirstIndex(hits: seq<Option<Hit>>, from: nat) returns (k: nat)
    requires First(hits, from).Some?
    ensures from <= k < |hits| && hits[k] == First(hits, from)
    ensures forall j | from <= j < k :: hits[j].None?
    decreases |hits| - from
  {
    if hits[from].Some? {
      k := from;
    } else {
      k := FirstIndex(hits, from + 1);
    }
  }

  /** An entry holding a match with none before it is the one `First` returns. */
  lemma {:induction false} FirstAt(hits: seq<Option<Hit>>, from: nat, k: nat)
    requires from <= k < |hits| && hits[k].Some?
    requires forall j | from <= j < k :: hits[j].None?
    ensures First(hits, from) == hits[k]
    decreases k - from
  {
    if from < k {
      FirstAt(hits, from + 1, k);
    }
  }

  /** The test of each rule on the normalised input, with its groups. */
  function Test(rule: Rule, s: string): Option<Hit> {
    match rule
    case Blank => if s == [] then Some(EmptyInput) else None
    case Greet =>
      if GreetingWord(s, "hi") || GreetingWord(s, "hello") || GreetingWord(s, "hey") then Some(Greeting) else None
    case HowAreYou =>
      if Contains(s, "how are you") || Contains(s, "how are u") then Some(AskedHowAreYou) else None
    case TimeOfDay => if HasWord(s, "time") then Some(AskedTime) else None
    case TodaysDate =>
      if HasWord(s, "date") || Contains(s, "what is the date") || Contains(s, "what's the date") then Some(AskedDate) else None
    case TodaysWeekday =>
      if HasWord(s, "weekday") || Contains(s, "what day is it") then Some(AskedWeekday) else None
    case JokeRequest => if Contains(s, "joke") then Some(AskedJoke) else None
    case QuoteRequest => if Contains(s, "quote") then Some(AskedQuote) else None
    case HelpRequest =>
      if Contains(s, "help") || Contains(s, "what can you do") || Contains(s, "command") then Some(AskedHelp) else None
    case Farewell =>
      if Contains(s, "bye") || Contains(s, "goodbye") || Contains(s, "see ya") then Some(SaidBye) else None
    case _ => Find(rule, s, 0)
  }

  predicate Matches(rule: Rule, s: string) {
    Test(rule, s).Some?
  }

  /** The index of the first rule of `rules` whose test matches `s`. */
  function Dispatch(rules: seq<Rule>, s: string): Option<nat> {
    if rules == [] then None
    else if Matches(rules[0], s) then Some(0)
    else match Dispatch(rules[1..], s)
      case None => None
      case Some(k) => Some(k + 1)
  }

  /** `Dispatch` finds the first matching rule, and none when no rule matches. */
  lemma {:induction false} DispatchFirst(rules: seq<Rule>, s: string)
    ensures var k := Dispatch(rules, s);
      && (k.Some? ==> k.value < |rules| && Matches(rules[k.value], s))
      && (k.Some? ==> forall j | 0 <= j < k.value :: !Matches(rules[j], s))
      && (k.None? ==> forall j | 0 <= j < |rules| :: !Matches(rules[j], s))
  {
    if rules != [] && !Matches(rules[0], s) {
      DispatchFirst(rules[1..], s);
      assert forall j | 1 <= j < |rules| :: rules[j] == rules[1..][j - 1];
    }
  }

  /** The rule that answers a normalised input. */
  function Winner(s: string): Option<Rule> {
    match Dispatch(Rules, s)
    case None => None
    case Some(k) =>
      DispatchFirst(Rules, s);
      Some(Rules[k])
  }

  /** The rule that answers is the earliest one whose test matches, and there
      is none when no test matches. */
  lemma WinnerSpec(s: string)
    ensures Winner(s).None? <==> forall j | 0 <= j < |Rules| :: !Matches(Rules[j], s)
    ensures Winner(s).Some? ==> Matches(Winner(s).value, s)
    ensures Winner(s).Some? ==>
      exists k | 0 <= k < |Rules| :: Rules[k] == Winner(s).value && forall j | 0 <= j < k :: !Matches(Rules[j], s)
  {
    DispatchFirst(Rules, s);
  }

  /** A reply, before it is rendered as text. */
  datatype Reply =
    | AskToType
    | Hello
    | DoingGreat
    | CurrentTime
    | CurrentDate
    | CurrentWeekday
    | WeatherStub(city: string, mood: string)
    | Total(a: real, b: real, total: real)
    | Calculated(a: real, op: Op, b: real, result: Outcome)
    | InFahrenheit(celsius: real, fahrenheit: real)
    | InCelsius(fahrenheit: real, celsius: real)
    | DaysLeft(date: string)
    | WeekdayOn(date: string)
    | Joke(text: string)
    | Quote(text: string)
    | Reversed(text: string)
    | Uppercased(text: string)
    | Lowercased(text: string)
    | HelpText
    | Goodbye
    | NotUnderstood

  /** What the handler of the rule that matched answers. */
  function Handle(hit: Hit, random: Fraction): Reply {
    match hit
    case EmptyInput => AskToType
    case Greeting => Hello
    case AskedHowAreYou => DoingGreat
    case AskedTime => CurrentTime
    case AskedDate => CurrentDate
    case AskedWeekday => CurrentWeekday
    case AskedWeather(capture) => WeatherStub(TitleCase(Trim(capture)), Pick(Moods, random))
    case AskedSum(m) => Total(m.a, m.b, m.a + m.b)
    case AskedArithmetic(m) => Calculated(m.a, m.op, m.b, Evaluate(m.a, m.op, m.b))
    case AskedFahrenheit(c) => InFahrenheit(c, c * 9.0 / 5.0 + 32.0)
    case AskedCelsius(f) => InCelsius(f, (f - 32.0) * 5.0 / 9.0)
    case AskedDaysUntil(date) => DaysLeft(date)
    case AskedWeekdayFor(date) => WeekdayOn(date)
    case AskedJoke => Joke(Pick(Jokes, random))
    case AskedQuote => Quote(Pick(Quotes, random))
    case AskedReverse(capture) => Reversed(Reverse(capture))
    case AskedUppercase(capture) => Uppercased(Upper(capture))
    case AskedLowercase(capture) => Lowercased(Lower(capture))
    case AskedHelp => HelpText
    case SaidBye => Goodbye
  }

  /** The reply to a normalised input. */
  function Decide(s: string, random: Fraction): Reply {
    match Winner(s)
    case None => NotUnderstood
    case Some(rule) =>
      WinnerSpec(s);
      Handle(Test(rule, s).value, random)
  }

  // ---------------------------------------------------------------------------
  // Rendering

  const AskText: string := "Please type something. Try 'help' to see what I can do."
  const HelloText: string := "Hello! I'm " + BotName + ". Ask me about time, date, math like 'sum 12 and 30', weather stubs, jokes, quotes, conversions, and more. Type 'help'."
  const DoingGreatText: string := "Doing great and ready to help!"
  const FallbackText: string := "I didn't catch that. Type 'help' to see supported commands."
  const GoodbyeText: string := "Goodbye! Have a great day \U{1F44B}"

  const HelpLines: seq<string> := [
    "Hi, I'm " + BotName + "! Try these:",
    "\U{2022} hi \U{2014} greeting",
    "\U{2022} time, date, weekday",
    "\U{2022} weather in Tokyo \U{2014} playful stub",
    "\U{2022} sum 41 and 1 | 12 + 3 \U{2014} quick math",
    "\U{2022} 30 c to f | 86 f to c \U{2014} conversions",
    "\U{2022} days until 2025-01-01 | weekday for 2025-01-01",
    "\U{2022} joke | quote",
    "\U{2022} reverse hello | uppercase hi | lowercase BYE",
    "\U{2022} clear \U{2014} reset the chat"
  ]

  /** `lines.join("\n")` */
  function JoinLines(lines: seq<string>): string {
    if lines == [] then []
    else if |lines| == 1 then lines[0]
    else lines[0] + "\n" + JoinLines(lines[1..])
  }

  function OpText(op: Op): string {
    match op
    case Plus => "+"
    case Minus => "-"
    case Times => "*"
    case Divide => "/"
  }

  /** The reply as the text the responder returns. */
  function Render(reply: Reply, env: Env): string {
    match reply
    case AskToType => AskText
    case Hello => HelloText
    case DoingGreat => DoingGreatText
    case CurrentTime => "Current time: " + env.clockTime
    case CurrentDate => "Today's date: " + env.clockDate
    case CurrentWeekday => env.clockWeekday
    case WeatherStub(city, mood) =>
      "I can't fetch live weather yet, but " + city + " feels " + mood + " today. Carry an umbrella just in case \U{2614}."
    case Total(a, b, total) => env.number(a) + " + " + env.number(b) + " = " + env.number(total)
    case Calculated(a, op, b, result) =>
      env.number(a) + " " + OpText(op) + " " + env.number(b) + " = "
        + (match result case Undefined => "undefined" case Value(v) => env.number(v))
    case InFahrenheit(c, f) => env.number(c) + "\U{00B0}C = " + env.fixed2(f) + "\U{00B0}F"
    case InCelsius(f, c) => env.number(f) + "\U{00B0}F = " + env.fixed2(c) + "\U{00B0}C"
    case DaysLeft(date) =>
      var diff := env.daysUntil(date);
      if diff.Some? && diff.value >= 0 then env.number(diff.value as real) + " day(s) until " + env.dateString(date)
      else "That date has passed (" + env.dateString(date) + ")."
    case WeekdayOn(date) => env.weekdayOf(date)
    case Joke(text) => text
    case Quote(text) => text
    case Reversed(text) => text
    case Uppercased(text) => text
    case Lowercased(text) => text
    case HelpText => JoinLines(HelpLines)
    case Goodbye => GoodbyeText
    case NotUnderstood => FallbackText
  }

  /** `getRuleBasedResponse` */
  function Respond(raw: string, env: Env): string {
    Render(Decide(Normalize(raw), env.random), env)
  }
}
