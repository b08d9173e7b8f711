/**
 * The JavaScript string built-ins and regular-expression character classes
 * that the chat bot relies on: `trim`, `toLowerCase`, `toUpperCase`,
 * `split("").reverse().join("")`, and the classes `\s`, `\w`, `\d`, `.` and
 * the word boundary `\b` of regular expressions.
 */
module JsText {

  datatype Option<+T> = None | Some(value: T)

  /** `\s`, and the characters `String.prototype.trim` removes:
      WhiteSpace (tab, VT, FF, space, NBSP, BOM, every Zs character)
      and LineTerminator (LF, CR, LS, PS). */
  predicate IsSpace(c: char) {
    || c == ' ' || c == '\t' || c == '\n' || c == '\r'
    || c == '\U{000B}' || c == '\U{000C}' || c == '\U{00A0}' || c == '\U{1680}'
    || ('\U{2000}' <= c <= '\U{200A}')
    || c == '\U{2028}' || c == '\U{2029}' || c == '\U{202F}' || c == '\U{205F}'
    || c == '\U{3000}' || c == '\U{FEFF}'
  }

  /** The characters `.` does not match (no `s` flag). */
  predicate IsLineTerminator(c: char) {
    c == '\n' || c == '\r' || c == '\U{2028}' || c == '\U{2029}'
  }

  /** `.` */
  predicate IsLineChar(c: char) { !IsLineTerminator(c) }

  /** `\d` */
  predicate IsDigit(c: char) { '0' <= c <= '9' }

  predicate IsLowerLetter(c: char) { 'a' <= c <= 'z' }

  predicate IsUpperLetter(c: char) { 'A' <= c <= 'Z' }

  /** `\w` */
  predicate IsWordChar(c: char) { IsDigit(c) || IsLowerLetter(c) || IsUpperLetter(c) || c == '_' }

  predicate AllSpace(s: string) { forall i | 0 <= i < |s| :: IsSpace(s[i]) }

  function ToLowerChar(c: char): char {
    if IsUpperLetter(c) then (c as int + 32) as char else c
  }

  function ToUpperChar(c: char): char {
    if IsLowerLetter(c) then (c as int - 32) as char else c
  }

  /** `toLowerCase` */
  function Lower(s: string): (r: string)
    ensures |r| == |s|
  {
    if s == [] then [] else [ToLowerChar(s[0])] + Lower(s[1..])
  }

  /** `toUpperCase` */
  function Upper(s: string): (r: string)
    ensures |r| == |s|
  {
    if s == [] then [] else [ToUpperChar(s[0])] + Upper(s[1..])
  }

  /** `split("").reverse().join("")` */
  function Reverse(s: string): (r: string)
    ensures |r| == |s|
  {
    if s == [] then [] else [s[|s| - 1]] + Reverse(s[..|s| - 1])
  }

  /** `trimStart` */
  function TrimStart(s: string): string {
    if s != [] && IsSpace(s[0]) then TrimStart(s[1..]) else s
  }

  /** `trimEnd` */
  function TrimEnd(s: string): string {
    if s != [] && IsSpace(s[|s| - 1]) then TrimEnd(s[..|s| - 1]) else s
  }

  /** `trim` */
  function Trim(s: string): string {
    TrimEnd(TrimStart(s))
  }

  /** `r` sits in `s` at `i` with nothing but white space before and after it. */
  predicate Flanked(s: string, i: nat, r: string) {
    i + |r| <= |s| && s[i..i + |r|] == r && AllSpace(s[..i]) && AllSpace(s[i + |r|..])
  }

  /** Lower-casing maps every character on its own. */
  lemma {:induction false} LowerSpec(s: string)
    ensures forall i | 0 <= i < |s| :: Lower(s)[i] == ToLowerChar(s[i])
  {
    if s != [] {
      LowerSpec(s[1..]);
    }
  }

  /** Upper-casing maps every character on its own. */
  lemma {:induction false} UpperSpec(s: string)
    ensures forall i | 0 <= i < |s| :: Upper(s)[i] == ToUpperChar(s[i])
  {
    if s != [] {
      UpperSpec(s[1..]);
    }
  }

  /** Reversing puts the character at `i` at the mirror position. */
  lemma {:induction false} ReverseSpec(s: string)
    ensures forall i | 0 <= i < |s| :: Reverse(s)[i] == s[|s| - 1 - i]
  {
    if s != [] {
      ReverseSpec(s[..|s| - 1]);
    }
  }

  /** `trimStart` drops the leading white space and nothing else. */
  lemma {:induction false} TrimStartSpec(s: string)
    ensures var r := TrimStart(s);
      && |r| <= |s| && r == s[|s| - |r|..]
      && AllSpace(s[..|s| - |r|])
      && (r == [] || !IsSpace(r[0]))
  {
    if s != [] && IsSpace(s[0]) {
      TrimStartSpec(s[1..]);
      var r := TrimStart(s);
      assert s[..|s| - |r|] == [s[0]] + s[1..][..|s| - 1 - |r|];
    }
  }

  /** `trimEnd` drops the trailing white space and nothing else. */
  lemma {:induction false} TrimEndSpec(s: string)
    ensures var r := TrimEnd(s);
      && |r| <= |s| && r == s[..|r|]
      && AllSpace(s[|r|..])
      && (r == [] || !IsSpace(r[|r| - 1]))
  {
    if s != [] && IsSpace(s[|s| - 1]) {
      TrimEndSpec(s[..|s| - 1]);
      var r := TrimEnd(s);
      assert s[|r|..] == s[..|s| - 1][|r|..] + [s[|s| - 1]];
    }
  }

  /** `trim` leaves the slice of `s` between its leading and trailing white
      space; it is empty exactly when `s` is blank. */
  lemma TrimSpec(s: string)
    ensures Trim(s) == [] <==> AllSpace(s)
    ensures Trim(s) == [] || (!IsSpace(Trim(s)[0]) && !IsSpace(Trim(s)[|Trim(s)| - 1]))
    ensures exists i | 0 <= i <= |s| :: Flanked(s, i, Trim(s))
  {
    var t := TrimStart(s);
    var r := TrimEnd(t);
    var i := |s| - |t|;
    TrimStartSpec(s);
    TrimEndSpec(t);
    assert s[i + |r|..] == t[|r|..];
    if r == [] {
      assert s == s[..i];
    } else {
      assert r[0] == t[0];
    }
    assert Flanked(s, i, r);
  }

  /** `w` occurs in `s` at position `i`. */
  predicate At(s: string, i: nat, w: string) {
    i + |w| <= |s| && s[i..i + |w|] == w
  }

  /** An unanchored literal pattern: `/w/.test(s)`. */
  predicate Contains(s: string, w: string) {
    exists i | 0 <= i <= |s| :: At(s, i, w)
  }

  predicate WordAt(s: string, i: int) {
    0 <= i < |s| && IsWordChar(s[i])
  }

  /** `\b` at position `i`: exactly one of the characters around it is a word character. */
  predicate Boundary(s: string, i: nat) {
    WordAt(s, i - 1) != WordAt(s, i)
  }

  /** `/\bw\b/.test(s)` */
  predicate HasWord(s: string, w: string) {
    exists i | 0 <= i <= |s| :: At(s, i, w) && Boundary(s, i) && Boundary(s, i + |w|)
  }

  /** End of the longest run of characters satisfying `p` that starts at `i`:
      where a greedy `[p]*` stops. */
  function RunEnd(s: string, i: nat, p: char -> bool): (e: nat)
    requires i <= |s|
    ensures i <= e <= |s|
    ensures forall j | i <= j < e :: p(s[j])
    ensures e == |s| || !p(s[e])
    decreases |s| - i
  {
    if i < |s| && p(s[i]) then RunEnd(s, i + 1, p) else i
  }

  /** Lower-casing leaves the white space where it was and is idempotent. */
  lemma LowerKeepsSpaces(s: string)
    ensures forall i | 0 <= i < |s| :: IsSpace(Lower(s)[i]) == IsSpace(s[i])
    ensures Lower(Lower(s)) == Lower(s)
  {
    LowerSpec(s);
    LowerSpec(Lower(s));
    forall i | 0 <= i < |s| ensures IsSpace(Lower(s)[i]) == IsSpace(s[i]) && Lower(Lower(s))[i] == Lower(s)[i] {
      LowerChar(s[i]);
    }
  }

  lemma LowerChar(c: char)
    ensures IsSpace(ToLowerChar(c)) == IsSpace(c)
    ensures IsWordChar(ToLowerChar(c)) == IsWordChar(c)
    ensures ToLowerChar(ToLowerChar(c)) == ToLowerChar(c)
    ensures !IsUpperLetter(ToLowerChar(c))
  {
  }

  lemma UpperChar(c: char)
    ensures IsSpace(ToUpperChar(c)) == IsSpace(c)
    ensures IsWordChar(ToUpperChar(c)) == IsWordChar(c)
    ensures ToLowerChar(ToUpperChar(c)) == ToLowerChar(c)
    ensures !IsLowerLetter(ToUpperChar(c))
  {
  }

  /** Trimming a string with no white space at either end gives it back. */
  lemma {:induction false} TrimTrimmed(s: string)
    requires s == [] || (!IsSpace(s[0]) && !IsSpace(s[|s| - 1]))
    ensures Trim(s) == s
  {
    assert TrimStart(s) == s;
    assert TrimEnd(s) == s;
  }

  /** Lower-casing a text with no upper-case letter gives it back. */
  lemma LowerIdentity(s: string)
    requires forall i | 0 <= i < |s| :: !IsUpperLetter(s[i])
    ensures Lower(s) == s
  {
    LowerSpec(s);
  }

  /** Upper-casing leaves no lower-case letter and changes no letter's
      lower-case form. */
  lemma UpperCases(s: string)
    ensures forall i | 0 <= i < |s| :: !IsLowerLetter(Upper(s)[i])
    ensures Lower(Upper(s)) == Lower(s)
  {
    UpperSpec(s);
    LowerSpec(s);
    LowerSpec(Upper(s));
    forall i | 0 <= i < |s| ensures !IsLowerLetter(Upper(s)[i]) && Lower(Upper(s))[i] == Lower(s)[i] {
      UpperChar(s[i]);
    }
  }

  /** Reversing twice gives the original text back. */
  lemma ReverseInvolution(s: string)
    ensures Reverse(Reverse(s)) == s
  {
    ReverseSpec(s);
    ReverseSpec(Reverse(s));
  }
}
