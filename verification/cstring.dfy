/** The C string library calls the battery code relies on, over the
    characters of a NUL-terminated string (the terminator itself is not part
    of the sequence). */
module CString {

  /** `strstr(s, pat) != NULL`: `pat` occurs somewhere in `s`. */
  predicate Contains(s: string, pat: string)
    ensures Contains(s, pat) ==> |pat| <= |s|
    decreases |s|
  {
    |pat| <= |s| && (s[..|pat|] == pat || Contains(s[1..], pat))
  }

  /** `pat` occurs in `s` starting at position `i`. */
  predicate OccursAt(s: string, pat: string, i: nat)
  {
    i + |pat| <= |s| && s[i..i + |pat|] == pat
  }

  /** An occurrence of `pat` at position `i` is found by `strstr`. */
  lemma {:induction false} ContainsAt(s: string, pat: string, i: nat)
    requires OccursAt(s, pat, i)
    ensures Contains(s, pat)
    decreases i
  {
    if i > 0 {
      assert s[1..][i - 1..i - 1 + |pat|] == s[i..i + |pat|];
      ContainsAt(s[1..], pat, i - 1);
    }
  }

  /** `strstr` finds only real occurrences: a match lies at some position. */
  lemma {:induction false} ContainsOccurs(s: string, pat: string)
    requires Contains(s, pat)
    ensures exists i: nat :: OccursAt(s, pat, i)
    decreases |s|
  {
    if s[..|pat|] == pat {
      assert OccursAt(s, pat, 0);
    } else {
      ContainsOccurs(s[1..], pat);
      var i: nat :| OccursAt(s[1..], pat, i);
      assert s[i + 1..i + 1 + |pat|] == s[1..][i..i + |pat|];
      assert OccursAt(s, pat, i + 1);
    }
  }

  /** `strstr(s, pat) != NULL` exactly when `pat` occurs somewhere in `s`. */
  lemma ContainsIffOccurs(s: string, pat: string)
    ensures Contains(s, pat) <==> exists i: nat :: OccursAt(s, pat, i)
  {
    if Contains(s, pat) {
      ContainsOccurs(s, pat);
    }
    if exists i: nat :: OccursAt(s, pat, i) {
      var i: nat :| OccursAt(s, pat, i);
      ContainsAt(s, pat, i);
    }
  }

  /** A pattern whose first character the string lacks is not found. */
  lemma {:induction false} MissingFirstChar(s: string, pat: string)
    requires pat != [] && forall i :: 0 <= i < |s| ==> s[i] != pat[0]
    ensures !Contains(s, pat)
    decreases |s|
  {
    if |pat| <= |s| {
      assert s[..|pat|][0] == s[0];
      MissingFirstChar(s[1..], pat);
    }
  }

  /** The characters `isspace` accepts in the C locale. */
  function IsSpace(c: char): (b: bool)
    ensures b <==> c == ' ' || '\t' <= c <= '\r'
  {
    c == ' ' || c == '\t' || c == '\n' || c == '\U{000B}' || c == '\U{000C}' || c == '\r'
  }

  predicate IsDigit(c: char)
  {
    '0' <= c <= '9'
  }

  function DigitValue(c: char): (v: nat)
    requires IsDigit(c)
    ensures v < 10
    ensures v == 0 <==> c == '0'
  {
    c as int - '0' as int
  }

  /** The run of decimal digits at the start of `s`. */
  function LeadingDigits(s: string): (d: string)
    ensures d <= s
    ensures forall i :: 0 <= i < |d| ==> IsDigit(d[i])
    ensures |d| == |s| || !IsDigit(s[|d|])
  {
    if s != [] && IsDigit(s[0]) then [s[0]] + LeadingDigits(s[1..]) else []
  }

  /** The decimal value of a digit string, most significant digit first. */
  function DecimalValue(d: string): (v: nat)
    requires forall i :: 0 <= i < |d| ==> IsDigit(d[i])
    ensures v == 0 <==> forall i :: 0 <= i < |d| ==> d[i] == '0'
  {
    if d == [] then 0
    else
      var last := d[|d| - 1];
      var rest := DecimalValue(d[..|d| - 1]);
      assert forall i :: 0 <= i < |d| - 1 ==> d[..|d| - 1][i] == d[i];
      10 * rest + DigitValue(last)
  }

  /** The text after the leading white space `atoi` skips. */
  function SkipSpace(s: string): (t: string)
    ensures t == [] || !IsSpace(t[0])
    ensures |t| <= |s| && t == s[|s| - |t|..]
    ensures forall i :: 0 <= i < |s| - |t| ==> IsSpace(s[i])
  {
    if s != [] && IsSpace(s[0]) then SkipSpace(s[1..]) else s
  }

  /** Whether the text `atoi` reads starts with a minus sign. */
  predicate AtoiNegative(s: string)
  {
    var t := SkipSpace(s);
    t != [] && t[0] == '-'
  }

  /** The digits `atoi` reads: after the white space and an optional sign. */
  function AtoiDigits(s: string): (d: string)
    ensures forall i :: 0 <= i < |d| ==> IsDigit(d[i])
    ensures var t := SkipSpace(s);
            var u := if t != [] && (t[0] == '-' || t[0] == '+') then t[1..] else t;
            d <= u && (|d| == |u| || !IsDigit(u[|d|]))
  {
    var t := SkipSpace(s);
    if t != [] && (t[0] == '-' || t[0] == '+') then LeadingDigits(t[1..]) else LeadingDigits(t)
  }

  /** `atoi(s)`: skip white space, read an optional sign and then as many
      decimal digits as follow; anything else yields 0. */
  function Atoi(s: string): (v: int)
    ensures AtoiDigits(s) == [] ==> v == 0
    ensures v == 0 <==> forall i :: 0 <= i < |AtoiDigits(s)| ==> AtoiDigits(s)[i] == '0'
    ensures AtoiNegative(s) ==> v <= 0
    ensures !AtoiNegative(s) ==> v >= 0
  {
    var n: int := DecimalValue(AtoiDigits(s));
    if AtoiNegative(s) then -n else n
  }

  /** The characters `remove_not_string` cuts a string at: carriage return and line feed. */
  predicate IsLineEnd(c: char)
  {
    c == '\r' || c == '\n'
  }
}
