/** The parts of the C library the other modules call, as functions on strings. */
module CLib {

  datatype Option<+T> = None | Some(value: T)

  /** The characters of s before its first NUL. */
  function CString(s: string): (r: string)
    ensures |r| <= |s| && r == s[..|r|] && '\0' !in r
    ensures |r| < |s| ==> s[|r|] == '\0'
    ensures '\0' in s ==> |r| < |s|
  {
    if s == [] || s[0] == '\0' then [] else [s[0]] + CString(s[1..])
  }

  lemma {:induction false} CStringIs(s: string, r: string)
    requires |r| <= |s| && r == s[..|r|] && '\0' !in r && (|r| < |s| ==> s[|r|] == '\0')
    ensures CString(s) == r
  {
    if r == [] {
    } else {
      assert s[0] == r[0] && r[0] in r;
      CStringIs(s[1..], r[1..]);
    }
  }

  /** What snprintf leaves in a buffer of the given size: the text, cut to fit with its NUL. */
  function Snprintf(size: nat, text: string): (r: string)
    requires size > 0
    ensures r <= text && |r| == if |text| < size then |text| else size - 1
  {
    if |text| < size then text else text[..size - 1]
  }

  predicate IsDigit(c: char) {
    '0' <= c <= '9'
  }

  function Digits(n: nat): (s: string)
    ensures |s| > 0 && forall i | 0 <= i < |s| :: IsDigit(s[i])
    ensures s[0] == '0' <==> n == 0
    ensures |s| == 1 <==> n < 10
  {
    if n < 10 then ['0' + n as char] else Digits(n / 10) + ['0' + (n % 10) as char]
  }

  function Decimal(n: int): string {
    if n < 0 then "-" + Digits(-n) else Digits(n)
  }

  // ---- atoi ----

  predicate IsSpace(c: char) {
    c == ' ' || '\t' <= c <= '\r'
  }

  /** White space, an optional sign, then digits up to the first other character. */
  function Atoi(s: string): int {
    if s == [] then 0
    else if IsSpace(s[0]) then Atoi(s[1..])
    else if s[0] == '-' then -DigitsValue(s[1..], 0)
    else if s[0] == '+' then DigitsValue(s[1..], 0)
    else DigitsValue(s, 0)
  }

  function DigitsValue(s: string, acc: int): int {
    if s == [] || !IsDigit(s[0]) then acc
    else DigitsValue(s[1..], 10 * acc + (s[0] - '0') as int)
  }

  /** atoi reads back a printed number, up to the first character that is not a digit. */
  lemma AtoiOfDigits(n: nat, rest: string)
    requires rest == [] || !IsDigit(rest[0])
    ensures Atoi(Digits(n) + rest) == n
  {
    var d := Digits(n);
    assert IsDigit(d[0]) && (d + rest)[0] == d[0];
    DigitsValueSplit(d, rest, 0);
    ValueOfDigits(n);
  }

  lemma {:induction false} DigitsValueSplit(d: string, rest: string, acc: int)
    requires forall i | 0 <= i < |d| :: IsDigit(d[i])
    ensures DigitsValue(d + rest, acc) == DigitsValue(rest, DigitsValue(d, acc))
  {
    if d == [] {
      assert d + rest == rest;
    } else {
      assert (d + rest)[1..] == d[1..] + rest;
      DigitsValueSplit(d[1..], rest, 10 * acc + (d[0] - '0') as int);
    }
  }

  lemma {:induction false} ValueOfDigits(n: nat)
    ensures DigitsValue(Digits(n), 0) == n
  {
    if n < 10 {
    } else {
      ValueOfDigits(n / 10);
      DigitsValueSplit(Digits(n / 10), ['0' + (n % 10) as char], 0);
    }
  }

  lemma AtoiOfDecimal(n: int)
    ensures Atoi(Decimal(n)) == n
  {
    var d := Digits(if n < 0 then -n else n);
    assert d + "" == d;
    AtoiOfDigits(if n < 0 then -n else n, "");
    ValueOfDigits(if n < 0 then -n else n);
  }

  ghost predicate Spaces(s: string) {
    forall i | 0 <= i < |s| :: s[i] in [' ', '\t', '\n', '\U{0B}', '\U{0C}', '\r']
  }

  ghost predicate Zeros(s: string) {
    forall i | 0 <= i < |s| :: s[i] == '0'
  }

  /** White space and leading zeros do not matter, a sign does, and reading stops at the first
    * character that is no digit. */
  lemma {:induction false} AtoiReads(spaces: string, sign: string, zeros: string, n: nat, rest: string)
    requires Spaces(spaces) && sign in ["", "+", "-"] && Zeros(zeros) && (rest == [] || !('0' <= rest[0] <= '9'))
    ensures var value := Atoi(spaces + (sign + (zeros + (Digits(n) + rest))));
            if sign == "-" then value + n == 0 else value == n
  {
    var text := zeros + (Digits(n) + rest);
    SkipSpaces(spaces, sign + text);
    SkipZeros(zeros, Digits(n) + rest);
    DigitsValueSplit(Digits(n), rest, 0);
    ValueOfDigits(n);
    assert text[0] == if zeros == [] then Digits(n)[0] else zeros[0];
    assert sign == "" ==> sign + text == text;
    assert sign != "" ==> (sign + text)[1..] == text;
  }

  /** Without a digit in its place the number is zero. */
  lemma AtoiOfNothing(spaces: string, sign: string, rest: string)
    requires Spaces(spaces) && sign in ["", "+", "-"] && (rest == [] || !('0' <= rest[0] <= '9'))
    requires sign == "" && rest != [] ==> rest[0] !in ['+', '-'] && !Spaces(rest[..1])
    ensures Atoi(spaces + (sign + rest)) == 0
  {
    SkipSpaces(spaces, sign + rest);
    assert sign == "" ==> sign + rest == rest;
    assert sign != "" ==> (sign + rest)[1..] == rest;
    if sign == "" && rest != [] {
      assert rest[..1] == [rest[0]];
    }
  }

  lemma {:induction false} SkipSpaces(spaces: string, text: string)
    requires Spaces(spaces)
    ensures Atoi(spaces + text) == Atoi(text)
  {
    if spaces == [] {
      assert spaces + text == text;
    } else {
      assert (spaces + text)[1..] == spaces[1..] + text;
      SkipSpaces(spaces[1..], text);
    }
  }

  lemma {:induction false} SkipZeros(zeros: string, text: string)
    requires Zeros(zeros)
    ensures DigitsValue(zeros + text, 0) == DigitsValue(text, 0)
  {
    if zeros == [] {
      assert zeros + text == text;
    } else {
      assert (zeros + text)[1..] == zeros[1..] + text;
      SkipZeros(zeros[1..], text);
    }
  }

  // ---- strchr and strstr ----

  /** The position of the first c in s, or |s|. */
  function IndexOf(s: string, c: char): (i: nat)
    ensures i <= |s| && c !in s[..i]
    ensures i < |s| ==> s[i] == c
  {
    if s == [] || s[0] == c then 0 else 1 + IndexOf(s[1..], c)
  }

  lemma {:induction false} IndexOfIs(s: string, c: char, i: nat)
    requires i <= |s| && c !in s[..i] && (i < |s| ==> s[i] == c)
    ensures IndexOf(s, c) == i
  {
    if i == 0 {
    } else {
      assert s[..i][0] == s[0] && s[1..][..i - 1] == s[..i][1..];
      IndexOfIs(s[1..], c, i - 1);
    }
  }

  predicate MatchAt(s: string, pat: string, i: nat) {
    i + |pat| <= |s| && s[i..i + |pat|] == pat
  }

  /** The position of the first occurrence of pat in s. */
  function Find(s: string, pat: string): (r: Option<nat>)
    ensures r.Some? ==> MatchAt(s, pat, r.value) && forall j: nat | j < r.value :: !MatchAt(s, pat, j)
    ensures r.None? ==> forall j: nat :: !MatchAt(s, pat, j)
  {
    FindFrom(s, pat, 0)
  }

  function FindFrom(s: string, pat: string, i: nat): (r: Option<nat>)
    requires i <= |s|
    ensures r.Some? ==> i <= r.value && MatchAt(s, pat, r.value)
    ensures r.Some? ==> forall j: nat | i <= j < r.value :: !MatchAt(s, pat, j)
    ensures r.None? ==> forall j: nat | i <= j :: !MatchAt(s, pat, j)
    decreases |s| - i
  {
    if MatchAt(s, pat, i) then Some(i)
    else if i == |s| then None
    else FindFrom(s, pat, i + 1)
  }

  ghost predicate Contains(s: string, pat: string) {
    exists i: nat :: MatchAt(s, pat, i)
  }

  /** The first occurrence of pat in s is at i. */
  ghost predicate FirstAt(s: string, pat: string, i: nat) {
    MatchAt(s, pat, i) && forall j: nat | j < i :: !MatchAt(s, pat, j)
  }

  lemma FindIff(s: string, pat: string)
    ensures forall i: nat :: Find(s, pat) == Some(i) <==> FirstAt(s, pat, i)
    ensures Find(s, pat) == None <==> !Contains(s, pat)
  {
  }

  lemma FindIs(s: string, pat: string, i: nat)
    requires FirstAt(s, pat, i)
    ensures Find(s, pat) == Some(i)
  {
  }
}
