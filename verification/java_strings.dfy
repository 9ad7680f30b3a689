/** The two JDK string operations the version probe uses:
    `String.split("\\.")` and `Integer.valueOf(String)`, together with the
    plain dot-separated decomposition and the decimal formatting they are
    proved against. */
module JavaStrings {
  import opened JavaRuntime

  /** The range of a Java `int`. */
  const INT_MIN: int := -0x8000_0000
  const INT_MAX: int := 0x7fff_ffff

  predicate InIntRange(n: int) {
    INT_MIN <= n <= INT_MAX
  }

  // ---------------------------------------------------------------------------
  // Dot-separated components

  /** The components glued back together with a dot between neighbours. */
  function Join(parts: seq<string>): (s: string)
    requires |parts| >= 1
    decreases |parts|
  {
    if |parts| == 1 then parts[0] else parts[0] + "." + Join(parts[1..])
  }

  /** Every component of `s` between dots, empty ones included: a string with
      k dots has k + 1 components. */
  function Split(s: string): (parts: seq<string>)
    ensures |parts| >= 1
    ensures forall i :: 0 <= i < |parts| ==> '.' !in parts[i]
    ensures Join(parts) == s
    ensures '.' !in s ==> parts == [s]
    decreases |s|
  {
    if |s| == 0 then [""]
    else
      var rest := Split(s[1..]);
      if s[0] == '.' then
        assert ([""] + rest)[1..] == rest;
        [""] + rest
      else
        var parts := [[s[0]] + rest[0]] + rest[1..];
        assert s == [s[0]] + s[1..];
        assert |rest| > 1 ==> parts[1..] == rest[1..];
        parts
  }

  /** Splitting what was joined gives back the components, provided no
      component holds a dot. */
  lemma {:induction false} SplitJoin(parts: seq<string>)
    requires |parts| >= 1
    requires forall i :: 0 <= i < |parts| ==> '.' !in parts[i]
    ensures Split(Join(parts)) == parts
    decreases |parts|
  {
    if |parts| > 1 {
      SplitJoin(parts[1..]);
      SplitAfterDotFree(parts[0], Join(parts[1..]));
      assert parts == [parts[0]] + parts[1..];
    }
  }

  /** A dot-free prefix followed by a dot becomes the first component. */
  lemma {:induction false} SplitAfterDotFree(head: string, tail: string)
    requires '.' !in head
    ensures Split(head + "." + tail) == [head] + Split(tail)
    decreases |head|
  {
    if |head| == 0 {
      assert head + "." + tail == ['.'] + tail;
      assert (['.'] + tail)[1..] == tail;
    } else {
      var s := head + "." + tail;
      assert s[1..] == head[1..] + "." + tail;
      SplitAfterDotFree(head[1..], tail);
      assert [head[0]] + head[1..] == head;
    }
  }

  /** `parts` without its trailing empty strings. */
  function DropTrailingEmpty(parts: seq<string>): (kept: seq<string>)
    ensures |kept| <= |parts| && kept == parts[..|kept|]
    ensures forall i :: |kept| <= i < |parts| ==> parts[i] == ""
    ensures |kept| == 0 || kept[|kept| - 1] != ""
    decreases |parts|
  {
    if |parts| == 0 || parts[|parts| - 1] != "" then parts
    else DropTrailingEmpty(parts[..|parts| - 1])
  }

  /** `s.split("\\.")`: the components of `s`, except that trailing empty
      strings are removed; when `s` holds no dot at all the result is `[s]`,
      even for the empty string. */
  function JavaSplit(s: string): (parts: seq<string>)
    ensures |parts| <= |Split(s)| && parts == Split(s)[..|parts|]
    ensures forall i :: |parts| <= i < |Split(s)| ==> Split(s)[i] == ""
    ensures '.' !in s ==> parts == [s]
    ensures '.' in s ==> |parts| == 0 || parts[|parts| - 1] != ""
  {
    if '.' !in s then [s] else DropTrailingEmpty(Split(s))
  }

  // ---------------------------------------------------------------------------
  // Decimal integers

  predicate IsDigit(c: char) {
    '0' <= c <= '9'
  }

  predicate AllDigits(s: string) {
    forall i :: 0 <= i < |s| ==> IsDigit(s[i])
  }

  function DigitValue(c: char): nat
    requires IsDigit(c)
  {
    c as int - '0' as int
  }

  function DigitChar(d: nat): (c: char)
    requires d < 10
    ensures IsDigit(c) && DigitValue(c) == d
  {
    ('0' as int + d) as char
  }

  /** The value of a string of decimal digits, most significant first. */
  function DigitsValue(s: string): nat
    requires AllDigits(s)
    decreases |s|
  {
    if |s| == 0 then 0 else DigitsValue(s[..|s| - 1]) * 10 + DigitValue(s[|s| - 1])
  }

  /** The shortest decimal numeral of `n`, as `Integer.toString` writes it. */
  function Decimal(n: nat): (s: string)
    ensures |s| >= 1 && AllDigits(s)
    ensures DigitsValue(s) == n
    decreases n
  {
    if n < 10 then [DigitChar(n)]
    else
      var s := Decimal(n / 10) + [DigitChar(n % 10)];
      assert s[..|s| - 1] == Decimal(n / 10);
      s
  }

  /** `Integer.toString(n)`: a minus sign for negative values, then the digits. */
  function FormatInt(n: int): (s: string)
    ensures |s| >= 1 && '.' !in s
  {
    if n < 0 then "-" + Decimal(-n) else Decimal(n)
  }

  /** `Integer.valueOf(s)`: an optional `+` or `-`, then one or more decimal
      digits whose signed value fits in an `int`; anything else raises
      `NumberFormatException`, modelled as `None`. */
  function ParseInt(s: string): (r: Option<int>)
    ensures r.Some? ==> InIntRange(r.value)
    ensures r.Some? ==> |s| >= 1 && '.' !in s
    ensures r.Some? ==> IsDigit(s[|s| - 1])
  {
    if |s| == 0 then None
    else
      var signed := s[0] == '-' || s[0] == '+';
      var digits := if signed then s[1..] else s;
      if |digits| == 0 || !AllDigits(digits) then None
      else
        var magnitude: int := DigitsValue(digits);
        var v := if s[0] == '-' then -magnitude else magnitude;
        if InIntRange(v) then
          assert forall i :: 0 <= i < |s| ==> s[i] != '.' by {
            forall i | 0 <= i < |s| ensures s[i] != '.' {
              if signed && i > 0 { assert s[i] == digits[i - 1]; }
            }
          }
          Some(v)
        else None
  }

  /** Formatting an `int` and parsing it back gives the same value. */
  lemma FormatParseRoundTrip(n: int)
    requires InIntRange(n)
    ensures ParseInt(FormatInt(n)) == Some(n)
  {
  }

  /** A character that is neither a digit nor a leading sign makes the
      string unparsable. */
  lemma ParseIntRejectsNonDigit(s: string, i: int)
    requires 0 <= i < |s| && !IsDigit(s[i])
    requires i > 0 || (s[0] != '-' && s[0] != '+')
    ensures ParseInt(s) == None
  {
  }

  /** An optional sign followed by decimal digits parses to its signed
      value when that fits in an `int`, and is unparsable otherwise. */
  lemma ParseIntValue(sign: string, digits: string)
    requires sign == "" || sign == "+" || sign == "-"
    requires |digits| >= 1 && AllDigits(digits)
    ensures var m: int := DigitsValue(digits);
      var v: int := if sign == "-" then -m else m;
      ParseInt(sign + digits) == if InIntRange(v) then Some(v) else None
  {
    if sign == "" {
      assert sign + digits == digits;
    } else {
      assert (sign + digits)[1..] == digits;
    }
  }

  /** A numeral, signed or not, whose value lies outside the `int` range is
      unparsable. */
  lemma ParseIntRejectsOverflow(sign: string, digits: string)
    requires sign == "" || sign == "+" || sign == "-"
    requires |digits| >= 1 && AllDigits(digits)
    requires var m: int := DigitsValue(digits);
      !InIntRange(if sign == "-" then -m else m)
    ensures ParseInt(sign + digits) == None
  {
    ParseIntValue(sign, digits);
  }
}
