/** The slice of Python's string and number built-ins that the transcript
    tools rely on: str.split with one separator character, str.split with
    maxsplit 1, str.strip(), startswith/endswith, isdigit, int() and the
    exact-decimal part of float() followed by round(). Exceptions that these
    built-ins raise become the error side of a Result. */
module PyText {

  /** The exceptions the modelled code can raise, plus the one outcome that is
      not an exception at all: a loop that never ends. */
  datatype PyError =
    | ValueError     // int() or float() given text that is not a number
    | IndexError     // a list subscript past the end
    | LoopsForever   // the call never returns

  datatype Result<T> = Ok(value: T) | Raise(error: PyError)

  datatype Option<T> = None | Some(value: T)

  // ---------------------------------------------------------------------
  // Characters

  /** Python's str.isspace() for one character: exactly the characters that
      str.strip() with no argument removes, and that int()/float() ignore
      around a number. */
  predicate IsSpace(c: char) {
    || c == ' '
    || ('\t' <= c <= '\r')              // \t \n \v \f \r
    || ('\U{1c}' <= c <= '\U{1f}')      // file, group, record, unit separators
    || c == '\U{85}' || c == '\U{a0}' || c == '\U{1680}'
    || ('\U{2000}' <= c <= '\U{200a}')
    || c == '\U{2028}' || c == '\U{2029}' || c == '\U{202f}'
    || c == '\U{205f}' || c == '\U{3000}'
  }

  /** str.isdigit() restricted to the ASCII digits. */
  predicate IsDigit(c: char) {
    '0' <= c <= '9'
  }

  /** Every character is an ASCII digit (stated recursively, from the first
      character, like DigitsValue; DigitsFacts gives the indexed form). */
  predicate AllDigits(s: string) {
    |s| == 0 || (IsDigit(s[0]) && AllDigits(s[1..]))
  }

  lemma {:induction false} DigitsFacts(s: string)
    ensures AllDigits(s) <==> forall k :: 0 <= k < |s| ==> IsDigit(s[k])
    decreases |s|
  {
    if |s| > 0 {
      var tail := s[1..];
      DigitsFacts(tail);
      assert forall k :: 0 < k < |s| ==> s[k] == tail[k - 1];
    }
  }

  lemma {:induction false} AllDigitsAppend(a: string, b: string)
    requires AllDigits(a) && AllDigits(b)
    ensures AllDigits(a + b)
  {
    DigitsFacts(a);
    DigitsFacts(b);
    DigitsFacts(a + b);
  }

  /** Digits are neither white space nor any other non-digit character. */
  lemma {:induction false} DigitsAreNoSeparator(s: string, c: char)
    requires AllDigits(s) && !IsDigit(c)
    ensures c !in s && SpaceFree(s)
  {
    DigitsFacts(s);
  }

  predicate SpaceFree(s: string) {
    forall k :: 0 <= k < |s| ==> !IsSpace(s[k])
  }

  lemma {:induction false} SpaceFreeAppend(a: string, b: string)
    requires SpaceFree(a) && SpaceFree(b)
    ensures SpaceFree(a + b)
  {
    forall k | 0 <= k < |a + b| ensures !IsSpace((a + b)[k]) {
      if k >= |a| { assert (a + b)[k] == b[k - |a|]; }
    }
  }

  // ---------------------------------------------------------------------
  // Prefixes and suffixes

  predicate StartsWith(s: string, prefix: string) {
    |prefix| <= |s| && s[..|prefix|] == prefix
  }

  predicate EndsWith(s: string, suffix: string) {
    |suffix| <= |s| && s[|s| - |suffix|..] == suffix
  }

  // ---------------------------------------------------------------------
  // str.strip()

  /** The text without its leading white space. */
  function StripLeft(s: string): string {
    if |s| > 0 && IsSpace(s[0]) then StripLeft(s[1..]) else s
  }

  /** The text without its trailing white space: a character is kept when
      it is not white space or when something is kept after it. */
  function StripRight(s: string): string {
    if |s| == 0 then s
    else
      var rest := StripRight(s[1..]);
      if rest == [] && IsSpace(s[0]) then [] else [s[0]] + rest
  }

  /** str.strip(): the text with leading and trailing white space removed
      (StripFacts states this). */
  function Strip(s: string): string {
    StripRight(StripLeft(s))
  }

  lemma {:induction false} StripLeftFacts(s: string)
    ensures |StripLeft(s)| <= |s| && StripLeft(s) == s[|s| - |StripLeft(s)|..]
    ensures StripLeft(s) == [] || !IsSpace(StripLeft(s)[0])
    ensures forall k :: 0 <= k < |s| - |StripLeft(s)| ==> IsSpace(s[k])
    decreases |s|
  {
    if |s| > 0 && IsSpace(s[0]) {
      StripLeftFacts(s[1..]);
    }
  }

  lemma {:induction false} StripRightFacts(s: string)
    ensures |StripRight(s)| <= |s| && StripRight(s) == s[..|StripRight(s)|]
    ensures StripRight(s) == [] || !IsSpace(StripRight(s)[|StripRight(s)| - 1])
    ensures forall k :: |StripRight(s)| <= k < |s| ==> IsSpace(s[k])
    decreases |s|
  {
    if |s| > 0 {
      var rest := StripRight(s[1..]);
      StripRightFacts(s[1..]);
      assert forall k :: 0 < k < |s| ==> s[k] == s[1..][k - 1];
      if !(rest == [] && IsSpace(s[0])) {
        assert StripRight(s) == [s[0]] + rest;
        assert [s[0]] + rest == s[..|rest| + 1];
      }
    }
  }

  /** Strip(s) is the slice s[i..j] that remains once the white space before
      i and from j on is removed, and it neither starts nor ends with white
      space. */
  lemma {:induction false} StripFacts(s: string)
    ensures Strip(s) == [] || (!IsSpace(Strip(s)[0]) && !IsSpace(Strip(s)[|Strip(s)| - 1]))
    ensures exists i, j :: 0 <= i <= j <= |s| && Strip(s) == s[i..j]
              && (forall k :: 0 <= k < i ==> IsSpace(s[k]))
              && (forall k :: j <= k < |s| ==> IsSpace(s[k]))
  {
    var t := StripLeft(s);
    StripLeftFacts(s);
    StripRightFacts(t);
    var i := |s| - |t|;
    var j := i + |StripRight(t)|;
    assert Strip(s) == s[i..j];
    forall k | j <= k < |s| ensures IsSpace(s[k]) {
      assert s[k] == t[k - i];
    }
  }

  /** Stripping twice strips nothing more. */
  lemma {:induction false} StripIdempotent(s: string)
    ensures Strip(Strip(s)) == Strip(s)
  {
    StripFacts(s);
    var r := Strip(s);
    if |r| > 0 {
      assert StripLeft(r) == r;
      StripRightKeeps(r);
    }
  }

  /** Text that does not end in white space has nothing to strip on the right. */
  lemma {:induction false} StripRightKeeps(s: string)
    requires |s| > 0 ==> !IsSpace(s[|s| - 1])
    ensures StripRight(s) == s
    decreases |s|
  {
    if |s| > 0 {
      StripRightKeeps(s[1..]);
      assert s == [s[0]] + s[1..];
    }
  }

  /** White space appended on the right is stripped off again. */
  lemma {:induction false} StripRightSpace(s: string, c: char)
    requires IsSpace(c)
    ensures StripRight(s + [c]) == StripRight(s)
    decreases |s|
  {
    if |s| > 0 {
      assert (s + [c])[1..] == s[1..] + [c];
      StripRightSpace(s[1..], c);
    } else {
      assert s + [c] == [c];
    }
  }

  /** Text without white space is left as it is. */
  lemma {:induction false} StripSpaceFree(s: string)
    requires SpaceFree(s)
    ensures Strip(s) == s
  {
    assert StripLeft(s) == s;
    StripRightKeeps(s);
  }

  /** Text that does not start with white space keeps its first character. */
  lemma {:induction false} StripKeepsFirst(s: string)
    requires |s| > 0 && !IsSpace(s[0])
    ensures |Strip(s)| > 0 && Strip(s)[0] == s[0]
  {
    assert StripLeft(s) == s;
    StripRightFacts(s);
  }

  // ---------------------------------------------------------------------
  // str.split(c) and str.split(c, 1) for a single separator character

  /** s.split(c): the pieces between the separators, so one more piece than
      there are separators, and "" gives [""]. */
  function Split(s: string, c: char): (r: seq<string>)
    ensures |r| >= 1
  {
    if |s| == 0 then [""]
    else
      var rest := Split(s[1..], c);
      if s[0] == c then [""] + rest
      else [[s[0]] + rest[0]] + rest[1..]
  }

  /** One more piece than there are separators. */
  lemma {:induction false} SplitCount(s: string, c: char)
    ensures |Split(s, c)| == multiset(s)[c] + 1
    decreases |s|
  {
    if |s| > 0 {
      SplitCount(s[1..], c);
      assert s == [s[0]] + s[1..];
    }
  }

  /** c.join(parts), the inverse of Split. */
  function Join(parts: seq<string>, c: char): string
    requires |parts| > 0
  {
    if |parts| == 1 then parts[0] else parts[0] + [c] + Join(parts[1..], c)
  }

  /** Cutting at the first separator: the piece before it is the first piece. */
  lemma {:induction false} SplitAtFirst(a: string, c: char, b: string)
    requires c !in a
    ensures Split(a + [c] + b, c) == [a] + Split(b, c)
    decreases |a|
  {
    if |a| == 0 {
      assert a + [c] + b == [c] + b;
      assert ([c] + b)[1..] == b;
    } else {
      assert (a + [c] + b)[1..] == a[1..] + [c] + b;
      SplitAtFirst(a[1..], c, b);
      assert a == [a[0]] + a[1..];
    }
  }

  /** Two separator-free pieces joined by one separator split back into the two. */
  lemma {:induction false} SplitTwo(a: string, c: char, b: string)
    requires c !in a && c !in b
    ensures Split(a + [c] + b, c) == [a, b]
  {
    SplitAtFirst(a, c, b);
    SplitSeparatorFree(b, c);
  }

  /** A piece without separators splits into itself. */
  lemma {:induction false} SplitSeparatorFree(a: string, c: char)
    requires c !in a
    ensures Split(a, c) == [a]
    decreases |a|
  {
    if |a| > 0 {
      SplitSeparatorFree(a[1..], c);
      assert a == [a[0]] + a[1..];
    }
  }

  /** Splitting what Join glued back together gives the pieces back. */
  lemma {:induction false} SplitJoin(parts: seq<string>, c: char)
    requires |parts| > 0
    requires forall k :: 0 <= k < |parts| ==> c !in parts[k]
    ensures Split(Join(parts, c), c) == parts
    decreases |parts|
  {
    if |parts| == 1 {
      SplitSeparatorFree(parts[0], c);
    } else {
      SplitJoin(parts[1..], c);
      SplitAtFirst(parts[0], c, Join(parts[1..], c));
      assert parts == [parts[0]] + parts[1..];
    }
  }

  /** Joining the pieces of a split gives the text back. */
  lemma {:induction false} JoinSplit(s: string, c: char)
    ensures Join(Split(s, c), c) == s
    decreases |s|
  {
    if |s| > 0 {
      JoinSplit(s[1..], c);
      var rest := Split(s[1..], c);
      assert s == [s[0]] + s[1..];
      if s[0] != c && |rest| > 1 {
        assert ([[s[0]] + rest[0]] + rest[1..])[1..] == rest[1..];
        assert rest == [rest[0]] + rest[1..];
      } else if s[0] == c {
        assert ([""] + rest)[1..] == rest;
      }
    }
  }

  /** s.split(c, 1): the text before the first separator and, when there is a
      separator, everything after it (later separators included). */
  function SplitOnce(s: string, c: char): (r: seq<string>)
    ensures 1 <= |r| <= 2
    ensures |r| == 2 <==> c in s
    ensures c !in r[0]
    ensures |r| == 1 ==> r[0] == s
    ensures |r| == 2 ==> s == r[0] + [c] + r[1]
  {
    if |s| == 0 then [""]
    else if s[0] == c then
      assert s == [] + [c] + s[1..];
      ["", s[1..]]
    else
      var rest := SplitOnce(s[1..], c);
      assert s == [s[0]] + s[1..];
      [[s[0]] + rest[0]] + rest[1..]
  }

  /** split(c, 1) cuts at the first separator. */
  lemma {:induction false} SplitOnceAt(a: string, c: char, b: string)
    requires c !in a
    ensures SplitOnce(a + [c] + b, c) == [a, b]
    decreases |a|
  {
    if |a| == 0 {
      assert a + [c] + b == [c] + b;
      assert ([c] + b)[1..] == b;
    } else {
      assert (a + [c] + b)[1..] == a[1..] + [c] + b;
      SplitOnceAt(a[1..], c, b);
      assert a == [a[0]] + a[1..];
    }
  }

  /** A line's leading blank and its line break are stripped off. */
  lemma {:induction false} StripPadded(u: string)
    requires |u| > 0 && !IsSpace(u[0]) && !IsSpace(u[|u| - 1])
    ensures Strip(" " + u + "\n") == u
  {
    var t := " " + u + "\n";
    assert t[1..] == u + "\n";
    assert StripLeft(u + "\n") == u + "\n";
    StripRightSpace(u, '\n');
    StripRightKeeps(u);
  }

  // ---------------------------------------------------------------------
  // Numbers

  function Pow10(k: nat): (r: nat)
    ensures r >= 1
  {
    if k == 0 then 1 else 10 * Pow10(k - 1)
  }

  /** The value of a string of ASCII decimal digits ("" is 0). */
  function DigitsValue(s: string): nat
    requires AllDigits(s)
  {
    DigitsAfter(0, s)
  }

  /** The value of the digits of `s` read after the value `acc` already read:
      each digit shifts what was read one place left. */
  function DigitsAfter(acc: nat, s: string): nat
    requires AllDigits(s)
    decreases |s|
  {
    if |s| == 0 then acc
    else DigitsAfter(acc * 10 + (s[0] as int - '0' as int), s[1..])
  }

  /** The sign a number literal starts with, and what follows it. */
  function SignAndBody(t: string): (bool, string) {
    if |t| > 0 && t[0] == '-' then (true, t[1..])
    else if |t| > 0 && t[0] == '+' then (false, t[1..])
    else (false, t)
  }

  /** n with the sign a literal gave it. */
  function Signed(negative: bool, n: int): int {
    if negative then -n else n
  }

  /** int(s) on a string: optional surrounding white space, an optional sign,
      then one or more decimal digits; anything else is a ValueError. */
  function ParseInt(s: string): Option<int> {
    var (negative, body) := SignAndBody(Strip(s));
    if |body| > 0 && AllDigits(body) then Some(Signed(negative, DigitsValue(body))) else None
  }

  /** A nonempty run of digits is its own literal: nothing to strip, no sign. */
  lemma {:induction false} DigitLiteral(s: string)
    requires AllDigits(s) && |s| > 0
    ensures Strip(s) == s && SignAndBody(s) == (false, s)
  {
    DigitsFacts(s);
    StripSpaceFree(s);
  }

  /** int() of a run of digits is the value of those digits. */
  lemma {:induction false} ParseIntDigits(s: string)
    requires AllDigits(s) && |s| > 0
    ensures ParseInt(s) == Some(DigitsValue(s))
  {
    DigitLiteral(s);
  }

  /** Text that starts with a digit reads, if at all, as a non-negative
      integer: no sign can follow the first character. */
  lemma {:induction false} ParseIntLeadingDigit(s: string)
    requires |s| > 0 && IsDigit(s[0])
    ensures ParseInt(s).Some? ==> ParseInt(s).value >= 0
  {
    StripKeepsFirst(s);
  }

  /** int() accepts white space around the number and a sign before it. */
  lemma {:induction false} ParseIntSpacedSigned(s: string, sign: char)
    requires AllDigits(s) && |s| > 0 && (sign == '-' || sign == '+')
    ensures sign == '-' ==> ParseInt(" " + [sign] + s + "\n") == Some(-(DigitsValue(s) as int))
    ensures sign == '+' ==> ParseInt(" " + [sign] + s + "\n") == Some(DigitsValue(s) as int)
  {
    var u := [sign] + s;
    var t := " " + [sign] + s + "\n";
    assert t == " " + u + "\n";
    assert t[1..] == u + "\n";
    assert StripLeft(u + "\n") == u + "\n";
    assert StripRight(u + "\n") == u by {
      StripRightSpace(u, '\n');
      DigitsFacts(s);
      assert u[|u| - 1] == s[|s| - 1];
      StripRightKeeps(u);
    }
    assert Strip(t) == u;
    assert u[1..] == s;
    if sign == '-' {
      ParseIntOfLiteral(t, true, s);
      assert ParseInt(t) == Some(-(DigitsValue(s) as int));
    } else {
      ParseIntOfLiteral(t, false, s);
      assert ParseInt(t) == Some(DigitsValue(s) as int);
    }
  }

  /** int() of text whose stripped form is a sign and digits. */
  lemma {:induction false} ParseIntOfLiteral(t: string, negative: bool, body: string)
    requires AllDigits(body) && |body| > 0
    requires SignAndBody(Strip(t)) == (negative, body)
    ensures ParseInt(t) == Some(Signed(negative, DigitsValue(body)))
  {
  }

  /** A decimal number numerator / 10^scale, kept exact. */
  datatype Decimal = Decimal(numerator: int, scale: nat)

  /** float(s) for literals without an exponent: optional white space and
      sign, then digits with at most one decimal point and at least one digit
      ("6", "6.5", ".5", "6."). */
  function ParseDecimal(s: string): Option<Decimal> {
    var sb := SignAndBody(Strip(s));
    match UnsignedDecimal(sb.1)
    case None => None
    case Some(x) => Some(Decimal(Signed(sb.0, x.numerator), x.scale))
  }

  /** The digits-and-point part of a float literal, without its sign. */
  function UnsignedDecimal(body: string): (r: Option<Decimal>)
    ensures r.Some? ==> r.value.numerator >= 0
  {
    var parts := Split(body, '.');
    if |parts| == 1 then
      if |body| > 0 && AllDigits(body) then Some(Decimal(DigitsValue(body), 0)) else None
    else if |parts| == 2 then
      var whole, fraction := parts[0], parts[1];
      if |whole| + |fraction| > 0 && AllDigits(whole + fraction) then
        Some(Decimal(DigitsValue(whole + fraction), |fraction|))
      else None
    else None
  }

  /** Digits around one decimal point carry no sign and no white space. */
  lemma {:induction false} DecimalLiteralUnsigned(whole: string, fraction: string)
    requires AllDigits(whole) && AllDigits(fraction)
    requires |whole| + |fraction| > 0
    ensures SignAndBody(Strip(whole + "." + fraction)) == (false, whole + "." + fraction)
  {
    var literal := whole + "." + fraction;
    DigitsAreNoSeparator(whole, '.');
    DigitsAreNoSeparator(fraction, '.');
    SpaceFreeAppend(whole, ".");
    SpaceFreeAppend(whole + ".", fraction);
    StripSpaceFree(literal);
    DigitsFacts(whole);
    assert literal[0] != '-' && literal[0] != '+' by {
      if |whole| > 0 { assert literal[0] == whole[0]; }
    }
  }

  /** "W.F" is the decimal WF / 10^|F|. */
  lemma {:induction false} DecimalLiteralValue(whole: string, fraction: string)
    requires AllDigits(whole) && AllDigits(fraction)
    requires |whole| + |fraction| > 0
    ensures AllDigits(whole + fraction)
    ensures UnsignedDecimal(whole + "." + fraction)
         == Some(Decimal(DigitsValue(whole + fraction), |fraction|))
  {
    AllDigitsAppend(whole, fraction);
    DigitsAreNoSeparator(whole, '.');
    DigitsAreNoSeparator(fraction, '.');
    SplitTwo(whole, '.', fraction);
  }

  lemma {:induction false} ParseUnsignedDecimal(literal: string, x: Decimal)
    requires SignAndBody(Strip(literal)) == (false, literal)
    requires UnsignedDecimal(literal) == Some(x)
    ensures ParseDecimal(literal) == Some(x)
  {
  }

  /** round(n / d) as Python rounds: to the nearest integer, and on an exact
      half to the even neighbour (RoundHalfEvenNearest states this). */
  function RoundHalfEven(n: int, d: int): int
    requires d > 0
  {
    var q, rem := n / d, n % d;
    if 2 * rem < d then q
    else if 2 * rem > d then q + 1
    else if q % 2 == 0 then q
    else q + 1
  }

  /** RoundHalfEven(n, d) lies within half a step of n / d, and when n / d is
      exactly half-way between two integers it is the even one. */
  lemma RoundHalfEvenNearest(n: int, d: int)
    requires d > 0
    ensures -d <= 2 * (RoundHalfEven(n, d) * d - n) <= d
    ensures 2 * (RoundHalfEven(n, d) * d - n) == d || 2 * (RoundHalfEven(n, d) * d - n) == -d
            ==> RoundHalfEven(n, d) % 2 == 0
  {
    var q, rem := n / d, n % d;
    assert n == q * d + rem;
    if 2 * rem <= d && (2 * rem < d || q % 2 == 0) {
      assert q * d - n == -rem;
    } else {
      assert (q + 1) * d - n == d - rem;
    }
  }

  /** Nearest-with-ties-to-even determines the result: no other integer has
      both properties RoundHalfEven promises. */
  lemma RoundHalfEvenUnique(n: int, d: int, r': int)
    requires d > 0
    requires -d <= 2 * (r' * d - n) <= d
    requires 2 * (r' * d - n) == d || 2 * (r' * d - n) == -d ==> r' % 2 == 0
    ensures r' == RoundHalfEven(n, d)
  {
    var r := RoundHalfEven(n, d);
    RoundHalfEvenNearest(n, d);
    if r' != r {
      var hi, lo := if r' > r then r' else r, if r' > r then r else r';
      // two candidates within half a step of n / d are neighbours and both
      // exact ties, so both would be even
      ScaledGap(hi, lo, d);
      assert false;
    }
  }

  /** Integers at least one apart stay at least d apart once scaled by d, and
      exactly d apart only when they are neighbours. */
  lemma ScaledGap(hi: int, lo: int, d: int)
    requires hi > lo && d > 0
    ensures hi * d - lo * d >= d
    ensures hi * d - lo * d <= d ==> hi == lo + 1
  {
    var g := hi - lo;
    assert hi * d - lo * d == g * d;
    if g >= 2 {
      assert g * d == d + (g - 1) * d;
      assert (g - 1) * d >= d;
    }
  }

  /** round(float(s)), with float(s) read as an exact decimal. */
  function RoundedNumber(s: string): Result<int> {
    match ParseDecimal(s)
    case None => Raise(ValueError)
    case Some(x) => Ok(RoundHalfEven(x.numerator, Pow10(x.scale)))
  }

  /** int(s), raising ValueError on anything but an integer literal. */
  function IntOf(s: string): Result<int> {
    match ParseInt(s)
    case None => Raise(ValueError)
    case Some(n) => Ok(n)
  }
}
