/** Strings as the Go code uses them: byte-wise order, decimal printing and
    Unicode white-space trimming.  A string is a sequence of code points; UTF-8 keeps
    their order, so comparing code points is comparing bytes. */
module Text {

  /** Go's `<` on strings. */
  predicate Less(a: string, b: string) {
    b != [] && (a == [] || a[0] < b[0] || (a[0] == b[0] && Less(a[1..], b[1..])))
  }

  /** The order a stable sort by `<` leaves: never a later element before an earlier one. */
  predicate AtMost(a: string, b: string) {
    !Less(b, a)
  }

  lemma {:induction false} LessTotal(a: string, b: string)
    ensures Less(a, b) || Less(b, a) || a == b
    ensures !(Less(a, b) && Less(b, a))
  {
    if a != [] && b != [] {
      LessTotal(a[1..], b[1..]);
      assert a == [a[0]] + a[1..] && b == [b[0]] + b[1..];
    }
  }

  lemma {:induction false} LessTransitive(a: string, b: string, c: string)
    requires Less(a, b) && Less(b, c)
    ensures Less(a, c)
  {
    if a != [] && a[0] == b[0] == c[0] {
      LessTransitive(a[1..], b[1..], c[1..]);
    }
  }

  /** `AtMost` is a total order. */
  lemma AtMostTransitive(a: string, b: string, c: string)
    requires AtMost(a, b) && AtMost(b, c)
    ensures AtMost(a, c)
  {
    LessTotal(a, b);
    LessTotal(b, c);
    if Less(c, a) {
      if a != b {
        LessTransitive(c, a, b);
      }
    }
  }

  /** The strings agree up to `k`, where `a` ends or has the smaller character. */
  predicate PartAt(a: string, b: string, k: nat) {
    k <= |a| && k < |b| && a[..k] == b[..k] && (k == |a| || a[k] < b[k])
  }

  /** The order is decided where the strings part. */
  lemma {:induction false} LessExact(a: string, b: string)
    ensures Less(a, b) <==> exists k: nat :: PartAt(a, b, k)
  {
    if a == [] || b == [] || a[0] != b[0] {
      assert Less(a, b) ==> PartAt(a, b, 0);
      assert forall k: nat :: 0 < k && PartAt(a, b, k) ==> a[..k][0] == b[..k][0];
    } else {
      LessExact(a[1..], b[1..]);
      if k: nat :| PartAt(a[1..], b[1..], k) {
        assert a[..k + 1] == [a[0]] + a[1..][..k] && b[..k + 1] == [b[0]] + b[1..][..k];
        assert PartAt(a, b, k + 1);
      }
      if k: nat :| PartAt(a, b, k) {
        assert a[1..][..k - 1] == a[..k][1..] && b[1..][..k - 1] == b[..k][1..];
        assert PartAt(a[1..], b[1..], k - 1);
      }
    }
  }

  // ---------------------------------------------------------------- decimal numbers

  const DIGITS := "0123456789"

  predicate IsDigit(c: char) {
    '0' <= c <= '9'
  }

  function DigitChar(d: nat): (c: char)
    requires d < 10
    ensures IsDigit(c)
  {
    '0' + d as char
  }

  /** `strconv.Itoa` on the counters and positions of the program, which are never negative. */
  function Itoa(n: nat): string {
    if n < 10 then [DigitChar(n)] else Itoa(n / 10) + [DigitChar(n % 10)]
  }

  predicate AllDigits(s: string) {
    forall k :: 0 <= k < |s| ==> IsDigit(s[k])
  }

  lemma {:induction false} ItoaDigits(n: nat)
    ensures Itoa(n) != [] && AllDigits(Itoa(n))
  {
    if n >= 10 {
      ItoaDigits(n / 10);
    }
  }

  /** The value of a string of digits. */
  function Value(s: string): nat
    requires AllDigits(s)
  {
    if s == [] then 0
    else
      assert IsDigit(s[|s| - 1]);
      10 * Value(s[..|s| - 1]) + (s[|s| - 1] as int - '0' as int)
  }

  lemma {:induction false} ValueOfItoa(n: nat)
    ensures AllDigits(Itoa(n)) && Value(Itoa(n)) == n
  {
    ItoaDigits(n);
    if n >= 10 {
      ValueOfItoa(n / 10);
      assert Itoa(n)[..|Itoa(n)| - 1] == Itoa(n / 10);
    } else {
      assert Itoa(n)[..0] == [];
    }
  }

  lemma ItoaInjective(m: nat, n: nat)
    requires Itoa(m) == Itoa(n)
    ensures m == n
  {
    ValueOfItoa(m);
    ValueOfItoa(n);
  }

  /** Numbers are printed and read digit by digit, most significant first. */
  lemma DigitByDigit(n: nat, s: string, d: nat)
    requires d < 10 && AllDigits(s)
    ensures Itoa(d) == [DIGITS[d]] && (n > 0 ==> Itoa(10 * n + d) == Itoa(n) + [DIGITS[d]])
    ensures AllDigits(s + [DIGITS[d]]) && Value(s + [DIGITS[d]]) == 10 * Value(s) + d && Value("") == 0
  {
    assert DIGITS[d] == '0' + d as char;
    assert (s + [DIGITS[d]])[..|s|] == s;
  }

  lemma DigitsExact(s: string)
    ensures AllDigits(s) <==> forall c :: c in s ==> c in DIGITS
  {
    forall c ensures IsDigit(c) <==> c in DIGITS {
      assert IsDigit(c) ==> DIGITS[c as int - '0' as int] == c;
    }
  }

  /** A number printed after text that ends in a dash: the last dash stands right before the
      digits, so both parts can be read back. */
  lemma DashThenNumber(a: string, i: nat, b: string, j: nat)
    requires a + "-" + Itoa(i) == b + "-" + Itoa(j)
    ensures a == b && i == j
  {
    var x, y := Itoa(i), Itoa(j);
    ItoaDigits(i);
    ItoaDigits(j);
    var s := a + "-" + x;
    DashBefore(a, x);
    DashBefore(b, y);
    assert |x| == |y|;
    assert a == s[..|a|] && b == s[..|b|];
    assert x == s[|s| - |x|..] && y == s[|s| - |y|..];
    ItoaInjective(i, j);
  }

  lemma DashBefore(a: string, x: string)
    requires AllDigits(x)
    ensures var s := a + "-" + x;
      s[|s| - |x| - 1] == '-' && forall k :: |s| - |x| <= k < |s| ==> s[k] != '-'
  {
    var s := a + "-" + x;
    forall k | |s| - |x| <= k < |s| ensures s[k] != '-' {
      assert s[k] == x[k - (|s| - |x|)];
      assert IsDigit(x[k - (|s| - |x|)]);
    }
  }

  // ---------------------------------------------------------------- white space

  /** `unicode.IsSpace`: the code points with the White_Space property. */
  predicate IsSpace(c: char) {
    || '\t' <= c <= '\r' || c == ' ' || c == '\U{85}' || c == '\U{A0}' || c == '\U{1680}'
    || '\U{2000}' <= c <= '\U{200A}' || c == '\U{2028}' || c == '\U{2029}' || c == '\U{202F}'
    || c == '\U{205F}' || c == '\U{3000}'
  }

  /** Drops every leading character that satisfies `drop`. */
  function TrimLeft(drop: char -> bool, s: string): string {
    if s == [] || !drop(s[0]) then s else TrimLeft(drop, s[1..])
  }

  /** Drops every trailing character that satisfies `drop`. */
  function TrimRight(drop: char -> bool, s: string): string {
    if s == [] || !drop(s[|s| - 1]) then s else TrimRight(drop, s[..|s| - 1])
  }

  /** `strings.Trim` and `strings.TrimSpace`. */
  function Trim(drop: char -> bool, s: string): string {
    TrimRight(drop, TrimLeft(drop, s))
  }

  function TrimSpace(s: string): string {
    Trim(IsSpace, s)
  }

  lemma {:induction false} TrimRightExact(drop: char -> bool, s: string)
    ensures var t := TrimRight(drop, s);
      && |t| <= |s| && t == s[..|t|]
      && (t == [] || !drop(t[|t| - 1]))
      && forall k :: |t| <= k < |s| ==> drop(s[k])
  {
    if s != [] && drop(s[|s| - 1]) {
      TrimRightExact(drop, s[..|s| - 1]);
    }
  }

  lemma {:induction false} TrimLeftExact(drop: char -> bool, s: string) returns (n: nat)
    ensures n <= |s| && TrimLeft(drop, s) == s[n..]
    ensures n == |s| || !drop(s[n])
    ensures forall k :: 0 <= k < n ==> drop(s[k])
  {
    n := 0;
    if s != [] && drop(s[0]) {
      var m := TrimLeftExact(drop, s[1..]);
      n := m + 1;
      forall k | 0 <= k < n ensures drop(s[k]) {
        if k > 0 { assert s[k] == s[1..][k - 1]; }
      }
    }
  }

  const WHITE_SPACE :=
    "\t\n\U{B}\U{C}\r \U{85}\U{A0}\U{1680}\U{2000}\U{2001}\U{2002}\U{2003}\U{2004}\U{2005}" +
    "\U{2006}\U{2007}\U{2008}\U{2009}\U{200A}\U{2028}\U{2029}\U{202F}\U{205F}\U{3000}"

  lemma SpaceExact(c: char)
    ensures IsSpace(c) <==> c in WHITE_SPACE
  {
    if IsSpace(c) {
      var k := SpaceAt(c);
      assert WHITE_SPACE[k] == c;
    }
  }

  /** Where a white-space character stands in the list. */
  function SpaceAt(c: char): (k: nat)
    requires IsSpace(c)
    ensures k < |WHITE_SPACE| && WHITE_SPACE[k] == c
  {
    if c <= '\r' then c as int - 9
    else if c == ' ' then 5
    else if c == '\U{85}' then 6
    else if c == '\U{A0}' then 7
    else if c == '\U{1680}' then 8
    else if c <= '\U{200A}' then c as int - 0x2000 + 9
    else if c == '\U{2028}' then 20
    else if c == '\U{2029}' then 21
    else if c == '\U{202F}' then 22
    else if c == '\U{205F}' then 23
    else 24
  }

  lemma TrimSpaceAt(s: string) returns (i: nat, j: nat)
    ensures i <= j <= |s| && TrimSpace(s) == s[i..j]
    ensures forall k :: 0 <= k < i || j <= k < |s| ==> IsSpace(s[k])
    ensures i < j ==> !IsSpace(s[i]) && !IsSpace(s[j - 1])
  {
    i := TrimLeftExact(IsSpace, s);
    TrimRightExact(IsSpace, s[i..]);
    j := i + |TrimSpace(s)|;
    forall k | j <= k < |s| ensures IsSpace(s[k]) {
      assert s[k] == s[i..][k - i];
    }
  }

  /** What is left is the stretch between the outermost characters that are not white space. */
  lemma TrimSpaceExact(s: string) returns (i: nat, j: nat)
    ensures i <= j <= |s| && TrimSpace(s) == s[i..j]
    ensures forall k :: 0 <= k < i || j <= k < |s| ==> s[k] in WHITE_SPACE
    ensures i < j ==> s[i] !in WHITE_SPACE && s[j - 1] !in WHITE_SPACE
  {
    i, j := TrimSpaceAt(s);
    forall k | 0 <= k < |s| ensures IsSpace(s[k]) <==> s[k] in WHITE_SPACE {
      SpaceExact(s[k]);
    }
  }

  lemma NotBlank(s: string)
    requires s != "" && !IsSpace(s[0])
    ensures TrimSpace(s) != ""
  {
    TrimRightExact(IsSpace, s);
  }

  // ---------------------------------------------------------------- lower case

  /** `unicode.ToLower` as far as ASCII results go: besides A to Z only the Kelvin sign and
      the dotted capital I map to an ASCII letter; every other rune stays outside ASCII. */
  function Lower(c: char): char {
    if 'A' <= c <= 'Z' then c - 'A' + 'a'
    else if c == '\U{212A}' then 'k'
    else if c == '\U{130}' then 'i'
    else c
  }

  function ToLower(s: string): string {
    seq(|s|, k requires 0 <= k < |s| => Lower(s[k]))
  }

  /** Capital letters become small ones, by their place in the alphabet; besides them only two
      characters become letters, and no other changes. */
  lemma LowerExact(c: char, k: nat)
    requires k < 26
    ensures Lower((65 + k) as char) == (97 + k) as char
    ensures Lower('\U{212A}') == 'k' && Lower('\U{130}') == 'i'
    ensures !(65 <= c as int < 91) && c != '\U{212A}' && c != '\U{130}' ==> Lower(c) == c
  {
  }
}
