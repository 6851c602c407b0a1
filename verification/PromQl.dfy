/** Template expansion by repeated rescanning (backend/pkg/datasource/prometheus/metrics.go). */
module PromQl {

  predicate IsWord(c: char) {
    'a' <= c <= 'z' || 'A' <= c <= 'Z' || '0' <= c <= '9' || c == '_'
  }

  /** The end of the run of word characters that starts at `i`. */
  function WordEnd(s: string, i: nat): (end: nat)
    requires i <= |s|
    ensures i <= end <= |s|
    decreases |s| - i
  {
    if i < |s| && IsWord(s[i]) then WordEnd(s, i + 1) else i
  }

  lemma {:induction false} WordEndExact(s: string, i: nat)
    requires i <= |s|
    ensures forall k :: i <= k < WordEnd(s, i) ==> IsWord(s[k])
    ensures WordEnd(s, i) < |s| ==> !IsWord(s[WordEnd(s, i)])
    decreases |s| - i
  {
    if i < |s| && IsWord(s[i]) {
      WordEndExact(s, i + 1);
    }
  }

  lemma {:induction false} WordEndAt(s: string, i: nat, end: nat)
    requires i <= end <= |s| && (forall k :: i <= k < end ==> IsWord(s[k])) && (end < |s| ==> !IsWord(s[end]))
    ensures WordEnd(s, i) == end
    decreases end - i
  {
    if i < end {
      WordEndAt(s, i + 1, end);
    }
  }

  /** The value of a variable; absent and empty ones match anything. */
  function Value(vars: map<string, string>, name: string): string {
    if name in vars && vars[name] != "" then vars[name] else ".*"
  }

  /** The position of the first `$`, or the length. */
  function FirstDollar(s: string): (i: nat)
    ensures i <= |s|
    ensures i < |s| ==> s[i] == '$'
  {
    if s == "" || s[0] == '$' then 0 else 1 + FirstDollar(s[1..])
  }

  lemma {:induction false} FirstDollarExact(s: string)
    ensures '$' !in s[..FirstDollar(s)]
    ensures FirstDollar(s) == |s| <==> '$' !in s
  {
    if s != "" && s[0] != '$' {
      FirstDollarExact(s[1..]);
      var i := FirstDollar(s);
      assert s[..i] == [s[0]] + s[1..][..i - 1];
      assert s == [s[0]] + s[1..];
    }
  }

  /** One round of the loop: the first `$word` is replaced, all else stays. */
  function Round(vars: map<string, string>, s: string): string {
    if s == "" then ""
    else if s[0] == '$' then
      var end := WordEnd(s, 1);
      Value(vars, s[1..end]) + s[end..]
    else [s[0]] + Round(vars, s[1..])
  }

  function Dollars(s: string): nat {
    if s == "" then 0 else (if s[0] == '$' then 1 else 0) + Dollars(s[1..])
  }

  /** One left-to-right pass: each maximal `$word` becomes its value, all else stays. */
  function OnePass(vars: map<string, string>, s: string): string
    decreases |s|
  {
    if s == "" then ""
    else if s[0] == '$' then
      var end := WordEnd(s, 1);
      Value(vars, s[1..end]) + OnePass(vars, s[end..])
    else [s[0]] + OnePass(vars, s[1..])
  }

  predicate AllWord(name: string) {
    forall k :: 0 <= k < |name| ==> IsWord(name[k])
  }

  /** No value that a template can name contains a `$`. */
  predicate DollarFree(vars: map<string, string>) {
    forall name :: name in vars && AllWord(name) ==> '$' !in vars[name]
  }

  lemma {:induction false} DollarsConcat(s: string, t: string)
    ensures Dollars(s + t) == Dollars(s) + Dollars(t)
  {
    if s == "" {
      assert s + t == t;
    } else {
      assert (s + t)[1..] == s[1..] + t;
      DollarsConcat(s[1..], t);
    }
  }

  lemma {:induction false} NoDollars(s: string)
    ensures Dollars(s) == 0 <==> '$' !in s
  {
    if s != "" {
      assert s == [s[0]] + s[1..];
      NoDollars(s[1..]);
    }
  }

  lemma {:induction false} RoundSkips(vars: map<string, string>, front: string, s: string)
    requires '$' !in front
    ensures Round(vars, front + s) == front + Round(vars, s)
  {
    if front == "" {
      assert front + s == s;
    } else {
      assert (front + s)[1..] == front[1..] + s;
      RoundSkips(vars, front[1..], s);
      assert front == [front[0]] + front[1..];
    }
  }

  lemma RoundWord(vars: map<string, string>, name: string, rest: string)
    requires AllWord(name) && (rest == "" || !IsWord(rest[0]))
    ensures Round(vars, "$" + name + rest) == Value(vars, name) + rest
  {
    var s := "$" + name + rest;
    WordEndAt(s, 1, 1 + |name|);
    assert s[1..1 + |name|] == name && s[1 + |name|..] == rest;
  }

  /** A template cut at its first `$word`. */
  lemma FirstWord(s: string) returns (front: string, name: string, rest: string)
    requires '$' in s
    ensures s == front + ("$" + name + rest)
    ensures '$' !in front && AllWord(name) && (rest == "" || !IsWord(rest[0]))
  {
    FirstDollarExact(s);
    var i := FirstDollar(s);
    name, rest := WordAt(s, i + 1);
    front := s[..i];
  }

  /** What a round does to it. */
  lemma RoundParts(vars: map<string, string>, s: string) returns (front: string, name: string, rest: string)
    requires '$' in s
    ensures s == front + ("$" + name + rest)
    ensures '$' !in front && AllWord(name) && (rest == "" || !IsWord(rest[0]))
    ensures Round(vars, s) == front + (Value(vars, name) + rest)
  {
    front, name, rest := FirstWord(s);
    RoundSkips(vars, front, "$" + name + rest);
    RoundWord(vars, name, rest);
  }

  /** A letter, a digit or the underscore, by code point. */
  predicate InWord(c: char) {
    48 <= c as int <= 57 || 65 <= c as int <= 90 || 97 <= c as int <= 122 || c as int == 95
  }

  /** The value is what the variable holds; without one, or when it is empty, anything matches. */
  predicate StandsFor(vars: map<string, string>, name: string, v: string) {
    if name in vars && vars[name] != "" then v == vars[name] else v == ".*"
  }

  /** A round finds the first `$` and the longest word behind it, and puts in the value; a single
      pass does so too and goes on behind it.  Without a `$` neither does anything. */
  lemma RoundIs(vars: map<string, string>, s: string) returns (front: string, name: string, v: string, rest: string)
    ensures '$' !in s ==> Round(vars, s) == s && OnePass(vars, s) == s
    ensures '$' in s ==>
      && s == front + ("$" + name + rest) && '$' !in front
      && (forall c :: c in name ==> InWord(c)) && (rest != "" ==> !InWord(rest[0]))
      && StandsFor(vars, name, v)
      && Round(vars, s) == front + (v + rest)
      && OnePass(vars, s) == front + (v + OnePass(vars, rest))
  {
    front, name, v, rest := "", "", "", "";
    if '$' in s {
      front, name, rest := RoundParts(vars, s);
      v := Value(vars, name);
      OnePassSkips(vars, front, "$" + name + rest);
      OnePassWord(vars, name, rest);
    } else {
      RoundSkips(vars, s, "");
      OnePassSkips(vars, s, "");
      assert s + "" == s;
    }
  }

  lemma WordAt(s: string, i: nat) returns (name: string, rest: string)
    requires i <= |s|
    ensures name == s[i..WordEnd(s, i)] && rest == s[WordEnd(s, i)..]
    ensures AllWord(name) && (rest == "" || !IsWord(rest[0]))
  {
    WordEndExact(s, i);
    name, rest := s[i..WordEnd(s, i)], s[WordEnd(s, i)..];
  }

  lemma ThreeParts(a: string, b: string, c: string)
    ensures a + b + c == a + (b + c)
  {
  }

  lemma {:induction false} OnePassSkips(vars: map<string, string>, front: string, s: string)
    requires '$' !in front
    ensures OnePass(vars, front + s) == front + OnePass(vars, s)
  {
    if front == "" {
      assert front + s == s;
    } else {
      assert (front + s)[1..] == front[1..] + s;
      OnePassSkips(vars, front[1..], s);
      assert front == [front[0]] + front[1..];
    }
  }

  lemma OnePassWord(vars: map<string, string>, name: string, rest: string)
    requires AllWord(name) && (rest == "" || !IsWord(rest[0]))
    ensures OnePass(vars, "$" + name + rest) == Value(vars, name) + OnePass(vars, rest)
  {
    var s := "$" + name + rest;
    WordEndAt(s, 1, 1 + |name|);
    assert s[1..1 + |name|] == name && s[1 + |name|..] == rest;
  }

  lemma OnePassParts(vars: map<string, string>, front: string, name: string, rest: string)
    requires DollarFree(vars) && '$' !in front && AllWord(name) && (rest == "" || !IsWord(rest[0]))
    ensures OnePass(vars, front + (Value(vars, name) + rest)) == OnePass(vars, front + ("$" + name + rest))
  {
    OnePassSkips(vars, front, "$" + name + rest);
    OnePassWord(vars, name, rest);
    OnePassSkips(vars, Value(vars, name), rest);
    OnePassSkips(vars, front, Value(vars, name) + rest);
  }

  /** A round removes one `$`. */
  lemma RoundCounts(vars: map<string, string>, s: string)
    requires DollarFree(vars) && Dollars(s) > 0
    ensures Dollars(Round(vars, s)) == Dollars(s) - 1
  {
    NoDollars(s);
    var front, name, rest := RoundParts(vars, s);
    CountParts(front, name, rest, Value(vars, name));
  }

  /** A round does not change what one pass yields. */
  lemma RoundStep(vars: map<string, string>, s: string)
    requires DollarFree(vars) && '$' in s
    ensures OnePass(vars, Round(vars, s)) == OnePass(vars, s)
  {
    var front, name, rest := RoundParts(vars, s);
    OnePassParts(vars, front, name, rest);
  }

  lemma CountParts(front: string, name: string, rest: string, v: string)
    requires '$' !in front && AllWord(name) && '$' !in v
    ensures Dollars(front + ("$" + name + rest)) == 1 + Dollars(rest)
    ensures Dollars(front + (v + rest)) == Dollars(rest)
  {
    NoDollars(front);
    NoDollars(name);
    NoDollars(v);
    DollarsConcat(front, v + rest);
    DollarsConcat(v, rest);
    DollarsConcat(front, "$" + name + rest);
    DollarsConcat("$" + name, rest);
    DollarsConcat("$", name);
    assert Dollars("$") == 1 + Dollars("$"[1..]);
  }

  /** The template after `n` rounds; a template without `$` stays as it is. */
  function Rounds(vars: map<string, string>, s: string, n: nat): string {
    if n == 0 then s else Round(vars, Rounds(vars, s, n - 1))
  }

  /** The loop ends on this template. */
  ghost predicate Ends(vars: map<string, string>, s: string) {
    exists n: nat :: '$' !in Rounds(vars, s, n)
  }

  lemma {:induction false} RoundsCountDown(vars: map<string, string>, s: string, n: nat)
    requires DollarFree(vars) && n <= Dollars(s)
    ensures Dollars(Rounds(vars, s, n)) == Dollars(s) - n
  {
    if n > 0 {
      var before := Rounds(vars, s, n - 1);
      RoundsCountDown(vars, s, n - 1);
      RoundCounts(vars, before);
    }
  }

  lemma {:induction false} RoundsKeepOnePass(vars: map<string, string>, s: string, n: nat)
    requires DollarFree(vars) && n <= Dollars(s)
    ensures OnePass(vars, Rounds(vars, s, n)) == OnePass(vars, s)
  {
    if n > 0 {
      var before := Rounds(vars, s, n - 1);
      RoundsKeepOnePass(vars, s, n - 1);
      RoundsCountDown(vars, s, n - 1);
      NoDollars(before);
      RoundStep(vars, before);
    }
  }

  /** `n` is the first round after which no `$` is left. */
  ghost predicate DoneAfter(vars: map<string, string>, s: string, n: nat) {
    '$' !in Rounds(vars, s, n) && (n > 0 ==> '$' in Rounds(vars, s, n - 1))
  }

  /** With `$`-free values there are as many rounds as the template has `$`, and together they
      do what one left-to-right pass does. */
  lemma DoneIsOnePass(vars: map<string, string>, s: string, n: nat)
    requires DollarFree(vars) && DoneAfter(vars, s, n)
    ensures n == Dollars(s) && Rounds(vars, s, n) == OnePass(vars, s)
  {
    var d := Dollars(s);
    RoundsCountDown(vars, s, d);
    NoDollars(Rounds(vars, s, d));
    if n > d {
      StaysDone(vars, s, d, n - 1);
    }
    RoundsCountDown(vars, s, n);
    NoDollars(Rounds(vars, s, n));
    RoundsKeepOnePass(vars, s, n);
    NothingToDo(vars, Rounds(vars, s, n));
  }

  lemma {:induction false} StaysDone(vars: map<string, string>, s: string, m: nat, n: nat)
    requires m <= n && '$' !in Rounds(vars, s, m)
    ensures '$' !in Rounds(vars, s, n)
  {
    if m < n {
      var before := Rounds(vars, s, n - 1);
      StaysDone(vars, s, m, n - 1);
      RoundSkips(vars, before, "");
      assert before + "" == before;
    }
  }

  lemma NothingToDo(vars: map<string, string>, s: string)
    requires '$' !in s
    ensures OnePass(vars, s) == s
  {
    OnePassSkips(vars, s, "");
    assert s + "" == s;
  }

  // ---------------------------------------------------------------- when it ends in time

  /** Every template is free of `$` after as many rounds as it has `$`. */
  ghost predicate EndsInTime(vars: map<string, string>) {
    forall s :: '$' !in Rounds(vars, s, Dollars(s))
  }

  /** The loop keeps to that count for all templates exactly when no value that a template can
      name contains a `$`. */
  lemma EndsInTimeIffDollarFree(vars: map<string, string>)
    ensures EndsInTime(vars) <==> DollarFree(vars)
  {
    if DollarFree(vars) {
      forall s ensures '$' !in Rounds(vars, s, Dollars(s)) {
        RoundsCountDown(vars, s, Dollars(s));
        NoDollars(Rounds(vars, s, Dollars(s)));
      }
    } else {
      var name :| name in vars && AllWord(name) && '$' in vars[name];
      var s := "$" + name;
      RoundOfWord(vars, name);
      CountParts("", name, "", "");
      assert "" + ("$" + name + "") == s;
      assert Rounds(vars, s, 1) == Round(vars, Rounds(vars, s, 0)) == vars[name];
      assert '$' in Rounds(vars, s, Dollars(s));
    }
  }

  /** The loop ends, with what one left-to-right pass yields. */
  ghost predicate YieldsOnePass(vars: map<string, string>, s: string) {
    exists n: nat :: DoneAfter(vars, s, n) && Rounds(vars, s, n) == OnePass(vars, s)
  }

  /** On all templates the loop does what one pass does exactly under that condition. */
  lemma OnePassIffDollarFree(vars: map<string, string>)
    ensures (forall s :: YieldsOnePass(vars, s)) <==> DollarFree(vars)
  {
    if DollarFree(vars) {
      forall s ensures YieldsOnePass(vars, s) {
        RoundsCountDown(vars, s, Dollars(s));
        NoDollars(Rounds(vars, s, Dollars(s)));
        var n := FirstDone(vars, s, Dollars(s));
        DoneIsOnePass(vars, s, n);
      }
    } else {
      var name :| name in vars && AllWord(name) && '$' in vars[name];
      OnePassWord(vars, name, "");
      assert "$" + name + "" == "$" + name && Value(vars, name) + OnePass(vars, "") == vars[name];
      assert !YieldsOnePass(vars, "$" + name);
    }
  }

  lemma {:induction false} FirstDone(vars: map<string, string>, s: string, n: nat) returns (m: nat)
    requires '$' !in Rounds(vars, s, n)
    ensures m <= n && DoneAfter(vars, s, m)
  {
    if n > 0 && '$' !in Rounds(vars, s, n - 1) {
      m := FirstDone(vars, s, n - 1);
    } else {
      m := n;
    }
  }

  lemma RoundOfWord(vars: map<string, string>, name: string)
    requires AllWord(name)
    ensures Round(vars, "$" + name) == Value(vars, name)
  {
    RoundWord(vars, name, "");
    assert "$" + name + "" == "$" + name && Value(vars, name) + "" == Value(vars, name);
  }

  /** With a value that names itself the loop turns forever. */
  lemma {:induction false} SelfReferenceNeverEnds(n: nat)
    ensures Rounds(map["x" := "$x"], "$x", n) == "$x"
  {
    if n > 0 {
      SelfReferenceNeverEnds(n - 1);
      assert "$" + "x" == "$x";
      RoundOfWord(map["x" := "$x"], "x");
    }
  }
}
