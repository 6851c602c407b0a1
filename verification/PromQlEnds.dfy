/** When the expansion loop ends at all: exactly when the template leads into no cycle of
    references among the values (backend/pkg/datasource/prometheus/metrics.go). */
module PromQlEnds {
  import opened PromQl

  // ---------------------------------------------------------------- references

  /** The names that a template mentions, left to right: its maximal `$word`s. */
  function Mentions(s: string): seq<string>
    decreases |s|
  {
    if s == "" then []
    else if s[0] == '$' then
      var end := WordEnd(s, 1);
      [s[1..end]] + Mentions(s[end..])
    else Mentions(s[1..])
  }

  /** What stands here does not prolong a word before it. */
  predicate Breaks(rest: string) {
    rest == "" || !IsWord(rest[0])
  }

  predicate Meets(mentions: seq<string>, names: set<string>) {
    exists k :: 0 <= k < |mentions| && mentions[k] in names
  }

  /** The value of each of these names mentions one of them. */
  ghost predicate Cyclic(vars: map<string, string>, names: set<string>) {
    forall name :: name in names ==> Meets(Mentions(Value(vars, name)), names)
  }

  /** The template mentions a name from which the references lead around in a cycle. */
  ghost predicate Caught(vars: map<string, string>, s: string) {
    exists names: set<string> :: Cyclic(vars, names) && Meets(Mentions(s), names)
  }

  lemma {:induction false} MentionsSkips(front: string, s: string)
    requires '$' !in front
    ensures Mentions(front + s) == Mentions(s)
  {
    if front == "" {
      assert front + s == s;
    } else {
      assert (front + s)[1..] == front[1..] + s;
      MentionsSkips(front[1..], s);
      assert front == [front[0]] + front[1..];
    }
  }

  lemma MentionsNothing(s: string)
    requires '$' !in s
    ensures Mentions(s) == []
  {
    MentionsSkips(s, "");
    assert s + "" == s;
  }

  lemma MentionsWord(name: string, rest: string)
    requires AllWord(name) && Breaks(rest)
    ensures Mentions("$" + name + rest) == [name] + Mentions(rest)
  {
    var s := "$" + name + rest;
    WordEndAt(s, 1, 1 + |name|);
    assert s[1..1 + |name|] == name && s[1 + |name|..] == rest;
  }

  lemma MentionsParts(front: string, name: string, rest: string)
    requires '$' !in front && AllWord(name) && Breaks(rest)
    ensures Mentions(front + ("$" + name + rest)) == [name] + Mentions(rest)
  {
    MentionsSkips(front, "$" + name + rest);
    MentionsWord(name, rest);
  }

  lemma Regroup(front: string, name: string, r: string, rest: string)
    ensures front + ("$" + name + r) + rest == front + ("$" + name + (r + rest))
  {
  }

  /** A mention ends where its text ends, unless a word character follows. */
  lemma {:induction false} MentionsConcat(v: string, rest: string)
    requires Breaks(rest)
    ensures Mentions(v + rest) == Mentions(v) + Mentions(rest)
    decreases |v|
  {
    if '$' !in v {
      MentionsSkips(v, rest);
      MentionsNothing(v);
    } else {
      var front, name, r := FirstWord(v);
      Regroup(front, name, r, rest);
      MentionsConcat(r, rest);
      MentionsParts(front, name, r);
      MentionsParts(front, name, r + rest);
    }
  }

  /** One round takes away the first mention and brings in those of its value. */
  lemma RoundMentions(vars: map<string, string>, s: string) returns (name: string, others: seq<string>)
    requires '$' in s
    ensures Mentions(s) == [name] + others
    ensures Mentions(Round(vars, s)) == Mentions(Value(vars, name)) + others
  {
    var front, word, rest := RoundParts(vars, s);
    name, others := word, Mentions(rest);
    MentionsParts(front, name, rest);
    MentionsSkips(front, Value(vars, name) + rest);
    MentionsConcat(Value(vars, name), rest);
  }

  // ---------------------------------------------------------------- a cycle never ends

  lemma MeetsStep(name: string, others: seq<string>, now: seq<string>, names: set<string>)
    requires Meets([name] + others, names) && (name in names ==> Meets(now, names))
    ensures Meets(now + others, names)
  {
    var all := [name] + others;
    var k :| 0 <= k < |all| && all[k] in names;
    if k == 0 {
      var j :| 0 <= j < |now| && now[j] in names;
      assert (now + others)[j] == now[j];
    } else {
      assert (now + others)[|now| + k - 1] == others[k - 1] == all[k];
    }
  }

  lemma StaysCaught(vars: map<string, string>, s: string, names: set<string>)
    requires Cyclic(vars, names) && Meets(Mentions(s), names)
    ensures '$' in s && Meets(Mentions(Round(vars, s)), names)
  {
    if '$' !in s {
      MentionsNothing(s);
    } else {
      var name, others := RoundMentions(vars, s);
      MeetsStep(name, others, Mentions(Value(vars, name)), names);
    }
  }

  lemma {:induction false} NeverEnds(vars: map<string, string>, s: string, names: set<string>, n: nat)
    requires Cyclic(vars, names) && Meets(Mentions(s), names)
    ensures Meets(Mentions(Rounds(vars, s, n)), names) && '$' in Rounds(vars, s, n)
  {
    if n > 0 {
      NeverEnds(vars, s, names, n - 1);
      StaysCaught(vars, Rounds(vars, s, n - 1), names);
    }
    StaysCaught(vars, Rounds(vars, s, n), names);
  }

  // ---------------------------------------------------------------- without one it ends

  /** The names whose references run on for `k` more steps. */
  function Running(vars: map<string, string>, k: nat): set<string> {
    if k == 0 then vars.Keys
    else set name | name in vars.Keys && Meets(Mentions(Value(vars, name)), Running(vars, k - 1))
  }

  lemma {:induction false} RunningShrinks(vars: map<string, string>, k: nat)
    ensures Running(vars, k + 1) <= Running(vars, k)
  {
    if k > 0 {
      RunningShrinks(vars, k - 1);
      forall name | name in Running(vars, k + 1) ensures name in Running(vars, k) {
        var mentions := Mentions(Value(vars, name));
        assert Meets(mentions, Running(vars, k));
        var i :| 0 <= i < |mentions| && mentions[i] in Running(vars, k);
        assert mentions[i] in Running(vars, k - 1);
      }
    }
  }

  lemma Smaller(a: set<string>, b: set<string>)
    requires a < b
    ensures |a| < |b|
  {
    var x :| x in b && x !in a;
    assert a <= b - {x};
    NotLarger(a, b - {x});
  }

  lemma {:induction false} NotLarger(a: set<string>, b: set<string>)
    requires a <= b
    ensures |a| <= |b|
  {
    if a != {} {
      var x :| x in a;
      NotLarger(a - {x}, b - {x});
    }
  }

  /** At some point the names left are those that run on forever, which form a cycle. */
  lemma {:induction false} Settles(vars: map<string, string>, k: nat) returns (m: nat)
    ensures Cyclic(vars, Running(vars, m))
    decreases |Running(vars, k)|
  {
    RunningShrinks(vars, k);
    if Running(vars, k + 1) == Running(vars, k) {
      m := k;
      forall name | name in Running(vars, k) ensures Meets(Mentions(Value(vars, name)), Running(vars, k)) {
        assert name in Running(vars, k + 1);
      }
    } else {
      Smaller(Running(vars, k + 1), Running(vars, k));
      m := Settles(vars, k + 1);
    }
  }

  /** While the left part has a `$`, rounds happen there. */
  lemma RoundOnLeft(vars: map<string, string>, v: string, rest: string)
    requires '$' in v && Breaks(rest)
    ensures Round(vars, v + rest) == Round(vars, v) + rest
  {
    var front, name, r := RoundParts(vars, v);
    Regroup(front, name, r, rest);
    RoundSkips(vars, front, "$" + name + (r + rest));
    RoundWord(vars, name, r + rest);
    JoinLeft(front, Value(vars, name), r, rest);
  }

  lemma JoinLeft(a: string, b: string, c: string, d: string)
    ensures a + (b + (c + d)) == a + (b + c) + d
  {
  }

  lemma {:induction false} RoundsOnLeft(vars: map<string, string>, v: string, rest: string, n: nat)
    requires Breaks(rest) && (n > 0 ==> '$' in Rounds(vars, v, n - 1))
    ensures Rounds(vars, v + rest, n) == Rounds(vars, v, n) + rest
  {
    if n > 0 {
      if n > 1 && '$' !in Rounds(vars, v, n - 2) {
        StaysDone(vars, v, n - 2, n - 1);
      }
      RoundsOnLeft(vars, v, rest, n - 1);
      RoundOnLeft(vars, Rounds(vars, v, n - 1), rest);
    }
  }

  lemma {:induction false} RoundsSkip(vars: map<string, string>, front: string, s: string, n: nat)
    requires '$' !in front
    ensures Rounds(vars, front + s, n) == front + Rounds(vars, s, n)
  {
    if n > 0 {
      RoundsSkip(vars, front, s, n - 1);
      RoundSkips(vars, front, Rounds(vars, s, n - 1));
    }
  }

  lemma {:induction false} RoundsAdd(vars: map<string, string>, s: string, m: nat, n: nat)
    ensures Rounds(vars, Rounds(vars, s, m), n) == Rounds(vars, s, m + n)
  {
    if n > 0 {
      RoundsAdd(vars, s, m, n - 1);
    }
  }

  predicate Avoids(mentions: seq<string>, names: set<string>) {
    forall k :: 0 <= k < |mentions| ==> mentions[k] !in names
  }

  /** What a name mentions runs out one step before the name itself does. */
  lemma ValueRunsOut(vars: map<string, string>, name: string, k: nat)
    requires name !in Running(vars, k)
    ensures k > 0 ==> Avoids(Mentions(Value(vars, name)), Running(vars, k - 1))
    ensures k == 0 ==> '$' !in Value(vars, name)
  {
    if name !in vars {
      MentionsNothing(".*");
    }
  }

  /** A template that mentions only names whose references run out is done after some rounds:
      first its first value, then what follows. */
  lemma {:induction false} Finishes(vars: map<string, string>, s: string, k: nat) returns (n: nat)
    requires Avoids(Mentions(s), Running(vars, k))
    ensures '$' !in Rounds(vars, s, n)
    decreases k, |s|
  {
    if '$' !in s {
      n := 0;
    } else {
      var front, name, rest := RoundParts(vars, s);
      MentionsParts(front, name, rest);
      var v := Value(vars, name);
      assert ([name] + Mentions(rest))[0] == name;
      ValueRunsOut(vars, name, k);
      var m: nat := 0;
      if k > 0 {
        m := Finishes(vars, v, k - 1);
        m := FirstDone(vars, v, m);
      }
      assert Avoids(Mentions(rest), Running(vars, k)) by {
        forall j | 0 <= j < |Mentions(rest)| ensures Mentions(rest)[j] !in Running(vars, k) {
          assert ([name] + Mentions(rest))[j + 1] == Mentions(rest)[j];
        }
      }
      var l := Finishes(vars, rest, k);
      n := ThenTheRest(vars, s, front, v, rest, m, l);
    }
  }

  /** Rounds in the middle part, until it has no `$` left. */
  lemma MiddleFirst(vars: map<string, string>, front: string, v: string, rest: string, m: nat)
    requires '$' !in front && Breaks(rest) && DoneAfter(vars, v, m)
    ensures Rounds(vars, front + (v + rest), m) == front + (Rounds(vars, v, m) + rest)
  {
    RoundsOnLeft(vars, v, rest, m);
    RoundsSkip(vars, front, v + rest, m);
  }

  /** Then rounds in the last part. */
  lemma LastPart(vars: map<string, string>, front: string, w: string, rest: string, l: nat)
    requires '$' !in front && '$' !in w && '$' !in Rounds(vars, rest, l)
    ensures '$' !in Rounds(vars, front + (w + rest), l)
  {
    RoundsSkip(vars, w, rest, l);
    RoundsSkip(vars, front, w + rest, l);
  }

  lemma ThenTheRest(vars: map<string, string>, s: string, front: string, v: string, rest: string, m: nat, l: nat)
    returns (n: nat)
    requires '$' !in front && Breaks(rest) && Round(vars, s) == front + (v + rest)
    requires DoneAfter(vars, v, m) && '$' !in Rounds(vars, rest, l)
    ensures '$' !in Rounds(vars, s, n)
  {
    MiddleFirst(vars, front, v, rest, m);
    LastPart(vars, front, Rounds(vars, v, m), rest, l);
    RoundsAdd(vars, front + (v + rest), m, l);
    assert Rounds(vars, s, 1) == Round(vars, Rounds(vars, s, 0));
    RoundsAdd(vars, s, 1, m + l);
    n := 1 + (m + l);
  }

  /** The loop ends exactly on the templates from which no cycle of references is reached. */
  lemma EndsExactly(vars: map<string, string>, s: string)
    ensures Ends(vars, s) <==> !Caught(vars, s)
  {
    if Caught(vars, s) {
      var names: set<string> :| Cyclic(vars, names) && Meets(Mentions(s), names);
      forall n: nat ensures '$' in Rounds(vars, s, n) {
        NeverEnds(vars, s, names, n);
      }
    } else {
      var k := Settles(vars, 0);
      assert !Meets(Mentions(s), Running(vars, k));
      var n := Finishes(vars, s, k);
    }
  }

  /** Values free of `$` form no cycle. */
  lemma DollarFreeEnds(vars: map<string, string>, s: string)
    requires DollarFree(vars)
    ensures Ends(vars, s) && !Caught(vars, s)
  {
    RoundsCountDown(vars, s, Dollars(s));
    NoDollars(Rounds(vars, s, Dollars(s)));
    EndsExactly(vars, s);
  }

  /** Values may refer to each other and the loop still ends. */
  lemma ReferencesMayEnd()
    ensures var vars := map["x" := "$y", "y" := "z"];
      !DollarFree(vars) && !EndsInTime(vars) && Ends(vars, "$x")
  {
    var vars := map["x" := "$y", "y" := "z"];
    assert AllWord("x") && vars["x"][0] == '$';
    EndsInTimeIffDollarFree(vars);
    assert "$" + "x" == "$x" && "$" + "y" == "$y";
    RoundOfWord(vars, "x");
    RoundOfWord(vars, "y");
    assert Rounds(vars, "$x", 1) == Round(vars, Rounds(vars, "$x", 0));
    assert Rounds(vars, "$x", 2) == "z";
  }

  // ---------------------------------------------------------------- the loop

  /** One turn of the loop, with the scan for the end of the name. */
  method ReplaceFirst(s: string, vars: map<string, string>) returns (out: string)
    requires '$' in s
    ensures out == Round(vars, s)
  {
    FirstDollarExact(s);
    var idx := FirstDollar(s);
    var end := idx + 1;
    while end < |s| && IsWord(s[end])
      invariant idx + 1 <= end <= |s|
      invariant AllWord(s[idx + 1..end])
    {
      assert s[idx + 1..end + 1] == s[idx + 1..end] + [s[end]];
      end := end + 1;
    }
    assert end < |s| ==> s[end..][0] == s[end];
    var name := s[idx + 1..end];
    var replacement := if name in vars && vars[name] != "" then vars[name] else ".*";
    out := s[..idx] + replacement + s[end..];
    assert s == s[..idx] + ("$" + name + s[end..]);
    RoundSkips(vars, s[..idx], "$" + name + s[end..]);
    RoundWord(vars, name, s[end..]);
    ThreeParts(s[..idx], replacement, s[end..]);
  }

  /** The expansion loop, on every template from which no cycle of references is reached: it
      stops after the first round that leaves no `$`; with `$`-free values it takes as many
      rounds as the template has `$` and yields what one left-to-right pass yields. */
  method ExpandPromQL(promQL: string, vars: map<string, string>) returns (out: string, ghost rounds: nat)
    requires DollarFree(vars) || !Caught(vars, promQL)
    ensures '$' !in out && DoneAfter(vars, promQL, rounds) && out == Rounds(vars, promQL, rounds)
    ensures DollarFree(vars) ==> out == OnePass(vars, promQL) && rounds == Dollars(promQL)
  {
    if DollarFree(vars) {
      DollarFreeEnds(vars, promQL);
    }
    EndsExactly(vars, promQL);
    ghost var n: nat :| '$' !in Rounds(vars, promQL, n);
    out, rounds := promQL, 0;
    while '$' in out
      invariant rounds <= n && out == Rounds(vars, promQL, rounds)
      invariant rounds > 0 ==> '$' in Rounds(vars, promQL, rounds - 1)
      decreases n - rounds
    {
      out := ReplaceFirst(out, vars);
      rounds := rounds + 1;
    }
    if DollarFree(vars) {
      DoneIsOnePass(vars, promQL, rounds);
    }
  }
}
