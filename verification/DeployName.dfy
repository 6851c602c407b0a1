/** Names reduced to a DNS label, section 2.1 of RFC 1123 and section 2.3.4 of RFC 1035
    (backend/pkg/datasource/k8s/deploy.go). */
module DeployName {
  import Text

  predicate IsAlnum(c: char) {
    'a' <= c <= 'z' || '0' <= c <= '9'
  }

  predicate IsDash(c: char) {
    c == '-'
  }

  predicate IsSeparator(c: char) {
    c == '-' || c == '_' || c == '.' || c == ' '
  }

  /** Letters and digits stay, separators become dashes, anything else is dropped. */
  function Reduce(s: string): string {
    if s == "" then ""
    else
      var c := s[|s| - 1];
      Reduce(s[..|s| - 1]) +
      (if IsAlnum(c) then [c] else if IsSeparator(c) then "-" else "")
  }

  predicate HasDouble(s: string) {
    exists k :: 0 <= k < |s| - 1 && s[k] == '-' && s[k + 1] == '-'
  }

  /** `strings.ReplaceAll(s, "--", "-")`: left to right, without overlap. */
  function ReplaceAll(s: string): string {
    if |s| < 2 then s
    else if s[0] == '-' && s[1] == '-' then "-" + ReplaceAll(s[2..])
    else [s[0]] + ReplaceAll(s[1..])
  }

  /** Every run of dashes becomes one dash, in one pass. */
  function Squeeze(s: string): string {
    if |s| < 2 then s
    else if s[0] == '-' && s[1] == '-' then Squeeze(s[1..])
    else [s[0]] + Squeeze(s[1..])
  }

  function Cut(s: string): string {
    if |s| > 63 then Text.Trim(IsDash, s[..63]) else s
  }

  function Sanitize(name: string): string {
    var lower := Text.ToLower(Text.TrimSpace(name));
    if lower == "" then "" else Cut(Squeeze(Text.Trim(IsDash, Reduce(lower))))
  }

  // ---------------------------------------------------------------- the collapse loop

  /** One replacement sweep loses nothing that squeezing would keep. */
  lemma {:induction false} SqueezeReplace(s: string)
    ensures Squeeze(ReplaceAll(s)) == Squeeze(s)
    ensures s != "" ==> ReplaceAll(s) != "" && ReplaceAll(s)[0] == s[0]
    decreases |s|
  {
    if |s| >= 2 {
      if s[0] == '-' && s[1] == '-' {
        SqueezeReplace(s[2..]);
        assert s[1..] == "-" + s[2..];
      } else {
        SqueezeReplace(s[1..]);
        assert s == [s[0]] + s[1..];
      }
    }
  }

  lemma {:induction false} ReplaceShrinks(s: string)
    ensures |ReplaceAll(s)| <= |s|
    ensures HasDouble(s) ==> |ReplaceAll(s)| < |s|
    decreases |s|
  {
    if |s| >= 2 {
      if s[0] == '-' && s[1] == '-' {
        ReplaceShrinks(s[2..]);
      } else {
        ReplaceShrinks(s[1..]);
        if HasDouble(s) {
          var k :| 0 <= k < |s| - 1 && s[k] == '-' && s[k + 1] == '-';
          assert s[1..][k - 1] == '-' && s[1..][k] == '-';
        }
      }
    }
  }

  lemma {:induction false} SqueezeIdle(s: string)
    requires !HasDouble(s)
    ensures Squeeze(s) == s
  {
    if |s| >= 2 {
      assert s[0] != '-' || s[1] != '-';
      forall k | 0 <= k < |s[1..]| - 1 ensures s[1..][k] != '-' || s[1..][k + 1] != '-' {
        assert s[k + 1] == s[1..][k] && s[k + 2] == s[1..][k + 1];
      }
      SqueezeIdle(s[1..]);
      assert s == [s[0]] + s[1..];
    }
  }

  /** The loop that replaces `--` until none is left ends, with every run squeezed. */
  method Collapse(s: string) returns (out: string)
    ensures out == Squeeze(s) && !HasDouble(out)
  {
    out := s;
    while HasDouble(out)
      invariant Squeeze(out) == Squeeze(s)
      decreases |out|
    {
      SqueezeReplace(out);
      ReplaceShrinks(out);
      out := ReplaceAll(out);
    }
    SqueezeIdle(out);
  }

  method SanitizeDeployName(name: string) returns (out: string)
    ensures out == Sanitize(name)
  {
    var lower := Text.ToLower(Text.TrimSpace(name));
    if lower == "" {
      return "";
    }
    var b := "";
    for k := 0 to |lower|
      invariant b == Reduce(lower[..k])
    {
      assert lower[..k + 1][..k] == lower[..k];
      var r := lower[k];
      if IsAlnum(r) {
        b := b + [r];
      } else if r == '-' || r == '_' || r == '.' || r == ' ' {
        b := b + "-";
      }
    }
    assert lower[..|lower|] == lower;
    out := Collapse(Text.Trim(IsDash, b));
    if |out| > 63 {
      out := Text.Trim(IsDash, out[..63]);
    }
  }

  // ---------------------------------------------------------------- the normal form

  predicate LabelChars(s: string) {
    forall k :: 0 <= k < |s| ==> IsAlnum(s[k]) || s[k] == '-'
  }

  predicate DashFreeEnds(s: string) {
    s == "" || (s[0] != '-' && s[|s| - 1] != '-')
  }

  /** Empty, or a label: at most 63 of a-z, 0-9 and dash, no dash at an end, none doubled. */
  predicate IsLabel(s: string) {
    |s| <= 63 && LabelChars(s) && DashFreeEnds(s) && !HasDouble(s)
  }

  lemma {:induction false} ReduceChars(s: string)
    ensures LabelChars(Reduce(s))
  {
    if s != "" {
      ReduceChars(s[..|s| - 1]);
    }
  }

  /** A stretch of a label without the dashes at its ends. */
  lemma TrimLabel(s: string)
    requires LabelChars(s)
    ensures var t := Text.Trim(IsDash, s);
      && LabelChars(t) && DashFreeEnds(t) && |t| <= |s|
      && (!HasDouble(s) ==> !HasDouble(t))
  {
    var n := Text.TrimLeftExact(IsDash, s);
    var u := s[n..];
    assert u == Text.TrimLeft(IsDash, s);
    Text.TrimRightExact(IsDash, u);
    var t := Text.TrimRight(IsDash, u);
    assert t == s[n..n + |t|];
    forall k | 0 <= k < |t| ensures t[k] == s[n + k] {
    }
    assert t != "" ==> t[0] == u[0];
    if HasDouble(t) {
      var k :| 0 <= k < |t| - 1 && t[k] == '-' && t[k + 1] == '-';
      assert s[n + k] == '-' && s[n + k + 1] == '-';
    }
  }

  lemma {:induction false} SqueezeLabel(s: string)
    requires LabelChars(s)
    ensures LabelChars(Squeeze(s)) && !HasDouble(Squeeze(s))
    ensures s != "" ==> Squeeze(s) != "" && Squeeze(s)[0] == s[0] && Squeeze(s)[|Squeeze(s)| - 1] == s[|s| - 1]
  {
    if |s| >= 2 {
      assert LabelChars(s[1..]);
      SqueezeLabel(s[1..]);
      var t := Squeeze(s[1..]);
      if !(s[0] == '-' && s[1] == '-') {
        assert Squeeze(s) == [s[0]] + t;
        forall k | 0 <= k < |t| ensures ([s[0]] + t)[k + 1] == t[k] {
        }
      }
    }
  }

  /** Whatever comes in, what comes out is empty or a label. */
  lemma SanitizeYieldsLabel(name: string)
    ensures IsLabel(Sanitize(name))
  {
    var lower := Text.ToLower(Text.TrimSpace(name));
    if lower != "" {
      ReduceChars(lower);
      TrimLabel(Reduce(lower));
      var t := Text.Trim(IsDash, Reduce(lower));
      SqueezeLabel(t);
      var q := Squeeze(t);
      if |q| > 63 {
        forall k | 0 <= k < 62 ensures !(q[..63][k] == '-' && q[..63][k + 1] == '-') {
          assert !(q[k] == '-' && q[k + 1] == '-');
        }
        TrimLabel(q[..63]);
      }
    }
  }

  lemma TrimIdle(drop: char -> bool, s: string)
    requires s == "" || (!drop(s[0]) && !drop(s[|s| - 1]))
    ensures Text.Trim(drop, s) == s
  {
  }

  lemma {:induction false} ReduceIdle(s: string)
    requires LabelChars(s)
    ensures Reduce(s) == s
  {
    if s != "" {
      ReduceIdle(s[..|s| - 1]);
      assert s == s[..|s| - 1] + [s[|s| - 1]];
    }
  }

  lemma LabelIsFixed(s: string)
    requires IsLabel(s)
    ensures Sanitize(s) == s
  {
    if s != "" {
      TrimIdle(Text.IsSpace, s);
      assert Text.ToLower(s) == s;
      ReduceIdle(s);
      TrimIdle(IsDash, s);
      SqueezeIdle(s);
    } else {
      assert Text.ToLower(Text.TrimSpace(s)) == "";
    }
  }

  /** Sanitizing is a projection onto the labels: twice is once, and exactly labels (and the
      empty string) are left alone. */
  lemma SanitizeIsProjection(name: string)
    ensures Sanitize(Sanitize(name)) == Sanitize(name)
    ensures Sanitize(name) == name <==> IsLabel(name)
  {
    SanitizeYieldsLabel(name);
    LabelIsFixed(Sanitize(name));
    if IsLabel(name) {
      LabelIsFixed(name);
    }
  }

  // ---------------------------------------------------------------- what is kept

  /** The letters and digits, in order. */
  function Alnums(s: string): string {
    if s == "" then ""
    else Alnums(s[..|s| - 1]) + (if IsAlnum(s[|s| - 1]) then [s[|s| - 1]] else "")
  }

  lemma {:induction false} AlnumsConcat(s: string, t: string)
    ensures Alnums(s + t) == Alnums(s) + Alnums(t)
  {
    if t == "" {
      assert s + t == s;
    } else {
      assert (s + t)[..|s + t| - 1] == s + t[..|t| - 1];
      AlnumsConcat(s, t[..|t| - 1]);
    }
  }

  lemma {:induction false} AlnumsNone(s: string)
    requires forall k :: 0 <= k < |s| ==> !IsAlnum(s[k])
    ensures Alnums(s) == ""
  {
    if s != "" {
      AlnumsNone(s[..|s| - 1]);
    }
  }

  lemma {:induction false} ReduceAlnums(s: string)
    ensures Alnums(Reduce(s)) == Alnums(s)
  {
    if s != "" {
      ReduceAlnums(s[..|s| - 1]);
      var c := s[|s| - 1];
      var piece := if IsAlnum(c) then [c] else if c == '-' || c == '_' || c == '.' || c == ' ' then "-" else "";
      AlnumsConcat(Reduce(s[..|s| - 1]), piece);
      assert piece != "" ==> piece[..0] == "";
    }
  }

  lemma TrimAlnums(s: string)
    ensures Alnums(Text.Trim(IsDash, s)) == Alnums(s)
  {
    var n := Text.TrimLeftExact(IsDash, s);
    var u := s[n..];
    Text.TrimRightExact(IsDash, u);
    var t := Text.TrimRight(IsDash, u);
    assert s == s[..n] + u && u == t + u[|t|..];
    AlnumsNone(s[..n]);
    AlnumsNone(u[|t|..]);
    AlnumsConcat(s[..n], u);
    AlnumsConcat(t, u[|t|..]);
  }

  lemma {:induction false} SqueezeAlnums(s: string)
    ensures Alnums(Squeeze(s)) == Alnums(s)
  {
    if |s| >= 2 {
      SqueezeAlnums(s[1..]);
      AlnumsConcat([s[0]], s[1..]);
      AlnumsConcat([s[0]], Squeeze(s[1..]));
      assert s == [s[0]] + s[1..];
      assert [s[0]][..0] == "";
    }
  }

  /** The letters and digits of the name survive, lower-cased and in order, up to the cut. */
  lemma SanitizeKeepsAlnums(name: string)
    ensures var kept, all := Alnums(Sanitize(name)), Alnums(Text.ToLower(Text.TrimSpace(name)));
      kept <= all && (|Sanitize(name)| < 62 ==> kept == all)
  {
    var lower := Text.ToLower(Text.TrimSpace(name));
    if lower != "" {
      var t := Text.Trim(IsDash, Reduce(lower));
      var q := Squeeze(t);
      ReduceAlnums(lower);
      TrimAlnums(Reduce(lower));
      SqueezeAlnums(t);
      ReduceChars(lower);
      TrimLabel(Reduce(lower));
      SqueezeLabel(t);
      if |q| > 63 {
        TrimAlnums(q[..63]);
        assert q == q[..63] + q[63..];
        AlnumsConcat(q[..63], q[63..]);
        CutIsLong(q);
      }
    }
  }

  /** Cutting a label leaves at least 62 characters: at most one dash goes. */
  lemma CutIsLong(q: string)
    requires |q| > 63 && DashFreeEnds(q) && !HasDouble(q)
    ensures |Text.Trim(IsDash, q[..63])| >= 62
  {
    var s := q[..63];
    assert s[0] == q[0];
    assert Text.TrimLeft(IsDash, s) == s;
    if s[62] == '-' {
      assert q[61] != '-' && s[..62][61] == q[61];
      assert Text.TrimRight(IsDash, s) == Text.TrimRight(IsDash, s[..62]) == s[..62];
    }
  }

  // ---------------------------------------------------------------- one pass

  /** What a single pass has written, and whether it saw a separator since. */
  datatype Pass = Pass(out: string, pending: bool)

  /** Letters and digits are copied; separators between two of them leave one dash, wherever
      else they stand they leave nothing. */
  function Slug(s: string): Pass {
    if s == "" then Pass("", false)
    else
      var before, c := Slug(s[..|s| - 1]), s[|s| - 1];
      if IsAlnum(c) then Pass(before.out + (if before.pending && before.out != "" then "-" else "") + [c], false)
      else if IsSeparator(c) then before.(pending := true)
      else before
  }

  predicate EndsInDash(s: string) {
    s != "" && s[|s| - 1] == '-'
  }

  lemma {:induction false} SqueezeSnoc(s: string, c: char)
    ensures Squeeze(s + [c]) == if EndsInDash(s) && c == '-' then Squeeze(s) else Squeeze(s) + [c]
  {
    if s != "" {
      var x, rest := s[0], s[1..];
      SqueezeSnoc(rest, c);
      assert s == [x] + rest && s + [c] == [x] + (rest + [c]);
    } else {
      assert s + [c] == [c];
    }
  }

  lemma {:induction false} TrimLeftSnoc(s: string, c: char)
    ensures Text.TrimLeft(IsDash, s + [c]) ==
      if Text.TrimLeft(IsDash, s) == "" && c == '-' then "" else Text.TrimLeft(IsDash, s) + [c]
  {
    if s != "" {
      assert (s + [c])[1..] == s[1..] + [c];
      if IsDash(s[0]) {
        TrimLeftSnoc(s[1..], c);
      }
    } else {
      assert (s + [c])[1..] == "" && s + [c] == [c];
    }
  }

  /** Squeezing first and trimming then differ by the one dash at the end. */
  lemma {:induction false} SqueezeTrimmed(s: string)
    requires s != "" && s[0] != '-'
    ensures Squeeze(s) == Squeeze(Text.TrimRight(IsDash, s)) + (if EndsInDash(s) then "-" else "")
  {
    if EndsInDash(s) {
      var u := s[..|s| - 1];
      assert s == u + ['-'] && u[0] == s[0];
      SqueezeSnoc(u, '-');
      SqueezeTrimmed(u);
    }
  }

  /** The state of the single pass, in terms of what trimming on the left leaves. */
  predicate Tracks(l: string, p: Pass) {
    && (l == "" <==> p.out == "")
    && (EndsInDash(l) <==> p.pending && p.out != "")
    && Squeeze(l) == p.out + (if p.pending && p.out != "" then "-" else "")
  }

  lemma CopyTracks(r: string, p: Pass, c: char)
    requires IsAlnum(c) && Tracks(Text.TrimLeft(IsDash, r), p)
    ensures Tracks(Text.TrimLeft(IsDash, r + [c]),
                   Pass(p.out + (if p.pending && p.out != "" then "-" else "") + [c], false))
  {
    TrimLeftSnoc(r, c);
    SqueezeSnoc(Text.TrimLeft(IsDash, r), c);
  }

  lemma SeparatorTracks(r: string, p: Pass)
    requires Tracks(Text.TrimLeft(IsDash, r), p)
    ensures Tracks(Text.TrimLeft(IsDash, r + "-"), p.(pending := true))
  {
    TrimLeftSnoc(r, '-');
    SqueezeSnoc(Text.TrimLeft(IsDash, r), '-');
  }

  lemma {:induction false} PassTracksReduce(s: string)
    ensures Tracks(Text.TrimLeft(IsDash, Reduce(s)), Slug(s))
  {
    if s != "" {
      var u, c := s[..|s| - 1], s[|s| - 1];
      PassTracksReduce(u);
      if IsAlnum(c) {
        CopyTracks(Reduce(u), Slug(u), c);
      } else if IsSeparator(c) {
        SeparatorTracks(Reduce(u), Slug(u));
      } else {
        assert Reduce(u) + "" == Reduce(u);
      }
    }
  }

  lemma SlugOfReduced(s: string)
    ensures Squeeze(Text.Trim(IsDash, Reduce(s))) == Slug(s).out
  {
    PassTracksReduce(s);
    var l, out := Text.TrimLeft(IsDash, Reduce(s)), Slug(s).out;
    if l != "" {
      var _ := Text.TrimLeftExact(IsDash, Reduce(s));
      SqueezeTrimmed(l);
      assert (out + "-")[..|out|] == out;
      var t := Squeeze(Text.TrimRight(IsDash, l));
      assert (t + "-")[..|t|] == t;
    }
  }

  /** Replacing, trimming and collapsing amount to one pass over the name, before the cut. */
  lemma SanitizeIsOnePass(name: string)
    ensures Sanitize(name) == Cut(Slug(Text.ToLower(Text.TrimSpace(name))).out)
  {
    SlugOfReduced(Text.ToLower(Text.TrimSpace(name)));
  }

  // ---------------------------------------------------------------- character by character

  /** A small letter or a digit, by code point. */
  predicate Kept(c: char) {
    97 <= c as int <= 122 || 48 <= c as int <= 57
  }

  predicate AllAlnum(s: string) {
    forall k :: 0 <= k < |s| ==> IsAlnum(s[k])
  }

  /** Letters and digits are copied, behind one dash if a separator came before. */
  lemma {:induction false} SlugCopies(s: string, b: string)
    requires AllAlnum(b) && b != ""
    ensures var p := Slug(s);
      Slug(s + b) == Pass(p.out + (if p.pending && p.out != "" then "-" else "") + b, false)
  {
    var u, c := b[..|b| - 1], b[|b| - 1];
    assert (s + b)[..|s + b| - 1] == s + u;
    if u == "" {
      assert s + u == s && b == [c];
    } else {
      SlugCopies(s, u);
      assert b == u + [c];
    }
  }

  /** What one character between letters or digits becomes: a dash for each of the four separators,
      itself in lower case when that is a letter or a digit, and nothing otherwise. */
  lemma SanitizeBetween(a: string, c: char, b: string)
    requires a != "" && b != "" && |a| + |b| < 63 && forall x :: x in a + b ==> Kept(x)
    ensures Sanitize(a + [c] + b) ==
      if c in "-_. " then a + "-" + b
      else if Kept(Text.Lower(c)) then a + [Text.Lower(c)] + b
      else a + b
  {
    AlnumsOnly(a, b);
    TrimIdle(Text.IsSpace, a + [c] + b);
    LowerBetween(a, c, b);
    SanitizeIsOnePass(a + [c] + b);
    SlugBetween(a, Text.Lower(c), b);
    LowerSeparators(c);
  }

  lemma LowerSeparators(c: char)
    ensures Text.Lower(c) in "-_. " <==> c in "-_. "
    ensures c in "-_. " ==> !IsAlnum(Text.Lower(c))
  {
  }

  lemma SlugOfAlnums(a: string)
    requires a != "" && AllAlnum(a)
    ensures Slug(a) == Pass(a, false)
  {
    SlugCopies("", a);
    assert "" + a == a;
  }

  lemma SlugThen(a: string, c: char)
    requires a != "" && AllAlnum(a)
    ensures Slug(a + [c]) == if IsAlnum(c) then Pass(a + [c], false) else Pass(a, c in "-_. ")
  {
    SlugOfAlnums(a);
    assert (a + [c])[..|a + [c]| - 1] == a;
    assert a + "" + [c] == a + [c];
  }

  lemma SlugBetween(a: string, c: char, b: string)
    requires a != "" && b != "" && AllAlnum(a) && AllAlnum(b)
    ensures Slug(a + [c] + b).out ==
      if IsAlnum(c) then a + [c] + b else if c in "-_. " then a + "-" + b else a + b
  {
    SlugThen(a, c);
    SlugCopies(a + [c], b);
    Joined(a, b);
    Joined(a + [c], b);
  }

  lemma Joined(a: string, b: string)
    ensures a + "" + b == a + b
  {
  }

  lemma AlnumsOnly(a: string, b: string)
    requires forall x :: x in a + b ==> Kept(x)
    ensures AllAlnum(a) && AllAlnum(b)
  {
    assert forall k :: 0 <= k < |a| ==> a[k] in a + b;
    assert forall k :: 0 <= k < |b| ==> b[k] in a + b;
  }

  lemma LowerBetween(a: string, c: char, b: string)
    requires AllAlnum(a) && AllAlnum(b)
    ensures Text.ToLower(a + [c] + b) == a + [Text.Lower(c)] + b
  {
  }
}
