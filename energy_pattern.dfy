/** The regular expression `<literal>(-?\d+(?:\.\d+)?)` as Python's regex
    engine runs it: a literal text, then a capture group holding an optional
    minus sign, a greedy run of digits and an optional, backtracking fraction
    group. The literal is a parameter `lit`; the ORCA parser instantiates it
    with `FINAL ENERGY: `. */
module EnergyPattern {
  import opened Wrappers
  import opened Digits

  /** The captured group, split into its parts. `fracDigits` is empty exactly
      when the optional `(?:\.\d+)` group did not take part in the match. */
  datatype Token = Token(negative: bool, intDigits: string, fracDigits: string)

  function SignText(negative: bool): string
  {
    if negative then "-" else ""
  }

  function FracText(fracDigits: string): string
  {
    if fracDigits == [] then "" else "." + fracDigits
  }

  /** The text of the capture group. */
  function Text(tok: Token): string
  {
    SignText(tok.negative) + tok.intDigits + FracText(tok.fracDigits)
  }

  /** The token is something `-?\d+(?:\.\d+)?` can match: no `+`, no exponent,
      at least one digit before any `.`, at least one digit after it. */
  predicate WellFormed(tok: Token)
  {
    |tok.intDigits| > 0 && AllDigits(tok.intDigits) && AllDigits(tok.fracDigits)
  }

  /** The greedy quantifiers leave nothing they could still take: no digit
      follows the token, and when the fraction group is absent, no `.`
      followed by a digit follows the integer digits. */
  predicate Maximal(tok: Token, after: string)
  {
    !(|after| > 0 && IsDigit(after[0]))
    && (tok.fracDigits == [] ==> !(|after| > 1 && after[0] == '.' && IsDigit(after[1])))
  }

  /** Declarative description of the capture group at the start of `r`: the
      token's text opens `r`, and it is the longest the quantifiers take. */
  predicate NumberAccepts(r: string, tok: Token)
  {
    WellFormed(tok) && Text(tok) <= r && Maximal(tok, r[|Text(tok)|..])
  }

  /** Declarative description of the whole pattern matching at the start of
      `u`: the literal, then an accepted capture group. */
  predicate Accepts(lit: string, u: string, tok: Token)
  {
    lit <= u && NumberAccepts(u[|lit|..], tok)
  }

  // ---------------------------------------------------------------------------
  // The engine, step by step
  // ---------------------------------------------------------------------------

  /** The length of the run of digits that opens `t` (greedy `\d*`). */
  function DigitRun(t: string): (n: nat)
    ensures n <= |t|
    ensures AllDigits(t[..n])
    ensures n < |t| ==> !IsDigit(t[n])
    decreases |t|
  {
    if |t| > 0 && IsDigit(t[0]) then 1 + DigitRun(t[1..]) else 0
  }

  /** A run of digits that opens `t` and is not followed by a digit is the run
      `DigitRun` measures. */
  lemma {:induction false} DigitRunOf(d: string, t: string)
    requires AllDigits(d) && d <= t && (|d| < |t| ==> !IsDigit(t[|d|]))
    ensures DigitRun(t) == |d|
    decreases |d|
  {
    if d != [] {
      assert t[0] == d[0];
      DigitRunOf(d[1..], t[1..]);
    }
  }

  /** The optional group `(?:\.\d+)` at the start of `tail`: a `.` and the
      longest run of digits after it when that run is not empty; otherwise the
      group backtracks and takes nothing. */
  function OptionalFraction(tail: string): (f: string)
    ensures AllDigits(f)
    ensures f == [] ==> !(|tail| > 1 && tail[0] == '.' && IsDigit(tail[1]))
    ensures f != [] ==> FracText(f) <= tail && (|FracText(f)| < |tail| ==> !IsDigit(tail[|FracText(f)|]))
  {
    if |tail| > 0 && tail[0] == '.' then
      var n := DigitRun(tail[1..]);
      var f := tail[1..1 + n];
      assert f == tail[1..][..n];
      assert n > 0 ==> tail[..n + 1] == FracText(f);
      assert n + 1 < |tail| ==> tail[n + 1] == tail[1..][n];
      assert n == 0 && |tail| > 1 ==> tail[1] == tail[1..][0];
      f
    else []
  }

  /** The fraction the optional group takes is determined by the text. */
  lemma OptionalFractionOf(f: string, tail: string)
    requires AllDigits(f)
    requires f == [] ==> !(|tail| > 1 && tail[0] == '.' && IsDigit(tail[1]))
    requires f != [] ==> FracText(f) <= tail && (|FracText(f)| < |tail| ==> !IsDigit(tail[|FracText(f)|]))
    ensures OptionalFraction(tail) == f
  {
    if f == [] {
      if |tail| > 1 && tail[0] == '.' {
        assert !IsDigit(tail[1..][0]);
      }
    } else {
      assert tail[0] == FracText(f)[0];
      assert f <= tail[1..] by {
        forall i | 0 <= i < |f| ensures tail[1..][i] == f[i] {
          assert tail[1..][i] == FracText(f)[i + 1];
        }
      }
      assert |f| < |tail[1..]| ==> tail[1..][|f|] == tail[|FracText(f)|];
      DigitRunOf(f, tail[1..]);
    }
  }

  /** A concatenation opens `r` exactly when its parts open `r` one after the other. */
  lemma PrefixConcat(a: string, b: string, r: string)
    ensures a + b <= r <==> a <= r && b <= r[|a|..]
    ensures a + b <= r ==> r[|a + b|..] == r[|a|..][|b|..]
  {
    if a <= r && b <= r[|a|..] {
      assert (a + b) == r[..|a + b|] by {
        forall i | 0 <= i < |a + b| ensures (a + b)[i] == r[i] {
          if i >= |a| { assert r[|a|..][i - |a|] == r[i]; }
        }
      }
    }
    if a + b <= r {
      assert a == r[..|a|] by {
        forall i | 0 <= i < |a| ensures a[i] == r[i] { assert (a + b)[i] == a[i]; }
      }
      assert b == r[|a|..][..|b|] by {
        forall i | 0 <= i < |b| ensures b[i] == r[|a|..][i] { assert (a + b)[|a| + i] == b[i]; }
      }
    }
  }

  /** The number of characters `-?` takes at the start of `r`. */
  function SignLength(r: string): (s: nat)
    ensures s <= 1 && s <= |r| && SignText(s == 1) <= r
    ensures s == 1 <==> |r| > 0 && r[0] == '-'
  {
    if |r| > 0 && r[0] == '-' then 1 else 0
  }

  /** The regex engine trying `(-?\d+(?:\.\d+)?)` at the start of `r`: `-?` is
      greedy, and when no digit follows the `-` the engine falls back to no
      sign, where `\d+` then fails on the `-`; `\d+` takes the longest run of
      digits; then the optional fraction group. */
  function MatchNumber(r: string): (m: Option<Token>)
    ensures m.Some? ==> WellFormed(m.value)
  {
    var s := SignLength(r);
    var n := DigitRun(r[s..]);
    if n == 0 then None
    else Some(Token(s == 1, r[s..][..n], OptionalFraction(r[s..][n..])))
  }

  /** Whatever `MatchNumber` returns is accepted by the declarative description. */
  lemma {:induction false} MatchNumberSound(r: string)
    requires MatchNumber(r).Some?
    ensures NumberAccepts(r, MatchNumber(r).value)
  {
    var tok := MatchNumber(r).value;
    var sign, ds, frac := SignText(tok.negative), tok.intDigits, FracText(tok.fracDigits);
    var body := r[|sign|..];
    var tail := body[|ds|..];
    assert ds <= body;
    PrefixConcat(sign, ds, r);
    assert frac <= tail;
    PrefixConcat(sign + ds, frac, r);
    var after := r[|Text(tok)|..];
    assert after == tail[|frac|..];
    if tok.fracDigits == [] {
      assert after == tail;
      assert |tail| > 0 ==> tail[0] == body[|ds|];
    } else {
      assert |after| > 0 ==> after[0] == tail[|frac|];
    }
  }

  /** `MatchNumber` finds every token the declarative description accepts. */
  lemma {:induction false} MatchNumberFinds(r: string, tok: Token)
    requires NumberAccepts(r, tok)
    ensures MatchNumber(r) == Some(tok)
  {
    var sign, ds, frac := SignText(tok.negative), tok.intDigits, FracText(tok.fracDigits);
    PrefixConcat(sign + ds, frac, r);
    PrefixConcat(sign, ds, r);
    assert SignLength(r) == |sign| by {
      if !tok.negative { assert r[0] == ds[0]; }
    }
    var body := r[|sign|..];
    var tail := body[|ds|..];
    var after := r[|Text(tok)|..];
    assert after == tail[|frac|..];
    assert |tail| > 0 ==> !IsDigit(tail[0]) by {
      if tok.fracDigits != [] { assert tail[0] == frac[0]; }
      else { assert tail == after; }
    }
    assert |ds| < |body| ==> body[|ds|] == tail[0];
    DigitRunOf(ds, body);
    assert body[..|ds|] == ds;
    if tok.fracDigits == [] {
      assert tail == after;
    }
    OptionalFractionOf(tok.fracDigits, tail);
  }

  /** The capture group matches as soon as any well-formed token opens `r`:
      backtracking never makes it fail. */
  lemma {:induction false} MatchNumberComplete(r: string, tok: Token)
    requires WellFormed(tok) && Text(tok) <= r
    ensures MatchNumber(r).Some?
  {
    var text := Text(tok);
    if tok.negative {
      assert r[0] == text[0] == '-';
      assert r[1..][0] == text[1] == tok.intDigits[0];
    } else {
      assert r[0] == text[0] == tok.intDigits[0];
    }
  }

  /** The text opens with a digit, or with `-` and a digit. */
  predicate Opens(r: string)
  {
    (|r| > 0 && IsDigit(r[0])) || (|r| > 1 && r[0] == '-' && IsDigit(r[1]))
  }

  /** The capture group matches exactly when the text opens with a digit, or
      with `-` and a digit. */
  lemma MatchNumberOpens(r: string)
    ensures MatchNumber(r).Some? <==> Opens(r)
  {
    if |r| > 1 && r[0] == '-' {
      assert r[1..][0] == r[1];
    }
  }

  /** Whether `u` opens with `p`, compared character by character. */
  function StartsWith(u: string, p: string): (b: bool)
    ensures b ==> |p| <= |u|
    decreases |p|
  {
    |p| == 0 || (|u| > 0 && u[0] == p[0] && StartsWith(u[1..], p[1..]))
  }

  lemma {:induction false} StartsWithIsPrefix(u: string, p: string)
    ensures StartsWith(u, p) <==> p <= u
    decreases |p|
  {
    if |p| > 0 && |u| > 0 {
      StartsWithIsPrefix(u[1..], p[1..]);
      if p <= u {
        assert p[1..] <= u[1..];
      }
      if p[1..] <= u[1..] && u[0] == p[0] {
        assert p == [p[0]] + p[1..];
        assert u == [u[0]] + u[1..];
      }
    }
  }

  /** The regex engine trying the whole pattern at the start of `u`: the
      literal, compared case-sensitively, then the capture group. */
  function MatchAt(lit: string, u: string): (m: Option<Token>)
    ensures m.Some? ==> lit <= u && WellFormed(m.value)
  {
    StartsWithIsPrefix(u, lit);
    if StartsWith(u, lit) then MatchNumber(u[|lit|..]) else None
  }

  /** `MatchAt` returns exactly the token the declarative description accepts. */
  lemma MatchAtExactly(lit: string, u: string, tok: Token)
    ensures MatchAt(lit, u) == Some(tok) <==> Accepts(lit, u, tok)
  {
    StartsWithIsPrefix(u, lit);
    if Accepts(lit, u, tok) {
      MatchNumberFinds(u[|lit|..], tok);
    }
    if MatchAt(lit, u) == Some(tok) {
      MatchNumberSound(u[|lit|..]);
    }
  }

  /** Right after the literal, matching is the capture group's matching. */
  lemma MatchAtAfterLiteral(lit: string, r: string)
    ensures MatchAt(lit, lit + r) == MatchNumber(r)
  {
    StartsWithIsPrefix(lit + r, lit);
    assert (lit + r)[|lit|..] == r;
  }

  /** The optional fraction group backtracks: `12.` before a non-digit
      captures `12`. */
  lemma FractionGroupBacktracks(lit: string)
    ensures MatchAt(lit, lit + "12.x") == Some(Token(false, "12", ""))
  {
    MatchAtAfterLiteral(lit, "12.x");
    TwelveDotX();
  }

  lemma TwelveDotX()
    ensures MatchNumber("12.x") == Some(Token(false, "12", ""))
  {
    assert NumberAccepts("12.x", Token(false, "12", ""));
    MatchNumberFinds("12.x", Token(false, "12", ""));
  }

  /** After the literal, only a digit, or `-` and a digit, starts a match: a
      lone `-`, a `+` sign and a leading `.` do not. */
  lemma NumberMustOpenWithDigit(lit: string)
    ensures MatchAt(lit, lit + "-x").None?
    ensures MatchAt(lit, lit + "+1.0").None?
    ensures MatchAt(lit, lit + ".5").None?
  {
    MatchAtAfterLiteral(lit, "-x");
    MatchNumberOpens("-x");
    MatchAtAfterLiteral(lit, "+1.0");
    MatchNumberOpens("+1.0");
    MatchAtAfterLiteral(lit, ".5");
    MatchNumberOpens(".5");
  }

  /** The pattern matches at the start of `u` whenever the literal and some
      well-formed token open it. */
  lemma MatchAtComplete(lit: string, u: string, tok: Token)
    requires WellFormed(tok) && lit + Text(tok) <= u
    ensures MatchAt(lit, u).Some?
  {
    PrefixConcat(lit, Text(tok), u);
    StartsWithIsPrefix(u, lit);
    MatchNumberComplete(u[|lit|..], tok);
  }

  // ---------------------------------------------------------------------------
  // What decides a match: the window
  // ---------------------------------------------------------------------------

  /** Where the pattern occurs: the literal, then a digit or `-` and a digit. */
  predicate Occurs(lit: string, u: string)
  {
    lit <= u && Opens(u[|lit|..])
  }

  lemma MatchAtOccurs(lit: string, u: string)
    ensures MatchAt(lit, u).Some? <==> Occurs(lit, u)
  {
    StartsWithIsPrefix(u, lit);
    if lit <= u {
      MatchNumberOpens(u[|lit|..]);
    }
  }

  /** The characters that decide whether the pattern occurs: the literal, an
      optional `-`, and the first digit. */
  function Window(lit: string, u: string): (w: nat)
    requires Occurs(lit, u)
    ensures |lit| < w <= |lit| + 2 && w <= |u|
  {
    if u[|lit|] == '-' then |lit| + 2 else |lit| + 1
  }

  /** A text that agrees with `u` on its window holds the pattern too. */
  lemma WindowDecides(lit: string, u: string, v: string)
    requires Occurs(lit, u)
    requires Window(lit, u) <= |v| && forall i :: 0 <= i < Window(lit, u) ==> v[i] == u[i]
    ensures Occurs(lit, v)
  {
    var L := |lit|;
    assert lit <= v by {
      forall i | 0 <= i < L ensures lit[i] == v[i] { assert u[i] == lit[i]; }
    }
    assert v[L..][0] == v[L] == u[L] == u[L..][0];
    if u[L] == '-' {
      assert v[L..][1] == v[L + 1] == u[L + 1] == u[L..][1];
    }
  }

  predicate NoNewline(s: string)
  {
    forall i :: 0 <= i < |s| ==> s[i] != '\n'
  }

  /** No line break occurs in the window of a match. */
  lemma WindowHasNoNewline(lit: string, u: string, i: nat)
    requires NoNewline(lit)
    requires Occurs(lit, u) && i < Window(lit, u)
    ensures u[i] != '\n'
  {
    var L := |lit|;
    if i < L {
      assert u[i] == lit[i];
    } else {
      assert u[L..][i - L] == u[i];
    }
  }

  /** Characters after a match that the greedy quantifiers inspect are
      already in `u` at position `e`, so appended text cannot change it. */
  predicate SettledAt(u: string, e: nat)
  {
    e + 2 <= |u| || (e < |u| && u[e] != '.')
  }

  lemma {:induction false} NumberExtend(r: string, t: string, tok: Token)
    requires NumberAccepts(r, tok) && SettledAt(r, |Text(tok)|)
    ensures NumberAccepts(r + t, tok)
  {
    var e := |Text(tok)|;
    assert Text(tok) <= r + t;
    var after, after' := r[e..], (r + t)[e..];
    assert after' == after + t;
    assert after'[0] == after[0];
    if e + 2 <= |r| { assert after'[1] == after[1]; }
  }

  /** Text that already opens `u` still opens `u + t`, with `t` after it. */
  lemma PrefixExtend(a: string, u: string, t: string)
    requires a <= u
    ensures a <= u + t && (u + t)[|a|..] == u[|a|..] + t
  {
  }

  lemma SettledShift(u: string, L: nat, e: nat)
    requires L <= |u| && SettledAt(u, L + e)
    ensures SettledAt(u[L..], e)
  {
    if L + e < |u| { assert u[L..][e] == u[L + e]; }
  }

  /** A match whose end is settled survives appended text. */
  lemma MatchAtExtend(lit: string, u: string, t: string, tok: Token)
    requires MatchAt(lit, u) == Some(tok)
    requires SettledAt(u, |lit| + |Text(tok)|)
    ensures MatchAt(lit, u + t) == Some(tok)
  {
    MatchAtExactly(lit, u, tok);
    PrefixExtend(lit, u, t);
    SettledShift(u, |lit|, |Text(tok)|);
    NumberExtend(u[|lit|..], t, tok);
    MatchAtExactly(lit, u + t, tok);
  }

  /** The end of a match lies inside the text. */
  lemma MatchInside(lit: string, s: string, p: nat, tok: Token)
    requires p <= |s| && MatchAt(lit, s[p..]) == Some(tok)
    ensures p + |lit| + |Text(tok)| <= |s| && |Text(tok)| >= 1
  {
    MatchAtExactly(lit, s[p..], tok);
    assert Text(tok) <= s[p..][|lit|..];
    assert |tok.intDigits| > 0;
  }

  lemma SliceConcat(s: string, t: string, p: nat)
    requires p <= |s|
    ensures (s + t)[p..] == s[p..] + t
  {
  }

  /** A match at position `p` of `s` whose end is settled is still there, with
      the same token, once text is appended to `s`. */
  lemma MatchAtExtendAt(lit: string, s: string, t: string, p: nat, tok: Token)
    requires p <= |s| && MatchAt(lit, s[p..]) == Some(tok)
    requires SettledAt(s, p + |lit| + |Text(tok)|)
    ensures MatchAt(lit, (s + t)[p..]) == Some(tok)
  {
    MatchInside(lit, s, p, tok);
    SettledShift(s, p, |lit| + |Text(tok)|);
    MatchAtExtend(lit, s[p..], t, tok);
    SliceConcat(s, t, p);
  }

  /** A line break is never inside the window of an occurrence. */
  lemma NewlineOutsideWindow(lit: string, u: string, i: nat)
    requires NoNewline(lit) && Occurs(lit, u)
    requires i < |u| && u[i] == '\n'
    ensures Window(lit, u) <= i
  {
    var L := |lit|;
    assert forall j :: 0 <= j < L ==> u[j] == lit[j];
    assert u[L..][0] == u[L];
    assert u[L] == '-' ==> u[L..][1] == u[L + 1];
  }

  /** An occurrence at position `k` of `s + t` whose window fits in `s` is an
      occurrence in `s`. */
  lemma OccursBeforeEnd(lit: string, s: string, t: string, k: nat)
    requires k <= |s|
    ensures Occurs(lit, (s + t)[k..]) && k + Window(lit, (s + t)[k..]) <= |s| ==> Occurs(lit, s[k..])
  {
    var u, v := (s + t)[k..], s[k..];
    if Occurs(lit, u) && k + Window(lit, u) <= |s| {
      assert forall i :: 0 <= i < Window(lit, u) ==> v[i] == u[i];
      WindowDecides(lit, u, v);
    }
  }

  /** A position where `s` holds no match, and whose window cannot reach past
      `s`, holds no match in `s + t` either. */
  lemma NoMatchStaysNone(lit: string, s: string, t: string, k: nat)
    requires k <= |s| && MatchAt(lit, s[k..]).None?
    requires k + |lit| + 2 <= |s|
    ensures MatchAt(lit, (s + t)[k..]).None?
  {
    MatchAtOccurs(lit, (s + t)[k..]);
    MatchAtOccurs(lit, s[k..]);
    OccursBeforeEnd(lit, s, t, k);
  }

  /** An occurrence at a position of `pre + s` inside `pre`, where `pre` ends
      with a line break, lies within `pre`. */
  lemma OccursWithinLine(lit: string, pre: string, s: string, k: nat)
    requires NoNewline(lit)
    requires k < |pre| && pre[|pre| - 1] == '\n'
    ensures Occurs(lit, (pre + s)[k..]) ==> Occurs(lit, pre[k..])
  {
    var u := (pre + s)[k..];
    OccursBeforeEnd(lit, pre, s, k);
    if Occurs(lit, u) {
      assert u[|pre| - 1 - k] == pre[|pre| - 1];
      NewlineOutsideWindow(lit, u, |pre| - 1 - k);
    }
  }

  /** A match reaching the end of `pre` would hold its last character, a line
      break, in its window; so positions of `pre` holding no match hold none
      in `pre + s` either. */
  lemma NoMatchBeforeLineEnd(lit: string, pre: string, s: string, k: nat)
    requires NoNewline(lit)
    requires k < |pre| && pre[|pre| - 1] == '\n'
    requires MatchAt(lit, pre[k..]).None?
    ensures MatchAt(lit, (pre + s)[k..]).None?
  {
    MatchAtOccurs(lit, (pre + s)[k..]);
    MatchAtOccurs(lit, pre[k..]);
    OccursWithinLine(lit, pre, s, k);
  }
}
