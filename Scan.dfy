/** Hand-written scanners for the few regular expressions the style parsers
    use.  Every pattern there is a fixed key followed by a capture; `Search`
    finds the leftmost position at which the key is present and what follows
    it has the required shape, which is what `re.search` reports. */
module Scan {
  import opened Wrappers

  predicate IsDigit(c: char) { '0' <= c <= '9' }

  /** `[a-zA-Z]`: ASCII letters only. */
  predicate IsLetter(c: char) { 'a' <= c <= 'z' || 'A' <= c <= 'Z' }

  predicate AllDigits(s: string) { forall i :: 0 <= i < |s| ==> IsDigit(s[i]) }

  predicate AllLetters(s: string) { forall i :: 0 <= i < |s| ==> IsLetter(s[i]) }

  /** `key` occurs at the start of `s`. */
  predicate HasPrefix(s: string, key: string) { |key| <= |s| && s[..|key|] == key }

  /** Length of the longest run of digits at the start of `t`: what a greedy
      `\d*` (or `\d+`, when it is not zero) consumes. */
  function DigitSpan(t: string): (n: nat)
    ensures n <= |t| && AllDigits(t[..n])
    ensures n == |t| || !IsDigit(t[n])
  {
    if t != [] && IsDigit(t[0]) then
      var m := DigitSpan(t[1..]);
      assert t[..m + 1] == [t[0]] + t[1..][..m];
      m + 1
    else 0
  }

  /** Length of the longest run of ASCII letters at the start of `t`
      (greedy `[a-zA-Z]*`). */
  function LetterSpan(t: string): (n: nat)
    ensures n <= |t| && AllLetters(t[..n])
    ensures n == |t| || !IsLetter(t[n])
  {
    if t != [] && IsLetter(t[0]) then
      var m := LetterSpan(t[1..]);
      assert t[..m + 1] == [t[0]] + t[1..][..m];
      m + 1
    else 0
  }

  /** A maximal run is the only one: any digit prefix that stops before a
      non-digit is the one `DigitSpan` finds. */
  lemma {:induction false} DigitSpanUnique(t: string, m: nat)
    requires m <= |t| && AllDigits(t[..m])
    requires m == |t| || !IsDigit(t[m])
    ensures DigitSpan(t) == m
  {
  }

  function Pow10(n: nat): (p: nat)
    ensures p >= 1
  {
    if n == 0 then 1 else 10 * Pow10(n - 1)
  }

  /** The value of a decimal digit string, as Python's `int` reads it. */
  function DigitsValue(d: string): (v: nat)
    requires AllDigits(d)
    ensures v < Pow10(|d|)
  {
    if d == [] then 0
    else
      var init := d[..|d| - 1];
      assert AllDigits(init) by {
        forall i | 0 <= i < |init| ensures IsDigit(init[i]) { assert init[i] == d[i]; }
      }
      var u := DigitsValue(init);
      var c := (d[|d| - 1] as int) - ('0' as int);
      assert u + 1 <= Pow10(|init|);
      assert 10 * u + c < 10 * (u + 1) <= 10 * Pow10(|init|);
      10 * u + c
  }

  /** `int` of a single digit is that digit's value. */
  lemma DigitsValueOne(c: char)
    requires IsDigit(c)
    ensures DigitsValue([c]) == (c as int) - ('0' as int)
  {
    assert [c][..0] == [];
  }

  /** Positional notation: the digits of `a` followed by those of `b` read as
      `a` shifted left by the length of `b`, plus `b`. */
  lemma {:induction false} DigitsValueAppend(a: string, b: string)
    requires AllDigits(a) && AllDigits(b)
    ensures AllDigits(a + b)
    ensures DigitsValue(a + b) == DigitsValue(a) * Pow10(|b|) + DigitsValue(b)
  {
    var ab := a + b;
    assert AllDigits(ab) by {
      forall i | 0 <= i < |ab| ensures IsDigit(ab[i]) {
        if i < |a| { assert ab[i] == a[i]; } else { assert ab[i] == b[i - |a|]; }
      }
    }
    if b == [] {
      assert ab == a;
    } else {
      var init := b[..|b| - 1];
      var c := (b[|b| - 1] as int) - ('0' as int);
      assert AllDigits(init) by {
        forall i | 0 <= i < |init| ensures IsDigit(init[i]) { assert init[i] == b[i]; }
      }
      assert ab[..|ab| - 1] == a + init;
      assert ab[|ab| - 1] == b[|b| - 1];
      DigitsValueAppend(a, init);
      ShiftByOneDigit(DigitsValue(a), DigitsValue(init), Pow10(|init|), c);
    }
  }

  lemma ShiftByOneDigit(va: int, vi: int, p: int, c: int)
    ensures 10 * (va * p + vi) + c == va * (10 * p) + (10 * vi + c)
  {
  }

  /** Length of the greedy match of `\d+\.?\d*` at the start of `t` (zero if
      `t` does not start with a digit): the integer digits, then, if a dot
      follows, the dot and the fraction digits.  It cannot be extended: no
      digit follows it, and no dot follows integer digits alone. */
  function DecimalSpan(t: string): (n: nat)
    ensures DigitSpan(t) <= n <= |t|
    ensures n == 0 <==> t == [] || !IsDigit(t[0])
    ensures 0 < n < |t| ==> !IsDigit(t[n])
    ensures 0 < n == DigitSpan(t) < |t| ==> t[n] != '.'
  {
    var d := DigitSpan(t);
    if d == 0 then 0
    else if d < |t| && t[d] == '.' then d + 1 + DigitSpan(t[d + 1..])
    else d
  }

  /** The number that Python's `float` makes of the greedy
      `\d+\.?\d*` lexeme at the start of `t`, as an exact decimal. */
  function DecimalValue(t: string): (r: real)
    ensures var w := DigitsValue(t[..DigitSpan(t)]) as real; w <= r < w + 1.0
    ensures var d := DigitSpan(t); (d == |t| || t[d] != '.') ==> r == DigitsValue(t[..d]) as real
  {
    var d := DigitSpan(t);
    var whole := DigitsValue(t[..d]) as real;
    if d < |t| && t[d] == '.' then
      var rest := t[d + 1..];
      var f := DigitSpan(rest);
      ProperFraction(DigitsValue(rest[..f]), Pow10(f));
      whole + (DigitsValue(rest[..f]) as real) / (Pow10(f) as real)
    else whole
  }

  /** `float` of a lexeme with a fraction is exact: it is the integer the
      digits make with the dot taken out, divided by ten to the number of
      fraction digits. */
  lemma DecimalValueExact(t: string, d: nat, frac: string)
    requires d == DigitSpan(t) && d < |t| && t[d] == '.'
    requires frac == t[d + 1..][..DigitSpan(t[d + 1..])]
    ensures AllDigits(t[..d] + frac)
    ensures DecimalValue(t) == (DigitsValue(t[..d] + frac) as real) / (Pow10(|frac|) as real)
  {
    DigitsValueAppend(t[..d], frac);
    ScaleFraction(DecimalValue(t), DigitsValue(t[..d]), DigitsValue(frac), Pow10(|frac|), DigitsValue(t[..d] + frac));
  }

  lemma ScaleFraction(x: real, w: int, v: int, p: int, n: int)
    requires p > 0 && x == w as real + (v as real) / (p as real) && n == w * p + v
    ensures x == (n as real) / (p as real)
  {
  }

  /** The fraction digits never reach the next unit: dropping them is the
      same as rounding the decimal down. */
  lemma DecimalValueFloor(t: string)
    ensures DecimalValue(t).Floor == DigitsValue(t[..DigitSpan(t)])
  {
    var d := DigitSpan(t);
    var w := DigitsValue(t[..d]);
    if d < |t| && t[d] == '.' {
      var rest := t[d + 1..];
      var f := DigitSpan(rest);
      var q := (DigitsValue(rest[..f]) as real) / (Pow10(f) as real);
      ProperFraction(DigitsValue(rest[..f]), Pow10(f));
      assert DecimalValue(t) == w as real + q;
      FloorOfWholePlusFraction(w, q);
    }
  }

  lemma ProperFraction(v: nat, p: nat)
    requires v < p
    ensures 0.0 <= (v as real) / (p as real) < 1.0
  {
    var q := (v as real) / (p as real);
    assert q * (p as real) == v as real;
  }

  lemma FloorOfWholePlusFraction(w: int, q: real)
    requires 0.0 <= q < 1.0
    ensures (w as real + q).Floor == w
  {
  }

  /** What must stand right after the key for a pattern to match. */
  datatype Follow =
    | Anything        // `position:relative;?`
    | DigitNext       // `(\d+...)`
    | LetterNext      // `([a-zA-Z]+)`
    | DecimalThenPt   // `(\d+\.?\d*)pt`

  predicate FollowedBy(t: string, f: Follow)
  {
    match f
    case Anything => true
    case DigitNext => t != [] && IsDigit(t[0])
    case LetterNext => t != [] && IsLetter(t[0])
    case DecimalThenPt => DigitSpan(t) > 0 && HasPrefix(t[DecimalSpan(t)..], "pt")
  }

  /** The pattern `key` + `f` matches at position `i` of `s`. */
  predicate MatchAt(s: string, key: string, f: Follow, i: nat)
  {
    i <= |s| && HasPrefix(s[i..], key) && FollowedBy(s[i + |key|..], f)
  }

  /** `i` is the leftmost position at which the pattern matches. */
  predicate FirstMatchAt(s: string, key: string, f: Follow, i: nat)
  {
    MatchAt(s, key, f, i) && forall j: nat :: j < i ==> !MatchAt(s, key, f, j)
  }

  function SearchFrom(s: string, key: string, f: Follow, i: nat): (r: Option<nat>)
    decreases |s| + 1 - i
    ensures r.Some? ==> i <= r.value && MatchAt(s, key, f, r.value)
    ensures r.Some? ==> forall j: nat :: i <= j < r.value ==> !MatchAt(s, key, f, j)
    ensures r.None? ==> forall j: nat :: i <= j ==> !MatchAt(s, key, f, j)
  {
    if i > |s| then None
    else if MatchAt(s, key, f, i) then Some(i)
    else SearchFrom(s, key, f, i + 1)
  }

  /** `re.search`: the leftmost match, or `None` when there is none. */
  function Search(s: string, key: string, f: Follow): (r: Option<nat>)
    ensures r.Some? ==> FirstMatchAt(s, key, f, r.value)
    ensures r.None? ==> forall j: nat :: !MatchAt(s, key, f, j)
  {
    SearchFrom(s, key, f, 0)
  }

  /** There is at most one leftmost match. */
  lemma FirstMatchUnique(s: string, key: string, f: Follow, i: nat, j: nat)
    requires FirstMatchAt(s, key, f, i) && FirstMatchAt(s, key, f, j)
    ensures i == j
  {
  }

  /** `g` is a string the regex `\d+\.?\d*` matches in full: a digit first,
      then digits and at most one dot. */
  predicate IsDecimalLiteral(g: string)
  {
    && g != [] && IsDigit(g[0])
    && (forall i :: 0 <= i < |g| ==> IsDigit(g[i]) || g[i] == '.')
    && (forall i, j :: 0 <= i < |g| && 0 <= j < |g| && g[i] == '.' && g[j] == '.' ==> i == j)
  }

  /** The greedy lexeme, when followed by `pt`, is a group the regex accepts. */
  lemma GreedyLexemeMatches(t: string)
    requires FollowedBy(t, DecimalThenPt)
    ensures IsDecimalLiteral(t[..DecimalSpan(t)])
    ensures HasPrefix(t, t[..DecimalSpan(t)] + "pt")
  {
    var d := DigitSpan(t);
    var n := DecimalSpan(t);
    var g := t[..n];
    assert t[n..][..2] == "pt";
    assert t[..n + 2] == g + "pt";
    assert g[0] == t[..d][0];
    if d < |t| && t[d] == '.' {
      var rest := t[d + 1..];
      var f := DigitSpan(rest);
      forall i | 0 <= i < |g|
        ensures if i == d then g[i] == '.' else IsDigit(g[i])
      {
        if i < d {
          assert g[i] == t[..d][i];
        } else if i > d {
          assert g[i] == rest[..f][i - d - 1];
        }
      }
    } else {
      forall i | 0 <= i < |g| ensures IsDigit(g[i]) {
        assert g[i] == t[..d][i];
      }
    }
  }

  /** Any group the regex `(\d+\.?\d*)pt` could capture at the start of `t`
      is the greedy lexeme: backtracking offers no other candidate. */
  lemma OnlyGreedyLexemeMatches(t: string, g: string)
    requires IsDecimalLiteral(g) && HasPrefix(t, g + "pt")
    ensures FollowedBy(t, DecimalThenPt) && g == t[..DecimalSpan(t)]
  {
    assert t[..|g|] == g by { assert t[..|g| + 2][..|g|] == (g + "pt")[..|g|]; }
    assert t[|g|] == (g + "pt")[|g|] == 'p';
    assert t[|g| + 1] == (g + "pt")[|g| + 1] == 't';
    var p := DigitSpan(g);
    // the integer digits of g are the integer digits of t
    assert AllDigits(t[..p]) by {
      forall i | 0 <= i < p ensures IsDigit(t[..p][i]) { assert t[i] == g[..p][i]; }
    }
    assert t[p] == if p < |g| then g[p] else 'p';
    DigitSpanUnique(t, p);
    if p < |g| {
      // one dot, then the fraction digits up to the `p` of `pt`
      var rest := t[p + 1..];
      var m := |g| - p - 1;
      assert AllDigits(rest[..m]) by {
        forall i | 0 <= i < m ensures IsDigit(rest[..m][i]) {
          assert rest[..m][i] == g[p + 1 + i];
        }
      }
      assert rest[m] == t[|g|];
      DigitSpanUnique(rest, m);
    }
    assert DecimalSpan(t) == |g|;
    assert t[|g|..][..2] == "pt";
  }

  /** `key` occurs in `s` starting at position `i`. */
  predicate KeyAt(s: string, key: string, i: nat)
  {
    i + |key| <= |s| && s[i..i + |key|] == key
  }

  /** With nothing required after it, a key matches exactly where it occurs. */
  lemma AnythingMatchesKeyAt(s: string, key: string)
    ensures forall i: nat :: MatchAt(s, key, Anything, i) <==> KeyAt(s, key, i)
  {
    forall i: nat
      ensures MatchAt(s, key, Anything, i) <==> KeyAt(s, key, i)
    {
      if i + |key| <= |s| {
        assert s[i..][..|key|] == s[i..i + |key|];
      }
    }
  }

  /** A lexeme of one digit, a dot and one digit spans three characters
      and reads as the first digit plus a tenth of the second. */
  lemma TenthsDecimal(t: string)
    requires 3 <= |t| && IsDigit(t[0]) && t[1] == '.' && IsDigit(t[2])
    requires |t| == 3 || !IsDigit(t[3])
    ensures DigitSpan(t) == 1 && DecimalSpan(t) == 3
    ensures DecimalValue(t) == ((t[0] as int) - ('0' as int)) as real + (((t[2] as int) - ('0' as int)) as real) / 10.0
  {
    assert t[..1] == [t[0]];
    DigitSpanUnique(t, 1);
    DigitsValueOne(t[0]);
    var rest := t[2..];
    assert rest[..1] == [t[2]];
    DigitSpanUnique(rest, 1);
    DigitsValueOne(t[2]);
    DecimalValueParts(t, 1, rest, 1);
    Tenths(DecimalValue(t), DigitsValue(t[..1]), DigitsValue(rest[..1]), Pow10(1));
  }

  /** A lexeme of one digit with neither a digit nor a dot after it reads
      as that digit. */
  lemma OneDigitDecimal(t: string)
    requires 2 <= |t| && IsDigit(t[0]) && !IsDigit(t[1]) && t[1] != '.'
    ensures DigitSpan(t) == 1 && DecimalSpan(t) == 1
    ensures DecimalValue(t) == ((t[0] as int) - ('0' as int)) as real
  {
    assert t[..1] == [t[0]];
    DigitSpanUnique(t, 1);
    DigitsValueOne(t[0]);
  }

  /** The value of a lexeme with a fraction, from its integer digits and
      its fraction digits. */
  lemma DecimalValueParts(t: string, d: nat, rest: string, f: nat)
    requires d == DigitSpan(t) && d < |t| && t[d] == '.'
    requires rest == t[d + 1..] && f == DigitSpan(rest)
    ensures DecimalValue(t) == (DigitsValue(t[..d]) as real) + (DigitsValue(rest[..f]) as real) / (Pow10(f) as real)
  {
  }

  lemma Tenths(x: real, a: int, b: int, p: int)
    requires p == 10 && x == a as real + (b as real) / (p as real)
    ensures x == a as real + (b as real) / 10.0
  {
  }

  /** Such a lexeme with `pt` right after it is what `(\d+\.?\d*)pt` wants. */
  lemma TenthsThenPt(t: string)
    requires 5 <= |t| && IsDigit(t[0]) && t[1] == '.' && IsDigit(t[2]) && t[3] == 'p' && t[4] == 't'
    ensures FollowedBy(t, DecimalThenPt)
  {
    TenthsDecimal(t);
    assert t[3..][..2] == "pt";
  }

  /** The lexeme `6.5` reads as six and a half, as `float("6.5")` does. */
  lemma DecimalValueExample()
    ensures DecimalValue("6.5pt") == 6.5
  {
    TenthsDecimal("6.5pt");
  }

  /** The digit run `400` is read whole and is four hundred. */
  lemma DigitsValueExample()
    ensures DigitSpan("400") == 3
    ensures "400"[..DigitSpan("400")] == "400" && DigitsValue("400") == 400
  {
    DigitSpanUnique("400", 3);
    DigitsValueOne('4');
    DigitsValueOne('0');
    assert "00" == "0" + "0";
    DigitsValueAppend("0", "0");
    assert DigitsValue("00") == 0;
    assert "400" == "4" + "00";
    DigitsValueAppend("4", "00");
  }
}
