/**
 * Text helpers that the statistics engine relies on: whitespace tokenisation
 * (`ctokenize`), decimal formatting of an index (`%i` in `snprintf`), bounded
 * name buffers and integer parsing of a token (`to_int32`).  The string
 * utilities of the repository are not part of this model; they are modelled as
 * described on each member.
 */
module Text {
  import opened Wrappers

  /** `ctokenize` splits on this character. */
  const Delimiter: char := ' '

  /** A token is a view `[beg, end)` into the tokenised string. */
  datatype Span = Span(beg: nat, end: nat)

  /** End of the run of non-delimiter characters that starts at `i`. */
  function RunEnd(s: string, i: nat): (e: nat)
    requires i <= |s|
    ensures i <= e <= |s|
    ensures forall k :: i <= k < e ==> s[k] != Delimiter
    ensures e == |s| || s[e] == Delimiter
    decreases |s| - i
  {
    if i == |s| || s[i] == Delimiter then i else RunEnd(s, i + 1)
  }

  /** The tokens of `s[i..]`: the maximal runs of non-delimiter characters, in order. */
  function Spans(s: string, i: nat): (r: seq<Span>)
    requires i <= |s|
    ensures forall k :: 0 <= k < |r| ==> i <= r[k].beg < r[k].end <= |s|
    decreases |s| - i
  {
    if i == |s| then []
    else if s[i] == Delimiter then Spans(s, i + 1)
    else
      var e := RunEnd(s, i);
      [Span(i, e)] + Spans(s, e)
  }

  /**
   * Tokens hold no delimiter, end at a delimiter or at the end of the string,
   * and come in increasing order without overlap.
   */
  predicate WellFormed(s: string, r: seq<Span>)
  {
    (forall k :: 0 <= k < |r| ==> r[k].beg < r[k].end <= |s|) &&
    (forall k, j :: 0 <= k < |r| && r[k].beg <= j < r[k].end ==> s[j] != Delimiter) &&
    (forall k :: 0 <= k < |r| ==> r[k].end == |s| || s[r[k].end] == Delimiter) &&
    (forall k, l :: 0 <= k < l < |r| ==> r[k].end < r[l].beg)
  }

  lemma {:induction false} SpansWellFormed(s: string, i: nat)
    requires i <= |s|
    ensures WellFormed(s, Spans(s, i))
    decreases |s| - i
  {
    if i < |s| {
      if s[i] == Delimiter {
        SpansWellFormed(s, i + 1);
        assert Spans(s, i) == Spans(s, i + 1);
      } else {
        var e := RunEnd(s, i);
        SpansWellFormed(s, e);
        var rest := Spans(s, e);
        forall k | 0 <= k < |rest| ensures e < rest[k].beg {
          assert s[rest[k].beg] != Delimiter;
        }
        ConsWellFormed(s, Span(i, e), rest);
      }
    }
  }

  /** A token in front of well-formed tokens that all begin after it. */
  lemma ConsWellFormed(s: string, sp: Span, rest: seq<Span>)
    requires WellFormed(s, rest)
    requires sp.beg < sp.end <= |s|
    requires forall j :: sp.beg <= j < sp.end ==> s[j] != Delimiter
    requires sp.end == |s| || s[sp.end] == Delimiter
    requires forall k :: 0 <= k < |rest| ==> sp.end < rest[k].beg
    ensures WellFormed(s, [sp] + rest)
  {
    var r := [sp] + rest;
    forall k | 0 <= k < |r| ensures r[k] == if k == 0 then sp else rest[k - 1] { }
    forall k, j | 0 <= k < |r| && r[k].beg <= j < r[k].end ensures s[j] != Delimiter {
      if k > 0 { assert rest[k - 1].beg <= j < rest[k - 1].end; }
    }
    forall k, l | 0 <= k < l < |r| ensures r[k].end < r[l].beg {
      assert r[l] == rest[l - 1];
      if k > 0 { assert r[k] == rest[k - 1]; }
    }
  }

  /** Every non-delimiter character of `s[i..]` lies inside one of the tokens. */
  lemma {:induction false} SpansCover(s: string, i: nat, j: nat)
    requires i <= j < |s| && s[j] != Delimiter
    ensures exists k :: 0 <= k < |Spans(s, i)| && Spans(s, i)[k].beg <= j < Spans(s, i)[k].end
    decreases |s| - i
  {
    var r := Spans(s, i);
    if s[i] == Delimiter {
      SpansCover(s, i + 1, j);
    } else {
      var e := RunEnd(s, i);
      assert r == [Span(i, e)] + Spans(s, e);
      if j < e {
        assert r[0].beg <= j < r[0].end;
      } else {
        SpansCover(s, e, j);
        var k :| 0 <= k < |Spans(s, e)| && Spans(s, e)[k].beg <= j < Spans(s, e)[k].end;
        assert r[k + 1] == Spans(s, e)[k];
      }
    }
  }

  /** `ctokenize(s)`: the token strings of `s`. */
  function Tokenize(s: string): (r: seq<string>)
    ensures |r| == |Spans(s, 0)|
  {
    TokensOf(s, Spans(s, 0))
  }

  /**
   * The argument part of a command string: from the start of the second token
   * to the end of the last one, or "" when there is at most one token.
   */
  function ArgsAfterCommand(s: string): (r: string)
    ensures |Spans(s, 0)| <= 1 ==> r == ""
    ensures |Spans(s, 0)| > 1 ==> |r| > 0 && r[0] == s[Spans(s, 0)[1].beg] && r[|r| - 1] == s[Spans(s, 0)[|Spans(s, 0)| - 1].end - 1]
  {
    var sp := Spans(s, 0);
    SpansWellFormed(s, 0);
    if |sp| > 1 then
      assert sp[1].beg < sp[1].end;
      assert |sp| > 2 ==> sp[1].end < sp[|sp| - 1].beg;
      s[sp[1].beg..sp[|sp| - 1].end]
    else ""
  }

  /** The spans `r` moved `a` characters to the left. */
  function Shift(r: seq<Span>, a: nat): (q: seq<Span>)
    requires forall k :: 0 <= k < |r| ==> a <= r[k].beg <= r[k].end
    ensures |q| == |r|
    ensures forall k :: 0 <= k < |r| ==> q[k].beg + a == r[k].beg && q[k].end + a == r[k].end
  {
    seq(|r|, k requires 0 <= k < |r| => Span(r[k].beg - a, r[k].end - a))
  }

  /** Moving a token in front of spans moves each part. */
  lemma ShiftCons(x: Span, r: seq<Span>, a: nat)
    requires a <= x.beg <= x.end
    requires forall k :: 0 <= k < |r| ==> a <= r[k].beg <= r[k].end
    ensures Shift([x] + r, a) == [Span(x.beg - a, x.end - a)] + Shift(r, a)
  {
    var l := Shift([x] + r, a);
    var q := [Span(x.beg - a, x.end - a)] + Shift(r, a);
    forall k | 0 <= k < |l| ensures l[k] == q[k] {
      if k > 0 { assert ([x] + r)[k] == r[k - 1]; }
    }
  }

  /** The tokens of `s[i..]` from the `k`-th on are the tokens from its start, and the rest from its end. */
  lemma {:induction false} SpansSuffix(s: string, i: nat, k: nat)
    requires i <= |s| && k < |Spans(s, i)|
    ensures Spans(s, Spans(s, i)[k].beg) == Spans(s, i)[k..]
    ensures Spans(s, Spans(s, i)[k].end) == Spans(s, i)[k + 1..]
    decreases |s| - i
  {
    if s[i] == Delimiter {
      SpansSuffix(s, i + 1, k);
    } else {
      var e := RunEnd(s, i);
      SpansAtRun(s, i);
      if k > 0 {
        SpansSuffix(s, e, k - 1);
        SuffixCons(Span(i, e), Spans(s, e), k);
      }
    }
  }

  lemma SuffixCons(x: Span, r: seq<Span>, k: nat)
    requires 0 < k <= |r|
    ensures ([x] + r)[k] == r[k - 1] && ([x] + r)[k..] == r[k - 1..] && ([x] + r)[k + 1..] == r[k..]
  {
  }

  /** A run inside `s[a..E]`, where `E` ends a run of `s`, ends where it ends in `s`. */
  lemma {:induction false} RunEndSlice(s: string, a: nat, E: nat, i: nat)
    requires a <= i <= E <= |s|
    requires E == |s| || s[E] == Delimiter
    ensures RunEnd(s[a..E], i - a) + a == RunEnd(s, i)
    decreases E - i
  {
    if i < E && s[i] != Delimiter {
      assert s[a..E][i - a] == s[i];
      RunEndSlice(s, a, E, i + 1);
    }
  }

  /**
   * Cutting `s` to `s[a..E]`, where `E` ends a run and no token follows it,
   * keeps the tokens from `i` on, moved by `a`.
   */
  lemma {:induction false} SliceSpans(s: string, t: string, a: nat, E: nat, i: nat)
    requires a <= i <= E <= |s| && t == s[a..E]
    requires E == |s| || s[E] == Delimiter
    requires Spans(s, E) == []
    ensures Spans(t, i - a) == Shift(Spans(s, i), a)
    decreases E - i
  {
    if i < E {
      assert t[i - a] == s[i];
      if s[i] == Delimiter {
        SliceSpans(s, t, a, E, i + 1);
        assert Spans(t, i - a) == Spans(t, i + 1 - a);
      } else {
        var e := RunEnd(s, i);
        RunEndSlice(s, a, E, i);
        SliceSpans(s, t, a, E, e);
        SliceSpansRun(s, t, a, i, e);
      }
    }
  }

  /** A token starts at a non-delimiter and runs to the end of its run. */
  lemma SpansAtRun(s: string, i: nat)
    requires i < |s| && s[i] != Delimiter
    ensures Spans(s, i) == [Span(i, RunEnd(s, i))] + Spans(s, RunEnd(s, i))
  {
  }

  /** One token step of `SliceSpans`: the run at `i` is moved by `a` in front of the moved rest. */
  lemma SliceSpansRun(s: string, t: string, a: nat, i: nat, e: nat)
    requires a <= i < |s| && i - a < |t| && s[i] != Delimiter && t[i - a] != Delimiter
    requires e == RunEnd(s, i) && e - a == RunEnd(t, i - a)
    requires Spans(t, e - a) == Shift(Spans(s, e), a)
    ensures Spans(t, i - a) == Shift(Spans(s, i), a)
  {
    SpansAtRun(t, i - a);
    SpansAtRun(s, i);
    ShiftCons(Span(i, e), Spans(s, e), a);
  }

  /** The strings of the spans `r` of `s`. */
  function TokensOf(s: string, r: seq<Span>): (ts: seq<string>)
    requires forall k :: 0 <= k < |r| ==> r[k].beg <= r[k].end <= |s|
    ensures |ts| == |r|
  {
    seq(|r|, k requires 0 <= k < |r| => s[r[k].beg..r[k].end])
  }

  lemma SliceOfSlice(s: string, t: string, a: nat, E: nat, x: nat, y: nat)
    requires a <= E <= |s| && t == s[a..E] && x <= y <= |t|
    ensures t[x..y] == s[a + x..a + y]
  {
    forall j | 0 <= j < y - x ensures t[x..y][j] == s[a + x..a + y][j] {
      assert t[x + j] == s[a + x + j];
    }
  }

  /**
   * The argument part re-tokenises to the tokens after the command, and is ""
   * when the line holds no token.
   */
  lemma ArgsAfterCommandTokens(s: string)
    ensures |Spans(s, 0)| >= 1 ==> Tokenize(ArgsAfterCommand(s)) == Tokenize(s)[1..]
    ensures |Spans(s, 0)| == 0 ==> ArgsAfterCommand(s) == ""
  {
    var sp := Spans(s, 0);
    if |sp| > 1 {
      ArgsCut(s, sp, sp[1].beg, sp[|sp| - 1].end);
      SliceTokens(s, ArgsAfterCommand(s), sp, sp[1].beg, sp[|sp| - 1].end);
    } else if |sp| == 1 {
      assert Spans("", 0) == [];
    }
  }

  /**
   * The slice `t == s[a..E]` from the second of the spans `sp` to the end of
   * the last one tokenises to the strings of the later spans.
   */
  lemma SliceTokens(s: string, t: string, sp: seq<Span>, a: nat, E: nat)
    requires |sp| > 1 && a <= E <= |s| && t == s[a..E]
    requires forall k :: 0 <= k < |sp| ==> sp[k].beg <= sp[k].end <= |s|
    requires Spans(s, a) == sp[1..] && Spans(s, E) == []
    requires E == |s| || s[E] == Delimiter
    ensures Tokenize(t) == TokensOf(s, sp)[1..]
  {
    SliceSpansMoved(s, t, sp, a, E);
    MovedTokens(s, t, a, E, sp, Spans(t, 0));
  }

  /** Spans `q` of `t == s[a..E]` that are the later spans `sp` moved by `a` give the later strings. */
  lemma MovedTokens(s: string, t: string, a: nat, E: nat, sp: seq<Span>, q: seq<Span>)
    requires a <= E <= |s| && t == s[a..E]
    requires |sp| > 0 && |q| == |sp| - 1
    requires forall k :: 0 <= k < |sp| ==> sp[k].beg <= sp[k].end <= |s|
    requires forall k :: 0 <= k < |q| ==> q[k].beg <= q[k].end <= |t|
    requires forall k :: 0 <= k < |q| ==> q[k].beg + a == sp[k + 1].beg && q[k].end + a == sp[k + 1].end
    ensures TokensOf(t, q) == TokensOf(s, sp)[1..]
  {
    forall k | 0 <= k < |q| ensures TokensOf(t, q)[k] == TokensOf(s, sp)[1..][k] {
      SliceOfSlice(s, t, a, E, q[k].beg, q[k].end);
    }
  }

  /**
   * Cutting `s` to `s[a..E]`, from the second token's start to the last
   * token's end, leaves the later tokens moved to the start.
   */
  lemma SliceSpansMoved(s: string, t: string, sp: seq<Span>, a: nat, E: nat)
    requires |sp| > 0 && a <= E <= |s| && t == s[a..E]
    requires Spans(s, a) == sp[1..] && Spans(s, E) == []
    requires E == |s| || s[E] == Delimiter
    ensures var q := Spans(t, 0);
            && |q| == |sp| - 1
            && forall k :: 0 <= k < |q| ==> q[k].beg + a == sp[k + 1].beg && q[k].end + a == sp[k + 1].end
  {
    SliceSpans(s, t, a, E, a);
    var rest := Spans(s, a);
    assert forall k :: 0 <= k < |rest| ==> a <= rest[k].beg <= rest[k].end;
    MovedSpans(Spans(t, 0), rest, sp, a);
  }

  /** Spans `q` that are the spans `sp[1..]` moved by `a`, index by index. */
  lemma MovedSpans(q: seq<Span>, rest: seq<Span>, sp: seq<Span>, a: nat)
    requires |sp| > 0 && rest == sp[1..]
    requires forall k :: 0 <= k < |rest| ==> a <= rest[k].beg <= rest[k].end
    requires q == Shift(rest, a)
    ensures |q| == |sp| - 1
    ensures forall k :: 0 <= k < |q| ==> q[k].beg + a == sp[k + 1].beg && q[k].end + a == sp[k + 1].end
  {
    forall k | 0 <= k < |q| ensures q[k].beg + a == sp[k + 1].beg && q[k].end + a == sp[k + 1].end {
      assert rest[k] == sp[k + 1];
    }
  }

  /**
   * The argument part is `s[a..E]`, from the start of the second token to the
   * end of the last one: `a` starts the later tokens and no token follows `E`.
   */
  lemma ArgsCut(s: string, sp: seq<Span>, a: nat, E: nat)
    requires sp == Spans(s, 0) && |sp| > 1 && a == sp[1].beg && E == sp[|sp| - 1].end
    ensures a <= E <= |s| && ArgsAfterCommand(s) == s[a..E]
    ensures forall k :: 0 <= k < |sp| ==> sp[k].beg <= sp[k].end <= |s|
    ensures Spans(s, a) == sp[1..] && Spans(s, E) == []
    ensures E == |s| || s[E] == Delimiter
  {
    ArgsSlice(s);
    ArgsBounds(s);
  }

  /** The argument part starts at a token and ends at a token end with no token after it. */
  lemma ArgsBounds(s: string)
    requires |Spans(s, 0)| > 1
    ensures var sp := Spans(s, 0);
            && sp[|sp| - 1].end <= |s|
            && Spans(s, sp[1].beg) == sp[1..]
            && Spans(s, sp[|sp| - 1].end) == []
            && (sp[|sp| - 1].end == |s| || s[sp[|sp| - 1].end] == Delimiter)
  {
    var sp := Spans(s, 0);
    var n := |sp|;
    SpansSuffix(s, 0, 1);
    SpansSuffix(s, 0, n - 1);
    FirstSpan(s, sp[n - 1].beg);
    assert Spans(s, sp[n - 1].beg)[0] == sp[n - 1];
  }

  /** The argument part is the slice from the second token's start to the last token's end. */
  lemma ArgsSlice(s: string)
    requires |Spans(s, 0)| > 1
    ensures var sp := Spans(s, 0);
            && sp[1].beg <= sp[|sp| - 1].end <= |s|
            && ArgsAfterCommand(s) == s[sp[1].beg..sp[|sp| - 1].end]
  {
    SpansWellFormed(s, 0);
    var sp := Spans(s, 0);
    assert sp[1].beg < sp[1].end;
    assert |sp| > 2 ==> sp[1].end < sp[|sp| - 1].beg;
  }

  /** Every token is a non-empty string without a delimiter. */
  lemma TokensNonEmpty(s: string)
    ensures forall k :: 0 <= k < |Tokenize(s)| ==> |Tokenize(s)[k]| > 0 && Delimiter !in Tokenize(s)[k]
  {
    SpansWellFormed(s, 0);
    var sp := Spans(s, 0);
    forall k | 0 <= k < |sp| ensures Delimiter !in Tokenize(s)[k] {
      var t := Tokenize(s)[k];
      assert t == s[sp[k].beg..sp[k].end];
      forall j | 0 <= j < |t| ensures t[j] != Delimiter {
        var a := sp[k].beg + j;
        assert t[j] == s[a];
        assert sp[k].beg <= a < sp[k].end;
      }
    }
  }

  /** First token, or "" when `s` holds no token. */
  function CommandToken(s: string): (r: string)
    ensures Spans(s, 0) == [] ==> r == ""
    ensures Spans(s, 0) != [] ==> r == Tokenize(s)[0]
  {
    var t := Tokenize(s);
    if |t| > 0 then t[0] else ""
  }

  /**
   * The tokens of `s[i..]` are absent exactly when it holds only delimiters;
   * otherwise the first one starts at the first non-delimiter and runs to the
   * next delimiter or the end.
   */
  lemma {:induction false} FirstSpan(s: string, i: nat)
    requires i <= |s|
    ensures Spans(s, i) == [] <==> forall j :: i <= j < |s| ==> s[j] == Delimiter
    ensures Spans(s, i) != [] ==>
              var sp := Spans(s, i)[0];
              && (forall j :: i <= j < sp.beg ==> s[j] == Delimiter)
              && s[sp.beg] != Delimiter && sp.end == RunEnd(s, sp.beg)
    decreases |s| - i
  {
    if i < |s| && s[i] == Delimiter {
      FirstSpan(s, i + 1);
    }
  }

  /**
   * The command of a command line is "" exactly when the line holds only
   * spaces; otherwise it is the first maximal run of non-spaces.
   */
  lemma CommandTokenIsFirstRun(s: string)
    ensures CommandToken(s) == "" <==> forall j :: 0 <= j < |s| ==> s[j] == Delimiter
    ensures CommandToken(s) != "" ==>
              exists b :: 0 <= b < |s| && CommandToken(s) == s[b..RunEnd(s, b)]
                && s[b] != Delimiter && (forall j :: 0 <= j < b ==> s[j] == Delimiter)
  {
    FirstSpan(s, 0);
    TokensNonEmpty(s);
    if Spans(s, 0) != [] {
      var sp := Spans(s, 0)[0];
      assert CommandToken(s) == s[sp.beg..sp.end];
    }
  }

  // ---------------------------------------------------------------- numbers

  function DigitChar(d: nat): char
    requires d < 10
  {
    "0123456789"[d]
  }

  predicate IsDigit(c: char) { '0' <= c <= '9' }

  function DigitValue(c: char): nat
    requires IsDigit(c)
  {
    (c as int - '0' as int) as nat
  }

  /** Decimal rendering of a natural number, as `%i` prints it. */
  function NatToString(n: nat): (r: string)
    ensures |r| > 0
    ensures forall k :: 0 <= k < |r| ==> IsDigit(r[k])
    decreases n
  {
    if n < 10 then [DigitChar(n)] else NatToString(n / 10) + [DigitChar(n % 10)]
  }

  /** Value of a string of decimal digits. */
  function DigitsValue(s: string): nat
    requires forall k :: 0 <= k < |s| ==> IsDigit(s[k])
  {
    if s == [] then 0 else DigitsValue(s[..|s| - 1]) * 10 + DigitValue(s[|s| - 1])
  }

  predicate AllDigits(s: string) { |s| > 0 && forall k :: 0 <= k < |s| ==> IsDigit(s[k]) }

  const Int32Min: int := -0x8000_0000
  const Int32Max: int := 0x7FFF_FFFF

  /**
   * `to_int32` of a token: an optional '-' followed by one or more decimal
   * digits, the whole token, with a value in the 32-bit range.
   */
  function ParseInt32(t: string): (r: Option<int>)
    ensures r.Some? ==> Int32Min <= r.value <= Int32Max
    ensures r.Some? ==> AllDigits(t) || (|t| > 0 && t[0] == '-' && AllDigits(t[1..]))
    ensures AllDigits(t) && DigitsValue(t) <= Int32Max ==> r == Some(DigitsValue(t))
    ensures AllDigits(t) && DigitsValue(t) > Int32Max ==> r.None?
    ensures |t| > 0 && t[0] == '-' && AllDigits(t[1..]) && Int32Min <= -(DigitsValue(t[1..]) as int)
            ==> r == Some(-(DigitsValue(t[1..]) as int))
    ensures |t| > 0 && t[0] == '-' && AllDigits(t[1..]) && -(DigitsValue(t[1..]) as int) < Int32Min
            ==> r.None?
  {
    if AllDigits(t) then
      var v := DigitsValue(t);
      if v <= Int32Max then Some(v) else None
    else if |t| > 0 && t[0] == '-' && AllDigits(t[1..]) then
      var v := -(DigitsValue(t[1..]) as int);
      if Int32Min <= v then Some(v) else None
    else None
  }

  lemma {:induction false} DigitsValueOfNatToString(n: nat)
    ensures DigitsValue(NatToString(n)) == n
    decreases n
  {
    var s := NatToString(n);
    if n < 10 {
      assert s[..|s| - 1] == [];
    } else {
      DigitsValueOfNatToString(n / 10);
      assert s[..|s| - 1] == NatToString(n / 10);
    }
  }

  /** Formatting an index with `%i` and parsing it back gives the index. */
  lemma ParseInt32OfNatToString(n: nat)
    requires n <= Int32Max
    ensures ParseInt32(NatToString(n)) == Some(n)
  {
    DigitsValueOfNatToString(n);
  }

  /** The first `cap - 1` characters: what `snprintf` keeps in a `cap`-byte buffer. */
  function Bounded(s: string, cap: nat): (r: string)
    requires cap > 0
    ensures |r| <= cap - 1
    ensures r <= s
    ensures |s| < cap ==> r == s
    ensures |s| >= cap ==> |r| == cap - 1
  {
    if |s| < cap then s else s[..cap - 1]
  }
}
