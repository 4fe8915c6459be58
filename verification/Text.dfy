/** Delimiter-joined records, and the code-unit order on strings. */
module Text {

  /** Array.prototype.join with a one-character separator. */
  function Join(fields: seq<string>, d: char): string
    requires |fields| > 0
  {
    if |fields| == 1 then fields[0] else fields[0] + [d] + Join(fields[1..], d)
  }

  predicate Free(s: string, d: char) { d !in s }

  predicate AllFree(fields: seq<string>, d: char) { forall i :: 0 <= i < |fields| ==> Free(fields[i], d) }

  function Count(s: string, d: char): nat {
    if s == "" then 0 else (if s[0] == d then 1 else 0) + Count(s[1..], d)
  }

  function CountAll(fields: seq<string>, d: char): nat {
    if fields == [] then 0 else Count(fields[0], d) + CountAll(fields[1..], d)
  }

  lemma {:induction false} CountConcat(a: string, b: string, d: char)
    ensures Count(a + b, d) == Count(a, d) + Count(b, d)
  {
    if a == "" {
      assert a + b == b;
    } else {
      assert (a + b)[1..] == a[1..] + b;
      CountConcat(a[1..], b, d);
    }
  }

  lemma {:induction false} CountFree(s: string, d: char)
    ensures Count(s, d) == 0 <==> Free(s, d)
  {
    if s != "" {
      CountFree(s[1..], d);
      assert s == [s[0]] + s[1..];
    }
  }

  lemma {:induction false} CountAllFree(fields: seq<string>, d: char)
    ensures CountAll(fields, d) == 0 <==> AllFree(fields, d)
  {
    if fields != [] {
      CountFree(fields[0], d);
      CountAllFree(fields[1..], d);
      assert forall i :: 0 < i < |fields| ==> fields[i] == fields[1..][i - 1];
      assert AllFree(fields[1..], d) ==> forall i :: 0 < i < |fields| ==> Free(fields[i], d);
      assert AllFree(fields, d) ==> forall i :: 0 <= i < |fields[1..]| ==> fields[1..][i] == fields[i + 1];
    }
  }

  lemma {:induction false} CountJoin(fields: seq<string>, d: char)
    requires |fields| > 0
    ensures Count(Join(fields, d), d) == |fields| - 1 + CountAll(fields, d)
  {
    if |fields| == 1 {
      assert fields[1..] == [];
    } else {
      CountJoin(fields[1..], d);
      CountConcat(fields[0] + [d], Join(fields[1..], d), d);
      CountConcat(fields[0], [d], d);
      assert [d][1..] == "";
    }
  }

  lemma {:induction false} JoinInjective(f: seq<string>, g: seq<string>, d: char)
    requires |f| == |g| > 0 && AllFree(f, d) && AllFree(g, d)
    requires Join(f, d) == Join(g, d)
    ensures f == g
  {
    if |f| > 1 {
      var s := Join(f, d);
      assert s == f[0] + [d] + Join(f[1..], d);
      assert s == g[0] + [d] + Join(g[1..], d);
      assert s[|f[0]|] == d && s[|g[0]|] == d;
      assert |f[0]| <= |g[0]| && |g[0]| <= |f[0]| by {
        assert Free(f[0], d) && Free(g[0], d);
        assert forall k :: 0 <= k < |f[0]| ==> s[k] == f[0][k];
        assert forall k :: 0 <= k < |g[0]| ==> s[k] == g[0][k];
      }
      assert f[0] == s[..|f[0]|] == g[0];
      assert Join(f[1..], d) == s[|f[0]| + 1..] == Join(g[1..], d);
      JoinInjective(f[1..], g[1..], d);
      assert f == [f[0]] + f[1..] && g == [g[0]] + g[1..];
    }
  }

  /** A joined record determines its fields as soon as the fields are delimiter-free. */
  lemma {:induction false} FreeRecordsAreDetermined(f: seq<string>, g: seq<string>, d: char)
    requires |f| == |g| > 0 && AllFree(f, d)
    requires Join(f, d) == Join(g, d)
    ensures f == g
  {
    CountJoin(f, d);
    CountJoin(g, d);
    CountAllFree(f, d);
    CountAllFree(g, d);
    JoinInjective(f, g, d);
  }

  lemma {:induction false} JoinConcat(f: seq<string>, g: seq<string>, d: char)
    requires |f| > 0 && |g| > 0
    ensures Join(f + g, d) == Join(f, d) + [d] + Join(g, d)
  {
    if |f| == 1 {
      assert (f + g)[1..] == g;
    } else {
      assert (f + g)[1..] == f[1..] + g;
      JoinConcat(f[1..], g, d);
      assert Join(f + g, d) == f[0] + [d] + (Join(f[1..], d) + [d] + Join(g, d));
    }
  }

  lemma {:induction false} JoinPair(a: string, b: string, d: char)
    ensures Join([a, b], d) == a + [d] + b
  {
    assert [a, b][1..] == [b];
  }

  /** Two middle fields may be replaced by any pair with the same joined text. */
  lemma {:induction false} JoinReplacePair(pre: seq<string>, p: seq<string>, q: seq<string>, post: seq<string>, d: char)
    requires |p| == |q| == 2 && Join(p, d) == Join(q, d)
    ensures Join(pre + p + post, d) == Join(pre + q + post, d)
  {
    if post == [] {
      assert pre + p + post == pre + p && pre + q + post == pre + q;
    } else {
      JoinConcat(pre + p, post, d);
      JoinConcat(pre + q, post, d);
    }
    if pre == [] {
      assert pre + p == p && pre + q == q;
    } else {
      JoinConcat(pre, p, d);
      JoinConcat(pre, q, d);
    }
  }

  /** Whenever some field holds a delimiter, another record of the same width has the same text. */
  lemma {:induction false} DelimiterHidesBoundary(f: seq<string>, d: char) returns (g: seq<string>)
    requires |f| >= 2 && !AllFree(f, d)
    ensures |g| == |f| && g != f && Join(g, d) == Join(f, d)
  {
    var i :| 0 <= i < |f| && !Free(f[i], d);
    var p :| 0 <= p < |f[i]| && f[i][p] == d;
    var a, b := f[i][..p], f[i][p + 1..];
    assert f[i] == a + [d] + b;
    if i + 1 < |f| {
      var old2, new2 := [f[i], f[i + 1]], [a, b + [d] + f[i + 1]];
      JoinPair(f[i], f[i + 1], d);
      JoinPair(a, b + [d] + f[i + 1], d);
      assert a + [d] + b + [d] + f[i + 1] == a + [d] + (b + [d] + f[i + 1]);
      JoinReplacePair(f[..i], old2, new2, f[i + 2..], d);
      assert f == f[..i] + old2 + f[i + 2..];
      g := f[..i] + new2 + f[i + 2..];
      assert g[i] == a;
    } else {
      var old2, new2 := [f[i - 1], f[i]], [f[i - 1] + [d] + a, b];
      JoinPair(f[i - 1], f[i], d);
      JoinPair(f[i - 1] + [d] + a, b, d);
      assert f[i - 1] + [d] + (a + [d] + b) == f[i - 1] + [d] + a + [d] + b;
      JoinReplacePair(f[..i - 1], old2, new2, [], d);
      assert f == f[..i - 1] + old2 + [];
      g := f[..i - 1] + new2 + [];
      assert g[i] == b;
    }
  }

  /**
   * Exactly when a joined record can be read back: no other record of the same
   * width has the same text, if and only if no field contains the delimiter.
   */
  lemma {:induction false} DeterminedIffFree(f: seq<string>, d: char)
    requires |f| >= 2
    ensures (forall g: seq<string> :: |g| == |f| && Join(g, d) == Join(f, d) ==> g == f) <==> AllFree(f, d)
  {
    if AllFree(f, d) {
      forall g: seq<string> | |g| == |f| && Join(g, d) == Join(f, d) ensures g == f {
        FreeRecordsAreDetermined(f, g, d);
      }
    } else {
      var g := DelimiterHidesBoundary(f, d);
    }
  }

  /** The `<` of JavaScript strings, by code unit. */
  predicate StrLess(a: string, b: string) {
    b != "" && (a == "" || a[0] < b[0] || (a[0] == b[0] && StrLess(a[1..], b[1..])))
  }

  lemma {:induction false} StrLessTotal(a: string, b: string)
    ensures a == b || StrLess(a, b) || StrLess(b, a)
    ensures !(StrLess(a, b) && StrLess(b, a))
    ensures a == b ==> !StrLess(a, b)
  {
    if a != "" && b != "" {
      StrLessTotal(a[1..], b[1..]);
      assert a == [a[0]] + a[1..] && b == [b[0]] + b[1..];
    }
  }

  lemma {:induction false} StrLessTransitive(a: string, b: string, c: string)
    requires StrLess(a, b) && StrLess(b, c)
    ensures StrLess(a, c)
  {
    if a != "" && a[0] == b[0] == c[0] {
      StrLessTransitive(a[1..], b[1..], c[1..]);
    }
  }

  /** Decimal rendering of a sequence number. */
  function Decimal(n: int): (s: string)
    ensures s != "" && Free(s, '|')
    decreases if n < 0 then 1 - n else n
  {
    if n < 0 then "-" + Decimal(-n)
    else if n < 10 then [Digit(n)]
    else Decimal(n / 10) + [Digit(n % 10)]
  }

  function Digit(n: int): char
    requires 0 <= n < 10
  {
    '0' + n as char
  }

  lemma {:induction false} DecimalNonNegative(n: nat)
    ensures Decimal(n)[0] != '-'
  {
    if n >= 10 {
      DecimalNonNegative(n / 10);
    }
  }

  /** Different sequence numbers have different renderings. */
  lemma {:induction false} DecimalInjective(m: int, n: int)
    requires Decimal(m) == Decimal(n)
    ensures m == n
    decreases if m < 0 then 1 - m else m
  {
    if m < 0 || n < 0 {
      if m >= 0 { DecimalNonNegative(m); }
      if n >= 0 { DecimalNonNegative(n); }
      assert Decimal(m)[1..] == Decimal(-m) && Decimal(n)[1..] == Decimal(-n);
      DecimalInjective(-m, -n);
    } else if m >= 10 && n >= 10 {
      var s := Decimal(m);
      assert s[..|s| - 1] == Decimal(m / 10) && s[..|s| - 1] == Decimal(n / 10);
      assert s[|s| - 1] == Digit(m % 10) == Digit(n % 10);
      DecimalInjective(m / 10, n / 10);
    }
  }

  /** The number a decimal numeral stands for, read from the left. */
  function Reading(s: string): int {
    if s == "" then 0
    else if s[0] == '-' then -Reading(s[1..])
    else 10 * Reading(s[..|s| - 1]) + (s[|s| - 1] as int - '0' as int)
  }

  /** Rendering a sequence number and reading it gives it back. */
  lemma {:induction false} DecimalReads(n: int)
    ensures Reading(Decimal(n)) == n
    decreases if n < 0 then 1 - n else n
  {
    if n < 0 {
      assert Decimal(n)[1..] == Decimal(-n);
      DecimalReads(-n);
    } else {
      DecimalNonNegative(n);
      if n >= 10 {
        DecimalReads(n / 10);
        assert Decimal(n)[..|Decimal(n)| - 1] == Decimal(n / 10);
      } else {
        assert Decimal(n)[..0] == "";
      }
    }
  }

  /** a is less than b exactly if b goes on where a ends, or the first character in which they differ is less in a. */
  lemma {:induction false} StrLessIff(a: string, b: string)
    ensures StrLess(a, b) <==>
            exists k :: 0 <= k <= |a| && k < |b| && a[..k] == b[..k] && (k == |a| || a[k] < b[k])
  {
    if a != "" && b != "" && a[0] == b[0] {
      var x, y := a[1..], b[1..];
      StrLessIff(x, y);
      if StrLess(x, y) {
        var k :| 0 <= k <= |x| && k < |y| && x[..k] == y[..k] && (k == |x| || x[k] < y[k]);
        assert a[..k + 1] == [a[0]] + x[..k] && b[..k + 1] == [b[0]] + y[..k];
      }
      forall k | 0 <= k <= |a| && k < |b| && a[..k] == b[..k] && (k == |a| || a[k] < b[k]) ensures StrLess(x, y) {
        assert k > 0;
        assert x[..k - 1] == a[..k][1..] && y[..k - 1] == b[..k][1..];
      }
    } else if b != "" && (a == "" || a[0] < b[0]) {
      assert a[..0] == b[..0];
    } else if k :| 0 < k <= |a| && k < |b| && a[..k] == b[..k] {
      SameHead(a, b, k);
      assert false;
    }
  }

  lemma SameHead(a: string, b: string, k: nat)
    requires 0 < k <= |a| && k <= |b| && a[..k] == b[..k]
    ensures a[0] == b[0]
  {
    assert a[..k][0] == b[..k][0];
  }
}
