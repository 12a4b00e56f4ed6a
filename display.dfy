/** The string transforms applied to the figures before display: thousands
    grouping of the client count (`f"{n:,}"` with `,` then replaced by `.`),
    and the swap of `,` and `.` done through an `X` placeholder. */
module Display {

  predicate IsDigit(ch: char)
  {
    '0' <= ch <= '9'
  }

  function DigitChar(d: nat): (ch: char)
    requires d < 10
    ensures IsDigit(ch)
    ensures ch as int - '0' as int == d
  {
    ('0' as int + d) as char
  }

  /** The decimal digits of `n`, most significant first, without leading zeros. */
  function Digits(n: nat): (s: string)
    ensures |s| >= 1
    ensures forall i :: 0 <= i < |s| ==> IsDigit(s[i])
    ensures |s| > 1 ==> s[0] != '0'
  {
    if n < 10 then [DigitChar(n)]
    else Digits(n / 10) + [DigitChar(n % 10)]
  }

  /** The number a string of decimal digits denotes. */
  function DigitsValue(s: string): nat
    requires forall i :: 0 <= i < |s| ==> IsDigit(s[i])
  {
    if s == [] then 0
    else
      assert IsDigit(s[|s| - 1]);
      DigitsValue(s[..|s| - 1]) * 10 + (s[|s| - 1] as int - '0' as int)
  }

  lemma {:induction false} DigitsRoundTrip(n: nat)
    ensures DigitsValue(Digits(n)) == n
  {
    if n >= 10 {
      DigitsRoundTrip(n / 10);
      var s := Digits(n);
      assert s[..|s| - 1] == Digits(n / 10);
    }
  }

  /** Python's `,` format option on a digit string: `sep` before every group
      of three digits counted from the right. */
  function GroupThousands(ds: string, sep: char): (g: string)
    ensures |g| >= |ds|
    decreases |ds|
  {
    if |ds| <= 3 then ds
    else GroupThousands(ds[..|ds| - 3], sep) + [sep] + ds[|ds| - 3..]
  }

  /** Grouping adds one separator per complete group of three digits after
      the first group. */
  lemma {:induction false} GroupThousandsLength(ds: string, sep: char)
    requires |ds| >= 1
    ensures |GroupThousands(ds, sep)| == |ds| + (|ds| - 1) / 3
    decreases |ds|
  {
    if |ds| > 3 {
      GroupThousandsLength(ds[..|ds| - 3], sep);
    }
  }

  /** One unfolding of the grouping keeps the separator at the positions
      that are 3 modulo 4, counted from the right, if the shorter grouping did. */
  lemma SeparatorAtStep(gf: string, sep: char, back: string, i: nat)
    requires |back| == 3 && sep !in back && i < |gf| + 4
    requires i >= 4 ==> (gf[|gf| - 1 - (i - 4)] == sep <==> (i - 4) % 4 == 3)
    ensures var g := gf + [sep] + back;
      g[|g| - 1 - i] == sep <==> i % 4 == 3
  {
    var g := gf + [sep] + back;
    if i < 3 {
      assert g[|g| - 1 - i] == back[2 - i];
      assert back[2 - i] in back;
    } else if i > 3 {
      assert g[|g| - 1 - i] == gf[|gf| - 1 - (i - 4)];
      ModFourShift(i);
    }
  }

  lemma ModFourShift(i: nat)
    requires i >= 4
    ensures (i - 4) % 4 == i % 4
  {
  }

  /** A group of at most three digits holds no separator. */
  lemma SeparatorAtShort(ds: string, sep: char, i: nat)
    requires sep !in ds && |ds| <= 3 && i < |ds|
    ensures var g := GroupThousands(ds, sep);
      g[|g| - 1 - i] == sep <==> i % 4 == 3
  {
    assert ds[|ds| - 1 - i] in ds;
  }

  lemma {:induction false} SeparatorAt(ds: string, sep: char, i: nat)
    requires sep !in ds && i < |GroupThousands(ds, sep)|
    ensures var g := GroupThousands(ds, sep);
      g[|g| - 1 - i] == sep <==> i % 4 == 3
    decreases |ds|
  {
    if |ds| <= 3 {
      SeparatorAtShort(ds, sep, i);
    } else {
      var front := ds[..|ds| - 3];
      var back := ds[|ds| - 3..];
      GroupThousandsUnfold(ds, sep);
      AbsentFromSlices(ds, sep, |ds| - 3);
      if i >= 4 {
        SeparatorAt(front, sep, i - 4);
      }
      SeparatorAtStep(GroupThousands(front, sep), sep, back, i);
    }
  }

  /** Counting from the right, the separator stands exactly at every fourth
      position: after each complete group of three digits. */
  lemma SeparatorPositions(ds: string, sep: char)
    requires sep !in ds
    ensures var g := GroupThousands(ds, sep);
      forall i :: 0 <= i < |g| ==> (g[|g| - 1 - i] == sep <==> i % 4 == 3)
  {
    var g := GroupThousands(ds, sep);
    forall i | 0 <= i < |g| ensures g[|g| - 1 - i] == sep <==> i % 4 == 3 {
      SeparatorAt(ds, sep, i);
    }
  }

  /** `s` with every occurrence of `ch` deleted. */
  function RemoveChar(s: string, ch: char): string
  {
    if s == [] then []
    else if s[0] == ch then RemoveChar(s[1..], ch)
    else [s[0]] + RemoveChar(s[1..], ch)
  }

  lemma {:induction false} RemoveCharAppend(a: string, b: string, ch: char)
    ensures RemoveChar(a + b, ch) == RemoveChar(a, ch) + RemoveChar(b, ch)
  {
    if a == [] {
      assert a + b == b;
    } else {
      assert (a + b)[0] == a[0];
      assert (a + b)[1..] == a[1..] + b;
      RemoveCharAppend(a[1..], b, ch);
      if a[0] != ch {
        assert [a[0]] + (RemoveChar(a[1..], ch) + RemoveChar(b, ch))
            == ([a[0]] + RemoveChar(a[1..], ch)) + RemoveChar(b, ch);
      }
    }
  }

  lemma {:induction false} RemoveAbsentChar(s: string, ch: char)
    requires ch !in s
    ensures RemoveChar(s, ch) == s
  {
    if s != [] {
      assert ch !in s[1..] by {
        forall k | 0 <= k < |s[1..]| ensures s[1..][k] != ch { assert s[1..][k] == s[k + 1]; }
      }
      RemoveAbsentChar(s[1..], ch);
      assert s == [s[0]] + s[1..];
    }
  }

  lemma AbsentFromSlices(ds: string, ch: char, k: nat)
    requires ch !in ds && k <= |ds|
    ensures ch !in ds[..k] && ch !in ds[k..]
  {
    forall m | 0 <= m < k ensures ds[..k][m] != ch { assert ds[..k][m] == ds[m]; }
    forall m | 0 <= m < |ds| - k ensures ds[k..][m] != ch { assert ds[k..][m] == ds[k + m]; }
  }

  lemma GroupThousandsUnfold(ds: string, sep: char)
    requires |ds| > 3
    ensures GroupThousands(ds, sep) == GroupThousands(ds[..|ds| - 3], sep) + [sep] + ds[|ds| - 3..]
  {
  }

  lemma RemoveAroundChar(a: string, b: string, ch: char)
    requires ch !in b
    ensures RemoveChar(a + [ch] + b, ch) == RemoveChar(a, ch) + b
  {
    RemoveCharAppend(a + [ch], b, ch);
    RemoveCharAppend(a, [ch], ch);
    assert RemoveChar([ch], ch) == [] by { assert [ch][1..] == []; }
    RemoveAbsentChar(b, ch);
    assert RemoveChar(a + [ch] + b, ch) == RemoveChar(a, ch) + [] + b;
    assert RemoveChar(a, ch) + [] + b == RemoveChar(a, ch) + b;
  }

  /** Deleting the separators gives back the digits. */
  lemma {:induction false} UngroupThousands(ds: string, sep: char)
    requires sep !in ds
    ensures RemoveChar(GroupThousands(ds, sep), sep) == ds
    decreases |ds|
  {
    if |ds| <= 3 {
      RemoveAbsentChar(ds, sep);
    } else {
      var front := ds[..|ds| - 3];
      var back := ds[|ds| - 3..];
      AbsentFromSlices(ds, sep, |ds| - 3);
      UngroupThousands(front, sep);
      GroupThousandsUnfold(ds, sep);
      RemoveAroundChar(GroupThousands(front, sep), back, sep);
      assert front + back == ds;
    }
  }

  /** `s.replace(a, b)` for one-character arguments. */
  function ReplaceChar(s: string, a: char, b: char): (r: string)
    ensures |r| == |s|
    ensures forall i :: 0 <= i < |s| ==> r[i] == if s[i] == a then b else s[i]
  {
    if s == [] then []
    else [if s[0] == a then b else s[0]] + ReplaceChar(s[1..], a, b)
  }

  /** Replacing the separator of a grouped digit string is grouping with the
      other separator. */
  lemma {:induction false} ReplaceSeparator(ds: string, a: char, b: char)
    requires a !in ds && b !in ds
    ensures ReplaceChar(GroupThousands(ds, a), a, b) == GroupThousands(ds, b)
    decreases |ds|
  {
    if |ds| > 3 {
      var front := ds[..|ds| - 3];
      AbsentFromSlices(ds, a, |ds| - 3);
      AbsentFromSlices(ds, b, |ds| - 3);
      ReplaceSeparator(front, a, b);
    }
  }

  /** The client-count metric: `f"{n:,}".replace(",", ".")`. */
  function CountDisplay(n: nat): string
  {
    ReplaceChar(GroupThousands(Digits(n), ','), ',', '.')
  }

  /** The count is shown as its decimal digits grouped by `.` every three
      digits from the right, and deleting the dots gives back the digits. */
  lemma CountDisplayGrouping(n: nat)
    ensures CountDisplay(n) == GroupThousands(Digits(n), '.')
    ensures RemoveChar(CountDisplay(n), '.') == Digits(n)
    ensures DigitsValue(RemoveChar(CountDisplay(n), '.')) == n
    ensures var s := CountDisplay(n);
      forall i :: 0 <= i < |s| ==> (s[|s| - 1 - i] == '.' <==> i % 4 == 3)
  {
    var ds := Digits(n);
    assert ',' !in ds && '.' !in ds by {
      forall k | 0 <= k < |ds| ensures ds[k] != ',' && ds[k] != '.' { assert IsDigit(ds[k]); }
    }
    ReplaceSeparator(ds, ',', '.');
    UngroupThousands(ds, '.');
    DigitsRoundTrip(n);
    SeparatorPositions(ds, '.');
  }

  /** The three chained replaces of the credit total: `,` to `X`, `.` to `,`,
      then `X` to `.`. */
  function BrazilianSeparators(s: string): string
  {
    ReplaceChar(ReplaceChar(ReplaceChar(s, ',', 'X'), '.', ','), 'X', '.')
  }

  /** Reference definition: exchange `,` and `.` in one pass. */
  function SwapSeparators(s: string): (r: string)
    ensures |r| == |s|
  {
    if s == [] then []
    else [if s[0] == ',' then '.' else if s[0] == '.' then ',' else s[0]] + SwapSeparators(s[1..])
  }

  lemma {:induction false} SwapSeparatorsAt(s: string, i: nat)
    requires i < |s|
    ensures SwapSeparators(s)[i] == if s[i] == ',' then '.' else if s[i] == '.' then ',' else s[i]
  {
    if i > 0 { SwapSeparatorsAt(s[1..], i - 1); }
  }

  /** What the chain does to each character: `,` and `X` become `.`, `.`
      becomes `,`, everything else stays. */
  lemma BrazilianSeparatorsAt(s: string)
    ensures var r := BrazilianSeparators(s);
      && |r| == |s|
      && forall i :: 0 <= i < |s| ==>
           r[i] == if s[i] == ',' || s[i] == 'X' then '.' else if s[i] == '.' then ',' else s[i]
  {
  }

  /** On a string without `X` the chain is the simultaneous swap of `,` and `.`. */
  lemma BrazilianSeparatorsSwap(s: string)
    requires 'X' !in s
    ensures BrazilianSeparators(s) == SwapSeparators(s)
  {
    var r := BrazilianSeparators(s);
    BrazilianSeparatorsAt(s);
    forall i | 0 <= i < |s| ensures r[i] == SwapSeparators(s)[i] {
      SwapSeparatorsAt(s, i);
    }
  }

  /** On a string without `X`, applying the chain twice gives the string back. */
  lemma BrazilianSeparatorsInvolution(s: string)
    requires 'X' !in s
    ensures BrazilianSeparators(BrazilianSeparators(s)) == s
  {
    var r := BrazilianSeparators(s);
    BrazilianSeparatorsAt(s);
    assert 'X' !in r by {
      forall i | 0 <= i < |r| ensures r[i] != 'X' { assert s[i] != 'X'; }
    }
    BrazilianSeparatorsAt(r);
  }
}
