/**
 * The few Kotlin/JVM string operations the agent relies on, with the
 * semantics of the Kotlin standard library: `isBlank`, `trim`,
 * `startsWith`, `endsWith`, `contains`, `indexOf`, `replace`, `lowercase`,
 * the decimal rendering of an `Int` in a string template, and
 * `toInt`/`toLong`, which throw (here: return None) on malformed input.
 */
module KotlinText {
  import opened Wrappers

  /** Kotlin's `Char.isWhitespace`: Java's `Character.isWhitespace` or `Character.isSpaceChar`. */
  predicate IsWhitespace(c: char) {
    || c == '\t' || c == '\n' || c == '\U{000B}' || c == '\U{000C}' || c == '\r'
    || ('\U{001C}' <= c <= ' ')
    || c == '\U{00A0}' || c == '\U{1680}'
    || ('\U{2000}' <= c <= '\U{200A}')
    || c == '\U{2028}' || c == '\U{2029}' || c == '\U{202F}' || c == '\U{205F}' || c == '\U{3000}'
  }

  /** `CharSequence.isBlank()`: empty or only whitespace. */
  predicate IsBlank(s: string) {
    forall i :: 0 <= i < |s| ==> IsWhitespace(s[i])
  }

  /** `CharSequence?.isNullOrBlank()`. */
  predicate IsNullOrBlank(s: Option<string>) {
    s.None? || IsBlank(s.value)
  }

  predicate StartsWith(s: string, prefix: string) {
    |prefix| <= |s| && s[..|prefix|] == prefix
  }

  predicate EndsWith(s: string, suffix: string) {
    |suffix| <= |s| && s[|s| - |suffix|..] == suffix
  }

  /** `CharSequence.contains(other)`: `sub` occurs at some offset of `s`. */
  predicate Contains(s: string, sub: string)
    decreases |s|
  {
    StartsWith(s, sub) || (|s| > 0 && Contains(s[1..], sub))
  }

  lemma {:induction false} ContainsInMiddle(a: string, sub: string, b: string)
    ensures Contains(a + sub + b, sub)
    decreases |a|
  {
    if a == [] {
      assert (a + sub + b)[..|sub|] == sub;
    } else {
      assert (a + sub + b)[1..] == a[1..] + sub + b;
      ContainsInMiddle(a[1..], sub, b);
    }
  }

  /** A text without the first character of `sub` cannot contain `sub`. */
  lemma {:induction false} NotContainsWithoutHead(s: string, sub: string)
    requires |sub| > 0 && sub[0] !in s
    ensures !Contains(s, sub)
    decreases |s|
  {
    if |s| > 0 {
      assert s[0] != sub[0];
      NotContainsWithoutHead(s[1..], sub);
    }
  }

  /** `String.indexOf(c)`: the first index of `c`, or -1. */
  function IndexOf(s: string, c: char): (r: int)
    ensures -1 <= r < |s|
    ensures r == -1 <==> c !in s
    ensures r >= 0 ==> s[r] == c && c !in s[..r]
    ensures forall j :: 0 <= j < |s| && s[j] == c ==> 0 <= r <= j
  {
    if |s| == 0 then -1
    else if s[0] == c then 0
    else
      var k := IndexOf(s[1..], c);
      if k == -1 then -1 else (assert s[..k + 1] == [s[0]] + s[1..][..k]; k + 1)
  }

  /** The first occurrence of `c` in `a + [c] + b` is right after `a` when `a` has none. */
  lemma IndexOfAfter(a: string, c: char, b: string)
    requires c !in a
    ensures IndexOf(a + [c] + b, c) == |a|
  {
    var s := a + [c] + b;
    assert s[|a|] == c;
    assert forall j :: 0 <= j < |a| ==> s[j] == a[j];
  }

  function TrimStart(s: string): (r: string)
    ensures |r| <= |s| && r == s[|s| - |r|..]
    ensures forall i :: 0 <= i < |s| - |r| ==> IsWhitespace(s[i])
    ensures r == [] || !IsWhitespace(r[0])
  {
    if |s| > 0 && IsWhitespace(s[0]) then
      var r := TrimStart(s[1..]);
      TrimmedStartStep(s, r);
      r
    else s
  }

  /** The recursive case of `TrimStart`: the dropped leading whitespace character joins the dropped prefix. */
  lemma TrimmedStartStep(s: string, r: string)
    requires |s| > 0 && IsWhitespace(s[0])
    requires |r| <= |s| - 1 && r == s[1..][|s| - 1 - |r|..]
    requires forall i :: 0 <= i < |s| - 1 - |r| ==> IsWhitespace(s[1..][i])
    ensures r == s[|s| - |r|..]
    ensures forall i :: 0 <= i < |s| - |r| ==> IsWhitespace(s[i])
  {
    assert s[1..][|s| - 1 - |r|..] == s[|s| - |r|..];
    forall i | 0 < i < |s| - |r| ensures IsWhitespace(s[i]) {
      assert s[i] == s[1..][i - 1];
    }
  }

  function TrimEnd(s: string): (r: string)
    ensures |r| <= |s| && r == s[..|r|]
    ensures forall i :: |r| <= i < |s| ==> IsWhitespace(s[i])
    ensures r == [] || !IsWhitespace(r[|r| - 1])
  {
    if |s| > 0 && IsWhitespace(s[|s| - 1]) then TrimEnd(s[..|s| - 1]) else s
  }

  /** `r` occurs in `s` at offset `i`. */
  predicate IsSliceAt(r: string, s: string, i: int) {
    0 <= i <= |s| - |r| && r == s[i..i + |r|]
  }

  /** `r` occurs in `s` at offset `i`, and everything around it in `s` is whitespace. */
  predicate IsTrimmedAt(r: string, s: string, i: int) {
    && IsSliceAt(r, s, i)
    && (forall k :: 0 <= k < i ==> IsWhitespace(s[k]))
    && (forall k :: i + |r| <= k < |s| ==> IsWhitespace(s[k]))
  }

  /** `String.trim()`: drops leading and trailing whitespace, and nothing else. */
  function Trim(s: string): (r: string)
    ensures exists i :: IsTrimmedAt(r, s, i)
    ensures r == [] || (!IsWhitespace(r[0]) && !IsWhitespace(r[|r| - 1]))
  {
    TrimmedBothEnds(s);
    TrimmedEnds(s);
    var r := TrimEnd(TrimStart(s));
    assert IsTrimmedAt(r, s, |s| - |TrimStart(s)|);
    r
  }

  lemma TrimmedBothEnds(s: string)
    ensures IsTrimmedAt(TrimEnd(TrimStart(s)), s, |s| - |TrimStart(s)|)
  {
    var t := TrimStart(s);
    var i := |s| - |t|;
    TrimmedInside(s, i, t, TrimEnd(t));
  }

  /** Both trims leave no whitespace at either end. */
  lemma TrimmedEnds(s: string)
    ensures var r := TrimEnd(TrimStart(s)); r == [] || (!IsWhitespace(r[0]) && !IsWhitespace(r[|r| - 1]))
  {
    var t := TrimStart(s);
    var r := TrimEnd(t);
    if r != [] {
      assert r[0] == t[0];
    }
  }

  /** Trimming adds no character: one absent from `s` is absent from `Trim(s)`. */
  lemma TrimOmits(s: string, c: char)
    requires c !in s
    ensures c !in Trim(s)
  {
    var r := Trim(s);
    var i :| IsTrimmedAt(r, s, i);
    SliceOmits(r, s, i, c);
  }

  /** A slice of `s` holds no character that `s` lacks. */
  lemma SliceOmits(r: string, s: string, i: int, c: char)
    requires IsSliceAt(r, s, i) && c !in s
    ensures c !in r
  {
    forall k | 0 <= k < |r| ensures r[k] != c {
      assert r[k] == s[i + k];
    }
  }


  /**
   * A prefix `r` of the suffix `t == s[i..]`, with only whitespace before `t`
   * in `s` and after `r` in `t`, is `s` trimmed at `i`.
   */
  lemma TrimmedInside(s: string, i: int, t: string, r: string)
    requires 0 <= i <= |s| && t == s[i..]
    requires forall k :: 0 <= k < i ==> IsWhitespace(s[k])
    requires |r| <= |t| && r == t[..|r|]
    requires forall k :: |r| <= k < |t| ==> IsWhitespace(t[k])
    ensures IsTrimmedAt(r, s, i)
  {
    assert s[i..i + |r|] == t[..|r|];
    forall k | i + |r| <= k < |s| ensures IsWhitespace(s[k]) {
      assert s[k] == t[k - i];
    }
  }

  /** `String.replace(c.toString(), "")`: every occurrence of `c` removed, the rest kept in order. */
  function RemoveChar(s: string, c: char): (r: string)
    ensures c !in r
    ensures forall x :: x != c ==> multiset(r)[x] == multiset(s)[x]
    ensures c !in s ==> r == s
  {
    if s == [] then []
    else
      var rest := RemoveChar(s[1..], c);
      var r := (if s[0] == c then [] else [s[0]]) + rest;
      RemovedAfterHead(s, c, rest, r);
      r
  }

  /** The recursive case of `RemoveChar`: the head, kept or dropped, before the tail's removal. */
  lemma RemovedAfterHead(s: string, c: char, rest: string, r: string)
    requires s != [] && c !in rest
    requires forall x :: x != c ==> multiset(rest)[x] == multiset(s[1..])[x]
    requires c !in s[1..] ==> rest == s[1..]
    requires r == (if s[0] == c then [] else [s[0]]) + rest
    ensures c !in r
    ensures forall x :: x != c ==> multiset(r)[x] == multiset(s)[x]
    ensures c !in s ==> r == s
  {
    assert s == [s[0]] + s[1..];
    assert multiset(s) == multiset([s[0]]) + multiset(s[1..]);
  }

  /** Removing `c` adds no character: one absent from `s` is absent from the result. */
  lemma RemoveCharOmits(s: string, c: char, d: char)
    requires d !in s
    ensures d !in RemoveChar(s, c)
  {
    if d != c {
      assert multiset(RemoveChar(s, c))[d] == multiset(s)[d];
    }
  }

  /** Removal works piece by piece, so the characters kept stay in their order. */
  lemma RemoveCharAppend(a: string, b: string, c: char)
    ensures RemoveChar(a + b, c) == RemoveChar(a, c) + RemoveChar(b, c)
    ensures forall x :: RemoveChar([x], c) == if x == c then [] else [x]
  {
    RemoveCharConcat(a, b, c);
    forall x ensures RemoveChar([x], c) == if x == c then [] else [x] {
      assert [x][1..] == [];
    }
  }

  /** The induction behind `RemoveCharAppend`, over the first piece. */
  lemma {:induction false} RemoveCharConcat(a: string, b: string, c: char)
    ensures RemoveChar(a + b, c) == RemoveChar(a, c) + RemoveChar(b, c)
    decreases |a|
  {
    if a != [] {
      var h := if a[0] == c then [] else [a[0]];
      RemoveCharConcat(a[1..], b, c);
      RemoveCharHead(a, b, c);
      ConcatAssociates(h, RemoveChar(a[1..], c), RemoveChar(b, c));
    } else {
      assert a + b == b;
    }
  }

  lemma ConcatAssociates<T>(x: seq<T>, y: seq<T>, z: seq<T>)
    ensures x + (y + z) == (x + y) + z
  {
  }

  /** A sequence is its prefix up to `i` followed by the rest. */
  lemma TakeDrop<T>(xs: seq<T>, i: int)
    requires 0 <= i <= |xs|
    ensures xs[..i] + xs[i..] == xs
  {
  }

  /** A prefix one element longer is the shorter prefix and that element. */
  lemma TakeOneMore<T>(xs: seq<T>, i: int)
    requires 0 <= i < |xs|
    ensures xs[..i + 1] == xs[..i] + [xs[i]]
  {
  }

  /** One unfolding of `RemoveChar` on `a + b`: the head of `a` comes first. */
  lemma RemoveCharHead(a: string, b: string, c: char)
    requires a != []
    ensures RemoveChar(a + b, c) == (if a[0] == c then [] else [a[0]]) + RemoveChar(a[1..] + b, c)
  {
    assert (a + b)[0] == a[0];
    assert (a + b)[1..] == a[1..] + b;
  }

  /** `String.lowercase(locale)` restricted to ASCII letters. */
  function LowerAscii(s: string): (r: string)
    ensures |r| == |s|
    ensures forall i :: 0 <= i < |s| ==> r[i] == (if 'A' <= s[i] <= 'Z' then (s[i] as int + 32) as char else s[i])
  {
    if s == [] then []
    else [if 'A' <= s[0] <= 'Z' then (s[0] as int + 32) as char else s[0]] + LowerAscii(s[1..])
  }

  /** How a nullable string renders in a Kotlin string template. */
  function ShowNullable(s: Option<string>): string {
    match s
    case Some(v) => v
    case None => "null"
  }

  predicate IsDigit(c: char) {
    '0' <= c <= '9'
  }

  predicate AllDigits(s: string) {
    forall i :: 0 <= i < |s| ==> IsDigit(s[i])
  }

  function DigitChar(d: int): (c: char)
    requires 0 <= d < 10
    ensures IsDigit(c) && c as int - '0' as int == d
  {
    ('0' as int + d) as char
  }

  /** The decimal digits of `n`, most significant first, no leading zero. */
  function NatDigits(n: nat): (r: string)
    ensures |r| >= 1 && AllDigits(r)
    ensures |r| > 1 ==> r[0] != '0'
  {
    if n < 10 then [DigitChar(n)] else NatDigits(n / 10) + [DigitChar(n % 10)]
  }

  /** `Int.toString()` / `"$n"`: optional minus sign, then the digits. */
  function Decimal(n: int): (r: string)
    ensures |r| >= 1 && '.' !in r && '/' !in r
    ensures n >= 0 ==> AllDigits(r)
  {
    if n < 0 then "-" + NatDigits(-n) else NatDigits(n)
  }

  /** The value of a run of ASCII digits. */
  function DigitsValue(s: string): nat
    requires AllDigits(s)
  {
    if s == [] then 0 else DigitsValue(s[..|s| - 1]) * 10 + (s[|s| - 1] as int - '0' as int)
  }

  lemma {:induction false} DigitsValueOfNatDigits(n: nat)
    ensures DigitsValue(NatDigits(n)) == n
  {
    if n >= 10 {
      var s := NatDigits(n);
      assert s[..|s| - 1] == NatDigits(n / 10);
      DigitsValueOfNatDigits(n / 10);
    }
  }

  /**
   * `java.lang.Long.parseLong`/`Integer.parseInt` in radix 10 on ASCII input:
   * an optional `+` or `-`, at least one digit, nothing else, and a value in
   * `lo..hi`; anything else is a NumberFormatException (None).
   */
  function ParseSigned(s: string, lo: int, hi: int): (r: Option<int>)
    ensures r.Some? ==> lo <= r.value <= hi
    ensures r.Some? ==> |s| >= 1 && (AllDigits(s) || ((s[0] == '-' || s[0] == '+') && |s| >= 2 && AllDigits(s[1..])))
  {
    if |s| == 0 then None
    else
      var negative := s[0] == '-';
      var body := if s[0] == '-' || s[0] == '+' then s[1..] else s;
      if |body| == 0 || !AllDigits(body) then None
      else
        var magnitude: int := DigitsValue(body);
        var v := if negative then -magnitude else magnitude;
        if lo <= v <= hi then Some(v) else None
  }

  /** What `ParseSigned` gives for digits, with or without a sign before them. */
  lemma ParsedValue(s: string, lo: int, hi: int)
    requires lo <= 0 <= hi
    ensures AllDigits(s) && |s| >= 1 ==> ParseSigned(s, lo, hi) == if DigitsValue(s) <= hi then Some(DigitsValue(s)) else None
    ensures |s| >= 2 && s[0] == '+' && AllDigits(s[1..]) ==> ParseSigned(s, lo, hi) == if DigitsValue(s[1..]) <= hi then Some(DigitsValue(s[1..])) else None
    ensures |s| >= 2 && s[0] == '-' && AllDigits(s[1..]) ==> ParseSigned(s, lo, hi) == if DigitsValue(s[1..]) <= -lo then Some(-(DigitsValue(s[1..]) as int)) else None
  {
    if |s| >= 1 && AllDigits(s) {
      ParsedDigits(s, lo, hi);
    }
    if |s| >= 2 && (s[0] == '+' || s[0] == '-') && AllDigits(s[1..]) {
      ParsedSignedDigits(s, lo, hi);
    }
  }

  /** Plain digits parse to their value, or to nothing when it exceeds `hi`. */
  lemma ParsedDigits(s: string, lo: int, hi: int)
    requires lo <= 0 <= hi && |s| >= 1 && AllDigits(s)
    ensures ParseSigned(s, lo, hi) == if DigitsValue(s) <= hi then Some(DigitsValue(s)) else None
  {
    assert IsDigit(s[0]);
  }

  /** Digits after a sign parse to their value with that sign, or to nothing out of range. */
  lemma ParsedSignedDigits(s: string, lo: int, hi: int)
    requires lo <= 0 <= hi && |s| >= 2 && (s[0] == '+' || s[0] == '-') && AllDigits(s[1..])
    ensures s[0] == '+' ==> ParseSigned(s, lo, hi) == if DigitsValue(s[1..]) <= hi then Some(DigitsValue(s[1..])) else None
    ensures s[0] == '-' ==> ParseSigned(s, lo, hi) == if DigitsValue(s[1..]) <= -lo then Some(-(DigitsValue(s[1..]) as int)) else None
  {
  }

  const LongMin: int := -0x8000_0000_0000_0000
  const LongMax: int := 0x7FFF_FFFF_FFFF_FFFF
  const IntMin: int := -0x8000_0000
  const IntMax: int := 0x7FFF_FFFF

  /** Kotlin `String.toLong()`; None where it throws NumberFormatException. */
  function ToLong(s: string): (r: Option<int>)
    ensures r.Some? ==> LongMin <= r.value <= LongMax
    ensures r.Some? ==> |s| >= 1 && IsDigit(s[|s| - 1])
    ensures r.None? && AllDigits(s) && |s| >= 1 ==> DigitsValue(s) > LongMax
  {
    ParseSigned(s, LongMin, LongMax)
  }

  /** The value `toLong()` gives: the digits' value, with the sign written before them, when it is in range. */
  lemma ToLongValue(s: string)
    ensures AllDigits(s) && |s| >= 1 ==> ToLong(s) == if DigitsValue(s) <= LongMax then Some(DigitsValue(s)) else None
    ensures |s| >= 2 && s[0] == '+' && AllDigits(s[1..]) ==> ToLong(s) == if DigitsValue(s[1..]) <= LongMax then Some(DigitsValue(s[1..])) else None
    ensures |s| >= 2 && s[0] == '-' && AllDigits(s[1..]) ==> ToLong(s) == if DigitsValue(s[1..]) <= -LongMin then Some(-(DigitsValue(s[1..]) as int)) else None
  {
    ParsedValue(s, LongMin, LongMax);
  }

  /** Kotlin `String.toInt()`; None where it throws NumberFormatException. */
  function ToInt(s: string): (r: Option<int>)
    ensures r.Some? ==> IntMin <= r.value <= IntMax
    ensures r.Some? ==> |s| >= 1 && IsDigit(s[|s| - 1])
    ensures r.None? && AllDigits(s) && |s| >= 1 ==> DigitsValue(s) > IntMax
  {
    ParseSigned(s, IntMin, IntMax)
  }

  /** The value `toInt()` gives: the digits' value, with the sign written before them, when it is in range. */
  lemma ToIntValue(s: string)
    ensures AllDigits(s) && |s| >= 1 ==> ToInt(s) == if DigitsValue(s) <= IntMax then Some(DigitsValue(s)) else None
    ensures |s| >= 2 && s[0] == '+' && AllDigits(s[1..]) ==> ToInt(s) == if DigitsValue(s[1..]) <= IntMax then Some(DigitsValue(s[1..])) else None
    ensures |s| >= 2 && s[0] == '-' && AllDigits(s[1..]) ==> ToInt(s) == if DigitsValue(s[1..]) <= -IntMin then Some(-(DigitsValue(s[1..]) as int)) else None
  {
    ParsedValue(s, IntMin, IntMax);
  }

  /** A one-character text is an Int iff that character is a digit, and then it is the digit's value. */
  lemma ToIntOneChar(d: char)
    ensures ToInt([d]).Some? <==> IsDigit(d)
    ensures IsDigit(d) ==> ToInt([d]) == Some(d as int - '0' as int)
  {
    assert [d][..0] == [];
    if IsDigit(d) {
      assert AllDigits([d]);
      assert DigitsValue([d]) == DigitsValue([]) * 10 + (d as int - '0' as int);
    } else if d == '-' || d == '+' {
      assert [d][1..] == [];
    } else {
      assert [d][0] == d;
      assert !AllDigits([d]);
    }
  }

  /** Parsing the decimal rendering of an in-range number gives the number back. */
  lemma DecimalRoundTrip(n: int, lo: int, hi: int)
    requires lo <= n <= hi
    ensures ParseSigned(Decimal(n), lo, hi) == Some(n)
  {
    var s := Decimal(n);
    if n < 0 {
      var body := NatDigits(-n);
      assert s[0] == '-' && s[1..] == body;
      assert AllDigits(body) && |body| >= 1;
      DigitsValueOfNatDigits(-n);
      assert DigitsValue(body) == -n;
    } else {
      assert s == NatDigits(n) && AllDigits(s);
      assert IsDigit(s[0]) && s[0] != '-' && s[0] != '+';
      DigitsValueOfNatDigits(n);
      assert DigitsValue(s) == n;
    }
  }
}
