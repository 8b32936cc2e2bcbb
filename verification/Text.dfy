/** Decimal numerals and separator-joined text, the two printed forms other modules rely on. */
module Text {

  predicate IsDigit(c: char) {
    '0' <= c <= '9'
  }

  predicate AllDigits(s: string) {
    forall i :: 0 <= i < |s| ==> IsDigit(s[i])
  }

  /** The decimal numeral of n, as Rust's `{}` prints an unsigned integer. */
  function Decimal(n: nat): (s: string)
    ensures |s| > 0 && AllDigits(s)
  {
    if n < 10 then [('0' as int + n) as char] else Decimal(n / 10) + [('0' as int + n % 10) as char]
  }

  function DecimalValue(s: string): nat
    requires AllDigits(s)
  {
    if s == "" then 0 else 10 * DecimalValue(s[..|s| - 1]) + (s[|s| - 1] as int - '0' as int)
  }

  lemma {:induction false} DecimalRoundTrip(n: nat)
    ensures DecimalValue(Decimal(n)) == n
  {
    var s := Decimal(n);
    if n < 10 {
      assert s[..0] == "";
    } else {
      DecimalRoundTrip(n / 10);
      assert s[..|s| - 1] == Decimal(n / 10);
    }
  }

  /** Two numbers printed in decimal and followed by a non-digit (or nothing) are equal when the texts are. */
  lemma {:induction false} DecimalPrefixFree(m: nat, n: nat, k: string, l: string)
    requires Decimal(m) + k == Decimal(n) + l
    requires k == "" || !IsDigit(k[0])
    requires l == "" || !IsDigit(l[0])
    ensures m == n && k == l
  {
    var a, b := Decimal(m), Decimal(n);
    var text := a + k;
    assert |a| < |text| ==> text[|a|] == k[0];
    assert |b| < |text| ==> text[|b|] == l[0];
    assert forall i :: 0 <= i < |a| ==> IsDigit(text[i]);
    assert forall i :: 0 <= i < |b| ==> IsDigit(text[i]);
    assert |a| == |b|;
    assert a == (a + k)[..|a|] == (b + l)[..|b|] == b;
    assert k == (a + k)[|a|..] == (b + l)[|b|..] == l;
    DecimalRoundTrip(m);
    DecimalRoundTrip(n);
  }

  /** Rust's `join`: the parts with `sep` between neighbours. */
  function Join(parts: seq<string>, sep: char): string {
    if |parts| == 0 then ""
    else if |parts| == 1 then parts[0]
    else parts[0] + [sep] + Join(parts[1..], sep)
  }

  /** Rust's `split` on one character: always at least one part. */
  function Split(s: string, sep: char): (parts: seq<string>)
    ensures |parts| > 0
  {
    if s == "" then [""]
    else
      var rest := Split(s[1..], sep);
      if s[0] == sep then [""] + rest else [[s[0]] + rest[0]] + rest[1..]
  }

  lemma {:induction false} SplitPart(p: string, sep: char, rest: string)
    requires sep !in p
    ensures Split(p, sep) == [p]
    ensures Split(p + [sep] + rest, sep) == [p] + Split(rest, sep)
  {
    if p == "" {
      assert ("" + [sep] + rest)[1..] == rest;
    } else {
      SplitPart(p[1..], sep, rest);
      assert (p + [sep] + rest)[1..] == p[1..] + [sep] + rest;
      assert [p[0]] + p[1..] == p;
    }
  }

  /** Splitting undoes joining when no part holds the separator. */
  lemma {:induction false} SplitJoin(parts: seq<string>, sep: char)
    requires |parts| > 0
    requires forall p :: p in parts ==> sep !in p
    ensures Split(Join(parts, sep), sep) == parts
  {
    if |parts| == 1 {
      SplitPart(parts[0], sep, "");
    } else {
      SplitJoin(parts[1..], sep);
      SplitPart(parts[0], sep, Join(parts[1..], sep));
      assert parts == [parts[0]] + parts[1..];
    }
  }
}
