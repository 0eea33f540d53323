/** The Kotlin string operations the application relies on: `replace` of a
    one-character string, `take`, and the decimal rendering of an `Int`
    inside a string template. */
module Text {
  import opened Common

  /** Number of occurrences of `c` in `s`. */
  function Count(s: string, c: char): nat {
    if s == [] then 0 else (if s[0] == c then 1 else 0) + Count(s[1..], c)
  }

  /** `s.replace("c", rep)`: every occurrence of the single character `c`
      is replaced by `rep`, scanning left to right. */
  function ReplaceChar(s: string, c: char, rep: string): (r: string)
    ensures c !in rep ==> c !in r
    ensures forall x :: x in r ==> x in s || x in rep
  {
    if s == [] then []
    else (if s[0] == c then rep else [s[0]]) + ReplaceChar(s[1..], c, rep)
  }

  /** Replacing is done character by character, so it distributes over `+`. */
  lemma {:induction false} ReplaceCharAppend(a: string, b: string, c: char, rep: string)
    ensures ReplaceChar(a + b, c, rep) == ReplaceChar(a, c, rep) + ReplaceChar(b, c, rep)
  {
    if a == [] {
      assert a + b == b;
    } else {
      assert (a + b)[1..] == a[1..] + b;
      ReplaceCharAppend(a[1..], b, c, rep);
    }
  }

  /** Each occurrence of `c` grows the text by `|rep| - 1`; nothing else changes length. */
  lemma {:induction false} ReplaceCharLength(s: string, c: char, rep: string)
    ensures |ReplaceChar(s, c, rep)| == |s| + (|rep| - 1) * Count(s, c)
  {
    if s != [] {
      ReplaceCharLength(s[1..], c, rep);
    }
  }

  /** A text without `c` is left as it is. */
  lemma {:induction false} ReplaceCharAbsent(s: string, c: char, rep: string)
    requires c !in s
    ensures ReplaceChar(s, c, rep) == s
  {
    if s != [] {
      assert s == [s[0]] + s[1..];
      ReplaceCharAbsent(s[1..], c, rep);
    }
  }

  /** Characters that are neither `c` nor in `rep` are kept, as many as there were. */
  lemma {:induction false} ReplaceCharCountOther(s: string, c: char, rep: string, x: char)
    requires x != c && x !in rep
    ensures Count(ReplaceChar(s, c, rep), x) == Count(s, x)
  {
    if s != [] {
      CountAppend(if s[0] == c then rep else [s[0]], ReplaceChar(s[1..], c, rep), x);
      CountAbsent(rep, x);
      ReplaceCharCountOther(s[1..], c, rep, x);
    }
  }

  lemma {:induction false} CountAppend(a: string, b: string, x: char)
    ensures Count(a + b, x) == Count(a, x) + Count(b, x)
  {
    if a == [] {
      assert a + b == b;
    } else {
      assert (a + b)[1..] == a[1..] + b;
      CountAppend(a[1..], b, x);
    }
  }

  lemma {:induction false} CountAbsent(s: string, x: char)
    requires x !in s
    ensures Count(s, x) == 0
  {
    if s != [] {
      CountAbsent(s[1..], x);
    }
  }

  /** `s.take(n)`: the first `n` characters, or all of `s` when it is shorter. */
  function Take(s: string, n: nat): (r: string)
    ensures |r| == if |s| < n then |s| else n
    ensures StartsWith(s, r)
    ensures |s| <= n ==> r == s
  {
    if |s| <= n then s else s[..n]
  }

  /** The decimal digit for `d`. */
  function Digit(d: nat): (c: char)
    requires d < 10
    ensures '0' <= c <= '9'
  {
    ['0', '1', '2', '3', '4', '5', '6', '7', '8', '9'][d]
  }

  function DigitValue(c: char): nat {
    if '0' <= c <= '9' then (c as int - '0' as int) as nat else 0
  }

  /** Kotlin's rendering of a non-negative `Int` in a string template. */
  function Decimal(n: nat): (r: string)
    ensures |r| >= 1
    ensures forall i :: 0 <= i < |r| ==> '0' <= r[i] <= '9'
  {
    if n < 10 then [Digit(n)] else Decimal(n / 10) + [Digit(n % 10)]
  }

  /** Reads a run of decimal digits back as a number. */
  function ParseDecimal(s: string): nat {
    if s == [] then 0 else 10 * ParseDecimal(s[..|s| - 1]) + DigitValue(s[|s| - 1])
  }

  lemma DigitRoundTrip(d: nat)
    requires d < 10
    ensures DigitValue(Digit(d)) == d
  {
  }

  /** Reading the decimal rendering gives the number back. */
  lemma {:induction false} DecimalRoundTrip(n: nat)
    ensures ParseDecimal(Decimal(n)) == n
  {
    if n < 10 {
      DigitRoundTrip(n);
      assert Decimal(n)[..0] == [];
    } else {
      var s := Decimal(n);
      assert s[..|s| - 1] == Decimal(n / 10);
      DecimalRoundTrip(n / 10);
      DigitRoundTrip(n % 10);
    }
  }

  /** Different numbers are rendered differently. */
  lemma DecimalInjective(m: nat, n: nat)
    requires Decimal(m) == Decimal(n)
    ensures m == n
  {
    DecimalRoundTrip(m);
    DecimalRoundTrip(n);
  }

  /** Undoes `ReplaceChar`: scanning left to right, each occurrence of `rep`
      becomes `c` again. */
  function RestoreChar(s: string, rep: string, c: char): string
    requires |rep| >= 1
  {
    if s == [] then []
    else if StartsWith(s, rep) then [c] + RestoreChar(s[|rep|..], rep, c)
    else [s[0]] + RestoreChar(s[1..], rep, c)
  }

  /** When the first character of `rep` never occurs in the text, replacing
      `c` by `rep` can be undone. */
  lemma {:induction false} RestoreReplaceChar(s: string, c: char, rep: string)
    requires |rep| >= 1 && rep[0] !in s
    ensures RestoreChar(ReplaceChar(s, c, rep), rep, c) == s
  {
    if s != [] {
      var r := ReplaceChar(s, c, rep);
      var tail := ReplaceChar(s[1..], c, rep);
      RestoreReplaceChar(s[1..], c, rep);
      if s[0] == c {
        assert r == rep + tail;
        assert r[..|rep|] == rep && r[|rep|..] == tail;
      } else {
        assert r == [s[0]] + tail;
        assert r[1..] == tail;
        assert r[0] != rep[0];
      }
      assert s == [s[0]] + s[1..];
    }
  }
}

