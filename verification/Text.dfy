/** The pieces of Rust's string library the record format stands on. */
module Text {

  datatype Option<+T> = None | Some(value: T)

  /** `char::is_whitespace`: the Unicode White_Space property. */
  predicate IsSpace(c: char) {
    || '\U{0009}' <= c <= '\U{000D}' || c == ' ' || c == '\U{0085}' || c == '\U{00A0}'
    || c == '\U{1680}' || '\U{2000}' <= c <= '\U{200A}' || c == '\U{2028}' || c == '\U{2029}'
    || c == '\U{202F}' || c == '\U{205F}' || c == '\U{3000}'
  }

  /** The 25 white space characters of Unicode. */
  lemma WhiteSpace(c: char)
    ensures IsSpace(c) <==>
            c as int in {9, 10, 11, 12, 13, 32, 133, 160, 5760, 8192, 8193, 8194, 8195, 8196, 8197, 8198, 8199, 8200,
                         8201, 8202, 8232, 8233, 8239, 8287, 12288}
  {
  }

  predicate NoSpace(s: string) {
    forall i :: 0 <= i < |s| ==> !IsSpace(s[i])
  }

  // ----- split_whitespace

  /** Length of the run of non-space characters that opens `s`. */
  function WordEnd(s: string): (n: nat)
    ensures n <= |s| && NoSpace(s[..n]) && (n < |s| ==> IsSpace(s[n]))
  {
    if s == "" || IsSpace(s[0]) then 0
    else
      var n := WordEnd(s[1..]) + 1;
      assert s[..n] == [s[0]] + s[1..][..n - 1];
      n
  }

  /** `split_whitespace`. */
  function Tokens(s: string): seq<string> {
    if s == "" then []
    else if IsSpace(s[0]) then Tokens(s[1..])
    else [s[..WordEnd(s)]] + Tokens(s[WordEnd(s)..])
  }

  lemma WordEndIs(s: string, n: nat)
    requires n <= |s| && NoSpace(s[..n]) && (n < |s| ==> IsSpace(s[n]))
    ensures WordEnd(s) == n
  {
    hide IsSpace;
    var m := WordEnd(s);
    assert forall i :: 0 <= i < n ==> s[..n][i] == s[i];
    assert forall i :: 0 <= i < m ==> s[..m][i] == s[i];
  }

  lemma TokensCons(w: string, rest: string)
    requires w != "" && NoSpace(w) && (rest == "" || IsSpace(rest[0]))
    ensures Tokens(w + rest) == [w] + Tokens(rest)
  {
    hide IsSpace;
    var s := w + rest;
    assert s[..|w|] == w && s[|w|..] == rest;
    assert s[0] == w[0];
    WordEndIs(s, |w|);
  }

  lemma TokensWord(w: string)
    requires w != "" && NoSpace(w)
    ensures Tokens(w) == [w]
  {
    TokensCons(w, "");
    assert w + "" == w;
  }

  lemma TokensSpace(s: string)
    ensures Tokens(" " + s) == Tokens(s)
  {
    assert (" " + s)[1..] == s;
  }

  predicate EndsInWord(s: string) {
    s != "" && !IsSpace(s[|s| - 1])
  }

  /** Tokens of `p + rest` when `p` stops between words. */
  lemma {:induction false} TokensAfterSpace(p: string, rest: string)
    requires !EndsInWord(p)
    ensures Tokens(p + rest) == Tokens(p) + Tokens(rest)
  {
    hide IsSpace;
    if p == "" {
      assert p + rest == rest;
    } else {
      var n := if IsSpace(p[0]) then 1 else WordEnd(p);
      assert !EndsInWord(p[n..]);
      TokensAfterSpace(p[n..], rest);
      assert p == p[..n] + p[n..];
      assert p + rest == p[..n] + (p[n..] + rest);
      if n == 1 && IsSpace(p[0]) {
        assert (p + rest)[1..] == p[1..] + rest;
      } else {
        assert p[n..] != "";
        TokensCons(p[..n], p[n..] + rest);
      }
    }
  }

  /** Where the word that `p` stops in begins. */
  function LastWord(p: string): (n: nat)
    ensures n <= |p| && NoSpace(p[n..]) && !EndsInWord(p[..n])
    ensures n < |p| <==> EndsInWord(p)
  {
    if !EndsInWord(p) then |p|
    else
      var q := p[..|p| - 1];
      var n := LastWord(q);
      assert p[n..] == q[n..] + [p[|p| - 1]] && p[..n] == q[..n];
      n
  }

  /** Tokens of `p` when it stops inside the word `b`, and what gluing more text to it makes of them. */
  lemma TokensInWord(a: string, b: string, w: string, rest: string)
    requires !EndsInWord(a) && b != "" && NoSpace(b) && NoSpace(w) && (rest == "" || IsSpace(rest[0]))
    ensures Tokens(a + b) == Tokens(a) + [b]
    ensures Tokens(a + b + (w + rest)) == Tokens(a) + [b + w] + Tokens(rest)
  {
    hide IsSpace, Tokens;
    TokensAfterSpace(a, b);
    TokensWord(b);
    assert a + b + (w + rest) == a + (b + w + rest);
    TokensAfterSpace(a, b + w + rest);
    TokensCons(b + w, rest);
  }

  // ----- split, split_once

  function IndexOf(s: string, c: char): (n: nat)
    ensures n <= |s| && c !in s[..n] && (n < |s| ==> s[n] == c)
    ensures n == |s| <==> c !in s
  {
    if s == "" || s[0] == c then 0
    else
      var n := IndexOf(s[1..], c) + 1;
      assert s[..n] == [s[0]] + s[1..][..n - 1];
      assert s == [s[0]] + s[1..];
      n
  }

  lemma IndexOfIs(a: string, c: char, b: string)
    requires c !in a
    ensures IndexOf(a + [c] + b, c) == |a|
  {
    var s := a + [c] + b;
    var n := IndexOf(s, c);
    assert s[|a|] == c;
    assert forall i :: 0 <= i < |a| ==> s[i] == a[i];
    assert forall i :: 0 <= i < n ==> s[..n][i] == s[i];
  }

  function SplitOnce(s: string, c: char): Option<(string, string)> {
    var n := IndexOf(s, c);
    if n == |s| then None else Some((s[..n], s[n + 1..]))
  }

  lemma SplitOnceIs(a: string, c: char, b: string)
    requires c !in a
    ensures SplitOnce(a + [c] + b, c) == Some((a, b))
  {
    var s := a + [c] + b;
    IndexOfIs(a, c, b);
    assert s[..|a|] == a && s[|a| + 1..] == b;
  }

  lemma SplitOnceAppend(s: string, c: char, w: string)
    requires c !in w
    ensures SplitOnce(s + w, c) ==
            match SplitOnce(s, c) { case None => None case Some((k, v)) => Some((k, v + w)) }
  {
    var n := IndexOf(s, c);
    if n == |s| {
      assert c !in s + w;
    } else {
      assert s == s[..n] + [c] + s[n + 1..];
      assert s + w == s[..n] + [c] + (s[n + 1..] + w);
      SplitOnceIs(s[..n], c, s[n + 1..] + w);
    }
  }

  /** `split` on one character. */
  function Split(s: string, c: char): (r: seq<string>)
    ensures r != []
    ensures r[0] == s[..IndexOf(s, c)]
  {
    var n := IndexOf(s, c);
    if n == |s| then [s] else [s[..n]] + Split(s[n + 1..], c)
  }

  lemma SplitCons(a: string, c: char, b: string)
    requires c !in a
    ensures Split(a + [c] + b, c) == [a] + Split(b, c)
  {
    var s := a + [c] + b;
    IndexOfIs(a, c, b);
    assert s[..|a|] == a && s[|a| + 1..] == b;
  }

  /** The last piece ends as the string does. */
  lemma {:induction false} SplitLast(s: string, c: char, w: string)
    requires c !in w && w != ""
    ensures var r := Split(s + w, c); |w| <= |r[|r| - 1]| && r[|r| - 1][|r[|r| - 1]| - |w|..] == w
  {
    var n := IndexOf(s, c);
    if n == |s| {
      assert c !in s + w;
      assert (s + w)[|s|..] == w;
    } else {
      assert s == s[..n] + [c] + s[n + 1..];
      assert s + w == s[..n] + [c] + (s[n + 1..] + w);
      SplitCons(s[..n], c, s[n + 1..] + w);
      SplitLast(s[n + 1..], c, w);
    }
  }

  // ----- Decimal numbers

  function Digit(k: int): char
    requires 0 <= k < 10
  {
    ('0' as int + k) as char
  }

  predicate IsDigit(c: char) {
    '0' <= c <= '9'
  }

  predicate AllDigits(s: string) {
    forall i :: 0 <= i < |s| ==> IsDigit(s[i])
  }

  function Dec(n: nat): (s: string)
    ensures s != "" && AllDigits(s)
  {
    if n < 10 then [Digit(n)] else Dec(n / 10) + [Digit(n % 10)]
  }

  function DigitsValue(s: string): nat
    requires AllDigits(s)
  {
    if s == "" then 0 else 10 * DigitsValue(s[..|s| - 1]) + (s[|s| - 1] as int - '0' as int)
  }

  lemma DigitsBound(s: string)
    requires AllDigits(s) && |s| <= 4
    ensures DigitsValue(s) <= 9999
  {
    if |s| > 0 {
      var s1 := s[..|s| - 1];
      if |s1| > 0 {
        var s2 := s1[..|s1| - 1];
        if |s2| > 0 {
          assert DigitsValue(s2[..|s2| - 1]) <= 9;
        }
      }
    }
  }

  lemma {:induction false} DecValue(n: nat)
    ensures DigitsValue(Dec(n)) == n
  {
    if n < 10 {
      assert Dec(n)[..0] == "";
    } else {
      DecValue(n / 10);
      assert Dec(n)[..|Dec(n)| - 1] == Dec(n / 10);
    }
  }

  function Zeros(k: nat): (s: string)
    ensures |s| == k && AllDigits(s)
  {
    seq(k, _ => '0')
  }

  /** `{:0width$}` of a number that is not negative. */
  function Padded(n: nat, width: nat): (s: string)
    ensures |s| == (if |Dec(n)| < width then width else |Dec(n)|) && AllDigits(s)
  {
    var s := Dec(n);
    if |s| < width then Zeros(width - |s|) + s else s
  }

  lemma {:induction false} LeadingZeros(k: nat, s: string)
    requires AllDigits(s)
    ensures DigitsValue(Zeros(k) + s) == DigitsValue(s)
    decreases k + |s|
  {
    var t := Zeros(k) + s;
    if s != "" {
      assert t[..|t| - 1] == Zeros(k) + s[..|s| - 1];
      LeadingZeros(k, s[..|s| - 1]);
    } else if k > 0 {
      assert t[..|t| - 1] == Zeros(k - 1) + "";
      LeadingZeros(k - 1, "");
    }
  }

  lemma PaddedValue(n: nat, width: nat)
    ensures DigitsValue(Padded(n, width)) == n
  {
    DecValue(n);
    if |Dec(n)| < width {
      LeadingZeros(width - |Dec(n)|, Dec(n));
    }
  }

  lemma DecLength(n: nat)
    ensures |Dec(n)| <= 2 <==> n < 100
    ensures |Dec(n)| <= 4 <==> n < 10000
  {
    if n >= 10 {
      assert |Dec(n)| == |Dec(n / 10)| + 1;
      if n >= 100 {
        assert |Dec(n / 10)| == |Dec(n / 100)| + 1 by { assert n / 10 / 10 == n / 100; }
        if n >= 1000 {
          assert |Dec(n / 100)| == |Dec(n / 1000)| + 1 by { assert n / 100 / 10 == n / 1000; }
          if n >= 10000 {
            assert |Dec(n / 1000)| == |Dec(n / 10000)| + 1 by { assert n / 1000 / 10 == n / 10000; }
          }
        }
      }
    }
  }

  /** `str::parse` for an unsigned integer with the given maximum: an optional `+`, then digits. */
  function ParseUnsigned(s: string, max: nat): Option<nat> {
    var digits := if |s| > 0 && s[0] == '+' then s[1..] else s;
    if digits == "" || !AllDigits(digits) || DigitsValue(digits) > max then None
    else Some(DigitsValue(digits))
  }

  lemma ParseUnsignedPadded(n: nat, width: nat, max: nat)
    ensures ParseUnsigned(Padded(n, width), max) == if n <= max then Some(n) else None
  {
    PaddedValue(n, width);
    var s := Padded(n, width);
    assert IsDigit(s[0]);
  }

  lemma ParseUnsignedDec(n: nat, max: nat)
    ensures ParseUnsigned(Dec(n), max) == if n <= max then Some(n) else None
  {
    DecValue(n);
    assert IsDigit(Dec(n)[0]);
  }

  lemma ParseUnsignedGarbage(s: string, i: nat, max: nat)
    requires i < |s| && !IsDigit(s[i]) && s[i] != '+'
    ensures ParseUnsigned(s, max) == None
  {
    if s[0] == '+' {
      assert s[1..][i - 1] == s[i];
    }
  }

  lemma DigitsNoSpace(s: string)
    requires AllDigits(s)
    ensures NoSpace(s) && '\n' !in s && '-' !in s && '=' !in s
  {
  }

  /** A number below ten is its digit, and a larger one is its tenth and then its last digit. */
  lemma DecIs(n: nat)
    ensures n < 10 ==> Dec(n) == ["0123456789"[n]]
    ensures n >= 10 ==> Dec(n) == Dec(n / 10) + Dec(n % 10)
  {
  }
}
