/** The offset-preserving lexer that blanks comments and literals out of Rust source. */
module RustSource {
  import opened Text

  // ----- One token at the head of the remaining source

  predicate IsLineComment(s: string) { |s| >= 2 && s[0] == '/' && s[1] == '/' }

  predicate IsBlockComment(s: string) { |s| >= 2 && s[0] == '/' && s[1] == '*' }

  /** Length of the run of `#` that opens `s`. */
  function Hashes(s: string): (h: nat)
    ensures h <= |s| && forall i :: 0 <= i < h ==> s[i] == '#'
    ensures h < |s| ==> s[h] != '#'
  {
    if s == "" || s[0] != '#' then 0
    else
      var h := Hashes(s[1..]) + 1;
      assert forall i :: 1 <= i < h ==> s[i] == s[1..][i - 1];
      h
  }

  /** The regex `r(#*)"` matches at the head. */
  predicate IsRawString(s: string) {
    s != "" && s[0] == 'r' && Hashes(s[1..]) + 1 < |s| && s[Hashes(s[1..]) + 1] == '"'
  }

  predicate IsString(s: string) { s != "" && s[0] == '"' }

  /** Length of the match of the regex `'(\\.|[^\\'])'` at the head, 0 for a lifetime or no quote. */
  function CharLiteral(s: string): (n: nat)
    ensures n <= |s| && (n == 0 || n >= 3)
  {
    if |s| < 3 || s[0] != '\'' then 0
    else if s[1] == '\\' then (if |s| >= 4 && s[2] != '\n' && s[3] == '\'' then 4 else 0)
    else if s[1] != '\'' && s[2] == '\'' then 3 else 0
  }

  predicate IsNoise(s: string) {
    IsLineComment(s) || IsBlockComment(s) || IsRawString(s) || IsString(s) || CharLiteral(s) > 0
  }

  /** Where a block comment open to `depth` at `j` ends. */
  function BlockEnd(s: string, j: nat, depth: nat): (e: nat)
    requires j <= |s|
    ensures j <= e <= |s|
    decreases |s| - j
  {
    if j == |s| || depth == 0 then j
    else if j + 2 <= |s| && s[j] == '/' && s[j + 1] == '*' then BlockEnd(s, j + 2, depth + 1)
    else if j + 2 <= |s| && s[j] == '*' && s[j + 1] == '/' then BlockEnd(s, j + 2, depth - 1)
    else BlockEnd(s, j + 1, depth)
  }

  predicate ClosesRaw(s: string, j: nat, h: nat) {
    j + 1 + h <= |s| && s[j] == '"' && forall i :: j < i <= j + h ==> s[i] == '#'
  }

  function RawEnd(s: string, j: nat, h: nat): (e: nat)
    requires j <= |s|
    ensures j <= e <= |s|
    decreases |s| - j
  {
    if ClosesRaw(s, j, h) then j + 1 + h else if j == |s| then j else RawEnd(s, j + 1, h)
  }

  /** Where a string literal scanned up to `j` ends, its closing quote included. */
  function StringEnd(s: string, j: nat): (e: nat)
    ensures e <= |s| && (j < |s| ==> j < e) && (j >= |s| ==> e == |s|)
    decreases |s| - j
  {
    if j >= |s| then |s|
    else if s[j] == '"' then j + 1
    else StringEnd(s, if s[j] == '\\' then j + 2 else j + 1)
  }

  function NoiseLength(s: string): (n: nat)
    requires IsNoise(s)
    ensures 0 < n <= |s| && (n >= 2 || n == |s|)
  {
    if IsLineComment(s) then
      assert IndexOf(s, '\n') >= 2 by { assert s[..IndexOf(s, '\n')] <= s; }
      IndexOf(s, '\n')
    else if IsBlockComment(s) then BlockEnd(s, 2, 1)
    else if IsRawString(s) then RawEnd(s, Hashes(s[1..]) + 2, Hashes(s[1..]))
    else if IsString(s) then StringEnd(s, 1)
    else CharLiteral(s)
  }

  function Blanked(s: string): (t: string)
    ensures |t| == |s|
    ensures forall i :: 0 <= i < |s| ==> t[i] == if s[i] == '\n' then '\n' else ' '
  {
    seq(|s|, i requires 0 <= i < |s| => if s[i] == '\n' then '\n' else ' ')
  }

  /** The stripped source: noise blanked, everything else kept. */
  function Stripped(s: string): (t: string)
    ensures |t| == |s|
    decreases |s|
  {
    if s == "" then ""
    else if IsNoise(s) then Blanked(s[..NoiseLength(s)]) + Stripped(s[NoiseLength(s)..])
    else [s[0]] + Stripped(s[1..])
  }

  // ----- The scanner

  class Scanner {
    const src: string
    const out: array<char>

    constructor (src: string)
      ensures this.src == src && fresh(out) && out[..] == src
    {
      this.src := src;
      out := new char[|src|](i requires 0 <= i < |src| => src[i]);
      new;
      assert out[..] == src;
    }

    /** `blank`: newlines stay, everything else in the range becomes a space. */
    method Blank(start: nat, end: nat)
      requires start <= end <= out.Length == |src| && out[start..] == src[start..]
      modifies out
      ensures out[..start] == old(out[..start])
      ensures out[start..end] == Blanked(src[start..end])
      ensures out[end..] == src[end..]
    {
      for k := start to end
        invariant out[..start] == old(out[..start])
        invariant forall m :: start <= m < k ==> out[m] == if src[m] == '\n' then '\n' else ' '
        invariant forall m :: k <= m < out.Length ==> out[m] == src[m]
      {
        assert out[k] == src[k];
        if out[k] != '\n' {
          out[k] := ' ';
        }
      }
      assert forall m :: start <= m < end ==> src[start..end][m - start] == src[m];
    }

    method BlockCommentEnd(i: nat) returns (j: nat)
      requires i < |src| && IsBlockComment(src[i..])
      ensures j == i + BlockEnd(src[i..], 2, 1)
    {
      var s := src[i..];
      var depth := 1;
      j := i + 2;
      while j < |src| && depth > 0
        invariant i + 2 <= j <= |src|
        invariant BlockEnd(s, j - i, depth) == BlockEnd(s, 2, 1)
        decreases |src| - j
      {
        assert s[j - i] == src[j] && (j + 1 < |src| ==> s[j - i + 1] == src[j + 1]);
        if j + 2 <= |src| && src[j] == '/' && src[j + 1] == '*' {
          depth := depth + 1;
          j := j + 2;
        } else if j + 2 <= |src| && src[j] == '*' && src[j + 1] == '/' {
          depth := depth - 1;
          j := j + 2;
        } else {
          j := j + 1;
        }
      }
    }

    method StringLiteralEnd(i: nat) returns (j: nat)
      requires i < |src| && IsString(src[i..])
      ensures j == i + StringEnd(src[i..], 1)
    {
      var s := src[i..];
      j := i + 1;
      while j < |src| && src[j] != '"'
        invariant i < j
        invariant StringEnd(s, j - i) == StringEnd(s, 1)
      {
        assert s[j - i] == src[j];
        j := j + (if src[j] == '\\' then 2 else 1);
      }
      j := if j + 1 < |src| then j + 1 else |src|;
    }

    /** Where the token at `i` ends; a token that is not noise is one character. */
    method TokenEnd(i: nat) returns (j: nat)
      requires i < |src|
      ensures j == i + (if IsNoise(src[i..]) then NoiseLength(src[i..]) else 1)
    {
      hide BlockEnd, StringEnd, RawEnd, CharLiteral, Hashes, IsRawString, IndexOf, NoiseLength;
      var s := src[i..];
      if IsNoise(s) {
        NoiseLengthIs(s);
      }
      j := i + 1;
      if IsLineComment(s) {
        j := i + IndexOf(s, '\n');
      } else if IsBlockComment(s) {
        j := BlockCommentEnd(i);
      } else if IsRawString(s) {
        var h := Hashes(s[1..]);
        j := i + RawEnd(s, h + 2, h);
      } else if IsString(s) {
        j := StringLiteralEnd(i);
      } else if CharLiteral(s) > 0 {
        j := i + CharLiteral(s);
      }
    }

    method StripNoise() returns (result: string)
      requires out[..] == src
      modifies out
      ensures result == Stripped(src)
    {
      hide Stripped, IsNoise, NoiseLength, Blanked;
      var i := 0;
      assert src[0..] == src;
      while i < |src|
        invariant 0 <= i <= |src| == out.Length
        invariant out[i..] == src[i..]
        invariant out[..i] + Stripped(src[i..]) == Stripped(src)
        decreases |src| - i
      {
        ghost var done, s := out[..i], src[i..];
        StrippedUnfold(s);
        var j := TokenEnd(i);
        assert s[..j - i] == src[i..j] && s[j - i..] == src[j..];
        if IsNoise(src[i..]) {
          Blank(i, j);
          assert Stripped(s) == out[i..j] + Stripped(src[j..]);
        } else {
          assert out[i..][0] == src[i..][0] && out[i..][1..] == src[i..][1..];
          assert out[i..j] == [src[i]];
          assert out[j..] == src[j..];
          assert Stripped(s) == out[i..j] + Stripped(src[j..]);
        }
        assert out[..j] == done + out[i..j];
        Regroup(done, out[i..j], Stripped(src[j..]));
        i := j;
      }
      assert src[i..] == "" && out[..i] == out[..];
      StrippedUnfold("");
      result := out[..];
    }
  }

  lemma Regroup(a: string, b: string, c: string)
    ensures a + (b + c) == a + b + c
  {
  }

  lemma StrippedUnfold(s: string)
    ensures Stripped(s) ==
            if s == "" then ""
            else if IsNoise(s) then Blanked(s[..NoiseLength(s)]) + Stripped(s[NoiseLength(s)..])
            else [s[0]] + Stripped(s[1..])
  {
  }

  lemma NoiseLengthIs(s: string)
    requires IsNoise(s)
    ensures NoiseLength(s) ==
            if IsLineComment(s) then IndexOf(s, '\n')
            else if IsBlockComment(s) then BlockEnd(s, 2, 1)
            else if IsRawString(s) then RawEnd(s, Hashes(s[1..]) + 2, Hashes(s[1..]))
            else if IsString(s) then StringEnd(s, 1)
            else CharLiteral(s)
  {
  }

  // ----- What stripping promises

  /** `t` is `s` with some characters, none of them newlines, replaced by spaces. */
  predicate IsBlanking(s: string, t: string) {
    |t| == |s| && forall k :: 0 <= k < |s| ==> t[k] == s[k] || (t[k] == ' ' && s[k] != '\n')
  }

  /** Every offset and every newline survives, and nothing is changed except to a space. */
  lemma {:induction false} StrippedIsBlanking(s: string)
    ensures IsBlanking(s, Stripped(s))
    decreases |s|
  {
    hide IsNoise, NoiseLength, Stripped;
    StrippedUnfold(s);
    if s != "" {
      var n := if IsNoise(s) then NoiseLength(s) else 1;
      StrippedIsBlanking(s[n..]);
      assert forall k :: n <= k < |s| ==> s[k] == s[n..][k - n];
    }
  }

  /** No comment or string opener is left: a search over the result cannot enter one. */
  predicate NoOpeners(t: string) {
    && '"' !in t
    && forall k :: 0 <= k < |t| - 1 ==> !(t[k] == '/' && (t[k + 1] == '/' || t[k + 1] == '*'))
  }

  lemma KeptHead(s: string)
    requires s != "" && !IsNoise(s)
    ensures s[0] != '"'
    ensures |s| >= 2 && s[0] == '/' ==> s[1] != '/' && s[1] != '*'
  {
  }

  lemma {:induction false} StrippedHasNoOpeners(s: string)
    ensures NoOpeners(Stripped(s))
    decreases |s|
  {
    hide IsNoise, NoiseLength, Stripped;
    StrippedUnfold(s);
    if s != "" {
      var n := if IsNoise(s) then NoiseLength(s) else 1;
      var t := Stripped(s[n..]);
      StrippedHasNoOpeners(s[n..]);
      StrippedIsBlanking(s[n..]);
      if IsNoise(s) {
        assert forall k :: 0 <= k < n ==> Stripped(s)[k] == ' ' || Stripped(s)[k] == '\n';
      } else {
        KeptHead(s);
      }
      assert forall k :: n <= k < |s| ==> Stripped(s)[k] == t[k - n];
      forall k | 0 <= k < |s| - 1
        ensures !(Stripped(s)[k] == '/' && (Stripped(s)[k + 1] == '/' || Stripped(s)[k + 1] == '*')) {}
    }
  }

  /** Nothing in `t` is noise any more. */
  predicate Quiet(t: string) {
    forall k :: 0 <= k < |t| ==> !IsNoise(t[k..])
  }

  lemma {:induction false} StrippedQuiet(t: string)
    requires Quiet(t)
    ensures Stripped(t) == t
  {
    hide IsNoise, NoiseLength, Stripped;
    StrippedUnfold(t);
    if t != "" {
      assert t[0..] == t;
      forall k | 0 <= k < |t[1..]| ensures !IsNoise(t[1..][k..]) {
        assert t[1..][k..] == t[k + 1..];
      }
      StrippedQuiet(t[1..]);
    }
  }

  lemma SpaceIsQuiet(t: string)
    requires t != "" && (t[0] == ' ' || t[0] == '\n')
    ensures !IsNoise(t)
  {
  }

  /** The token after a kept character never makes it a literal: a blanked token is two characters or the last one. */
  lemma LifetimeStays(s: string)
    requires s != "" && s[0] == '\'' && CharLiteral(s) == 0
    ensures CharLiteral([s[0]] + Stripped(s[1..])) == 0
  {
    hide IsNoise, NoiseLength, Stripped;
    var a := s[1..];
    var u := Stripped(a);
    StrippedIsBlanking(a);
    StrippedUnfold(a);
    if a != "" && !IsNoise(a) {
      var b := s[2..];
      assert a[1..] == b;
      var v := Stripped(b);
      StrippedIsBlanking(b);
      StrippedUnfold(b);
      if b != "" && !IsNoise(b) {
        assert b[1..] == s[3..];
        StrippedIsBlanking(s[3..]);
        assert v == [s[2]] + Stripped(s[3..]);
      }
    }
  }

  lemma KeptStaysQuiet(s: string)
    requires s != "" && !IsNoise(s)
    ensures !IsNoise([s[0]] + Stripped(s[1..]))
  {
    hide Stripped, NoiseLength;
    var u := Stripped(s[1..]);
    var t := [s[0]] + u;
    StrippedIsBlanking(s[1..]);
    StrippedHasNoOpeners(s[1..]);
    assert t[1..] == u;
    if s[0] == '\'' {
      LifetimeStays(s);
    }
    assert |s| >= 2 ==> u[0] == s[1] || u[0] == ' ';
    assert forall k :: 0 <= k < |u| ==> u[k] != '"';
  }

  lemma {:induction false} StrippedIsQuiet(s: string)
    ensures Quiet(Stripped(s))
    decreases |s|
  {
    hide IsNoise, NoiseLength, Stripped;
    StrippedUnfold(s);
    if s != "" {
      var n := if IsNoise(s) then NoiseLength(s) else 1;
      var t := Stripped(s);
      StrippedIsQuiet(s[n..]);
      forall k | 0 <= k < |t| ensures !IsNoise(t[k..]) {
        if k >= n {
          assert t[k..] == Stripped(s[n..])[k - n..];
        } else if IsNoise(s) {
          SpaceIsQuiet(t[k..]);
        } else {
          assert t[0..] == t;
          KeptStaysQuiet(s);
        }
      }
    }
  }

  /** Stripping stripped source changes nothing, for every source. */
  lemma StripIsIdempotent(s: string)
    ensures Stripped(Stripped(s)) == Stripped(s)
  {
    hide Stripped, Quiet;
    StrippedIsQuiet(s);
    StrippedQuiet(Stripped(s));
  }
}
