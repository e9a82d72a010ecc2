/** Comments and literals described by where they begin and end, and stripping as exactly blanking those. */
module RustLexemes {
  import opened Text
  import opened RustSource

  // ----- A string literal

  /** How many backslashes stand directly before `j`, back to the opening quote. */
  function Backslashes(s: string, j: nat): nat
    requires j <= |s|
  {
    if j <= 1 || s[j - 1] != '\\' then 0 else Backslashes(s, j - 1) + 1
  }

  /** A quote with an even number of backslashes before it. */
  predicate ClosesString(s: string, j: nat) {
    1 <= j < |s| && s[j] == '"' && Backslashes(s, j) % 2 == 0
  }

  /** The literal ends after its first closing quote, or with the source. */
  predicate IsStringEnd(s: string, e: nat) {
    e <= |s|
    && (forall k :: 1 <= k < e - 1 ==> !ClosesString(s, k))
    && (if e >= 2 && ClosesString(s, e - 1) then true else e == |s|)
  }

  lemma {:induction false} StringEndIs(s: string, j: nat)
    requires 1 <= j <= |s| && Backslashes(s, j) % 2 == 0 && forall k :: 1 <= k < j ==> !ClosesString(s, k)
    ensures IsStringEnd(s, StringEnd(s, j))
    decreases |s| - j
  {
    if j < |s| && s[j] != '"' {
      var next := if s[j] == '\\' then j + 2 else j + 1;
      assert Backslashes(s, j + 1) == if s[j] == '\\' then Backslashes(s, j) + 1 else 0;
      if next <= |s| {
        assert s[j] == '\\' ==> Backslashes(s, j + 2) == if s[j + 1] == '\\' then Backslashes(s, j) + 2 else 0;
        StringEndIs(s, next);
      }
    }
  }

  lemma StringEndUnique(s: string, e: nat, f: nat)
    requires IsStringEnd(s, e) && IsStringEnd(s, f) && s != ""
    ensures e == f
  {
    hide Backslashes;
  }

  // ----- A raw string

  /** A quote and then as many hashes as opened the string. */
  predicate QuoteAndHashes(s: string, j: nat, h: nat) {
    j + 1 + h <= |s| && s[j] == '"' && s[j + 1..j + 1 + h] == seq(h, i => '#')
  }

  /** `r`, its hashes and a quote open it; it ends after the first quote with its hashes, or with the source. */
  predicate IsRawEnd(s: string, h: nat, e: nat) {
    e <= |s|
    && (forall k :: h + 2 <= k && k + 1 + h < e ==> !QuoteAndHashes(s, k, h))
    && (if e >= 2 * h + 3 && QuoteAndHashes(s, e - 1 - h, h) then true else e == |s|)
  }

  predicate OpensRaw(s: string, h: nat) {
    |s| >= h + 2 && s[0] == 'r' && s[1..h + 1] == seq(h, i => '#') && s[h + 1] == '"'
  }

  lemma RawOpening(s: string, h: nat)
    ensures OpensRaw(s, h) <==> IsRawString(s) && h == Hashes(s[1..])
  {
    if OpensRaw(s, h) {
      var t := s[1..];
      assert forall i :: 0 <= i < h ==> t[i] == s[1..h + 1][i];
      assert t[h] == '"';
    }
    if IsRawString(s) && h == Hashes(s[1..]) {
      assert forall i :: 0 <= i < h ==> s[1..h + 1][i] == s[1..][i];
    }
  }

  lemma ClosesRawIs(s: string, j: nat, h: nat)
    ensures QuoteAndHashes(s, j, h) == ClosesRaw(s, j, h)
  {
    if j + 1 + h <= |s| {
      assert forall i :: j < i <= j + h ==> s[j + 1..j + 1 + h][i - j - 1] == s[i];
    }
  }

  lemma {:induction false} RawEndIs(s: string, j: nat, h: nat)
    requires h + 2 <= j <= |s| && forall k :: h + 2 <= k < j ==> !QuoteAndHashes(s, k, h)
    ensures IsRawEnd(s, h, RawEnd(s, j, h))
    decreases |s| - j
  {
    hide QuoteAndHashes, ClosesRaw;
    ClosesRawIs(s, j, h);
    if !ClosesRaw(s, j, h) && j < |s| {
      RawEndIs(s, j + 1, h);
    } else if !ClosesRaw(s, j, h) {
      if 2 * h + 3 <= |s| {
        assert !QuoteAndHashes(s, |s| - 1 - h, h);
      }
    }
  }

  lemma RawEndUnique(s: string, h: nat, e: nat, f: nat)
    requires IsRawEnd(s, h, e) && IsRawEnd(s, h, f)
    ensures e == f
  {
    hide QuoteAndHashes;
  }

  // ----- A block comment

  predicate IsDelimiter(t: string) {
    t == "/*" || t == "*/"
  }

  /** A piece at `j`: a delimiter, or one character at which none begins. */
  predicate IsPiece(s: string, j: nat, piece: string) {
    && j + |piece| <= |s| && s[j..j + |piece|] == piece
    && (IsDelimiter(piece) || (|piece| == 1 && !(j + 2 <= |s| && IsDelimiter(s[j..j + 2]))))
  }

  /** The text from `j` to `e`, read piece by piece from the left. */
  predicate Reads(s: string, j: nat, pieces: seq<string>, e: nat)
    decreases |pieces|
  {
    if pieces == [] then j == e <= |s|
    else IsPiece(s, j, pieces[0]) && Reads(s, j + |pieces[0]|, pieces[1..], e)
  }

  /** How deep comments are nested after the pieces, from `depth` before them: openers less closers. */
  function Nesting(depth: nat, pieces: seq<string>): int {
    depth + multiset(pieces)["/*"] - multiset(pieces)["*/"]
  }

  /** Nothing is closed before the last piece. */
  predicate StaysOpen(depth: nat, pieces: seq<string>) {
    forall i :: 0 <= i < |pieces| ==> Nesting(depth, pieces[..i]) > 0
  }

  /** Open until its last piece, and there closed, or the source is over. */
  predicate IsNested(s: string, j: nat, depth: nat, pieces: seq<string>, e: nat) {
    && Reads(s, j, pieces, e) && StaysOpen(depth, pieces)
    && (Nesting(depth, pieces) == 0 || (e == |s| && Nesting(depth, pieces) > 0))
  }

  /** The comment ends where its openers less its closers first come to zero, or with the source. */
  ghost predicate IsBlockEnd(s: string, e: nat) {
    exists pieces :: IsNested(s, 2, 1, pieces, e)
  }

  function After(depth: nat, piece: string): nat
    requires depth > 0
  {
    if piece == "/*" then depth + 1 else if piece == "*/" then depth - 1 else depth
  }

  lemma NestingCons(depth: nat, piece: string, rest: seq<string>)
    requires depth > 0
    ensures Nesting(depth, [piece] + rest) == Nesting(After(depth, piece), rest)
    ensures Nesting(depth, []) == depth
  {
    assert multiset([piece] + rest) == multiset{piece} + multiset(rest);
  }

  lemma StaysOpenCons(depth: nat, piece: string, rest: seq<string>)
    requires depth > 0
    ensures StaysOpen(depth, [piece] + rest) <==> StaysOpen(After(depth, piece), rest)
  {
    hide Nesting;
    var all, next := [piece] + rest, After(depth, piece);
    if StaysOpen(depth, all) {
      forall i | 0 <= i < |rest| ensures Nesting(next, rest[..i]) > 0 {
        assert all[..i + 1] == [piece] + rest[..i];
        NestingCons(depth, piece, rest[..i]);
      }
    }
    if StaysOpen(next, rest) {
      forall i | 0 <= i < |all| ensures Nesting(depth, all[..i]) > 0 {
        if i == 0 {
          assert all[..0] == [];
          NestingCons(depth, piece, []);
        } else {
          assert all[..i] == [piece] + rest[..i - 1];
          NestingCons(depth, piece, rest[..i - 1]);
        }
      }
    }
  }

  /** Nested text is a piece and then nested text. */
  lemma NestedCons(s: string, j: nat, depth: nat, piece: string, rest: seq<string>, e: nat)
    requires depth > 0
    ensures IsNested(s, j, depth, [piece] + rest, e) <==>
            IsPiece(s, j, piece) && IsNested(s, j + |piece|, After(depth, piece), rest, e)
  {
    hide IsPiece, Nesting, StaysOpen;
    assert ([piece] + rest)[0] == piece && ([piece] + rest)[1..] == rest;
    NestingCons(depth, piece, rest);
    StaysOpenCons(depth, piece, rest);
  }

  function PieceAt(s: string, j: nat): string
    requires j < |s|
  {
    if j + 2 <= |s| && IsDelimiter(s[j..j + 2]) then s[j..j + 2] else s[j..j + 1]
  }

  lemma PieceIs(s: string, j: nat, piece: string)
    requires j < |s|
    ensures IsPiece(s, j, piece) <==> piece == PieceAt(s, j)
  {
  }

  lemma BlockEndStep(s: string, j: nat, depth: nat)
    requires j <= |s|
    ensures BlockEnd(s, j, depth) ==
            if j == |s| || depth == 0 then j
            else BlockEnd(s, j + |PieceAt(s, j)|, After(depth, PieceAt(s, j)))
  {
    if j + 2 <= |s| {
      assert s[j..j + 2] == [s[j], s[j + 1]];
    }
  }

  lemma {:induction false} BlockEndIs(s: string, j: nat, depth: nat) returns (pieces: seq<string>)
    requires j <= |s|
    ensures IsNested(s, j, depth, pieces, BlockEnd(s, j, depth))
    decreases |s| - j
  {
    hide IsNested, BlockEnd, PieceAt, Nesting;
    BlockEndStep(s, j, depth);
    if j == |s| || depth == 0 {
      pieces := [];
      NestedNothing(s, j, depth);
    } else {
      var piece := PieceAt(s, j);
      PieceIs(s, j, piece);
      var rest := BlockEndIs(s, j + |piece|, After(depth, piece));
      pieces := [piece] + rest;
      NestedCons(s, j, depth, piece, rest, BlockEnd(s, j, depth));
    }
  }

  lemma NestedNothing(s: string, j: nat, depth: nat)
    requires j <= |s|
    ensures forall e :: IsNested(s, j, depth, [], e) <==> e == j && (depth == 0 || j == |s|)
  {
  }

  lemma {:induction false} BlockEndUnique(s: string, j: nat, depth: nat, pieces: seq<string>, e: nat)
    requires j <= |s| && IsNested(s, j, depth, pieces, e)
    ensures e == BlockEnd(s, j, depth)
    decreases |pieces|
  {
    hide BlockEnd, PieceAt, Nesting, IsPiece;
    BlockEndStep(s, j, depth);
    NestedNothing(s, j, depth);
    if pieces != [] {
      assert pieces == [pieces[0]] + pieces[1..];
      OpenAtFirst(s, j, depth, pieces, e);
      PieceIs(s, j, pieces[0]);
      NestedCons(s, j, depth, pieces[0], pieces[1..], e);
      hide IsNested;
      BlockEndUnique(s, j + |pieces[0]|, After(depth, pieces[0]), pieces[1..], e);
    }
  }

  lemma OpenAtFirst(s: string, j: nat, depth: nat, pieces: seq<string>, e: nat)
    requires IsNested(s, j, depth, pieces, e) && pieces != []
    ensures depth > 0 && j < |s|
  {
    assert pieces[..0] == [] && Nesting(depth, pieces[..0]) > 0;
  }

  // ----- Every lexeme

  /** A line comment ends before its newline, or with the source. */
  predicate IsLineEnd(s: string, e: nat) {
    e <= |s| && '\n' !in s[..e] && (e == |s| || s[e] == '\n')
  }

  /** One character, or a backslash and one character, between single quotes. */
  predicate IsCharLiteral(t: string) {
    || (|t| == 3 && t[0] == '\'' && t[1] != '\\' && t[1] != '\'' && t[2] == '\'')
    || (|t| == 4 && t[0] == '\'' && t[1] == '\\' && t[2] != '\n' && t[3] == '\'')
  }

  /** A comment or literal opens the source and ends at `e`. */
  ghost predicate IsLexeme(s: string, e: nat) {
    || ("//" <= s && IsLineEnd(s, e))
    || ("/*" <= s && IsBlockEnd(s, e))
    || (exists h :: OpensRaw(s, h) && IsRawEnd(s, h, e))
    || ("\"" <= s && IsStringEnd(s, e))
    || (e <= |s| && IsCharLiteral(s[..e]))
  }

  lemma LineLexeme(s: string, e: nat)
    requires IsLineComment(s)
    ensures IsLineEnd(s, e) <==> e == IndexOf(s, '\n')
  {
    var n := IndexOf(s, '\n');
    assert forall k :: 0 <= k < n ==> s[..n][k] == s[k];
    if e <= |s| {
      assert forall k :: 0 <= k < e ==> s[..e][k] == s[k];
    }
  }

  lemma BlockLexeme(s: string, e: nat)
    requires IsBlockComment(s)
    ensures IsBlockEnd(s, e) <==> e == BlockEnd(s, 2, 1)
  {
    hide IsNested, BlockEnd;
    var pieces := BlockEndIs(s, 2, 1);
    if IsBlockEnd(s, e) {
      var other :| IsNested(s, 2, 1, other, e);
      BlockEndUnique(s, 2, 1, other, e);
    }
  }

  lemma RawLexeme(s: string, e: nat)
    ensures (exists h :: OpensRaw(s, h) && IsRawEnd(s, h, e)) <==>
            IsRawString(s) && e == RawEnd(s, Hashes(s[1..]) + 2, Hashes(s[1..]))
  {
    hide OpensRaw, IsRawEnd, RawEnd;
    if IsRawString(s) {
      var h := Hashes(s[1..]);
      RawOpening(s, h);
      RawEndIs(s, h + 2, h);
      if IsRawEnd(s, h, e) {
        RawEndUnique(s, h, e, RawEnd(s, h + 2, h));
      }
    }
    forall h | OpensRaw(s, h) ensures IsRawString(s) && h == Hashes(s[1..]) {
      RawOpening(s, h);
    }
  }

  lemma StringLexeme(s: string, e: nat)
    requires IsString(s)
    ensures IsStringEnd(s, e) <==> e == StringEnd(s, 1)
  {
    hide IsStringEnd, StringEnd;
    StringEndIs(s, 1);
    if IsStringEnd(s, e) {
      StringEndUnique(s, e, StringEnd(s, 1));
    }
  }

  lemma CharLexeme(s: string, e: nat)
    ensures e <= |s| && IsCharLiteral(s[..e]) <==> CharLiteral(s) > 0 && e == CharLiteral(s)
  {
    assert forall i :: 0 <= i < e <= |s| ==> s[..e][i] == s[i];
  }

  /** The lexer's noise is the lexemes: one opens the source, and ends there, exactly when the lexer says so. */
  lemma LexemeIsNoise(s: string, e: nat)
    ensures IsLexeme(s, e) <==> IsNoise(s) && e == NoiseLength(s)
  {
    hide IsLineEnd, IsBlockEnd, OpensRaw, IsRawEnd, IsStringEnd, IsCharLiteral;
    hide BlockEnd, RawEnd, StringEnd, CharLiteral, IndexOf, NoiseLength, Hashes;
    OpenersAre(s);
    RawLexeme(s, e);
    CharLexeme(s, e);
    CharOpens(s);
    if IsNoise(s) {
      NoiseLengthIs(s);
    }
    if IsLineComment(s) {
      LineLexeme(s, e);
    } else if IsBlockComment(s) {
      BlockLexeme(s, e);
    } else if IsString(s) {
      StringLexeme(s, e);
    }
  }

  lemma OpenersAre(s: string)
    ensures "//" <= s <==> IsLineComment(s)
    ensures "/*" <= s <==> IsBlockComment(s)
    ensures "\"" <= s <==> IsString(s)
  {
    if |s| >= 2 {
      assert s[..2] == [s[0], s[1]];
    }
  }

  lemma CharOpens(s: string)
    ensures CharLiteral(s) > 0 ==> s != "" && s[0] == '\''
  {
  }

  // ----- Stripping

  /** Up to `e`, everything but newlines is a space. */
  predicate IsBlank(s: string, t: string, e: nat) {
    e <= |s| == |t| && forall k :: 0 <= k < e ==> t[k] == if s[k] == '\n' then '\n' else ' '
  }

  /** `t` is `s` read from the left: a lexeme is blank, and a character at which none begins is itself. */
  ghost predicate IsLexed(s: string, t: string)
    decreases |s|
  {
    && |t| == |s|
    && (s == ""
        || (exists e :: 0 < e <= |s| && IsLexeme(s, e) && IsBlank(s, t, e) && IsLexed(s[e..], t[e..]))
        || ((forall e :: !IsLexeme(s, e)) && t[0] == s[0] && IsLexed(s[1..], t[1..])))
  }

  /** For every source: the stripped text is the one that blanks every comment and literal and keeps every
      other character, and there is no other. */
  lemma {:induction false} StrippedIffLexed(s: string, t: string)
    ensures IsLexed(s, t) <==> t == Stripped(s)
    decreases |s|
  {
    hide IsLexeme, IsNoise, NoiseLength, Stripped, Blanked;
    StrippedUnfold(s);
    forall e ensures IsLexeme(s, e) <==> IsNoise(s) && e == NoiseLength(s) {
      LexemeIsNoise(s, e);
    }
    if s != "" && |t| == |s| {
      if IsNoise(s) {
        var n := NoiseLength(s);
        assert IsLexeme(s, n);
        StrippedIffLexed(s[n..], t[n..]);
        BlankIs(s, t, n);
        assert t == t[..n] + t[n..];
        SplitEquals(t, Blanked(s[..n]), Stripped(s[n..]));
      } else {
        StrippedIffLexed(s[1..], t[1..]);
        assert t == [t[0]] + t[1..];
        SplitEquals(t, [s[0]], Stripped(s[1..]));
      }
    }
  }

  lemma BlankIs(s: string, t: string, n: nat)
    requires n <= |s| == |t|
    ensures IsBlank(s, t, n) <==> t[..n] == Blanked(s[..n])
  {
    assert forall k :: 0 <= k < n ==> t[..n][k] == t[k] && s[..n][k] == s[k];
  }

  lemma SplitEquals(t: string, a: string, b: string)
    requires |t| == |a| + |b|
    ensures t == a + b <==> t[..|a|] == a && t[|a|..] == b
  {
    assert t == t[..|a|] + t[|a|..];
    assert (a + b)[..|a|] == a && (a + b)[|a|..] == b;
  }
}
