/** Slugs: the plain names posts, pages and links are served under. */
module Slug {

  predicate IsAlnum(c: char) {
    '0' <= c <= '9' || 'a' <= c <= 'z' || 'A' <= c <= 'Z'
  }

  function Lower(c: char): char {
    if 'A' <= c <= 'Z' then (c as int + 32) as char else c
  }

  predicate IsLowerAlnum(c: char) {
    '0' <= c <= '9' || 'a' <= c <= 'z'
  }

  predicate EndsAlnum(s: string) {
    s != "" && IsAlnum(s[|s| - 1])
  }

  /** The maximal runs of ASCII letters and digits, lowercased. */
  function Groups(s: string): (gs: seq<string>)
    ensures EndsAlnum(s) ==> gs != []
  {
    if s == "" then []
    else
      var prev, c := s[..|s| - 1], s[|s| - 1];
      var gs := Groups(prev);
      if !IsAlnum(c) then gs
      else if EndsAlnum(prev) then gs[..|gs| - 1] + [gs[|gs| - 1] + [Lower(c)]]
      else gs + [[Lower(c)]]
  }

  function Join(gs: seq<string>): string {
    if gs == [] then ""
    else if |gs| == 1 then gs[0]
    else Join(gs[..|gs| - 1]) + "-" + gs[|gs| - 1]
  }

  /** The slug of a string: its runs of letters and digits, joined by single hyphens. */
  function SlugOf(s: string): string {
    Join(Groups(s))
  }

  predicate PendingHyphen(s: string) {
    Groups(s) != [] && !EndsAlnum(s)
  }

  predicate AreGroups(gs: seq<string>) {
    forall i :: 0 <= i < |gs| ==> gs[i] != "" && forall j :: 0 <= j < |gs[i]| ==> IsLowerAlnum(gs[i][j])
  }

  lemma {:induction false} GroupsAreGroups(s: string)
    ensures AreGroups(Groups(s))
  {
    if s != "" {
      GroupsAreGroups(s[..|s| - 1]);
    }
  }

  lemma JoinSnoc(gs: seq<string>, g: string)
    ensures Join(gs + [g]) == if gs == [] then g else Join(gs) + "-" + g
  {
    assert (gs + [g])[..|gs|] == gs;
  }

  lemma {:induction false} JoinEndsAlnum(gs: seq<string>)
    requires AreGroups(gs) && gs != []
    ensures Join(gs) != "" && IsLowerAlnum(Join(gs)[|Join(gs)| - 1])
  {
    var g := gs[|gs| - 1];
    assert IsLowerAlnum(g[|g| - 1]);
  }

  lemma JoinGrowLast(gs: seq<string>, c: char)
    requires gs != []
    ensures Join(gs[..|gs| - 1] + [gs[|gs| - 1] + [c]]) == Join(gs) + [c]
  {
    hide Join;
    var init, g := gs[..|gs| - 1], gs[|gs| - 1];
    assert gs == init + [g];
    JoinSnoc(init, g);
    JoinSnoc(init, g + [c]);
    if init != [] {
      var j := Join(init) + "-";
      assert j + (g + [c]) == j + g + [c];
    }
  }

  /** What `out` holds once `p` has been read: the slug so far, and a hyphen a separator has asked for. */
  function Buffered(p: string): string {
    SlugOf(p) + (if PendingHyphen(p) then "-" else "")
  }

  lemma BufferedStep(p: string, c: char)
    ensures Buffered(p + [c]) ==
            if IsAlnum(c) then Buffered(p) + [Lower(c)]
            else if Buffered(p) != "" && !PendingHyphen(p) then Buffered(p) + "-"
            else Buffered(p)
    ensures PendingHyphen(p + [c]) <==> !IsAlnum(c) && Buffered(p) != ""
    ensures PendingHyphen(p) ==> Buffered(p) != ""
  {
    hide Join;
    assert (p + [c])[..|p|] == p;
    var gs := Groups(p);
    GroupsAreGroups(p);
    JoinSnoc(gs, [Lower(c)]);
    if gs != [] {
      JoinEndsAlnum(gs);
      JoinGrowLast(gs, Lower(c));
    } else {
      assert Join(gs) == "" by { JoinNothing(); }
    }
  }

  lemma JoinNothing()
    ensures Join([]) == ""
  {
  }

  method Slugify(s: string) returns (out: string)
    ensures out == SlugOf(s)
  {
    hide SlugOf, Buffered, PendingHyphen;
    out := "";
    var prevHyphen := false;
    NothingBuffered();
    for i := 0 to |s|
      invariant out == Buffered(s[..i]) && prevHyphen == PendingHyphen(s[..i])
    {
      var c := s[i];
      assert s[..i + 1] == s[..i] + [c];
      BufferedStep(s[..i], c);
      if IsAlnum(c) {
        out := out + [Lower(c)];
        prevHyphen := false;
      } else if out != "" && !prevHyphen {
        out := out + "-";
        prevHyphen := true;
      }
    }
    assert s[..|s|] == s;
    TrimmedIsSlug(s);
    while out != "" && out[|out| - 1] == '-'
      invariant out == Buffered(s) || out == SlugOf(s)
      decreases |out|
    {
      out := out[..|out| - 1];
    }
  }

  lemma NothingBuffered()
    ensures Buffered("") == "" && !PendingHyphen("")
  {
  }

  lemma TrimmedIsSlug(s: string)
    ensures SlugOf(s) == "" || SlugOf(s)[|SlugOf(s)| - 1] != '-'
    ensures Buffered(s) != "" && Buffered(s)[|Buffered(s)| - 1] == '-' ==> Buffered(s)[..|Buffered(s)| - 1] == SlugOf(s)
    ensures Buffered(s) == "" || Buffered(s)[|Buffered(s)| - 1] != '-' ==> Buffered(s) == SlugOf(s)
  {
    hide Join;
    GroupsAreGroups(s);
    if Groups(s) == [] {
      JoinNothing();
    } else {
      JoinEndsAlnum(Groups(s));
    }
  }

  // ----- The language of slugs

  /** Lowercase letters and digits in groups joined by single hyphens; the empty string counts. */
  predicate IsSlug(t: string) {
    && (forall i :: 0 <= i < |t| ==> IsLowerAlnum(t[i]) || t[i] == '-')
    && (t != "" ==> t[0] != '-' && t[|t| - 1] != '-')
    && (forall i :: 0 <= i < |t| - 1 ==> !(t[i] == '-' && t[i + 1] == '-'))
  }

  lemma {:induction false} JoinIsSlug(gs: seq<string>)
    requires AreGroups(gs)
    ensures IsSlug(Join(gs))
  {
    if |gs| == 1 {
      assert IsLowerAlnum(gs[0][0]);
    } else if |gs| > 1 {
      var init, g := gs[..|gs| - 1], gs[|gs| - 1];
      JoinIsSlug(init);
      JoinEndsAlnum(init);
      assert IsLowerAlnum(g[0]) && IsLowerAlnum(g[|g| - 1]);
    }
  }

  /** Every output is a slug. */
  lemma SlugOfIsSlug(s: string)
    ensures IsSlug(SlugOf(s))
  {
    GroupsAreGroups(s);
    JoinIsSlug(Groups(s));
  }

  lemma {:induction false} PrefixBuffered(t: string, n: nat)
    requires IsSlug(t) && n <= |t|
    ensures Buffered(t[..n]) == t[..n]
    ensures PendingHyphen(t[..n]) <==> n > 0 && t[n - 1] == '-'
  {
    hide Buffered, PendingHyphen;
    if n == 0 {
      NothingBuffered();
    } else {
      PrefixBuffered(t, n - 1);
      assert t[..n] == t[..n - 1] + [t[n - 1]];
      BufferedStep(t[..n - 1], t[n - 1]);
      if n >= 2 {
        var k := n - 2;
        assert !(t[k] == '-' && t[k + 1] == '-');
      }
    }
  }

  /** A string is its own slug exactly when it is one. */
  lemma SlugFixesSlugs(t: string)
    ensures SlugOf(t) == t <==> IsSlug(t)
  {
    SlugOfIsSlug(t);
    if IsSlug(t) {
      PrefixBuffered(t, |t|);
      assert t[..|t|] == t;
      TrimmedIsSlug(t);
    }
  }

  lemma SlugIsIdempotent(s: string)
    ensures SlugOf(SlugOf(s)) == SlugOf(s)
  {
    SlugOfIsSlug(s);
    SlugFixesSlugs(SlugOf(s));
  }

  predicate IsUsableName(name: string) {
    name != "" && SlugOf(name) == name
  }

  /** `is_usable_name` accepts exactly the non-empty slugs. */
  lemma UsableNamesAreSlugs(name: string)
    ensures IsUsableName(name) <==> name != "" && IsSlug(name)
  {
    SlugFixesSlugs(name);
  }

  // ----- A slug and the string it was made from, side by side

  const ALPHABET: string := "abcdefghi" + "jklmnopqr" + "stuvwxyz"

  /** An ASCII letter or digit, each capital as the letter at its place in the alphabet. */
  function Folded(c: char): char {
    if 'A' <= c <= 'Z' then ALPHABET[c as int - 'A' as int] else c
  }

  /** The places of the letters and digits of `s`, in order. */
  function Letters(s: string): (from: seq<nat>)
    ensures forall n :: 0 <= n < |from| ==> from[n] < |s|
  {
    if s == "" then []
    else
      var n := |s| - 1;
      Letters(s[..n]) + (if IsAsciiAlnum(s[n]) then [n] else [])
  }

  predicate IsAsciiAlnum(c: char) {
    48 <= c as int <= 57 || 65 <= c as int <= 90 || 97 <= c as int <= 122
  }

  /** `t` holds the letters and digits at `from` in `s`, folded, at the places `at`: next to each other when they
      are next to each other in `s`, with one hyphen between them when they are not, and nothing else. */
  predicate Spells(s: string, t: string, from: seq<nat>, at: seq<nat>) {
    && |at| == |from| && (from == [] ==> t == "")
    && (forall n :: 0 <= n < |from| ==> at[n] < |t| && from[n] < |s| && t[at[n]] == Folded(s[from[n]]))
    && (from != [] ==> at[0] == 0 && at[|at| - 1] == |t| - 1)
    && (forall n :: 1 <= n < |from| ==>
          if from[n] == from[n - 1] + 1 then at[n] == at[n - 1] + 1
          else at[n] == at[n - 1] + 2 && t[at[n] - 1] == '-')
  }

  lemma AlnumIs(c: char)
    ensures IsAsciiAlnum(c) <==> IsAlnum(c)
    ensures IsAlnum(c) ==> Folded(c) == Lower(c)
  {
    hide ALPHABET;
    Alphabet();
  }

  lemma Alphabet()
    ensures |ALPHABET| == 26 && forall i :: 0 <= i < 26 ==> ALPHABET[i] as int == 'a' as int + i
  {
    var a, b, c := "abcdefghi", "jklmnopqr", "stuvwxyz";
    assert forall i :: 0 <= i < 9 ==> a[i] as int == 'a' as int + i;
    assert forall i :: 0 <= i < 9 ==> b[i] as int == 'j' as int + i;
    assert forall i :: 0 <= i < 8 ==> c[i] as int == 's' as int + i;
    assert 'j' as int == 'a' as int + 9 && 's' as int == 'a' as int + 18;
  }

  lemma LastLetter(p: string)
    ensures var from := Letters(p);
            && (EndsAlnum(p) ==> from != [] && from[|from| - 1] == |p| - 1)
            && (!EndsAlnum(p) && from != [] ==> from[|from| - 1] < |p| - 1)
  {
    hide IsAsciiAlnum, IsAlnum;
    if p != "" {
      AlnumIs(p[|p| - 1]);
    }
  }

  lemma {:induction false} GroupsIffLetters(p: string)
    ensures Groups(p) == [] <==> Letters(p) == []
  {
    hide IsAsciiAlnum, IsAlnum;
    if p != "" {
      AlnumIs(p[|p| - 1]);
      GroupsIffLetters(p[..|p| - 1]);
    }
  }

  lemma SlugSnoc(p: string, c: char)
    ensures SlugOf(p + [c]) ==
            if !IsAlnum(c) then SlugOf(p)
            else if EndsAlnum(p) || Groups(p) == [] then SlugOf(p) + [Lower(c)]
            else SlugOf(p) + "-" + [Lower(c)]
    ensures SlugOf("") == ""
  {
    hide Join, IsAlnum;
    JoinNothing();
    assert (p + [c])[..|p|] == p;
    var gs := Groups(p);
    JoinSnoc(gs, [Lower(c)]);
    if gs != [] {
      JoinGrowLast(gs, Lower(c));
    }
  }

  /** For every string: its slug is its letters and digits, folded, in order, with a hyphen exactly where
      something else stood between two of them. */
  lemma {:induction false} SlugSpells(s: string) returns (at: seq<nat>)
    ensures Spells(s, SlugOf(s), Letters(s), at)
  {
    hide SlugOf, IsAlnum, IsAsciiAlnum, Folded, Lower, Groups, EndsAlnum, Spells;
    if s == "" {
      SlugSnoc("", 'a');
      at := [];
      SpellsNothing();
    } else {
      var p, c := s[..|s| - 1], s[|s| - 1];
      assert s == p + [c];
      at := SlugSpells(p);
      var t, from := SlugOf(p), Letters(p);
      SlugSnoc(p, c);
      AlnumIs(c);
      LastLetter(p);
      GroupsIffLetters(p);
      if IsAlnum(c) {
        var gap := !EndsAlnum(p) && from != [];
        SpellsMore(p, c, t, from, at, gap);
        at := at + [if gap then |t| + 1 else |t|];
      } else {
        SpellsOn(p, c, t, from, at);
        assert from + [] == from;
      }
    }
  }

  lemma SpellsNothing()
    ensures Spells("", "", [], [])
  {
  }

  /** A further character of `s` that is no letter changes nothing. */
  lemma SpellsOn(p: string, c: char, t: string, from: seq<nat>, at: seq<nat>)
    requires Spells(p, t, from, at)
    ensures Spells(p + [c], t, from, at)
  {
    hide Folded;
    assert forall n :: 0 <= n < |from| ==> (p + [c])[from[n]] == p[from[n]];
  }

  lemma SpellsMore(p: string, c: char, t: string, from: seq<nat>, at: seq<nat>, gap: bool)
    requires Spells(p, t, from, at)
    requires from != [] ==> if gap then from[|from| - 1] < |p| - 1 else from[|from| - 1] == |p| - 1
    requires from == [] ==> !gap
    ensures var u := if gap then t + "-" + [Folded(c)] else t + [Folded(c)];
            Spells(p + [c], u, from + [|p|], at + [if gap then |t| + 1 else |t|])
  {
    hide Folded;
    var u := if gap then t + "-" + [Folded(c)] else t + [Folded(c)];
    assert forall i :: 0 <= i < |t| ==> u[i] == t[i];
    assert forall n :: 0 <= n < |from| ==> (p + [c])[from[n]] == p[from[n]];
    assert (p + [c])[|p|] == c && u[|u| - 1] == Folded(c);
  }
}
