/** Where a record may be cut so that the next one, glued to what is left of it, is still read. */
module RecordCuts {
  import opened Calendar
  import opened Text
  import opened Record
  import opened RecordProofs

  /** A cut inside a word leaves a fragment that depends on that word and on what was read before it. */
  lemma HealsInWord(a: string, b: string)
    requires !EndsInWord(a) && b != "" && NoSpace(b)
    ensures Heals(a + b) <==>
            && TakesDay(b) && Tokens(a) != [] && Tokens(a)[0] == "DAY"
            && ReadFields(Partial(None, ZERO), Tokens(a)[1..]).Some?
  {
    hide Tokens, ReadFields, TakesDay, IsSpace;
    LastWordIs(a, b);
    assert (a + b)[..|a|] == a && (a + b)[|a|..] == b;
    TokensInWord(a, b, "", "");
  }

  /** A cut between words never heals, unless it is the cut at the very beginning. */
  lemma HealsBetween(a: string)
    requires !EndsInWord(a)
    ensures Heals(a) <==> Tokens(a) == []
  {
    hide Tokens, ReadFields, TakesDay;
  }

  lemma TakesDayCut(key: string, value: string, k: nat)
    requires '=' !in key && k <= |key + "=" + value|
    ensures TakesDay((key + "=" + value)[..k]) <==> k > |key| && key != "date" && key !in KEYS
  {
    var w := key + "=" + value;
    if k <= |key| {
      assert w[..k] == key[..k];
    } else {
      assert w[..k] == key + ['='] + value[..k - |key| - 1];
      SplitOnceIs(key, '=', value[..k - |key| - 1]);
    }
  }

  /** A cut inside ` word`, after `a`: before the word, or somewhere in it. */
  lemma CutField(a: string, key: string, value: string, k: nat)
    requires Tokens(a) != [] && NoSpace(key + "=" + value) && '=' !in key && 1 <= k <= 1 + |key + "=" + value|
    ensures Heals(a + (" " + (key + "=" + value))[..k]) <==>
            && k > 1 + |key| && key != "date" && key !in KEYS
            && Tokens(a)[0] == "DAY" && ReadFields(Partial(None, ZERO), Tokens(a)[1..]).Some?
  {
    hide Tokens, ReadFields, TakesDay, Heals;
    var w := key + "=" + value;
    WordsThenSpace(a);
    assert !EndsInWord(a + " ") by { DayIsWord(); }
    if k == 1 {
      assert (" " + w)[..k] == " ";
      HealsBetween(a + " ");
    } else {
      assert (" " + w)[..k] == " " + w[..k - 1] && a + (" " + w[..k - 1]) == a + " " + w[..k - 1];
      HealsInWord(a + " ", w[..k - 1]);
      TakesDayCut(key, value, k - 1);
    }
  }

  /** A space after `a` changes none of its tokens. */
  lemma WordsThenSpace(a: string)
    ensures Tokens(a + " ") == Tokens(a)
  {
    hide Tokens;
    assert Tokens(" ") == [] by { SpaceIsNoToken(); }
    if EndsInWord(a) {
      var n := LastWord(a);
      assert a == a[..n] + a[n..] && a[..n] + a[n..] + ("" + " ") == a + " ";
      DayIsWord();
      TokensInWord(a[..n], a[n..], "", " ");
      assert a[n..] + "" == a[n..] && Tokens(a) + [] == Tokens(a);
    } else {
      TokensAfterSpace(a, " ");
      assert Tokens(a) + [] == Tokens(a);
    }
  }

  lemma SpaceIsNoToken()
    ensures Tokens(" ") == []
  {
  }

  /** No cut among the totals heals. */
  lemma {:induction false} CutInKeys(a: string, c: Counts, i: nat, k: nat)
    requires i <= 6 && Tokens(a) != [] && 1 <= k <= |KeyFields(c, i)|
    ensures !Heals(a + KeyFields(c, i)[..k])
    decreases 6 - i
  {
    hide Tokens, Heals, KeyFields, ReadFields, Dec;
    if i == 6 {
      KeyFieldsEnd(c);
    } else {
      var w, rest := " " + Field(c, i), KeyFields(c, i + 1);
      KeyFieldsCons(c, i);
      KeyShape(i);
      KeyDistinct(i);
      FieldNoSpace(c, i);
      if k <= |w| {
        assert (w + rest)[..k] == w[..k];
        CutField(a, KEYS[i], Dec(c.Get(i)), k);
      } else {
        assert (w + rest)[..k] == w + rest[..k - |w|] && a + (w + rest[..k - |w|]) == a + w + rest[..k - |w|];
        TokensOfField(a, Field(c, i));
        CutInKeys(a + w, c, i + 1, k - |w|);
      }
    }
  }

  lemma TokensOfField(a: string, w: string)
    requires w != "" && NoSpace(w)
    ensures Tokens(a + (" " + w)) == Tokens(a) + [w]
  {
    hide Tokens;
    WordsThenSpace(a);
    assert !EndsInWord(a + " ") by { DayIsWord(); }
    assert a + (" " + w) == a + " " + w;
    TokensInWord(a + " ", w, "", "");
  }

  // ----- The parts of a record

  function DatePart(d: Date): string
    requires IsDate(d)
  {
    "DAY" + (" " + ("date=" + DateText(d)))
  }

  function ZonePart(d: Date): string
    requires IsDate(d)
  {
    DatePart(d) + (" " + "tz=UTC")
  }

  function TotalsPart(d: Date, c: Counts): string
    requires IsDate(d)
  {
    ZonePart(d) + KeyFields(c, 0)
  }

  lemma RecordParts(d: Date, c: Counts, now: Reading)
    requires IsDate(d)
    ensures RecordText(d, c, now) == TotalsPart(d, c) + (" " + ("written=" + Stamp(now))) + "\n"
  {
    hide KeyFields, DateText, Stamp, RecordText;
    RecordTextShape(d, c, now);
    assert "DAY" + (" " + ("date=" + DateText(d))) == "DAY date=" + DateText(d);
    assert " " + "tz=UTC" == " tz=UTC" && " " + ("written=" + Stamp(now)) == " written=" + Stamp(now);
  }

  lemma PartTokens(d: Date)
    requires IsDate(d)
    ensures Tokens("DAY") == ["DAY"]
    ensures Tokens(DatePart(d)) == ["DAY", "date=" + DateText(d)]
    ensures Tokens(ZonePart(d)) == ["DAY", "date=" + DateText(d), "tz=UTC"]
  {
    hide Tokens, DateText;
    DateTextNoSpace(d);
    DayIsWord();
    TokensWord("DAY");
    TokensOfField("DAY", "date=" + DateText(d));
    TokensOfField(DatePart(d), "tz=UTC");
  }

  lemma {:induction false} TokensOfKeys(a: string, c: Counts, i: nat)
    requires i <= 6
    ensures Tokens(a + KeyFields(c, i)) == Tokens(a) + KeyTokens(c, i)
    decreases 6 - i
  {
    hide Tokens, KeyFields, Field;
    if i == 6 {
      KeyFieldsEnd(c);
      assert a + "" == a;
    } else {
      KeyFieldsCons(c, i);
      FieldNoSpace(c, i);
      TokensOfField(a, Field(c, i));
      TokensOfKeys(a + (" " + Field(c, i)), c, i + 1);
      assert a + (" " + Field(c, i) + KeyFields(c, i + 1)) == a + (" " + Field(c, i)) + KeyFields(c, i + 1);
    }
  }

  lemma ReadDatePart(d: Date)
    requires IsDate(d)
    ensures ReadFields(Partial(None, ZERO), ["date=" + DateText(d)]).Some? <==> FourDigitYear(d)
  {
    hide ReadField, DateText;
    var fields := ["date=" + DateText(d)];
    ReadDateField(Partial(None, ZERO), d);
    assert fields[1..] == [];
  }

  lemma ReadTotalsPart(d: Date, c: Counts)
    requires IsDate(d)
    ensures ReadFields(Partial(None, ZERO), ["date=" + DateText(d), "tz=UTC"] + KeyTokens(c, 0)).Some? <==>
            FourDigitYear(d) && c.Fits()
  {
    hide ReadFields, DateText, KeyTokens, Overwritten;
    var p := Partial(None, ZERO);
    ReadFieldsConcat(p, ["date=" + DateText(d), "tz=UTC"], KeyTokens(c, 0));
    ReadHead(p, d);
    ReadKeys(p.(date := Some(d)), c, 0);
    assert FitsFrom(c, 0) == c.Fits();
  }

  // ----- Every cut

  lemma CutInDate(d: Date, n: nat)
    requires IsDate(d) && 0 < n <= |DatePart(d)|
    ensures !Heals(DatePart(d)[..n])
  {
    hide Tokens, Heals, DateText, ReadFields;
    PartTokens(d);
    DateTextNoSpace(d);
    if n <= 3 {
      assert DatePart(d)[..n] == "" + "DAY"[..n];
      assert TakesDay("DAY"[..n]) == false;
      DayIsWord();
      HealsInWord("", "DAY"[..n]);
    } else {
      assert "date=" + DateText(d) == "date" + "=" + DateText(d);
      var w := " " + ("date" + "=" + DateText(d));
      assert DatePart(d)[..n] == "DAY" + w[..n - 3];
      CutField("DAY", "date", DateText(d), n - 3);
    }
  }

  lemma CutInZone(d: Date, n: nat)
    requires IsDate(d) && |DatePart(d)| < n <= |ZonePart(d)|
    ensures Heals(ZonePart(d)[..n]) <==> FourDigitYear(d) && n >= |DatePart(d)| + 4
  {
    hide Tokens, Heals, DatePart, ReadFields, NoSpace, DateText;
    var a, k := DatePart(d), n - |DatePart(d)|;
    PartTokens(d);
    ReadDatePart(d);
    OtherKeys();
    assert "tz" + "=" + "UTC" == "tz=UTC";
    assert ZonePart(d)[..n] == a + (" " + ("tz" + "=" + "UTC"))[..k];
    assert Tokens(a)[1..] == ["date=" + DateText(d)];
    CutField(a, "tz", "UTC", k);
  }

  lemma CutInWritten(d: Date, c: Counts, now: Reading, k: nat)
    requires IsDate(d) && 1 <= k <= 9 + |Stamp(now)|
    ensures Heals(TotalsPart(d, c) + (" " + ("written=" + Stamp(now)))[..k]) <==>
            FourDigitYear(d) && c.Fits() && k >= 9
  {
    hide Tokens, Heals, ZonePart, ReadFields, KeyFields, KeyTokens, Stamp, NoSpace, DateText;
    var a := TotalsPart(d, c);
    TotalsTokens(d, c);
    ReadTotalsPart(d, c);
    StampNoSpace(now);
    OtherKeys();
    assert "written" + "=" + Stamp(now) == "written=" + Stamp(now);
    CutField(a, "written", Stamp(now), k);
  }

  lemma TotalsTokens(d: Date, c: Counts)
    requires IsDate(d)
    ensures var ts := Tokens(TotalsPart(d, c));
            ts != [] && ts[0] == "DAY" && ts[1..] == ["date=" + DateText(d), "tz=UTC"] + KeyTokens(c, 0)
  {
    hide Tokens, ZonePart, KeyFields, KeyTokens, DateText;
    PartTokens(d);
    TokensOfKeys(ZonePart(d), c, 0);
  }

  lemma OtherKeys()
    ensures '=' !in "tz" && "tz" != "date" && "tz" !in KEYS && NoSpace("tz=UTC")
    ensures '=' !in "written" && "written" != "date" && "written" !in KEYS
  {
    assert "tz"[0] != 'd' && "written"[0] != 'd' && |"written"| == 7 && |"tz"| == 2;
    KeyDistinct(0);
    KeyDistinct(1);
    KeyDistinct(2);
    KeyDistinct(3);
    KeyDistinct(4);
    KeyDistinct(5);
  }

  /** Where the value of `tz` begins, and where it ends. */
  function ZoneFrom(d: Date): nat
    requires IsDate(d)
  {
    |DatePart(d)| + |" tz="|
  }

  function ZoneTo(d: Date): nat
    requires IsDate(d)
  {
    |ZonePart(d)|
  }

  /** Where the value of `written` begins. */
  function WrittenFrom(d: Date, c: Counts): nat
    requires IsDate(d)
  {
    |TotalsPart(d, c)| + |" written="|
  }

  predicate IsGoodCut(d: Date, c: Counts, n: nat)
    requires IsDate(d)
  {
    || n == 0
    || (FourDigitYear(d) && ZoneFrom(d) <= n <= ZoneTo(d))
    || (FourDigitYear(d) && c.Fits() && WrittenFrom(d, c) <= n)
  }

  /** For every record and every place it can be cut: a record glued to what is left is still read if and only
      if nothing was left, the cut is in the value of `tz`, or it is in the value of `written`; and the cut
      record's own fields must be readable up to there. */
  lemma CutHeals(d: Date, c: Counts, now: Reading, n: nat)
    requires IsDate(d) && n < |RecordText(d, c, now)|
    ensures Heals(RecordText(d, c, now)[..n]) <==> IsGoodCut(d, c, n)
  {
    hide Heals, DatePart, KeyFields, Stamp, RecordText, Tokens;
    var text := RecordText(d, c, now);
    var (date, zone, totals) := (DatePart(d), ZonePart(d), TotalsPart(d, c));
    var last := " " + ("written=" + Stamp(now));
    RecordParts(d, c, now);
    if n == 0 {
      assert text[..0] == "" && Heals("") by { NothingHeals(); }
    } else if n <= |date| {
      assert text[..n] == date[..n];
      CutInDate(d, n);
    } else if n <= |zone| {
      assert text[..n] == zone[..n];
      CutInZone(d, n);
    } else if n <= |totals| {
      assert text[..n] == zone + KeyFields(c, 0)[..n - |zone|];
      PartTokens(d);
      CutInKeys(zone, c, 0, n - |zone|);
    } else {
      assert text[..n] == totals + last[..n - |totals|];
      CutInWritten(d, c, now, n - |totals|);
    }
  }

  /** A fragment of the header never heals. */
  lemma HashNeverHeals(p: string)
    requires p != "" && p[0] == '#'
    ensures !Heals(p)
  {
    hide ReadFields, TakesDay;
    var a := p[..LastWord(p)];
    HashToken(p);
    if a != "" {
      HashToken(a);
    }
  }

  lemma HashToken(p: string)
    requires p != "" && p[0] == '#'
    ensures Tokens(p) != [] && Tokens(p)[0] != "" && Tokens(p)[0][0] == '#'
  {
    assert !IsSpace('#');
  }

  lemma NothingHeals()
    ensures Heals("")
  {
  }
}
