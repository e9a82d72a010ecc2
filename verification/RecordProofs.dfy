/** What the record format promises: round trip, and safety of a record glued to a torn one. */
module RecordProofs {
  import opened Calendar
  import opened Text
  import opened Record

  // ----- The tokens of a record

  function Field(c: Counts, i: nat): string
    requires i < 6
  {
    KEYS[i] + "=" + Dec(c.Get(i))
  }

  function KeyTokens(c: Counts, i: nat): seq<string>
    requires i <= 6
    decreases 6 - i
  {
    if i == 6 then [] else [Field(c, i)] + KeyTokens(c, i + 1)
  }

  function BodyTokens(d: Date, c: Counts, now: Reading): seq<string>
    requires IsDate(d)
  {
    ["date=" + DateText(d), "tz=UTC"] + KeyTokens(c, 0) + ["written=" + Stamp(now)]
  }

  predicate IsKeyName(k: string) {
    k != "" && forall i :: 0 <= i < |k| ==> 'a' <= k[i] <= 'z' || k[i] == '_'
  }

  lemma KeyNames()
    ensures IsKeyName("mesh_requests") && IsKeyName("mesh_sessions") && IsKeyName("mesh_identified_requests")
    ensures IsKeyName("web_requests") && IsKeyName("web_not_found") && IsKeyName("clock_behind")
  {
  }

  lemma KeyShape(i: nat)
    requires i < 6
    ensures NoSpace(KEYS[i]) && '=' !in KEYS[i] && KEYS[i] != ""
  {
    KeyNames();
    assert IsKeyName(KEYS[i]) by { hide IsKeyName; }
  }

  lemma KeyDistinct(i: nat)
    requires i < 6
    ensures KEYS[i] != "date" && KEYS[i] != "tz" && KEYS[i] != "written"
    ensures KEYS[i] in KEYS && KeyIndex(KEYS[i]) == i
  {
    assert |KEYS[0]| == 13 && |KEYS[1]| == 13 && |KEYS[2]| == 24;
    assert |KEYS[3]| == 12 && |KEYS[4]| == 13 && |KEYS[5]| == 12;
    assert KEYS[0][5] == 'r' && KEYS[1][5] == 's' && KEYS[4][0] == 'w' && KEYS[1][0] == 'm';
    assert KEYS[0][0] == 'm' && KEYS[3][0] == 'w' && KEYS[5][0] == 'c';
  }

  lemma FieldNoSpace(c: Counts, i: nat)
    requires i < 6
    ensures Field(c, i) != "" && NoSpace(Field(c, i))
  {
    hide Dec;
    KeyShape(i);
    DigitsNoSpace(Dec(c.Get(i)));
  }

  lemma KeyFieldsCons(c: Counts, i: nat)
    requires i < 6
    ensures KeyFields(c, i) == " " + Field(c, i) + KeyFields(c, i + 1)
  {
    KeyFieldsStep("", c, i);
  }

  lemma FieldTokens(w: string, rest: string)
    requires w != "" && NoSpace(w) && (rest == "" || IsSpace(rest[0]))
    ensures Tokens(" " + w + rest) == [w] + Tokens(rest)
  {
    hide IsSpace, Tokens;
    assert " " + w + rest == " " + (w + rest);
    TokensSpace(w + rest);
    TokensCons(w, rest);
  }

  lemma {:induction false} KeyFieldsTokens(c: Counts, i: nat, tail: string)
    requires i <= 6 && tail != "" && tail[0] == ' '
    ensures Tokens(KeyFields(c, i) + tail) == KeyTokens(c, i) + Tokens(tail)
    ensures (KeyFields(c, i) + tail)[0] == ' '
    decreases 6 - i
  {
    hide Tokens, KeyFields, Field;
    if i == 6 {
      KeyFieldsEnd(c);
      assert KeyFields(c, i) + tail == tail;
    } else {
      KeyFieldsTokens(c, i + 1, tail);
      FieldNoSpace(c, i);
      FieldTokens(Field(c, i), KeyFields(c, i + 1) + tail);
      KeyFieldsCons(c, i);
      assert KeyFields(c, i) + tail == " " + Field(c, i) + (KeyFields(c, i + 1) + tail);
    }
  }

  lemma StampNoSpace(now: Reading)
    ensures NoSpace(Stamp(now)) && NoSpace("written=" + Stamp(now))
  {
    hide DateText, TimeText;
    DateTextNoSpace(now.today);
  }

  lemma TokensOfBody(d: Date, c: Counts, now: Reading)
    requires IsDate(d)
    ensures Tokens(Body(d, c, now)) == BodyTokens(d, c, now)
    ensures Body(d, c, now)[0] == ' '
  {
    hide Tokens, KeyFields, DateText, Stamp;
    var w1, w2, w9 := "date=" + DateText(d), "tz=UTC", "written=" + Stamp(now);
    var tail := " " + w9 + "\n";
    var keys := KeyFields(c, 0) + tail;
    DateTextNoSpace(d);
    StampNoSpace(now);
    FieldTokens(w9, "\n");
    assert Tokens("\n") == [] by { TokensNewline(); }
    KeyFieldsTokens(c, 0, tail);
    FieldTokens(w2, keys);
    FieldTokens(w1, " " + w2 + keys);
    BodyShape(d, c, now);
  }

  lemma TokensNewline()
    ensures Tokens("\n") == []
  {
  }

  lemma BodyShape(d: Date, c: Counts, now: Reading)
    requires IsDate(d)
    ensures Body(d, c, now) ==
            " " + ("date=" + DateText(d))
            + (" " + "tz=UTC" + (KeyFields(c, 0) + (" " + ("written=" + Stamp(now)) + "\n")))
  {
    hide KeyFields, DateText, Stamp;
    assert " " + "date=" == " date=" && " " + "tz=UTC" == " tz=UTC" && " " + "written=" == " written=";
  }

  // ----- Reading the tokens back

  lemma {:induction false} ReadFieldsConcat(p: Partial, a: seq<string>, b: seq<string>)
    ensures ReadFields(p, a + b) ==
            match ReadFields(p, a) { case None => None case Some(q) => ReadFields(q, b) }
    decreases a
  {
    hide ReadField;
    if a == [] {
      assert a + b == b;
    } else {
      assert (a + b)[1..] == a[1..] + b;
      match ReadField(p, a[0]) {
        case None =>
        case Some(q) => ReadFieldsConcat(q, a[1..], b);
      }
    }
  }

  /** `base` with the totals of `c` from key `i` on. */
  function Overwritten(base: Counts, c: Counts, i: nat): Counts
    requires i <= 6
    decreases 6 - i
  {
    if i == 6 then base else Overwritten(base.With(i, c.Get(i)), c, i + 1)
  }

  lemma OverwrittenAll(base: Counts, c: Counts)
    ensures Overwritten(base, c, 0) == c
  {
    var b1 := base.With(0, c.Get(0));
    var b2 := b1.With(1, c.Get(1));
    var b3 := b2.With(2, c.Get(2));
    var b4 := b3.With(3, c.Get(3));
    var b5 := b4.With(4, c.Get(4));
    var b6 := b5.With(5, c.Get(5));
    assert Overwritten(b6, c, 6) == b6;
    assert Overwritten(b5, c, 5) == b6;
    assert Overwritten(b4, c, 4) == b6;
    assert Overwritten(b3, c, 3) == b6;
    assert Overwritten(b2, c, 2) == b6;
    assert Overwritten(b1, c, 1) == b6;
  }

  predicate FitsFrom(c: Counts, i: nat) {
    forall j :: i <= j < 6 ==> c.Get(j) <= U64_MAX
  }

  lemma ReadKey(p: Partial, c: Counts, i: nat)
    requires i < 6
    ensures ReadField(p, Field(c, i)) ==
            if c.Get(i) <= U64_MAX then Some(p.(counts := p.counts.With(i, c.Get(i)))) else None
  {
    hide ParseUnsigned, Dec, KeyIndex, ParseDate;
    var v := Dec(c.Get(i));
    KeyShape(i);
    KeyDistinct(i);
    assert Field(c, i) == KEYS[i] + ['='] + v;
    SplitOnceIs(KEYS[i], '=', v);
    ParseUnsignedDec(c.Get(i), U64_MAX);
  }

  lemma {:induction false} ReadKeys(p: Partial, c: Counts, i: nat)
    requires i <= 6
    ensures ReadFields(p, KeyTokens(c, i)) ==
            if FitsFrom(c, i) then Some(p.(counts := Overwritten(p.counts, c, i))) else None
    decreases 6 - i
  {
    hide ReadField, Field;
    if i < 6 {
      ReadKey(p, c, i);
      assert KeyTokens(c, i)[0] == Field(c, i) && KeyTokens(c, i)[1..] == KeyTokens(c, i + 1);
      if c.Get(i) <= U64_MAX {
        ReadKeys(p.(counts := p.counts.With(i, c.Get(i))), c, i + 1);
      }
    }
  }

  lemma ReadDateField(p: Partial, d: Date)
    requires IsDate(d)
    ensures ReadField(p, "date=" + DateText(d)) ==
            if FourDigitYear(d) then Some(p.(date := Some(d))) else None
  {
    hide DateText, ParseDate;
    assert "date=" + DateText(d) == "date" + ['='] + DateText(d);
    SplitOnceIs("date", '=', DateText(d));
    DateRoundTrip(d);
  }

  lemma ReadIgnoredField(p: Partial, key: string, value: string)
    requires key == "tz" || key == "written"
    ensures ReadField(p, key + "=" + value) == Some(p)
  {
    hide ParseDate;
    assert '=' !in "tz" && '=' !in "written";
    SplitOnceIs(key, '=', value);
  }

  lemma ReadHead(p: Partial, d: Date)
    requires IsDate(d)
    ensures ReadFields(p, ["date=" + DateText(d), "tz=UTC"]) ==
            if FourDigitYear(d) then Some(p.(date := Some(d))) else None
  {
    hide ReadField, DateText;
    var head := ["date=" + DateText(d), "tz=UTC"];
    ReadDateField(p, d);
    var q := p.(date := Some(d));
    assert "tz" + "=" + "UTC" == "tz=UTC";
    ReadIgnoredField(q, "tz", "UTC");
    assert head[1..] == ["tz=UTC"] && ["tz=UTC"][1..] == [];
    assert ReadFields(q, ["tz=UTC"]) == ReadFields(q, []);
  }

  lemma ReadWritten(p: Partial, now: Reading)
    ensures ReadFields(p, ["written=" + Stamp(now)]) == Some(p)
  {
    hide ReadField, Stamp;
    var last := ["written=" + Stamp(now)];
    ReadIgnoredField(p, "written", Stamp(now));
    assert "written" + "=" + Stamp(now) == last[0] && last[1..] == [];
  }

  /** A record's fields overwrite whatever was read before them, or the line does not parse. */
  lemma ReadBody(p: Partial, d: Date, c: Counts, now: Reading)
    requires IsDate(d)
    ensures ReadFields(p, BodyTokens(d, c, now)) ==
            if FourDigitYear(d) && c.Fits() then Some(Partial(Some(d), c)) else None
  {
    hide ReadFields, DateText, Stamp, KeyTokens, Overwritten;
    var head := ["date=" + DateText(d), "tz=UTC"];
    var last := ["written=" + Stamp(now)];
    ReadFieldsConcat(p, head + KeyTokens(c, 0), last);
    ReadFieldsConcat(p, head, KeyTokens(c, 0));
    ReadHead(p, d);
    ReadKeys(p.(date := Some(d)), c, 0);
    OverwrittenAll(p.counts, c);
    assert BodyTokens(d, c, now) == head + KeyTokens(c, 0) + last;
    assert FitsFrom(c, 0) == c.Fits();
    assert FourDigitYear(d) ==>
             ReadFields(p, head + KeyTokens(c, 0)) == if c.Fits() then Some(Partial(Some(d), c)) else None;
    ReadWritten(Partial(Some(d), c), now);
  }

  // ----- A record glued to what a torn write left

  /** A field that still reads as an ignored one when a record's `DAY` is glued to it. */
  predicate TakesDay(field: string) {
    match SplitOnce(field, '=')
    case None => false
    case Some((key, _)) => key != "date" && key !in KEYS
  }

  /** The unfinished lines to which a whole record can be glued and still be read. */
  predicate Heals(p: string) {
    var a, b := p[..LastWord(p)], p[LastWord(p)..];
    || Tokens(p) == []
    || (&& b != "" && TakesDay(b)
        && Tokens(a) != [] && Tokens(a)[0] == "DAY"
        && ReadFields(Partial(None, ZERO), Tokens(a)[1..]).Some?)
  }

  lemma ParseDateGlued(v: string)
    ensures ParseDate(v + "DAY") == None
  {
    hide ParseUnsigned;
    SplitLast(v, '-', "DAY");
  }

  lemma ReadGluedField(p: Partial, b: string)
    ensures ReadField(p, b + "DAY") == if TakesDay(b) then Some(p) else None
  {
    hide ParseDate, ParseUnsigned, KeyIndex;
    SplitOnceAppend(b, '=', "DAY");
    match SplitOnce(b, '=') {
      case None =>
      case Some((key, v)) =>
        ParseDateGlued(v);
        assert (v + "DAY")[|v|] == 'D';
        ParseUnsignedGarbage(v + "DAY", |v|, U64_MAX);
        if key in KEYS {
          KeyDistinct(KeyIndex(key));
        } else if key == "tz" || key == "written" {
          assert TakesDay(b);
        }
    }
  }

  lemma ReadDay(p: Partial)
    ensures ReadField(p, "DAY") == None
  {
    assert '=' !in "DAY";
  }

  /** `fields`, then one field that either leaves the reading alone or ends it, then a whole record. */
  lemma ReadThrough(fields: seq<string>, field: string, ok: bool, d: Date, c: Counts, now: Reading)
    requires IsDate(d)
    requires forall p :: ReadField(p, field) == if ok then Some(p) else None
    ensures ReadFields(Partial(None, ZERO), fields + [field] + BodyTokens(d, c, now)) ==
            if ok && ReadFields(Partial(None, ZERO), fields).Some? && FourDigitYear(d) && c.Fits()
            then Some(Partial(Some(d), c)) else None
  {
    hide ReadField, BodyTokens;
    var start := Partial(None, ZERO);
    ReadFieldsConcat(start, fields + [field], BodyTokens(d, c, now));
    ReadFieldsConcat(start, fields, [field]);
    match ReadFields(start, fields) {
      case None =>
      case Some(q) =>
        assert [field][1..] == [];
        assert ReadFields(q, [field]) == if ok then Some(q) else None;
        ReadBody(q, d, c, now);
    }
  }

  lemma GluedBetweenWords(p: string, d: Date, c: Counts, now: Reading)
    requires IsDate(d) && !EndsInWord(p)
    ensures RecordOf(p + RecordText(d, c, now)) ==
            if Tokens(p) == [] && FourDigitYear(d) && c.Fits() then Some((d, c)) else None
  {
    hide Tokens, Body, BodyTokens, ReadField, ReadFields, IsSpace;
    var body, bt, ts := Body(d, c, now), BodyTokens(d, c, now), Tokens(p);
    TokensAfterSpace(p, "DAY" + body);
    TokensOfBody(d, c, now);
    DayIsWord();
    TokensCons("DAY", body);
    if ts == [] {
      assert (ts + (["DAY"] + bt))[1..] == bt;
      ReadBody(Partial(None, ZERO), d, c, now);
    } else {
      assert (ts + (["DAY"] + bt))[1..] == ts[1..] + ["DAY"] + bt;
      forall q ensures ReadField(q, "DAY") == None { ReadDay(q); }
      ReadThrough(ts[1..], "DAY", false, d, c, now);
    }
  }

  lemma DayIsWord()
    ensures NoSpace("DAY") && IsSpace(' ')
  {
  }

  lemma GluedInWord(a: string, b: string, d: Date, c: Counts, now: Reading)
    requires IsDate(d) && !EndsInWord(a) && b != "" && NoSpace(b)
    ensures RecordOf(a + b + RecordText(d, c, now)) ==
            if && TakesDay(b) && Tokens(a) != [] && Tokens(a)[0] == "DAY"
               && ReadFields(Partial(None, ZERO), Tokens(a)[1..]).Some?
               && FourDigitYear(d) && c.Fits()
            then Some((d, c)) else None
  {
    hide Tokens, Body, BodyTokens, ReadField, ReadFields, IsSpace, TakesDay;
    var body, bt, ts := Body(d, c, now), BodyTokens(d, c, now), Tokens(a);
    TokensOfBody(d, c, now);
    DayIsWord();
    TokensInWord(a, b, "DAY", body);
    if ts == [] {
      assert (ts + [b + "DAY"] + bt)[0] == b + "DAY";
      assert |b + "DAY"| > |"DAY"|;
    } else {
      assert (ts + [b + "DAY"] + bt)[1..] == ts[1..] + [b + "DAY"] + bt;
      forall q ensures ReadField(q, b + "DAY") == if TakesDay(b) then Some(q) else None { ReadGluedField(q, b); }
      ReadThrough(ts[1..], b + "DAY", TakesDay(b), d, c, now);
    }
  }

  /** Whatever text a record is glued to, the line reads as exactly that record or as nothing,
      and which of the two depends on the text alone. */
  lemma GluedRecord(p: string, d: Date, c: Counts, now: Reading)
    requires IsDate(d)
    ensures RecordOf(p + RecordText(d, c, now)) ==
            if Heals(p) && FourDigitYear(d) && c.Fits() then Some((d, c)) else None
  {
    hide RecordOf, RecordText, Tokens, ReadFields, TakesDay, IsSpace;
    var n := LastWord(p);
    if EndsInWord(p) {
      assert p == p[..n] + p[n..];
      TokensInWord(p[..n], p[n..], "", "");
      GluedInWord(p[..n], p[n..], d, c, now);
    } else {
      GluedBetweenWords(p, d, c, now);
    }
  }

  /** A record reads back as itself exactly when its year has four digits (and its totals are u64s). */
  lemma RecordRoundTrip(d: Date, c: Counts, now: Reading)
    requires IsDate(d)
    ensures RecordOf(RecordText(d, c, now)) == if FourDigitYear(d) && c.Fits() then Some((d, c)) else None
  {
    hide RecordOf, RecordText;
    assert "" + RecordText(d, c, now) == RecordText(d, c, now);
    assert Heals("");
    GluedRecord("", d, c, now);
  }

  lemma {:induction false} LastWordIs(a: string, b: string)
    requires !EndsInWord(a) && NoSpace(b)
    ensures LastWord(a + b) == |a|
    decreases |b|
  {
    hide IsSpace;
    var p := a + b;
    if b == "" {
      assert p == a;
    } else {
      var n := |b| - 1;
      assert p[..|p| - 1] == a + b[..n] && p[|p| - 1] == b[n];
      LastWordIs(a, b[..n]);
    }
  }

  /** A write cut inside a total does not heal: no record glued to it is ever read. */
  lemma CutInsideATotal(a: string, i: nat, digits: string)
    requires !EndsInWord(a) && i < 6 && AllDigits(digits)
    ensures !Heals(a + (KEYS[i] + "=" + digits))
  {
    hide Tokens, ReadFields;
    var b := KEYS[i] + ['='] + digits;
    KeyShape(i);
    KeyDistinct(i);
    DigitsNoSpace(digits);
    LastWordIs(a, b);
    assert (a + b)[..|a|] == a && (a + b)[|a|..] == b;
    SplitOnceIs(KEYS[i], '=', digits);
    TokensInWord(a, b, "", "");
  }
}
