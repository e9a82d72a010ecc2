/** What any line means as a record: the last value of each of its keys. */
module RecordMeaning {
  import opened Calendar
  import opened Text
  import opened Record
  import opened RecordProofs

  // ----- Numbers and dates, of any text

  /** A number is digits that are worth it, with or without a plus before them. */
  lemma ParseUnsignedIs(s: string, max: nat, n: nat)
    ensures ParseUnsigned(s, max) == Some(n) <==>
            n <= max && exists t :: (s == t || s == "+" + t) && t != "" && AllDigits(t) && DigitsValue(t) == n
  {
    hide DigitsValue;
    if s != "" && s[0] == '+' {
      assert s == "+" + s[1..];
      assert !IsDigit('+');
      forall t | s == "+" + t ensures t == s[1..] {}
    }
  }

  /** The pieces of a split put back together are the string, and none holds the separator. */
  lemma {:induction false} SplitJoins(s: string, c: char)
    ensures var r := Split(s, c);
            && (|r| == 1 ==> s == r[0] && c !in s)
            && (|r| > 1 ==> s == r[0] + [c] + s[|r[0]| + 1..] && c !in r[0] && r[1..] == Split(s[|r[0]| + 1..], c))
  {
    var n := IndexOf(s, c);
    if n < |s| {
      assert s == s[..n] + [c] + s[n + 1..];
      SplitCons(s[..n], c, s[n + 1..]);
    }
  }

  lemma SplitIntoThree(s: string, y: string, m: string, t: string)
    ensures Split(s, '-') == [y, m, t] <==>
            s == y + "-" + m + "-" + t && '-' !in y && '-' !in m && '-' !in t
  {
    hide Split;
    if s == y + "-" + m + "-" + t && '-' !in y && '-' !in m && '-' !in t {
      SplitThree(y, m, t);
    }
    if Split(s, '-') == [y, m, t] {
      ThreeJoined(s, y, m, t);
    }
  }

  lemma ThreeJoined(s: string, y: string, m: string, t: string)
    requires Split(s, '-') == [y, m, t]
    ensures s == y + "-" + m + "-" + t && '-' !in y && '-' !in m && '-' !in t
  {
    hide Split;
    SplitJoins(s, '-');
    var rest := s[|y| + 1..];
    assert [y, m, t][1..] == [m, t];
    TwoJoined(rest, m, t);
    calc {
      s;
      y + ['-'] + rest;
      y + ['-'] + (m + ['-'] + t);
      y + "-" + m + "-" + t;
    }
  }

  lemma TwoJoined(s: string, m: string, t: string)
    requires Split(s, '-') == [m, t]
    ensures s == m + ['-'] + t && '-' !in m && '-' !in t
  {
    hide Split;
    SplitJoins(s, '-');
    assert [m, t][1..] == [t];
    SplitJoins(s[|m| + 1..], '-');
  }

  /** A date is a year, a month and a day, of four, two and two characters, that exists. */
  lemma ParseDateIs(s: string, d: Date)
    ensures ParseDate(s) == Some(d) <==>
            && IsDate(d)
            && exists y, m, t :: && s == y + "-" + m + "-" + t && '-' !in y && '-' !in m && '-' !in t
                                 && |y| == 4 && |m| == 2 && |t| == 2
                                 && ParseUnsigned(y, 2147483647) == Some(d.year)
                                 && ParseUnsigned(m, 255) == Some(d.month) && ParseUnsigned(t, 255) == Some(d.day)
  {
    hide Split, ParseUnsigned;
    var parts := Split(s, '-');
    if |parts| == 3 {
      var (y, m, t) := (parts[0], parts[1], parts[2]);
      assert parts == [y, m, t];
      SplitIntoThree(s, y, m, t);
    }
    forall y, m, t | s == y + "-" + m + "-" + t && '-' !in y && '-' !in m && '-' !in t ensures parts == [y, m, t] {
      SplitIntoThree(s, y, m, t);
    }
  }

  // ----- Fields

  /** The value of the last field with this key. */
  function LastValue(fields: seq<string>, key: string): Option<string> {
    if fields == [] then None
    else
      match SplitOnce(fields[|fields| - 1], '=')
      case Some((k, v)) => if k == key then Some(v) else LastValue(fields[..|fields| - 1], key)
      case None => LastValue(fields[..|fields| - 1], key)
  }

  /** A field is `key=value`; a date must be one, and a total must be a u64. */
  predicate IsReadable(field: string) {
    match SplitOnce(field, '=')
    case None => false
    case Some((k, v)) =>
      (k == "date" ==> ParseDate(v).Some?) && (k in KEYS ==> ParseUnsigned(v, U64_MAX).Some?)
  }

  predicate Means(p: Partial, fields: seq<string>) {
    && p.date == (match LastValue(fields, "date") case None => None case Some(v) => ParseDate(v))
    && forall i :: 0 <= i < 6 ==>
         match LastValue(fields, KEYS[i])
         case None => p.counts.Get(i) == 0
         case Some(v) => ParseUnsigned(v, U64_MAX) == Some(p.counts.Get(i))
  }

  lemma ReadFieldIs(p: Partial, field: string)
    ensures ReadField(p, field).Some? <==> IsReadable(field)
    ensures IsReadable(field) ==>
              var (k, v) := SplitOnce(field, '=').value;
              var q := ReadField(p, field).value;
              && q.date == (if k == "date" then ParseDate(v) else p.date)
              && forall i :: 0 <= i < 6 ==>
                   if k == KEYS[i] then ParseUnsigned(v, U64_MAX) == Some(q.counts.Get(i))
                   else q.counts.Get(i) == p.counts.Get(i)
  {
    hide ParseDate, ParseUnsigned, SplitOnce, KEYS, KeyIndex;
    KeysAre();
    match SplitOnce(field, '=') {
      case None =>
      case Some((k, v)) =>
        if k in KEYS && ParseUnsigned(v, U64_MAX).Some? {
          AssignedOne(p.counts, KeyIndex(k), ParseUnsigned(v, U64_MAX).value);
        }
    }
  }

  lemma KeysAre()
    ensures |KEYS| == 6
    ensures forall i :: 0 <= i < 6 ==> KEYS[i] != "date" && KEYS[i] != "tz" && KEYS[i] != "written"
    ensures forall i :: 0 <= i < 6 ==> KEYS[i] in KEYS && KeyIndex(KEYS[i]) == i
  {
    forall i | 0 <= i < 6
      ensures KEYS[i] != "date" && KEYS[i] != "tz" && KEYS[i] != "written"
      ensures KEYS[i] in KEYS && KeyIndex(KEYS[i]) == i
    {
      KeyDistinct(i);
    }
  }

  lemma AssignedOne(c: Counts, i: nat, v: nat)
    requires i < 6
    ensures forall j :: 0 <= j < 6 ==> c.With(i, v).Get(j) == if j == i then v else c.Get(j)
  {
  }

  /** For every list of fields: they can be read exactly when each can, and then they mean their last values. */
  lemma {:induction false} ReadFieldsMean(fields: seq<string>)
    ensures var r := ReadFields(Partial(None, ZERO), fields);
            && (r.Some? <==> forall f :: f in fields ==> IsReadable(f))
            && (r.Some? ==> Means(r.value, fields))
  {
    hide ReadFields, ReadField, IsReadable, SplitOnce, ParseDate, ParseUnsigned;
    var start := Partial(None, ZERO);
    if fields == [] {
      assert ReadFields(start, []) == Some(start) by { ReadNothing(start); }
      assert forall i :: 0 <= i < 6 ==> ZERO.Get(i) == 0;
    } else {
      var n := |fields| - 1;
      var prev, f := fields[..n], fields[n];
      assert fields == prev + [f];
      ReadFieldsMean(prev);
      ReadFieldsConcat(start, prev, [f]);
      match ReadFields(start, prev) {
        case None =>
          assert forall g :: g in prev ==> g in fields;
        case Some(q) =>
          ReadOne(q, f);
          ReadFieldIs(q, f);
          assert forall g :: g in fields <==> g in prev || g == f;
          if ReadField(q, f).Some? {
            MeansSnoc(q, prev, f, ReadField(q, f).value);
          }
      }
    }
  }

  lemma ReadNothing(p: Partial)
    ensures ReadFields(p, []) == Some(p)
  {
  }

  lemma ReadOne(p: Partial, f: string)
    ensures ReadFields(p, [f]) == ReadField(p, f)
  {
    hide ReadField;
    assert [f][1..] == [];
  }

  lemma MeansSnoc(p: Partial, prev: seq<string>, f: string, q: Partial)
    requires Means(p, prev) && IsReadable(f) && ReadField(p, f) == Some(q)
    ensures Means(q, prev + [f])
  {
    hide ReadField, ParseDate, ParseUnsigned, SplitOnce, LastValue;
    LastValueSnoc(prev, f);
    ReadFieldIs(p, f);
  }

  lemma LastValueSnoc(prev: seq<string>, f: string)
    ensures forall key :: LastValue(prev + [f], key) ==
              match SplitOnce(f, '=')
              case Some((k, v)) => if k == key then Some(v) else LastValue(prev, key)
              case None => LastValue(prev, key)
  {
    hide SplitOnce;
    assert (prev + [f])[..|prev|] == prev;
  }

  /** For every line: it is a record exactly when its first word is DAY, each further word can be read and one
      is a date; and then each of its values is the last its key has, zero for a total it does not have. Keys
      it does not know change nothing. */
  lemma RecordMeans(line: string)
    ensures var (ts, r) := (Tokens(line), RecordOf(line));
            && (r.Some? <==> && ts != [] && ts[0] == "DAY" && (forall f :: f in ts[1..] ==> IsReadable(f))
                             && LastValue(ts[1..], "date").Some?)
            && (r.Some? ==> Means(Partial(Some(r.value.0), r.value.1), ts[1..]))
  {
    hide ReadFields, IsReadable, SplitOnce, ParseDate, ParseUnsigned, Tokens, LastValue;
    var ts := Tokens(line);
    if ts != [] {
      ReadFieldsMean(ts[1..]);
      if forall f :: f in ts[1..] ==> IsReadable(f) {
        LastDateParses(ts[1..]);
      }
    }
  }

  lemma {:induction false} LastDateParses(fields: seq<string>)
    requires forall f :: f in fields ==> IsReadable(f)
    ensures LastValue(fields, "date").Some? ==> ParseDate(LastValue(fields, "date").value).Some?
  {
    hide ParseDate, ParseUnsigned, SplitOnce;
    if fields != [] {
      assert fields[|fields| - 1] in fields;
      LastDateParses(fields[..|fields| - 1]);
    }
  }
}
