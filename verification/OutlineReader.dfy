/** The reader the map crate decodes outline tables with, and the round trip through both. */
module OutlineReader {
  import opened Bits
  import opened Text
  import opened Outline

  // ----- Bits, least significant first; past the end they are zero

  function BitAt(bytes: seq<Byte>, at: nat): bool {
    at / 8 < |bytes| && Shr(bytes[at / 8], at % 8) % 2 == 1
  }

  function Window(bytes: seq<Byte>, at: nat, n: nat): (s: seq<bool>)
    ensures |s| == n
  {
    if n == 0 then [] else Window(bytes, at, n - 1) + [BitAt(bytes, at + n - 1)]
  }

  /** `i64::from(z >> 1) ^ -i64::from(z & 1)`: an odd `z` complements its half. */
  function Unzigzag(z: nat): int {
    if z % 2 == 0 then z / 2 else -(z / 2) - 1
  }

  /** One delta at `at`, and where the next one starts. */
  function DeltaAt(bytes: seq<Byte>, at: nat, width: nat, bits: nat): (int, nat) {
    var v := ValueOf(Window(bytes, at, width));
    if v == Escape(width) then (Unzigzag(ValueOf(Window(bytes, at + width, bits + 1))), at + width + bits + 1)
    else (Unzigzag(v), at + width)
  }

  class BitReader {
    const bytes: seq<Byte>
    var at: nat

    constructor (bytes: seq<Byte>)
      ensures this.bytes == bytes && at == 0
    {
      this.bytes := bytes;
      at := 0;
    }

    method Take(n: nat) returns (v: nat)
      modifies this`at
      ensures v == ValueOf(Window(bytes, old(at), n)) && at == old(at) + n
    {
      hide BitAt, Pow2, Shr;
      v := 0;
      for i := 0 to n
        invariant at == old(at) + i
        invariant v == ValueOf(Window(bytes, old(at), i))
      {
        var byte := if at / 8 < |bytes| then bytes[at / 8] else 0;
        var bit := Shr(byte, at % 8) % 2;
        TakenBit(bytes, at, bit);
        ghost var s := Window(bytes, old(at), i);
        ValueOfSnoc(s, bit == 1);
        OrDisjoint(v, bit, i);
        assert Shl(bit, i) == if bit == 1 then Pow2(i) else 0;
        v := Or(v, Shl(bit, i));
        at := at + 1;
      }
    }

    method Delta(width: nat, bits: nat) returns (d: int)
      modifies this`at
      ensures (d, at) == DeltaAt(bytes, old(at), width, bits)
    {
      var z := Take(width);
      if z == Escape(width) {
        z := Take(bits + 1);
      }
      d := Unzigzag(z);
    }
  }

  lemma TakenBit(bytes: seq<Byte>, at: nat, bit: nat)
    requires bit == Shr(if at / 8 < |bytes| then bytes[at / 8] else 0, at % 8) % 2
    ensures (bit == 1) == BitAt(bytes, at)
  {
    ShrZero(at % 8);
  }

  lemma {:induction false} ShrZero(n: nat)
    ensures Shr(0, n) == 0
  {
    if n > 0 {
      ShrZero(n - 1);
    }
  }

  // ----- Points of one ring

  datatype Entry = Entry(hole: bool, west: nat, north: nat, east: nat, south: nat,
                         len: nat, first: Point, bits: nat, width: nat, deltas: seq<Byte>)

  datatype Cursor = Cursor(at: nat, x: int, y: int)

  /** The cursor once point `i` has been reached. */
  function CursorAt(e: Entry, i: nat): Cursor {
    if i == 0 then Cursor(0, e.first.x, e.first.y)
    else
      var c := CursorAt(e, i - 1);
      var (dx, mid) := DeltaAt(e.deltas, c.at, e.width, e.bits);
      var (dy, end) := DeltaAt(e.deltas, mid, e.width, e.bits);
      Cursor(end, c.x + dx, c.y + dy)
  }

  /** A coordinate as the reader hands it out: nothing below zero, and the low 32 bits above. */
  function Clamped(c: Cursor): Point {
    Point(if c.x < 0 then 0 else c.x % 0x1_0000_0000, if c.y < 0 then 0 else c.y % 0x1_0000_0000)
  }

  function PointsOf(e: Entry): (s: seq<Point>)
    ensures |s| == e.len
  {
    seq(e.len, i requires i >= 0 => Clamped(CursorAt(e, i)))
  }

  method Points(e: Entry) returns (pts: seq<Point>)
    ensures pts == PointsOf(e)
  {
    hide CursorAt, DeltaAt, Clamped;
    CursorUnfold(e, 0);
    var reader := new BitReader(e.deltas);
    var x: int, y: int := e.first.x, e.first.y;
    pts := [];
    for i := 0 to e.len
      invariant |pts| == i && forall j :: 0 <= j < i ==> pts[j] == Clamped(CursorAt(e, j))
      invariant reader.bytes == e.deltas
      invariant i == 0 ==> Cursor(reader.at, x, y) == CursorAt(e, 0)
      invariant i > 0 ==> Cursor(reader.at, x, y) == CursorAt(e, i - 1)
    {
      if i > 0 {
        CursorUnfold(e, i);
        var dx := reader.Delta(e.width, e.bits);
        var dy := reader.Delta(e.width, e.bits);
        x := x + dx;
        y := y + dy;
      }
      pts := pts + [Clamped(Cursor(reader.at, x, y))];
    }
  }

  lemma CursorUnfold(e: Entry, i: nat)
    ensures CursorAt(e, i) ==
            if i == 0 then Cursor(0, e.first.x, e.first.y)
            else
              var c := CursorAt(e, i - 1);
              var (dx, mid) := DeltaAt(e.deltas, c.at, e.width, e.bits);
              var (dy, end) := DeltaAt(e.deltas, mid, e.width, e.bits);
              Cursor(end, c.x + dx, c.y + dy)
  {
    hide DeltaAt;
  }

  // ----- Varints

  /** The rest of a varint whose bytes so far make up `v`; None past the end or past 35 bits. */
  function VarintFrom(table: seq<Byte>, at: nat, shift: nat, v: nat): Option<(nat, nat)>
    decreases 35 - shift
  {
    if shift >= 35 || at >= |table| then None
    else
      var v' := Or(v, Shl(table[at] % 128, shift) % 0x1_0000_0000);
      if table[at] < 128 then Some((v', at + 1)) else VarintFrom(table, at + 1, shift + 7, v')
  }

  method Varint(table: seq<Byte>, start: nat) returns (r: Option<(nat, nat)>)
    ensures r == VarintFrom(table, start, 0, 0)
  {
    hide Or, Shl;
    var v: nat, at: nat, shift: nat := 0, start, 0;
    while shift < 35
      invariant VarintFrom(table, at, shift, v) == VarintFrom(table, start, 0, 0)
    {
      if at >= |table| {
        return None;
      }
      var byte := table[at];
      at := at + 1;
      v := Or(v, Shl(byte % 128, shift) % 0x1_0000_0000);
      if byte < 128 {
        return Some((v, at));
      }
      shift := shift + 7;
    }
    r := None;
  }

  function ReadUvs(table: seq<Byte>, at: nat, n: nat): (r: Option<(seq<nat>, nat)>)
    ensures r.Some? ==> |r.value.0| == n
    decreases n
  {
    if n == 0 then Some(([], at))
    else
      match VarintFrom(table, at, 0, 0)
      case None => None
      case Some((v, next)) =>
        match ReadUvs(table, next, n - 1)
        case None => None
        case Some((vs, end)) => Some(([v] + vs, end))
  }

  // ----- Entries of a table

  function TableBits(table: seq<Byte>): Option<nat> {
    if |table| >= 5 && (table[..4] == Magic(false) || table[..4] == Magic(true)) && 8 <= table[4] <= 24
    then Some(table[4]) else None
  }

  const U32: nat := 0x1_0000_0000
  const TWO35 := 0x8_0000_0000

  /** One entry at `at`, and where the next one starts. */
  function EntryAt(table: seq<Byte>, at: nat, bits: nat): Option<(Entry, nat)> {
    match ReadUvs(table, at, 8)
    case None => None
    case Some((ns, next)) =>
      var (head, size, x, y) := (ns[0], ns[1], ns[2], ns[3]);
      var (west, north, east, south) := (ns[4], ns[5], ns[6], ns[7]);
      if next >= |table| || !(1 <= table[next] <= bits + 1) || next + 1 + size > |table| then None
      else if x < west || y < north || x + east >= U32 || y + south >= U32 then None
      else Some((
        Entry(head % 2 == 1, x - west, y - north, x + east, y + south,
              head / 2, Point(x, y), bits, table[next], table[next + 1..next + 1 + size]),
        next + 1 + size))
  }

  function EntriesFrom(table: seq<Byte>, at: nat, bits: nat, count: nat): seq<Entry>
    decreases count
  {
    if count == 0 then []
    else
      match EntryAt(table, at, bits)
      case None => []
      case Some((e, next)) => [e] + EntriesFrom(table, next, bits, count - 1)
  }

  function EntriesOf(table: seq<Byte>, lines: bool): seq<Entry> {
    match TableBits(table)
    case None => []
    case Some(bits) =>
      if table[..4] != Magic(lines) then []
      else
        match VarintFrom(table, 5, 0, 0)
        case None => []
        case Some((count, at)) => EntriesFrom(table, at, bits, count)
  }

  method Entries(table: seq<Byte>, lines: bool) returns (es: seq<Entry>)
    ensures es == EntriesOf(table, lines)
  {
    hide EntryAt, VarintFrom, EntriesFrom, Magic;
    es := [];
    if TableBits(table).None? || table[..4] != Magic(lines) {
      return;
    }
    var bits := TableBits(table).value;
    var counted := Varint(table, 5);
    if counted.None? {
      return;
    }
    var (count, at) := counted.value;
    for i := 0 to count
      invariant es + EntriesFrom(table, at, bits, count - i) == EntriesOf(table, lines)
    {
      EntriesUnfold(table, at, bits, count - i);
      match EntryAt(table, at, bits) {
        case None => return;
        case Some((e, next)) =>
          ghost var rest := EntriesFrom(table, next, bits, count - i - 1);
          assert es + ([e] + rest) == es + [e] + rest;
          es := es + [e];
          at := next;
      }
    }
    EntriesUnfold(table, at, bits, 0);
  }

  lemma EntriesUnfold(table: seq<Byte>, at: nat, bits: nat, count: nat)
    ensures EntriesFrom(table, at, bits, count) ==
            if count == 0 then []
            else match EntryAt(table, at, bits)
                 case None => []
                 case Some((e, next)) => [e] + EntriesFrom(table, next, bits, count - 1)
  {
    hide EntryAt;
  }

  // ----- A table cut short

  lemma {:induction false} VarintCut(table: seq<Byte>, n: nat, at: nat, shift: nat, v: nat)
    requires n <= |table|
    ensures var r := VarintFrom(table[..n], at, shift, v); r == None || r == VarintFrom(table, at, shift, v)
    decreases 35 - shift
  {
    hide Or, Shl;
    if shift < 35 && at < n && table[at] >= 128 {
      VarintCut(table, n, at + 1, shift + 7, Or(v, Shl(table[at] % 128, shift) % U32));
    }
  }

  lemma {:induction false} UvsCut(table: seq<Byte>, n: nat, at: nat, k: nat)
    requires n <= |table|
    ensures var r := ReadUvs(table[..n], at, k); r == None || r == ReadUvs(table, at, k)
    decreases k
  {
    hide VarintFrom;
    if k > 0 {
      VarintCut(table, n, at, 0, 0);
      match VarintFrom(table[..n], at, 0, 0) {
        case None =>
        case Some((_, next)) => UvsCut(table, n, next, k - 1);
      }
    }
  }

  lemma EntryCut(table: seq<Byte>, n: nat, at: nat, bits: nat)
    requires n <= |table|
    ensures var r := EntryAt(table[..n], at, bits); r == None || r == EntryAt(table, at, bits)
  {
    hide ReadUvs;
    UvsCut(table, n, at, 8);
    match ReadUvs(table[..n], at, 8) {
      case None =>
      case Some((ns, next)) =>
        if next + 1 + ns[1] <= n {
          assert table[..n][next + 1..next + 1 + ns[1]] == table[next + 1..next + 1 + ns[1]];
        }
    }
  }

  lemma {:induction false} EntriesCut(table: seq<Byte>, n: nat, at: nat, bits: nat, count: nat)
    requires n <= |table|
    ensures EntriesFrom(table[..n], at, bits, count) <= EntriesFrom(table, at, bits, count)
    decreases count
  {
    hide EntryAt;
    if count > 0 {
      EntryCut(table, n, at, bits);
      match EntryAt(table[..n], at, bits) {
        case None =>
        case Some((_, next)) => EntriesCut(table, n, next, bits, count - 1);
      }
    }
  }

  /** Whatever the table, cutting it short only ends it early: no entry is invented or altered. */
  lemma CutTableEndsEarly(table: seq<Byte>, n: nat, lines: bool)
    requires n <= |table|
    ensures EntriesOf(table[..n], lines) <= EntriesOf(table, lines)
  {
    hide EntriesFrom, VarintFrom, Magic;
    if n >= 5 {
      assert table[..n][..4] == table[..4];
      VarintCut(table, n, 5, 0, 0);
      match VarintFrom(table[..n], 5, 0, 0) {
        case None =>
        case Some((count, at)) =>
          if TableBits(table).Some? {
            EntriesCut(table, n, at, TableBits(table).value, count);
          }
      }
    }
  }

  // ----- Reading back what was written

  predicate HoldsAt(table: seq<Byte>, at: nat, bytes: seq<Byte>) {
    at + |bytes| <= |table| && table[at..at + |bytes|] == bytes
  }

  lemma HoldsBoth(table: seq<Byte>, at: nat, a: seq<Byte>, b: seq<Byte>)
    requires HoldsAt(table, at, a + b)
    ensures HoldsAt(table, at, a) && HoldsAt(table, at + |a|, b)
  {
    var s := table[at..at + |a + b|];
    assert table[at..at + |a|] == s[..|a|] && table[at + |a|..at + |a| + |b|] == s[|a|..];
  }

  /** The shifts at which the five bytes of a varint are read. */
  predicate IsShift(shift: nat) {
    shift == 0 || shift == 7 || shift == 14 || shift == 21 || shift == 28
  }

  lemma ShiftedArith(v: nat, low: nat, m: nat, p: nat, p7: nat)
    requires v < p && low < 128 && p7 == 128 * p
    ensures v + low * p < p7
    ensures v + low * p + m * p7 == v + (low + 128 * m) * p
  {
    MulMonotone(low, 127, p);
    assert (low + 128 * m) * p == low * p + 128 * (m * p);
    assert m * p7 == 128 * (m * p);
  }

  /** Four of the shifts lose nothing; the fifth drops what does not fit 32 bits. */
  lemma ShiftedSum(v: nat, low: nat, shift: nat)
    requires IsShift(shift) && v < Pow2(shift) && low < 128
    ensures Pow2(shift + 7) == 128 * Pow2(shift)
    ensures shift < 28 ==> Pow2(shift + 7) <= 268435456
    ensures Or(v, Shl(low, shift) % U32) == (v + low * Pow2(shift)) % U32
  {
    hide Pow2, Or, Shl;
    Pow2Values();
    Pow2Zero();
    Pow2Add(7, shift);
    var kept := if shift < 28 then low else low % 16;
    OrDisjoint(v, kept, shift);
    ShlIs(low, shift);
    ShlIs(kept, shift);
    if shift < 28 {
      ShiftedLow(v, low, Pow2(shift));
    } else {
      ShiftedTop(v, low);
    }
  }

  lemma ShiftedLow(v: nat, low: nat, p: nat)
    requires v < p <= 2097152 && low < 128
    ensures low * p % U32 == low * p && (v + low * p) % U32 == v + low * p
  {
    MulMonotone(low, 127, p);
  }

  lemma ShiftedTop(v: nat, low: nat)
    requires v < 268435456 && low < 128
    ensures low * 268435456 % U32 == low % 16 * 268435456
    ensures (v + low * 268435456) % U32 == v + low % 16 * 268435456
  {
    var (q, r) := (low / 16, low % 16);
    assert low * 268435456 == q * U32 + r * 268435456;
  }

  lemma Pow2Zero()
    ensures Pow2(0) == 1
  {
  }

  lemma VarintUnfold(table: seq<Byte>, at: nat, shift: nat, v: nat)
    requires shift < 35 && at < |table|
    ensures VarintFrom(table, at, shift, v) ==
            var v' := Or(v, Shl(table[at] % 128, shift) % U32);
            if table[at] < 128 then Some((v', at + 1)) else VarintFrom(table, at + 1, shift + 7, v')
  {
    hide Or, Shl;
  }

  lemma VarintTooLong(table: seq<Byte>, at: nat, v: nat)
    ensures VarintFrom(table, at, 35, v) == None
  {
  }

  lemma {:induction false} UvLength(n: nat, k: nat)
    ensures |UvBytes(n)| <= k + 1 <==> n < Pow2(7 * k + 7)
    decreases k
  {
    Pow2Values();
    if k > 0 && n >= 128 {
      UvLength(n / 128, k - 1);
      SevenMore(7 * k);
    } else if n < 128 {
      Pow2Monotone(7, 7 * k + 7);
    }
  }

  lemma SevenMore(n: nat)
    ensures Pow2(n + 7) == 128 * Pow2(n)
  {
    hide Pow2;
    Pow2Values();
    Pow2Add(7, n);
  }

  lemma UvStands(table: seq<Byte>, at: nat, n: nat)
    requires HoldsAt(table, at, UvBytes(n))
    ensures var end := at + |UvBytes(n)|;
            IsVarintEnd(table, at, end) && Leb128Value(table[at..end]) == n && (end <= at + 5 <==> n < TWO35)
  {
    hide UvBytes, Leb128Value, Pow2;
    var b := UvBytes(n);
    UvIsLeb128(n);
    UvLength(n, 4);
    Pow2Values();
    Pow2Add(32, 3);
    assert Pow2(3) == 8 by { Pow2Three(); }
    assert table[at..at + |b|] == b;
    forall i | at <= i < at + |b| - 1 ensures table[i] >= 128 {
      assert table[i] == table[at..at + |b|][i - at] == b[i - at];
    }
    assert table[at + |b| - 1] == table[at..at + |b|][|b| - 1] == b[|b| - 1];
  }

  lemma Pow2Three()
    ensures Pow2(3) == 8
  {
  }

  lemma VarintEndUnique(table: seq<Byte>, at: nat, e: nat, f: nat)
    requires IsVarintEnd(table, at, e) && IsVarintEnd(table, at, f)
    ensures e == f
  {
  }

  /** What the reader makes of any number the writer wrote, wherever it stands: its low 32 bits when it has at
      most 35, and nothing when it has more. */
  lemma VarintReads(table: seq<Byte>, at: nat, n: nat)
    requires HoldsAt(table, at, UvBytes(n))
    ensures VarintFrom(table, at, 0, 0) == if n < TWO35 then Some((n % U32, at + |UvBytes(n)|)) else None
  {
    hide VarintFrom, UvBytes, Leb128Value, IsVarintEnd, HoldsAt;
    UvStands(table, at, n);
    var (end, r) := (at + |UvBytes(n)|, VarintFrom(table, at, 0, 0));
    VarintOnAnyBytes(table, at, n % U32, end);
    if r.Some? {
      VarintOnAnyBytes(table, at, r.value.0, r.value.1);
      VarintEndUnique(table, at, end, r.value.1);
    }
  }

  /** The first number past 32 bits is not refused: it is read as zero. */
  lemma VarintPast32Bits()
    ensures VarintFrom(UvBytes(U32), 0, 0, 0) == Some((0, 5))
  {
    hide VarintFrom;
    var bytes := UvBytes(U32);
    assert UvBytes(16) == [16] && UvBytes(2048) == [128] + UvBytes(16) && UvBytes(262144) == [128] + UvBytes(2048);
    assert UvBytes(33554432) == [128] + UvBytes(262144) && bytes == [128] + UvBytes(33554432);
    VarintReads(bytes, 0, U32);
  }

  /** The reader reads back a number the writer wrote exactly when it is a u32. */
  lemma VarintRoundTrip(table: seq<Byte>, at: nat, n: nat)
    requires HoldsAt(table, at, UvBytes(n))
    ensures VarintFrom(table, at, 0, 0) == Some((n, at + |UvBytes(n)|)) <==> n < U32
  {
    hide VarintFrom, UvBytes;
    VarintReads(table, at, n);
  }

  lemma {:induction false} UvsRoundTrip(table: seq<Byte>, at: nat, ns: seq<nat>)
    requires HoldsAt(table, at, Uvs(ns)) && forall n :: n in ns ==> n < U32
    ensures ReadUvs(table, at, |ns|) == Some((ns, at + |Uvs(ns)|))
    decreases ns
  {
    hide VarintFrom, UvBytes;
    if ns != [] {
      HoldsBoth(table, at, UvBytes(ns[0]), Uvs(ns[1..]));
      assert ns[0] in ns;
      VarintRoundTrip(table, at, ns[0]);
      assert forall n :: n in ns[1..] ==> n in ns;
      UvsRoundTrip(table, at + |UvBytes(ns[0])|, ns[1..]);
      assert ns == [ns[0]] + ns[1..];
    }
  }

  // ----- Deltas

  lemma UnzigzagInverts(v: int)
    ensures Unzigzag(Zigzag(v)) == v
  {
  }

  lemma PackedBitAt(bits: seq<bool>, at: nat)
    ensures BitAt(PackedBytes(bits), at) == (at < |bits| && bits[at])
  {
    hide ValueOf, BitsOf, Shr, Pow2;
    var j, i := at / 8, at % 8;
    if j < |PackedBytes(bits)| {
      BitOfShift(PackedByte(bits, j), 8, i);
      BitsOfValue(EightFrom(bits, 8 * j));
      assert EightFrom(bits, 8 * j)[i] == (at < |bits| && bits[at]);
    }
  }

  lemma {:induction false} PackedWindow(bits: seq<bool>, at: nat, n: nat)
    requires at + n <= |bits|
    ensures Window(PackedBytes(bits), at, n) == bits[at..at + n]
  {
    hide BitAt, PackedBytes;
    if n > 0 {
      PackedWindow(bits, at, n - 1);
      PackedBitAt(bits, at + n - 1);
      assert bits[at..at + n] == bits[at..at + n - 1] + [bits[at + n - 1]];
    }
  }

  /** The code of value `i` stands at the cost of the values before it. */
  lemma {:induction false} CodeStands(values: seq<nat>, i: nat, k: nat)
    requires i < |values|
    ensures var at := Cost(values[..i], k);
            at + CodeLength(values[i], k) == Cost(values[..i + 1], k) <= Cost(values, k)
            && Codes(values, k)[at..at + CodeLength(values[i], k)] == Code(values[i], k)
  {
    hide Code, CodeLength;
    var n := |values| - 1;
    assert values[..i + 1][..i] == values[..i];
    if i < n {
      CodeStands(values[..n], i, k);
      assert values[..n][..i] == values[..i] && values[..n][..i + 1] == values[..i + 1];
    } else {
      assert values[..i + 1] == values;
    }
  }

  lemma DeltaOfCode(values: seq<nat>, i: nat, k: nat)
    requires i < |values| && k >= 1 && values[i] < Pow2(BITS + 1)
    ensures DeltaAt(PackedBytes(Codes(values, k)), Cost(values[..i], k), k, BITS)
            == (Unzigzag(values[i]), Cost(values[..i + 1], k))
  {
    hide Codes, Cost, PackedBytes, Window, ValueOf, BitsOf, Pow2, Unzigzag;
    var bits, at, v := Codes(values, k), Cost(values[..i], k), values[i];
    CodeStands(values, i, k);
    var code := bits[at..at + CodeLength(v, k)];
    PackedWindow(bits, at, k);
    assert bits[at..at + k] == code[..k];
    EscapeFits(k);
    if v < Escape(k) {
      assert code[..k] == BitsOf(v, k);
      ValueOfBits(v, k);
    } else {
      assert code[..k] == BitsOf(Escape(k), k);
      ValueOfBits(Escape(k), k);
      PackedWindow(bits, at + k, BITS + 1);
      assert bits[at + k..at + k + (BITS + 1)] == code[k..] == BitsOf(v, BITS + 1);
      ValueOfBits(v, BITS + 1);
    }
  }

  // ----- The round trip

  /** What the reader makes of a written ring. */
  function EntryOf(r: Ring): Entry
    requires IsRing(r)
  {
    Entry(r.hole, Min(Xs(r.pts)), Min(Ys(r.pts)), Max(Xs(r.pts)), Max(Ys(r.pts)),
          |r.pts|, r.pts[0], BITS, Width(r.pts), Deltas(r.pts))
  }

  lemma {:induction false} CursorFollows(r: Ring, i: nat)
    requires IsRing(r) && i < |r.pts|
    ensures CursorAt(EntryOf(r), i) ==
            Cursor(Cost(Values(r.pts)[..2 * i], Width(r.pts)), r.pts[i].x, r.pts[i].y)
  {
    hide Cost, BestWidth, DeltaAt, Min, Max, PackedBytes, Codes, Zigzag, Unzigzag, Pow2;
    var values, k := Values(r.pts), Width(r.pts);
    ValuesFit(r.pts);
    if i == 0 {
      CostOfNothing(values, k);
    } else {
      CursorFollows(r, i - 1);
      ValuesAt(r.pts, i);
      var j := 2 * (i - 1);
      assert values[j] in values && values[j + 1] in values;
      WidthBounds(r.pts);
      DeltaOfCode(values, j, k);
      DeltaOfCode(values, j + 1, k);
      UnzigzagInverts(r.pts[i].x - r.pts[i - 1].x);
      UnzigzagInverts(r.pts[i].y - r.pts[i - 1].y);
    }
  }

  lemma CostOfNothing(values: seq<nat>, k: nat)
    ensures Cost(values[..0], k) == 0
  {
  }

  lemma WidthBounds(pts: seq<Point>)
    ensures 1 <= Width(pts) <= BITS + 1
  {
  }

  lemma {:induction false} ValuesAt(pts: seq<Point>, i: nat)
    requires 1 <= i < |pts|
    ensures Values(pts)[2 * (i - 1)] == Zigzag(pts[i].x - pts[i - 1].x)
    ensures Values(pts)[2 * (i - 1) + 1] == Zigzag(pts[i].y - pts[i - 1].y)
  {
    hide Zigzag;
    var n := |pts| - 1;
    if i < n {
      ValuesAt(pts[..n], i);
    }
  }

  /** Walking the deltas of a written ring visits exactly its points. */
  lemma PointsReturn(r: Ring)
    requires IsRing(r)
    ensures PointsOf(EntryOf(r)) == r.pts
  {
    hide CursorAt, Cost, BestWidth, Min, Max, Values;
    forall i | 0 <= i < |r.pts| ensures PointsOf(EntryOf(r))[i] == r.pts[i] {
      assert r.pts[i] in r.pts && OnGrid(r.pts[i]);
      CursorFollows(r, i);
    }
  }

  /** The ring's own numbers fit the reader's u32s; its coordinates always do. */
  predicate Readable(r: Ring)
    requires IsRing(r)
  {
    Head(r) < U32 && |Deltas(r.pts)| < U32
  }

  lemma XsOnGrid(r: Ring)
    requires IsRing(r)
    ensures Max(Xs(r.pts)) < 262144 && Max(Ys(r.pts)) < 262144
    ensures Min(Xs(r.pts)) <= r.pts[0].x <= Max(Xs(r.pts)) && Min(Ys(r.pts)) <= r.pts[0].y <= Max(Ys(r.pts))
  {
    var xs, ys := Xs(r.pts), Ys(r.pts);
    assert xs[0] in xs && ys[0] in ys;
    forall i | 0 <= i < |r.pts| ensures xs[i] < 262144 && ys[i] < 262144 {
      assert r.pts[i] in r.pts;
    }
  }

  lemma OpeningFits(r: Ring)
    requires IsRing(r) && Readable(r)
    ensures forall n :: n in Opening(r) ==> n < U32
  {
    hide Min, Max, Deltas, Head;
    XsOnGrid(r);
  }

  lemma RingReturns(table: seq<Byte>, at: nat, r: Ring)
    requires IsRing(r) && Readable(r) && HoldsAt(table, at, RingBytes(r))
    ensures EntryAt(table, at, BITS) == Some((EntryOf(r), at + |RingBytes(r)|))
  {
    hide Uvs, ReadUvs, BestWidth, PackedBytes, Codes, Values, Min, Max;
    var ns, w, ds := Opening(r), Width(r.pts), Deltas(r.pts);
    assert RingBytes(r) == Uvs(ns) + ([w] + ds);
    HoldsBoth(table, at, Uvs(ns), [w] + ds);
    OpeningFits(r);
    UvsRoundTrip(table, at, ns);
    var next := at + |Uvs(ns)|;
    HoldsBoth(table, next, [w], ds);
    assert table[next] == table[next..next + 1][0] == w;
    WidthBounds(r.pts);
    XsOnGrid(r);
    assert Head(r) / 2 == |r.pts| && (Head(r) % 2 == 1) == r.hole;
  }

  lemma {:induction false} RingsReturn(table: seq<Byte>, at: nat, rings: seq<Ring>)
    requires forall r :: r in rings ==> IsRing(r) && Readable(r)
    requires HoldsAt(table, at, RingsBytes(rings))
    ensures |EntriesFrom(table, at, BITS, |rings|)| == |rings|
    ensures forall i :: 0 <= i < |rings| ==> EntriesFrom(table, at, BITS, |rings|)[i] == EntryOf(rings[i])
    decreases rings
  {
    hide EntryAt, RingBytes, EntryOf, Readable;
    if rings != [] {
      assert rings[0] in rings;
      HoldsBoth(table, at, RingBytes(rings[0]), RingsBytes(rings[1..]));
      RingReturns(table, at, rings[0]);
      assert forall r :: r in rings[1..] ==> r in rings;
      RingsReturn(table, at + |RingBytes(rings[0])|, rings[1..]);
    }
  }

  /** An entry is the ring: hole flag, bounding box and every point. */
  predicate Matches(e: Entry, r: Ring) {
    && e.hole == r.hole && PointsOf(e) == r.pts && r.pts != []
    && e.west == Min(Xs(r.pts)) && e.north == Min(Ys(r.pts))
    && e.east == Max(Xs(r.pts)) && e.south == Max(Ys(r.pts))
  }

  predicate AllMatch(es: seq<Entry>, rings: seq<Ring>) {
    |es| == |rings| && forall i :: 0 <= i < |rings| ==> Matches(es[i], rings[i])
  }

  lemma EntryMatches(r: Ring)
    requires IsRing(r)
    ensures Matches(EntryOf(r), r)
  {
    hide PointsOf, Min, Max;
    PointsReturn(r);
  }

  lemma Parts(m: seq<Byte>, b: Byte, u: seq<Byte>, rest: seq<Byte>)
    requires |m| == 4
    ensures var t := m + [b] + u + rest;
            t[..4] == m && t[4] == b && HoldsAt(t, 5, u) && HoldsAt(t, 5 + |u|, rest)
  {
    var t := m + [b] + u + rest;
    assert t[5..5 + |u|] == u;
    assert t[5 + |u|..5 + |u| + |rest|] == rest;
  }

  /** For every list of rings or lines: the reader of the written table returns each ring's hole flag,
      bounding box and exact points, in order, and the reader of the other kind of table returns none. */
  lemma TableRoundTrip(lines: bool, rings: seq<Ring>)
    requires |rings| < U32 && forall r :: r in rings ==> IsRing(r) && Readable(r)
    ensures AllMatch(EntriesOf(Table(lines, rings), lines), rings)
    ensures EntriesOf(Table(lines, rings), !lines) == []
  {
    hide EntriesFrom, EntriesOf, VarintFrom, UvBytes, Matches, EntryOf, Readable, Table, Magic, RingsBytes, HoldsAt;
    var table := Table(lines, rings);
    var at := 5 + |UvBytes(|rings|)|;
    TableIs(lines, rings);
    Parts(Magic(lines), BITS, UvBytes(|rings|), RingsBytes(rings));
    VarintRoundTrip(table, 5, |rings|);
    EntriesOfParts(table, lines, |rings|, at);
    RingsReturn(table, at, rings);
    forall i | 0 <= i < |rings| ensures Matches(EntryOf(rings[i]), rings[i]) {
      assert rings[i] in rings;
      EntryMatches(rings[i]);
    }
  }

  lemma TableIs(lines: bool, rings: seq<Ring>)
    requires forall r :: r in rings ==> IsRing(r)
    ensures Table(lines, rings) == Magic(lines) + [BITS] + UvBytes(|rings|) + RingsBytes(rings)
  {
  }

  lemma EntriesOfParts(table: seq<Byte>, lines: bool, count: nat, at: nat)
    requires |table| >= 5 && table[..4] == Magic(lines) && table[4] == BITS
    requires VarintFrom(table, 5, 0, 0) == Some((count, at))
    ensures EntriesOf(table, lines) == EntriesFrom(table, at, BITS, count)
    ensures EntriesOf(table, !lines) == []
  {
    hide EntriesFrom, VarintFrom;
    assert Magic(lines)[2] != Magic(!lines)[2];
  }

  // ----- What the reader accepts, of any bytes

  /** Bytes with the top bit on all but the last. */
  predicate IsVarintEnd(table: seq<Byte>, at: nat, end: nat) {
    && at < end <= |table| && table[end - 1] < 128
    && forall i :: at <= i < end - 1 ==> table[i] >= 128
  }

  lemma {:induction false} VarintTail(table: seq<Byte>, at: nat, shift: nat, v: nat, n: nat, end: nat)
    requires IsShift(shift) && v < Pow2(shift)
    ensures VarintFrom(table, at, shift, v) == Some((n, end)) <==>
            && IsVarintEnd(table, at, end) && 7 * (end - at) <= 35 - shift
            && n == (v + Leb128Value(table[at..end]) * Pow2(shift)) % U32
    decreases 35 - shift
  {
    hide Or, Shl, Pow2, VarintFrom, Leb128Value;
    if at >= |table| {
      VarintPastEnd(table, at, shift, v);
    } else {
      var low := table[at] % 128;
      var next := v + low * Pow2(shift);
      ShiftedSum(v, low, shift);
      VarintUnfold(table, at, shift, v);
      if table[at] < 128 {
        Leb128Cons(table, at, at + 1);
        assert IsVarintEnd(table, at, end) ==> end == at + 1;
      } else if shift < 28 {
        Pow2Values();
        ShiftedArith(v, low, 0, Pow2(shift), Pow2(shift + 7));
        VarintTail(table, at + 1, shift + 7, next, n, end);
        if at < end <= |table| {
          Leb128Cons(table, at, end);
          var m := Leb128Value(table[at + 1..end]);
          ShiftedArith(v, low, m, Pow2(shift), Pow2(shift + 7));
        }
      } else {
        VarintTooLong(table, at + 1, next % U32);
      }
    }
  }

  lemma VarintPastEnd(table: seq<Byte>, at: nat, shift: nat, v: nat)
    requires at >= |table|
    ensures VarintFrom(table, at, shift, v) == None
  {
  }

  lemma Leb128Cons(table: seq<Byte>, at: nat, end: nat)
    requires at < end <= |table|
    ensures Leb128Value(table[at..end]) == table[at] % 128 + 128 * Leb128Value(table[at + 1..end])
    ensures end == at + 1 ==> Leb128Value(table[at..end]) == table[at] % 128
  {
    assert table[at..end][0] == table[at] && table[at..end][1..] == table[at + 1..end];
  }

  /** On any bytes: a number is read exactly when a byte without the top bit comes within five, and it is the
      low 32 bits of what those bytes spell. */
  lemma VarintOnAnyBytes(table: seq<Byte>, at: nat, n: nat, end: nat)
    ensures VarintFrom(table, at, 0, 0) == Some((n, end)) <==>
            IsVarintEnd(table, at, end) && end <= at + 5 && n == Leb128Value(table[at..end]) % U32
  {
    hide VarintFrom, Leb128Value;
    Pow2Zero();
    VarintTail(table, at, 0, 0, n, end);
  }

  /** An entry, from its eight numbers and what follows them. */
  predicate IsEntry(table: seq<Byte>, bits: nat, ns: seq<nat>, w: nat, e: Entry, next: nat) {
    && |ns| == 8 && w < |table| && next == w + 1 + ns[1] <= |table|
    && e.len == ns[0] / 2 && (e.hole <==> ns[0] % 2 == 1) && e.first == Point(ns[2], ns[3])
    && e.west + ns[4] == ns[2] && e.north + ns[5] == ns[3] && e.east == ns[2] + ns[6] && e.south == ns[3] + ns[7]
    && e.east < U32 && e.south < U32
    && e.bits == bits && e.width == table[w] && 1 <= e.width <= bits + 1
    && e.deltas == table[w + 1..next]
  }

  /** On any bytes: an entry is read exactly when its eight numbers can be, its box is one of 32-bit numbers
      around its first point, its width is one the bits allow, and its deltas are all there. */
  lemma EntryOnAnyBytes(table: seq<Byte>, at: nat, bits: nat, e: Entry, next: nat)
    ensures EntryAt(table, at, bits) == Some((e, next)) <==>
            ReadUvs(table, at, 8).Some?
            && IsEntry(table, bits, ReadUvs(table, at, 8).value.0, ReadUvs(table, at, 8).value.1, e, next)
  {
    hide ReadUvs;
  }

  /** On any bytes: a table is one that begins with LWO2 or LWL2 and names 8 to 24 bits. */
  lemma TableOnAnyBytes(table: seq<Byte>, bits: nat)
    ensures TableBits(table) == Some(bits) <==>
            && |table| >= 5 && table[0] == 'L' as int && table[1] == 'W' as int
            && (table[2] == 'O' as int || table[2] == 'L' as int) && table[3] == '2' as int
            && table[4] == bits && 8 <= bits <= 24
  {
    if |table| >= 5 {
      assert table[..4] == [table[0], table[1], table[2], table[3]];
    }
  }

  /** Every point handed out is of 32-bit numbers: zero for one below zero, else what is left of it in 32 bits. */
  lemma PointsAreU32(e: Entry, i: nat)
    requires i < e.len
    ensures var (p, c) := (PointsOf(e)[i], CursorAt(e, i));
            && p.x < U32 && p.y < U32
            && (if c.x < 0 then p.x == 0 else (c.x - p.x) % U32 == 0)
            && (if c.y < 0 then p.y == 0 else (c.y - p.y) % U32 == 0)
  {
    hide CursorAt;
  }
}
