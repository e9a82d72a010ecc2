/** The world-outline encoder: varints, zigzag deltas and bit packing with an escape code. */
module Outline {
  import opened Bits

  const BITS: nat := 18

  datatype Point = Point(x: nat, y: nat)

  predicate OnGrid(p: Point) {
    p.x < 262144 && p.y < 262144
  }

  // ----- Varints

  function UvBytes(v: nat): seq<Byte> {
    if v < 128 then [v] else [v % 128 + 128] + UvBytes(v / 128)
  }

  lemma OrTopBit(b: nat)
    requires b < 128
    ensures Or(b, 0x80) == b + 128
  {
    Pow2Values();
    assert Shl(1, 7) == 0x80;
    OrDisjoint(b, 1, 7);
  }

  method Uv(value: nat) returns (out: seq<Byte>)
    ensures out == UvBytes(value)
  {
    hide And, Or, Shl;
    var v := value;
    out := [];
    while true
      invariant out + UvBytes(v) == UvBytes(value)
      decreases v
    {
      var b := And(v, 0x7F);
      AndByte(v);
      ghost var was := v;
      v := v / 128;
      if v != 0 {
        OrTopBit(b);
        assert UvBytes(was) == [Or(b, 0x80)] + UvBytes(v);
        out := out + [Or(b, 0x80)];
      } else {
        out := out + [b];
        return;
      }
    }
  }

  // ----- Zigzag

  function Zigzag(v: int): nat {
    if v >= 0 then 2 * v else 2 * -v - 1
  }

  // ----- Packing

  function Escape(k: nat): nat {
    Pow2(k) - 1
  }

  function CodeLength(v: nat, k: nat): nat {
    if v < Escape(k) then k else k + BITS + 1
  }

  function Cost(values: seq<nat>, k: nat): nat {
    if values == [] then 0 else Cost(values[..|values| - 1], k) + CodeLength(values[|values| - 1], k)
  }

  /** The documented code of one value: `k` bits, or the escape and `BITS + 1` bits. */
  function Code(v: nat, k: nat): (s: seq<bool>)
    ensures |s| == CodeLength(v, k)
  {
    if v < Escape(k) then BitsOf(v, k) else BitsOf(Escape(k), k) + BitsOf(v, BITS + 1)
  }

  function Codes(values: seq<nat>, k: nat): (s: seq<bool>)
    ensures |s| == Cost(values, k)
  {
    if values == [] then [] else Codes(values[..|values| - 1], k) + Code(values[|values| - 1], k)
  }

  function BytesBits(bytes: seq<Byte>): (s: seq<bool>)
    ensures |s| == 8 * |bytes|
  {
    if bytes == [] then [] else BytesBits(bytes[..|bytes| - 1]) + BitsOf(bytes[|bytes| - 1], 8)
  }

  /** The packer's state stands for the bits already out and the `n` held over in `acc`. */
  ghost predicate Holds(out: seq<Byte>, acc: nat, n: nat, bits: seq<bool>) {
    acc < Pow2(n) && BytesBits(out) + BitsOf(acc, n) == bits
  }

  lemma SnocByte(out: seq<Byte>, b: Byte)
    ensures BytesBits(out + [b]) == BytesBits(out) + BitsOf(b, 8)
  {
    assert (out + [b])[..|out|] == out;
  }

  lemma AccAfterByte(acc: nat, n: nat)
    requires acc < Pow2(n) && n >= 8
    ensures acc / 256 < Pow2(n - 8)
  {
    Pow2Values();
    Pow2Add(8, n - 8);
  }

  lemma AccAfterValue(acc: nat, n: nat, v: nat, width: nat)
    requires acc < Pow2(n) && v < Pow2(width)
    ensures acc + Shl(v, n) < Pow2(n + width)
  {
    hide Pow2;
    Pow2Add(n, width);
    var p, q := Pow2(n), Pow2(width);
    MulMonotone(v + 1, q, p);
    assert (v + 1) * p == v * p + p;
  }

  lemma MulMonotone(a: nat, b: nat, c: nat)
    requires a <= b
    ensures a * c <= b * c
  {
  }

  /** `put`: the bits of `v` follow, and fewer than eight bits stay behind. */
  method Put(acc0: nat, n0: nat, out0: seq<Byte>, v: nat, width: nat, ghost bits: seq<bool>)
    returns (acc: nat, n: nat, out: seq<Byte>)
    requires Holds(out0, acc0, n0, bits) && v < Pow2(width)
    ensures Holds(out, acc, n, bits + BitsOf(v, width)) && n < 8
  {
    hide BitsOf, BytesBits, Or, And, Shl, Pow2;
    OrDisjoint(acc0, v, n0);
    AccAfterValue(acc0, n0, v, width);
    BitsConcat(acc0, n0, v, width);
    acc, n, out := Or(acc0, Shl(v, n0)), n0 + width, out0;
    assert BytesBits(out) + BitsOf(acc, n) == bits + BitsOf(v, width);
    while n >= 8
      invariant Holds(out, acc, n, bits + BitsOf(v, width))
      decreases n
    {
      AndByte(acc);
      ByteSplit(acc, n);
      SnocByte(out, acc % 256);
      AccAfterByte(acc, n);
      out := out + [And(acc, 0xFF)];
      acc := acc / 256;
      n := n - 8;
    }
  }

  function Zeros(n: nat): seq<bool> {
    seq(n, _ => false)
  }

  lemma {:induction false} BitsOfZero(n: nat)
    ensures BitsOf(0, n) == Zeros(n)
  {
    if n > 0 {
      BitsOfZero(n - 1);
    }
  }

  lemma EscapeFits(k: nat)
    ensures Escape(k) < Pow2(k)
  {
  }

  lemma CodesStep(values: seq<nat>, i: nat, k: nat)
    requires i < |values|
    ensures Codes(values[..i + 1], k) == Codes(values[..i], k) + Code(values[i], k)
  {
    hide Code;
    assert values[..i + 1][..i] == values[..i];
  }

  lemma CodeIs(bits: seq<bool>, v: nat, k: nat)
    ensures bits + Code(v, k) ==
            if v < Escape(k) then bits + BitsOf(v, k) else bits + BitsOf(Escape(k), k) + BitsOf(v, BITS + 1)
  {
    hide BitsOf, Escape;
  }

  /** The bytes hold the bits, and zeros to fill the last byte. */
  ghost predicate Filled(out: seq<Byte>, bits: seq<bool>) {
    |out| == (|bits| + 7) / 8 && BytesBits(out) == bits + Zeros(8 * |out| - |bits|)
  }

  lemma Finished(out: seq<Byte>, acc: nat, n: nat, bits: seq<bool>)
    requires Holds(out, acc, n, bits) && n < 8
    ensures n == 0 ==> Filled(out, bits)
    ensures n != 0 ==> acc < 256 && And(acc, 0xFF) == acc && Filled(out + [acc], bits)
  {
    hide BitsOf, BytesBits, And, Pow2;
    if n == 0 {
      EmptyBits(acc);
    } else {
      LastByte(acc, n);
      AndByte(acc);
      SnocByte(out, acc);
    }
  }

  /** The packed bytes are the documented codes, one after another, filled up with zeros. */
  method Pack(values: seq<nat>, k: nat) returns (out: seq<Byte>)
    requires forall v :: v in values ==> v < Pow2(BITS + 1)
    ensures Filled(out, Codes(values, k))
  {
    hide BitsOf, Codes, Code, Pow2, And, Holds, Filled;
    var esc := Escape(k);
    var acc, n := 0, 0;
    out := [];
    NothingHeld(k, values);
    for i := 0 to |values|
      invariant Holds(out, acc, n, Codes(values[..i], k)) && n < 8
    {
      var v := values[i];
      assert v in values;
      ghost var bits := Codes(values[..i], k);
      CodesStep(values, i, k);
      CodeIs(bits, v, k);
      if v < esc {
        acc, n, out := Put(acc, n, out, v, k, bits);
      } else {
        EscapeFits(k);
        acc, n, out := Put(acc, n, out, esc, k, bits);
        acc, n, out := Put(acc, n, out, v, BITS + 1, bits + BitsOf(esc, k));
      }
    }
    assert values[..|values|] == values;
    Finished(out, acc, n, Codes(values, k));
    if n != 0 {
      out := out + [And(acc, 0xFF)];
    }
  }

  lemma NothingHeld(k: nat, values: seq<nat>)
    ensures Holds([], 0, 0, Codes(values[..0], k))
  {
  }

  lemma EmptyBits(acc: nat)
    ensures BitsOf(acc, 0) == []
  {
  }

  lemma LastByte(acc: nat, n: nat)
    requires acc < Pow2(n) && 0 < n < 8
    ensures acc < 256 && BitsOf(acc, 8) == BitsOf(acc, n) + Zeros(8 - n)
  {
    Pow2Values();
    Pow2Monotone(n, 8);
    BitsConcat(acc, n, 0, 8 - n);
    BitsOfZero(8 - n);
    assert acc + Shl(0, n) == acc;
  }

  // ----- The packed bytes as a function of the bits

  lemma {:induction false} BytesBitsAt(bytes: seq<Byte>, j: nat, i: nat)
    requires j < |bytes| && i < 8
    ensures BytesBits(bytes)[8 * j + i] == BitsOf(bytes[j], 8)[i]
  {
    hide BitsOf;
    var n := |bytes| - 1;
    if j < n {
      BytesBitsAt(bytes[..n], j, i);
    }
  }

  lemma {:induction false} BitsOfValue(s: seq<bool>)
    ensures ValueOf(s) < Pow2(|s|) && BitsOf(ValueOf(s), |s|) == s
  {
    if s != [] {
      BitsOfValue(s[1..]);
      assert ValueOf(s) / 2 == ValueOf(s[1..]);
    }
  }

  function EightFrom(bits: seq<bool>, at: nat): seq<bool> {
    seq(8, i => i >= 0 && at + i < |bits| && bits[at + i])
  }

  function PackedByte(bits: seq<bool>, j: nat): Byte {
    BitsOfValue(EightFrom(bits, 8 * j));
    Pow2Values();
    ValueOf(EightFrom(bits, 8 * j))
  }

  function PackedBytes(bits: seq<bool>): seq<Byte> {
    seq((|bits| + 7) / 8, j requires j >= 0 => PackedByte(bits, j))
  }

  lemma FilledIsPacked(out: seq<Byte>, bits: seq<bool>)
    requires Filled(out, bits)
    ensures out == PackedBytes(bits)
  {
    hide BitsOf, ValueOf, BytesBits, Pow2;
    forall j | 0 <= j < |out| ensures out[j] == PackedBytes(bits)[j] {
      var s := EightFrom(bits, 8 * j);
      forall i | 0 <= i < 8 ensures BitsOf(out[j], 8)[i] == s[i] {
        BytesBitsAt(out, j, i);
      }
      assert BitsOf(out[j], 8) == s;
      assert out[j] < Pow2(8) by { Pow2Values(); }
      ValueOfBits(out[j], 8);
    }
  }

  // ----- Choosing the width

  /** `k` is the least of the widths 1 to `top` with the fewest bits. */
  predicate IsBest(values: seq<nat>, k: nat, top: nat) {
    && 1 <= k <= top
    && forall j :: 1 <= j <= top ==> Cost(values, k) < Cost(values, j) || (Cost(values, k) == Cost(values, j) && k <= j)
  }

  function BestWidth(values: seq<nat>, top: nat): (k: nat)
    requires top >= 1
    ensures IsBest(values, k, top)
  {
    if top == 1 then 1
    else
      var k := BestWidth(values, top - 1);
      if Cost(values, top) < Cost(values, k) then top else k
  }

  method ChooseWidth(values: seq<nat>) returns (k: nat)
    ensures IsBest(values, k, BITS + 1) && k == BestWidth(values, BITS + 1)
  {
    k := 1;
    for j := 2 to BITS + 2
      invariant IsBest(values, k, j - 1) && k == BestWidth(values, j - 1)
    {
      if Cost(values, j) < Cost(values, k) {
        k := j;
      }
    }
  }

  /** At the widest width the encoder tries, no delta on the grid is ever escaped. */
  lemma NoEscapeAtFullWidth(v: nat)
    requires v <= 2 * 262143
    ensures v < Escape(BITS + 1) && v < Pow2(BITS + 1)
  {
    Pow2Values();
  }

  // ----- Rings

  function Values(pts: seq<Point>): (vs: seq<nat>)
    ensures |vs| == if pts == [] then 0 else 2 * (|pts| - 1)
  {
    if |pts| <= 1 then []
    else
      var a, b := pts[|pts| - 2], pts[|pts| - 1];
      Values(pts[..|pts| - 1]) + [Zigzag(b.x - a.x), Zigzag(b.y - a.y)]
  }

  lemma {:induction false} ValuesFit(pts: seq<Point>)
    requires forall p :: p in pts ==> OnGrid(p)
    ensures forall v :: v in Values(pts) ==> v <= 2 * 262143 && v < Pow2(BITS + 1)
  {
    hide Pow2;
    if |pts| > 1 {
      ValuesFit(pts[..|pts| - 1]);
      var a, b := pts[|pts| - 2], pts[|pts| - 1];
      assert OnGrid(a) && OnGrid(b);
      NoEscapeAtFullWidth(Zigzag(b.x - a.x));
      NoEscapeAtFullWidth(Zigzag(b.y - a.y));
    }
  }

  function Min(s: seq<nat>): (m: nat)
    requires s != []
    ensures m in s && forall v :: v in s ==> m <= v
  {
    if |s| == 1 then s[0]
    else
      var n := |s| - 1;
      assert s == s[..n] + [s[n]];
      if s[n] < Min(s[..n]) then s[n] else Min(s[..n])
  }

  function Max(s: seq<nat>): (m: nat)
    requires s != []
    ensures m in s && forall v :: v in s ==> v <= m
  {
    if |s| == 1 then s[0]
    else
      var n := |s| - 1;
      assert s == s[..n] + [s[n]];
      if s[n] > Max(s[..n]) then s[n] else Max(s[..n])
  }

  function Xs(pts: seq<Point>): (s: seq<nat>) ensures |s| == |pts| { seq(|pts|, i requires 0 <= i < |pts| => pts[i].x) }

  function Ys(pts: seq<Point>): (s: seq<nat>) ensures |s| == |pts| { seq(|pts|, i requires 0 <= i < |pts| => pts[i].y) }

  datatype Ring = Ring(hole: bool, pts: seq<Point>)

  predicate IsRing(r: Ring) {
    r.pts != [] && forall p :: p in r.pts ==> OnGrid(p)
  }

  function Width(pts: seq<Point>): nat {
    BestWidth(Values(pts), BITS + 1)
  }

  function Deltas(pts: seq<Point>): seq<Byte> {
    PackedBytes(Codes(Values(pts), Width(pts)))
  }

  function Head(r: Ring): nat {
    |r.pts| * 2 + (if r.hole then 1 else 0)
  }

  /** The numbers that open a ring, each a varint. */
  function Opening(r: Ring): (ns: seq<nat>)
    requires r.pts != []
    ensures |ns| == 8
  {
    var (x, y, xs, ys) := (r.pts[0].x, r.pts[0].y, Xs(r.pts), Ys(r.pts));
    assert xs[0] in xs && ys[0] in ys;
    [Head(r), |Deltas(r.pts)|, x, y, x - Min(xs), y - Min(ys), Max(xs) - x, Max(ys) - y]
  }

  function Uvs(ns: seq<nat>): seq<Byte> {
    if ns == [] then [] else UvBytes(ns[0]) + Uvs(ns[1..])
  }

  function RingBytes(r: Ring): seq<Byte>
    requires IsRing(r)
  {
    Uvs(Opening(r)) + [Width(r.pts)] + Deltas(r.pts)
  }

  method UvAll(ns: seq<nat>) returns (out: seq<Byte>)
    ensures out == Uvs(ns)
  {
    out := [];
    for i := 0 to |ns|
      invariant out + Uvs(ns[i..]) == Uvs(ns)
    {
      var u := Uv(ns[i]);
      assert ns[i..][1..] == ns[i + 1..];
      out := out + u;
    }
  }

  method EncodeRing(r: Ring) returns (out: seq<Byte>)
    requires IsRing(r)
    ensures out == RingBytes(r)
  {
    hide BestWidth, Codes, PackedBytes, Uvs, Pow2, Values, Zigzag, IsBest, Filled, Min, Max;
    var pts := r.pts;
    var values: seq<nat> := [];
    SinglePoint(pts);
    for i := 1 to |pts|
      invariant values == Values(pts[..i])
    {
      ValuesStep(pts, i);
      values := values + [Zigzag(pts[i].x - pts[i - 1].x), Zigzag(pts[i].y - pts[i - 1].y)];
    }
    assert pts[..|pts|] == pts;
    ValuesFit(pts);
    var k := ChooseWidth(values);
    var deltas := Pack(values, k);
    FilledIsPacked(deltas, Codes(values, k));
    var (x, y, xs, ys) := (pts[0].x, pts[0].y, Xs(pts), Ys(pts));
    assert xs[0] in xs && ys[0] in ys;
    var ns := [|pts| * 2 + (if r.hole then 1 else 0), |deltas|, x, y,
               x - Min(xs), y - Min(ys), Max(xs) - x, Max(ys) - y];
    assert ns == Opening(r);
    out := UvAll(ns);
    out := out + [k] + deltas;
  }

  lemma SinglePoint(pts: seq<Point>)
    requires pts != []
    ensures Values(pts[..1]) == []
  {
  }

  lemma ValuesStep(pts: seq<Point>, i: nat)
    requires 1 <= i < |pts|
    ensures Values(pts[..i + 1]) ==
            Values(pts[..i]) + [Zigzag(pts[i].x - pts[i - 1].x), Zigzag(pts[i].y - pts[i - 1].y)]
  {
    hide Zigzag;
    assert pts[..i + 1][..i] == pts[..i];
  }

  // ----- Tables

  function Magic(lines: bool): (m: seq<Byte>)
    ensures |m| == 4
  {
    if lines then [0x4C, 0x57, 0x4C, 0x32] else [0x4C, 0x57, 0x4F, 0x32]
  }

  function RingsBytes(rings: seq<Ring>): seq<Byte>
    requires forall r :: r in rings ==> IsRing(r)
  {
    if rings == [] then [] else RingBytes(rings[0]) + RingsBytes(rings[1..])
  }

  /** The file the script writes. */
  function Table(lines: bool, rings: seq<Ring>): seq<Byte>
    requires forall r :: r in rings ==> IsRing(r)
  {
    Magic(lines) + [BITS] + UvBytes(|rings|) + RingsBytes(rings)
  }

  method Bake(lines: bool, rings: seq<Ring>) returns (body: seq<Byte>)
    requires forall r :: r in rings ==> IsRing(r)
    ensures body == Table(lines, rings)
  {
    hide RingBytes, UvBytes;
    body := Magic(lines) + [BITS];
    var u := Uv(|rings|);
    body := body + u;
    for i := 0 to |rings|
      invariant body + RingsBytes(rings[i..]) == Table(lines, rings)
    {
      assert rings[i] in rings;
      var ring := EncodeRing(rings[i]);
      assert rings[i..][1..] == rings[i + 1..];
      body := body + ring;
    }
  }

  // ----- The documented layout

  function Leb128Value(bytes: seq<Byte>): nat {
    if bytes == [] then 0 else bytes[0] % 128 + 128 * Leb128Value(bytes[1..])
  }

  /** A varint: seven bits a byte from the lowest, the top bit on every byte but the last, and no byte more than
      the number needs. */
  lemma {:induction false} UvIsLeb128(v: nat)
    ensures var b := UvBytes(v);
            && |b| >= 1 && Leb128Value(b) == v
            && (forall i :: 0 <= i < |b| - 1 ==> b[i] >= 128)
            && b[|b| - 1] < 128 && (|b| > 1 ==> b[|b| - 1] > 0)
  {
    if v >= 128 {
      UvIsLeb128(v / 128);
      assert UvBytes(v)[1..] == UvBytes(v / 128);
    } else {
      assert UvBytes(v)[1..] == [];
    }
  }

  /** The box around some points: all are in it, and each side touches one. */
  predicate IsBox(pts: seq<Point>, west: nat, north: nat, east: nat, south: nat) {
    && (forall p :: p in pts ==> west <= p.x <= east && north <= p.y <= south)
    && (exists p :: p in pts && p.x == west) && (exists p :: p in pts && p.x == east)
    && (exists p :: p in pts && p.y == north) && (exists p :: p in pts && p.y == south)
  }

  lemma MinMaxAre(s: seq<nat>, low: nat, high: nat)
    requires low in s && high in s && forall v :: v in s ==> low <= v <= high
    ensures Min(s) == low && Max(s) == high
  {
    hide Min, Max;
  }

  lemma InCoordinates(pts: seq<Point>, p: Point)
    requires p in pts
    ensures p.x in Xs(pts) && p.y in Ys(pts)
  {
    var i :| 0 <= i < |pts| && pts[i] == p;
    assert Xs(pts)[i] == p.x && Ys(pts)[i] == p.y;
  }

  lemma SidesX(pts: seq<Point>, low: nat, high: nat)
    requires pts != [] && forall p :: p in pts ==> low <= p.x <= high
    requires (exists p :: p in pts && p.x == low) && (exists p :: p in pts && p.x == high)
    ensures Min(Xs(pts)) == low && Max(Xs(pts)) == high
  {
    hide Min, Max;
    forall v | v in Xs(pts) ensures low <= v <= high {
      var i :| 0 <= i < |Xs(pts)| && Xs(pts)[i] == v;
      assert pts[i] in pts;
    }
    hide Xs;
    var a :| a in pts && a.x == low;
    InCoordinates(pts, a);
    var b :| b in pts && b.x == high;
    InCoordinates(pts, b);
    MinMaxAre(Xs(pts), low, high);
  }

  lemma SidesY(pts: seq<Point>, low: nat, high: nat)
    requires pts != [] && forall p :: p in pts ==> low <= p.y <= high
    requires (exists p :: p in pts && p.y == low) && (exists p :: p in pts && p.y == high)
    ensures Min(Ys(pts)) == low && Max(Ys(pts)) == high
  {
    hide Min, Max;
    forall v | v in Ys(pts) ensures low <= v <= high {
      var i :| 0 <= i < |Ys(pts)| && Ys(pts)[i] == v;
      assert pts[i] in pts;
    }
    hide Ys;
    var a :| a in pts && a.y == low;
    InCoordinates(pts, a);
    var b :| b in pts && b.y == high;
    InCoordinates(pts, b);
    MinMaxAre(Ys(pts), low, high);
  }

  /** One ring as the format lists it: its head, the length of its deltas, its first point, that point's
      distance from each side of the box, the width, and the deltas. */
  lemma RingLayout(r: Ring, west: nat, north: nat, east: nat, south: nat)
    requires IsRing(r) && IsBox(r.pts, west, north, east, south)
    ensures west <= r.pts[0].x <= east && north <= r.pts[0].y <= south
    ensures var (x, y, deltas) := (r.pts[0].x, r.pts[0].y, Deltas(r.pts));
            RingBytes(r) ==
            UvBytes(2 * |r.pts| + (if r.hole then 1 else 0)) + (UvBytes(|deltas|)
            + (UvBytes(x) + (UvBytes(y)
            + (UvBytes(x - west) + (UvBytes(y - north) + (UvBytes(east - x) + (UvBytes(south - y) + [])))))))
            + [Width(r.pts)] + deltas
  {
    hide UvBytes, Deltas, Width, Min, Max;
    assert r.pts[0] in r.pts;
    SidesX(r.pts, west, east);
    SidesY(r.pts, north, south);
    UvsOfEight(Opening(r));
  }

  lemma UvsOfEight(n: seq<nat>)
    requires |n| == 8
    ensures Uvs(n) ==
            UvBytes(n[0]) + (UvBytes(n[1]) + (UvBytes(n[2]) + (UvBytes(n[3])
            + (UvBytes(n[4]) + (UvBytes(n[5]) + (UvBytes(n[6]) + (UvBytes(n[7]) + [])))))))
  {
    hide UvBytes;
    UvsFrom(n, 0);
    UvsFrom(n, 1);
    UvsFrom(n, 2);
    UvsFrom(n, 3);
    UvsFrom(n, 4);
    UvsFrom(n, 5);
    UvsFrom(n, 6);
    UvsFrom(n, 7);
    assert n[0..] == n && n[8..] == [];
  }

  lemma UvsFrom(n: seq<nat>, i: nat)
    requires i < |n|
    ensures Uvs(n[i..]) == UvBytes(n[i]) + Uvs(n[i + 1..])
  {
    hide UvBytes;
    assert n[i..][0] == n[i] && n[i..][1..] == n[i + 1..];
  }

  /** The deltas of a ring are the packed codes of its steps, and a step back is told by its low bit. */
  lemma DeltasLayout(r: Ring, v: int)
    requires IsRing(r)
    ensures Filled(Deltas(r.pts), Codes(Values(r.pts), Width(r.pts))) && IsBest(Values(r.pts), Width(r.pts), 19)
    ensures Zigzag(v) % 2 == 1 <==> v < 0
    ensures Zigzag(v) / 2 == if v < 0 then -1 - v else v
  {
    hide Codes, Values, Cost, BestWidth;
    PackedIsFilled(Codes(Values(r.pts), Width(r.pts)));
  }

  lemma PackedIsFilled(bits: seq<bool>)
    ensures Filled(PackedBytes(bits), bits)
  {
    hide BitsOf, ValueOf, BytesBits, Pow2;
    var out := PackedBytes(bits);
    var fill := 8 * |out| - |bits|;
    forall m | 0 <= m < 8 * |out| ensures BytesBits(out)[m] == (bits + Zeros(fill))[m] {
      var (j, i) := (m / 8, m % 8);
      var s := EightFrom(bits, 8 * j);
      BytesBitsAt(out, j, i);
      BitsOfValue(s);
      assert out[j] == PackedByte(bits, j) && BitsOf(out[j], 8) == s;
    }
  }

  /** The file begins with the four letters LWO2 or LWL2, 18, and the number of its rings. */
  lemma TableLayout(lines: bool, rings: seq<Ring>)
    requires forall r :: r in rings ==> IsRing(r)
    ensures Table(lines, rings) ==
            [76, 87, if lines then 76 else 79, 50] + [18]
            + UvBytes(|rings|) + RingsBytes(rings)
  {
    hide UvBytes, RingsBytes;
  }
}
