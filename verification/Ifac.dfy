/** Interface access codes: masking a packet, and the two verifiers that undo it. */
module Ifac {
  import opened Text

  /** One network's key: its signing function, its key stream for a length and a code, and its code size. */
  datatype Key = Key(sign: seq<bv8> -> seq<bv8>, stream: (nat, seq<bv8>) -> seq<bv8>, size: nat)

  /** Signatures are long enough for the code, and a key stream has the length asked for. */
  ghost predicate Sound(k: Key) {
    && k.size >= 1
    && (forall p :: |k.sign(p)| >= k.size)
    && (forall n, code :: |k.stream(n, code)| == n)
  }

  function Code(k: Key, p: seq<bv8>): (code: seq<bv8>)
    requires |k.sign(p)| >= k.size
    ensures |code| == k.size
  {
    k.sign(p)[|k.sign(p)| - k.size..]
  }

  // ----- Masking

  function Unmasked(k: Key, p: seq<bv8>): seq<bv8>
    requires |p| >= 2 && |k.sign(p)| >= k.size
  {
    [p[0] | 0x80, p[1]] + Code(k, p) + p[2..]
  }

  function MaskByte(size: nat, i: nat, byte: bv8, m: bv8): bv8 {
    if i == 0 then (byte ^ m) | 0x80 else if i == 1 || i > size + 1 then byte ^ m else byte
  }

  ghost function Masked(k: Key, p: seq<bv8>): (r: seq<bv8>)
    requires Sound(k) && |p| >= 2
    ensures |r| == |p| + k.size
    ensures forall i :: 0 <= i < |r| ==>
              r[i] == MaskByte(k.size, i, Unmasked(k, p)[i], k.stream(|p| + k.size, Code(k, p))[i])
  {
    var raw := Unmasked(k, p);
    var m := k.stream(|p| + k.size, Code(k, p));
    seq(|raw|, i requires 0 <= i < |raw| => MaskByte(k.size, i, raw[i], m[i]))
  }

  method Mask(k: Key, packet: seq<bv8>) returns (masked: seq<bv8>)
    requires Sound(k) && |packet| >= 2
    ensures masked == Masked(k, packet)
  {
    var signature := k.sign(packet);
    var code := signature[|signature| - k.size..];
    var mask := k.stream(|packet| + k.size, code);
    var raw := [packet[0] | 0x80, packet[1]] + code + packet[2..];
    masked := [];
    for i := 0 to |raw|
      invariant |masked| == i && forall j :: 0 <= j < i ==> masked[j] == MaskByte(k.size, j, raw[j], mask[j])
    {
      if i == 0 {
        masked := masked + [(raw[i] ^ mask[i]) | 0x80];
      } else if i == 1 || i > k.size + 1 {
        masked := masked + [raw[i] ^ mask[i]];
      } else {
        masked := masked + [raw[i]];
      }
    }
  }

  // ----- Verifying

  function UnmaskByte(size: nat, i: nat, byte: bv8, m: bv8): bv8 {
    if i <= 1 || i > size + 1 then byte ^ m else byte
  }

  function CodeIn(size: nat, raw: seq<bv8>): seq<bv8>
    requires |raw| >= 2
  {
    if 2 + size <= |raw| then raw[2..2 + size] else raw[2..]
  }

  function From(s: seq<bv8>, n: nat): seq<bv8> {
    if n <= |s| then s[n..] else []
  }

  ghost function UnmaskedBytes(k: Key, raw: seq<bv8>): (u: seq<bv8>)
    requires Sound(k) && |raw| >= 2
    ensures |u| == |raw|
    ensures forall i :: 0 <= i < |raw| ==>
              u[i] == UnmaskByte(k.size, i, raw[i], k.stream(|raw|, CodeIn(k.size, raw))[i])
  {
    var m := k.stream(|raw|, CodeIn(k.size, raw));
    seq(|raw|, i requires 0 <= i < |raw| => UnmaskByte(k.size, i, raw[i], m[i]))
  }

  /** The packet a verifier recovers, before it checks the code. */
  ghost function Recovered(k: Key, raw: seq<bv8>): (c: seq<bv8>)
    requires Sound(k) && |raw| >= 2
    ensures |c| >= 2
  {
    var u := UnmaskedBytes(k, raw);
    [u[0] & 0x7F, u[1]] + From(u, 2 + k.size)
  }

  /** How the script's verifier ends: with the packet, with None, or with an IndexError. */
  datatype Verdict = Accepted(packet: seq<bv8>) | Refused | IndexError

  ghost function ScriptVerdict(k: Key, raw: seq<bv8>): Verdict
    requires Sound(k)
  {
    if raw == [] then IndexError
    else if raw[0] & 0x80 != 0x80 then Refused
    else if |raw| == 1 then IndexError
    else
      var c := Recovered(k, raw);
      if CodeIn(k.size, raw) == Code(k, c) then Accepted(c) else Refused
  }

  method Unmask(size: nat, raw: seq<bv8>, mask: seq<bv8>) returns (u: seq<bv8>)
    requires |mask| == |raw|
    ensures |u| == |raw| && forall i :: 0 <= i < |raw| ==> u[i] == UnmaskByte(size, i, raw[i], mask[i])
  {
    u := [];
    for i := 0 to |raw|
      invariant |u| == i && forall j :: 0 <= j < i ==> u[j] == UnmaskByte(size, j, raw[j], mask[j])
    {
      if i <= 1 || i > size + 1 {
        u := u + [raw[i] ^ mask[i]];
      } else {
        u := u + [raw[i]];
      }
    }
  }

  lemma UnmaskedIs(k: Key, raw: seq<bv8>, u: seq<bv8>)
    requires Sound(k) && |raw| >= 2 && |u| == |raw|
    requires forall i :: 0 <= i < |raw| ==>
               u[i] == UnmaskByte(k.size, i, raw[i], k.stream(|raw|, CodeIn(k.size, raw))[i])
    ensures u == UnmaskedBytes(k, raw)
  {
    hide UnmaskedBytes, UnmaskByte, CodeIn;
  }

  method VerifyScript(k: Key, raw: seq<bv8>) returns (v: Verdict)
    requires Sound(k)
    ensures v == ScriptVerdict(k, raw)
  {
    hide UnmaskedBytes, UnmaskByte, CodeIn, From;
    if raw == [] {
      return IndexError;
    }
    if raw[0] & 0x80 != 0x80 {
      return Refused;
    }
    if |raw| == 1 {
      return IndexError;
    }
    var code := CodeIn(k.size, raw);
    var u := Unmask(k.size, raw, k.stream(|raw|, code));
    UnmaskedIs(k, raw, u);
    var clean := [u[0] & 0x7F, u[1]] + From(u, 2 + k.size);
    var signature := k.sign(clean);
    v := if code == signature[|signature| - k.size..] then Accepted(clean) else Refused;
  }

  datatype IfacError = PacketTooShort | MissingIfacFlag | VerificationFailed
  datatype Checked = Ok(packet: seq<bv8>) | Err(error: IfacError)

  /** `verify_ifac_single` of the Rust crate. */
  ghost function CrateVerdict(k: Key, raw: seq<bv8>): Checked
    requires Sound(k)
  {
    if |raw| < 2 + k.size then Err(PacketTooShort)
    else if raw[0] & 0x80 == 0 then Err(MissingIfacFlag)
    else
      var c := Recovered(k, raw);
      if CodeIn(k.size, raw) == Code(k, c) then Ok(c) else Err(VerificationFailed)
  }

  /** `verify_ifac`: during a key rotation the alternate key is tried, and the primary's error kept. */
  ghost function RotatingVerdict(k: Key, alt: Option<Key>, raw: seq<bv8>): Checked
    requires Sound(k) && (alt.Some? ==> Sound(alt.value))
  {
    match CrateVerdict(k, raw)
    case Ok(c) => Ok(c)
    case Err(e) =>
      match alt
      case None => Err(e)
      case Some(a) => if CrateVerdict(a, raw).Ok? then CrateVerdict(a, raw) else Err(e)
  }

  // ----- The masked packet, byte by byte

  /** The key stream a packet is masked with: that of the last bytes of its signature. */
  ghost function KeyStream(k: Key, p: seq<bv8>): seq<bv8>
    requires Sound(k)
  {
    k.stream(|p| + k.size, k.sign(p)[|k.sign(p)| - k.size..])
  }

  /** Bit 7 of the first byte is set and its other bits are masked; the second byte is masked; the last bytes
      of the signature follow as they are; and the rest of the packet follows masked. */
  lemma MaskedLayout(k: Key, p: seq<bv8>)
    requires Sound(k) && |p| >= 2
    ensures var (r, m, g) := (Masked(k, p), KeyStream(k, p), k.sign(p));
            && |r| == |m| == |p| + k.size
            && r[0] & 0x80 == 0x80 && r[0] & 0x7F == (p[0] ^ m[0]) & 0x7F
            && r[1] == p[1] ^ m[1]
            && r[2..2 + k.size] == g[|g| - k.size..]
            && (forall i :: 2 <= i < |p| ==> r[i + k.size] == p[i] ^ m[i + k.size])
  {
    hide MaskByte;
    var (r, m, code) := (Masked(k, p), KeyStream(k, p), k.sign(p)[|k.sign(p)| - k.size..]);
    var raw := [p[0] | 0x80, p[1]] + code + p[2..];
    MaskedBytes(k.size, p[0], m[0]);
    forall i | 0 <= i < |raw| ensures r[i] == MaskByte(k.size, i, raw[i], m[i]) {}
    forall i | 0 <= i < k.size ensures r[2..2 + k.size][i] == code[i] {
      assert raw[2 + i] == code[i] && r[2 + i] == MaskByte(k.size, 2 + i, raw[2 + i], m[2 + i]);
    }
    forall i | 2 <= i < |p| ensures r[i + k.size] == p[i] ^ m[i + k.size] {
      assert raw[i + k.size] == p[i];
    }
  }

  lemma MaskedBytes(size: nat, p: bv8, m: bv8)
    ensures MaskByte(size, 0, p | 0x80, m) & 0x80 == 0x80 && MaskByte(size, 0, p | 0x80, m) & 0x7F == (p ^ m) & 0x7F
    ensures forall i, b, x :: 2 <= i <= size + 1 ==> MaskByte(size, i, b, x) == b
    ensures forall i, b, x :: i == 1 || i > size + 1 ==> MaskByte(size, i, b, x) == b ^ x
  {
    FirstByte(p, m);
  }

  lemma FirstByte(p: bv8, m: bv8)
    ensures (((p | 0x80) ^ m) | 0x80) & 0x80 == 0x80
    ensures (((p | 0x80) ^ m) | 0x80) & 0x7F == (p ^ m) & 0x7F
  {
  }

  /** How a packet that is not accepted ends: the script raises exactly on a packet that ends before its second
      byte, unless the flag is missing; the crate names what is missing first, and in a rotation it is the
      primary key's error. */
  lemma RefusalKinds(k: Key, alt: Option<Key>, raw: seq<bv8>)
    requires Sound(k) && (alt.Some? ==> Sound(alt.value))
    ensures ScriptVerdict(k, raw).IndexError? <==> |raw| == 0 || (|raw| == 1 && raw[0] & 0x80 != 0)
    ensures CrateVerdict(k, raw) == Err(PacketTooShort) <==> |raw| < 2 + k.size
    ensures CrateVerdict(k, raw) == Err(MissingIfacFlag) <==> |raw| >= 2 + k.size && raw[0] & 0x80 == 0
    ensures RotatingVerdict(k, alt, raw).Err? ==> RotatingVerdict(k, alt, raw) == CrateVerdict(k, raw)
  {
    hide Recovered, CodeIn, Code;
    if raw != [] {
      FlagBit(raw[0]);
    }
  }

  // ----- Inverse in both directions

  lemma HeaderByte(p: bv8, m: bv8)
    ensures ((((p | 0x80) ^ m) | 0x80) ^ m) & 0x7F == p & 0x7F
    ensures p & 0x80 == 0 <==> p & 0x7F == p
  {
  }

  lemma HeaderByteBack(r: bv8, m: bv8)
    requires r & 0x80 == 0x80
    ensures ((((r ^ m) & 0x7F) | 0x80) ^ m) | 0x80 == r
  {
  }

  lemma MaskThenUnmask(size: nat, i: nat, b: bv8, m: bv8)
    ensures i == 0 ==> MaskByte(size, i, b, m) & 0x80 == 0x80
    ensures i == 0 ==> UnmaskByte(size, i, MaskByte(size, i, b | 0x80, m), m) & 0x7F == b & 0x7F
    ensures i > 0 ==> UnmaskByte(size, i, MaskByte(size, i, b, m), m) == b
    ensures 2 <= i <= size + 1 ==> MaskByte(size, i, b, m) == b
  {
    HeaderByte(b, m);
  }

  lemma UnmaskThenMask(size: nat, i: nat, r: bv8, m: bv8)
    ensures i == 0 && r & 0x80 == 0x80 ==> MaskByte(size, i, (UnmaskByte(size, i, r, m) & 0x7F) | 0x80, m) == r
    ensures i > 0 ==> MaskByte(size, i, UnmaskByte(size, i, r, m), m) == r
  {
    if r & 0x80 == 0x80 {
      HeaderByteBack(r, m);
    }
  }

  /** Unmasking a masked packet gives it back with bit 7 of its first byte clear, and its own code. */
  lemma RecoveredFromMasked(k: Key, p: seq<bv8>)
    requires Sound(k) && |p| >= 2
    ensures var raw := Masked(k, p);
            && raw[0] & 0x80 == 0x80 && CodeIn(k.size, raw) == Code(k, p)
            && Recovered(k, raw) == p[0 := p[0] & 0x7F]
  {
    hide MaskByte, UnmaskByte, Masked, UnmaskedBytes, Code;
    var raw, code := Masked(k, p), Code(k, p);
    var plain, m := Unmasked(k, p), k.stream(|p| + k.size, code);
    forall i | 0 <= i < |plain| && i > 0
      ensures UnmaskByte(k.size, i, MaskByte(k.size, i, plain[i], m[i]), m[i]) == plain[i]
      ensures 2 <= i <= k.size + 1 ==> raw[i] == plain[i]
    {
      MaskThenUnmask(k.size, i, plain[i], m[i]);
    }
    assert raw[2..2 + k.size] == code;
    MaskThenUnmask(k.size, 0, p[0], m[0]);
    MaskThenUnmask(k.size, 0, plain[0], m[0]);
    var u := UnmaskedBytes(k, raw);
    assert u[1] == plain[1];
    assert u[2 + k.size..] == plain[2 + k.size..] == p[2..];
  }

  /** A raw packet with the flag set is the masking of what is recovered from it, if the code matches. */
  lemma MaskedFromRecovered(k: Key, raw: seq<bv8>)
    requires Sound(k) && |raw| >= 2 + k.size && raw[0] & 0x80 == 0x80
    requires CodeIn(k.size, raw) == Code(k, Recovered(k, raw))
    ensures Masked(k, Recovered(k, raw)) == raw && Recovered(k, raw)[0] & 0x80 == 0
  {
    hide MaskByte, UnmaskByte, Masked, UnmaskedBytes, Code;
    var c, u := Recovered(k, raw), UnmaskedBytes(k, raw);
    var code, m := CodeIn(k.size, raw), k.stream(|raw|, CodeIn(k.size, raw));
    assert |c| + k.size == |raw|;
    var plain := Unmasked(k, c);
    LowBits(u[0]);
    UnmaskThenMask(k.size, 0, raw[0], m[0]);
    forall i | 0 < i < |raw| ensures plain[i] == u[i] && Masked(k, c)[i] == raw[i] {
      UnmaskThenMask(k.size, i, raw[i], m[i]);
      if 2 <= i <= k.size + 1 {
        KeptByte(k.size, i, raw[i], m[i]);
      }
    }
    assert plain[0] == (u[0] & 0x7F) | 0x80;
  }

  lemma KeptByte(size: nat, i: nat, r: bv8, m: bv8)
    requires 2 <= i <= size + 1
    ensures UnmaskByte(size, i, r, m) == r
  {
  }

  lemma LowBits(b: bv8)
    ensures b & 0x7F & 0x80 == 0
  {
  }

  /** What a verifier must accept: exactly the maskings of packets whose bit 7 is clear. */
  ghost predicate IsMasking(k: Key, raw: seq<bv8>, c: seq<bv8>)
    requires Sound(k)
  {
    |c| >= 2 && c[0] & 0x80 == 0 && raw == Masked(k, c)
  }

  lemma FlagBit(b: bv8)
    ensures b & 0x80 == 0 || b & 0x80 == 0x80
  {
  }

  /** The crate accepts exactly the masked packets, each as the packet it was made from. */
  lemma CrateAcceptsMasked(k: Key, raw: seq<bv8>, c: seq<bv8>)
    requires Sound(k)
    ensures CrateVerdict(k, raw) == Ok(c) <==> IsMasking(k, raw, c)
  {
    hide Recovered, Masked, Code;
    if CrateVerdict(k, raw) == Ok(c) {
      FlagBit(raw[0]);
      MaskedFromRecovered(k, raw);
    }
    if IsMasking(k, raw, c) {
      RecoveredFromMasked(k, c);
      HeaderByte(c[0], 0);
      assert c[0 := c[0] & 0x7F] == c;
    }
  }

  /** The script and the crate accept the same packets and recover the same contents. */
  lemma VerifiersAgree(k: Key, raw: seq<bv8>, c: seq<bv8>)
    requires Sound(k)
    ensures ScriptVerdict(k, raw) == Accepted(c) <==> CrateVerdict(k, raw) == Ok(c)
  {
    hide Recovered;
    if |raw| >= 1 {
      FlagBit(raw[0]);
    }
  }

  /** Masking and verifying are inverse exactly on packets whose bit 7 is clear. */
  lemma MaskRoundTrip(k: Key, p: seq<bv8>)
    requires Sound(k) && |p| >= 2
    ensures ScriptVerdict(k, Masked(k, p)) == Accepted(p) <==> p[0] & 0x80 == 0
  {
    hide Recovered, Masked, Code, ScriptVerdict, CrateVerdict;
    VerifiersAgree(k, Masked(k, p), p);
    CrateAcceptsMasked(k, Masked(k, p), p);
  }

  /** During a rotation, what is accepted is what either key masked; the primary key decides first. */
  lemma RotationAcceptsEither(k: Key, alt: Key, raw: seq<bv8>)
    requires Sound(k) && Sound(alt)
    ensures RotatingVerdict(k, Some(alt), raw).Ok? <==>
            (exists c :: IsMasking(k, raw, c)) || (exists c :: IsMasking(alt, raw, c))
    ensures forall c :: IsMasking(k, raw, c) ==> RotatingVerdict(k, Some(alt), raw) == Ok(c)
    ensures RotatingVerdict(k, None, raw).Ok? <==> exists c :: IsMasking(k, raw, c)
  {
    hide Recovered, Masked, Code, CrateVerdict, IsMasking;
    forall c ensures CrateVerdict(k, raw) == Ok(c) <==> IsMasking(k, raw, c) { CrateAcceptsMasked(k, raw, c); }
    forall c ensures CrateVerdict(alt, raw) == Ok(c) <==> IsMasking(alt, raw, c) { CrateAcceptsMasked(alt, raw, c); }
    var a, b := CrateVerdict(k, raw), CrateVerdict(alt, raw);
    if a.Ok? { assert IsMasking(k, raw, a.packet); }
    if b.Ok? { assert IsMasking(alt, raw, b.packet); }
  }

  // ----- Rotating the key of a whole network

  datatype Config = Config(key: Key, alt: Option<Key>)

  function InstallAlt(c: Config, next: Key): Config { c.(alt := Some(next)) }

  function ActivateAlt(c: Config): Config {
    match c.alt case None => c case Some(next) => Config(next, Some(c.key))
  }

  function SealAlt(c: Config): Config { c.(alt := None) }

  /** A node's configuration after the first `phase` steps of a rotation from `old` to `new_`. */
  function InPhase(old_: Key, new_: Key, phase: nat): (c: Config)
    requires phase <= 3
    ensures c.key == if phase <= 1 then old_ else new_
    ensures c.alt == if phase == 1 then Some(new_) else if phase == 2 then Some(old_) else None
  {
    if phase == 0 then Config(old_, None)
    else if phase == 1 then InstallAlt(InPhase(old_, new_, 0), new_)
    else if phase == 2 then ActivateAlt(InPhase(old_, new_, 1))
    else SealAlt(InPhase(old_, new_, 2))
  }

  ghost predicate Accepts(c: Config, raw: seq<bv8>)
    requires Sound(c.key) && (c.alt.Some? ==> Sound(c.alt.value))
  {
    RotatingVerdict(c.key, c.alt, raw).Ok?
  }

  /** Nodes at most one rotation step apart never refuse each other's packets. */
  lemma RotationNeverDrops(old_: Key, new_: Key, sender: nat, receiver: nat, p: seq<bv8>)
    requires Sound(old_) && Sound(new_) && |p| >= 2 && p[0] & 0x80 == 0
    requires sender <= 3 && receiver <= 3 && receiver <= sender + 1 && sender <= receiver + 1
    ensures Accepts(InPhase(old_, new_, receiver), Masked(InPhase(old_, new_, sender).key, p))
  {
    hide RotatingVerdict, Masked;
    var raw := Masked(InPhase(old_, new_, sender).key, p);
    assert IsMasking(InPhase(old_, new_, sender).key, raw, p);
    var c := InPhase(old_, new_, receiver);
    RotationAcceptsEither(c.key, if c.alt.Some? then c.alt.value else c.key, raw);
  }
}
