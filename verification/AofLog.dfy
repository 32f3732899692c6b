/** The frames of the append-only log. The checksum is an arbitrary function of the bytes. */
module AofLog {
  import opened Machine
  import opened LittleEndian

  datatype Op = Set | Del | Expire | VAdd | VIndexCreate | VIndexDrop | HSet | HDel

  function OpCode(op: Op): u8 {
    match op
    case Set => 1
    case Del => 2
    case Expire => 3
    case VAdd => 4
    case VIndexCreate => 5
    case VIndexDrop => 6
    case HSet => 7
    case HDel => 8
  }

  function OpOf(code: u8): Option<Op> {
    if code == 1 then Some(Set)
    else if code == 2 then Some(Del)
    else if code == 3 then Some(Expire)
    else if code == 4 then Some(VAdd)
    else if code == 5 then Some(VIndexCreate)
    else if code == 6 then Some(VIndexDrop)
    else if code == 7 then Some(HSet)
    else if code == 8 then Some(HDel)
    else None
  }

  datatype Frame = Frame(op: Op, timestamp: u64, key: Bytes, value: Bytes)

  datatype Decoded =
    | Whole(frame: Frame, consumed: nat)
    | Incomplete
    | CorruptMagic
    | InvalidOpCode(code: u8)
    | ChecksumMismatch(expected: nat, calculated: nat)

  type Checksum = Bytes -> u32

  // ---- The code ----

  /** A length as a `u16` and as a `u32`. */
  function Low16(n: nat): nat {
    if n < 0x1_0000 then n else n % 0x1_0000
  }

  function Low32(n: nat): nat {
    if n < 0x1_0000_0000 then n else n % 0x1_0000_0000
  }

  /** The part of a frame that is checksummed. */
  function Body(f: Frame): Bytes {
    Fields([OpCode(f.op)], LeBytes(f.timestamp, 8), LeBytes(Low16(|f.key|), 2), f.key,
           LeBytes(Low32(|f.value|), 4), f.value)
  }

  function Fields(o: Bytes, t: Bytes, kl: Bytes, k: Bytes, vl: Bytes, v: Bytes): Bytes {
    o + t + kl + k + vl + v
  }

  function Magic(): Bytes {
    [0x4B, 0x41]
  }

  function Encode(f: Frame, crc: Checksum): Bytes {
    Magic() + Body(f) + LeBytes(crc(Body(f)), 4)
  }

  /** `encode_frame`: field by field into a buffer. */
  method EncodeFrame(f: Frame, crc: Checksum) returns (buf: Bytes)
    ensures buf == Encode(f, crc)
  {
    buf := Magic();
    buf := buf + [OpCode(f.op)];
    buf := buf + LeBytes(f.timestamp, 8);
    buf := buf + LeBytes(Low16(|f.key|), 2);
    buf := buf + f.key;
    buf := buf + LeBytes(Low32(|f.value|), 4);
    buf := buf + f.value;
    assert buf == Magic() + Body(f);
    assert buf[2..] == Body(f);
    buf := buf + LeBytes(crc(buf[2..]), 4);
  }

  /** `decode_frame`. */
  function Decode(src: Bytes, crc: Checksum): (d: Decoded)
    ensures d.Whole? ==> 21 <= d.consumed <= |src|
  {
    if |src| < 21 then Incomplete
    else if src[0..2] != Magic() then CorruptMagic
    else if OpOf(src[2]).None? then InvalidOpCode(src[2])
    else
      var v := 13 + LeNat(src[11..13]);
      if |src| < v + 4 then Incomplete
      else
        var c := v + 4 + LeNat(src[v..v + 4]);
        if |src| < c + 4 then Incomplete
        else if LeNat(src[c..c + 4]) != crc(src[2..c]) then ChecksumMismatch(LeNat(src[c..c + 4]), crc(src[2..c]))
        else
          Pow256Values();
          LeNatBound(src[3..11]);
          Whole(Frame(OpOf(src[2]).value, LeNat(src[3..11]), src[13..v], src[v + 4..c]), c + 4)
  }

  /** Lengths that the two length fields can carry. */
  predicate Fits(f: Frame) {
    |f.key| < 0x1_0000 && |f.value| < 0x1_0000_0000
  }

  lemma OpRoundTrip(op: Op, code: u8)
    ensures OpOf(OpCode(op)) == Some(op)
    ensures OpOf(code).Some? ==> OpCode(OpOf(code).value) == code
  {
  }

  lemma LengthForms(k: nat, v: nat)
    requires k < 0x1_0000 && v < 0x1_0000_0000
    ensures LeBytes(Low16(k), 2) == [k % 256, k / 256]
    ensures LeBytes(Low32(v), 4) == [v % 256, v / 0x100 % 256, v / 0x1_0000 % 256, v / 0x100_0000]
  {
    LeForms(k);
    LeForms(v);
  }

  /** What a frame is on disk: magic, operation, time, lengths with the low byte first, key, value, checksum. */
  lemma FrameLayout(f: Frame, crc: Checksum)
    requires Fits(f)
    ensures var code := match f.op {
              case Set => 1 case Del => 2 case Expire => 3 case VAdd => 4
              case VIndexCreate => 5 case VIndexDrop => 6 case HSet => 7 case HDel => 8
            };
            var k, v := |f.key|, |f.value|;
            var body := [code] + LeBytes(f.timestamp, 8) + [k % 256, k / 256] + f.key
                        + [v % 256, v / 0x100 % 256, v / 0x1_0000 % 256, v / 0x100_0000] + f.value;
            Encode(f, crc) == [0x4B, 0x41] + body + LeBytes(crc(body), 4)
  {
    LengthForms(|f.key|, |f.value|);
  }

  // ---- Decoding is reading an encoded frame ----

  /** What decodes is an encoded frame. */
  lemma DecodedIsEncoded(src: Bytes, crc: Checksum)
    requires Decode(src, crc).Whole?
    ensures var d := Decode(src, crc); Fits(d.frame) && src[..d.consumed] == Encode(d.frame, crc)
  {
    var d := Decode(src, crc);
    var v := 13 + LeNat(src[11..13]);
    var c := v + 4 + LeNat(src[v..v + 4]);
    Pow256Values();
    LeNatBound(src[11..13]);
    LeNatBound(src[v..v + 4]);
    BodyRead(src, v, c);
    LeBytesOfNat(src[c..c + 4]);
    Sandwich(src, c);
  }

  lemma Sandwich(src: Bytes, c: nat)
    requires 2 <= c && c + 4 <= |src|
    ensures src[..c + 4] == src[0..2] + src[2..c] + src[c..c + 4]
  {
  }

  lemma BodyRead(src: Bytes, v: nat, c: nat)
    requires 13 <= v && v + 4 <= c <= |src| && OpOf(src[2]).Some?
    requires v == 13 + LeNat(src[11..13]) && c == v + 4 + LeNat(src[v..v + 4])
    requires LeNat(src[3..11]) < 0x1_0000_0000_0000_0000 && v - 13 < 0x1_0000 && c - v - 4 < 0x1_0000_0000
    ensures src[2..c] == Body(Frame(OpOf(src[2]).value, LeNat(src[3..11]), src[13..v], src[v + 4..c]))
  {
    var f := Frame(OpOf(src[2]).value, LeNat(src[3..11]), src[13..v], src[v + 4..c]);
    OpRoundTrip(f.op, src[2]);
    LeBytesOfNat(src[3..11]);
    LeBytesOfNat(src[11..13]);
    LeBytesOfNat(src[v..v + 4]);
    Reassemble(src, v, c);
  }

  lemma Reassemble(src: Bytes, v: nat, c: nat)
    requires 13 <= v && v + 4 <= c <= |src|
    ensures src[2..c] == Fields([src[2]], src[3..11], src[11..13], src[13..v], src[v..v + 4], src[v + 4..c])
  {
  }

  /** An encoded frame that fits decodes to itself, whatever follows. */
  lemma EncodedDecodes(f: Frame, crc: Checksum, rest: Bytes)
    requires Fits(f)
    ensures Decode(Encode(f, crc) + rest, crc) == Whole(f, |Encode(f, crc)|)
  {
    var src := Encode(f, crc) + rest;
    var v, c := 13 + |f.key|, 17 + |f.key| + |f.value|;
    Layout(f, crc, rest);
    Pow256Values();
    LeRoundTrip(f.timestamp, 8);
    LeRoundTrip(|f.key|, 2);
    LeRoundTrip(|f.value|, 4);
    LeRoundTrip(crc(Body(f)), 4);
    OpRoundTrip(f.op, 0);
    FieldsDecode(src, crc, v, c);
  }

  /** A buffer whose length fields and checksum are right decodes to its fields. */
  lemma FieldsDecode(src: Bytes, crc: Checksum, v: nat, c: nat)
    requires 13 <= v && v + 4 <= c && c + 4 <= |src| && src[0..2] == Magic() && OpOf(src[2]).Some?
    requires v == 13 + LeNat(src[11..13]) && c == v + 4 + LeNat(src[v..v + 4])
    requires LeNat(src[3..11]) < 0x1_0000_0000_0000_0000 && LeNat(src[c..c + 4]) == crc(src[2..c])
    ensures Decode(src, crc) ==
            Whole(Frame(OpOf(src[2]).value, LeNat(src[3..11]), src[13..v], src[v + 4..c]), c + 4)
  {
  }

  /** Where the fields of an encoded frame lie. */
  lemma Layout(f: Frame, crc: Checksum, rest: Bytes)
    requires Fits(f)
    ensures var src := Encode(f, crc) + rest; var v, c := 13 + |f.key|, 17 + |f.key| + |f.value|;
            && |Encode(f, crc)| == c + 4 && |src| >= c + 4
            && src[0..2] == Magic() && src[2] == OpCode(f.op) && src[3..11] == LeBytes(f.timestamp, 8)
            && src[11..13] == LeBytes(|f.key|, 2) && src[13..v] == f.key
            && src[v..v + 4] == LeBytes(|f.value|, 4) && src[v + 4..c] == f.value
            && src[2..c] == Body(f) && src[c..c + 4] == LeBytes(crc(Body(f)), 4)
  {
    Placed([OpCode(f.op)], LeBytes(f.timestamp, 8), LeBytes(|f.key|, 2), f.key, LeBytes(|f.value|, 4), f.value,
           LeBytes(crc(Body(f)), 4), rest);
  }

  lemma Placed(o: Bytes, t: Bytes, kl: Bytes, k: Bytes, vl: Bytes, v: Bytes, sum: Bytes, rest: Bytes)
    requires |o| == 1 && |t| == 8 && |kl| == 2 && |vl| == 4 && |sum| == 4
    ensures var body := Fields(o, t, kl, k, vl, v); var src := Magic() + body + sum + rest;
            var at, c := 13 + |k|, 17 + |k| + |v|;
            && |Magic() + body + sum| == c + 4 && src[0..2] == Magic() && src[2..c] == body && src[c..c + 4] == sum
            && [src[2]] == o && src[3..11] == t && src[11..13] == kl && src[13..at] == k
            && src[at..at + 4] == vl && src[at + 4..c] == v
  {
    var body, at := Fields(o, t, kl, k, vl, v), 11 + |k|;
    Envelope(Magic(), body, sum, rest);
    FirstFields(o, t, kl, k, vl, v);
    LastFields(o, t, kl, k, vl, v);
    Inside(Magic(), body, sum, rest, 0, 1);
    Inside(Magic(), body, sum, rest, 1, 9);
    Inside(Magic(), body, sum, rest, 9, 11);
    Inside(Magic(), body, sum, rest, 11, at);
    Inside(Magic(), body, sum, rest, at, at + 4);
    Inside(Magic(), body, sum, rest, at + 4, |body|);
  }

  lemma Envelope(m: Bytes, body: Bytes, sum: Bytes, rest: Bytes)
    ensures var src := m + body + sum + rest; var c := |m| + |body|;
            src[0..|m|] == m && src[|m|..c] == body && src[c..c + |sum|] == sum
  {
  }

  /** A range of the middle part. */
  lemma Inside(m: Bytes, body: Bytes, sum: Bytes, rest: Bytes, lo: nat, hi: nat)
    requires lo <= hi <= |body|
    ensures (m + body + sum + rest)[|m| + lo..|m| + hi] == body[lo..hi]
  {
  }

  lemma FirstFields(o: Bytes, t: Bytes, kl: Bytes, k: Bytes, vl: Bytes, v: Bytes)
    requires |o| == 1 && |t| == 8 && |kl| == 2
    ensures var body := Fields(o, t, kl, k, vl, v);
            body[0..1] == o && body[1..9] == t && body[9..11] == kl && body[11..11 + |k|] == k
  {
  }

  lemma LastFields(o: Bytes, t: Bytes, kl: Bytes, k: Bytes, vl: Bytes, v: Bytes)
    requires |o| == 1 && |t| == 8 && |kl| == 2 && |vl| == 4
    ensures var body := Fields(o, t, kl, k, vl, v); var at := 11 + |k|;
            |body| == at + 4 + |v| && body[at..at + 4] == vl && body[at + 4..at + 4 + |v|] == v
  {
  }

  /** A frame survives the round trip exactly when its lengths fit their fields. */
  lemma RoundTrip(f: Frame, crc: Checksum, rest: Bytes)
    ensures Decode(Encode(f, crc) + rest, crc) == Whole(f, |Encode(f, crc)|) <==> Fits(f)
  {
    if Fits(f) {
      EncodedDecodes(f, crc, rest);
    } else if Decode(Encode(f, crc) + rest, crc).Whole? {
      DecodedIsEncoded(Encode(f, crc) + rest, crc);
    }
  }

  /** Every strict prefix of an encoded frame is reported as incomplete, not as corrupt. */
  lemma PrefixIsIncomplete(f: Frame, crc: Checksum, n: nat)
    requires Fits(f) && n < |Encode(f, crc)|
    ensures Decode(Encode(f, crc)[..n], crc).Incomplete?
  {
    var all := Encode(f, crc);
    var v := 13 + |f.key|;
    Layout(f, crc, []);
    assert all + [] == all;
    Pow256Values();
    LeRoundTrip(|f.key|, 2);
    LeRoundTrip(|f.value|, 4);
    OpRoundTrip(f.op, 0);
    if n >= 21 {
      assert all[..n][0..2] == all[0..2] && all[..n][11..13] == all[11..13];
      if n >= v + 4 {
        assert all[..n][v..v + 4] == all[v..v + 4];
      }
    }
  }
}
