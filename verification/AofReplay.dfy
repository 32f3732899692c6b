/**
 Replaying a log: the scan that applies every whole frame at the front and reports where to truncate.

 The frame decoder, with its checksum fixed, is a value; what the scan needs of it is that it reads
 exactly the encoded frames.
 */
module AofReplay {
  import opened Machine
  import opened AofLog

  type Decoder = Bytes -> Decoded
  type Encoder = Frame -> Bytes

  /** `decode` accepts exactly the buffers that begin with the encoding of a frame that fits. */
  ghost predicate Reads(decode: Decoder, encode: Encoder) {
    && (forall s {:trigger ReadsAt(decode, encode, s)} :: ReadsAt(decode, encode, s))
    && (forall f, rest {:trigger WritesAt(decode, encode, f, rest)} :: WritesAt(decode, encode, f, rest))
  }

  ghost predicate ReadsAt(decode: Decoder, encode: Encoder, s: Bytes) {
    decode(s).Whole? ==> BeginsWith(s, encode, decode(s).frame, decode(s).consumed)
  }

  ghost predicate WritesAt(decode: Decoder, encode: Encoder, f: Frame, rest: Bytes) {
    Fits(f) ==> decode(encode(f) + rest) == Whole(f, |encode(f)|)
  }

  ghost predicate BeginsWith(s: Bytes, encode: Encoder, f: Frame, n: nat) {
    Fits(f) && n == |encode(f)| && 0 < n <= |s| && s == encode(f) + s[n..]
  }

  /** The log's own code has that property, whatever the checksum. */
  lemma DecodeReads(crc: Checksum)
    ensures Reads(s => Decode(s, crc), f => Encode(f, crc))
  {
    var decode: Decoder := s => Decode(s, crc);
    var encode: Encoder := f => Encode(f, crc);
    forall s
      ensures ReadsAt(decode, encode, s)
    {
      if decode(s).Whole? {
        DecodedIsEncoded(s, crc);
        assert s == s[..decode(s).consumed] + s[decode(s).consumed..];
      }
    }
    forall f, rest
      ensures WritesAt(decode, encode, f, rest)
    {
      if Fits(f) {
        EncodedDecodes(f, crc, rest);
      }
    }
  }

  // ---- The scan ----

  datatype Scanned = Scanned(frames: seq<Frame>, length: nat)

  /** `n` bytes of frames in front of a scanned log. */
  function Ahead(frames: seq<Frame>, n: nat, r: Scanned): Scanned {
    Scanned(frames + r.frames, n + r.length)
  }

  lemma AheadTwice(a: seq<Frame>, m: nat, b: seq<Frame>, n: nat, r: Scanned)
    ensures Ahead(a, m, Ahead(b, n, r)) == Ahead(a + b, m + n, r) && Ahead([], 0, r) == r
  {
    assert a + (b + r.frames) == (a + b) + r.frames;
  }

  /** Every whole frame at the front, and their total length. */
  ghost function Scan(s: Bytes, decode: Decoder, encode: Encoder): (r: Scanned)
    requires Reads(decode, encode)
    ensures r.length <= |s|
    decreases |s|
  {
    match decode(s)
    case Whole(f, n) =>
      assert ReadsAt(decode, encode, s);
      Ahead([f], n, Scan(s[n..], decode, encode))
    case _ => Scanned([], 0)
  }

  /** The loop of `replay`: what it applied, and the offset to truncate to. */
  method Replay(data: Bytes, decode: Decoder, ghost encode: Encoder) returns (applied: seq<Frame>, lastValid: nat)
    requires Reads(decode, encode)
    ensures Scanned(applied, lastValid) == Scan(data, decode, encode)
  {
    applied, lastValid := [], 0;
    var offset := 0;
    ghost var goal, rest := Scan(data, decode, encode), data;
    AheadTwice([], 0, [], 0, goal);
    while offset < |data|
      invariant 0 <= offset <= |data| && lastValid == offset && rest == data[offset..]
      invariant goal == Ahead(applied, offset, Scan(rest, decode, encode))
      decreases |data| - offset
    {
      match decode(data[offset..]) {
        case Whole(f, consumed) =>
          WholeBegins(rest, decode, encode);
          AheadTwice(applied, offset, [f], consumed, Scan(rest[consumed..], decode, encode));
          rest := rest[consumed..];
          applied := applied + [f];
          offset := offset + consumed;
          lastValid := offset;
        case _ =>
          assert Scan(rest, decode, encode) == Scanned([], 0);
          break;
      }
    }
    if rest == [] {
      EmptyLog(decode, encode);
    }
  }

  lemma WholeBegins(s: Bytes, decode: Decoder, encode: Encoder)
    requires Reads(decode, encode)
    ensures decode(s).Whole? ==> BeginsWith(s, encode, decode(s).frame, decode(s).consumed)
  {
    assert ReadsAt(decode, encode, s);
  }

  lemma EmptyLog(decode: Decoder, encode: Encoder)
    requires Reads(decode, encode)
    ensures Scan([], decode, encode) == Scanned([], 0)
  {
    WholeBegins([], decode, encode);
  }

  // ---- Logs ----

  /** The bytes of a list of frames. */
  ghost function Log(frames: seq<Frame>, encode: Encoder): Bytes {
    if frames == [] then [] else encode(frames[0]) + Log(frames[1..], encode)
  }

  ghost predicate AllFit(frames: seq<Frame>) {
    forall i :: 0 <= i < |frames| ==> Fits(frames[i])
  }

  /** The valid part of any bytes at all is the log of the frames it replays. */
  lemma {:induction false} ScannedIsLog(s: Bytes, decode: Decoder, encode: Encoder)
    requires Reads(decode, encode)
    ensures var r := Scan(s, decode, encode); AllFit(r.frames) && s[..r.length] == Log(r.frames, encode)
    decreases |s|
  {
    var d := decode(s);
    if d.Whole? {
      WholeBegins(s, decode, encode);
      var more := Scan(s[d.consumed..], decode, encode);
      ScannedIsLog(s[d.consumed..], decode, encode);
      assert s[..d.consumed + more.length] == encode(d.frame) + s[d.consumed..][..more.length];
      assert ([d.frame] + more.frames)[1..] == more.frames;
    }
  }

  /** A log followed by anything replays its frames first. */
  lemma {:induction false} LogThenRest(frames: seq<Frame>, rest: Bytes, decode: Decoder, encode: Encoder)
    requires Reads(decode, encode) && AllFit(frames)
    ensures Scan(Log(frames, encode) + rest, decode, encode) ==
            Ahead(frames, |Log(frames, encode)|, Scan(rest, decode, encode))
    decreases |frames|
  {
    var more := Scan(rest, decode, encode);
    if frames == [] {
      AheadTwice([], 0, [], 0, more);
      assert Log(frames, encode) + rest == rest;
    } else {
      var f, log := frames[0], Log(frames[1..], encode);
      LogThenRest(frames[1..], rest, decode, encode);
      ScanFront(f, log + rest, decode, encode);
      AheadTwice([f], |encode(f)|, frames[1..], |log|, more);
      assert encode(f) + log + rest == encode(f) + (log + rest);
      assert frames == [f] + frames[1..];
    }
  }

  // ---- Cut logs ----

  /** How many frames lie wholly before the cut. */
  ghost function WholeBefore(frames: seq<Frame>, cut: nat, encode: Encoder): (k: nat)
    ensures k <= |frames|
  {
    if frames == [] || |encode(frames[0])| > cut then 0
    else 1 + WholeBefore(frames[1..], cut - |encode(frames[0])|, encode)
  }

  /** That many end at or before the cut, and the next one does not. */
  lemma {:induction false} WholeBeforeIsExact(frames: seq<Frame>, cut: nat, encode: Encoder)
    ensures var k := WholeBefore(frames, cut, encode);
            && |Log(frames[..k], encode)| <= cut
            && (k < |frames| ==> |Log(frames[..k + 1], encode)| > cut)
    decreases |frames|
  {
    if frames != [] {
      var n := |encode(frames[0])|;
      assert Log(frames[..1], encode) == encode(frames[0]) by {
        assert frames[..1][1..] == [];
      }
      if n <= cut {
        WholeBeforeIsExact(frames[1..], cut - n, encode);
        var k := WholeBefore(frames[1..], cut - n, encode);
        assert frames[..k + 1][1..] == frames[1..][..k];
        if k + 1 < |frames| {
          assert frames[..k + 2][1..] == frames[1..][..k + 1];
        }
      }
    }
  }

  /** A strict prefix of one frame replays nothing. */
  lemma CutFrame(f: Frame, cut: nat, decode: Decoder, encode: Encoder)
    requires Reads(decode, encode) && Fits(f) && cut < |encode(f)|
    ensures !decode(encode(f)[..cut]).Whole?
  {
    var s, rest := encode(f)[..cut], encode(f)[cut..];
    WholeBegins(s, decode, encode);
    WholeStays(s, rest, decode, encode);
    assert WritesAt(decode, encode, f, []);
    assert s + rest == encode(f) + [];
  }

  /** A whole frame is the same frame whatever follows it. */
  lemma WholeStays(s: Bytes, rest: Bytes, decode: Decoder, encode: Encoder)
    requires Reads(decode, encode)
    ensures decode(s).Whole? ==> decode(s + rest) == decode(s)
  {
    var d := decode(s);
    if d.Whole? {
      WholeBegins(s, decode, encode);
      assert WritesAt(decode, encode, d.frame, s[d.consumed..] + rest);
      assert s + rest == encode(d.frame) + (s[d.consumed..] + rest);
    }
  }

  /** One frame in front. */
  lemma ScanFront(f: Frame, tail: Bytes, decode: Decoder, encode: Encoder)
    requires Reads(decode, encode) && Fits(f)
    ensures Scan(encode(f) + tail, decode, encode) == Ahead([f], |encode(f)|, Scan(tail, decode, encode))
  {
    assert WritesAt(decode, encode, f, tail);
    assert (encode(f) + tail)[|encode(f)|..] == tail;
  }

  /** Cut anywhere, a log replays exactly the frames wholly before the cut, and their length is the valid one. */
  lemma {:induction false} CutLog(frames: seq<Frame>, cut: nat, decode: Decoder, encode: Encoder)
    requires Reads(decode, encode) && AllFit(frames) && cut <= |Log(frames, encode)|
    ensures var k := WholeBefore(frames, cut, encode);
            Scan(Log(frames, encode)[..cut], decode, encode) == Scanned(frames[..k], |Log(frames[..k], encode)|)
    decreases |frames|
  {
    if frames == [] {
      EmptyLog(decode, encode);
    } else {
      var f, n := frames[0], |encode(frames[0])|;
      if n > cut {
        CutFrame(f, cut, decode, encode);
        assert Log(frames, encode)[..cut] == encode(f)[..cut];
      } else {
        var tail := Log(frames[1..], encode);
        CutLog(frames[1..], cut - n, decode, encode);
        assert Log(frames, encode)[..cut] == encode(f) + tail[..cut - n];
        ScanFront(f, tail[..cut - n], decode, encode);
        var k := WholeBefore(frames[1..], cut - n, encode);
        assert frames[..k + 1] == [f] + frames[1..][..k];
        assert frames[..k + 1][1..] == frames[1..][..k];
      }
    }
  }

  // ---- Truncation ----

  /** Scanning the truncated log finds the same frames and nothing to truncate, for any bytes at all. */
  lemma TruncationSettles(s: Bytes, decode: Decoder, encode: Encoder)
    requires Reads(decode, encode)
    ensures var r := Scan(s, decode, encode); Scan(s[..r.length], decode, encode) == r
  {
    AppendAfterTruncation(s, [], decode, encode);
    var r := Scan(s, decode, encode);
    assert s[..r.length] + Log([], encode) == s[..r.length] && r.frames + [] == r.frames;
  }

  /** Frames appended to a truncated log are replayed after those it kept; none is lost behind the old damage. */
  lemma AppendAfterTruncation(s: Bytes, frames: seq<Frame>, decode: Decoder, encode: Encoder)
    requires Reads(decode, encode) && AllFit(frames)
    ensures var r := Scan(s, decode, encode);
            Scan(s[..r.length] + Log(frames, encode), decode, encode) ==
            Scanned(r.frames + frames, r.length + |Log(frames, encode)|)
  {
    var r := Scan(s, decode, encode);
    ScannedIsLog(s, decode, encode);
    LogThenRest(r.frames, Log(frames, encode), decode, encode);
    LogThenRest(frames, [], decode, encode);
    EmptyLog(decode, encode);
    assert Log(frames, encode) + [] == Log(frames, encode) && frames + [] == frames;
  }
}
