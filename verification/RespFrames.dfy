/**
 RESP frames: the streaming parser, the encoders, and how they undo each other.

 A parse is `Done` with the bytes it consumed, `Incomplete` when more bytes are needed, or `Bad`.
 */
module RespFrames {
  import opened Machine
  import opened RespLines

  datatype RespError = InvalidTypeMarker(marker: u8) | MissingCrlf | InvalidInteger | EmptyCommand | Rejected

  datatype Parsed<+T> = Done(value: T, consumed: nat) | Incomplete | Bad(error: RespError)

  datatype Frame =
    | SimpleString(text: Bytes)
    | Error(text: Bytes)
    | Integer(n: i64)
    | BulkString(data: Bytes)
    | Null
    | Array(frames: seq<Frame>)

  // ---- Parts of a frame ----

  /** `parse_simple_string`. */
  function ParseLine(src: Bytes): (r: Parsed<Bytes>)
    ensures r.Done? ==> 2 <= r.consumed <= |src|
  {
    match FindCrlf(src)
    case Some(pos) => Done(src[..pos], pos + 2)
    case None => Incomplete
  }

  /** `parse_integer`, and the length line of bulk strings and arrays. */
  function ParseIntLine(src: Bytes): (r: Parsed<i64>)
    ensures r.Done? ==> 2 <= r.consumed <= |src|
  {
    match FindCrlf(src)
    case Some(pos) => (match ParseI64(src[..pos])
                       case Some(n) => Done(n, pos + 2)
                       case None => Bad(InvalidInteger))
    case None => Incomplete
  }

  /** The payload of a bulk string of `len` bytes and its closing CRLF. */
  function ParsePayload(src: Bytes, len: nat): (r: Parsed<Bytes>)
    ensures r.Done? ==> 2 <= r.consumed <= |src|
  {
    if |src| < len + 2 then Incomplete
    else if src[len] != CR || src[len + 1] != LF then Bad(MissingCrlf)
    else Done(src[..len], len + 2)
  }

  /** `parse_bulk_string`: `None` for the null bulk string. */
  function ParseBulk(src: Bytes): (r: Parsed<Option<Bytes>>)
    ensures r.Done? ==> 2 <= r.consumed <= |src|
  {
    match ParseIntLine(src)
    case Done(len, n) =>
      if len == -1 then Done(None, n)
      else if len < 0 then Bad(InvalidInteger)
      else (match ParsePayload(src[n..], len)
            case Done(data, m) => Done(Some(data), n + m)
            case Incomplete => Incomplete
            case Bad(e) => Bad(e))
    case Incomplete => Incomplete
    case Bad(e) => Bad(e)
  }

  /** `parse_null_resp3`. */
  function ParseNull(src: Bytes): (r: Parsed<()>)
    ensures r.Done? ==> 2 <= r.consumed <= |src|
  {
    match FindCrlf(src)
    case Some(pos) => if pos == 0 then Done((), 2) else Bad(InvalidTypeMarker(95))
    case None => Incomplete
  }

  // ---- Frames ----

  /** `parse_frame`. */
  function ParseFrame(src: Bytes): (r: Parsed<Frame>)
    ensures r.Done? ==> 0 < r.consumed <= |src|
    decreases |src|, 0
  {
    if src == [] then Incomplete
    else
      var body := src[1..];
      if src[0] == 43 then
        match ParseLine(body)
        case Done(s, n) => Done(SimpleString(s), n + 1)
        case Incomplete => Incomplete
        case Bad(e) => Bad(e)
      else if src[0] == 45 then
        match ParseLine(body)
        case Done(s, n) => Done(Error(s), n + 1)
        case Incomplete => Incomplete
        case Bad(e) => Bad(e)
      else if src[0] == 58 then
        match ParseIntLine(body)
        case Done(i, n) => Done(Integer(i), n + 1)
        case Incomplete => Incomplete
        case Bad(e) => Bad(e)
      else if src[0] == 36 then
        match ParseBulk(body)
        case Done(Some(data), n) => Done(BulkString(data), n + 1)
        case Done(None, n) => Done(Null, n + 1)
        case Incomplete => Incomplete
        case Bad(e) => Bad(e)
      else if src[0] == 95 then
        match ParseNull(body) case Done(_, n) => Done(Null, n + 1) case Incomplete => Incomplete case Bad(e) => Bad(e)
      else if src[0] == 42 then ParseArray(body)
      else Bad(InvalidTypeMarker(src[0]))
  }

  /** `parse_array`, after the marker; the marker counts as consumed. */
  function ParseArray(body: Bytes): (r: Parsed<Frame>)
    ensures r.Done? ==> 0 < r.consumed <= |body| + 1
    decreases |body|, 2
  {
    match ParseIntLine(body)
    case Done(count, n) =>
      if count < 0 then Done(Array([]), n + 1)
      else (match ParseElements(body[n..], count)
            case Done(frames, m) => Done(Array(frames), n + m + 1)
            case Incomplete => Incomplete
            case Bad(e) => Bad(e))
    case Incomplete => Incomplete
    case Bad(e) => Bad(e)
  }

  /** `count` frames one after the other. */
  function ParseElements(src: Bytes, count: nat): (r: Parsed<seq<Frame>>)
    ensures r.Done? ==> r.consumed <= |src|
    decreases |src|, 1, count
  {
    if count == 0 then Done([], 0)
    else match ParseFrame(src)
      case Done(f, n) => Cons(f, n, ParseElements(src[n..], count - 1))
      case Incomplete => Incomplete
      case Bad(e) => Bad(e)
  }

  function Cons<T>(x: T, n: nat, r: Parsed<seq<T>>): Parsed<seq<T>> {
    match r
    case Done(xs, m) => Done([x] + xs, n + m)
    case Incomplete => Incomplete
    case Bad(e) => Bad(e)
  }

  // ---- Stability: an answer does not change when more bytes arrive ----

  lemma LineStable(src: Bytes, more: Bytes)
    requires !ParseLine(src).Incomplete?
    ensures ParseLine(src + more) == ParseLine(src)
  {
    FindCrlfStable(src, more);
    assert (src + more)[..FindCrlf(src).value] == src[..FindCrlf(src).value];
  }

  lemma IntLineStable(src: Bytes, more: Bytes)
    requires !ParseIntLine(src).Incomplete?
    ensures ParseIntLine(src + more) == ParseIntLine(src)
  {
    FindCrlfStable(src, more);
    assert (src + more)[..FindCrlf(src).value] == src[..FindCrlf(src).value];
  }

  lemma PayloadStable(src: Bytes, len: nat, more: Bytes)
    requires !ParsePayload(src, len).Incomplete?
    ensures ParsePayload(src + more, len) == ParsePayload(src, len)
  {
    assert (src + more)[..len] == src[..len];
  }

  lemma DropAppend(src: Bytes, more: Bytes, n: nat)
    requires n <= |src|
    ensures (src + more)[n..] == src[n..] + more
  {
  }

  lemma BulkStable(src: Bytes, more: Bytes)
    requires !ParseBulk(src).Incomplete?
    ensures ParseBulk(src + more) == ParseBulk(src)
  {
    IntLineStable(src, more);
    var line := ParseIntLine(src);
    if line.Done? && line.value >= 0 {
      DropAppend(src, more, line.consumed);
      PayloadStable(src[line.consumed..], line.value, more);
    }
  }

  lemma NullStable(src: Bytes, more: Bytes)
    requires !ParseNull(src).Incomplete?
    ensures ParseNull(src + more) == ParseNull(src)
  {
    FindCrlfStable(src, more);
  }

  /** Any complete answer of the parser is final. */
  lemma {:induction false} FrameStable(src: Bytes, more: Bytes)
    requires !ParseFrame(src).Incomplete?
    ensures ParseFrame(src + more) == ParseFrame(src)
    decreases |src|, 0
  {
    var body := src[1..];
    DropAppend(src, more, 1);
    if src[0] == 43 || src[0] == 45 {
      LineStable(body, more);
    } else if src[0] == 58 {
      IntLineStable(body, more);
    } else if src[0] == 36 {
      BulkStable(body, more);
    } else if src[0] == 95 {
      NullStable(body, more);
    } else if src[0] == 42 {
      ArrayStable(body, more);
    }
  }

  lemma {:induction false} ArrayStable(body: Bytes, more: Bytes)
    requires !ParseArray(body).Incomplete?
    ensures ParseArray(body + more) == ParseArray(body)
    decreases |body|, 2
  {
    IntLineStable(body, more);
    var line := ParseIntLine(body);
    if line.Done? && line.value >= 0 {
      DropAppend(body, more, line.consumed);
      ElementsStable(body[line.consumed..], line.value, more);
    }
  }

  lemma {:induction false} ElementsStable(src: Bytes, count: nat, more: Bytes)
    requires !ParseElements(src, count).Incomplete?
    ensures ParseElements(src + more, count) == ParseElements(src, count)
    decreases |src|, 1, count
  {
    if count > 0 {
      FrameStable(src, more);
      var first := ParseFrame(src);
      if first.Done? {
        DropAppend(src, more, first.consumed);
        ElementsStable(src[first.consumed..], count - 1, more);
      }
    }
  }

  // ---- Encoding ----

  function Line(marker: u8, text: Bytes): Bytes {
    [marker] + (text + CRLF)
  }

  /** What the encoders write for a frame. */
  function Encode(f: Frame): (s: Bytes)
    ensures s != []
    decreases f, 0
  {
    match f
    case SimpleString(s) => Line(43, s)
    case Error(s) => Line(45, s)
    case Integer(n) => Line(58, Printed(n))
    case BulkString(data) => Line(36, Decimal(|data|)) + (data + CRLF)
    case Null => Line(36, [45, 49])
    case Array(frames) => Line(42, Decimal(|frames|)) + EncodeAll(frames)
  }

  function EncodeAll(fs: seq<Frame>): Bytes
    decreases fs, 1
  {
    if fs == [] then [] else Encode(fs[0]) + EncodeAll(fs[1..])
  }

  /** One frame of each kind as it goes over the wire: `+OK`, `-ERR`, `$3` with `abc`, `$-1`. */
  lemma WireForms()
    ensures Encode(SimpleString([79, 75])) == [43, 79, 75, 13, 10]
    ensures Encode(Error([69, 82, 82])) == [45, 69, 82, 82, 13, 10]
    ensures Encode(BulkString([97, 98, 99])) == [36, 51, 13, 10, 97, 98, 99, 13, 10]
    ensures Encode(Null) == [36, 45, 49, 13, 10]
  {
  }

  /** `:-120`. */
  lemma IntegerForm()
    ensures Encode(Integer(-120)) == [58, 45, 49, 50, 48, 13, 10]
  {
    assert Decimal(1) == [49];
    assert Decimal(12) == [49, 50];
    assert Decimal(120) == [49, 50, 48];
  }

  /** `*2` with `$1` `x` and `$-1`. */
  lemma ArrayForm()
    ensures Encode(Array([BulkString([120]), Null]))
            == [42, 50, 13, 10, 36, 49, 13, 10, 120, 13, 10, 36, 45, 49, 13, 10]
  {
    var x, fs := BulkString([120]), [BulkString([120]), Null];
    assert Encode(x) == [36, 49, 13, 10, 120, 13, 10];
    assert fs[1..] == [Null] && [Null][1..] == [];
    assert EncodeAll([Null]) == Encode(Null) + EncodeAll([]);
    assert EncodeAll(fs) == Encode(x) + EncodeAll([Null]);
  }

  /** Frames whose encoding is not ambiguous: one-line texts, no least integer, lengths that fit an `i64`. */
  ghost predicate Printable(f: Frame)
    decreases f, 0
  {
    match f
    case SimpleString(s) => NoCrlf(s)
    case Error(s) => NoCrlf(s)
    case Integer(n) => n != I64_MIN
    case BulkString(data) => |data| <= I64_MAX
    case Null => true
    case Array(frames) => |frames| <= I64_MAX && PrintableAll(frames)
  }

  ghost predicate PrintableAll(fs: seq<Frame>)
    decreases fs, 1
  {
    fs == [] || (Printable(fs[0]) && PrintableAll(fs[1..]))
  }

  // ---- Round trip ----

  /** A printed text line reads back, up to its first CRLF. */
  lemma LineReads(text: Bytes, rest: Bytes)
    ensures ParseLine(text + CRLF + rest).Done?
    ensures NoCrlf(text) ==> ParseLine(text + CRLF + rest) == Done(text, |text| + 2)
    ensures !NoCrlf(text) ==> ParseLine(text + CRLF + rest).value != text
  {
    FindCrlfLine(text, rest);
    assert (text + CRLF + rest)[..|text|] == text;
  }

  lemma IntLineReads(text: Bytes, rest: Bytes)
    requires NoCrlf(text)
    ensures ParseIntLine(text + CRLF + rest) ==
            match ParseI64(text) case Some(n) => Done(n, |text| + 2) case None => Bad(InvalidInteger)
  {
    FindCrlfLine(text, rest);
    assert (text + CRLF + rest)[..|text|] == text;
  }

  lemma DigitsHaveNoCrlf(s: Bytes)
    requires AllDigits(s)
    ensures NoCrlf(s)
  {
  }

  /** A printed length reads back exactly when it fits. */
  lemma LengthReads(n: nat, rest: Bytes)
    ensures ParseIntLine(Decimal(n) + CRLF + rest) ==
            if n <= I64_MAX then Done(n, |Decimal(n)| + 2) else Bad(InvalidInteger)
  {
    DigitsHaveNoCrlf(Decimal(n));
    IntLineReads(Decimal(n), rest);
    if n <= I64_MAX {
      ParseDecimal(n);
    } else {
      DecimalValue(n);
      assert IsDigit(Decimal(n)[0]);
    }
  }

  lemma BulkReads(data: Bytes, rest: Bytes)
    ensures var s := Decimal(|data|) + CRLF + (data + CRLF + rest);
            ParseBulk(s) == if |data| <= I64_MAX then Done(Some(data), |Decimal(|data|)| + 2 + |data| + 2)
                            else Bad(InvalidInteger)
  {
    var tail := data + CRLF + rest;
    var s := Decimal(|data|) + CRLF + tail;
    LengthReads(|data|, tail);
    if |data| <= I64_MAX {
      assert s[|Decimal(|data|)| + 2..] == tail;
      assert tail[..|data|] == data;
    }
  }

  /** The bytes after the marker of an encoded line. */
  lemma LineBody(marker: u8, text: Bytes, rest: Bytes)
    ensures (Line(marker, text) + rest)[0] == marker
    ensures (Line(marker, text) + rest)[1..] == text + CRLF + rest
  {
  }

  lemma BulkBody(data: Bytes, rest: Bytes)
    ensures (Encode(BulkString(data)) + rest)[0] == 36
    ensures (Encode(BulkString(data)) + rest)[1..] == Decimal(|data|) + CRLF + (data + CRLF + rest)
    ensures |Encode(BulkString(data))| == 1 + |Decimal(|data|)| + 2 + |data| + 2
  {
    var head := Line(36, Decimal(|data|));
    assert Encode(BulkString(data)) + rest == head + (data + CRLF + rest);
    LineBody(36, Decimal(|data|), data + CRLF + rest);
  }

  lemma ArrayBody(fs: seq<Frame>, rest: Bytes)
    ensures (Encode(Array(fs)) + rest)[0] == 42
    ensures (Encode(Array(fs)) + rest)[1..] == Decimal(|fs|) + CRLF + (EncodeAll(fs) + rest)
    ensures |Encode(Array(fs))| == 1 + |Decimal(|fs|)| + 2 + |EncodeAll(fs)|
  {
    var head := Line(42, Decimal(|fs|));
    assert Encode(Array(fs)) + rest == head + (EncodeAll(fs) + rest);
    LineBody(42, Decimal(|fs|), EncodeAll(fs) + rest);
  }

  lemma NullReads(rest: Bytes)
    ensures ParseFrame(Encode(Null) + rest) == Done(Null, |Encode(Null)|)
  {
    LineBody(36, [45, 49], rest);
    assert ParseI64([45, 49]) == Some(-1) by {
      assert [45, 49][1..] == [49];
      assert DigitsValue([49]) == 1 by { assert [49][..0] == []; }
    }
    assert NoCrlf([45, 49]);
    IntLineReads([45, 49], rest);
  }

  /** `r` is the answer a frame's own encoding must give: the frame if it is printable, anything else if not. */
  ghost predicate ReadsAs(f: Frame, r: Parsed<Frame>) {
    && (Printable(f) ==> r == Done(f, |Encode(f)|))
    && (!Printable(f) ==> !(r.Done? && r.value == f))
  }

  lemma TextReads(f: Frame, rest: Bytes)
    requires f.SimpleString? || f.Error?
    ensures ReadsAs(f, ParseFrame(Encode(f) + rest))
  {
    LineBody(if f.SimpleString? then 43 else 45, f.text, rest);
    LineReads(f.text, rest);
  }

  lemma IntegerReads(n: i64, rest: Bytes)
    ensures ReadsAs(Integer(n), ParseFrame(Encode(Integer(n)) + rest))
  {
    LineBody(58, Printed(n), rest);
    PrintedHasNoCrlf(n);
    ParsePrinted(n);
    IntLineReads(Printed(n), rest);
  }

  lemma BulkFrameReads(data: Bytes, rest: Bytes)
    ensures ReadsAs(BulkString(data), ParseFrame(Encode(BulkString(data)) + rest))
  {
    BulkBody(data, rest);
    BulkReads(data, rest);
  }

  /** A frame reads back from its encoding, with exactly its bytes consumed, if and only if it is printable. */
  lemma {:induction false} RoundTrip(f: Frame, rest: Bytes)
    ensures Printable(f) ==> ParseFrame(Encode(f) + rest) == Done(f, |Encode(f)|)
    ensures !Printable(f) ==> !(ParseFrame(Encode(f) + rest).Done? && ParseFrame(Encode(f) + rest).value == f)
    decreases f, 0
  {
    match f
    case SimpleString(_) => TextReads(f, rest);
    case Error(_) => TextReads(f, rest);
    case Integer(n) => IntegerReads(n, rest);
    case BulkString(data) => BulkFrameReads(data, rest);
    case Null => NullReads(rest);
    case Array(frames) => ArrayRoundTrip(frames, rest);
  }

  lemma {:induction false} ArrayRoundTrip(fs: seq<Frame>, rest: Bytes)
    ensures Printable(Array(fs)) ==> ParseFrame(Encode(Array(fs)) + rest) == Done(Array(fs), |Encode(Array(fs))|)
    ensures !Printable(Array(fs)) ==>
              !(ParseFrame(Encode(Array(fs)) + rest).Done? && ParseFrame(Encode(Array(fs)) + rest).value == Array(fs))
    decreases fs, 2
  {
    ArrayReads(fs, rest);
    ArrayBody(fs, rest);
    RoundTripAll(fs, rest);
  }

  /** The header of an encoded array is parsed off, leaving its elements. */
  lemma ArrayReads(fs: seq<Frame>, rest: Bytes)
    ensures ParseFrame(Encode(Array(fs)) + rest) ==
            if |fs| > I64_MAX then Bad(InvalidInteger)
            else match ParseElements(EncodeAll(fs) + rest, |fs|)
                 case Done(xs, m) => Done(Array(xs), |Decimal(|fs|)| + 2 + m + 1)
                 case Incomplete => Incomplete
                 case Bad(e) => Bad(e)
  {
    var tail := EncodeAll(fs) + rest;
    var body := Decimal(|fs|) + CRLF + tail;
    ArrayBody(fs, rest);
    LengthReads(|fs|, tail);
    assert body[|Decimal(|fs|)| + 2..] == tail;
    assert ParseFrame(Encode(Array(fs)) + rest) == ParseArray(body);
  }

  lemma {:induction false} RoundTripAll(fs: seq<Frame>, rest: Bytes)
    ensures PrintableAll(fs) ==> ParseElements(EncodeAll(fs) + rest, |fs|) == Done(fs, |EncodeAll(fs)|)
    ensures var all := ParseElements(EncodeAll(fs) + rest, |fs|);
            !PrintableAll(fs) ==> !(all.Done? && all.value == fs)
    decreases fs, 1
  {
    if fs != [] {
      var tail := EncodeAll(fs[1..]) + rest;
      RoundTrip(fs[0], tail);
      RoundTripAll(fs[1..], rest);
      ElementsSplit(fs, rest);
    }
  }

  /** The first element of an encoded list is parsed off its front. */
  lemma ElementsSplit(fs: seq<Frame>, rest: Bytes)
    requires fs != []
    ensures var tail := EncodeAll(fs[1..]) + rest;
            var first := ParseFrame(Encode(fs[0]) + tail);
            var all := ParseElements(EncodeAll(fs) + rest, |fs|);
            var others := ParseElements(tail, |fs| - 1);
            && (first == Done(fs[0], |Encode(fs[0])|) ==>
                  && (others == Done(fs[1..], |EncodeAll(fs[1..])|) ==> all == Done(fs, |EncodeAll(fs)|))
                  && (all.Done? && all.value == fs ==> others.Done? && others.value == fs[1..]))
            && (all.Done? && all.value == fs ==> first.Done? && first.value == fs[0])
  {
    var tail := EncodeAll(fs[1..]) + rest;
    var src := Encode(fs[0]) + tail;
    assert EncodeAll(fs) + rest == src;
    assert src[|Encode(fs[0])|..] == tail;
    var first := ParseFrame(src);
    if first.Done? {
      ConsHead(first.value, first.consumed, ParseElements(src[first.consumed..], |fs| - 1), fs);
    }
  }

  lemma ConsHead<T>(x: T, n: nat, r: Parsed<seq<T>>, xs: seq<T>)
    requires xs != []
    ensures Cons(x, n, r).Done? && Cons(x, n, r).value == xs <==> r.Done? && x == xs[0] && r.value == xs[1..]
  {
    assert xs == [xs[0]] + xs[1..];
  }

  /** Every strict prefix of the encoding of a printable frame asks for more bytes. */
  lemma PrefixIsIncomplete(f: Frame, k: nat)
    requires Printable(f) && k < |Encode(f)|
    ensures ParseFrame(Encode(f)[..k]).Incomplete?
  {
    var s := Encode(f);
    RoundTrip(f, []);
    assert s + [] == s && s[..k] + s[k..] == s;
    if !ParseFrame(s[..k]).Incomplete? {
      FrameStable(s[..k], s[k..]);
    }
  }

  // ---- The loops ----

  ghost predicate Consumes<T>(parse: Bytes -> Parsed<T>) {
    forall s :: parse(s).Done? ==> parse(s).consumed <= |s|
  }

  /** `count` items one after the other, each read by `parse`. */
  function ParseMany<T>(parse: Bytes -> Parsed<T>, src: Bytes, count: nat): (r: Parsed<seq<T>>)
    requires Consumes(parse)
    ensures r.Done? ==> r.consumed <= |src|
    decreases count
  {
    if count == 0 then Done([], 0)
    else match parse(src)
      case Done(x, n) => Cons(x, n, ParseMany(parse, src[n..], count - 1))
      case Incomplete => Incomplete
      case Bad(e) => Bad(e)
  }

  /** The element loops of `parse_array` and `parse_command`. */
  method ParseManyLoop<T>(parse: Bytes -> Parsed<T>, src: Bytes, count: nat) returns (r: Parsed<seq<T>>)
    requires Consumes(parse)
    ensures r == ParseMany(parse, src, count)
  {
    ghost var all := ParseMany(parse, src, count);
    var xs: seq<T> := [];
    var rest, left, offset := src, count, 0;
    PrependNothing(all);
    while left > 0
      invariant 0 <= left && 0 <= offset
      invariant all == Prepend(xs, offset, ParseMany(parse, rest, left))
    {
      var item := parse(rest);
      match item {
        case Done(x, consumed) =>
          PrependStep(xs, offset, x, consumed, ParseMany(parse, rest[consumed..], left - 1));
          xs := xs + [x];
          offset := offset + consumed;
          rest := rest[consumed..];
        case Incomplete => return Incomplete;
        case Bad(e) => return Bad(e);
      }
      left := left - 1;
    }
    assert xs + [] == xs;
    return Done(xs, offset);
  }

  lemma FrameConsumes()
    ensures Consumes(ParseFrame)
  {
  }

  /** `elements` reads one item with `parse` and goes on behind it. */
  ghost predicate UnfoldsAt<T>(elements: (Bytes, nat) -> Parsed<seq<T>>, parse: Bytes -> Parsed<T>, s: Bytes, k: nat)
    requires Consumes(parse)
  {
    elements(s, k) ==
    if k == 0 then Done([], 0)
    else match parse(s)
      case Done(x, n) => Cons(x, n, elements(s[n..], k - 1))
      case Incomplete => Incomplete
      case Bad(e) => Bad(e)
  }

  lemma {:induction false} UnfoldsToMany<T>(
    elements: (Bytes, nat) -> Parsed<seq<T>>, parse: Bytes -> Parsed<T>, src: Bytes, count: nat)
    requires Consumes(parse)
    requires forall s, k {:trigger UnfoldsAt(elements, parse, s, k)} :: UnfoldsAt(elements, parse, s, k)
    ensures elements(src, count) == ParseMany(parse, src, count)
    decreases count
  {
    assert UnfoldsAt(elements, parse, src, count);
    if count > 0 && parse(src).Done? {
      UnfoldsToMany(elements, parse, src[parse(src).consumed..], count - 1);
    }
  }

  lemma ElementsAreMany(src: Bytes, count: nat)
    ensures Consumes(ParseFrame) && ParseElements(src, count) == ParseMany(ParseFrame, src, count)
  {
    FrameConsumes();
    forall s, k
      ensures UnfoldsAt(ParseElements, ParseFrame, s, k)
    {
      ElementsUnfold(s, k);
    }
    UnfoldsToMany(ParseElements, ParseFrame, src, count);
  }

  lemma {:induction false} ElementsUnfold(s: Bytes, k: nat)
    requires Consumes(ParseFrame)
    ensures UnfoldsAt(ParseElements, ParseFrame, s, k)
  {
  }

  /** The loop of `parse_array`. */
  method ParseElementsLoop(src: Bytes, count: nat) returns (r: Parsed<seq<Frame>>)
    ensures r == ParseElements(src, count)
  {
    ElementsAreMany(src, count);
    r := ParseManyLoop(ParseFrame, src, count);
  }

  function Prepend<T>(xs: seq<T>, n: nat, r: Parsed<seq<T>>): Parsed<seq<T>> {
    match r
    case Done(ys, m) => Done(xs + ys, n + m)
    case Incomplete => Incomplete
    case Bad(e) => Bad(e)
  }

  lemma PrependNothing<T>(r: Parsed<seq<T>>)
    ensures Prepend([], 0, r) == r
  {
    if r.Done? {
      assert [] + r.value == r.value;
    }
  }

  lemma PrependStep<T>(xs: seq<T>, n: nat, x: T, m: nat, r: Parsed<seq<T>>)
    ensures Prepend(xs, n, Cons(x, m, r)) == Prepend(xs + [x], n + m, r)
  {
    if r.Done? {
      assert xs + ([x] + r.value) == xs + [x] + r.value;
    }
  }

  /** `encode_integer`. */
  method EncodeInteger(buf: Bytes, n: i64) returns (out: Bytes)
    ensures out == buf + Encode(Integer(n))
  {
    out := WriteInt(buf + [58], n);
    out := out + CRLF;
  }

  /** `encode_bulk_string`. */
  method EncodeBulkString(buf: Bytes, data: Bytes) returns (out: Bytes)
    requires |data| < 0x1_0000_0000_0000_0000
    ensures out == buf + Encode(BulkString(data))
  {
    out := WriteUsize(buf + [36], |data|);
    out := out + CRLF + data + CRLF;
  }

  /** `encode_array_header`. */
  method EncodeArrayHeader(buf: Bytes, count: u64) returns (out: Bytes)
    ensures out == buf + Line(42, Decimal(count))
  {
    out := WriteUsize(buf + [42], count);
    out := out + CRLF;
  }
}
