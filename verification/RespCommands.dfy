/**
 The command parser that works on the raw byte stream without building frames.

 Decoding an argument list or an inline line into a typed command is left as a parameter.
 */
module RespCommands {
  import opened Machine
  import opened RespLines
  import opened RespFrames

  datatype Decoded<+C> = Command(cmd: C) | Invalid(error: RespError)

  /** How argument lists and inline lines become commands. */
  datatype Decoder<!C> = Decoder(fromArgs: seq<Bytes> -> Decoded<C>, fromLine: Bytes -> Decoded<C>)

  /** One argument: a bulk string that is not null, or a simple string. */
  function ParseArg(src: Bytes): (r: Parsed<Bytes>)
    ensures r.Done? ==> 0 < r.consumed <= |src|
  {
    if src == [] then Incomplete
    else if src[0] == 36 then
      match ParseIntLine(src[1..])
      case Done(len, n) =>
        if len < 0 then Bad(InvalidInteger)
        else (match ParsePayload(src[1..][n..], len)
              case Done(data, m) => Done(data, 1 + n + m)
              case Incomplete => Incomplete
              case Bad(e) => Bad(e))
      case Incomplete => Incomplete
      case Bad(e) => Bad(e)
    else if src[0] == 43 then
      match ParseLine(src[1..]) case Done(s, n) => Done(s, 1 + n) case Incomplete => Incomplete case Bad(e) => Bad(e)
    else Bad(InvalidTypeMarker(src[0]))
  }

  lemma ArgConsumes()
    ensures Consumes(ParseArg)
  {
  }

  function ParseArgs(src: Bytes, count: nat): (r: Parsed<seq<Bytes>>)
    ensures r.Done? ==> r.consumed <= |src|
  {
    ArgConsumes();
    ParseMany(ParseArg, src, count)
  }

  function Finish<C>(d: Decoded<C>, consumed: nat): Parsed<C> {
    match d
    case Command(cmd) => Done(cmd, consumed)
    case Invalid(e) => Bad(e)
  }

  /** The multi-bulk form, after the `*`. */
  function ParseMultiBulk<C>(body: Bytes, decoder: Decoder<C>): (r: Parsed<C>)
    ensures r.Done? ==> r.consumed <= |body| + 1
  {
    match ParseIntLine(body)
    case Done(count, n) =>
      if count <= 0 then Bad(EmptyCommand)
      else (match ParseArgs(body[n..], count)
            case Done(args, m) => Finish(decoder.fromArgs(args), 1 + n + m)
            case Incomplete => Incomplete
            case Bad(e) => Bad(e))
    case Incomplete => Incomplete
    case Bad(e) => Bad(e)
  }

  /** `parse_command`. */
  function ParseCommand<C>(src: Bytes, decoder: Decoder<C>): (r: Parsed<C>)
    ensures r.Done? ==> 0 < r.consumed <= |src|
  {
    if src == [] then Incomplete
    else if src[0] == 42 then ParseMultiBulk(src[1..], decoder)
    else match FindCrlf(src)
      case Some(pos) => Finish(decoder.fromLine(src[..pos]), pos + 2)
      case None => Incomplete
  }

  // ---- Stability ----

  lemma ArgStable(src: Bytes, more: Bytes)
    requires !ParseArg(src).Incomplete?
    ensures ParseArg(src + more) == ParseArg(src)
  {
    DropAppend(src, more, 1);
    if src[0] == 36 {
      IntLineStable(src[1..], more);
      var line := ParseIntLine(src[1..]);
      if line.Done? && line.value >= 0 {
        DropAppend(src[1..], more, line.consumed);
        PayloadStable(src[1..][line.consumed..], line.value, more);
      }
    } else if src[0] == 43 {
      LineStable(src[1..], more);
    }
  }

  ghost predicate Stable<T>(parse: Bytes -> Parsed<T>) {
    forall s, more {:trigger parse(s), parse(s + more)} :: !parse(s).Incomplete? ==> parse(s + more) == parse(s)
  }

  lemma {:induction false} ManyStable<T>(parse: Bytes -> Parsed<T>, src: Bytes, count: nat, more: Bytes)
    requires Consumes(parse) && Stable(parse) && !ParseMany(parse, src, count).Incomplete?
    ensures ParseMany(parse, src + more, count) == ParseMany(parse, src, count)
    decreases count
  {
    if count > 0 {
      var first := parse(src);
      assert parse(src + more) == first;
      if first.Done? {
        DropAppend(src, more, first.consumed);
        ManyStable(parse, src[first.consumed..], count - 1, more);
      }
    }
  }

  lemma ArgsStable(src: Bytes, count: nat, more: Bytes)
    requires !ParseArgs(src, count).Incomplete?
    ensures ParseArgs(src + more, count) == ParseArgs(src, count)
  {
    ArgConsumes();
    forall s, m | !ParseArg(s).Incomplete?
      ensures ParseArg(s + m) == ParseArg(s)
    {
      ArgStable(s, m);
    }
    ManyStable(ParseArg, src, count, more);
  }

  lemma MultiBulkStable<C>(body: Bytes, decoder: Decoder<C>, more: Bytes)
    requires !ParseMultiBulk(body, decoder).Incomplete?
    ensures ParseMultiBulk(body + more, decoder) == ParseMultiBulk(body, decoder)
  {
    IntLineStable(body, more);
    var line := ParseIntLine(body);
    if line.Done? && line.value > 0 {
      DropAppend(body, more, line.consumed);
      ArgsStable(body[line.consumed..], line.value, more);
    }
  }

  /** Any answer other than "more bytes needed" is unchanged when bytes are appended. */
  lemma CommandStable<C>(src: Bytes, decoder: Decoder<C>, more: Bytes)
    requires !ParseCommand(src, decoder).Incomplete?
    ensures ParseCommand(src + more, decoder) == ParseCommand(src, decoder)
  {
    if src[0] == 42 {
      DropAppend(src, more, 1);
      MultiBulkStable(src[1..], decoder, more);
    } else {
      FindCrlfStable(src, more);
      assert (src + more)[..FindCrlf(src).value] == src[..FindCrlf(src).value];
    }
  }

  // ---- Agreement with the frame parser ----

  /** The frames carry exactly these arguments, as bulk or simple strings. */
  predicate Carries(fs: seq<Frame>, args: seq<Bytes>) {
    |fs| == |args| && forall i :: 0 <= i < |fs| ==> fs[i] == BulkString(args[i]) || fs[i] == SimpleString(args[i])
  }

  predicate IsText(f: Frame) {
    f.BulkString? || f.SimpleString?
  }

  lemma ArgIsFrame(src: Bytes)
    ensures ParseArg(src).Done? ==>
              || ParseFrame(src) == Done(BulkString(ParseArg(src).value), ParseArg(src).consumed)
              || ParseFrame(src) == Done(SimpleString(ParseArg(src).value), ParseArg(src).consumed)
    ensures ParseFrame(src).Done? && IsText(ParseFrame(src).value) ==> ParseArg(src).Done?
  {
    if src != [] {
      if src[0] == 42 {
        assert ParseFrame(src) == ParseArray(src[1..]);
      } else if src[0] == 36 {
        BulkArgIsFrame(src);
      }
    }
  }

  lemma BulkArgIsFrame(src: Bytes)
    requires src != [] && src[0] == 36
    ensures ParseArg(src).Done? ==> ParseFrame(src) == Done(BulkString(ParseArg(src).value), ParseArg(src).consumed)
    ensures ParseFrame(src).Done? && ParseFrame(src).value.BulkString? ==> ParseArg(src).Done?
    ensures ParseFrame(src).Done? ==> !ParseFrame(src).value.SimpleString?
  {
    var bulk := ParseBulk(src[1..]);
    assert ParseFrame(src).Done? <==> bulk.Done?;
  }

  lemma CarriesCons(f: Frame, fs: seq<Frame>, arg: Bytes, args: seq<Bytes>)
    requires Carries(fs, args) && (f == BulkString(arg) || f == SimpleString(arg))
    ensures Carries([f] + fs, [arg] + args)
  {
  }

  /** Two item parsers that agree item by item agree on lists. */
  lemma {:induction false} ManyAgree(arg: Bytes -> Parsed<Bytes>, frame: Bytes -> Parsed<Frame>, src: Bytes, count: nat)
    requires Consumes(arg) && Consumes(frame) && ParseMany(arg, src, count).Done?
    requires forall s :: arg(s).Done? ==>
                           frame(s) == Done(BulkString(arg(s).value), arg(s).consumed)
                           || frame(s) == Done(SimpleString(arg(s).value), arg(s).consumed)
    ensures ParseMany(frame, src, count).Done?
    ensures ParseMany(frame, src, count).consumed == ParseMany(arg, src, count).consumed
    ensures Carries(ParseMany(frame, src, count).value, ParseMany(arg, src, count).value)
    decreases count
  {
    if count > 0 {
      var a := arg(src);
      var rest := src[a.consumed..];
      ManyAgree(arg, frame, rest, count - 1);
      CarriesCons(frame(src).value, ParseMany(frame, rest, count - 1).value,
                  a.value, ParseMany(arg, rest, count - 1).value);
    }
  }

  /** What the fast parser accepts, the frame parser reads as those strings, with the same bytes consumed. */
  lemma ArgsAreFrames(src: Bytes, count: nat)
    requires ParseArgs(src, count).Done?
    ensures ParseElements(src, count).Done? && ParseElements(src, count).consumed == ParseArgs(src, count).consumed
    ensures Carries(ParseElements(src, count).value, ParseArgs(src, count).value)
  {
    ArgConsumes();
    ElementsAreMany(src, count);
    forall s | ParseArg(s).Done?
      ensures ParseFrame(s) == Done(BulkString(ParseArg(s).value), ParseArg(s).consumed)
              || ParseFrame(s) == Done(SimpleString(ParseArg(s).value), ParseArg(s).consumed)
    {
      ArgIsFrame(s);
    }
    ManyAgree(ParseArg, ParseFrame, src, count);
  }

  lemma {:induction false} ManyTexts(arg: Bytes -> Parsed<Bytes>, frame: Bytes -> Parsed<Frame>, src: Bytes, count: nat)
    requires Consumes(arg) && Consumes(frame) && ParseMany(frame, src, count).Done?
    requires forall i :: 0 <= i < |ParseMany(frame, src, count).value| ==> IsText(ParseMany(frame, src, count).value[i])
    requires forall s :: frame(s).Done? && IsText(frame(s).value) ==>
               arg(s).Done? && arg(s).consumed == frame(s).consumed
    ensures ParseMany(arg, src, count).Done?
    decreases count
  {
    if count > 0 {
      var f := frame(src);
      var rest := ParseMany(frame, src[f.consumed..], count - 1);
      var all := ParseMany(frame, src, count).value;
      assert all == [f.value] + rest.value;
      assert IsText(all[0]);
      assert forall i :: 0 <= i < |rest.value| ==> rest.value[i] == all[i + 1];
      ManyTexts(arg, frame, src[f.consumed..], count - 1);
    }
  }

  /** Arrays of strings are all accepted. */
  lemma TextFramesAreArgs(src: Bytes, count: nat)
    requires ParseElements(src, count).Done?
    requires forall i :: 0 <= i < |ParseElements(src, count).value| ==> IsText(ParseElements(src, count).value[i])
    ensures ParseArgs(src, count).Done?
  {
    ArgConsumes();
    ElementsAreMany(src, count);
    forall s | ParseFrame(s).Done? && IsText(ParseFrame(s).value)
      ensures ParseArg(s).Done? && ParseArg(s).consumed == ParseFrame(s).consumed
    {
      ArgIsFrame(s);
    }
    ManyTexts(ParseArg, ParseFrame, src, count);
  }

  // ---- What reaches the decoder ----

  function Bulks(args: seq<Bytes>): (fs: seq<Frame>)
    ensures |fs| == |args| && forall i :: 0 <= i < |fs| ==> fs[i] == BulkString(args[i])
  {
    seq(|args|, i requires 0 <= i < |args| => BulkString(args[i]))
  }

  lemma {:induction false} BulksPrintable(args: seq<Bytes>)
    requires forall i :: 0 <= i < |args| ==> |args[i]| <= I64_MAX
    ensures PrintableAll(Bulks(args))
  {
    if args != [] {
      BulksPrintable(args[1..]);
      assert Bulks(args)[1..] == Bulks(args[1..]);
    }
  }

  /** The arguments of an array of bulk strings are read back one by one, whatever follows. */
  lemma BulksRead(args: seq<Bytes>, rest: Bytes)
    requires forall i :: 0 <= i < |args| ==> |args[i]| <= I64_MAX
    ensures ParseArgs(EncodeAll(Bulks(args)) + rest, |args|) == Done(args, |EncodeAll(Bulks(args))|)
  {
    var src := EncodeAll(Bulks(args)) + rest;
    BulksPrintable(args);
    RoundTripAll(Bulks(args), rest);
    TextFramesAreArgs(src, |args|);
    ArgsAreFrames(src, |args|);
    assert ParseArgs(src, |args|).value == args;
  }

  /** `*n` and n bulk strings, then anything: the decoder gets exactly these strings, and their bytes are consumed. */
  lemma MultiBulkReads<C>(args: seq<Bytes>, rest: Bytes, decoder: Decoder<C>)
    requires 0 < |args| <= I64_MAX && forall i :: 0 <= i < |args| ==> |args[i]| <= I64_MAX
    ensures var sent := Encode(Array(Bulks(args)));
            ParseCommand(sent + rest, decoder) ==
            match decoder.fromArgs(args) case Command(cmd) => Done(cmd, |sent|) case Invalid(e) => Bad(e)
  {
    var tail := EncodeAll(Bulks(args)) + rest;
    var body := Decimal(|args|) + CRLF + tail;
    assert Encode(Array(Bulks(args))) + rest == [42] + body;
    assert ([42] + body)[1..] == body;
    LengthReads(|args|, tail);
    assert body[|Decimal(|args|)| + 2..] == tail;
    BulksRead(args, rest);
  }

  /** A line of text that does not begin like an array, then anything: the decoder gets exactly the line. */
  lemma LineReadsCommand<C>(line: Bytes, rest: Bytes, decoder: Decoder<C>)
    requires forall p :: 0 <= p < |line| - 1 ==> !(line[p] == 13 && line[p + 1] == 10)
    requires line == [] || line[0] != 42
    ensures ParseCommand(line + CRLF + rest, decoder) ==
            match decoder.fromLine(line) case Command(cmd) => Done(cmd, |line| + 2) case Invalid(e) => Bad(e)
  {
    assert NoCrlf(line);
    FindCrlfLine(line, rest);
    assert (line + CRLF + rest)[..|line|] == line;
  }

  // ---- The loop ----

  /** The argument loop of `parse_command`. */
  method ParseArgsLoop(src: Bytes, count: nat) returns (r: Parsed<seq<Bytes>>)
    ensures r == ParseArgs(src, count)
  {
    ArgConsumes();
    r := ParseManyLoop(ParseArg, src, count);
  }
}
