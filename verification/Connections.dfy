/**
 The read side of a connection: a byte window that is fed in fragments, compacted, grown and reset,
 and the loop that executes every complete command in it.

 What commands act on (tables, pool, write buffer, client state) is one value of an arbitrary type
 `S`, and executing a command is an arbitrary function on it.
 */
module Connections {
  import opened Machine
  import opened RespFrames
  import opened RespCommands

  const READ_BUF_SIZE: nat := 64 * 1024

  datatype Verdict = KeepAlive | Quit | Failed

  /** What became of the connection: still open, closed by QUIT, or dropped on an error. */
  datatype Status = Open | Closed | Broken

  type Executor<!S, !C> = (S, C) -> (S, Verdict)
  type Parser<!C> = Bytes -> Parsed<C>

  // ---- Draining a window, without the buffer ----

  /** The parser's answers consume at least one byte and no more than there are, and are final. */
  ghost predicate Streaming<C>(parse: Parser<C>) {
    && (forall s :: parse(s).Done? ==> 0 < parse(s).consumed <= |s|)
    && Stable(parse)
    && parse([]).Incomplete?
  }

  datatype Drained<S> = Drained(state: S, left: Bytes, status: Status)

  /** Execute the complete commands at the front of `w`, one after the other. */
  ghost function Drain<S, C>(parse: Parser<C>, exec: Executor<S, C>, state: S, w: Bytes): (d: Drained<S>)
    requires Streaming(parse)
    ensures |d.left| <= |w|
    decreases |w|
  {
    match parse(w)
    case Done(cmd, n) =>
      var (state', verdict) := exec(state, cmd);
      (match verdict
       case KeepAlive => Drain(parse, exec, state', w[n..])
       case Quit => Drained(state', w[n..], Closed)
       case Failed => Drained(state', w[n..], Broken))
    case Incomplete => Drained(state, w, Open)
    case Bad(_) => Drained(state, w, Broken)
  }

  /** Bytes that arrive later change nothing about what was already drained. */
  lemma {:induction false} DrainLater<S, C>(parse: Parser<C>, exec: Executor<S, C>, state: S, w: Bytes, more: Bytes)
    requires Streaming(parse)
    ensures var d := Drain(parse, exec, state, w);
            Drain(parse, exec, state, w + more) ==
            if d.status.Open? then Drain(parse, exec, d.state, d.left + more)
            else Drained(d.state, d.left + more, d.status)
    decreases |w|
  {
    var p := parse(w);
    if !p.Incomplete? {
      assert parse(w + more) == p;
      if p.Done? {
        DropAppend(w, more, p.consumed);
        var (state', verdict) := exec(state, p.value);
        if verdict.KeepAlive? {
          DrainLater(parse, exec, state', w[p.consumed..], more);
        }
      }
    }
  }

  /** What is left open holds no complete command. */
  lemma {:induction false} DrainRests<S, C>(parse: Parser<C>, exec: Executor<S, C>, state: S, w: Bytes)
    requires Streaming(parse) && Drain(parse, exec, state, w).status.Open?
    ensures var d := Drain(parse, exec, state, w);
            parse(d.left).Incomplete? && Drain(parse, exec, d.state, d.left) == d
    decreases |w|
  {
    var p := parse(w);
    if p.Done? {
      DrainRests(parse, exec, exec(state, p.value).0, w[p.consumed..]);
    }
  }

  // ---- What draining executes ----

  /** Commands read off a window one after the other: where each begins, and the states before each and at the end. */
  datatype Script<S, C> = Script(cmds: seq<C>, cuts: seq<nat>, states: seq<S>)

  /** Command `i` stands in `w` where the one before ended, and was executed on the state that one left. */
  ghost predicate StepAt<S, C>(parse: Parser<C>, exec: Executor<S, C>, w: Bytes, script: Script<S, C>, i: nat)
    requires i < |script.cmds| && |script.cuts| == |script.states| == |script.cmds| + 1
  {
    && script.cuts[i] < script.cuts[i + 1] <= |w|
    && parse(w[script.cuts[i]..]) == Done(script.cmds[i], script.cuts[i + 1] - script.cuts[i])
    && script.states[i + 1] == exec(script.states[i], script.cmds[i]).0
    && (i < |script.cmds| - 1 ==> exec(script.states[i], script.cmds[i]).1.KeepAlive?)
  }

  /** The commands of the script stand in `w` back to back from its beginning, and all but the last asked to go on. */
  ghost predicate Executes<S, C>(parse: Parser<C>, exec: Executor<S, C>, w: Bytes, script: Script<S, C>) {
    && |script.cuts| == |script.states| == |script.cmds| + 1 && script.cuts[0] == 0
    && (forall i :: 0 <= i < |script.cmds| ==> StepAt(parse, exec, w, script, i))
    && script.cuts[|script.cmds|] <= |w|
  }

  /** Why the script ends where it does: QUIT or an error of the last command, bytes that are no command, or too few. */
  ghost predicate EndsWith<S, C>(
    parse: Parser<C>, exec: Executor<S, C>, w: Bytes, script: Script<S, C>, d: Drained<S>)
    requires Executes(parse, exec, w, script)
  {
    var n := |script.cmds|;
    && d.state == script.states[n] && d.left == w[script.cuts[n]..]
    && if n > 0 && !exec(script.states[n - 1], script.cmds[n - 1]).1.KeepAlive? then
         d.status == if exec(script.states[n - 1], script.cmds[n - 1]).1.Quit? then Closed else Broken
       else
         !parse(d.left).Done? && d.status == if parse(d.left).Incomplete? then Open else Broken
  }

  ghost predicate Executed<S(!new), C(!new)>(
    parse: Parser<C>, exec: Executor<S, C>, state: S, w: Bytes, d: Drained<S>)
  {
    exists script: Script<S, C> ::
      Executes(parse, exec, w, script) && script.states[0] == state && EndsWith(parse, exec, w, script, d)
  }

  /** Draining executes the commands that stand in the window, in order, up to the first that ends the connection. */
  lemma {:induction false} DrainExecutes<S, C>(parse: Parser<C>, exec: Executor<S, C>, state: S, w: Bytes)
    returns (script: Script<S, C>)
    requires Streaming(parse)
    ensures Executes(parse, exec, w, script) && script.states[0] == state
    ensures EndsWith(parse, exec, w, script, Drain(parse, exec, state, w))
    decreases |w|
  {
    var p := parse(w);
    assert w[0..] == w;
    if !p.Done? {
      script := Script([], [0], [state]);
    } else {
      var (after, verdict) := exec(state, p.value);
      if verdict.KeepAlive? {
        var rest := DrainExecutes(parse, exec, after, w[p.consumed..]);
        script := Preceded(state, p.value, p.consumed, rest);
        PrecededExecutes(parse, exec, state, w, rest);
        PrecededEnds(parse, exec, state, w, rest, Drain(parse, exec, after, w[p.consumed..]));
      } else {
        script := Script([p.value], [0, p.consumed], [state, after]);
        assert StepAt(parse, exec, w, script, 0);
      }
    }
  }

  /** The script with one command of `n` bytes in front. */
  ghost function Preceded<S, C>(state: S, cmd: C, n: nat, rest: Script<S, C>): Script<S, C> {
    Script([cmd] + rest.cmds, [0] + seq(|rest.cuts|, i requires 0 <= i < |rest.cuts| => rest.cuts[i] + n),
           [state] + rest.states)
  }

  lemma PrecededExecutes<S, C>(parse: Parser<C>, exec: Executor<S, C>, state: S, w: Bytes, rest: Script<S, C>)
    requires Streaming(parse) && parse(w).Done? && exec(state, parse(w).value).1.KeepAlive?
    requires Executes(parse, exec, w[parse(w).consumed..], rest) && rest.states[0] == exec(state, parse(w).value).0
    ensures Executes(parse, exec, w, Preceded(state, parse(w).value, parse(w).consumed, rest))
  {
    var script := Preceded(state, parse(w).value, parse(w).consumed, rest);
    assert w[0..] == w;
    forall i | 0 <= i < |script.cmds|
      ensures StepAt(parse, exec, w, script, i)
    {
      if i > 0 {
        assert StepAt(parse, exec, w[parse(w).consumed..], rest, i - 1);
        PrecededAt(state, parse(w).value, parse(w).consumed, rest, w, i);
      }
    }
  }

  lemma PrecededAt<S, C>(state: S, cmd: C, n: nat, rest: Script<S, C>, w: Bytes, i: nat)
    requires |rest.cuts| == |rest.states| == |rest.cmds| + 1 && 0 < i <= |rest.cmds| + 1 && n + rest.cuts[i - 1] <= |w|
    ensures var script := Preceded(state, cmd, n, rest);
            script.cuts[i] == rest.cuts[i - 1] + n && w[script.cuts[i]..] == w[n..][rest.cuts[i - 1]..]
  {
  }

  lemma PrecededEnds<S, C>(
    parse: Parser<C>, exec: Executor<S, C>, state: S, w: Bytes, rest: Script<S, C>, d: Drained<S>)
    requires Streaming(parse) && parse(w).Done? && exec(state, parse(w).value).1.KeepAlive?
    requires Executes(parse, exec, w[parse(w).consumed..], rest) && rest.states[0] == exec(state, parse(w).value).0
    requires EndsWith(parse, exec, w[parse(w).consumed..], rest, d)
    requires Executes(parse, exec, w, Preceded(state, parse(w).value, parse(w).consumed, rest))
    ensures EndsWith(parse, exec, w, Preceded(state, parse(w).value, parse(w).consumed, rest), d)
  {
    PrecededAt(state, parse(w).value, parse(w).consumed, rest, w, |rest.cmds| + 1);
  }

  lemma DrainIsExecuted<S(!new), C(!new)>(parse: Parser<C>, exec: Executor<S, C>, state: S, w: Bytes)
    requires Streaming(parse)
    ensures Executed(parse, exec, state, w, Drain(parse, exec, state, w))
  {
    var script := DrainExecutes(parse, exec, state, w);
  }

  /** Whole commands back to back are executed in order, whatever follows them. */
  lemma {:induction false} CommandsThenRest<S, C>(
    parse: Parser<C>, exec: Executor<S, C>, pieces: seq<Bytes>, cmds: seq<C>, states: seq<S>, rest: Bytes)
    requires Streaming(parse) && |pieces| == |cmds| && |states| == |cmds| + 1
    requires forall i :: 0 <= i < |cmds| ==> parse(pieces[i]) == Done(cmds[i], |pieces[i]|)
    requires forall i :: 0 <= i < |cmds| ==> exec(states[i], cmds[i]) == (states[i + 1], KeepAlive)
    ensures Drain(parse, exec, states[0], Concat(pieces) + rest) == Drain(parse, exec, states[|cmds|], rest)
    decreases |cmds|
  {
    if cmds == [] {
      assert Concat(pieces) + rest == rest;
    } else {
      var more := Concat(pieces[1..]) + rest;
      assert Concat(pieces) + rest == pieces[0] + more;
      assert (pieces[0] + more)[|pieces[0]|..] == more;
      assert parse(pieces[0] + more) == parse(pieces[0]);
      CommandsThenRest(parse, exec, pieces[1..], cmds[1..], states[1..], rest);
    }
  }

  /**
   Hence with too few bytes, bytes that are no command, or a command that ends the connection behind them, exactly these
   commands and that one take effect.
   */
  lemma WholeCommands<S, C>(
    parse: Parser<C>, exec: Executor<S, C>, pieces: seq<Bytes>, cmds: seq<C>, states: seq<S>, rest: Bytes)
    requires Streaming(parse) && |pieces| == |cmds| && |states| == |cmds| + 1
    requires forall i :: 0 <= i < |cmds| ==> parse(pieces[i]) == Done(cmds[i], |pieces[i]|)
    requires forall i :: 0 <= i < |cmds| ==> exec(states[i], cmds[i]) == (states[i + 1], KeepAlive)
    ensures parse(rest).Incomplete? ==>
              Drain(parse, exec, states[0], Concat(pieces) + rest) == Drained(states[|cmds|], rest, Open)
    ensures parse(rest).Bad? ==>
              Drain(parse, exec, states[0], Concat(pieces) + rest) == Drained(states[|cmds|], rest, Broken)
    ensures parse(rest).Done? && !exec(states[|cmds|], parse(rest).value).1.KeepAlive? ==>
              var (last, verdict) := exec(states[|cmds|], parse(rest).value);
              Drain(parse, exec, states[0], Concat(pieces) + rest)
              == Drained(last, rest[parse(rest).consumed..], if verdict.Quit? then Closed else Broken)
  {
    CommandsThenRest(parse, exec, pieces, cmds, states, rest);
  }

  /** Drain after every fragment, as the event loop does, until the connection ends. */
  ghost function Serve<S, C>(parse: Parser<C>, exec: Executor<S, C>, d: Drained<S>, fragments: seq<Bytes>): Drained<S>
    requires Streaming(parse)
    decreases |fragments|
  {
    if fragments == [] || !d.status.Open? then d
    else Serve(parse, exec, Drain(parse, exec, d.state, d.left + fragments[0]), fragments[1..])
  }

  /** Same state, same fate and, while open, the same bytes left to parse. */
  ghost predicate SameEnd<S>(a: Drained<S>, b: Drained<S>) {
    a.state == b.state && a.status == b.status && (a.status.Open? ==> a.left == b.left)
  }

  function Concat(fragments: seq<Bytes>): Bytes {
    if fragments == [] then [] else fragments[0] + Concat(fragments[1..])
  }

  /** The state reached and the fate of the connection depend on the bytes received, not on how they were cut. */
  lemma {:induction false} FragmentationIsInvisible<S, C>(
    parse: Parser<C>, exec: Executor<S, C>, state: S, w: Bytes, fragments: seq<Bytes>)
    requires Streaming(parse)
    ensures SameEnd(Serve(parse, exec, Drain(parse, exec, state, w), fragments),
                    Drain(parse, exec, state, w + Concat(fragments)))
    decreases |fragments|
  {
    var d := Drain(parse, exec, state, w);
    DrainLater(parse, exec, state, w, Concat(fragments));
    if fragments == [] {
      assert w + Concat(fragments) == w;
    } else if d.status.Open? {
      FragmentationIsInvisible(parse, exec, d.state, d.left + fragments[0], fragments[1..]);
      ConcatStep(d.left, fragments);
    }
  }

  lemma ConcatStep(left: Bytes, fragments: seq<Bytes>)
    requires fragments != []
    ensures left + fragments[0] + Concat(fragments[1..]) == left + Concat(fragments)
  {
  }

  /** Hence two ways of cutting the same bytes cannot be told apart. */
  lemma SameBytesSameCommands<S, C>(
    parse: Parser<C>, exec: Executor<S, C>, state: S, a: seq<Bytes>, b: seq<Bytes>)
    requires Streaming(parse) && Concat(a) == Concat(b)
    ensures var start := Drained(state, [], Open);
            SameEnd(Serve(parse, exec, start, a), Serve(parse, exec, start, b))
  {
    assert Drain(parse, exec, state, []) == Drained(state, [], Open);
    FragmentationIsInvisible(parse, exec, state, [], a);
    FragmentationIsInvisible(parse, exec, state, [], b);
  }

  /** The command parser is such a parser, whatever the decoder. */
  lemma CommandParserStreams<C>(decoder: Decoder<C>)
    ensures Streaming(s => ParseCommand(s, decoder))
  {
    var parse: Parser<C> := s => ParseCommand(s, decoder);
    forall s, more | !parse(s).Incomplete?
      ensures parse(s + more) == parse(s)
    {
      CommandStable(s, decoder, more);
    }
  }

  // ---- The connection ----

  /** Outcome of one read on the stream. */
  datatype Io = Data(bytes: Bytes) | WouldBlock | Interrupted | Eof | Fatal

  /** What a read takes of what the stream has: some of the data, or nothing. */
  predicate TakenFrom(io: Io, taken: Bytes) {
    if io.Data? then taken != [] && taken <= io.bytes else taken == []
  }

  /** What the event loop does with a connection after such a read. */
  function Ending(io: Io): Status {
    match io
    case Eof => Closed
    case Fatal => Broken
    case _ => Open
  }

  lemma {:induction false} ConcatAppend(pieces: seq<Bytes>, piece: Bytes)
    ensures Concat(pieces + [piece]) == Concat(pieces) + piece
    decreases |pieces|
  {
    if pieces == [] {
      assert Concat([piece]) == piece + Concat([piece][1..]);
    } else {
      ConcatAppend(pieces[1..], piece);
      assert (pieces + [piece])[1..] == pieces[1..] + [piece];
      assert pieces[0] + (Concat(pieces[1..]) + piece) == Concat(pieces) + piece;
    }
  }

  /** Draining one piece more goes on from what was left. */
  lemma DrainOnward<S, C>(
    parse: Parser<C>, exec: Executor<S, C>, state: S, w: Bytes, pieces: seq<Bytes>, piece: Bytes)
    requires Streaming(parse) && Drain(parse, exec, state, w + Concat(pieces)).status.Open?
    ensures var d := Drain(parse, exec, state, w + Concat(pieces));
            Drain(parse, exec, state, w + Concat(pieces + [piece])) == Drain(parse, exec, d.state, d.left + piece)
  {
    DrainLater(parse, exec, state, w + Concat(pieces), piece);
    ConcatAppend(pieces, piece);
    assert w + (Concat(pieces) + piece) == w + Concat(pieces) + piece;
  }

  datatype ReadResult = Read(n: nat) | ConnectionClosed | IoError

  class Connection<!S(!new), !C(!new)> {
    var readBuf: Bytes
    var readPos: nat
    var readLen: nat
    var state: S
    const parse: Parser<C>
    const exec: Executor<S, C>

    ghost predicate Valid()
      reads this
    {
      readPos <= readLen <= |readBuf| && 0 < |readBuf| && Streaming(parse)
    }

    /** The bytes received and not yet consumed. */
    ghost function Window(): Bytes
      reads this
      requires readPos <= readLen <= |readBuf|
    {
      readBuf[readPos..readLen]
    }

    constructor (parse: Parser<C>, exec: Executor<S, C>, state: S)
      requires Streaming(parse)
      ensures Valid() && Window() == [] && this.state == state && this.parse == parse && this.exec == exec
    {
      this.parse, this.exec, this.state := parse, exec, state;
      readBuf, readPos, readLen := seq(READ_BUF_SIZE, i => 0), 0, 0;
    }

    /** Move the window to the front of the buffer. */
    method Compact()
      requires Valid()
      modifies `readBuf, `readPos, `readLen
      ensures Valid() && Window() == old(Window()) && readPos == 0 && |readBuf| == |old(readBuf)|
    {
      readBuf := readBuf[readPos..readLen] + readBuf[readLen - readPos..];
      readLen := readLen - readPos;
      readPos := 0;
    }

    /** `feed_bytes`: compact past the halfway mark, grow to the next power of two, append. */
    method FeedBytes(data: Bytes)
      requires Valid()
      modifies `readBuf, `readPos, `readLen
      ensures Valid() && Window() == old(Window()) + data
    {
      if readPos > 0 {
        if readPos == readLen {
          readPos, readLen := 0, 0;
        } else if readPos >= |readBuf| / 2 {
          Compact();
        }
      }
      var needed := readLen + |data|;
      if needed > |readBuf| {
        Grow(NextPowerOfTwo(needed));
      }
      Append(data);
    }

    /** Lengthen the buffer with zeroes. */
    method Grow(size: nat)
      requires Valid() && |readBuf| <= size
      modifies `readBuf
      ensures Valid() && Window() == old(Window()) && |readBuf| == size
    {
      readBuf := readBuf + seq(size - |readBuf|, i => 0);
    }

    /** Copy `data` behind the window. */
    method Append(data: Bytes)
      requires Valid() && readLen + |data| <= |readBuf|
      modifies `readBuf, `readLen
      ensures Valid() && Window() == old(Window()) + data
    {
      readBuf := readBuf[..readLen] + data + readBuf[readLen + |data|..];
      readLen := readLen + |data|;
    }

    /** `read_from`: compact, double a full buffer, and append as many bytes as there is room for. */
    method ReadFrom(io: Io) returns (r: ReadResult)
      requires Valid()
      requires io.Data? ==> io.bytes != []
      modifies `readBuf, `readPos, `readLen
      ensures Valid()
      ensures io.Eof? ==> r == ConnectionClosed
      ensures io.Fatal? ==> r == IoError
      ensures io.WouldBlock? || io.Interrupted? ==> r == Read(0)
      ensures io.Data? ==> r.Read? && 0 < r.n <= |io.bytes| && Window() == old(Window()) + io.bytes[..r.n]
      ensures !io.Data? ==> Window() == old(Window())
    {
      if readPos > 0 {
        if readPos == readLen {
          readPos, readLen := 0, 0;
        } else {
          Compact();
        }
      }
      if readLen == |readBuf| {
        Grow(2 * |readBuf|);
      }
      match io {
        case Data(bytes) =>
          var room := |readBuf| - readLen;
          var n := if |bytes| < room then |bytes| else room;
          Append(bytes[..n]);
          return Read(n);
        case WouldBlock => return Read(0);
        case Interrupted => return Read(0);
        case Eof => return ConnectionClosed;
        case Fatal => return IoError;
      }
    }

    /** `process_incoming_with_wheel`: drain the window. */
    method ProcessIncoming() returns (status: Status)
      requires Valid()
      modifies `state, `readPos, `readLen
      ensures Valid()
      ensures Drained(state, Window(), status) == Drain(parse, exec, old(state), old(Window()))
      ensures Executed(parse, exec, old(state), old(Window()), Drained(state, Window(), status))
    {
      DrainIsExecuted(parse, exec, state, Window());
      status := DrainWindow();
    }

    /** Its loop. */
    method DrainWindow() returns (status: Status)
      requires Valid()
      modifies `state, `readPos, `readLen
      ensures Valid()
      ensures Drained(state, Window(), status) == Drain(parse, exec, old(state), old(Window()))
    {
      ghost var goal := Drain(parse, exec, state, Window());
      while true
        invariant Valid() && readLen == old(readLen) && readBuf == old(readBuf)
        invariant Drain(parse, exec, state, Window()) == goal
        decreases readLen - readPos
      {
        var slice := readBuf[readPos..readLen];
        if slice == [] {
          break;
        }
        var parsed := parse(slice);
        match parsed {
          case Done(cmd, consumed) =>
            assert slice[consumed..] == readBuf[readPos + consumed..readLen];
            readPos := readPos + consumed;
            var (after, verdict) := exec(state, cmd);
            state := after;
            if verdict.Quit? { return Closed; }
            if verdict.Failed? { return Broken; }
          case Incomplete => break;
          case Bad(_) => return Broken;
        }
      }
      if readPos == readLen {
        readPos, readLen := 0, 0;
      }
      status := Open;
    }

    /** Fed in any fragments, the connection ends up where one fragment holding all the bytes would have left it. */
    method ServeFragments(fragments: seq<Bytes>) returns (status: Status)
      requires Valid() && Drain(parse, exec, state, Window()) == Drained(state, Window(), Open)
      modifies this
      ensures Valid()
      ensures SameEnd(Drained(state, Window(), status),
                      Drain(parse, exec, old(state), old(Window()) + Concat(fragments)))
      ensures exists left :: Executed(parse, exec, old(state), old(Window()) + Concat(fragments),
                                      Drained(state, left, status)) && (status.Open? ==> left == Window())
    {
      DrainIsExecuted(parse, exec, state, Window() + Concat(fragments));
      ghost var start := Drained(state, Window(), Open);
      ghost var goal := Serve(parse, exec, start, fragments);
      FragmentationIsInvisible(parse, exec, state, Window(), fragments);
      status := Open;
      var i := 0;
      assert fragments[0..] == fragments;
      while i < |fragments| && status.Open?
        invariant 0 <= i <= |fragments| && Valid()
        invariant Serve(parse, exec, Drained(state, Window(), status), fragments[i..]) == goal
      {
        FeedBytes(fragments[i]);
        status := ProcessIncoming();
        assert fragments[i..][1..] == fragments[i + 1..];
        i := i + 1;
      }
    }

    /** One readable event of the event loop: read, and drain what is there. */
    method HandleReadable(io: Io) returns (status: Status, ghost served: Status, ghost taken: Bytes)
      requires Valid() && Drain(parse, exec, state, Window()) == Drained(state, Window(), Open)
      requires io.Data? ==> io.bytes != []
      modifies this
      ensures Valid() && TakenFrom(io, taken)
      ensures Drained(state, Window(), served) == Drain(parse, exec, old(state), old(Window()) + taken)
      ensures status == if served.Open? then Ending(io) else served
    {
      ghost var w := Window();
      var r := ReadFrom(io);
      served, taken := Open, if r.Read? && io.Data? then io.bytes[..r.n] else [];
      assert w + [] == w;
      match r {
        case ConnectionClosed => status := Closed;
        case IoError => status := Broken;
        case Read(_) =>
          status := Open;
          if readPos < readLen {
            status := ProcessIncoming();
            served := status;
          }
      }
    }

    /**
     Whatever a socket delivers in whatever pieces, the connection ends up where one read of all the bytes taken from
     it would have left it, which is where executing the commands in them leads; the end of the stream and errors
     close it.
     */
    method ServeReads(events: seq<Io>) returns (status: Status, ghost served: Status, ghost taken: seq<Bytes>)
      requires Valid() && Drain(parse, exec, state, Window()) == Drained(state, Window(), Open)
      requires forall i :: 0 <= i < |events| && events[i].Data? ==> events[i].bytes != []
      modifies this
      ensures Valid() && |taken| <= |events|
      ensures forall i :: 0 <= i < |taken| ==>
                if events[i].Data? then taken[i] != [] && taken[i] <= events[i].bytes else taken[i] == []
      ensures SameEnd(Drained(state, Window(), served),
                      Drain(parse, exec, old(state), old(Window()) + Concat(taken)))
      ensures exists left :: Executed(parse, exec, old(state), old(Window()) + Concat(taken),
                                      Drained(state, left, served)) && (served.Open? ==> left == Window())
      ensures status == if served.Open? && taken != [] && events[|taken| - 1].Eof? then Closed
                        else if served.Open? && taken != [] && events[|taken| - 1].Fatal? then Broken
                        else served
      ensures |taken| < |events| ==> !status.Open?
    {
      ghost var w0, s0 := Window(), state;
      status, served, taken := ReadAll(events);
      DrainIsExecuted(parse, exec, s0, w0 + Concat(taken));
    }

    method ReadAll(events: seq<Io>) returns (status: Status, ghost served: Status, ghost taken: seq<Bytes>)
      requires Valid() && Drain(parse, exec, state, Window()) == Drained(state, Window(), Open)
      requires forall i :: 0 <= i < |events| && events[i].Data? ==> events[i].bytes != []
      modifies this
      ensures Valid() && |taken| <= |events| && forall i :: 0 <= i < |taken| ==> TakenFrom(events[i], taken[i])
      ensures Drained(state, Window(), served) == Drain(parse, exec, old(state), old(Window()) + Concat(taken))
      ensures status == if served.Open? && taken != [] then Ending(events[|taken| - 1]) else served
      ensures |taken| < |events| ==> !status.Open?
    {
      ghost var w0 := Window();
      status, served, taken := Open, Open, [];
      assert w0 + Concat([]) == w0;
      var i := 0;
      while i < |events| && status.Open?
        invariant 0 <= i == |taken| <= |events| && Valid()
        invariant forall k :: 0 <= k < |taken| ==> TakenFrom(events[k], taken[k])
        invariant Drained(state, Window(), served) == Drain(parse, exec, old(state), w0 + Concat(taken))
        invariant status == if served.Open? && taken != [] then Ending(events[|taken| - 1]) else served
      {
        ghost var piece: Bytes;
        DrainRests(parse, exec, old(state), w0 + Concat(taken));
        status, served, piece := HandleReadable(events[i]);
        DrainOnward(parse, exec, old(state), w0, taken, piece);
        taken := taken + [piece];
        i := i + 1;
      }
    }
  }
}
