/** Buffered byte streams (kap-core/src/stream.rs). The operating system is a source that
    hands over between 1 and 1024 of its bytes at a time, as it likes, and may fail. Lines
    are kept as bytes. */
module Streams {
  import opened Common
  import opened Lines

  const NL: byte := 10

  type Line = seq<byte>

  // ---------------------------------------------------------------- what reading means

  datatype Op = ReadByte | ReadLine | ReadAllLines | ReadBytes(limit: Option<nat>)

  datatype Output =
    | OneByte(b: Option<byte>)
    | OneLine(l: Option<Line>)
    | ManyLines(ls: seq<Line>)
    | Block(bs: seq<byte>)

  function LineEnd(rem: seq<byte>): (k: nat)
    ensures k <= |rem| && NL !in rem[..k]
    ensures k < |rem| ==> rem[k] == NL
  {
    if rem == [] || rem[0] == NL then 0
    else
      var k := LineEnd(rem[1..]);
      assert rem[..k + 1] == [rem[0]] + rem[1..][..k];
      k + 1
  }

  function AfterLine(rem: seq<byte>): seq<byte> {
    if LineEnd(rem) < |rem| then rem[LineEnd(rem) + 1..] else []
  }

  function Limited(rem: seq<byte>, limit: Option<nat>): nat {
    if limit.Some? && limit.value < |rem| then limit.value else |rem|
  }

  /** One operation on the bytes still to come: its output and the bytes left. */
  function Perform(op: Op, rem: seq<byte>): (Output, seq<byte>) {
    match op
    case ReadByte => if rem == [] then (OneByte(None), []) else (OneByte(Some(rem[0])), rem[1..])
    case ReadLine => if rem == [] then (OneLine(None), []) else (OneLine(Some(rem[..LineEnd(rem)])), AfterLine(rem))
    case ReadAllLines => (ManyLines(LinesOf(rem, NL)), [])
    case ReadBytes(limit) => (Block(rem[..Limited(rem, limit)]), rem[Limited(rem, limit)..])
  }

  function PerformAll(ops: seq<Op>, rem: seq<byte>): (seq<Output>, seq<byte>)
    decreases |ops|
  {
    if ops == [] then ([], rem)
    else
      var (out, rest) := Perform(ops[0], rem);
      var (outs, end) := PerformAll(ops[1..], rest);
      ([out] + outs, end)
  }

  function Terminate(ls: seq<Line>): seq<byte> {
    if ls == [] then [] else ls[0] + [NL] + Terminate(ls[1..])
  }

  /** The bytes an output stands for, every line counted with its newline. */
  function Content(out: Output): seq<byte> {
    match out
    case OneByte(b) => if b.Some? then [b.value] else []
    case OneLine(l) => if l.Some? then l.value + [NL] else []
    case ManyLines(ls) => Terminate(ls)
    case Block(bs) => bs
  }

  function Contents(outs: seq<Output>): seq<byte> {
    if outs == [] then [] else Content(outs[0]) + Contents(outs[1..])
  }

  /** `taken` and `rest` are `rem` cut in two, but for a newline missing at the very end. */
  predicate Covers(taken: seq<byte>, rest: seq<byte>, rem: seq<byte>) {
    taken + rest == rem || (rest == [] && taken == rem + [NL])
  }

  lemma CutLine(rem: seq<byte>)
    requires rem != []
    ensures Covers(rem[..LineEnd(rem)] + [NL], AfterLine(rem), rem)
    ensures LinesOf(rem, NL) == [rem[..LineEnd(rem)]] + LinesOf(AfterLine(rem), NL)
    ensures |AfterLine(rem)| < |rem|
  {
    hide LineEnd, LinesOf;
    var k := LineEnd(rem);
    if k < |rem| {
      assert rem == rem[..k] + [NL] + rem[k + 1..];
      LinesAfter(rem[..k], NL, rem[k + 1..]);
    } else {
      assert rem[..k] == rem;
      LinesLast(rem, NL);
      LinesLast([], NL);
    }
  }

  lemma {:induction false} TerminateLines(rem: seq<byte>)
    ensures Covers(Terminate(LinesOf(rem, NL)), [], rem)
    decreases |rem|
  {
    hide LinesOf, LineEnd, AfterLine;
    if rem == [] {
      LinesLast(rem, NL);
    } else {
      CutLine(rem);
      TerminateLines(AfterLine(rem));
      var ls := LinesOf(rem, NL);
      assert ls[1..] == LinesOf(AfterLine(rem), NL);
      LinesLast([], NL);
      JoinCovers(ls[0] + [NL], Terminate(ls[1..]), AfterLine(rem), [], rem);
    }
  }

  lemma JoinCovers(first: seq<byte>, second: seq<byte>, mid: seq<byte>, rest: seq<byte>, rem: seq<byte>)
    requires Covers(first, mid, rem) && Covers(second, rest, mid)
    requires mid == [] ==> second == []
    ensures Covers(first + second, rest, rem)
  {
    if mid == [] {
      assert first + second == first;
    } else {
      assert first + second + rest == first + (second + rest);
      assert first + (mid + [NL]) == first + mid + [NL];
    }
  }

  /** Each operation outputs exactly the bytes it consumes. */
  lemma PerformCovers(op: Op, rem: seq<byte>)
    ensures Covers(Content(Perform(op, rem).0), Perform(op, rem).1, rem)
    ensures rem == [] ==> Content(Perform(op, rem).0) == [] && Perform(op, rem).1 == []
  {
    hide LinesOf, LineEnd, AfterLine;
    match op
    case ReadByte =>
      if rem != [] { assert [rem[0]] + rem[1..] == rem; }
    case ReadLine =>
      if rem != [] { CutLine(rem); }
    case ReadAllLines =>
      TerminateLines(rem);
      LinesLast([], NL);
    case ReadBytes(limit) =>
      assert rem[..Limited(rem, limit)] + rem[Limited(rem, limit)..] == rem;
  }

  lemma {:induction false} NothingFromNothing(ops: seq<Op>)
    ensures Contents(PerformAll(ops, []).0) == [] && PerformAll(ops, []).1 == []
  {
    hide Perform, Content;
    if ops == [] {
    } else {
      PerformCovers(ops[0], []);
      NothingFromNothing(ops[1..]);
      var outs := PerformAll(ops, []).0;
      assert outs[1..] == PerformAll(ops[1..], []).0;
    }
  }

  /** Any interleaving of reads yields consecutive slices: nothing is lost and nothing repeated. */
  lemma {:induction false} RunCovers(ops: seq<Op>, rem: seq<byte>)
    ensures Covers(Contents(PerformAll(ops, rem).0), PerformAll(ops, rem).1, rem)
    decreases |ops|
  {
    hide Perform, Content;
    if ops == [] {
      assert [] + rem == rem;
    } else {
      var (out, mid) := Perform(ops[0], rem);
      var (outs, rest) := PerformAll(ops[1..], mid);
      PerformCovers(ops[0], rem);
      RunCovers(ops[1..], mid);
      NothingFromNothing(ops[1..]);
      assert ([out] + outs)[1..] == outs;
      JoinCovers(Content(out), Contents(outs), mid, rest, rem);
    }
  }

  lemma LineEndAt(rem: seq<byte>, k: nat)
    requires k <= |rem| && NL !in rem[..k] && (k < |rem| ==> rem[k] == NL)
    ensures LineEnd(rem) == k
  {
    var e := LineEnd(rem);
    assert forall j :: 0 <= j < k ==> rem[..k][j] == rem[j];
    assert forall j :: 0 <= j < e ==> rem[..e][j] == rem[j];
  }

  /** How much each operation takes, 10 being the newline: one byte; up to a newline and that too;
      everything; as many bytes as asked for. At the end there is nothing to take. */
  lemma PerformTakes(op: Op, rem: seq<byte>)
    ensures var (out, rest) := Perform(op, rem);
            match op
            case ReadByte =>
              if rem == [] then out == OneByte(None) && rest == []
              else out.OneByte? && out.b.Some? && rem == [out.b.value] + rest
            case ReadLine =>
              if rem == [] then out == OneLine(None) && rest == []
              else
                && out.OneLine? && out.l.Some? && 10 !in out.l.value
                && (rem == out.l.value + [10] + rest || (rem == out.l.value && rest == []))
            case ReadAllLines => out.ManyLines? && rest == []
            case ReadBytes(limit) =>
              && out.Block? && rem == out.bs + rest
              && (limit.None? ==> rest == [])
              && (limit.Some? ==> |out.bs| == if limit.value < |rem| then limit.value else |rem|)
  {
    hide LinesOf, LineEnd;
    match op
    case ReadByte =>
      if rem != [] { assert [rem[0]] + rem[1..] == rem; }
    case ReadLine =>
      var k := LineEnd(rem);
      if k < |rem| {
        assert rem == rem[..k] + [NL] + rem[k + 1..];
      } else {
        assert rem[..k] == rem;
      }
    case ReadAllLines =>
    case ReadBytes(limit) =>
      assert rem[..Limited(rem, limit)] + rem[Limited(rem, limit)..] == rem;
  }

  /** `rem` is what has been taken, then what is left. */
  predicate Parts(rem: seq<byte>, taken: seq<byte>, rest: seq<byte>) { rem == taken + rest }

  lemma NothingTaken(rem: seq<byte>)
    ensures Parts(rem, [], rem)
  {
  }

  lemma MoveByte(rem: seq<byte>, taken: seq<byte>, b: byte, before: seq<byte>, rest: seq<byte>)
    requires Parts(rem, taken, before) && before == [b] + rest
    ensures Parts(rem, taken + [b], rest)
  {
  }

  lemma ByteOutcome(rem: seq<byte>, b: Option<byte>, rest: seq<byte>)
    requires Perform(ReadByte, rem) == (OneByte(b), rest)
    ensures if b == None then rem == [] && rest == [] else rem == [b.value] + rest
  {
  }

  lemma LineBreaks(rem: seq<byte>, line: Line, rest: seq<byte>)
    requires NL !in line && Parts(rem, line + [NL], rest)
    ensures Perform(ReadLine, rem) == (OneLine(Some(line)), rest)
  {
    assert rem[..|line|] == line && rem[|line| + 1..] == rest;
    LineEndAt(rem, |line|);
  }

  lemma LineEnds(rem: seq<byte>, line: Line)
    requires NL !in line && Parts(rem, line, [])
    ensures Perform(ReadLine, rem) == (OneLine(if line == [] then None else Some(line)), [])
  {
    assert rem == line && rem[..|rem|] == rem;
    LineEndAt(rem, |rem|);
  }

  lemma LineOutcome(rem: seq<byte>, line: Option<Line>, rest: seq<byte>)
    requires Perform(ReadLine, rem) == (OneLine(line), rest)
    ensures if line == None then rem == [] && rest == [] && LinesOf(rem, NL) == []
            else |rest| < |rem| && LinesOf(rem, NL) == [line.value] + LinesOf(rest, NL)
  {
    LinesLast([], NL);
    if rem != [] {
      CutLine(rem);
    }
  }

  lemma BlockFull(rem: seq<byte>, out: seq<byte>, rest: seq<byte>, limit: Option<nat>)
    requires Parts(rem, out, rest)
    requires (limit.Some? && |out| == limit.value) || (rest == [] && (limit.Some? ==> |out| <= limit.value))
    ensures Perform(ReadBytes(limit), rem) == (Block(out), rest)
  {
    assert Limited(rem, limit) == |out|;
    assert rem[..|out|] == out && rem[|out|..] == rest;
  }

  lemma AllOutcome(rem: seq<byte>, ls: seq<Line>)
    requires ls == LinesOf(rem, NL)
    ensures Perform(ReadAllLines, rem) == (ManyLines(ls), [])
  {
  }

  /** What is left is the end of what there was: nothing is reordered or made up. */
  predicate IsEndOf(rest: seq<byte>, rem: seq<byte>) {
    |rest| <= |rem| && rem[|rem| - |rest|..] == rest
  }

  function Lost(rem: seq<byte>, rest: seq<byte>): seq<byte>
    requires IsEndOf(rest, rem)
  {
    rem[..|rem| - |rest|]
  }

  lemma EndOfSplit(taken: seq<byte>, rest: seq<byte>, rem: seq<byte>)
    requires Parts(rem, taken, rest)
    ensures IsEndOf(rest, rem) && Lost(rem, rest) == taken
  {
  }

  lemma EndOfSame(rem: seq<byte>)
    ensures IsEndOf(rem, rem)
  {
  }

  lemma EndOfEnd(a: seq<byte>, b: seq<byte>, c: seq<byte>)
    requires IsEndOf(a, b) && IsEndOf(b, c)
    ensures IsEndOf(a, c)
  {
    assert c[|c| - |b|..][|b| - |a|..] == c[|c| - |a|..];
  }

  /** Every operation leaves an end of the bytes it started from. */
  lemma PerformLeavesEnd(op: Op, rem: seq<byte>)
    ensures IsEndOf(Perform(op, rem).1, rem)
  {
    hide LinesOf, LineEnd;
  }

  // ---------------------------------------------------------------- the buffered stream

  datatype Reader = NoReader | Memory(data: seq<byte>, pos: nat) | Blocks

  class Stream {
    var reader: Reader
    var source: seq<byte>     // what the operating system has not handed over yet
    var failures: nat         // how many of its reads have failed
    var pending: seq<byte>
    var pendingPos: nat
    var closed: bool

    ghost predicate Valid()
      reads this
    {
      && pendingPos <= |pending|
      && (reader.Memory? ==> reader.pos <= |reader.data|)
    }

    /** The bytes still to come. */
    ghost function Remaining(): seq<byte>
      requires Valid()
      reads this
    {
      match reader
      case NoReader => []
      case Memory(data, pos) => data[pos..]
      case Blocks => pending[pendingPos..] + source
    }

    predicate Readable()
      reads this
    {
      !closed && !reader.NoReader?
    }

    constructor Input(reader: Reader, source: seq<byte>)
      requires reader.Memory? ==> reader.pos <= |reader.data|
      ensures Valid() && Readable() == !reader.NoReader?
      ensures Remaining() ==
              match reader
              case NoReader => []
              case Memory(data, pos) => data[pos..]
              case Blocks => source
    {
      this.reader, this.source := reader, source;
      failures, pending, pendingPos, closed := 0, [], 0, false;
      new;
      assert [][0..] + source == source;
    }

    /** One read of up to 1024 bytes: an empty result means the source has ended. */
    method ReadSource() returns (r: Result<seq<byte>>)
      modifies this`source, this`failures
      ensures r.Ok? ==> r.value + source == old(source) && |r.value| <= 1024 && (r.value == [] <==> old(source) == [])
      ensures r.Ok? ==> failures == old(failures)
      ensures r.Err? ==> source == old(source) && failures == old(failures) + 1
    {
      var fails: bool :| true;
      if fails {
        failures := failures + 1;
        return Err;
      }
      assert (if source == [] then 0 else 1) <= |source|;
      var n: nat :| n <= |source| && n <= 1024 && (n == 0 <==> source == []);
      r := Ok(source[..n]);
      source := source[n..];
    }

    method FillPending() returns (r: Result<bool>)
      requires Valid() && reader.Blocks?
      modifies this
      ensures Valid() && reader == old(reader) && closed == old(closed)
      ensures Remaining() == old(Remaining())
      ensures r.Ok? ==> failures == old(failures) && r.value == (pendingPos < |pending|) == (Remaining() != [])
      ensures r.Err? ==> failures == old(failures) + 1
    {
      if pendingPos < |pending| {
        return Ok(true);
      }
      var block := ReadSource();
      if block.Err? {
        return Err;
      }
      if block.value == [] {
        return Ok(false);
      }
      pending := block.value;
      pendingPos := 0;
      return Ok(true);
    }

    method Byte() returns (r: Result<Option<byte>>)
      requires Valid()
      modifies this
      ensures Valid() && closed == old(closed) && Readable() == old(Readable())
      ensures r.Ok? ==> failures == old(failures) && old(Readable())
                        && Perform(ReadByte, old(Remaining())) == (OneByte(r.value), Remaining())
      ensures r.Err? ==> Remaining() == old(Remaining()) && (old(Readable()) ==> failures > old(failures))
    {
      if closed {
        return Err;
      }
      if reader.Memory? {
        if reader.pos < |reader.data| {
          var b := reader.data[reader.pos];
          reader := reader.(pos := reader.pos + 1);
          return Ok(Some(b));
        }
        return Ok(None);
      }
      if reader.NoReader? {
        return Err;
      }
      var filled := FillPending();
      if filled.Err? {
        return Err;
      }
      if !filled.value {
        return Ok(None);
      }
      var b := pending[pendingPos];
      ghost var rem := Remaining();
      pendingPos := pendingPos + 1;
      assert rem == [b] + Remaining();
      assert rem[1..] == Remaining();
      return Ok(Some(b));
    }

    /** A line without its newline. On a failure the bytes collected so far are gone. */
    method NextLine() returns (r: Result<Option<Line>>)
      requires Valid()
      modifies this
      ensures Valid() && closed == old(closed) && Readable() == old(Readable())
      ensures r.Ok? ==> failures == old(failures) && old(Readable())
                        && Perform(ReadLine, old(Remaining())) == (OneLine(r.value), Remaining())
      ensures r.Err? ==> (old(Readable()) ==> failures > old(failures)) && IsEndOf(Remaining(), old(Remaining()))
                         && NL !in Lost(old(Remaining()), Remaining())
    {
      hide Perform, LineEnd, AfterLine, Remaining, Parts, IsEndOf, Lost;
      var collected: seq<byte> := [];
      ghost var rem := Remaining();
      NothingTaken(rem);
      while true
        invariant Valid() && closed == old(closed) && Readable() == old(Readable()) && failures == old(failures)
        invariant rem == old(Remaining()) && Parts(rem, collected, Remaining()) && NL !in collected
        decreases |Remaining()|
      {
        ghost var before := Remaining();
        var next := Byte();
        if next.Err? {
          EndOfSplit(collected, Remaining(), rem);
          return Err;
        }
        ByteOutcome(before, next.value, Remaining());
        if next.value == None {
          LineEnds(rem, collected);
          if collected == [] {
            return Ok(None);
          }
          return Ok(Some(collected));
        }
        if next.value.value == NL {
          MoveByte(rem, collected, NL, before, Remaining());
          LineBreaks(rem, collected, Remaining());
          return Ok(Some(collected));
        }
        MoveByte(rem, collected, next.value.value, before, Remaining());
        collected := collected + [next.value.value];
      }
    }

    /** Every remaining line: empty ones are kept, and so is a non-empty unterminated tail. */
    method AllLines() returns (r: Result<seq<Line>>)
      requires Valid()
      modifies this
      ensures Valid() && closed == old(closed) && Readable() == old(Readable())
      ensures r.Ok? ==> failures == old(failures) && old(Readable())
                        && Perform(ReadAllLines, old(Remaining())) == (ManyLines(r.value), Remaining())
      ensures r.Err? ==> (old(Readable()) ==> failures > old(failures)) && IsEndOf(Remaining(), old(Remaining()))
    {
      hide LinesOf, Perform, LineEnd, AfterLine, Remaining, IsEndOf, Lost;
      var out: seq<Line> := [];
      ghost var all := LinesOf(Remaining(), NL);
      assert out + all == all;
      EndOfSame(Remaining());
      while true
        invariant Valid() && closed == old(closed) && Readable() == old(Readable()) && failures == old(failures)
        invariant all == LinesOf(old(Remaining()), NL) && IsEndOf(Remaining(), old(Remaining()))
        invariant all == out + LinesOf(Remaining(), NL)
        decreases |Remaining()|
      {
        ghost var before := Remaining();
        var next := NextLine();
        if next.Ok? { PerformLeavesEnd(ReadLine, before); }
        EndOfEnd(Remaining(), before, old(Remaining()));
        if next.Err? {
          return Err;
        }
        LineOutcome(before, next.value, Remaining());
        if next.value == None {
          assert out + [] == out;
          AllOutcome(old(Remaining()), out);
          return Ok(out);
        }
        ghost var later := LinesOf(Remaining(), NL);
        assert out + ([next.value.value] + later) == out + [next.value.value] + later;
        out := out + [next.value.value];
      }
    }

    method Bytes(limit: Option<nat>) returns (r: Result<seq<byte>>)
      requires Valid()
      modifies this
      ensures Valid() && closed == old(closed) && Readable() == old(Readable())
      ensures r.Ok? ==> failures == old(failures) && (old(Readable()) || limit == Some(0))
                        && Perform(ReadBytes(limit), old(Remaining())) == (Block(r.value), Remaining())
      ensures r.Err? ==> (old(Readable()) ==> failures > old(failures)) && IsEndOf(Remaining(), old(Remaining()))
    {
      hide *;
      var out: seq<byte> := [];
      ghost var rem := Remaining();
      NothingTaken(rem);
      while true
        invariant Valid() && closed == old(closed) && Readable() == old(Readable()) && failures == old(failures)
        invariant rem == old(Remaining()) && Parts(rem, out, Remaining())
        invariant limit.Some? ==> |out| <= limit.value
        invariant out != [] ==> old(Readable())
        decreases |Remaining()|
      {
        if limit.Some? && |out| >= limit.value {
          break;
        }
        ghost var before := Remaining();
        var next := Byte();
        if next.Err? {
          EndOfSplit(out, Remaining(), rem);
          return Err;
        }
        ByteOutcome(before, next.value, Remaining());
        if next.value == None {
          break;
        }
        MoveByte(rem, out, next.value.value, before, Remaining());
        out := out + [next.value.value];
      }
      BlockFull(rem, out, Remaining(), limit);
      return Ok(out);
    }

    method Close()
      modifies this
      ensures Valid() && closed && !Readable() && Remaining() == []
    {
      closed, reader, pending, pendingPos := true, NoReader, [], 0;
    }

    method RunOne(op: Op) returns (r: Result<Output>)
      requires Valid() && Readable()
      modifies this
      ensures Valid() && Readable()
      ensures r.Ok? ==> failures == old(failures) && Perform(op, old(Remaining())) == (r.value, Remaining())
      ensures r.Err? ==> failures > old(failures) && IsEndOf(Remaining(), old(Remaining()))
    {
      hide Perform, Remaining;
      EndOfSame(Remaining());
      match op
      case ReadByte =>
        var x :- Byte();
        return Ok(OneByte(x));
      case ReadLine =>
        var x :- NextLine();
        return Ok(OneLine(x));
      case ReadAllLines =>
        var x :- AllLines();
        return Ok(ManyLines(x));
      case ReadBytes(limit) =>
        var x :- Bytes(limit);
        return Ok(Block(x));
    }

    /** Any mix of reads, for any blocks the source chooses: outputs depend on the bytes alone. */
    method Run(ops: seq<Op>) returns (r: Result<seq<Output>>)
      requires Valid() && Readable()
      modifies this
      ensures Valid() && Readable()
      ensures r.Ok? ==> PerformAll(ops, old(Remaining())) == (r.value, Remaining())
      ensures r.Err? ==> failures > old(failures) && IsEndOf(Remaining(), old(Remaining()))
    {
      hide Perform, Remaining, IsEndOf;
      var outs: seq<Output> := [];
      ghost var all := PerformAll(ops, Remaining());
      assert ops[0..] == ops && outs + all.0 == all.0;
      EndOfSame(Remaining());
      for i := 0 to |ops|
        invariant Valid() && Readable() && failures == old(failures) && IsEndOf(Remaining(), old(Remaining()))
        invariant all == PerformAll(ops, old(Remaining()))
        invariant var tail := PerformAll(ops[i..], Remaining()); all.0 == outs + tail.0 && all.1 == tail.1
      {
        assert ops[i..][1..] == ops[i + 1..];
        ghost var before := Remaining();
        var one := RunOne(ops[i]);
        if one.Ok? { PerformLeavesEnd(ops[i], before); }
        EndOfEnd(Remaining(), before, old(Remaining()));
        if one.Err? {
          return Err;
        }
        var out := one.value;
        ghost var tail := PerformAll(ops[i + 1..], Remaining());
        assert outs + ([out] + tail.0) == outs + [out] + tail.0;
        outs := outs + [out];
      }
      assert outs + [] == outs;
      return Ok(outs);
    }
  }
}
