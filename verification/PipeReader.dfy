/** readData: drain a non-blocking pipe, retrying while it has nothing to say. */
module PipeReader {

  type Byte = bv8

  /** What one read may come back with. A pipe never delivers an empty chunk: that is its end. */
  datatype Outcome =
    | Chunk(bytes: seq<Byte>)
    | EndOfFile
    | TryAgain
    | Failed

  const BUFFER_SIZE: nat := 4096
  const RETRIES: nat := 1000

  /** A stream of outcomes, followed for ever by one that delivers nothing. */
  datatype Stream = Stream(outcomes: seq<Outcome>, rest: Outcome) {
    ghost predicate Valid() {
      !rest.Chunk? && forall i | 0 <= i < |outcomes| && outcomes[i].Chunk? :: 0 < |outcomes[i].bytes| <= BUFFER_SIZE
    }

    function At(i: nat): Outcome {
      if i < |outcomes| then outcomes[i] else rest
    }
  }

  // ---------- What readData is for, without its control flow ----------

  /** The bytes of the chunks among the outcomes from..to, in order. */
  function Bytes(s: Stream, from: nat, to: nat): seq<Byte>
    decreases if from < to then to - from else 0
  {
    if from >= to then []
    else (if s.At(from).Chunk? then s.At(from).bytes else []) + Bytes(s, from + 1, to)
  }

  /** From outcome i on, n reads in a row have nothing to say. */
  ghost predicate Idle(s: Stream, i: nat, n: nat) {
    forall k | i <= k < i + n :: s.At(k) == TryAgain
  }

  /** Reading from outcome `from` gets past all outcomes before `to`: they are chunks and tolerable pauses. */
  ghost predicate Passes(s: Stream, from: nat, to: nat) {
    && (forall k | from <= k < to :: s.At(k).Chunk? || s.At(k).TryAgain?)
    && (forall i | from <= i && i + RETRIES <= to :: !Idle(s, i, RETRIES))
  }

  /** The stream ends properly at `end`. */
  ghost predicate EndsAt(s: Stream, from: nat, end: nat) {
    from <= end && Passes(s, from, end) && s.At(end) == EndOfFile
  }

  /** Reading gives up after `end`: the read failed, or it was the last of too many empty-handed ones. */
  ghost predicate GivesUpAt(s: Stream, from: nat, end: nat) {
    && from <= end
    && Passes(s, from, end)
    && (s.At(end) == Failed || (from + RETRIES <= end + 1 && Idle(s, end + 1 - RETRIES, RETRIES)))
  }

  /** Reading stops after `end`, properly with result 0 or giving up with result -1. */
  ghost predicate StopsWith(s: Stream, from: nat, end: nat, n: int) {
    (n == 0 && EndsAt(s, from, end)) || (n == -1 && GivesUpAt(s, from, end))
  }

  /** A short pause followed by a chunk may precede anything that passes. */
  lemma PausePasses(s: Stream, from: nat, chunk: nat, to: nat)
    requires from <= chunk < from + RETRIES && chunk < to
    requires Idle(s, from, chunk - from) && s.At(chunk).Chunk? && Passes(s, chunk + 1, to)
    ensures Passes(s, from, to)
    ensures Bytes(s, from, to) == s.At(chunk).bytes + Bytes(s, chunk + 1, to)
  {
    forall i | from <= i && i + RETRIES <= to ensures !Idle(s, i, RETRIES) {
      assert i <= chunk ==> s.At(chunk) != TryAgain;
    }
    PauseIsSilent(s, from, chunk, to);
  }

  lemma {:induction false} PauseIsSilent(s: Stream, from: nat, chunk: nat, to: nat)
    requires from <= chunk <= to && Idle(s, from, chunk - from)
    ensures Bytes(s, from, to) == Bytes(s, chunk, to)
    decreases chunk - from
  {
    if from < chunk {
      assert s.At(from) == TryAgain;
      PauseIsSilent(s, from + 1, chunk, to);
    }
  }

  /** There is at most one way for reading to stop. */
  lemma OneEnd(s: Stream, from: nat, a: nat, b: nat)
    requires EndsAt(s, from, a) || GivesUpAt(s, from, a)
    requires EndsAt(s, from, b) || GivesUpAt(s, from, b)
    ensures a == b && !(EndsAt(s, from, a) && GivesUpAt(s, from, b))
  {
    Stops(s, from, a, b);
    Stops(s, from, b, a);
  }

  lemma Stops(s: Stream, from: nat, a: nat, b: nat)
    requires EndsAt(s, from, a) || GivesUpAt(s, from, a)
    requires from <= b && Passes(s, from, b)
    ensures b <= a
  {
  }

  /** What the reading after a chunk comes to, the whole reading comes to. */
  lemma AfterChunk(s: Stream, from: nat, chunk: nat, end: nat)
    requires from <= chunk < from + RETRIES && chunk < end
    requires Idle(s, from, chunk - from) && s.At(chunk).Chunk?
    ensures EndsAt(s, chunk + 1, end) ==> EndsAt(s, from, end)
    ensures GivesUpAt(s, chunk + 1, end) ==> GivesUpAt(s, from, end)
    ensures Bytes(s, from, end) == s.At(chunk).bytes + Bytes(s, chunk + 1, end)
  {
    if Passes(s, chunk + 1, end) {
      PausePasses(s, from, chunk, end);
    }
    PauseIsSilent(s, from, chunk, end);
  }

  lemma ChunkThen(s: Stream, from: nat, chunk: nat, end: nat, n: int)
    requires from <= chunk < from + RETRIES && chunk < end
    requires Idle(s, from, chunk - from) && s.At(chunk).Chunk? && StopsWith(s, chunk + 1, end, n)
    ensures StopsWith(s, from, end, n)
    ensures Bytes(s, from, end) == s.At(chunk).bytes + Bytes(s, chunk + 1, end)
  {
    AfterChunk(s, from, chunk, end);
  }

  lemma ChunkGrows(s: Stream, from: nat, chunk: nat, end: nat, n: int, before: seq<Byte>)
    requires from <= chunk < from + RETRIES && chunk < end
    requires Idle(s, from, chunk - from) && s.At(chunk).Chunk? && StopsWith(s, chunk + 1, end, n)
    ensures StopsWith(s, from, end, n)
    ensures before + s.At(chunk).bytes + Bytes(s, chunk + 1, end) == before + Bytes(s, from, end)
  {
    ChunkThen(s, from, chunk, end, n);
    assert before + s.At(chunk).bytes + Bytes(s, chunk + 1, end)
      == before + (s.At(chunk).bytes + Bytes(s, chunk + 1, end));
  }

  /** What stops reading without a chunk. */
  lemma {:induction false} NoChunk(s: Stream, from: nat, end: nat)
    requires from <= end < from + RETRIES && Idle(s, from, end - from)
    requires s.At(end) == TryAgain ==> end + 1 == from + RETRIES
    ensures s.At(end) == EndOfFile ==> EndsAt(s, from, end)
    ensures s.At(end) == Failed || s.At(end) == TryAgain ==> GivesUpAt(s, from, end)
    ensures Bytes(s, from, end) == []
  {
    PauseIsSilent(s, from, end, end);
  }

  lemma {:induction false} NoChunkThen(s: Stream, from: nat, end: nat)
    requires from <= end < from + RETRIES && Idle(s, from, end - from) && !s.At(end).Chunk?
    requires s.At(end) == TryAgain ==> end + 1 == from + RETRIES
    ensures StopsWith(s, from, end, if s.At(end) == EndOfFile then 0 else -1) && Bytes(s, from, end) == []
  {
    NoChunk(s, from, end);
  }

  lemma ZeroExactly(s: Stream, from: nat, end: nat)
    requires EndsAt(s, from, end) || GivesUpAt(s, from, end)
    ensures GivesUpAt(s, from, end) ==> forall e: nat :: !EndsAt(s, from, e)
  {
    forall e: nat | EndsAt(s, from, e) ensures !GivesUpAt(s, from, end) {
      OneEnd(s, from, e, end);
    }
  }

  /** A chunk with the number of empty-handed reads before it. */
  datatype Block = Block(pause: nat, bytes: seq<Byte>)

  function Pause(n: nat): seq<Outcome> {
    seq(n, _ => TryAgain)
  }

  function Outcomes(blocks: seq<Block>): seq<Outcome> {
    if blocks == [] then [] else Pause(blocks[0].pause) + [Chunk(blocks[0].bytes)] + Outcomes(blocks[1..])
  }

  function Content(blocks: seq<Block>): seq<Byte> {
    if blocks == [] then [] else blocks[0].bytes + Content(blocks[1..])
  }

  predicate Tolerable(blocks: seq<Block>, last: nat) {
    last < 1000 && forall b | b in blocks :: b.pause < 1000
  }

  /** Reading from outcome `from` meets the given blocks, another pause, and then the end of file or a failure. */
  ghost predicate Meets(s: Stream, from: nat, blocks: seq<Block>, last: nat) {
    && from <= |s.outcomes| && s.outcomes[from..] == Outcomes(blocks) + Pause(last)
    && (s.rest == EndOfFile || s.rest == Failed)
  }

  lemma {:induction false} MeetsNothing(s: Stream, from: nat, last: nat)
    requires Meets(s, from, [], last)
    ensures last < RETRIES ==>
      StopsWith(s, from, |s.outcomes|, if s.rest == EndOfFile then 0 else -1) && Bytes(s, from, |s.outcomes|) == []
    ensures last >= RETRIES ==> GivesUpAt(s, from, from + RETRIES - 1)
  {
    assert |s.outcomes[from..]| == last;
    assert forall k | from <= k < from + last :: s.At(k) == s.outcomes[from..][k - from];
    NoChunkThen(s, from, from + (if last < RETRIES then last else RETRIES - 1));
  }

  lemma MeetsBlock(s: Stream, from: nat, blocks: seq<Block>, last: nat)
    requires blocks != [] && Meets(s, from, blocks, last)
    ensures var chunk := from + blocks[0].pause;
      && Idle(s, from, blocks[0].pause) && chunk < |s.outcomes| && s.At(chunk) == Chunk(blocks[0].bytes)
      && Meets(s, chunk + 1, blocks[1..], last)
  {
    var tail, k, rest := s.outcomes[from..], blocks[0].pause, Outcomes(blocks[1..]) + Pause(last);
    assert tail == Pause(k) + ([Chunk(blocks[0].bytes)] + rest);
    assert forall i | from <= i < from + |tail| :: s.At(i) == tail[i - from];
    assert tail[k + 1..] == rest;
    assert s.outcomes[from + k + 1..] == tail[k + 1..];
  }

  lemma TolerableTail(blocks: seq<Block>, last: nat)
    requires blocks != []
    ensures Tolerable(blocks, last) <==> blocks[0].pause < RETRIES && Tolerable(blocks[1..], last)
  {
    assert blocks == [blocks[0]] + blocks[1..];
  }

  lemma {:induction false} MeetsAll(s: Stream, from: nat, blocks: seq<Block>, last: nat)
    requires Meets(s, from, blocks, last) && Tolerable(blocks, last)
    ensures StopsWith(s, from, |s.outcomes|, if s.rest == EndOfFile then 0 else -1)
    ensures Bytes(s, from, |s.outcomes|) == Content(blocks)
    decreases |blocks|
  {
    if blocks == [] {
      MeetsNothing(s, from, last);
    } else {
      var chunk := from + blocks[0].pause;
      MeetsBlock(s, from, blocks, last);
      TolerableTail(blocks, last);
      MeetsAll(s, chunk + 1, blocks[1..], last);
      ChunkThen(s, from, chunk, |s.outcomes|, if s.rest == EndOfFile then 0 else -1);
    }
  }

  lemma {:induction false} MeetsTooLongAPause(s: Stream, from: nat, blocks: seq<Block>, last: nat) returns (end: nat)
    requires Meets(s, from, blocks, last) && !Tolerable(blocks, last)
    ensures GivesUpAt(s, from, end)
    decreases |blocks|
  {
    if blocks == [] {
      MeetsNothing(s, from, last);
      end := from + RETRIES - 1;
    } else {
      var chunk := from + blocks[0].pause;
      MeetsBlock(s, from, blocks, last);
      TolerableTail(blocks, last);
      if blocks[0].pause < RETRIES {
        end := MeetsTooLongAPause(s, chunk + 1, blocks[1..], last);
        AfterChunk(s, from, chunk, end);
      } else {
        end := from + RETRIES - 1;
        NoChunk(s, from, end);
      }
    }
  }

  /** For any chunks with any pauses before them and before the end of file or a failure: reading ends properly
      exactly when it is the end of file and every pause is shorter than 1000 reads, and then it has read every
      chunk; otherwise it gives up. The count starts anew after every chunk, so the pauses do not add up. */
  lemma {:induction false} Tolerance(blocks: seq<Block>, last: nat, rest: Outcome)
    requires rest == EndOfFile || rest == Failed
    ensures var s := Stream(Outcomes(blocks) + Pause(last), rest);
      && ((exists end: nat :: EndsAt(s, 0, end)) <==> rest == EndOfFile && Tolerable(blocks, last))
      && ((exists end: nat :: GivesUpAt(s, 0, end)) <==> !(rest == EndOfFile && Tolerable(blocks, last)))
      && (forall end: nat | EndsAt(s, 0, end) :: Bytes(s, 0, end) == Content(blocks))
  {
    var s := Stream(Outcomes(blocks) + Pause(last), rest);
    assert s.outcomes[0..] == s.outcomes;
    if Tolerable(blocks, last) && rest == EndOfFile {
      MeetsAll(s, 0, blocks, last);
      forall end: nat | EndsAt(s, 0, end) || GivesUpAt(s, 0, end) ensures end == |s.outcomes| && !GivesUpAt(s, 0, end) {
        OneEnd(s, 0, |s.outcomes|, end);
      }
    } else {
      var end: nat;
      if Tolerable(blocks, last) {
        MeetsAll(s, 0, blocks, last);
        end := |s.outcomes|;
      } else {
        end := MeetsTooLongAPause(s, 0, blocks, last);
      }
      ZeroExactly(s, 0, end);
    }
  }

  // ---------- The code ----------

  class Pipe {
    const stream: Stream
    var pos: nat

    constructor (stream: Stream)
      ensures this.stream == stream && pos == 0
    {
      this.stream, pos := stream, 0;
    }

    method Read() returns (o: Outcome)
      modifies this
      ensures o == stream.At(old(pos)) && pos == old(pos) + 1
    {
      o := stream.At(pos);
      pos := pos + 1;
    }
  }

  class Buffer {
    var bytes: seq<Byte>

    constructor ()
      ensures bytes == []
    {
      bytes := [];
    }

    method Append(chunk: seq<Byte>)
      modifies this
      ensures bytes == old(bytes) + chunk
    {
      bytes := bytes + chunk;
    }
  }

  /** The retry loop: read until something comes back, or until the last retry is spent. */
  method ReadOnce(fd: Pipe) returns (o: Outcome)
    modifies fd
    ensures old(fd.pos) < fd.pos <= old(fd.pos) + 1000
    ensures o == fd.stream.At(fd.pos - 1)
    ensures Idle(fd.stream, old(fd.pos), fd.pos - 1 - old(fd.pos))
    ensures o == TryAgain ==> fd.pos == old(fd.pos) + 1000
  {
    var retryCount := 0;
    while true
      invariant retryCount < RETRIES && fd.pos == old(fd.pos) + retryCount
      invariant Idle(fd.stream, old(fd.pos), retryCount)
      decreases RETRIES - retryCount
    {
      o := fd.Read();
      if o == TryAgain {
        retryCount := retryCount + 1;
        if retryCount < RETRIES {
          continue;
        }
      }
      break;
    }
  }

  /** On every stream readData terminates. It returns 0 where the stream comes to its end of file without
      a failure and without RETRIES empty-handed reads in a row, and -1 where it gives up; in both cases
      the buffer has grown by every byte delivered until then, in order. */
  method ReadData(fd: Pipe, data: Buffer) returns (n: int)
    requires fd.stream.Valid()
    modifies fd, data
    ensures fd.pos > old(fd.pos)
    ensures StopsWith(fd.stream, old(fd.pos), fd.pos - 1, n)
    ensures data.bytes == old(data.bytes) + Bytes(fd.stream, old(fd.pos), fd.pos - 1)
    decreases if fd.pos < |fd.stream.outcomes| then |fd.stream.outcomes| - fd.pos else 0
  {
    ghost var start := fd.pos;
    ghost var s := fd.stream;
    var o := ReadOnce(fd);
    ghost var at := fd.pos - 1;
    if o.Chunk? {
      data.Append(o.bytes);
      n := ReadData(fd, data);
      ghost var end := fd.pos - 1;
      assert StopsWith(s, start, end, n)
        && old(data.bytes) + o.bytes + Bytes(s, at + 1, end) == old(data.bytes) + Bytes(s, start, end) by {
        ChunkGrows(s, start, at, end, n, old(data.bytes));
      }
    } else {
      n := if o == EndOfFile then 0 else -1;
      NoChunkThen(s, start, at);
    }
  }

  /** The content an icon is read from: there is one exactly when the stream ends properly, and it is
      then every byte before the end of file, in order. */
  method ReadIcon(fd: Pipe) returns (ok: bool, content: seq<Byte>)
    requires fd.stream.Valid()
    modifies fd
    ensures ok <==> exists end: nat :: EndsAt(fd.stream, old(fd.pos), end)
    ensures forall end: nat | EndsAt(fd.stream, old(fd.pos), end) :: content == Bytes(fd.stream, old(fd.pos), end)
  {
    var data := new Buffer();
    var n := ReadData(fd, data);
    ok, content := n == 0, data.bytes;
    ghost var last := fd.pos - 1;
    ZeroExactly(fd.stream, old(fd.pos), last);
    forall end: nat | EndsAt(fd.stream, old(fd.pos), end)
      ensures content == Bytes(fd.stream, old(fd.pos), end)
    {
      OneEnd(fd.stream, old(fd.pos), last, end);
    }
    assert ok ==> EndsAt(fd.stream, old(fd.pos), last);
  }
}
