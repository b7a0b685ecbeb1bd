/** The framing of ffmpeg's progress stream in `_do_watch_progress`: bytes
    arrive in chunks, are cut into lines at `\n`, each complete line is
    split at `=` into a key and an optional value for the handler, and the
    unfinished last line is carried over to the next chunk. */
module Progress {
  import opened Wrappers
  import opened Strings

  newtype byte = x: int | 0 <= x < 256

  /** `b"\n"`. */
  const Newline: byte := 10
  /** `"="`. */
  const Equals: byte := 61

  /** One `handler(key, value)` call. The key is never `None`: a split
      always has a first part. */
  datatype Event = Event(key: seq<byte>, value: Option<seq<byte>>)

  /** `parts = line.split("=")`, then `parts[0]` and `parts[1]` if present. */
  function ParseLine(line: seq<byte>): (e: Event)
    ensures Equals !in e.key && StartsWith(line, e.key)
    ensures Equals !in line ==> e == Event(line, None)
    ensures Equals in line ==> e.value.Some? && Equals !in e.value.value
    ensures e.value.Some? ==>
      var n := |e.key| + 1 + |e.value.value|;
      && StartsWith(line, e.key + [Equals] + e.value.value)
      && (n == |line| || line[n] == Equals)
  {
    var parts := Split(line, Equals);
    JoinSplit(line, Equals);
    if |parts| > 1 then
      var rest := parts[1..];
      assert line == parts[0] + [Equals] + Join(rest, Equals);
      assert |rest| > 1 ==> Join(rest, Equals) == rest[0] + [Equals] + Join(rest[1..], Equals);
      assert line[..|parts[0]|] == parts[0];
      assert line[..|parts[0]| + 1 + |rest[0]|] == parts[0] + [Equals] + rest[0];
      Event(parts[0], Some(rest[0]))
    else
      assert line == parts[0];
      Event(parts[0], None)
  }

  /** The handler calls for a sequence of complete lines. */
  function ParseLines(lines: seq<seq<byte>>): (r: seq<Event>)
    ensures |r| == |lines|
  {
    if |lines| == 0 then [] else [ParseLine(lines[0])] + ParseLines(lines[1..])
  }

  /** The `i`th line gives the `i`th handler call. */
  lemma {:induction false} ParseLinesAt(lines: seq<seq<byte>>, i: nat)
    requires i < |lines|
    ensures ParseLines(lines)[i] == ParseLine(lines[i])
    decreases i
  {
    if i > 0 {
      ParseLinesAt(lines[1..], i - 1);
    }
  }

  lemma {:induction false} ParseLinesAppend(a: seq<seq<byte>>, b: seq<seq<byte>>)
    ensures ParseLines(a + b) == ParseLines(a) + ParseLines(b)
    decreases |a|
  {
    if |a| > 0 {
      assert (a + b)[1..] == a[1..] + b;
      ParseLinesAppend(a[1..], b);
    } else {
      assert a + b == b;
    }
  }

  /** `data` and the events handed to the handler so far. */
  datatype Reader = Reader(data: seq<byte>, events: seq<Event>)

  /** One turn of the loop with a non-empty chunk: append it, dispatch
      every complete line, keep the last piece. */
  function Receive(rd: Reader, chunk: seq<byte>): (r: Reader)
    ensures Newline !in r.data
  {
    var lines := Split(rd.data + chunk, Newline);
    Reader(Last(lines), rd.events + ParseLines(lines[..|lines| - 1]))
  }

  /** The receive loop over the chunks `recv` returns; an empty chunk
      (the peer closed) ends it. */
  function Watch(rd: Reader, chunks: seq<seq<byte>>): Reader
    decreases |chunks|
  {
    if |chunks| == 0 || |chunks[0]| == 0 then rd
    else Watch(Receive(rd, chunks[0]), chunks[1..])
  }

  function Flatten(chunks: seq<seq<byte>>): seq<byte>
    decreases |chunks|
  {
    if |chunks| == 0 then [] else chunks[0] + Flatten(chunks[1..])
  }

  predicate NoEmptyChunk(chunks: seq<seq<byte>>) {
    forall i :: 0 <= i < |chunks| ==> |chunks[i]| > 0
  }

  /** `result` is what dispatching the complete lines of the carried data
      followed by `bytes` gives: every complete line handled in order, the
      unfinished last line kept. */
  ghost predicate Frames(rd: Reader, bytes: seq<byte>, result: Reader) {
    var lines := Split(rd.data + bytes, Newline);
    result == Reader(Last(lines), rd.events + ParseLines(lines[..|lines| - 1]))
  }

  /** Receiving `c` and then framing `rest` frames `c + rest`. */
  lemma FramesAfterReceive(rd: Reader, c: seq<byte>, rest: seq<byte>, result: Reader)
    requires Frames(Receive(rd, c), rest, result)
    ensures Frames(rd, c + rest, result)
  {
    var next := Receive(rd, c);
    var A := Split(rd.data + c, Newline);
    var B := Split(next.data + rest, Newline);
    var front := A[..|A| - 1];
    assert Split(rd.data + (c + rest), Newline) == front + B by {
      SplitAppend(rd.data + c, rest, Newline);
      assert rd.data + (c + rest) == (rd.data + c) + rest;
    }
    assert result == Reader(Last(B), (rd.events + ParseLines(front)) + ParseLines(B[..|B| - 1])) by {
      assert next.events == rd.events + ParseLines(front);
    }
    FramesOfLines(rd.events, front, B, result);
  }

  /** Handling the complete lines `a` and then those of `b` handles the
      complete lines of `a + b`. */
  lemma FramesOfLines(events: seq<Event>, a: seq<seq<byte>>, b: seq<seq<byte>>, result: Reader)
    requires |b| > 0
    requires result == Reader(Last(b), (events + ParseLines(a)) + ParseLines(b[..|b| - 1]))
    ensures result == Reader(Last(a + b), events + ParseLines((a + b)[..|a + b| - 1]))
  {
    assert (a + b)[..|a + b| - 1] == a + b[..|b| - 1];
    ParseLinesAppend(a, b[..|b| - 1]);
  }

  /** Watching non-empty chunks dispatches exactly the complete lines of
      the carried data followed by all the chunks' bytes, in order, and
      keeps the unfinished last line. */
  lemma {:induction false} WatchFrames(rd: Reader, chunks: seq<seq<byte>>)
    requires Newline !in rd.data && NoEmptyChunk(chunks)
    ensures Frames(rd, Flatten(chunks), Watch(rd, chunks))
    decreases |chunks|
  {
    if |chunks| == 0 {
      assert rd.data + Flatten(chunks) == rd.data;
      SplitSeparatorFree(rd.data, Newline);
    } else {
      var tail := chunks[1..];
      assert NoEmptyChunk(tail);
      WatchFrames(Receive(rd, chunks[0]), tail);
      FramesAfterReceive(rd, chunks[0], Flatten(tail), Watch(Receive(rd, chunks[0]), tail));
    }
  }

  /** Lines each followed by a newline, concatenated. */
  function Terminated(lines: seq<seq<byte>>): seq<byte>
    decreases |lines|
  {
    if |lines| == 0 then [] else lines[0] + [Newline] + Terminated(lines[1..])
  }

  /** Joining at newlines is terminating every piece but the last. */
  lemma {:induction false} JoinAsTerminated(parts: seq<seq<byte>>)
    requires |parts| > 0
    ensures Join(parts, Newline) == Terminated(parts[..|parts| - 1]) + Last(parts)
    decreases |parts|
  {
    if |parts| == 1 {
      assert parts[..0] == [];
    } else {
      var tail := parts[1..];
      JoinAsTerminated(tail);
      assert parts[..|parts| - 1] == [parts[0]] + tail[..|tail| - 1];
      assert parts[..|parts| - 1][1..] == tail[..|tail| - 1];
      assert Last(tail) == Last(parts);
    }
  }

  /** What a watch from the start hands to the handler is exactly the
      newline-terminated lines of the received bytes, in order; the bytes
      after the last newline stay in the buffer and are never handled. */
  lemma WatchDispatchesTerminatedLines(chunks: seq<seq<byte>>)
    requires NoEmptyChunk(chunks)
    ensures var w := Watch(Reader([], []), chunks);
      && Newline !in w.data
      && exists lines :: (&& (forall i :: 0 <= i < |lines| ==> Newline !in lines[i])
                          && Flatten(chunks) == Terminated(lines) + w.data
                          && w.events == ParseLines(lines))
  {
    var s := Flatten(chunks);
    var w := Watch(Reader([], []), chunks);
    var parts := Split(s, Newline);
    var lines := parts[..|parts| - 1];
    assert w == Reader(Last(parts), ParseLines(lines)) by {
      WatchFrames(Reader([], []), chunks);
      assert [] + s == s;
    }
    assert s == Terminated(lines) + w.data by {
      JoinSplit(s, Newline);
      JoinAsTerminated(parts);
    }
    assert forall i :: 0 <= i < |lines| ==> Newline !in lines[i] by {
      assert forall i :: 0 <= i < |lines| ==> lines[i] == parts[i];
    }
  }

  /** How `recv` happens to cut the stream into chunks does not matter. */
  lemma ChunkingIndependent(c1: seq<seq<byte>>, c2: seq<seq<byte>>)
    requires NoEmptyChunk(c1) && NoEmptyChunk(c2) && Flatten(c1) == Flatten(c2)
    ensures Watch(Reader([], []), c1) == Watch(Reader([], []), c2)
  {
    WatchFrames(Reader([], []), c1);
    WatchFrames(Reader([], []), c2);
  }

  /** An empty chunk ends the loop: nothing received after it is handled. */
  lemma {:induction false} StopsAtEmptyChunk(rd: Reader, chunks: seq<seq<byte>>, i: nat)
    requires i < |chunks| && |chunks[i]| == 0
    ensures Watch(rd, chunks) == Watch(rd, chunks[..i])
    decreases i
  {
    if i > 0 && |chunks[0]| > 0 {
      StopsAtEmptyChunk(Receive(rd, chunks[0]), chunks[1..], i - 1);
      assert chunks[..i][1..] == chunks[1..][..i - 1];
    }
  }
}
