/**
 * The line framer and the line writer that sit between the socket and the parser.
 *
 * `StreamParser` keeps the bytes it has received but not yet handed out in a buffer that
 * persists across calls; `ReadLine` returns the next CR LF terminated frame, reading more
 * when the buffer holds none. `StreamWriter` writes a payload followed by CR LF.
 *
 * The socket is abstract: a `Source` replays a script of read results (data chunks and
 * faults) and a `Sink` records what was written and fails the calls its script says fail.
 * Each method is proved equal to a specification function on values; the properties of
 * the framer and the writer are lemmas about those functions.
 *
 * After each read `read_line` searches only the bytes that read brought, so a CR ending
 * one read and the LF starting the next are not taken for a terminator. `ReadLineSpec`
 * models that search as written. `ReadLineCorrected`, at the end of the module, searches
 * from the last byte held before the read instead; the lemmas there compare the two.
 */
module Stream {
  import opened Wire

  /** The capacity the buffer is resized to before reading. */
  const BufferSize: nat := 512

  // ---------------------------------------------------------------------------
  // Searching for the terminator
  // ---------------------------------------------------------------------------

  /** The index of the first CR LF in `s`, if any (`FindCrlfSpec` says so). */
  function FindCrlf(s: seq<byte>): (r: Option<nat>)
    ensures r.Some? ==> r.value + 1 < |s|
  {
    FindCrlfFrom(s, 0)
  }

  function FindCrlfFrom(s: seq<byte>, k: nat): (r: Option<nat>)
    ensures r.Some? ==> k <= r.value && r.value + 1 < |s|
    decreases |s| - k
  {
    if k + 1 >= |s| then None
    else if s[k] == CR && s[k + 1] == LF then Some(k)
    else FindCrlfFrom(s, k + 1)
  }

  /** The search finds the first CR LF, and finds one whenever there is one. */
  lemma FindCrlfSpec(s: seq<byte>)
    ensures var r := FindCrlf(s);
      && (r.Some? ==> IsCrlfAt(s, r.value) && forall j | 0 <= j < r.value :: !IsCrlfAt(s, j))
      && (r.None? <==> !HasCrlf(s))
  {
    FindCrlfFromSpec(s, 0);
  }

  lemma {:induction false} FindCrlfFromSpec(s: seq<byte>, k: nat)
    requires forall j | 0 <= j < k :: !IsCrlfAt(s, j)
    ensures var r := FindCrlfFrom(s, k);
      && (r.Some? ==> IsCrlfAt(s, r.value) && forall j | 0 <= j < r.value :: !IsCrlfAt(s, j))
      && (r.None? <==> !HasCrlf(s))
    decreases |s| - k
  {
    if k + 1 >= |s| {
      assert forall j | 0 <= j < |s| :: !IsCrlfAt(s, j);
    } else if s[k] == CR && s[k + 1] == LF {
      assert IsCrlfAt(s, k);
    } else {
      assert !IsCrlfAt(s, k);
      FindCrlfFromSpec(s, k + 1);
    }
  }

  /** `n` zero bytes: what resizing the buffer appends. */
  function Zeros(n: nat): (z: seq<byte>)
    ensures |z| == n
  {
    if n == 0 then [] else ['\0'] + Zeros(n - 1)
  }

  /** Dropping `m` of `n` zero bytes leaves `n - m` of them. */
  lemma {:induction false} ZerosDrop(n: nat, m: nat)
    requires m <= n
    ensures Zeros(n)[m..] == Zeros(n - m)
  {
    if m > 0 {
      ZerosDrop(n - 1, m - 1);
      assert Zeros(n)[m..] == Zeros(n - 1)[m - 1..];
    }
  }

  // ---------------------------------------------------------------------------
  // The byte source
  // ---------------------------------------------------------------------------

  /** One scripted read result: some bytes, or an I/O error. */
  datatype Chunk = Data(bytes: seq<byte>) | Fault

  datatype ReadResult = ReadOk(bytes: seq<byte>) | ReadErr

  /** Every byte the script delivers before its first fault. */
  function Flatten(chunks: seq<Chunk>): seq<byte>
  {
    if chunks == [] then []
    else match chunks[0]
      case Fault => []
      case Data(d) => d + Flatten(chunks[1..])
  }

  /**
   * One read into a slice of `room` bytes: the next chunk, cut to the room when it does
   * not fit (the remainder is delivered by the next read); an empty script is the end of
   * the stream, which reads zero bytes.
   */
  function Receive(chunks: seq<Chunk>, room: nat): (r: (ReadResult, seq<Chunk>))
    ensures |r.1| <= |chunks|
    ensures r.0.ReadOk? ==> |r.0.bytes| <= room
    ensures r.0.ReadOk? && r.0.bytes == [] ==> r.1 == chunks || |r.1| < |chunks|
  {
    if chunks == [] then (ReadOk([]), chunks)
    else match chunks[0]
      case Fault => (ReadErr, chunks[1..])
      case Data(d) =>
        if |d| <= room then (ReadOk(d), chunks[1..])
        else
          assert room == 0 ==> [Data(d[room..])] + chunks[1..] == chunks by {
            if room == 0 {
              assert d[room..] == d;
            }
          }
          (ReadOk(d[..room]), [Data(d[room..])] + chunks[1..])
  }

  /** A read hands out a prefix of the scripted bytes: nothing is lost or repeated. */
  lemma ReceiveConserves(chunks: seq<Chunk>, room: nat)
    requires Receive(chunks, room).0.ReadOk?
    ensures Flatten(chunks) == Receive(chunks, room).0.bytes + Flatten(Receive(chunks, room).1)
  {
    if chunks != [] && chunks[0].Data? {
      var d := chunks[0].bytes;
      assert Flatten(chunks) == d + Flatten(chunks[1..]);
      if |d| > room {
        var rest := [Data(d[room..])] + chunks[1..];
        assert Receive(chunks, room) == (ReadOk(d[..room]), rest);
        assert rest[0] == Data(d[room..]) && rest[1..] == chunks[1..];
        assert Flatten(rest) == d[room..] + Flatten(chunks[1..]);
        assert d == d[..room] + d[room..];
      }
    }
  }

  /** The reader the framer borrows; its state is what it has still to deliver. */
  class Source {
    var chunks: seq<Chunk>

    constructor (chunks: seq<Chunk>)
      ensures this.chunks == chunks
    {
      this.chunks := chunks;
    }

    method Read(room: nat) returns (r: ReadResult)
      modifies this
      ensures r == Receive(old(chunks), room).0 && chunks == Receive(old(chunks), room).1
    {
      var next := Receive(chunks, room);
      r := next.0;
      chunks := next.1;
    }
  }

  // ---------------------------------------------------------------------------
  // What read_line does, as a function
  // ---------------------------------------------------------------------------

  /**
   * The result of one call: a frame with the buffer and script left behind; a read error,
   * after which the buffer stays resized to its capacity; or a loop that never ends,
   * when a read makes no progress (the end of the stream, or a full buffer without CR LF).
   */
  datatype Outcome =
    | Line(frame: seq<byte>, buffer: seq<byte>, chunks: seq<Chunk>)
    | Failed(buffer: seq<byte>, chunks: seq<Chunk>)
    | Hangs

  /** A frame is taken from the buffer without reading when it holds one already. */
  function ReadLineSpec(buffer: seq<byte>, chunks: seq<Chunk>): Outcome
    requires |buffer| <= BufferSize
  {
    match FindCrlf(buffer)
    case Some(i) => Line(buffer[..i + 2], buffer[i + 2..], chunks)
    case None => Fill(buffer, chunks)
  }

  /**
   * The read loop, `data` being the bytes received so far: each read goes after them and
   * only the bytes it brought are searched for CR LF.
   */
  function Fill(data: seq<byte>, chunks: seq<Chunk>): Outcome
    requires |data| <= BufferSize
    decreases BufferSize - |data|, |chunks|
  {
    var readCount := |data|;
    var (res, rest) := Receive(chunks, BufferSize - readCount);
    match res
    case ReadErr => Failed(data + Zeros(BufferSize - readCount), rest)
    case ReadOk(bytes) =>
      if bytes == [] && rest == chunks then Hangs
      else
        var data' := data + bytes;
        match FindCrlf(bytes)
        case Some(i) => Line(data'[..readCount + i + 2], data'[readCount + i + 2..], rest)
        case None => Fill(data', rest)
  }

  // ---------------------------------------------------------------------------
  // The framer
  // ---------------------------------------------------------------------------

  class StreamParser {
    const stream: Source
    var buffer: seq<byte>

    /** A new framer starts with an empty buffer. */
    constructor (stream: Source)
      ensures this.stream == stream && buffer == []
    {
      this.stream := stream;
      buffer := [];
    }

    /**
     * The next frame, or `None` on a read error. The buffer is resized to its capacity with
     * zero bytes, reads fill it after the bytes already held, and on success it is cut back
     * to the bytes held and split after the CR LF that was found.
     */
    method ReadLine() returns (r: Option<seq<byte>>)
      requires |buffer| <= BufferSize
      requires ReadLineSpec(buffer, stream.chunks) != Hangs
      modifies this, stream
      ensures var o := ReadLineSpec(old(buffer), old(stream.chunks));
        && (o.Line? ==> r == Some(o.frame) && buffer == o.buffer && stream.chunks == o.chunks)
        && (o.Failed? ==> r == None && buffer == o.buffer && stream.chunks == o.chunks)
      ensures |buffer| <= BufferSize
    {
      ghost var spec := ReadLineSpec(buffer, stream.chunks);
      ReadLineBounded(buffer, stream.chunks);
      ghost var data := buffer;
      var lineEnd := FindCrlf(buffer);
      var readCount: nat := 0;
      var bufEnd := |buffer|;
      buffer := buffer + Zeros(BufferSize - |buffer|);
      while lineEnd.None?
        invariant |data| <= BufferSize && bufEnd == |data| && readCount <= bufEnd
        invariant buffer == data + Zeros(BufferSize - |data|)
        invariant lineEnd.None? ==> Fill(data, stream.chunks) == spec
        invariant lineEnd.Some? ==> readCount + lineEnd.value + 2 <= bufEnd
        invariant lineEnd.Some? ==>
          spec == Line(data[..readCount + lineEnd.value + 2], data[readCount + lineEnd.value + 2..], stream.chunks)
        decreases BufferSize - bufEnd, |stream.chunks|
      {
        readCount := bufEnd;
        var ok;
        ok, data, bufEnd, lineEnd := ReadStep(spec, data, readCount);
        if !ok {
          return None;
        }
      }
      var k := readCount + lineEnd.value + 2;
      Padded(data, k);
      var frame := CutFrame(k, bufEnd);
      r := Some(frame);
    }

    /**
     * The buffer cut back to its first `bufEnd` bytes and split after byte `k`: the part
     * before is handed out, the part after stays buffered.
     */
    method CutFrame(k: nat, bufEnd: nat) returns (frame: seq<byte>)
      requires k <= bufEnd <= |buffer|
      modifies this
      ensures frame == old(buffer)[..k] && buffer == old(buffer)[k..bufEnd]
    {
      buffer := buffer[..bufEnd];
      var split := buffer[k..];
      frame := buffer[..k];
      buffer := split;
    }

    /**
     * One turn of the read loop: a read into the buffer after the `readCount` bytes held
     * (`data`), then a search of the bytes just read. `ok` is false after a read error.
     */
    method ReadStep(ghost spec: Outcome, ghost data: seq<byte>, readCount: nat)
      returns (ok: bool, ghost data': seq<byte>, bufEnd: nat, lineEnd: Option<nat>)
      requires readCount == |data| <= BufferSize && buffer == data + Zeros(BufferSize - |data|)
      requires Fill(data, stream.chunks) == spec && spec != Hangs
      modifies this, stream
      ensures !ok ==> spec == Failed(buffer, stream.chunks)
      ensures ok ==>
        && |data'| <= BufferSize && bufEnd == |data'| && readCount <= bufEnd
        && buffer == data' + Zeros(BufferSize - |data'|)
        && (readCount < bufEnd || |stream.chunks| < |old(stream.chunks)|)
        && (lineEnd.None? ==> Fill(data', stream.chunks) == spec)
        && (lineEnd.Some? ==> readCount + lineEnd.value + 2 <= bufEnd)
        && (lineEnd.Some? ==>
             spec == Line(data'[..readCount + lineEnd.value + 2], data'[readCount + lineEnd.value + 2..], stream.chunks))
    {
      FillStep(data, stream.chunks);
      ghost var p := Receive(stream.chunks, BufferSize - |data|);
      var res := ReadInto(readCount, data);
      assert res == p.0 && stream.chunks == p.1;
      if res.ReadErr? {
        return false, data, readCount, None;
      }
      if |res.bytes| == 0 && |buffer| == 0 {
        // The end-of-stream arm: never taken, the buffer was just resized.
        assert false;
      }
      bufEnd := readCount + |res.bytes|;
      data' := data + res.bytes;
      Padded(data', readCount);
      assert data'[readCount..] == res.bytes;
      lineEnd := SearchBuffer(readCount, bufEnd, res.bytes);
      ok := true;
    }

    /** The first CR LF in `buffer[from..to]`, the slice holding `held`. */
    method SearchBuffer(from: nat, to: nat, ghost held: seq<byte>) returns (r: Option<nat>)
      requires from <= to <= |buffer| && buffer[from..to] == held
      ensures r == FindCrlf(held)
      ensures r.Some? ==> r.value + 1 < |held|
    {
      r := FindCrlf(buffer[from..to]);
    }

    /**
     * A read into the buffer from `readCount` on, the bytes received so far being `data`:
     * the next read of the script, placed right after them.
     */
    method ReadInto(readCount: nat, ghost data: seq<byte>) returns (res: ReadResult)
      requires readCount == |data| <= BufferSize && buffer == data + Zeros(BufferSize - |data|)
      modifies this, stream
      ensures res == Receive(old(stream.chunks), BufferSize - |data|).0
      ensures stream.chunks == Receive(old(stream.chunks), BufferSize - |data|).1
      ensures res.ReadErr? ==> buffer == old(buffer)
      ensures res.ReadOk? ==> buffer == data + res.bytes + Zeros(BufferSize - |data + res.bytes|)
    {
      assert |buffer| - readCount == BufferSize - |data|;
      res := stream.Read(|buffer| - readCount);
      if res.ReadOk? {
        Place(readCount, res.bytes, data);
      }
    }

    /** The bytes of a read written into the buffer from `readCount` on. */
    method Place(readCount: nat, bytes: seq<byte>, ghost data: seq<byte>)
      requires readCount == |data| && |data| + |bytes| <= BufferSize && buffer == data + Zeros(BufferSize - |data|)
      modifies this
      ensures |buffer| == BufferSize && buffer == data + bytes + Zeros(BufferSize - |data + bytes|)
    {
      PlaceBytes(data, bytes);
      buffer := buffer[..readCount] + bytes + buffer[readCount + |bytes|..];
    }
  }

  /** Split after byte `k`, the buffer resized to its capacity splits as the bytes it held do. */
  lemma Padded(data: seq<byte>, k: nat)
    requires k <= |data| <= BufferSize
    ensures var b := data + Zeros(BufferSize - |data|); b[..k] == data[..k] && b[k..|data|] == data[k..]
  {
  }

  /** A read of `bytes` into the resized buffer, right after the `data` held. */
  lemma PlaceBytes(data: seq<byte>, bytes: seq<byte>)
    requires |data| + |bytes| <= BufferSize
    ensures var b := data + Zeros(BufferSize - |data|);
      b[..|data|] + bytes + b[|data| + |bytes|..] == data + bytes + Zeros(BufferSize - |data + bytes|)
  {
    var z := Zeros(BufferSize - |data|);
    ZerosDrop(BufferSize - |data|, |bytes|);
    assert BufferSize - |data| - |bytes| == BufferSize - |data + bytes|;
    assert (data + z)[..|data|] == data;
    assert (data + z)[|data| + |bytes|..] == z[|bytes|..];
  }

  /** One turn of the read loop, as `Fill` takes it. */
  lemma FillStep(data: seq<byte>, chunks: seq<Chunk>)
    requires |data| <= BufferSize && Fill(data, chunks) != Hangs
    ensures var p := Receive(chunks, BufferSize - |data|);
      && (p.0.ReadErr? ==> Fill(data, chunks) == Failed(data + Zeros(BufferSize - |data|), p.1))
      && (p.0.ReadOk? ==>
           && |data| + |p.0.bytes| <= BufferSize
           && (p.0.bytes != [] || |p.1| < |chunks|)
           && (FindCrlf(p.0.bytes).None? ==> Fill(data + p.0.bytes, p.1) == Fill(data, chunks))
           && (FindCrlf(p.0.bytes).Some? ==>
                var k := |data| + FindCrlf(p.0.bytes).value + 2;
                Fill(data, chunks) == Line((data + p.0.bytes)[..k], (data + p.0.bytes)[k..], p.1)))
  {
    var p := Receive(chunks, BufferSize - |data|);
    if p.0.ReadOk? {
      assert !(p.0.bytes == [] && p.1 == chunks);
    }
  }

  // ---------------------------------------------------------------------------
  // Properties of the framer
  // ---------------------------------------------------------------------------

  /** Every frame handed out ends with CR LF. */
  lemma {:induction false} FrameEndsWithCrlf(buffer: seq<byte>, chunks: seq<Chunk>)
    requires |buffer| <= BufferSize && ReadLineSpec(buffer, chunks).Line?
    ensures var f := ReadLineSpec(buffer, chunks).frame; |f| >= 2 && IsCrlfAt(f, |f| - 2)
  {
    FindCrlfSpec(buffer);
    if FindCrlf(buffer).None? {
      FillEndsWithCrlf(buffer, chunks);
    }
  }

  lemma {:induction false} FillEndsWithCrlf(data: seq<byte>, chunks: seq<Chunk>)
    requires |data| <= BufferSize && Fill(data, chunks).Line?
    ensures var f := Fill(data, chunks).frame; |f| >= 2 && IsCrlfAt(f, |f| - 2)
    decreases BufferSize - |data|, |chunks|
  {
    var p := Receive(chunks, BufferSize - |data|);
    if p.0.ReadOk? {
      FindCrlfSpec(p.0.bytes);
      if FindCrlf(p.0.bytes).None? {
        FillEndsWithCrlf(data + p.0.bytes, p.1);
      }
    }
  }

  /**
   * Nothing is lost or duplicated: the frame followed by the new buffer is the old buffer
   * followed by every byte read during the call.
   */
  lemma {:induction false} ReadLineConserves(buffer: seq<byte>, chunks: seq<Chunk>)
    requires |buffer| <= BufferSize && ReadLineSpec(buffer, chunks).Line?
    ensures var o := ReadLineSpec(buffer, chunks);
      buffer + Flatten(chunks) == o.frame + o.buffer + Flatten(o.chunks)
  {
    if FindCrlf(buffer).None? {
      FillConserves(buffer, chunks);
    } else {
      var i := FindCrlf(buffer).value;
      assert buffer == buffer[..i + 2] + buffer[i + 2..];
    }
  }

  lemma {:induction false} FillConserves(data: seq<byte>, chunks: seq<Chunk>)
    requires |data| <= BufferSize && Fill(data, chunks).Line?
    ensures var o := Fill(data, chunks); data + Flatten(chunks) == o.frame + o.buffer + Flatten(o.chunks)
    decreases BufferSize - |data|, |chunks|
  {
    FillStep(data, chunks);
    var p := Receive(chunks, BufferSize - |data|);
    ReceiveConserves(chunks, BufferSize - |data|);
    var data' := data + p.0.bytes;
    Assoc(data, p.0.bytes, Flatten(p.1));
    match FindCrlf(p.0.bytes)
    case Some(i) =>
      var k := |data| + i + 2;
      assert Fill(data, chunks) == Line(data'[..k], data'[k..], p.1);
      SplitBefore(data', k, Flatten(p.1));
    case None =>
      assert Fill(data', p.1) == Fill(data, chunks);
      FillConserves(data', p.1);
  }

  lemma SplitBefore(s: seq<byte>, k: nat, t: seq<byte>)
    requires k <= |s|
    ensures s + t == s[..k] + s[k..] + t
  {
    assert s == s[..k] + s[k..];
  }

  /** The buffer never outgrows its capacity; after a read error it is exactly that size. */
  lemma {:induction false} ReadLineBounded(buffer: seq<byte>, chunks: seq<Chunk>)
    requires |buffer| <= BufferSize
    ensures var o := ReadLineSpec(buffer, chunks);
      && (o.Line? ==> |o.frame| + |o.buffer| <= BufferSize)
      && (o.Failed? ==> |o.buffer| == BufferSize)
  {
    if FindCrlf(buffer).None? {
      FillBounded(buffer, chunks);
    }
  }

  lemma {:induction false} FillBounded(data: seq<byte>, chunks: seq<Chunk>)
    requires |data| <= BufferSize
    ensures var o := Fill(data, chunks);
      && (o.Line? ==> |o.frame| + |o.buffer| <= BufferSize)
      && (o.Failed? ==> |o.buffer| == BufferSize)
    decreases BufferSize - |data|, |chunks|
  {
    var p := Receive(chunks, BufferSize - |data|);
    if p.0.ReadOk? && !(p.0.bytes == [] && p.1 == chunks) && FindCrlf(p.0.bytes).None? {
      FillBounded(data + p.0.bytes, p.1);
    }
  }

  /**
   * With a CR LF already buffered no read is issued: the frame runs to the first CR LF,
   * holds no earlier one, and the rest stays buffered.
   */
  lemma BufferedLine(buffer: seq<byte>, chunks: seq<Chunk>)
    requires |buffer| <= BufferSize && HasCrlf(buffer)
    ensures var o := ReadLineSpec(buffer, chunks);
      && o.Line? && o.chunks == chunks && o.frame + o.buffer == buffer
      && |o.frame| >= 2 && IsCrlfAt(o.frame, |o.frame| - 2) && !HasCrlf(o.frame[..|o.frame| - 1])
  {
    FindCrlfSpec(buffer);
    var i := FindCrlf(buffer).value;
    assert buffer[..i + 2] + buffer[i + 2..] == buffer;
    FirstFrame(buffer, i);
  }

  /** A frame holding exactly one line: it ends with CR LF and holds no earlier one. */
  predicate OneLine(f: seq<byte>)
  {
    |f| >= 2 && IsCrlfAt(f, |f| - 2) && !HasCrlf(f[..|f| - 1])
  }

  /** The bytes up to a CR LF with none before it hold one line. */
  lemma FrameAt(s: seq<byte>, k: nat)
    requires IsCrlfAt(s, k) && forall j | 0 <= j < k :: !IsCrlfAt(s, j)
    ensures OneLine(s[..k + 2])
  {
    var f := s[..k + 2];
    var g := f[..|f| - 1];
    forall j | 0 <= j < |g| ensures !IsCrlfAt(g, j) {
      if j + 1 < |g| {
        assert g[j] == s[j] && g[j + 1] == s[j + 1];
        assert !IsCrlfAt(s, j);
      }
    }
  }

  /** The bytes up to the first CR LF hold no other. */
  lemma FirstFrame(s: seq<byte>, i: nat)
    requires FindCrlf(s) == Some(i)
    ensures i + 2 <= |s| && OneLine(s[..i + 2])
  {
    FindCrlfSpec(s);
    FrameAt(s, i);
  }

  /** A read error with no frame buffered ends the call without a frame. */
  lemma FaultFails(buffer: seq<byte>, chunks: seq<Chunk>)
    requires |buffer| <= BufferSize && !HasCrlf(buffer) && chunks != [] && chunks[0] == Fault
    ensures ReadLineSpec(buffer, chunks) == Failed(buffer + Zeros(BufferSize - |buffer|), chunks[1..])
  {
    FindCrlfSpec(buffer);
  }

  /** At the end of the stream, with no frame buffered, the read loop never ends. */
  lemma EndOfStreamHangs(buffer: seq<byte>)
    requires |buffer| <= BufferSize && !HasCrlf(buffer)
    ensures ReadLineSpec(buffer, []) == Hangs
  {
    FindCrlfSpec(buffer);
  }

  /** A full buffer without CR LF leaves no room to read into: the loop never ends either. */
  lemma FullBufferHangs(buffer: seq<byte>, chunks: seq<Chunk>)
    requires |buffer| == BufferSize && !HasCrlf(buffer) && chunks != [] && chunks[0].Data? && chunks[0].bytes != []
    ensures ReadLineSpec(buffer, chunks) == Hangs
  {
    FindCrlfSpec(buffer);
    assert [Data(chunks[0].bytes[0..])] + chunks[1..] == chunks;
  }

  /** The first CR LF of a line written after a payload without one is its terminator. */
  lemma FirstCrlf(line: seq<byte>, after: seq<byte>)
    requires !HasCrlf(line)
    ensures FindCrlf(line + CRLF + after) == Some(|line|)
  {
    var s := line + CRLF + after;
    FindCrlfSpec(s);
    assert IsCrlfAt(s, |line|);
    var i := FindCrlf(s).value;
    assert i <= |line|;
    forall j | 0 <= j < |line| ensures !IsCrlfAt(s, j) {
      if j + 1 < |line| {
        assert s[j] == line[j] && s[j + 1] == line[j + 1] && !IsCrlfAt(line, j);
      } else {
        assert s[j + 1] == CR;
      }
    }
  }

  /**
   * A payload without CR LF, written with its terminator and read in one read from an
   * empty buffer, comes back as one frame; the bytes after it stay buffered.
   */
  lemma LineRoundTrip(line: seq<byte>, after: seq<byte>, chunks: seq<Chunk>)
    requires !HasCrlf(line) && |line| + 2 + |after| <= BufferSize
    ensures ReadLineSpec([], [Data(line + CRLF + after)] + chunks) == Line(line + CRLF, after, chunks)
  {
    var s := line + CRLF + after;
    FirstCrlf(line, after);
    assert ([Data(s)] + chunks)[1..] == chunks;
    assert s[..|line| + 2] == line + CRLF && s[|line| + 2..] == after;
  }

  /** The same payload already buffered is handed out without reading. */
  lemma BufferedRoundTrip(line: seq<byte>, after: seq<byte>, chunks: seq<Chunk>)
    requires !HasCrlf(line) && |line| + 2 + |after| <= BufferSize
    ensures ReadLineSpec(line + CRLF + after, chunks) == Line(line + CRLF, after, chunks)
  {
    var s := line + CRLF + after;
    FirstCrlf(line, after);
    assert s[..|line| + 2] == line + CRLF && s[|line| + 2..] == after;
  }

  /** No CR, no CR LF. */
  lemma NoCrNoCrlf(s: seq<byte>)
    requires forall i | 0 <= i < |s| :: s[i] != CR
    ensures !HasCrlf(s)
  {
  }

  // ---------------------------------------------------------------------------
  // The unit test of read_line
  // ---------------------------------------------------------------------------

  const LineOne: seq<byte> := "line-one"
  const LineTwo: seq<byte> := "line-two"
  const LineThree: seq<byte> := "line-three"

  /** The three lines of the test, each with its terminator, as the test's reader delivers them. */
  const AfterTwo: seq<byte> := LineThree + CRLF
  const AfterOne: seq<byte> := LineTwo + CRLF + AfterTwo
  const ReadScript: seq<byte> := LineOne + CRLF + AfterOne

  lemma TestLinesHoldNoCrlf()
    ensures !HasCrlf(LineOne) && !HasCrlf(LineTwo) && !HasCrlf(LineThree)
  {
    NoCrNoCrlf(LineOne);
    NoCrNoCrlf(LineTwo);
    NoCrNoCrlf(LineThree);
  }

  /** A framer over the test's reader hands out the three lines in order. */
  method ReadLineTest() returns (first: Option<seq<byte>>, second: Option<seq<byte>>, third: Option<seq<byte>>)
    ensures first == Some(LineOne + CRLF) && second == Some(LineTwo + CRLF) && third == Some(LineThree + CRLF)
  {
    TestLinesHoldNoCrlf();
    LineRoundTrip(LineOne, AfterOne, []);
    BufferedRoundTrip(LineTwo, AfterTwo, []);
    BufferedRoundTrip(LineThree, [], []);
    assert [Data(ReadScript)] + [] == [Data(ReadScript)];
    assert LineThree + CRLF + [] == AfterTwo;
    var source := new Source([Data(ReadScript)]);
    var parser := new StreamParser(source);
    first := parser.ReadLine();
    second := parser.ReadLine();
    third := parser.ReadLine();
  }

  // ---------------------------------------------------------------------------
  // The line writer
  // ---------------------------------------------------------------------------

  /**
   * What the writer's sink has accepted so far, and the script of its coming `write_all`
   * calls: `true` for a call that fails. Calls past the end of the script succeed.
   */
  datatype SinkState = SinkState(written: seq<byte>, faults: seq<bool>)

  /** Whether the call `n` places from now fails. */
  predicate FailsAt(faults: seq<bool>, n: nat)
  {
    n < |faults| && faults[n]
  }

  /** One `write_all`: all the bytes are accepted, or the call fails and none are. */
  function WriteAllSpec(s: SinkState, bytes: seq<byte>): (r: (bool, SinkState))
    ensures r.0 <==> !FailsAt(s.faults, 0)
    ensures r.1.written == if r.0 then s.written + bytes else s.written
    ensures r.1.faults == if s.faults == [] then [] else s.faults[1..]
  {
    var rest := if s.faults == [] then [] else s.faults[1..];
    if FailsAt(s.faults, 0) then (false, SinkState(s.written, rest))
    else (true, SinkState(s.written + bytes, rest))
  }

  /** `write_line`: the payload, then CR LF, the second call made only when the first succeeds. */
  function WriteLineSpec(s: SinkState, data: seq<byte>): (bool, SinkState)
  {
    var first := WriteAllSpec(s, data);
    if !first.0 then first else WriteAllSpec(first.1, CRLF)
  }

  /** The writer the line writer borrows. */
  class Sink {
    var written: seq<byte>
    var faults: seq<bool>

    constructor (faults: seq<bool>)
      ensures written == [] && this.faults == faults
    {
      written := [];
      this.faults := faults;
    }

    function State(): SinkState
      reads this
    {
      SinkState(written, faults)
    }

    method WriteAll(bytes: seq<byte>) returns (ok: bool)
      modifies this
      ensures (ok, State()) == WriteAllSpec(old(State()), bytes)
    {
      var next := WriteAllSpec(State(), bytes);
      ok := next.0;
      written := next.1.written;
      faults := next.1.faults;
    }
  }

  class StreamWriter {
    const stream: Sink

    constructor (stream: Sink)
      ensures this.stream == stream
    {
      this.stream := stream;
    }

    /** Writes the payload and then CR LF; true when both writes succeed. */
    method WriteLine(data: seq<byte>) returns (ok: bool)
      modifies stream
      ensures (ok, stream.State()) == WriteLineSpec(old(stream.State()), data)
    {
      ok := stream.WriteAll(data);
      if ok {
        ok := stream.WriteAll(CRLF);
      }
    }
  }

  /** A line is written exactly when neither of the next two calls fails, and then whole. */
  lemma WriteLineSucceeds(s: SinkState, data: seq<byte>)
    ensures var r := WriteLineSpec(s, data);
      && (r.0 <==> !FailsAt(s.faults, 0) && !FailsAt(s.faults, 1))
      && (r.0 ==> r.1.written == s.written + data + CRLF)
  {
    if s.faults != [] {
      assert FailsAt(s.faults, 1) <==> FailsAt(s.faults[1..], 0);
    }
  }

  /** A sink with no failures scripted takes every line whole. */
  lemma CleanWrite(s: SinkState, data: seq<byte>)
    requires s.faults == []
    ensures WriteLineSpec(s, data) == (true, SinkState(s.written + data + CRLF, []))
  {
  }

  /** When the payload cannot be written, CR LF is not attempted: one call of the script is used. */
  lemma PayloadFaultSkipsTerminator(s: SinkState, data: seq<byte>)
    requires FailsAt(s.faults, 0)
    ensures WriteLineSpec(s, data) == (false, SinkState(s.written, s.faults[1..]))
  {
  }

  /**
   * When only the terminator cannot be written, the payload has gone out without it: the
   * sink holds an unterminated line.
   */
  lemma TerminatorFaultLeavesPayload(s: SinkState, data: seq<byte>)
    requires !FailsAt(s.faults, 0) && FailsAt(s.faults, 1)
    ensures WriteLineSpec(s, data) == (false, SinkState(s.written + data, s.faults[2..]))
  {
    assert s.faults[1..][1..] == s.faults[2..];
    assert FailsAt(s.faults[1..], 0);
  }

  /**
   * What the writer writes the framer reads back: a payload without CR LF written to an
   * empty sink comes back as one frame.
   */
  lemma WrittenLineReadsBack(data: seq<byte>, faults: seq<bool>, chunks: seq<Chunk>)
    requires !HasCrlf(data) && |data| + 2 <= BufferSize && WriteLineSpec(SinkState([], faults), data).0
    ensures var w := WriteLineSpec(SinkState([], faults), data).1.written;
      ReadLineSpec([], [Data(w)] + chunks) == Line(w, [], chunks)
  {
    var w := WriteLineSpec(SinkState([], faults), data).1.written;
    WriteLineSucceeds(SinkState([], faults), data);
    assert w == data + CRLF + [];
    LineRoundTrip(data, [], chunks);
    assert data + CRLF + [] == data + CRLF;
  }

  /** A writer over a sink that never fails writes three lines in turn, each terminated. */
  method WriteThreeLines(a: seq<byte>, b: seq<byte>, c: seq<byte>)
    returns (first: bool, second: bool, third: bool, written: seq<byte>)
    ensures first && second && third
    ensures written == a + CRLF + b + CRLF + c + CRLF
  {
    var sink := new Sink([]);
    var writer := new StreamWriter(sink);
    CleanWrite(SinkState([], []), a);
    first := writer.WriteLine(a);
    assert [] + a + CRLF == a + CRLF;
    assert first && sink.written == a + CRLF && sink.faults == [];
    CleanWrite(sink.State(), b);
    second := writer.WriteLine(b);
    assert second && sink.written == a + CRLF + b + CRLF && sink.faults == [];
    CleanWrite(sink.State(), c);
    third := writer.WriteLine(c);
    written := sink.written;
  }

  /** The writer test: the three test lines go out whole, in order. */
  method WriteLineTest() returns (first: bool, second: bool, third: bool, written: seq<byte>)
    ensures first && second && third
    ensures written == LineOne + CRLF + LineTwo + CRLF + LineThree + CRLF
  {
    first, second, third, written := WriteThreeLines(LineOne, LineTwo, LineThree);
  }

  // ---------------------------------------------------------------------------
  // A CR LF split across two reads
  // ---------------------------------------------------------------------------

  /**
   * Where the corrected search after a read into the buffer at `readCount` starts: at the
   * last byte held before the read, so that a CR ending one read and the LF starting the
   * next are found together.
   */
  function SearchStart(readCount: nat): nat
  {
    if readCount > 0 then readCount - 1 else 0
  }

  /**
   * The read loop with the search corrected: after each read it covers the bytes that read
   * brought and the last byte held before them.
   */
  function FillCorrected(data: seq<byte>, chunks: seq<Chunk>): Outcome
    requires |data| <= BufferSize
    decreases BufferSize - |data|, |chunks|
  {
    var p := Receive(chunks, BufferSize - |data|);
    if p.0.ReadErr? then Failed(data + Zeros(BufferSize - |data|), p.1)
    else if p.0.bytes == [] && p.1 == chunks then Hangs
    else
      var data' := data + p.0.bytes;
      var from := SearchStart(|data|);
      match FindCrlf(data'[from..])
      case Some(i) => Line(data'[..from + i + 2], data'[from + i + 2..], p.1)
      case None => FillCorrected(data', p.1)
  }

  /** `read_line` with the corrected search, the bytes buffered being searched first. */
  function ReadLineCorrected(buffer: seq<byte>, chunks: seq<Chunk>): Outcome
    requires |buffer| <= BufferSize
  {
    match FindCrlf(buffer)
    case Some(i) => Line(buffer[..i + 2], buffer[i + 2..], chunks)
    case None => FillCorrected(buffer, chunks)
  }

  /**
   * As written, two reads whose first holds no CR LF and whose second ends with one come
   * out as a single frame: the bytes of both.
   */
  lemma TwoReadsSplitMissed(a: seq<byte>, b: seq<byte>)
    requires 0 < |a| && |a| + |b| <= BufferSize && FindCrlf(a) == None && FindCrlf(b) == Some(|b| - 2)
    ensures ReadLineSpec([], [Data(a), Data(b)]) == Line(a + b, [], [])
  {
    var chunks := [Data(a), Data(b)];
    assert chunks[1..] == [Data(b)] && [Data(b)][1..] == [];
    assert Receive(chunks, BufferSize) == (ReadOk(a), [Data(b)]);
    assert [] + a == a;
    assert Fill([], chunks) == Fill(a, [Data(b)]);
    assert Receive([Data(b)], BufferSize - |a|) == (ReadOk(b), []);
    var data' := a + b;
    assert Fill(a, [Data(b)]) == Line(data'[..|data'|], data'[|data'|..], []);
    assert data'[..|data'|] == data' && data'[|data'|..] == [];
  }

  /**
   * With the corrected search, when the first of two reads ends with CR and the second
   * starts with LF, the frame ends at that LF and the rest of the second read stays buffered.
   */
  lemma TwoReadsSplitFound(a: seq<byte>, b: seq<byte>)
    requires 0 < |a| && 0 < |b| && |a| + |b| <= BufferSize && FindCrlf(a) == None
    requires a[|a| - 1] == CR && b[0] == LF
    ensures ReadLineCorrected([], [Data(a), Data(b)]) == Line(a + b[..1], b[1..], [])
  {
    var chunks := [Data(a), Data(b)];
    assert chunks[1..] == [Data(b)] && [Data(b)][1..] == [];
    assert Receive(chunks, BufferSize) == (ReadOk(a), [Data(b)]);
    assert [] + a == a && a[0..] == a;
    assert FillCorrected([], chunks) == FillCorrected(a, [Data(b)]);
    assert Receive([Data(b)], BufferSize - |a|) == (ReadOk(b), []);
    SplitAcross(a, b);
  }

  /**
   * The second read of `TwoReadsSplitFound`: searched from the CR that ends `a`, the bytes
   * held start with CR LF, so the frame is `a` and the first byte of `b`.
   */
  lemma SplitAcross(a: seq<byte>, b: seq<byte>)
    requires 0 < |a| && 0 < |b| && |a| + |b| <= BufferSize
    requires a[|a| - 1] == CR && b[0] == LF
    requires Receive([Data(b)], BufferSize - |a|) == (ReadOk(b), [])
    ensures FillCorrected(a, [Data(b)]) == Line(a + b[..1], b[1..], [])
  {
    JoinAt(a, b);
    StartsWithCrlf((a + b)[|a| - 1..]);
    assert SearchStart(|a|) == |a| - 1;
  }

  /** Around the join of `a` and `b`: the bytes from the last of `a` on, and the cut after the first of `b`. */
  lemma JoinAt(a: seq<byte>, b: seq<byte>)
    requires 0 < |a| && 0 < |b|
    ensures var t := (a + b)[|a| - 1..]; |t| >= 2 && t[0] == a[|a| - 1] && t[1] == b[0]
    ensures (a + b)[..|a| + 1] == a + b[..1] && (a + b)[|a| + 1..] == b[1..]
  {
    assert (a + b)[..|a| + 1] == a + b[..1] by {
      assert (a + b)[..|a| + 1][|a|] == b[0];
    }
  }

  /** A search of bytes that start with CR LF finds it at once. */
  lemma StartsWithCrlf(s: seq<byte>)
    requires 2 <= |s| && s[0] == CR && s[1] == LF
    ensures FindCrlf(s) == Some(0)
  {
  }

  /** Two reads, the first ending in the CR of the first line's terminator. */
  const StraddleFirst: seq<byte> := "ab\r"
  const StraddleSecond: seq<byte> := "\ncd\r\n"

  /** The first read holds no CR LF; the second holds one, at its end. */
  lemma StraddleReads()
    ensures |StraddleFirst| == 3 && |StraddleSecond| == 5
    ensures FindCrlf(StraddleFirst) == None && FindCrlf(StraddleSecond) == Some(3)
    ensures StraddleFirst[2] == CR && StraddleSecond[0] == LF
  {
  }

  /**
   * As written, the split terminator is missed: both lines come out as one frame, which
   * holds a CR LF before its last one.
   */
  lemma StraddleMissed()
    ensures var o := ReadLineSpec([], [Data(StraddleFirst), Data(StraddleSecond)]);
      o == Line(StraddleFirst + StraddleSecond, [], []) && IsCrlfAt(o.frame, 2) && |o.frame| == 8
  {
    StraddleReads();
    TwoReadsSplitMissed(StraddleFirst, StraddleSecond);
    var f := StraddleFirst + StraddleSecond;
    assert f[2] == StraddleFirst[2] && f[3] == StraddleSecond[0];
  }

  /** With the corrected search, the first frame ends at the split terminator and the second line stays buffered. */
  lemma StraddleFound()
    ensures ReadLineCorrected([], [Data(StraddleFirst), Data(StraddleSecond)])
         == Line(StraddleFirst + StraddleSecond[..1], StraddleSecond[1..], [])
  {
    StraddleReads();
    TwoReadsSplitFound(StraddleFirst, StraddleSecond);
  }

  /** A line delivered one byte per read: "a", then CR, then LF. */
  const ByteReads: seq<Chunk> := [Data(['a']), Data([CR]), Data([LF])]

  /** The three reads of `ByteReads`, each of one byte, with what remains after each. */
  lemma ByteReadsReceived()
    ensures Receive(ByteReads, BufferSize) == (ReadOk(['a']), [Data([CR]), Data([LF])])
    ensures Receive([Data([CR]), Data([LF])], BufferSize - 1) == (ReadOk([CR]), [Data([LF])])
    ensures Receive([Data([LF])], BufferSize - 2) == (ReadOk([LF]), [])
  {
    assert ByteReads[1..] == [Data([CR]), Data([LF])];
    assert [Data([CR]), Data([LF])][1..] == [Data([LF])];
    assert [Data([LF])][1..] == [];
  }

  /**
   * As written, a line whose bytes arrive one per read is never framed: no single read
   * holds both CR and LF, and once the script is spent the loop reads zero bytes forever.
   */
  lemma ByteReadsMissed()
    ensures ReadLineSpec([], ByteReads) == Hangs
  {
    ByteReadsReceived();
    assert [] + ['a'] == ['a'];
    assert Fill([], ByteReads) == Fill(['a'], [Data([CR]), Data([LF])]);
    assert ['a'] + [CR] == ['a', CR];
    assert Fill(['a'], [Data([CR]), Data([LF])]) == Fill(['a', CR], [Data([LF])]);
    assert ['a', CR] + [LF] == ['a', CR, LF];
    assert Fill(['a', CR], [Data([LF])]) == Fill(['a', CR, LF], []);
  }

  /** With the corrected search the same reads frame the line, and nothing is left over. */
  lemma ByteReadsFound()
    ensures ReadLineCorrected([], ByteReads) == Line(['a', CR, LF], [], [])
  {
    ByteReadsReceived();
    var s: seq<byte> := ['a', CR, LF];
    assert [] + ['a'] == ['a'] && ['a'][0..] == ['a'];
    assert FillCorrected([], ByteReads) == FillCorrected(['a'], [Data([CR]), Data([LF])]);
    assert ['a'] + [CR] == ['a', CR] && ['a', CR][0..] == ['a', CR];
    assert FillCorrected(['a'], [Data([CR]), Data([LF])]) == FillCorrected(['a', CR], [Data([LF])]);
    assert ['a', CR] + [LF] == s;
    StartsWithCrlf(s[1..]);
    assert s[..3] == s && s[3..] == [];
  }

  /**
   * With the corrected search, every frame holds exactly one CR LF, at its end: the bytes
   * before the terminator's LF hold none.
   */
  lemma {:induction false} CorrectedFrameHoldsOneLine(buffer: seq<byte>, chunks: seq<Chunk>)
    requires |buffer| <= BufferSize && ReadLineCorrected(buffer, chunks).Line?
    ensures OneLine(ReadLineCorrected(buffer, chunks).frame)
  {
    match FindCrlf(buffer)
    case Some(i) =>
      assert ReadLineCorrected(buffer, chunks).frame == buffer[..i + 2];
      FirstFrame(buffer, i);
    case None =>
      assert ReadLineCorrected(buffer, chunks) == FillCorrected(buffer, chunks);
      NoCrlfFound(buffer);
      FillCorrectedOneLine(buffer, chunks);
  }

  /** A search that finds nothing means there is no CR LF. */
  lemma NoCrlfFound(s: seq<byte>)
    requires FindCrlf(s).None?
    ensures !HasCrlf(s)
  {
    FindCrlfSpec(s);
  }

  lemma {:induction false} FillCorrectedOneLine(data: seq<byte>, chunks: seq<Chunk>)
    requires |data| <= BufferSize && !HasCrlf(data) && FillCorrected(data, chunks).Line?
    ensures OneLine(FillCorrected(data, chunks).frame)
    decreases BufferSize - |data|, |chunks|
  {
    var p := Receive(chunks, BufferSize - |data|);
    var from := SearchStart(|data|);
    var data' := data + p.0.bytes;
    assert p.0.ReadOk? && !(p.0.bytes == [] && p.1 == chunks);
    match FindCrlf(data'[from..])
    case Some(i) =>
      assert FillCorrected(data, chunks).frame == data'[..from + i + 2];
      SearchFromLastFinds(data, p.0.bytes, from, i);
    case None =>
      assert FillCorrected(data, chunks) == FillCorrected(data', p.1);
      SearchFromLastMisses(data, p.0.bytes, from);
      FillCorrectedOneLine(data', p.1);
      assert OneLine(FillCorrected(data', p.1).frame);
  }

  /** With the corrected search, too, nothing is lost or duplicated. */
  lemma {:induction false} ReadLineCorrectedConserves(buffer: seq<byte>, chunks: seq<Chunk>)
    requires |buffer| <= BufferSize && ReadLineCorrected(buffer, chunks).Line?
    ensures var o := ReadLineCorrected(buffer, chunks);
      buffer + Flatten(chunks) == o.frame + o.buffer + Flatten(o.chunks)
  {
    if FindCrlf(buffer).None? {
      FillCorrectedConserves(buffer, chunks);
    } else {
      var i := FindCrlf(buffer).value;
      assert buffer == buffer[..i + 2] + buffer[i + 2..];
    }
  }

  lemma {:induction false} FillCorrectedConserves(data: seq<byte>, chunks: seq<Chunk>)
    requires |data| <= BufferSize && FillCorrected(data, chunks).Line?
    ensures var o := FillCorrected(data, chunks); data + Flatten(chunks) == o.frame + o.buffer + Flatten(o.chunks)
    decreases BufferSize - |data|, |chunks|
  {
    var p := Receive(chunks, BufferSize - |data|);
    assert p.0.ReadOk? && !(p.0.bytes == [] && p.1 == chunks);
    ReceiveConserves(chunks, BufferSize - |data|);
    var data' := data + p.0.bytes;
    var from := SearchStart(|data|);
    Assoc(data, p.0.bytes, Flatten(p.1));
    match FindCrlf(data'[from..])
    case Some(i) =>
      var k := from + i + 2;
      assert FillCorrected(data, chunks) == Line(data'[..k], data'[k..], p.1);
      SplitBefore(data', k, Flatten(p.1));
    case None =>
      assert FillCorrected(data', p.1) == FillCorrected(data, chunks);
      FillCorrectedConserves(data', p.1);
  }

  /** With the corrected search, too, the buffer never outgrows its capacity. */
  lemma {:induction false} ReadLineCorrectedBounded(buffer: seq<byte>, chunks: seq<Chunk>)
    requires |buffer| <= BufferSize
    ensures var o := ReadLineCorrected(buffer, chunks);
      && (o.Line? ==> |o.frame| + |o.buffer| <= BufferSize)
      && (o.Failed? ==> |o.buffer| == BufferSize)
  {
    if FindCrlf(buffer).None? {
      FillCorrectedBounded(buffer, chunks);
    }
  }

  lemma {:induction false} FillCorrectedBounded(data: seq<byte>, chunks: seq<Chunk>)
    requires |data| <= BufferSize
    ensures var o := FillCorrected(data, chunks);
      && (o.Line? ==> |o.frame| + |o.buffer| <= BufferSize)
      && (o.Failed? ==> |o.buffer| == BufferSize)
    decreases BufferSize - |data|, |chunks|
  {
    var p := Receive(chunks, BufferSize - |data|);
    if p.0.ReadOk? && !(p.0.bytes == [] && p.1 == chunks) && FindCrlf((data + p.0.bytes)[SearchStart(|data|)..]).None? {
      FillCorrectedBounded(data + p.0.bytes, p.1);
    }
  }

  /**
   * Searching the bytes held plus a read from the last byte held on, the first CR LF found
   * ends a frame with no earlier CR LF.
   */
  lemma SearchFromLastFinds(data: seq<byte>, bytes: seq<byte>, from: nat, i: nat)
    requires !HasCrlf(data) && from == SearchStart(|data|)
    requires FindCrlf((data + bytes)[from..]) == Some(i)
    ensures from + i + 2 <= |data + bytes| && OneLine((data + bytes)[..from + i + 2])
  {
    var data' := data + bytes;
    assert IsCrlfAt(data'[from..], i) && forall j | 0 <= j < i :: !IsCrlfAt(data'[from..], j) by {
      FindCrlfSpec(data'[from..]);
    }
    CrlfFoundAt(data', from, i);
    NoCrlfBefore(data, bytes, from, i);
    FrameAt(data', from + i);
  }

  /** No CR LF of the bytes held, nor of the search from `from` before `i`, starts a frame early. */
  lemma NoCrlfBefore(data: seq<byte>, bytes: seq<byte>, from: nat, i: nat)
    requires !HasCrlf(data) && from == SearchStart(|data|) && from + i <= |data + bytes|
    requires forall j | 0 <= j < i :: !IsCrlfAt((data + bytes)[from..], j)
    ensures forall j | 0 <= j < from + i :: !IsCrlfAt(data + bytes, j)
  {
    forall j | 0 <= j < from + i ensures !IsCrlfAt(data + bytes, j) {
      if j < from {
        CrlfInPrefix(data, bytes, j);
      } else {
        CrlfInSuffix(data + bytes, from, j);
      }
    }
  }

  /** When that search finds nothing, the bytes held plus the read hold no CR LF. */
  lemma SearchFromLastMisses(data: seq<byte>, bytes: seq<byte>, from: nat)
    requires !HasCrlf(data) && from == SearchStart(|data|)
    requires FindCrlf((data + bytes)[from..]).None?
    ensures !HasCrlf(data + bytes)
  {
    var data' := data + bytes;
    FindCrlfSpec(data'[from..]);
    forall j | 0 <= j < |data'| ensures !IsCrlfAt(data', j) {
      if j < from {
        CrlfInPrefix(data, bytes, j);
      } else {
        CrlfInSuffix(data', from, j);
      }
    }
  }

  /** A CR LF starting before the last byte of `a` is one of `a`. */
  lemma CrlfInPrefix(a: seq<byte>, b: seq<byte>, j: nat)
    requires j + 1 < |a|
    ensures IsCrlfAt(a + b, j) == IsCrlfAt(a, j)
  {
  }

  /** A CR LF found `i` bytes into the search from `from` sits at `from + i`. */
  lemma CrlfFoundAt(s: seq<byte>, from: nat, i: nat)
    requires from <= |s| && IsCrlfAt(s[from..], i)
    ensures IsCrlfAt(s, from + i)
  {
    assert s[from..][i] == s[from + i] && s[from..][i + 1] == s[from + i + 1];
  }

  /** A CR LF at or after `from` is one of the bytes from `from` on. */
  lemma CrlfInSuffix(s: seq<byte>, from: nat, j: nat)
    requires from <= j && from <= |s|
    ensures IsCrlfAt(s, j) == IsCrlfAt(s[from..], j - from)
  {
  }
}
