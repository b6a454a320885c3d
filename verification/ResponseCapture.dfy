/** Observed HTTP exchanges: the response stream, the transport and what the capture records. */
module ResponseCapture {
  import opened Text
  import opened EntityDecoder

  // ----- the log store's view of one exchange -----

  datatype Final = Eof | ReadError | TransportError | ConsumerClosed | Cancelled

  /** The metadata that `finish` writes. */
  datatype Record = Record(state: Final, complete: bool)

  /** How a disk write ends: stored, or an exception after some bytes were written. */
  datatype Write = Stored | Failed(written: nat)

  /** Writing nothing never fails: the store does not touch the disk then. */
  predicate Lands(content: Bytes, write: Write) {
    content == [] || write.Stored?
  }

  class Capture {
    var error: bool
    var finished: bool
    var body: Bytes
    var record: Option<Record>
    /** How often the observer asked the store to finish this capture. */
    ghost var finishCalls: nat

    constructor ()
      ensures !error && !finished && body == [] && record.None? && finishCalls == 0
    {
      error, finished, body, record, finishCalls := false, false, [], None, 0;
    }

    /** Appends decoded response bytes; false is an exception of the store. */
    method Append(content: Bytes, write: Write) returns (ok: bool)
      modifies this`body
      ensures finished ==> ok && body == old(body)
      ensures !finished ==> ok == Lands(content, write)
      ensures !finished && ok ==> body == old(body) + content
      ensures !finished && !ok ==>
        body == old(body) + content[..if write.written <= |content| then write.written else |content|]
    {
      if finished || content == [] { return true; }
      match write
      case Stored => body := body + content; ok := true;
      case Failed(n) => body := body + content[..if n <= |content| then n else |content|]; ok := false;
    }

    /** The observer's finish: the state is recorded once; a failing write is only noted. */
    method Finish(state: Final, write: Write)
      modifies this
      ensures finishCalls == old(finishCalls) + 1 && body == old(body) && finished
      ensures old(finished) ==> record == old(record) && error == old(error)
      ensures !old(finished) ==>
        record == Some(Record(state, state == Eof && !old(error))) && error == (old(error) || write.Failed?)
    {
      finishCalls := finishCalls + 1;
      if finished { return; }
      finished := true;
      record := Some(Record(state, state == Eof && !error));
      if write.Failed? { error := true; }
    }
  }

  // ----- what the capture should hold -----

  /** All output the decoders give for these chunks, up to the first error, with the final flush. */
  function TrueDecoding<S>(ds: seq<Decoder<S>>, chunks: seq<Bytes>): Bytes
    decreases |chunks|
  {
    if chunks == [] then
      var last := FinishChain(ds, []);
      if last.None? then [] else last.value
    else
      var fed := FeedChain(ds, chunks[0]);
      if fed.None? then [] else fed.value.1 + TrueDecoding(fed.value.0, chunks[1..])
  }

  lemma {:induction false} TrueDecodingOfRun<S>(ds: seq<Decoder<S>>, chunks: seq<Bytes>)
    requires Run(ds, chunks).Some?
    ensures Run(ds, chunks).value == TrueDecoding(ds, chunks)
    decreases |chunks|
  {
    if chunks != [] {
      TrueDecodingOfRun(FeedChain(ds, chunks[0]).value.0, chunks[1..]);
    }
  }

  /** The captured bytes plus what the remaining chunks would add are the decoding of all chunks. */
  ghost predicate OnTrack<S>(initial: seq<Decoder<S>>, all: seq<Bytes>, body: Bytes, now: seq<Decoder<S>>,
    left: seq<Bytes>)
  {
    TrueDecoding(initial, all) == body + TrueDecoding(now, left)
    && Run(initial, all) == (if Run(now, left).None? then None else Some(body + Run(now, left).value))
  }

  lemma OnTrackStart<S>(ds: seq<Decoder<S>>, all: seq<Bytes>)
    ensures OnTrack(ds, all, [], ds, all)
  {
    assert [] + TrueDecoding(ds, all) == TrueDecoding(ds, all);
    if Run(ds, all).Some? { assert [] + Run(ds, all).value == Run(ds, all).value; }
  }

  lemma OnTrackFeed<S>(initial: seq<Decoder<S>>, all: seq<Bytes>, body: Bytes, now: seq<Decoder<S>>, left: seq<Bytes>)
    requires OnTrack(initial, all, body, now, left) && left != [] && FeedChain(now, left[0]).Some?
    ensures var fed := FeedChain(now, left[0]).value; OnTrack(initial, all, body + fed.1, fed.0, left[1..])
  {
    var (next, out) := FeedChain(now, left[0]).value;
    var more := TrueDecoding(next, left[1..]);
    assert body + (out + more) == (body + out) + more;
    var run := Run(next, left[1..]);
    if run.Some? { assert body + (out + run.value) == (body + out) + run.value; }
  }

  lemma OnTrackFails<S>(initial: seq<Decoder<S>>, all: seq<Bytes>, body: Bytes, now: seq<Decoder<S>>, left: seq<Bytes>)
    requires OnTrack(initial, all, body, now, left)
    requires if left != [] then FeedChain(now, left[0]).None? else FinishChain(now, []).None?
    ensures Run(initial, all).None?
  {
  }

  lemma OnTrackFinish<S>(initial: seq<Decoder<S>>, all: seq<Bytes>, body: Bytes, now: seq<Decoder<S>>)
    requires OnTrack(initial, all, body, now, []) && FinishChain(now, []).Some?
    ensures TrueDecoding(initial, all) == body + FinishChain(now, []).value
    ensures Run(initial, all) == Some(body + FinishChain(now, []).value)
  {
  }

  lemma OnTrackBounds<S>(initial: seq<Decoder<S>>, all: seq<Bytes>, body: Bytes, now: seq<Decoder<S>>, left: seq<Bytes>)
    requires OnTrack(initial, all, body, now, left)
    ensures body <= TrueDecoding(initial, all)
  {
  }

  lemma PrefixesOf(a: Bytes, b: Bytes, whole: Bytes)
    requires a + b <= whole
    ensures forall n: nat :: n <= |b| ==> a + b[..n] <= whole
  {
    forall n: nat | n <= |b| ensures a + b[..n] <= whole {
      assert a + b[..n] == (a + b)[..|a| + n];
    }
  }

  // ----- the response stream -----

  /** How the inner stream ends after its last chunk. */
  datatype Ending = EndOfStream | Raises

  datatype Phase = NotStarted | Suspended | Done

  /** What the consumer sees of one step: a chunk, the end, the inner error, or its own cancellation. */
  datatype Item = Chunk(bytes: Bytes) | Stop | InnerError | Cancelling

  /** What the surroundings do during one step. */
  datatype Event = Event(cancelRead: bool, write: Write, cancelWrite: bool, finishWrite: Write, cancelFinish: bool)

  /** Nothing is cancelled and every write is stored. */
  predicate Undisturbing(e: Event) {
    !e.cancelRead && !e.cancelWrite && !e.cancelFinish && e.write.Stored?
  }

  /** Awaiting a disk operation: it always completes; its exception wins over a cancellation. */
  function Interrupted(operationOk: bool, cancelled: bool): bool {
    operationOk && cancelled
  }

  /** What the unobserved stream gives at this position. */
  function Inner(chunks: seq<Bytes>, ending: Ending, position: nat): Item {
    if position < |chunks| then Chunk(chunks[position])
    else if ending == EndOfStream then Stop
    else InnerError
  }

  /**
   * The observed response stream with its generator. The synchronous stream takes the same steps
   * without cancellations.
   */
  class ResponseStream<S(!new)> {
    const chunks: seq<Bytes>
    const ending: Ending
    const capture: Capture?
    const decoder: EntityDecoder?<S>
    ghost const initial: seq<Decoder<S>>
    var finished: bool
    var phase: Phase
    var position: nat
    ghost var delivered: seq<Bytes>

    ghost predicate Valid()
      reads this, capture, decoder
    {
      position <= |chunks|
      && delivered <= chunks[..position]
      && (phase != Done ==> delivered == chunks[..position])
      && (capture != null ==>
          capture.finished == finished && capture.finishCalls == (if finished then 1 else 0)
          && capture.record.Some? == finished
          && (capture.record.Some? && capture.record.value.state == Eof ==>
               delivered == chunks && ending == EndOfStream)
          && (capture.record.Some? && capture.record.value.complete ==>
              decoder != null && capture.record.value.state == Eof && Run(initial, chunks) == Some(capture.body))
          && (decoder == null ==> capture.error && capture.body == [])
          && capture.body <= TrueDecoding(initial, chunks)
          && (decoder != null && phase != Done && !capture.error && !finished ==>
              OnTrack(initial, chunks, capture.body, decoder.decoders, chunks[position..])))
    }

    /** A stream as the transport builds it: without a usable decoder the capture is already in error. */
    constructor (chunks: seq<Bytes>, ending: Ending, capture: Capture?, decoder: EntityDecoder?<S>)
      requires capture != null ==>
        !capture.finished && capture.finishCalls == 0 && capture.record.None? && capture.body == []
      requires capture != null && decoder == null ==> capture.error
      ensures Valid() && !finished && phase == NotStarted && delivered == []
      ensures this.chunks == chunks && this.ending == ending && this.capture == capture && this.decoder == decoder
      ensures decoder != null ==> initial == decoder.decoders
    {
      this.chunks, this.ending, this.capture, this.decoder := chunks, ending, capture, decoder;
      this.initial := if decoder == null then [] else decoder.decoders;
      finished, phase, position, delivered := false, NotStarted, 0, [];
      new;
      assert chunks[0..] == chunks && chunks[..0] == [];
      OnTrackStart(initial, chunks);
    }

    method FinishOnce(state: Final, write: Write)
      requires Valid()
      requires state == Eof ==> delivered == chunks && ending == EndOfStream
      requires state == Eof && !finished && capture != null && !capture.error ==>
        Run(initial, chunks) == Some(capture.body)
      modifies this`finished, capture
      ensures Valid() && finished
      ensures capture != null && old(capture.error) ==> capture.error
      ensures capture != null && !old(finished) ==>
        capture.record == Some(Record(state, state == Eof && !old(capture.error)))
      ensures old(finished) && capture != null ==> capture.record == old(capture.record)
      ensures capture != null ==> capture.body == old(capture.body)
    {
      if !finished {
        finished := true;
        if capture != null { capture.Finish(state, write); }
      }
    }

    /** Records one decoded piece; true when a cancellation arrived during the write. */
    method Store(content: Bytes, e: Event) returns (interrupted: bool)
      requires capture != null && !capture.error && capture.finished == finished
      modifies capture`body, capture`error
      ensures finished ==> capture.body == old(capture.body)
      ensures !finished && Lands(content, e.write) ==> capture.body == old(capture.body) + content
      ensures !finished && !Lands(content, e.write) ==>
        exists n: nat :: n <= |content| && capture.body == old(capture.body) + content[..n]
      ensures capture.error <==> !finished && !Lands(content, e.write)
      ensures interrupted <==> !capture.error && e.cancelWrite
    {
      var ok := capture.Append(content, e.write);
      interrupted := Interrupted(ok, e.cancelWrite);
      if !ok { capture.error := true; }
    }

    /** A decoded piece reaches the store without an exception. */
    predicate Recorded(e: Event, piece: Option<Bytes>)
      reads this, capture
    {
      capture != null && decoder != null && !capture.error && piece.Some? && (finished || Lands(piece.value, e.write))
    }

    /** The next chunk is decoded and recorded. */
    predicate RecordsChunk(e: Event)
      reads this, capture, decoder
    {
      decoder != null && position < |chunks|
      && (var fed := FeedChain(decoder.decoders, chunks[position]);
          Recorded(e, if fed.None? then None else Some(fed.value.1)))
    }

    /** The decoders' tail is flushed and recorded. */
    predicate RecordsTail(e: Event)
      reads this, capture, decoder
    {
      decoder != null && Recorded(e, FinishChain(decoder.decoders, []))
    }

    /** Resuming the generator once. */
    method Next(e: Event) returns (item: Item)
      requires Valid()
      modifies this`finished, this`phase, this`position, this`delivered, capture, decoder
      ensures Valid()
      ensures old(phase) == Done ==> item == Stop && delivered == old(delivered)
      ensures old(phase) != Done && !e.cancelRead && !e.cancelWrite && !e.cancelFinish ==>
        item == Inner(chunks, ending, old(position))
      ensures old(phase) != Done && e.cancelRead ==> item == Cancelling
      ensures (old(phase != Done && position == |chunks|) && !e.cancelRead && ending == Raises) ==>
        item == if e.cancelFinish then Cancelling else InnerError
      ensures item.Chunk? ==>
        delivered == old(delivered) + [item.bytes] && position == old(position) + 1 && phase == Suspended
      ensures !item.Chunk? ==> delivered == old(delivered) && phase == Done
      ensures phase == Done && old(phase) != Done ==> finished
      ensures old(finished) || item.Chunk? || old(phase) == Done ==> finished == old(finished)
      ensures phase == Done && old(phase) != Done && !old(finished) && capture != null ==>
        (var state := capture.record.value.state;
         if e.cancelRead || old(position) < |chunks| then state == Cancelled
         else if ending == Raises then state == ReadError
         else state == Eof || (state == Cancelled && e.cancelWrite))
      ensures capture != null && Undisturbing(e) && item.Chunk? && !old(finished) && capture.error ==>
        old(capture.error) || Run(initial, chunks).None?
      ensures old(phase) == Done && capture != null ==> unchanged(capture)
      ensures capture != null && old(capture.error) ==> capture.error
      ensures (old(capture != null && phase != Done && !finished && position == |chunks|)
               && ending == EndOfStream && Undisturbing(e)) ==>
        capture.record == Some(Record(Eof, decoder != null && !old(capture.error) && Run(initial, chunks).Some?))
    {
      if phase == Done { return Stop; }
      if e.cancelRead {
        phase := Done;
        FinishOnce(Cancelled, e.finishWrite);
        return Cancelling;
      }
      if position < |chunks| {
        item := ReadChunk(e);
      } else if ending == Raises {
        phase := Done;
        FinishOnce(ReadError, e.finishWrite);
        return if e.cancelFinish then Cancelling else InnerError;
      } else {
        item := AtEnd(e);
      }
    }

    /** Decodes and records the chunk at the current position; true when a cancellation arrived meanwhile. */
    method Observe(e: Event) returns (interrupted: bool)
      requires Valid() && phase != Done && position < |chunks|
      modifies capture, decoder
      ensures interrupted <==>
        e.cancelWrite && capture != null && decoder != null && !old(capture.error) && !capture.error
      ensures capture != null ==> unchanged(capture`finished, capture`finishCalls, capture`record)
      ensures capture != null ==>
        capture.body <= TrueDecoding(initial, chunks) && (finished ==> capture.body == old(capture.body))
      ensures capture != null && decoder == null ==> capture.error && capture.body == []
      ensures capture != null && old(capture.error) ==> capture.error && capture.body == old(capture.body)
      ensures capture != null && decoder != null && !old(capture.error) ==>
        var fed := FeedChain(old(decoder.decoders), chunks[position]);
        && (capture.error <==> fed.None? || (!finished && !Lands(fed.value.1, e.write)))
        && (fed.None? ==> capture.body == old(capture.body))
        && (!capture.error && !finished ==> capture.body == old(capture.body) + fed.value.1)
        && (fed.None? && !finished ==> Run(initial, chunks).None?)
      ensures capture != null && decoder != null && !capture.error && !finished ==>
        OnTrack(initial, chunks, capture.body, decoder.decoders, chunks[position + 1..])
    {
      hide OnTrack, TrueDecoding, Run;
      var chunk := chunks[position];
      assert chunks[position..][0] == chunk && chunks[position..][1..] == chunks[position + 1..];
      if capture == null || decoder == null || capture.error { return false; }
      ghost var before, body := decoder.decoders, capture.body;
      var fed := decoder.Feed(chunk);
      if fed.None? {
        if !finished { OnTrackFails(initial, chunks, body, before, chunks[position..]); }
        capture.error := true;
        return false;
      }
      interrupted := Store(fed.value, e);
      if !finished {
        OnTrackFeed(initial, chunks, body, before, chunks[position..]);
        OnTrackBounds(initial, chunks, body + fed.value, decoder.decoders, chunks[position + 1..]);
        PrefixesOf(body, fed.value, TrueDecoding(initial, chunks));
      }
    }

    method ReadChunk(e: Event) returns (item: Item)
      requires Valid() && phase != Done && position < |chunks|
      modifies this`finished, this`phase, this`position, this`delivered, capture, decoder
      ensures Valid()
      ensures item == if e.cancelWrite && old(RecordsChunk(e)) then Cancelling
        else Chunk(chunks[old(position)])
      ensures item.Chunk? ==>
        item.bytes == chunks[old(position)] && delivered == old(delivered) + [item.bytes]
          && position == old(position) + 1
        && phase == Suspended && finished == old(finished)
      ensures !item.Chunk? ==> delivered == old(delivered) && phase == Done && finished
      ensures !item.Chunk? && !old(finished) && capture != null ==> capture.record.value.state == Cancelled
      ensures capture != null && old(capture.error) ==> capture.error
      ensures capture != null && item.Chunk? && !old(finished) && e.write.Stored? && capture.error ==>
        old(capture.error) || Run(initial, chunks).None?
    {
      hide OnTrack, TrueDecoding, Run;
      var chunk := chunks[position];
      assert chunks[..position] + [chunk] == chunks[..position + 1];
      var interrupted := Observe(e);
      position := position + 1;
      if interrupted {
        phase := Done;
        FinishOnce(Cancelled, e.finishWrite);
        return Cancelling;
      }
      phase := Suspended;
      delivered := delivered + [chunk];
      return Chunk(chunk);
    }

    method AtEnd(e: Event) returns (item: Item)
      requires Valid() && phase != Done && position == |chunks| && ending == EndOfStream
      modifies this`finished, this`phase, capture
      ensures Valid() && phase == Done && finished
      ensures item == if e.cancelFinish || (e.cancelWrite && old(RecordsTail(e))) then Cancelling else Stop
      ensures capture != null && old(capture.error) ==> capture.error
      ensures capture != null && !old(finished) ==>
        (var tail := if decoder == null || old(capture.error) then None else FinishChain(decoder.decoders, []);
         capture.record.value.state
           == (if tail.Some? && Lands(tail.value, e.write) && e.cancelWrite then Cancelled else Eof)
         && (tail.Some? && Lands(tail.value, e.write) ==> capture.body == old(capture.body) + tail.value)
         && (e.write.Stored? && !e.cancelWrite ==>
               capture.record.value.complete
               == (decoder != null && !old(capture.error) && Run(initial, chunks).Some?))
         && (tail.None? ==> capture.body == old(capture.body)))
    {
      assert chunks[position..] == [] && chunks[..position] == chunks;
      var interrupted := false;
      phase := Done;
      if capture != null && decoder != null && !capture.error {
        ghost var body := capture.body;
        var tail := decoder.Finish();
        if tail.None? {
          if !finished { OnTrackFails(initial, chunks, body, decoder.decoders, []); }
          capture.error := true;
        } else {
          interrupted := Store(tail.value, e);
          if !finished {
            OnTrackFinish(initial, chunks, body, decoder.decoders);
            PrefixesOf(body, tail.value, TrueDecoding(initial, chunks));
          }
        }
      }
      FinishOnce(if interrupted then Cancelled else Eof, e.finishWrite);
      return if interrupted || e.cancelFinish then Cancelling else Stop;
    }

    /** Closing the generator: only a suspended one runs its handler. */
    method CloseGenerator(finishWrite: Write)
      requires Valid()
      modifies this`finished, this`phase, capture
      ensures Valid() && phase == Done
      ensures finished == (old(finished) || old(phase) == Suspended)
      ensures finished && !old(finished) && capture != null ==> capture.record.value.state == ConsumerClosed
    {
      if phase == Suspended {
        phase := Done;
        FinishOnce(ConsumerClosed, finishWrite);
      } else {
        phase := Done;
      }
    }

    /** Closing the stream finishes the capture even when the inner close raises. */
    method Close(finishWrite: Write)
      requires Valid()
      modifies this`finished, capture
      ensures Valid() && finished
      ensures old(finished) && capture != null ==> capture.record == old(capture.record)
      ensures !old(finished) && capture != null ==> capture.record.value.state == ConsumerClosed
    {
      FinishOnce(ConsumerClosed, finishWrite);
    }
  }

  // ----- the transport -----

  /** What the wrapped transport does with the request. */
  datatype Answer = Response(chunks: seq<Bytes>, ending: Ending, encoding: string) | Refused | Interrupt

  /** What the surroundings do while a request is sent; `requestError` is a failed request-body write. */
  datatype Sending = Sending(
    begins: bool, cancelBegin: bool,
    requestError: bool, cancelRequest: bool,
    answer: Answer,
    headersWritten: bool, cancelHeaders: bool,
    finishWrite: Write)

  /** The chain of the response's Content-Encoding; every failure leaves the capture in error and gives no decoder. */
  method Headers<S(!new)>(lib: Library<S>, capture: Capture?, encoding: string, alreadyDecoded: bool, written: bool)
    returns (decoder: EntityDecoder?<S>)
    modifies if capture == null then {} else {capture}
    ensures capture == null ==> decoder == null
    ensures capture != null ==> unchanged(capture`body, capture`finished, capture`record, capture`finishCalls)
    ensures capture != null && decoder == null ==> capture.error
    ensures capture != null && decoder != null ==> fresh(decoder) && capture.error == old(capture.error)
    ensures decoder != null <==> capture != null && written && DecodersFor(lib, encoding, alreadyDecoded).Some?
    ensures decoder != null ==> DecodersFor(lib, encoding, alreadyDecoded) == Some(decoder.decoders)
  {
    if capture == null { return null; }
    var decoders := BuildDecoders(lib, encoding, alreadyDecoded);
    if decoders.None? || !written {
      capture.error := true;
      return null;
    }
    decoder := new EntityDecoder<S>(decoders.value);
  }

  /**
   * Sends one request: the caller gets a stream whose capture is still open, or an error after the
   * capture, if one was begun, has been finished.
   */
  method HandleRequest<S(!new)>(lib: Library<S>, e: Sending, alreadyDecoded: bool)
    returns (stream: ResponseStream?<S>, capture: Capture?)
    ensures (capture != null) == e.begins
    ensures capture != null ==> fresh(capture)
    ensures stream != null ==>
      fresh(stream) && (stream.decoder != null ==> fresh(stream.decoder))
      && stream.Valid() && !stream.finished && stream.phase == NotStarted && stream.delivered == []
      && stream.capture == capture
      && e.answer.Response? && stream.chunks == e.answer.chunks && stream.ending == e.answer.ending
    ensures stream != null && stream.decoder != null ==>
      DecodersFor(lib, e.answer.encoding, alreadyDecoded) == Some(stream.initial)
    ensures stream != null && capture != null ==>
      (capture.error <==> e.requestError || stream.decoder == null)
      && (stream.decoder != null <==>
            e.headersWritten && DecodersFor(lib, e.answer.encoding, alreadyDecoded).Some?)
    ensures stream == null && capture != null ==>
      (var state := if e.answer.Refused? && !e.cancelBegin && !e.cancelRequest then TransportError else Cancelled;
       capture.finished && capture.finishCalls == 1 && capture.body == []
         && capture.record == Some(Record(state, false)))
    ensures stream == null <==> e.cancelBegin || e.cancelRequest || e.cancelHeaders || !e.answer.Response?
  {
    capture := null;
    if e.begins { capture := new Capture(); }
    var failed: Option<Final> := if e.cancelBegin then Some(Cancelled) else None;
    if failed.None? {
      if capture != null && e.requestError { capture.error := true; }
      if e.cancelRequest { failed := Some(Cancelled); }
    }
    if failed.None? {
      match e.answer
      case Refused => failed := Some(TransportError);
      case Interrupt => failed := Some(Cancelled);
      case Response(chunks, ending, encoding) =>
        var decoder := Headers(lib, capture, encoding, alreadyDecoded, e.headersWritten);
        if e.cancelHeaders {
          failed := Some(Cancelled);
        } else {
          stream := new ResponseStream<S>(chunks, ending, capture, decoder);
          return;
        }
    }
    if capture != null { capture.Finish(failed.value, e.finishWrite); }
    stream := null;
  }

  // ----- whole exchanges -----

  /** One action of the consumer of the response. */
  datatype Use = Resume(event: Event) | DropGenerator(write: Write) | CloseStream(write: Write)

  predicate Undisturbed(uses: seq<Use>) {
    forall u :: u in uses ==> u.Resume? && !u.event.cancelRead && !u.event.cancelWrite && !u.event.cancelFinish
  }

  /** Nothing disturbs the consumer, and every write to the store succeeds. */
  predicate Smooth(uses: seq<Use>) {
    forall u :: u in uses ==> u.Resume? && Undisturbing(u.event)
  }

  /** The first use that touches the generator: closing the stream does not. */
  function FirstTouch(uses: seq<Use>): Option<Use> {
    if uses == [] then None
    else
      var before := FirstTouch(uses[..|uses| - 1]);
      if before.Some? then before
      else if uses[|uses| - 1].CloseStream? then None
      else Some(uses[|uses| - 1])
  }

  /**
   * The consumer ends the response: it closes the stream, or it resumes the generator first and later
   * drops it or sees anything but a chunk (the end, an error, or its own cancellation).
   */
  predicate Ends(uses: seq<Use>, items: seq<Option<Item>>)
    requires |items| == |uses|
  {
    (exists k :: 0 <= k < |uses| && uses[k].CloseStream?)
    || (FirstTouch(uses).Some? && FirstTouch(uses).value.Resume?
        && exists k :: 0 <= k < |uses| && LeavesGenerator(uses[k], items[k]))
  }

  predicate LeavesGenerator(u: Use, item: Option<Item>) {
    u.DropGenerator? || (u.Resume? && item.Some? && !item.value.Chunk?)
  }

  lemma EndsSnoc(uses: seq<Use>, items: seq<Option<Item>>, u: Use, item: Option<Item>)
    requires |items| == |uses|
    ensures var first := FirstTouch(uses);
      FirstTouch(uses + [u]) == (if first.Some? then first else if u.CloseStream? then None else Some(u))
    ensures Ends(uses, items) ==> Ends(uses + [u], items + [item])
    ensures u.CloseStream? ==> Ends(uses + [u], items + [item])
    ensures FirstTouch(uses + [u]).Some? && FirstTouch(uses + [u]).value.Resume? && LeavesGenerator(u, item) ==>
      Ends(uses + [u], items + [item])
    ensures Ends(uses + [u], items + [item]) ==>
      Ends(uses, items) || u.CloseStream?
      || (FirstTouch(uses + [u]).Some? && FirstTouch(uses + [u]).value.Resume? && LeavesGenerator(u, item))
  {
    var more, seen := uses + [u], items + [item];
    assert more[..|uses|] == uses && more[|uses|] == u && seen[|uses|] == item;
    assert forall k :: 0 <= k < |uses| ==> more[k] == uses[k] && seen[k] == items[k];
    if FirstTouch(uses).None? { UntouchedLeavesNothing(uses, items); }
  }

  lemma {:induction false} UntouchedLeavesNothing(uses: seq<Use>, items: seq<Option<Item>>)
    requires |items| == |uses| && FirstTouch(uses).None?
    ensures forall k :: 0 <= k < |uses| ==> uses[k].CloseStream?
  {
    if uses != [] { UntouchedLeavesNothing(uses[..|uses| - 1], items[..|uses| - 1]); }
  }

  /** The chunks among the items the consumer saw. */
  function Received(items: seq<Option<Item>>): seq<Bytes> {
    if items == [] then []
    else
      var before, last := Received(items[..|items| - 1]), items[|items| - 1];
      if last.Some? && last.value.Chunk? then before + [last.value.bytes] else before
  }

  lemma ReceivedSnoc(items: seq<Option<Item>>, item: Option<Item>)
    ensures Received(items + [item]) ==
      if item.Some? && item.value.Chunk? then Received(items) + [item.value.bytes] else Received(items)
  {
    assert (items + [item])[..|items|] == items;
  }

  /**
   * Any use of the stream: the capture is finished exactly when the consumer ended the response. Without
   * cancellation the consumer gets the inner chunks in order, all of them once it resumes often enough,
   * whatever happens to the capture.
   */
  method Consume<S(!new)>(stream: ResponseStream<S>, uses: seq<Use>) returns (items: seq<Option<Item>>)
    requires stream.Valid() && stream.phase == NotStarted && stream.delivered == [] && !stream.finished
    modifies stream`finished, stream`phase, stream`position, stream`delivered, stream.capture, stream.decoder
    ensures stream.Valid() && |items| == |uses| && Received(items) == stream.delivered
    ensures stream.finished <==> Ends(uses, items)
    ensures Undisturbed(uses) ==>
      Received(items) == stream.chunks[..if |uses| <= |stream.chunks| then |uses| else |stream.chunks|]
    ensures Undisturbed(uses) && |uses| > |stream.chunks| ==> stream.finished
    ensures stream.capture != null && Smooth(uses) && |uses| > |stream.chunks| && stream.ending == EndOfStream ==>
      stream.capture.record == Some(Record(Eof,
        stream.decoder != null && !old(stream.capture.error) && Run(stream.initial, stream.chunks).Some?))
  {
    hide Ends, FirstTouch, Received, Undisturbed, Inner, Smooth, Run, TrueDecoding, OnTrack;
    items := [];
    NothingUsed();
    assert uses[..0] == [] && stream.chunks[..0] == [];
    for i := 0 to |uses|
      invariant stream.Valid() && |items| == i && Received(items) == stream.delivered
      invariant stream.finished <==> Ends(uses[..i], items)
      invariant match FirstTouch(uses[..i]) {
                  case None => stream.phase == NotStarted
                  case Some(first) =>
                    stream.phase != NotStarted && (first.DropGenerator? ==> stream.phase == Done)
                    && (first.Resume? && stream.phase == Done ==> stream.finished) && !first.CloseStream?
                }
      invariant Undisturbed(uses) ==>
        stream.delivered == stream.chunks[..if i <= |stream.chunks| then i else |stream.chunks|]
      invariant Undisturbed(uses) && i <= |stream.chunks| ==> stream.phase != Done && stream.position == i
      invariant Undisturbed(uses) && i > |stream.chunks| ==> stream.phase == Done && stream.finished
      invariant Undisturbed(uses) && i <= |stream.chunks| ==> !stream.finished
      invariant stream.capture != null && Smooth(uses) && i <= |stream.chunks| && stream.capture.error ==>
        stream.decoder == null || old(stream.capture.error) || Run(stream.initial, stream.chunks).None?
      invariant stream.capture != null && Smooth(uses) && !stream.capture.error ==> !old(stream.capture.error)
      invariant stream.capture != null && Smooth(uses) && i > |stream.chunks| && stream.ending == EndOfStream ==>
        stream.capture.record == Some(Record(Eof,
          stream.decoder != null && !old(stream.capture.error) && Run(stream.initial, stream.chunks).Some?))
    {
      ghost var before := items;
      var u, seen := uses[i], None;
      UndisturbedAt(uses, i);
      match u {
        case Resume(e) =>
          ghost var position := stream.position;
          var item := stream.Next(e);
          InnerAt(stream.chunks, stream.ending, position);
          seen := Some(item);
        case DropGenerator(write) => stream.CloseGenerator(write);
        case CloseStream(write) => stream.Close(write);
      }
      items := items + [seen];
      ReceivedSnoc(before, seen);
      EndsSnoc(uses[..i], before, u, seen);
      assert uses[..i + 1] == uses[..i] + [u];
    }
    assert uses[..|uses|] == uses;
  }

  lemma NothingUsed()
    ensures FirstTouch([]) == None && !Ends([], []) && Received([]) == []
  {
  }

  lemma UndisturbedAt(uses: seq<Use>, i: nat)
    requires i < |uses|
    ensures Undisturbed(uses) ==>
      uses[i].Resume? && !uses[i].event.cancelRead && !uses[i].event.cancelWrite && !uses[i].event.cancelFinish
    ensures Smooth(uses) ==> Undisturbed(uses) && uses[i].Resume? && Undisturbing(uses[i].event)
  {
    assert uses[i] in uses;
  }

  lemma InnerAt(chunks: seq<Bytes>, ending: Ending, position: nat)
    ensures Inner(chunks, ending, position).Chunk? <==> position < |chunks|
  {
  }

  /** The request failed before the consumer got a stream. */
  predicate NoStream(e: Sending) {
    e.cancelBegin || e.cancelRequest || e.cancelHeaders || !e.answer.Response?
  }

  /** The content encoding is supported and the chunks decode under it, to their last frame. */
  predicate Decodes<S(!new)>(lib: Library<S>, encoding: string, alreadyDecoded: bool, chunks: seq<Bytes>) {
    var ds := DecodersFor(lib, encoding, alreadyDecoded);
    ds.Some? && Run(ds.value, chunks).Some?
  }

  /**
   * A whole exchange. A begun capture is finished exactly once when the request fails or the consumer
   * ends the response, and not at all otherwise; its body is always a prefix of the decoding that the
   * Content-Encoding asks for, and the whole of it when the capture is recorded as complete.
   */
  method Exchange<S(!new)>(lib: Library<S>, e: Sending, alreadyDecoded: bool, uses: seq<Use>)
    returns (capture: Capture?, items: seq<Option<Item>>)
    ensures (capture != null) == e.begins && (NoStream(e) ==> items == []) && (!NoStream(e) ==> |items| == |uses|)
    ensures e.begins ==> capture.finishCalls == (if NoStream(e) || Ends(uses, items) then 1 else 0)
    ensures e.begins ==> capture.record.Some? == (capture.finishCalls == 1)
    ensures e.answer.Response? ==> Received(items) <= e.answer.chunks
    ensures !NoStream(e) && Undisturbed(uses) ==>
      Received(items) == e.answer.chunks[..if |uses| <= |e.answer.chunks| then |uses| else |e.answer.chunks|]
    ensures !NoStream(e) && Undisturbed(uses) && |uses| > |e.answer.chunks| ==> Ends(uses, items)
    ensures e.begins && capture.record.Some? && capture.record.value.state == Eof ==>
      !NoStream(e) && Received(items) == e.answer.chunks && e.answer.ending == EndOfStream
    ensures e.begins && e.answer.Response? ==>
      (match DecodersFor(lib, e.answer.encoding, alreadyDecoded)
       case None => capture.body == []
       case Some(ds) => capture.body <= TrueDecoding(ds, e.answer.chunks))
    ensures e.begins && capture.record.Some? && capture.record.value.complete ==>
      !NoStream(e) && capture.record.value.state == Eof && DecodersFor(lib, e.answer.encoding, alreadyDecoded).Some?
      && Run(DecodersFor(lib, e.answer.encoding, alreadyDecoded).value, e.answer.chunks) == Some(capture.body)
    ensures e.begins && !NoStream(e) && Smooth(uses) && |uses| > |e.answer.chunks| && e.answer.ending == EndOfStream ==>
      capture.record == Some(Record(Eof, !e.requestError && e.headersWritten
        && Decodes(lib, e.answer.encoding, alreadyDecoded, e.answer.chunks)))
  {
    hide Ends, Received, Undisturbed, DecodersFor, TrueDecoding, Run, OnTrack;
    var stream;
    stream, capture := HandleRequest(lib, e, alreadyDecoded);
    if stream == null {
      NothingUsed();
      return capture, [];
    }
    items := Consume(stream, uses);
  }

  /**
   * A complete capture of a response that was encoded as its header says holds the original body, for
   * any non-empty list of chunks.
   */
  lemma CompleteCaptureIsTheBody<S(!new)>(
      lib: Library<S>, encoder: (string, Bytes) -> Bytes, encoding: string, original: Bytes, chunks: seq<Bytes>,
      body: Bytes)
    requires LawfulLibrary(lib) && Undoes(lib, encoder) && encoding != "" && Lower(encoding) != "identity"
    requires chunks != [] && Concat(chunks) == Encode(encoder, Codings(encoding), original)
    requires DecodersFor(lib, encoding, false).Some?
      && Run(DecodersFor(lib, encoding, false).value, chunks) == Some(body)
    ensures body == original
  {
    hide Codings, Undoes, LawfulLibrary, Run, Chain, NamedDecoder, Lower;
    DecodingUndoesEncoding(lib, encoder, Codings(encoding), original, chunks);
  }
}
