/** Streaming removal of HTTP content encodings from an observed response body. */
module EntityDecoder {
  import opened Text

  // ----- streaming decoders -----

  /**
   * A decompressor of a compression library: each step takes some input and returns all output
   * it determines; `flush` ends the stream and `eof` tells whether the last frame was complete.
   * A library object without one of these is a codec whose flush is empty or whose eof is true.
   */
  datatype Codec<!S> = Codec(
    start: S,
    step: (S, Bytes) -> Option<(S, Bytes)>,
    flush: S -> Option<(S, Bytes)>,
    eof: S -> bool)

  function Then<S>(first: Option<(S, Bytes)>, second: S -> Option<(S, Bytes)>): Option<(S, Bytes)> {
    if first.None? then None
    else
      var next := second(first.value.0);
      if next.None? then None else Some((next.value.0, first.value.1 + next.value.1))
  }

  /** Splitting the input of a step changes neither the output, nor the state, nor the error. */
  ghost predicate Lawful<S(!new)>(c: Codec<S>) {
    (forall s :: c.step(s, []) == Some((s, [])))
    && (forall s, a, b :: c.step(s, a + b) == Then(c.step(s, a), t => c.step(t, b)))
  }

  /**
   * One decoder object. A deflate decoder starts `Fresh`: it has seen no input and does not yet
   * know whether the body is zlib-wrapped or raw.
   */
  datatype Decoder<!S> = Using(codec: Codec<S>, state: S) | Fresh(wrapped: Codec<S>, raw: Codec<S>)

  function Move<S>(c: Codec<S>, result: Option<(S, Bytes)>): (r: Option<(Decoder<S>, Bytes)>) {
    if result.None? then None else Some((Using(c, result.value.0), result.value.1))
  }

  function Decompress<S>(d: Decoder<S>, chunk: Bytes): (r: Option<(Decoder<S>, Bytes)>) {
    match d
    case Using(c, s) => Move(c, c.step(s, chunk))
    case Fresh(z, r) =>
      var first := z.step(z.start, chunk);
      if first.Some? then Move(z, first) else Move(r, r.step(r.start, chunk))
  }

  /** Flushes the decoder; None when the library refuses or the body ended before its last frame. */
  function End<S>(d: Decoder<S>): Option<Bytes> {
    var (codec, state) := match d { case Using(c, s) => (c, s) case Fresh(z, _) => (z, z.start) };
    var last := codec.flush(state);
    if last.None? || !codec.eof(last.value.0) then None else Some(last.value.1)
  }

  // ----- a chain of decoders -----

  function FeedChain<S>(ds: seq<Decoder<S>>, chunk: Bytes): (r: Option<(seq<Decoder<S>>, Bytes)>)
    ensures r.Some? ==> |r.value.0| == |ds|
  {
    if ds == [] then Some(([], chunk))
    else
      var first := Decompress(ds[0], chunk);
      if first.None? then None
      else
        var rest := FeedChain(ds[1..], first.value.1);
        if rest.None? then None else Some(([first.value.0] + rest.value.0, rest.value.1))
  }

  /** Each decoder takes what its predecessor flushed, when that is not empty, and is flushed itself. */
  function FinishChain<S>(ds: seq<Decoder<S>>, tail: Bytes): Option<Bytes> {
    if ds == [] then Some(tail)
    else
      var fed := if tail == [] then Some((ds[0], [])) else Decompress(ds[0], tail);
      if fed.None? then None
      else
        var last := End(fed.value.0);
        if last.None? then None else FinishChain(ds[1..], fed.value.1 + last.value)
  }

  class EntityDecoder<S(!new)> {
    var decoders: seq<Decoder<S>>

    constructor (decoders: seq<Decoder<S>>)
      ensures this.decoders == decoders
    {
      this.decoders := decoders;
    }

    /** Feeds one chunk through all decoders; None is the exception of a library decoder. */
    method Feed(chunk: Bytes) returns (output: Option<Bytes>)
      modifies this
      ensures output.Some? <==> FeedChain(old(decoders), chunk).Some?
      ensures output.Some? ==> FeedChain(old(decoders), chunk) == Some((decoders, output.value))
    {
      ghost var all := decoders;
      var current := chunk;
      var i := 0;
      assert all[0..] == all && forall rest :: decoders[..0] + rest == rest;
      while i < |decoders|
        invariant 0 <= i <= |decoders| == |all|
        invariant decoders[i..] == all[i..]
        invariant FeedChain(all, chunk) == match FeedChain(all[i..], current) {
                    case None => None
                    case Some((rest, out)) => Some((decoders[..i] + rest, out))
                  }
      {
        assert all[i..][1..] == all[i + 1..] && all[i..][0] == decoders[i] == decoders[i..][0];
        var moved := Decompress(decoders[i], current);
        if moved.None? { return None; }
        decoders := decoders[i := moved.value.0];
        current := moved.value.1;
        i := i + 1;
        assert forall rest :: decoders[..i] + rest == decoders[..i - 1] + ([decoders[i - 1]] + rest);
      }
      assert all[i..] == [] && decoders[..i] + [] == decoders;
      return Some(current);
    }

    /** Flushes all decoders in turn. They are spent afterwards and not used again. */
    method Finish() returns (output: Option<Bytes>)
      ensures output == FinishChain(decoders, [])
    {
      var tail := [];
      var i := 0;
      assert decoders[0..] == decoders;
      while i < |decoders|
        invariant 0 <= i <= |decoders|
        invariant FinishChain(decoders, []) == FinishChain(decoders[i..], tail)
      {
        assert decoders[i..][1..] == decoders[i + 1..] && decoders[i..][0] == decoders[i];
        var d := decoders[i];
        if tail != [] {
          var fed := Decompress(d, tail);
          if fed.None? { return None; }
          d := fed.value.0;
          tail := fed.value.1;
        }
        var last := End(d);
        if last.None? { return None; }
        tail := tail + last.value;
        i := i + 1;
      }
      return Some(tail);
    }
  }

  // ----- whole runs and whole bodies -----

  /** All feeds of one response followed by the finish: the concatenated outputs, or None. */
  function Run<S>(ds: seq<Decoder<S>>, chunks: seq<Bytes>): Option<Bytes>
    decreases |chunks|
  {
    if chunks == [] then FinishChain(ds, [])
    else
      var fed := FeedChain(ds, chunks[0]);
      if fed.None? then None
      else
        var rest := Run(fed.value.0, chunks[1..]);
        if rest.None? then None else Some(fed.value.1 + rest.value)
  }

  /** Reference: one decoder applied to the complete body. */
  function DecodeBody<S>(d: Decoder<S>, body: Bytes): Option<Bytes> {
    var fed := Decompress(d, body);
    if fed.None? then None
    else
      var last := End(fed.value.0);
      if last.None? then None else Some(fed.value.1 + last.value)
  }

  /** Reference: the composition of the whole-body decoders. */
  function DecodeWhole<S>(ds: seq<Decoder<S>>, body: Bytes): Option<Bytes> {
    if ds == [] then Some(body)
    else
      var first := DecodeBody(ds[0], body);
      if first.None? then None else DecodeWhole(ds[1..], first.value)
  }

  ghost predicate LawfulDecoder<S(!new)>(d: Decoder<S>) {
    match d
    case Using(c, _) => Lawful(c)
    case Fresh(z, r) => Lawful(z) && Lawful(r)
  }

  ghost predicate LawfulChain<S(!new)>(ds: seq<Decoder<S>>) {
    forall d :: d in ds ==> LawfulDecoder(d)
  }

  predicate Settled<S>(ds: seq<Decoder<S>>) {
    forall i :: 0 <= i < |ds| ==> ds[i].Using?
  }

  /** The library decoder a deflate decoder becomes when it is given this first chunk. */
  function Choose<S>(d: Decoder<S>, chunk: Bytes): (r: Decoder<S>)
    ensures r.Using? && Decompress(r, chunk) == Decompress(d, chunk)
  {
    match d
    case Using(_, _) => d
    case Fresh(z, r) => if z.step(z.start, chunk).Some? then Using(z, z.start) else Using(r, r.start)
  }

  /** The chain with every deflate decoder replaced by its choice for the first chunk. */
  function ChooseChain<S>(ds: seq<Decoder<S>>, chunk: Bytes): (r: seq<Decoder<S>>)
    ensures |r| == |ds| && Settled(r)
    ensures FeedChain(r, chunk) == FeedChain(ds, chunk)
  {
    if ds == [] then []
    else
      var first := Choose(ds[0], chunk);
      var fed := Decompress(first, chunk);
      [first] + ChooseChain(ds[1..], if fed.None? then [] else fed.value.1)
  }

  // ----- chunking does not matter -----

  lemma StepSplits<S(!new)>(d: Decoder<S>, a: Bytes, b: Bytes)
    requires d.Using? && LawfulDecoder(d)
    ensures Decompress(d, []) == Some((d, []))
    ensures Decompress(d, a).None? ==> Decompress(d, a + b).None?
    ensures Decompress(d, a).Some? ==>
      var (next, out) := Decompress(d, a).value;
      next.Using? && LawfulDecoder(next)
      && match Decompress(next, b) {
           case None => Decompress(d, a + b).None?
           case Some((last, more)) => Decompress(d, a + b) == Some((last, out + more))
         }
  {
    var c, s := d.codec, d.state;
    assert c.step(s, a + b) == Then(c.step(s, a), t => c.step(t, b));
  }

  lemma {:induction false} FeedKeepsSettled<S(!new)>(ds: seq<Decoder<S>>, chunk: Bytes)
    requires Settled(ds) && LawfulChain(ds)
    ensures FeedChain(ds, chunk).Some? ==>
      Settled(FeedChain(ds, chunk).value.0) && LawfulChain(FeedChain(ds, chunk).value.0)
  {
    if ds != [] {
      StepSplits(ds[0], chunk, []);
      var first := Decompress(ds[0], chunk);
      if first.Some? { FeedKeepsSettled(ds[1..], first.value.1); }
    }
  }

  /** Feeding and then finishing with a tail is decoding the input followed by the tail. */
  lemma {:induction false} FeedThenFinish<S(!new)>(ds: seq<Decoder<S>>, input: Bytes, tail: Bytes)
    requires Settled(ds) && LawfulChain(ds)
    ensures DecodeWhole(ds, input + tail) == match FeedChain(ds, input) {
              case None => None
              case Some((after, out)) =>
                match FinishChain(after, tail) { case None => None case Some(last) => Some(out + last) }
            }
  {
    if ds != [] {
      var d := ds[0];
      StepSplits(d, input, tail);
      var first := Decompress(d, input);
      if first.Some? {
        var (d1, out) := first.value;
        StepSplits(d1, [], []);
        var fed := Decompress(d1, tail);
        assert tail == [] ==> fed == Some((d1, []));
        if fed.Some? && End(fed.value.0).Some? {
          var flushed := fed.value.1 + End(fed.value.0).value;
          FeedThenFinish(ds[1..], out, flushed);
          assert (out + fed.value.1) + End(fed.value.0).value == out + flushed;
        }
      }
    }
  }

  lemma {:induction false} FeedSplits<S(!new)>(ds: seq<Decoder<S>>, a: Bytes, b: Bytes)
    requires Settled(ds) && LawfulChain(ds)
    ensures FeedChain(ds, a + b) == match FeedChain(ds, a) {
              case None => None
              case Some((after, out)) =>
                match FeedChain(after, b) { case None => None case Some((last, more)) => Some((last, out + more)) }
            }
  {
    if ds != [] {
      StepSplits(ds[0], a, b);
      var first := Decompress(ds[0], a);
      if first.Some? {
        var second := Decompress(first.value.0, b);
        if second.Some? { FeedSplits(ds[1..], first.value.1, second.value.1); }
      }
    }
  }

  /** Whatever the chunking, a run of settled decoders is the composed decoding of the whole body. */
  lemma {:induction false} RunIsDecoding<S(!new)>(ds: seq<Decoder<S>>, chunks: seq<Bytes>)
    requires Settled(ds) && LawfulChain(ds)
    ensures Run(ds, chunks) == DecodeWhole(ds, Concat(chunks))
    decreases |chunks|
  {
    if chunks == [] {
      FeedNothing(ds);
      FeedThenFinish(ds, [], []);
      var none: Bytes := [];
      assert none + none == none && forall last: Bytes :: none + last == last;
    } else {
      var rest := Concat(chunks[1..]);
      FeedKeepsSettled(ds, chunks[0]);
      FeedThenFinish(ds, chunks[0] + rest, []);
      assert chunks[0] + rest + [] == chunks[0] + rest;
      FeedSplits(ds, chunks[0], rest);
      var fed := FeedChain(ds, chunks[0]);
      if fed.Some? {
        var (after, out) := fed.value;
        RunIsDecoding(after, chunks[1..]);
        FeedThenFinish(after, rest, []);
        assert rest + [] == rest;
        var more := FeedChain(after, rest);
        if more.Some? && FinishChain(more.value.0, []).Some? {
          var last := FinishChain(more.value.0, []).value;
          assert (out + more.value.1) + last == out + (more.value.1 + last);
        }
      }
    }
  }

  lemma {:induction false} FeedNothing<S(!new)>(ds: seq<Decoder<S>>)
    requires Settled(ds) && LawfulChain(ds)
    ensures FeedChain(ds, []) == Some((ds, []))
  {
    if ds != [] {
      StepSplits(ds[0], [], []);
      FeedNothing(ds[1..]);
      assert [ds[0]] + ds[1..] == ds;
    }
  }

  lemma {:induction false} ChosenIsLawful<S(!new)>(ds: seq<Decoder<S>>, chunk: Bytes)
    requires LawfulChain(ds)
    ensures LawfulChain(ChooseChain(ds, chunk))
  {
    if ds != [] {
      var first := Choose(ds[0], chunk);
      var fed := Decompress(first, chunk);
      var input := if fed.None? then [] else fed.value.1;
      ChosenIsLawful(ds[1..], input);
      assert ChooseChain(ds, chunk) == [first] + ChooseChain(ds[1..], input);
      assert LawfulDecoder(ds[0]) && LawfulDecoder(first);
    }
  }

  /**
   * With deflate decoders: the run is the composed decoding of the whole body by the decoders
   * that the first chunk selects.
   */
  lemma FirstChunkDecides<S(!new)>(ds: seq<Decoder<S>>, chunks: seq<Bytes>)
    requires LawfulChain(ds) && chunks != []
    ensures Run(ds, chunks) == DecodeWhole(ChooseChain(ds, chunks[0]), Concat(chunks))
  {
    var chosen := ChooseChain(ds, chunks[0]);
    ChosenIsLawful(ds, chunks[0]);
    assert Run(ds, chunks) == Run(chosen, chunks);
    RunIsDecoding(chosen, chunks);
  }

  // ----- the deflate decoder -----

  /**
   * A deflate decoder agrees with its whole-body decoding unless the zlib form takes the first
   * chunk, fails later, and the raw form would have taken the whole body.
   */
  lemma DeflateChunking<S(!new)>(wrapped: Codec<S>, raw: Codec<S>, chunks: seq<Bytes>)
    requires Lawful(wrapped) && Lawful(raw) && chunks != []
    ensures Run([Fresh(wrapped, raw)], chunks) == DecodeBody(Fresh(wrapped, raw), Concat(chunks)) <==>
      !(wrapped.step(wrapped.start, chunks[0]).Some? && wrapped.step(wrapped.start, Concat(chunks)).None?
        && DecodeBody(Using(raw, raw.start), Concat(chunks)).Some?)
  {
    var d, body := Fresh(wrapped, raw), Concat(chunks);
    FirstChunkDecides([d], chunks);
    assert ChooseChain([d], chunks[0]) == [Choose(d, chunks[0])] + ChooseChain([], []);
    WholeOfOne(Choose(d, chunks[0]), body);
    StepSplits(Using(wrapped, wrapped.start), chunks[0], Concat(chunks[1..]));
  }

  lemma WholeOfOne<S(!new)>(d: Decoder<S>, body: Bytes)
    ensures DecodeWhole([d], body) == DecodeBody(d, body)
  {
    assert [d][1..] == [];
  }

  /**
   * No deflate decoder of the chain is misled: what the first chunk gives it is not taken as the zlib
   * form when its whole input is not.
   */
  predicate Steady<S>(ds: seq<Decoder<S>>, first: Bytes, body: Bytes) {
    ds == [] ||
    (var d := ds[0];
     var fed, whole := Decompress(d, first), DecodeBody(d, body);
     !(d.Fresh? && d.wrapped.step(d.wrapped.start, first).Some? && d.wrapped.step(d.wrapped.start, body).None?)
     && (fed.Some? && whole.Some? ==> Steady(ds[1..], fed.value.1, whole.value)))
  }

  /**
   * For every chain: chunked and whole decoding agree exactly when no deflate decoder is misled by the
   * first chunk, or the whole body is not decodable anyway.
   */
  lemma ChainChunking<S(!new)>(ds: seq<Decoder<S>>, chunks: seq<Bytes>)
    requires LawfulChain(ds) && chunks != []
    ensures Run(ds, chunks) == DecodeWhole(ds, Concat(chunks)) <==>
      Steady(ds, chunks[0], Concat(chunks)) || DecodeWhole(ds, Concat(chunks)).None?
  {
    FirstChunkDecides(ds, chunks);
    ChoiceAgrees(ds, chunks[0], Concat(chunks[1..]));
  }

  lemma {:induction false} ChoiceAgrees<S(!new)>(ds: seq<Decoder<S>>, first: Bytes, rest: Bytes)
    requires LawfulChain(ds)
    ensures var body := first + rest;
      DecodeWhole(ChooseChain(ds, first), body) == DecodeWhole(ds, body) <==>
        Steady(ds, first, body) || DecodeWhole(ds, body).None?
    ensures DecodeWhole(ds, first + rest).None? ==> DecodeWhole(ChooseChain(ds, first), first + rest).None?
  {
    if ds != [] {
      var d, body := ds[0], first + rest;
      var chosen := Choose(d, first);
      assert LawfulDecoder(d) && LawfulDecoder(chosen);
      StageAgrees(d, first, rest);
      hide Lawful, Choose, DecodeBody, Decompress, ChooseChain, DecodeWhole;
      var fed, whole := Decompress(d, first), DecodeBody(d, body);
      var others := ds[1..];
      assert [d] + others == ds;
      ChooseStep(d, others, first);
      var chain := ChooseChain(others, if fed.None? then [] else fed.value.1);
      WholeStep(chosen, chain, body);
      WholeStep(d, others, body);
      if DecodeBody(chosen, body).Some? {
        var out := fed.value.1;
        var remaining := whole.value[|out|..];
        assert whole.value == out + remaining;
        ChoiceAgrees(others, out, remaining);
      }
    }
  }

  /** One stage: the chosen decoder gives the stage's whole result, or fails where only the raw form would do. */
  lemma StageAgrees<S(!new)>(d: Decoder<S>, first: Bytes, rest: Bytes)
    requires LawfulDecoder(d)
    ensures var chosen, body := Choose(d, first), first + rest;
      var misled := d.Fresh? && d.wrapped.step(d.wrapped.start, first).Some?
        && d.wrapped.step(d.wrapped.start, body).None?;
      Decompress(chosen, first) == Decompress(d, first)
      && (misled ==> DecodeBody(chosen, body).None?)
      && (!misled ==> DecodeBody(chosen, body) == DecodeBody(d, body))
      && (DecodeBody(chosen, body).Some? ==>
          Decompress(d, first).Some? && Decompress(d, first).value.1 <= DecodeBody(chosen, body).value)
  {
    hide Lawful, End;
    var chosen := Choose(d, first);
    StepSplits(chosen, first, rest);
    if d.Fresh? { StepSplits(Using(d.wrapped, d.wrapped.start), first, rest); }
  }

  /** The excluded case is real: an empty first chunk already commits the decoder to the zlib form. */
  lemma EmptyFirstChunkCommits<S(!new)>(wrapped: Codec<S>, raw: Codec<S>, body: Bytes)
    requires Lawful(wrapped) && Lawful(raw) && wrapped.step(wrapped.start, body).None?
    requires DecodeBody(Using(raw, raw.start), body).Some?
    ensures DecodeBody(Fresh(wrapped, raw), body).Some? && Run([Fresh(wrapped, raw)], [[], body]).None?
  {
    var chunks: seq<Bytes> := [[], body];
    assert chunks[1..] == [body] && [body][1..] == [] && Concat([body]) == body + [] == body;
    assert Concat(chunks) == [] + body == body;
    var d := Fresh(wrapped, raw);
    FirstChunkDecides([d], chunks);
    assert ChooseChain([d], []) == [Using(wrapped, wrapped.start)] + ChooseChain([], []);
    WholeOfOne(Using(wrapped, wrapped.start), body);
  }

  // ----- building the chain from the header -----

  /** The decompressors of the libraries, in the state a new object has. */
  datatype Library<!S> = Library(gzip: Codec<S>, zlib: Codec<S>, deflate: Codec<S>, br: Codec<S>, zstd: Codec<S>)

  function NamedDecoder<S>(lib: Library<S>, name: string): Option<Decoder<S>> {
    if name == "gzip" then Some(Using(lib.gzip, lib.gzip.start))
    else if name == "deflate" then Some(Fresh(lib.zlib, lib.deflate))
    else if name == "br" then Some(Using(lib.br, lib.br.start))
    else if name == "zstd" then Some(Using(lib.zstd, lib.zstd.start))
    else None
  }

  predicate Supported<S>(lib: Library<S>, names: seq<string>) {
    forall name :: name in names ==> NamedDecoder(lib, name).Some?
  }

  /** The decoders of a list of codings, last coding first. */
  function Chain<S>(lib: Library<S>, names: seq<string>): (r: seq<Decoder<S>>)
    requires Supported(lib, names)
  {
    if names == [] then []
    else [NamedDecoder(lib, names[|names| - 1]).value] + Chain(lib, names[..|names| - 1])
  }

  lemma ChainNone<S>(lib: Library<S>)
    ensures Chain(lib, []) == []
  {
  }

  lemma ChainSnoc<S>(lib: Library<S>, names: seq<string>, name: string)
    requires NamedDecoder(lib, name).Some?
    ensures Supported(lib, names) ==> Supported(lib, names + [name])
    ensures Supported(lib, names) ==> Chain(lib, names + [name]) == [NamedDecoder(lib, name).value] + Chain(lib, names)
  {
    hide NamedDecoder;
    assert (names + [name])[..|names|] == names;
  }

  /** The decoders a header value stands for; None when a coding is unsupported. */
  function DecodersFor<S>(lib: Library<S>, encoding: string, alreadyDecoded: bool): Option<seq<Decoder<S>>> {
    if alreadyDecoded || encoding == "" || Lower(encoding) == "identity" then Some([])
    else
      var names := Codings(encoding);
      if Supported(lib, names) then Some(Chain(lib, names)) else None
  }

  /** The constructor's loop over the header; None is the error for an unsupported coding. */
  method BuildDecoders<S>(lib: Library<S>, encoding: string, alreadyDecoded: bool)
    returns (decoders: Option<seq<Decoder<S>>>)
    ensures decoders == DecodersFor(lib, encoding, alreadyDecoded)
  {
    hide NamedDecoder, Chain, Codings, Lower;
    if alreadyDecoded || encoding == "" || Lower(encoding) == "identity" { return Some([]); }
    var names := Codings(encoding);
    var list: seq<Decoder<S>> := [];
    var k := |names|;
    assert names[..k] == names;
    while k > 0
      invariant 0 <= k <= |names|
      invariant Supported(lib, names[k..])
      invariant Supported(lib, names[..k]) ==>
        Supported(lib, names) && Chain(lib, names) == list + Chain(lib, names[..k])
    {
      k := k - 1;
      var decoder := NamedDecoder(lib, names[k]);
      if decoder.None? {
        assert names[k] in names;
        return None;
      }
      ChainSnoc(lib, names[..k], names[k]);
      assert names[..k] + [names[k]] == names[..k + 1] && [names[k]] + names[k + 1..] == names[k..];
      list := list + [decoder.value];
      assert Supported(lib, names[..k]) ==> Chain(lib, names) == list + Chain(lib, names[..k]);
    }
    ChainNone(lib);
    assert names[..0] == [];
    assert Chain(lib, names) == list + [] == list;
    return Some(list);
  }

  function Trimmed(parts: seq<string>): (r: seq<string>)
    ensures |r| == |parts|
  {
    if parts == [] then [] else [Lower(Strip(parts[0]))] + Trimmed(parts[1..])
  }

  /** The codings of a header value in the order they were applied. */
  function Codings(encoding: string): seq<string> {
    Trimmed(Split(encoding, ','))
  }

  // ----- decoding inverts encoding -----

  /** The body after the codings were applied in header order (section 8.4 of RFC 9110). */
  function Encode(encoder: (string, Bytes) -> Bytes, names: seq<string>, body: Bytes): Bytes {
    if names == [] then body
    else encoder(names[|names| - 1], Encode(encoder, names[..|names| - 1], body))
  }

  /**
   * Each library undoes its own coding of this encoder; the deflate form may be any that the zlib
   * decompressor takes.
   */
  ghost predicate Undoes<S(!new)>(lib: Library<S>, encoder: (string, Bytes) -> Bytes) {
    && (forall body :: DecodeBody(Using(lib.gzip, lib.gzip.start), encoder("gzip", body)) == Some(body))
    && (forall body :: DecodeBody(Using(lib.br, lib.br.start), encoder("br", body)) == Some(body))
    && (forall body :: DecodeBody(Using(lib.zstd, lib.zstd.start), encoder("zstd", body)) == Some(body))
    && (forall body :: DecodeBody(Using(lib.zlib, lib.zlib.start), encoder("deflate", body)) == Some(body))
  }

  /** Exactly four codings are supported. */
  lemma SupportedNames<S>(lib: Library<S>, name: string)
    ensures NamedDecoder(lib, name).Some? <==> name in {"gzip", "deflate", "br", "zstd"}
  {
  }

  /** A supported coding is decoded by the library that undoes it. */
  lemma UndoesNamed<S(!new)>(lib: Library<S>, encoder: (string, Bytes) -> Bytes, name: string, body: Bytes)
    requires Undoes(lib, encoder) && NamedDecoder(lib, name).Some?
    ensures DecodeBody(NamedDecoder(lib, name).value, encoder(name, body)) == Some(body)
    ensures name == "deflate" ==> lib.zlib.step(lib.zlib.start, encoder(name, body)).Some?
    ensures NamedDecoder(lib, name).value.Fresh? ==> name == "deflate"
  {
    hide End;
    if name == "deflate" { assert DecodeBody(Using(lib.zlib, lib.zlib.start), encoder(name, body)).Some?; }
  }

  ghost predicate LawfulLibrary<S(!new)>(lib: Library<S>) {
    Lawful(lib.gzip) && Lawful(lib.zlib) && Lawful(lib.deflate) && Lawful(lib.br) && Lawful(lib.zstd)
  }

  /** Decoding an encoded body in any non-empty list of chunks gives the body back. */
  lemma DecodingUndoesEncoding<S(!new)>(
      lib: Library<S>, encoder: (string, Bytes) -> Bytes, names: seq<string>, body: Bytes, chunks: seq<Bytes>)
    requires LawfulLibrary(lib) && Undoes(lib, encoder)
    requires Supported(lib, names)
    requires chunks != [] && Concat(chunks) == Encode(encoder, names, body)
    ensures Run(Chain(lib, names), chunks) == Some(body)
  {
    var ds := Chain(lib, names);
    ChainIsLawful(lib, names);
    FirstChunkDecides(ds, chunks);
    ChoiceDecodes(lib, encoder, names, body, chunks[0], Concat(chunks[1..]));
  }

  lemma {:induction false} ChainIsLawful<S(!new)>(lib: Library<S>, names: seq<string>)
    requires LawfulLibrary(lib)
    requires Supported(lib, names)
    ensures LawfulChain(Chain(lib, names))
  {
    hide Lawful;
    if names != [] {
      ChainIsLawful(lib, names[..|names| - 1]);
    }
  }

  lemma {:induction false} ChoiceDecodes<S(!new)>(
      lib: Library<S>, encoder: (string, Bytes) -> Bytes, names: seq<string>, body: Bytes, first: Bytes, rest: Bytes)
    requires LawfulLibrary(lib) && Undoes(lib, encoder)
    requires Supported(lib, names)
    requires first + rest == Encode(encoder, names, body)
    ensures DecodeWhole(ChooseChain(Chain(lib, names), first), first + rest) == Some(body)
    decreases |names|
  {
    hide Lawful, Undoes, DecodeWhole, ChooseChain, NamedDecoder, Chain, Decompress, Choose, End;
    if names == [] {
      NothingChosen(lib, first, first + rest);
    } else {
      var k := |names| - 1;
      var d, inner := NamedDecoder(lib, names[k]).value, Encode(encoder, names[..k], body);
      ChoiceTakesOff(lib, encoder, names[k], inner, first, rest);
      var chosen := Choose(d, first);
      var out := Decompress(chosen, first).value.1;
      var remaining := inner[|out|..];
      assert inner == out + remaining;
      ChoiceDecodes(lib, encoder, names[..k], body, out, remaining);
      ChainSnoc(lib, names[..k], names[k]);
      assert names[..k] + [names[k]] == names;
      ChooseStep(d, Chain(lib, names[..k]), first);
      WholeStep(chosen, ChooseChain(Chain(lib, names[..k]), out), first + rest);
    }
  }

  lemma NothingChosen<S>(lib: Library<S>, first: Bytes, body: Bytes)
    ensures DecodeWhole(ChooseChain(Chain(lib, []), first), body) == Some(body)
  {
  }

  lemma ChooseStep<S>(d: Decoder<S>, ds: seq<Decoder<S>>, chunk: Bytes)
    ensures var fed := Decompress(Choose(d, chunk), chunk);
      ChooseChain([d] + ds, chunk) == [Choose(d, chunk)] + ChooseChain(ds, if fed.None? then [] else fed.value.1)
  {
    hide Decompress, Choose;
    assert ([d] + ds)[1..] == ds;
  }

  lemma WholeStep<S>(d: Decoder<S>, ds: seq<Decoder<S>>, body: Bytes)
    ensures DecodeWhole([d] + ds, body) ==
      if DecodeBody(d, body).None? then None else DecodeWhole(ds, DecodeBody(d, body).value)
  {
    hide DecodeBody;
    assert ([d] + ds)[1..] == ds;
  }

  /** The decoder chosen for a prefix takes one coding off the whole, and has given a prefix of it so far. */
  lemma ChoiceTakesOff<S(!new)>(lib: Library<S>, encoder: (string, Bytes) -> Bytes, name: string, inner: Bytes,
    first: Bytes, rest: Bytes)
    requires LawfulLibrary(lib) && Undoes(lib, encoder) && NamedDecoder(lib, name).Some?
    requires first + rest == encoder(name, inner)
    ensures var chosen := Choose(NamedDecoder(lib, name).value, first);
      DecodeBody(chosen, first + rest) == Some(inner)
      && Decompress(chosen, first).Some? && Decompress(chosen, first).value.1 <= inner
  {
    hide Lawful, End;
    var d := NamedDecoder(lib, name).value;
    var chosen := Choose(d, first);
    UndoesNamed(lib, encoder, name, inner);
    assert DecodeBody(d, first + rest) == Some(inner);
    assert LawfulDecoder(chosen);
    StepSplits(chosen, first, rest);
    if d.Fresh? { StepSplits(Using(lib.zlib, lib.zlib.start), first, rest); }
  }

  // ----- reading the header -----

  /** Codings written with any case, with white space around them, are read as their names, in order. */
  lemma CodingsAreRead(written: seq<string>, names: seq<string>)
    requires |written| == |names| > 0
    requires forall i :: 0 <= i < |written| ==> ',' !in written[i] && Lower(Strip(written[i])) == names[i]
    ensures Codings(Join(written, ",")) == names
  {
    hide Lower, Strip, Split;
    SplitOfJoin(written, ',');
    TrimmedEach(written, names);
  }

  lemma {:induction false} TrimmedEach(written: seq<string>, names: seq<string>)
    requires |written| == |names| && forall i :: 0 <= i < |written| ==> Lower(Strip(written[i])) == names[i]
    ensures Trimmed(written) == names
  {
    hide Lower, Strip;
    if written != [] { TrimmedEach(written[1..], names[1..]); }
  }

  /** A body that is decoded already, or that no coding was applied to, is captured as it is. */
  lemma PlainBodyIsKept<S(!new)>(lib: Library<S>, encoding: string, alreadyDecoded: bool, chunks: seq<Bytes>)
    requires alreadyDecoded || encoding == "" || Lower(encoding) == "identity"
    ensures DecodersFor(lib, encoding, alreadyDecoded).Some?
    ensures Run(DecodersFor(lib, encoding, alreadyDecoded).value, chunks) == Some(Concat(chunks))
  {
    hide Lower;
    RunOfNone<S>(chunks);
  }

  lemma {:induction false} RunOfNone<S>(chunks: seq<Bytes>)
    ensures Run<S>([], chunks) == Some(Concat(chunks))
  {
    if chunks != [] { RunOfNone<S>(chunks[1..]); }
  }

  /** Any other header fails exactly when it names a coding that is not supported. */
  lemma OtherHeaders<S(!new)>(lib: Library<S>, written: seq<string>, names: seq<string>)
    requires |written| == |names| > 0
    requires forall i :: 0 <= i < |written| ==> ',' !in written[i] && Lower(Strip(written[i])) == names[i]
    requires Join(written, ",") != "" && Lower(Join(written, ",")) != "identity"
    ensures DecodersFor(lib, Join(written, ","), false).Some? <==>
      forall name :: name in names ==> name in {"gzip", "deflate", "br", "zstd"}
  {
    hide Lower, Strip, Codings, NamedDecoder, Chain;
    CodingsAreRead(written, names);
    forall name | name in names
      ensures NamedDecoder(lib, name).Some? <==> name in {"gzip", "deflate", "br", "zstd"}
    {
      SupportedNames(lib, name);
    }
  }

  /**
   * A response with one coding, in any chunks: all output with the final flush, unless the library refuses the
   * body or the body ends before its last frame.
   */
  lemma OneDecoder<S(!new)>(c: Codec<S>, chunks: seq<Bytes>)
    requires Lawful(c)
    ensures Run([Using(c, c.start)], chunks) ==
      (match c.step(c.start, Concat(chunks))
       case None => None
       case Some((state, output)) =>
         match c.flush(state)
         case None => None
         case Some((last, tail)) => if c.eof(last) then Some(output + tail) else None)
  {
    var d := Using(c, c.start);
    RunIsDecoding([d], chunks);
    WholeOfOne(d, Concat(chunks));
  }

  /** A library that copies its input. */
  function Copying(): Codec<()> {
    Codec((), (s: (), a: Bytes) => Some((s, a)), (s: ()) => Some((s, [])), (s: ()) => true)
  }

  /** The laws can be met: a copying library obeys them, and undoes the encoder that copies. */
  lemma CopyingIsLawful(encoder: (string, Bytes) -> Bytes)
    requires forall name, body :: encoder(name, body) == body
    ensures var c := Copying(); LawfulLibrary(Library(c, c, c, c, c)) && Undoes(Library(c, c, c, c, c), encoder)
  {
    CopyingSplits();
    hide Lawful, Copying, DecodeBody, Undoes;
    var c := Copying();
    forall body: Bytes ensures DecodeBody(Using(c, c.start), body) == Some(body) { CopiedBody(body); }
    UndoesCopies(c, encoder);
  }

  lemma UndoesCopies<S(!new)>(c: Codec<S>, encoder: (string, Bytes) -> Bytes)
    requires forall name, body :: encoder(name, body) == body
    requires forall body :: DecodeBody(Using(c, c.start), body) == Some(body)
    ensures Undoes(Library(c, c, c, c, c), encoder)
  {
    hide DecodeBody;
    var lib := Library(c, c, c, c, c);
    var d := Using(c, c.start);
    assert lib.gzip == c && lib.br == c && lib.zstd == c && lib.zlib == c;
    forall body ensures DecodeBody(d, encoder("gzip", body)) == Some(body) { assert encoder("gzip", body) == body; }
    forall body ensures DecodeBody(d, encoder("br", body)) == Some(body) { assert encoder("br", body) == body; }
    forall body ensures DecodeBody(d, encoder("zstd", body)) == Some(body) { assert encoder("zstd", body) == body; }
    var name := "deflate";
    forall body ensures DecodeBody(d, encoder(name, body)) == Some(body) { assert encoder(name, body) == body; }
  }

  lemma CopyingSplits()
    ensures Lawful(Copying())
  {
  }

  lemma CopiedBody(body: Bytes)
    ensures DecodeBody(Using(Copying(), Copying().start), body) == Some(body)
  {
    assert body + [] == body;
  }
}
