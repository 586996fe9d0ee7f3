/** Whole runs of one direction of a Noise connection: the writer of one peer,
    the bytes in transit, and the reader of the other. */
module NoiseRuns {
  import opened Common
  import opened NoiseCodec
  import opened NoiseStream

  /** `sent` is everything handed to the transport and `got` how much of it the
      reader has taken in; `wire` is the frames of all accepted writes. */
  datatype Link = Link(
    writer: Writer, writerFailed: bool, accepted: seq<byte>, frames: nat, wire: seq<byte>,
    sent: seq<byte>, got: nat,
    reader: Reader, readerFailed: bool, delivered: seq<byte>)

  ghost function Start(): Link {
    Link(Writer([], 0), false, [], 0, [], [], 0, Reader([], [], true, LENGTH_FIELD_SIZE, 0), false, [])
  }

  datatype Event =
    | Write(buf: seq<byte>, handed: seq<byte>, wout: WriteOutcome)
    | Flush(handed: seq<byte>, ok: bool, failed: bool)
    | Read(input: seq<byte>, room: nat, rout: ReadOutcome)

  /** One poll, under the contract of the corresponding stream method. A side
      that has reported an error is not polled again, and the transport brings
      the reader the next bytes that were sent. */
  ghost predicate Next(c: Cipher, s: Link, e: Event, s': Link) {
    match e
    case Write(buf, handed, out) =>
      && !s.writerFailed
      && WriteStep(c, s.writer, s'.writer, buf, handed, out)
      && s' == s.(writer := s'.writer, writerFailed := out.WriteError?, sent := s.sent + handed,
                  accepted := s.accepted + (if out.Wrote? then buf[..out.len] else []),
                  frames := s.frames + (if out.Wrote? then 1 else 0),
                  wire := s.wire + (if out.Wrote? then Frame(c.seal(s.writer.nonce, buf[..out.len])) else []))
    case Flush(handed, ok, failed) =>
      && !s.writerFailed
      && FlushStep(s.writer, s'.writer, handed, ok)
      && s' == s.(writer := s'.writer, writerFailed := failed, sent := s.sent + handed)
    case Read(input, room, out) =>
      && !s.readerFailed
      && s.got <= |s.sent| && input <= s.sent[s.got..]
      && ReadStep(c, s.reader, s'.reader, input, room, out)
      && s' == s.(reader := s'.reader, readerFailed := out.ReadError?, got := s.got + |input|,
                  delivered := s.delivered + (if out.Ready? then out.bytes else []))
  }

  /** Every state of a run, one more than there are events. */
  ghost predicate IsRun(c: Cipher, events: seq<Event>, states: seq<Link>) {
    && |states| == |events| + 1 && states[0] == Start()
    && forall i :: 0 <= i < |events| ==> Next(c, states[i], events[i], states[i + 1])
  }

  /** The accepted bytes are what the wire decodes to, whatever comes after. */
  ghost predicate Encodes(c: Cipher, wire: seq<byte>, plain: seq<byte>, frames: nat) {
    forall more :: Decode(c, 0, wire + more) == Prepend(plain, Decode(c, frames, more))
  }

  /** The bytes taken in so far are accounted for: handed out, waiting as
      plaintext, or still undecoded. */
  ghost predicate Tracks(c: Cipher, input: seq<byte>, plain: seq<byte>, r: Reader) {
    forall more :: Decode(c, 0, input + more) == Prepend(plain + r.decrypted, Decode(c, r.nonce, Undecoded(r) + more))
  }

  ghost predicate WriterInv(c: Cipher, s: Link) {
    && WriterWell(s.writer) && s.sent <= s.wire && s.frames <= NONCE_LIMIT
    && (!s.writerFailed ==> s.wire == s.sent + s.writer.output && s.frames == s.writer.nonce)
    && Encodes(c, s.wire, s.accepted, s.frames)
  }

  ghost predicate ReaderInv(c: Cipher, s: Link) {
    && ReaderWell(s.reader) && s.got <= |s.sent|
    && (!s.readerFailed ==> Tracks(c, s.sent[..s.got], s.delivered, s.reader))
    && s.delivered <= s.accepted
  }

  ghost predicate Inv(c: Cipher, s: Link) {
    WriterInv(c, s) && ReaderInv(c, s)
  }

  lemma StartInv(c: Cipher)
    ensures Inv(c, Start())
  {
    forall more ensures Decode(c, 0, [] + more) == Prepend([], Decode(c, 0, more)) {
      assert [] + more == more;
      PrependAssoc([], [], Decode(c, 0, more));
    }
    var r := Start().reader;
    forall more ensures Decode(c, 0, [] + more) == Prepend([] + r.decrypted, Decode(c, r.nonce, Undecoded(r) + more)) {
      assert Undecoded(r) + more == more && [] + more == more;
      PrependAssoc([], [], Decode(c, 0, more));
    }
  }

  lemma EncodesFrame(c: Cipher, wire: seq<byte>, plain: seq<byte>, n: nat, p: seq<byte>, f: seq<byte>)
    requires Sound(c) && Encodes(c, wire, plain, n) && n < NONCE_LIMIT && |p| <= MAX_PAYLOAD
    requires f == Frame(c.seal(n, p))
    ensures Encodes(c, wire + f, plain + p, n + 1)
  {
    forall more ensures Decode(c, 0, wire + f + more) == Prepend(plain + p, Decode(c, n + 1, more)) {
      ConcatAssoc(wire, f, more);
      DecodeFrame(c, n, c.seal(n, p), more);
      PrependAssoc(plain, p, Decode(c, n + 1, more));
    }
  }

  lemma TracksMore(c: Cipher, seen: seq<byte>, plain: seq<byte>, r: Reader, r': Reader, input: seq<byte>,
                   b: seq<byte>, p: seq<byte>)
    requires Tracks(c, seen, plain, r) && Advances(c, r, r', input, p)
    requires r.decrypted + p == b + r'.decrypted
    ensures Tracks(c, seen + input, plain + b, r')
  {
    forall more ensures Decode(c, 0, seen + input + more) ==
                        Prepend(plain + b + r'.decrypted, Decode(c, r'.nonce, Undecoded(r') + more)) {
      ConcatAssoc(seen, input, more);
      ConcatAssoc(Undecoded(r), input, more);
      PrependChain(plain, r.decrypted, p, b, r'.decrypted, Decode(c, r'.nonce, Undecoded(r') + more));
    }
  }

  lemma PrependChain(plain: seq<byte>, had: seq<byte>, p: seq<byte>, b: seq<byte>, has: seq<byte>, d: Decoded)
    requires had + p == b + has
    ensures Prepend(plain + had, Prepend(p, d)) == Prepend(plain + b + has, d)
  {
    PrependAssoc(plain + had, p, d);
    ConcatAssoc(plain, had, p);
    ConcatAssoc(plain, b, has);
  }

  /** The wire continues the reader's input, so what the reader has decrypted is
      part of what was accepted. */
  lemma DecryptedIsAccepted(c: Cipher, s: Link)
    requires Encodes(c, s.wire, s.accepted, s.frames) && s.sent <= s.wire && s.got <= |s.sent|
    requires Tracks(c, s.sent[..s.got], s.delivered, s.reader)
    ensures s.delivered + s.reader.decrypted <= s.accepted
  {
    var more := s.wire[s.got..];
    assert s.sent[..s.got] + more == s.wire;
    assert s.wire + [] == s.wire;
    assert Decode(c, 0, s.wire + []) == Prepend(s.accepted, Decode(c, s.frames, []));
    assert Decode(c, 0, s.wire).plain == s.accepted;
  }

  /** What a step of the writer leaves alone. */
  lemma ReaderKept(c: Cipher, s: Link, s': Link)
    requires ReaderInv(c, s) && s.sent <= s'.sent && s.accepted <= s'.accepted
    requires s'.reader == s.reader && s'.readerFailed == s.readerFailed
    requires s'.got == s.got && s'.delivered == s.delivered
    ensures ReaderInv(c, s')
  {
    assert s'.sent[..s'.got] == s.sent[..s.got];
  }

  /** A new frame `f` is queued behind the output while `handed` leaves. */
  ghost predicate Queues(s: Link, s': Link, handed: seq<byte>, p: seq<byte>, f: seq<byte>) {
    && handed + s'.writer.output == s.writer.output + f
    && s'.sent == s.sent + handed && s'.wire == s.wire + f && s'.accepted == s.accepted + p
    && s'.frames == s.frames + 1 && s'.writer.nonce == s.writer.nonce + 1
  }

  lemma AcceptQueues(c: Cipher, s: Link, e: Event, s': Link) returns (p: seq<byte>, f: seq<byte>)
    requires e.Write? && e.wout.Wrote? && Next(c, s, e, s')
    ensures |p| <= MAX_PAYLOAD && s.writer.nonce < NONCE_LIMIT
    ensures f == Frame(c.seal(s.writer.nonce, p)) && Queues(s, s', e.handed, p, f)
  {
    p := e.buf[..e.wout.len];
    f := Frame(c.seal(s.writer.nonce, p));
  }

  lemma WireAfter(s: Link, s': Link, handed: seq<byte>, p: seq<byte>, f: seq<byte>)
    requires s.wire == s.sent + s.writer.output && Queues(s, s', handed, p, f)
    ensures s'.wire == s'.sent + s'.writer.output
  {
    ConcatAssoc(s.sent, handed, s'.writer.output);
    ConcatAssoc(s.sent, s.writer.output, f);
  }

  lemma AcceptKeepsInv(c: Cipher, s: Link, e: Event, s': Link)
    requires Sound(c) && Inv(c, s) && e.Write? && e.wout.Wrote? && Next(c, s, e, s')
    ensures Inv(c, s')
  {
    var p, f := AcceptQueues(c, s, e, s');
    WriterQueues(c, s, s', e.handed, p, f);
    ReaderKept(c, s, s');
  }

  lemma WriterQueues(c: Cipher, s: Link, s': Link, handed: seq<byte>, p: seq<byte>, f: seq<byte>)
    requires Sound(c) && WriterInv(c, s) && !s.writerFailed && Queues(s, s', handed, p, f)
    requires |p| <= MAX_PAYLOAD && s.writer.nonce < NONCE_LIMIT && f == Frame(c.seal(s.writer.nonce, p))
    requires WriterWell(s'.writer)
    ensures WriterInv(c, s') && s.sent <= s'.sent && s.accepted <= s'.accepted
  {
    EncodesFrame(c, s.wire, s.accepted, s.frames, p, f);
    WireAfter(s, s', handed, p, f);
  }

  lemma RefuseKeepsInv(c: Cipher, s: Link, e: Event, s': Link)
    requires Sound(c) && Inv(c, s) && e.Write? && !e.wout.Wrote? && Next(c, s, e, s')
    ensures Inv(c, s')
  {
    assert s'.accepted == s.accepted && s'.wire == s.wire && s'.frames == s.frames;
    assert e.handed <= s.writer.output;
    assert s.sent + e.handed <= s.sent + s.writer.output;
    if e.wout.WritePending? { ConcatAssoc(s.sent, e.handed, s'.writer.output); }
    ReaderKept(c, s, s');
  }

  lemma FlushKeepsInv(c: Cipher, s: Link, e: Event, s': Link)
    requires Inv(c, s) && e.Flush? && Next(c, s, e, s')
    ensures Inv(c, s')
  {
    ConcatAssoc(s.sent, e.handed, s'.writer.output);
    ReaderKept(c, s, s');
  }

  lemma ReadKeepsInv(c: Cipher, s: Link, e: Event, s': Link)
    requires Sound(c) && Inv(c, s) && e.Read? && Next(c, s, e, s')
    ensures Inv(c, s')
  {
    var seen := s.sent[..s.got];
    assert s'.sent[..s'.got] == seen + e.input;
    if e.rout.Ready? {
      var p := (e.rout.bytes + s'.reader.decrypted)[|s.reader.decrypted|..];
      TracksMore(c, seen, s.delivered, s.reader, s'.reader, e.input, e.rout.bytes, p);
      DecryptedIsAccepted(c, s');
    } else if !e.rout.ReadError? {
      TracksMore(c, seen, s.delivered, s.reader, s'.reader, e.input, [], []);
      assert s.delivered + [] == s.delivered;
    }
  }

  lemma {:induction false} RunInv(c: Cipher, events: seq<Event>, states: seq<Link>, i: nat)
    requires Sound(c) && IsRun(c, events, states) && i < |states|
    ensures Inv(c, states[i])
  {
    if i == 0 {
      StartInv(c);
    } else {
      RunInv(c, events, states, i - 1);
      assert Next(c, states[i - 1], events[i - 1], states[i]);
      match events[i - 1] {
        case Read(_, _, _) => ReadKeepsInv(c, states[i - 1], events[i - 1], states[i]);
        case Flush(_, _, _) => FlushKeepsInv(c, states[i - 1], events[i - 1], states[i]);
        case Write(_, _, Wrote(_)) => AcceptKeepsInv(c, states[i - 1], events[i - 1], states[i]);
        case Write(_, _, _) => RefuseKeepsInv(c, states[i - 1], events[i - 1], states[i]);
      }
    }
  }

  /** On every run, at every moment, the reader has been handed a prefix of what
      the writer reported as accepted, and the buffers are within their bounds. */
  lemma DeliveredIsPrefix(c: Cipher, events: seq<Event>, states: seq<Link>, i: nat)
    requires Sound(c) && IsRun(c, events, states) && i < |states|
    ensures states[i].delivered <= states[i].accepted
    ensures |states[i].writer.output| <= MAX_NOISE_MESSAGE_LEN + LENGTH_FIELD_SIZE
    ensures |states[i].reader.readBuffer| < MAX_NOISE_MESSAGE_LEN + READ_CHUNK
    ensures |states[i].reader.decrypted| <= MAX_PAYLOAD
  {
    RunInv(c, events, states, i);
  }

  lemma StarvedDecodesNothing(c: Cipher, r: Reader)
    requires ReaderWell(r) && Starved(r)
    ensures Decode(c, r.nonce, Undecoded(r)) == Clean([], Undecoded(r))
  {
    StarvedHasNoFrame(r);
    DecodeNoFrame(c, r.nonce, Undecoded(r));
  }

  /** Once everything is flushed, received and drained without an error, the
      reader has been handed exactly the accepted bytes. */
  lemma DrainedIsEqual(c: Cipher, events: seq<Event>, states: seq<Link>, i: nat)
    requires Sound(c) && IsRun(c, events, states) && i < |states|
    requires var s := states[i];
             && !s.writerFailed && !s.readerFailed
             && s.writer.output == [] && s.got == |s.sent|
             && s.reader.decrypted == [] && Starved(s.reader)
    ensures states[i].delivered == states[i].accepted
  {
    RunInv(c, events, states, i);
    DrainedLink(c, states[i]);
  }

  lemma DrainedLink(c: Cipher, s: Link)
    requires Inv(c, s) && !s.writerFailed && !s.readerFailed && s.writer.output == [] && s.got == |s.sent|
    requires s.reader.decrypted == [] && Starved(s.reader)
    ensures s.delivered == s.accepted
  {
    var u := Undecoded(s.reader);
    assert s.wire == s.sent + [] && s.sent[..s.got] == s.sent;
    assert s.wire + [] == s.wire && u + [] == u;
    StarvedDecodesNothing(c, s.reader);
    DecodeNoFrame(c, s.frames, []);
    assert Decode(c, 0, s.wire + []) == Prepend(s.accepted, Clean([], []));
    assert Decode(c, 0, s.wire + []) == Prepend(s.delivered + [], Clean([], u));
    SamePlain(s.accepted, s.delivered + [], [], u);
  }

  lemma SamePlain(a: seq<byte>, b: seq<byte>, r: seq<byte>, r': seq<byte>)
    requires Prepend(a, Clean([], r)) == Prepend(b, Clean([], r'))
    ensures a == b
  {
    assert a + [] == a && b + [] == b;
  }

  /** The rest of the wire, behind what the reader is about to take in, lets
      the batch decoder finish cleanly. */
  lemma RestDecodes(c: Cipher, s: Link, input: seq<byte>) returns (more: seq<byte>)
    requires Inv(c, s) && !s.readerFailed && input <= s.sent[s.got..]
    ensures Decode(c, s.reader.nonce, Undecoded(s.reader) + input + more).Clean?
  {
    var seen := s.sent[..s.got];
    more := s.wire[s.got + |input|..];
    assert s.wire + [] == seen + (input + more);
    assert Decode(c, 0, s.wire + []) == Prepend(s.accepted, Decode(c, s.frames, []));
    assert Undecoded(s.reader) + input + more == Undecoded(s.reader) + (input + more);
    assert Decode(c, 0, seen + (input + more)).Clean?;
  }

  /** Over a transport that does not alter bytes the reader never reports a
      decryption error. */
  lemma NoFalseDecryptionError(c: Cipher, events: seq<Event>, states: seq<Link>, i: nat)
    requires Sound(c) && IsRun(c, events, states) && i < |events| && events[i].Read?
    ensures events[i].rout != ReadError(Decryption)
  {
    RunInv(c, events, states, i);
    assert Next(c, states[i], events[i], states[i + 1]);
    var more := RestDecodes(c, states[i], events[i].input);
  }

  // ----- the reader alone, on arbitrary bytes -----

  /** One poll; `eof` tells that it met the end of the inner stream. */
  datatype Poll = Poll(input: seq<byte>, room: nat, out: ReadOutcome, eof: bool)

  ghost predicate PollStep(c: Cipher, r: Reader, p: Poll, r': Reader) {
    && ReadStep(c, r, r', p.input, p.room, p.out)
    && (p.eof ==> EndStep(c, r, r', p.input, p.out))
    && (p.room > 0 ==> (p.out == Ready([]) <==> (p.eof && r'.readBuffer == []) || EmptyFrame(c, r, r', p.input)))
  }

  /** A reader polled until, at the latest, its first error. */
  ghost predicate IsReaderRun(c: Cipher, polls: seq<Poll>, readers: seq<Reader>) {
    && |readers| == |polls| + 1 && readers[0] == Start().reader
    && (forall i :: 0 <= i < |polls| ==> PollStep(c, readers[i], polls[i], readers[i + 1]))
    && (forall i :: 0 <= i < |polls| - 1 ==> !polls[i].out.ReadError?)
  }

  /** The bytes taken in by the first `k` polls. */
  ghost function Input(polls: seq<Poll>, k: nat): seq<byte>
    requires k <= |polls|
  {
    if k == 0 then [] else Input(polls, k - 1) + polls[k - 1].input
  }

  ghost function Handed(p: Poll): seq<byte> {
    if p.out.Ready? then p.out.bytes else []
  }

  /** The bytes handed out by the first `k` polls. */
  ghost function Output(polls: seq<Poll>, k: nat): seq<byte>
    requires k <= |polls|
  {
    if k == 0 then [] else Output(polls, k - 1) + Handed(polls[k - 1])
  }

  ghost predicate Broken(polls: seq<Poll>) {
    |polls| > 0 && polls[|polls| - 1].out.ReadError?
  }

  lemma {:induction false} ReaderTracks(c: Cipher, polls: seq<Poll>, readers: seq<Reader>, k: nat)
    requires IsReaderRun(c, polls, readers) && k <= |polls| && (k == |polls| ==> !Broken(polls))
    ensures Tracks(c, Input(polls, k), Output(polls, k), readers[k])
  {
    if k == 0 {
      StartTracks(c, readers[0]);
    } else {
      ReaderTracks(c, polls, readers, k - 1);
      assert PollStep(c, readers[k - 1], polls[k - 1], readers[k]);
      PollTracks(c, Input(polls, k - 1), Output(polls, k - 1), readers[k - 1], polls[k - 1], readers[k],
                 Input(polls, k), Output(polls, k));
    }
  }

  lemma StartTracks(c: Cipher, r: Reader)
    requires r == Start().reader
    ensures Tracks(c, [], [], r)
  {
    StartInv(c);
    var none: seq<byte> := [];
    assert none[..0] == none;
  }

  lemma PollTracks(c: Cipher, seen: seq<byte>, plain: seq<byte>, r: Reader, poll: Poll, r': Reader,
                   seen': seq<byte>, plain': seq<byte>)
    requires Tracks(c, seen, plain, r) && PollStep(c, r, poll, r') && !poll.out.ReadError?
    requires seen' == seen + poll.input && plain' == plain + Handed(poll)
    ensures Tracks(c, seen', plain', r')
  {
    var b := Handed(poll);
    var p := if poll.out.Ready? then (b + r'.decrypted)[|r.decrypted|..] else [];
    TracksMore(c, seen, plain, r, r', poll.input, b, p);
  }

  /** On arbitrary input the reader's buffers stay within fixed bounds. */
  lemma {:induction false} StaysWell(c: Cipher, polls: seq<Poll>, readers: seq<Reader>, k: nat)
    requires IsReaderRun(c, polls, readers) && k <= |polls|
    ensures ReaderWell(readers[k])
  {
    if k > 0 {
      StaysWell(c, polls, readers, k - 1);
      assert PollStep(c, readers[k - 1], polls[k - 1], readers[k]);
    }
  }

  /** The run has handed out all it can: nothing decrypted waits, and no whole
      frame is buffered. */
  ghost predicate Exhausted(polls: seq<Poll>, readers: seq<Reader>)
    requires |readers| == |polls| + 1
  {
    !Broken(polls) && readers[|polls|].decrypted == [] && Starved(readers[|polls|])
  }

  /** An exhausted reader has produced exactly what the batch decoder makes of
      its input, so neither the chunking of the transport nor the sizes of the
      reads show in the output. */
  lemma ExhaustedIsBatch(c: Cipher, polls: seq<Poll>, readers: seq<Reader>)
    requires IsReaderRun(c, polls, readers) && Exhausted(polls, readers)
    ensures Decode(c, 0, Input(polls, |polls|)) == Clean(Output(polls, |polls|), Undecoded(readers[|polls|]))
  {
    ReaderTracks(c, polls, readers, |polls|);
    StaysWell(c, polls, readers, |polls|);
    TracksStarved(c, Input(polls, |polls|), Output(polls, |polls|), readers[|polls|]);
  }

  /** A reader that has nothing left to do has decoded all there is to decode. */
  lemma TracksStarved(c: Cipher, seen: seq<byte>, plain: seq<byte>, r: Reader)
    requires Tracks(c, seen, plain, r) && ReaderWell(r) && r.decrypted == [] && Starved(r)
    ensures Decode(c, 0, seen) == Clean(plain, Undecoded(r))
  {
    assert seen + [] == seen && Undecoded(r) + [] == Undecoded(r);
    assert plain + [] == plain;
    StarvedDecodesNothing(c, r);
  }

  lemma CorruptAfter(c: Cipher, seen: seq<byte>, plain: seq<byte>, r: Reader, input: seq<byte>)
    requires Tracks(c, seen, plain, r) && r.decrypted == []
    requires forall more :: Decode(c, r.nonce, Undecoded(r) + input + more) == Corrupt([])
    ensures Decode(c, 0, seen + input) == Corrupt(plain)
  {
    assert Undecoded(r) + input + [] == Undecoded(r) + input;
    assert plain + r.decrypted + [] == plain;
  }

  /** A reader stops with a decryption error exactly where the batch decoder
      does, having handed out every byte before the bad frame. */
  lemma DecryptionErrorIsBatch(c: Cipher, polls: seq<Poll>, readers: seq<Reader>)
    requires IsReaderRun(c, polls, readers) && |polls| > 0
    requires polls[|polls| - 1].out == ReadError(Decryption)
    ensures Decode(c, 0, Input(polls, |polls|)) == Corrupt(Output(polls, |polls|))
  {
    var n := |polls| - 1;
    ReaderTracks(c, polls, readers, n);
    assert PollStep(c, readers[n], polls[n], readers[n + 1]);
    CorruptAfter(c, Input(polls, n), Output(polls, n), readers[n], polls[n].input);
    assert Output(polls, n) + [] == Output(polls, n);
  }

  /** Two exhausted runs over the same bytes hand out the same bytes. */
  lemma ChunkingInvisible(c: Cipher, polls: seq<Poll>, readers: seq<Reader>,
                          polls': seq<Poll>, readers': seq<Reader>)
    requires IsReaderRun(c, polls, readers) && Exhausted(polls, readers)
    requires IsReaderRun(c, polls', readers') && Exhausted(polls', readers')
    requires Input(polls, |polls|) == Input(polls', |polls'|)
    ensures Output(polls, |polls|) == Output(polls', |polls'|)
  {
    ExhaustedIsBatch(c, polls, readers);
    ExhaustedIsBatch(c, polls', readers');
  }

  // ----- the end of the stream -----

  /** The read buffer of a starved reader is empty exactly when no byte is
      undecoded, or only a length field is. */
  lemma CleanEndExactly(r: Reader)
    requires ReaderWell(r) && Starved(r)
    ensures r.readBuffer == [] <==> |Undecoded(r)| == 0 || |Undecoded(r)| == LENGTH_FIELD_SIZE
  {
  }

  /** A run that meets the end of the inner stream has decoded all its input, and
      reports a clean end exactly when what is left over has 0 or 2 bytes: when the
      stream was cut between frames, or right behind a length field. */
  lemma EndOfStreamExactly(c: Cipher, polls: seq<Poll>, readers: seq<Reader>) returns (rest: seq<byte>)
    requires IsReaderRun(c, polls, readers) && |polls| > 0 && polls[|polls| - 1].eof
    ensures Decode(c, 0, Input(polls, |polls|)) == Clean(Output(polls, |polls|), rest)
    ensures polls[|polls| - 1].out ==
            if |rest| == 0 || |rest| == LENGTH_FIELD_SIZE then Ready([]) else ReadError(UnexpectedEof)
  {
    var n := |polls| - 1;
    var r, r', p := readers[n], readers[n + 1], polls[n];
    ReaderTracks(c, polls, readers, n);
    assert PollStep(c, r, p, r');
    TracksMore(c, Input(polls, n), Output(polls, n), r, r', p.input, [], []);
    assert Output(polls, n) + [] == Output(polls, n) && Handed(p) == [];
    StaysWell(c, polls, readers, n + 1);
    TracksStarved(c, Input(polls, n + 1), Output(polls, n + 1), r');
    CleanEndExactly(r');
    rest := Undecoded(r');
  }

  /** An accepted empty write sends a frame that opens to nothing; the read that
      takes it looks like an end of the stream. */
  lemma EmptyWriteLooksLikeEnd(c: Cipher, w: Writer, w': Writer, handed: seq<byte>, len: nat, r: Reader, r': Reader)
    requires Sound(c) && Writes(c, w, w', [], handed, Wrote(len))
    requires r.decrypted == [] && Undecoded(r) == [] && r.nonce == w.nonce
    requires r'.decrypted == [] && Undecoded(r') == [] && r'.nonce == r.nonce + 1
    ensures var f := Frame(c.seal(w.nonce, []));
            len == 0 && handed + w'.output == w.output + f && EmptyFrame(c, r, r', f)
  {
    var x := c.seal(w.nonce, []);
    var none: seq<byte> := [];
    assert none[..len] == none;
    assert Undecoded(r) + Frame(x) == Frame(x) + Undecoded(r');
    assert OpensTo(c, r, r', Frame(x), x, []);
  }
}
