/** The byte-stream adapter over a Noise session: a framing writer and a
    reassembling reader, polled over a transport that moves bytes piecemeal. */
module NoiseStream {
  import opened Common
  import opened NoiseCodec

  /** Most bytes one read of the inner stream can bring. */
  const READ_CHUNK := 4096

  // ----- the inner transport, as the outcomes of its polls -----

  datatype InnerRead = Data(bytes: seq<byte>) | Eof | ReadFail | ReadBlock
  datatype InnerWrite = Accept(n: nat) | WriteFail | WriteBlock

  predicate GoodScript(script: seq<InnerRead>) {
    forall i :: 0 <= i < |script| && script[i].Data? ==> 0 < |script[i].bytes| <= READ_CHUNK
  }

  function BytesOf(r: InnerRead): seq<byte> {
    if r.Data? then r.bytes else []
  }

  /** The bytes that the first `k` inner reads bring in. */
  function Bytes(script: seq<InnerRead>, k: nat): seq<byte>
    requires k <= |script|
  {
    if k == 0 then [] else Bytes(script, k - 1) + BytesOf(script[k - 1])
  }

  datatype ErrorKind = Transport | UnexpectedEof | Decryption | Encryption
  datatype ReadOutcome = Ready(bytes: seq<byte>) | ReadPending | ReadError(kind: ErrorKind)
  datatype FlushOutcome = Flushed | FlushPending | FlushError
  datatype WriteOutcome = Wrote(len: nat) | WritePending | WriteError(kind: ErrorKind)

  // ----- abstract values of the two halves -----

  datatype Reader = Reader(
    readBuffer: seq<byte>, decrypted: seq<byte>, readingLength: bool, expectedLen: nat, nonce: nat)

  datatype Writer = Writer(output: seq<byte>, nonce: nat)

  /** Bounds that hold on every run, whatever bytes arrive. */
  ghost predicate ReaderWell(r: Reader) {
    && (if r.readingLength then r.expectedLen == LENGTH_FIELD_SIZE else r.expectedLen <= MAX_NOISE_MESSAGE_LEN)
    && |r.readBuffer| < MAX_NOISE_MESSAGE_LEN + READ_CHUNK
    && |r.decrypted| <= MAX_PAYLOAD
  }

  /** At most one frame waits for the transport. */
  ghost predicate WriterWell(w: Writer) {
    |w.output| <= MAX_NOISE_MESSAGE_LEN + LENGTH_FIELD_SIZE && w.nonce <= NONCE_LIMIT
  }

  /** Received bytes not yet decrypted, with a consumed header put back. */
  ghost function Undecoded(r: Reader): seq<byte> {
    (if r.readingLength then [] else Be16(r.expectedLen)) + r.readBuffer
  }

  /** The reader needs more input before it can go on. */
  ghost predicate Starved(r: Reader) {
    |r.readBuffer| < r.expectedLen
  }

  /** Having taken in `input`, the reader stands where the batch decoder stands
      after `p` more bytes of plaintext, for every continuation of the stream. */
  ghost predicate Advances(c: Cipher, r: Reader, r': Reader, input: seq<byte>, p: seq<byte>) {
    forall more :: Decode(c, r.nonce, Undecoded(r) + input + more) ==
                   Prepend(p, Decode(c, r'.nonce, Undecoded(r') + more))
  }

  /** What one `poll_read` with room for `room` bytes does when it takes `input`
      from the transport. Buffers within their bounds stay within them. */
  ghost predicate ReadStep(c: Cipher, r: Reader, r': Reader, input: seq<byte>, room: nat, out: ReadOutcome) {
    (ReaderWell(r) ==> ReaderWell(r')) && Reads(c, r, r', input, room, out)
  }

  ghost predicate Reads(c: Cipher, r: Reader, r': Reader, input: seq<byte>, room: nat, out: ReadOutcome) {
    match out
    case Ready(b) =>
      && |b| <= room
      && (|b| < room ==> r'.decrypted == [])
      && r.decrypted <= b + r'.decrypted
      && Advances(c, r, r', input, (b + r'.decrypted)[|r.decrypted|..])
    case ReadPending =>
      r.decrypted == [] && r'.decrypted == [] && Starved(r') && Advances(c, r, r', input, [])
    case ReadError(Decryption) =>
      r.decrypted == [] && forall more :: Decode(c, r.nonce, Undecoded(r) + input + more) == Corrupt([])
    case ReadError(_) =>
      r'.decrypted == r.decrypted && Advances(c, r, r', input, [])
  }

  /** What a poll does that meets the end of the inner stream, which counts as
      clean whenever the read buffer is empty. */
  ghost predicate EndStep(c: Cipher, r: Reader, r': Reader, input: seq<byte>, out: ReadOutcome) {
    && r.decrypted == [] && r'.decrypted == [] && Starved(r') && Advances(c, r, r', input, [])
    && out == if r'.readBuffer == [] then Ready([]) else ReadError(UnexpectedEof)
  }

  /** The poll took the frame with ciphertext `x`, which opened to `p`. */
  ghost predicate OpensTo(c: Cipher, r: Reader, r': Reader, input: seq<byte>, x: seq<byte>, p: seq<byte>) {
    && r.decrypted == [] && |x| <= MAX_NOISE_MESSAGE_LEN && Decrypt(c, r.nonce, x) == Some(p)
    && Undecoded(r) + input == Frame(x) + Undecoded(r') && r'.nonce == r.nonce + 1
  }

  /** The poll took a frame with no plaintext. */
  ghost predicate EmptyFrame(c: Cipher, r: Reader, r': Reader, input: seq<byte>) {
    exists x :: OpensTo(c, r, r', input, x, [])
  }

  lemma OneFrame(c: Cipher, r: Reader, r': Reader, input: seq<byte>, x: seq<byte>, p: seq<byte>)
    requires OpensTo(c, r, r', input, x, p)
    ensures EmptyFrame(c, r, r', input) <==> p == []
  {
    if EmptyFrame(c, r, r', input) {
      var y :| OpensTo(c, r, r', input, y, []);
      SameFrame(x, y, Undecoded(r'), Undecoded(r) + input);
    }
  }

  lemma SameFrame(x: seq<byte>, y: seq<byte>, rest: seq<byte>, s: seq<byte>)
    requires s == Frame(x) + rest && s == Frame(y) + rest
    ensures x == y
  {
    assert |x| == |y|;
    assert s[LENGTH_FIELD_SIZE..LENGTH_FIELD_SIZE + |x|] == x;
    assert s[LENGTH_FIELD_SIZE..LENGTH_FIELD_SIZE + |y|] == y;
  }

  /** What one `poll_write` does: `handed` goes to the transport, and an accepted
      payload becomes exactly one frame behind what was already waiting. */
  ghost predicate WriteStep(c: Cipher, w: Writer, w': Writer, buf: seq<byte>, handed: seq<byte>, out: WriteOutcome) {
    (WriterWell(w) ==> WriterWell(w')) && Writes(c, w, w', buf, handed, out)
  }

  ghost predicate Writes(c: Cipher, w: Writer, w': Writer, buf: seq<byte>, handed: seq<byte>, out: WriteOutcome) {
    match out
    case Wrote(len) =>
      && len == (if |buf| <= MAX_PAYLOAD then |buf| else MAX_PAYLOAD)
      && w.nonce < NONCE_LIMIT && w'.nonce == w.nonce + 1
      && handed + w'.output == w.output + Frame(c.seal(w.nonce, buf[..len]))
    case WritePending =>
      w'.nonce == w.nonce && handed + w'.output == w.output && w'.output != []
    case WriteError(_) =>
      handed <= w.output && (w'.nonce == w.nonce ==> handed + w'.output == w.output)
  }

  /** What flushing does: it hands on a prefix, and the whole output on success. */
  ghost predicate FlushStep(w: Writer, w': Writer, handed: seq<byte>, ok: bool) {
    && (WriterWell(w) ==> WriterWell(w'))
    && w'.nonce == w.nonce && handed + w'.output == w.output && (ok ==> w'.output == [])
  }

  lemma AdvancesByBuffering(c: Cipher, r: Reader, r': Reader, input: seq<byte>)
    requires r'.nonce == r.nonce && Undecoded(r') == Undecoded(r) + input
    ensures Advances(c, r, r', input, [])
  {
    forall more ensures Decode(c, r.nonce, Undecoded(r) + input + more) ==
                        Prepend([], Decode(c, r'.nonce, Undecoded(r') + more)) {
      PrependAssoc([], [], Decode(c, r'.nonce, Undecoded(r') + more));
    }
  }

  lemma DecodeFrameAt(c: Cipher, n: nat, x: seq<byte>, rest: seq<byte>, more: seq<byte>, s: seq<byte>)
    requires |x| <= MAX_NOISE_MESSAGE_LEN && s == Frame(x) + rest
    ensures Decode(c, n, s + more) ==
            match Decrypt(c, n, x)
            case None => Corrupt([])
            case Some(p) => Prepend(p, Decode(c, n + 1, rest + more))
  {
    ConcatAssoc(Frame(x), rest, more);
    DecodeFrame(c, n, x, rest + more);
  }

  lemma AdvancesByFrame(c: Cipher, r: Reader, r': Reader, input: seq<byte>, x: seq<byte>, p: seq<byte>)
    requires |x| <= MAX_NOISE_MESSAGE_LEN && Decrypt(c, r.nonce, x) == Some(p)
    requires Undecoded(r) + input == Frame(x) + Undecoded(r') && r'.nonce == r.nonce + 1
    ensures Advances(c, r, r', input, p)
  {
    DecodePast(c, r.nonce, Undecoded(r) + input, x, p, Undecoded(r'));
  }

  lemma DecodePast(c: Cipher, n: nat, s: seq<byte>, x: seq<byte>, p: seq<byte>, rest: seq<byte>)
    requires |x| <= MAX_NOISE_MESSAGE_LEN && Decrypt(c, n, x) == Some(p) && s == Frame(x) + rest
    ensures forall more :: Decode(c, n, s + more) == Prepend(p, Decode(c, n + 1, rest + more))
  {
    forall more ensures Decode(c, n, s + more) == Prepend(p, Decode(c, n + 1, rest + more)) {
      DecodeFrameAt(c, n, x, rest, more, s);
    }
  }

  lemma FailsAtFrame(c: Cipher, r: Reader, input: seq<byte>, x: seq<byte>, rest: seq<byte>)
    requires |x| <= MAX_NOISE_MESSAGE_LEN && Decrypt(c, r.nonce, x) == None
    requires Undecoded(r) + input == Frame(x) + rest
    ensures forall more :: Decode(c, r.nonce, Undecoded(r) + input + more) == Corrupt([])
  {
    forall more ensures Decode(c, r.nonce, Undecoded(r) + input + more) == Corrupt([]) {
      DecodeFrameAt(c, r.nonce, x, rest, more, Undecoded(r) + input);
    }
  }

  /** The reader holds what it started with and what the first inner reads brought. */
  ghost predicate Gathered(r: Reader, start: seq<byte>, script: seq<InnerRead>, used: nat) {
    && ReaderWell(r) && used <= |script| && Undecoded(r) == start + Bytes(script, used)
    && (forall i :: 0 <= i < used ==> script[i].Data?)
    && (used > 0 ==> !HasFrame(start + Bytes(script, used - 1)))
  }

  /** A reader that needs more input has no whole frame to decode. */
  lemma StarvedHasNoFrame(r: Reader)
    requires ReaderWell(r) && Starved(r)
    ensures !HasFrame(Undecoded(r))
  {
    if !r.readingLength { HeaderOf(r.expectedLen, r.readBuffer); }
  }

  lemma WholeFrame(r: Reader)
    requires ReaderWell(r) && !r.readingLength && !Starved(r)
    ensures HasFrame(Undecoded(r))
  {
    HeaderOf(r.expectedLen, r.readBuffer);
  }

  lemma GatheredMore(r: Reader, r': Reader, start: seq<byte>, script: seq<InnerRead>, used: nat)
    requires Gathered(r, start, script, used) && used < |script| && script[used].Data? && Starved(r)
    requires ReaderWell(r') && Undecoded(r') == Undecoded(r) + script[used].bytes
    ensures Gathered(r', start, script, used + 1)
  {
    ConcatAssoc(start, Bytes(script, used), script[used].bytes);
    StarvedHasNoFrame(r);
  }

  class NoiseStream {
    const sendCipher: Cipher
    const recvCipher: Cipher
    var sendNonce: nat
    var recvNonce: nat
    var readBuffer: seq<byte>
    var decryptedBuffer: seq<byte>
    var readingLength: bool
    var expectedLen: nat
    var outputBuffer: seq<byte>

    ghost function ReadHalf(): Reader
      reads this
    {
      Reader(readBuffer, decryptedBuffer, readingLength, expectedLen, recvNonce)
    }

    ghost function WriteHalf(): Writer
      reads this
    {
      Writer(outputBuffer, sendNonce)
    }

    ghost predicate Valid()
      reads this
    {
      Sound(sendCipher) && Sound(recvCipher) && ReaderWell(ReadHalf()) && WriterWell(WriteHalf())
    }

    constructor (send: Cipher, recv: Cipher)
      requires Sound(send) && Sound(recv)
      ensures Valid() && sendCipher == send && recvCipher == recv
      ensures ReadHalf() == Reader([], [], true, LENGTH_FIELD_SIZE, 0) && WriteHalf() == Writer([], 0)
    {
      sendCipher, recvCipher := send, recv;
      sendNonce, recvNonce := 0, 0;
      readBuffer, decryptedBuffer, outputBuffer := [], [], [];
      readingLength, expectedLen := true, LENGTH_FIELD_SIZE;
    }

    method Append(filled: seq<byte>)
      requires ReaderWell(ReadHalf()) && Starved(ReadHalf()) && |filled| <= READ_CHUNK
      modifies this`readBuffer
      ensures ReaderWell(ReadHalf())
      ensures Undecoded(ReadHalf()) == old(Undecoded(ReadHalf())) + filled
    {
      assert Undecoded(ReadHalf()) + filled == Undecoded(ReadHalf().(readBuffer := readBuffer + filled));
      readBuffer := readBuffer + filled;
    }

    /** Consumes a buffered length field; the bytes still to be decoded are the same. */
    method ParseHeader()
      requires ReaderWell(ReadHalf()) && readingLength && !Starved(ReadHalf())
      modifies this`readBuffer, this`readingLength, this`expectedLen
      ensures ReaderWell(ReadHalf()) && !readingLength
      ensures Undecoded(ReadHalf()) == old(Undecoded(ReadHalf()))
    {
      var len := FromBe16(readBuffer);
      HeaderPutBack(readBuffer);
      readBuffer := readBuffer[LENGTH_FIELD_SIZE..];
      readingLength := false;
      expectedLen := len;
    }

    /** Reads from the inner stream until a whole frame body is buffered
        (`frame`), or until the poll has to end without one. */
    method Gather(script: seq<InnerRead>) returns (frame: bool, out: ReadOutcome, used: nat)
      requires ReaderWell(ReadHalf()) && GoodScript(script)
      modifies this`readBuffer, this`readingLength, this`expectedLen
      ensures ReaderWell(ReadHalf()) && used <= |script|
      ensures Undecoded(ReadHalf()) == old(Undecoded(ReadHalf())) + Bytes(script, used)
      ensures frame ==> !readingLength && !Starved(ReadHalf()) && (used > 0 ==> script[used - 1].Data?)
      ensures !frame ==> Starved(ReadHalf()) && GatherEnded(script, used, readBuffer, out)
      ensures NoReadTooMany(old(Undecoded(ReadHalf())), script, used)
    {
      used := 0;
      ghost var start := Undecoded(ReadHalf());
      while |readBuffer| < expectedLen || readingLength
        invariant Gathered(ReadHalf(), start, script, used)
        decreases |script| - used, readingLength
      {
        if |readBuffer| < expectedLen {
          if used == |script| {
            return false, ReadPending, used;
          }
          var r := script[used];
          ghost var before := ReadHalf();
          used := used + 1;
          if !r.Data? {
            StarvedHasNoFrame(ReadHalf());
            return false, Ending(r, readBuffer), used;
          }
          Append(r.bytes);
          GatheredMore(before, ReadHalf(), start, script, used - 1);
        } else {
          ParseHeader();
        }
      }
      frame, out := true, ReadPending;
    }

    /** Hands out plaintext left over from an earlier poll. */
    method HandOut(room: nat) returns (out: ReadOutcome)
      requires Valid() && decryptedBuffer != []
      modifies this`decryptedBuffer
      ensures Valid() && out.Ready? && ReadStep(recvCipher, old(ReadHalf()), ReadHalf(), [], room, out)
      ensures room > 0 ==> out != Ready([])
    {
      var len := if room <= |decryptedBuffer| then room else |decryptedBuffer|;
      ghost var start := ReadHalf();
      out := Ready(decryptedBuffer[..len]);
      decryptedBuffer := decryptedBuffer[len..];
      assert start.decrypted == out.bytes + decryptedBuffer;
      AdvancesByBuffering(recvCipher, start, ReadHalf(), []);
    }

    /** `script` holds the outcomes of the inner reads; a transport that has
        nothing more to say is pending. `used` counts the inner reads made. */
    method PollRead(script: seq<InnerRead>, room: nat) returns (out: ReadOutcome, used: nat)
      requires Valid() && GoodScript(script)
      modifies this`readBuffer, this`decryptedBuffer, this`readingLength, this`expectedLen, this`recvNonce
      ensures Valid() && used <= |script|
      ensures ReadStep(recvCipher, old(ReadHalf()), ReadHalf(), Bytes(script, used), room, out)
      ensures used > 0 && script[used - 1].Eof? ==>
                EndStep(recvCipher, old(ReadHalf()), ReadHalf(), Bytes(script, used), out)
      ensures room > 0 ==>
                (out == Ready([]) <==> (used > 0 && script[used - 1].Eof? && readBuffer == [])
                                       || EmptyFrame(recvCipher, old(ReadHalf()), ReadHalf(), Bytes(script, used)))
      ensures out == ReadError(UnexpectedEof) ==> used > 0 && script[used - 1].Eof?
      ensures out == ReadError(Transport) <==> used > 0 && script[used - 1].ReadFail?
      ensures out.ReadError? ==> out.kind != Encryption
      // Leftover plaintext comes first; otherwise the poll reads no more than it
      // needs, and is pending only when the transport is.
      ensures old(decryptedBuffer) != [] ==> used == 0 && out.Ready?
      ensures NoReadTooMany(old(Undecoded(ReadHalf())), script, used)
      ensures out == ReadPending <==>
                old(decryptedBuffer) == [] && !HasFrame(old(Undecoded(ReadHalf())) + Bytes(script, used))
                && (if used > 0 && !script[used - 1].Data? then script[used - 1].ReadBlock? else used == |script|)
    {
      ghost var start := ReadHalf();
      if |decryptedBuffer| > 0 {
        used := 0;
        out := HandOut(room);
        return;
      }
      var frame;
      frame, out, used := Gather(script);
      if frame {
        WholeFrame(ReadHalf());
        out := TakeFrame(room, start, Bytes(script, used));
      } else {
        AdvancesByBuffering(recvCipher, start, ReadHalf(), Bytes(script, used));
        StarvedHasNoFrame(ReadHalf());
      }
    }

    /** Offers the whole output buffer to one inner write. */
    method Offer(outcome: InnerWrite) returns (handed: seq<byte>)
      requires outcome.Accept?
      modifies this`outputBuffer
      ensures handed + outputBuffer == old(outputBuffer)
      ensures handed == if outcome.n < |old(outputBuffer)| then old(outputBuffer)[..outcome.n] else old(outputBuffer)
    {
      var n := if outcome.n <= |outputBuffer| then outcome.n else |outputBuffer|;
      handed := outputBuffer[..n];
      outputBuffer := outputBuffer[n..];
    }

    /** `first` answers the attempt to clear old output, if there is any, and
        `second` the attempt to send the new frame at once. */
    method PollWrite(buf: seq<byte>, first: InnerWrite, second: InnerWrite)
      returns (out: WriteOutcome, handed: seq<byte>)
      requires Valid()
      modifies this`outputBuffer, this`sendNonce
      ensures Valid() && WriteStep(sendCipher, old(WriteHalf()), WriteHalf(), buf, handed, out)
      // While older output is not cleared by the first inner write, the payload is
      // not accepted and nothing else happens.
      ensures !Clears(first, old(outputBuffer)) ==>
                && sendNonce == old(sendNonce) && handed + outputBuffer == old(outputBuffer)
                && handed == (if first.Accept? then old(outputBuffer)[..first.n] else [])
                && out == if first.WriteFail? then WriteError(Transport) else WritePending
      // Afterwards it is sealed under the next nonce, if there is one, and accepted
      // whether or not the second inner write takes anything of it, unless that fails.
      ensures Clears(first, old(outputBuffer)) && old(sendNonce) == 0xffff_ffff_ffff_ffff ==>
                out == WriteError(Encryption) && handed == old(outputBuffer) && outputBuffer == []
      ensures Clears(first, old(outputBuffer)) && old(sendNonce) < 0xffff_ffff_ffff_ffff ==>
                var len := if |buf| <= 65519 then |buf| else 65519;
                var frame := Frame(sendCipher.seal(old(sendNonce), buf[..len]));
                && out == (if second.WriteFail? then WriteError(Transport) else Wrote(len))
                && handed + outputBuffer == old(outputBuffer) + frame
                && |handed| == |old(outputBuffer)| +
                               (if !second.Accept? then 0 else if second.n < |frame| then second.n else |frame|)
    {
      handed := [];
      if outputBuffer != [] {
        if first.WriteFail? { return WriteError(Transport), handed; }
        if first.WriteBlock? { return WritePending, handed; }
        handed := Offer(first);
        if outputBuffer != [] { return WritePending, handed; }
      }
      assert handed == old(outputBuffer);
      var len := if |buf| <= MAX_PAYLOAD then |buf| else MAX_PAYLOAD;
      if sendNonce >= NONCE_LIMIT { return WriteError(Encryption), handed; }
      var ciphertext := sendCipher.seal(sendNonce, buf[..len]);
      sendNonce := sendNonce + 1;
      outputBuffer := Be16(|ciphertext|) + ciphertext;
      assert outputBuffer == Frame(ciphertext);
      if second.WriteFail? { return WriteError(Transport), handed; }
      if second.Accept? {
        var more := Offer(second);
        assert handed + more + outputBuffer == handed + Frame(ciphertext);
        handed := handed + more;
      }
      out := Wrote(len);
    }

    /** `script` answers the inner writes in turn, `inner` the inner flush; `used`
        counts the inner writes that took something. */
    method PollFlush(script: seq<InnerWrite>, inner: FlushOutcome)
      returns (out: FlushOutcome, handed: seq<byte>, used: nat)
      requires Valid()
      modifies this`outputBuffer
      ensures Valid() && FlushStep(old(WriteHalf()), WriteHalf(), handed, out == Flushed)
      ensures FlushedAsScripted(script, |old(outputBuffer)|, |handed|, used)
      ensures out == if outputBuffer == [] then inner
                     else if used < |script| && script[used].WriteFail? then FlushError else FlushPending
    {
      handed, used := [], 0;
      while outputBuffer != []
        invariant FlushingAsScripted(script, |old(outputBuffer)|, |handed|, used)
        invariant handed + outputBuffer == old(outputBuffer)
        decreases |script| - used
      {
        if used == |script| || script[used].WriteBlock? { return FlushPending, handed, used; }
        if script[used].WriteFail? { return FlushError, handed, used; }
        var more := Offer(script[used]);
        handed := handed + more;
        used := used + 1;
      }
      out := inner;
    }

    method PollShutdown(script: seq<InnerWrite>, inner: FlushOutcome, shutdown: FlushOutcome)
      returns (out: FlushOutcome, handed: seq<byte>, used: nat)
      requires Valid()
      modifies this`outputBuffer
      ensures Valid() && FlushStep(old(WriteHalf()), WriteHalf(), handed, out == Flushed)
      ensures FlushedAsScripted(script, |old(outputBuffer)|, |handed|, used)
      ensures out == if outputBuffer != []
                     then if used < |script| && script[used].WriteFail? then FlushError else FlushPending
                     else if old(outputBuffer) != [] && inner != Flushed then inner else shutdown
    {
      handed, used := [], 0;
      if outputBuffer != [] {
        out, handed, used := PollFlush(script, inner);
        if out != Flushed { return; }
      }
      out := shutdown;
    }

    /** Decrypts the frame at the front of `readBuffer` and hands out what fits. */
    method TakeFrame(room: nat, ghost start: Reader, ghost input: seq<byte>) returns (out: ReadOutcome)
      requires Valid() && !readingLength && |readBuffer| >= expectedLen && decryptedBuffer == []
      requires start.decrypted == [] && start.nonce == recvNonce
      requires Undecoded(ReadHalf()) == Undecoded(start) + input
      modifies this`readBuffer, this`decryptedBuffer, this`readingLength, this`expectedLen, this`recvNonce
      ensures Valid() && ReadStep(recvCipher, start, ReadHalf(), input, room, out)
      ensures !out.ReadPending? && (out.ReadError? ==> out.kind == Decryption)
      ensures room > 0 ==> (out == Ready([]) <==> EmptyFrame(recvCipher, start, ReadHalf(), input))
    {
      var chunk := readBuffer[..expectedLen];
      readBuffer := readBuffer[expectedLen..];
      readingLength := true;
      expectedLen := LENGTH_FIELD_SIZE;
      assert Undecoded(start) + input == Frame(chunk) + readBuffer;
      match Decrypt(recvCipher, recvNonce, chunk) {
        case None =>
          FailsAtFrame(recvCipher, start, input, chunk, readBuffer);
          out := ReadError(Decryption);
        case Some(plaintext) =>
          recvNonce := recvNonce + 1;
          var len := if room <= |plaintext| then room else |plaintext|;
          out := Ready(plaintext[..len]);
          decryptedBuffer := plaintext[len..];
          assert out.bytes + decryptedBuffer == plaintext;
          assert Undecoded(ReadHalf()) == readBuffer;
          AdvancesByFrame(recvCipher, start, ReadHalf(), input, chunk, plaintext);
          OneFrame(recvCipher, start, ReadHalf(), input, chunk, plaintext);
      }
    }
  }

  /** The inner write takes all that waits, if anything waits. */
  predicate Clears(w: InnerWrite, waiting: seq<byte>) {
    waiting == [] || (w.Accept? && w.n >= |waiting|)
  }

  /** How many bytes the first `k` inner writes are ready to take. */
  function Taken(script: seq<InnerWrite>, k: nat): nat
    requires k <= |script|
  {
    if k == 0 then 0 else Taken(script, k - 1) + if script[k - 1].Accept? then script[k - 1].n else 0
  }

  /** `handed` of `waiting` bytes went to the first `used` inner writes, each of
      which was still needed. */
  ghost predicate FlushingAsScripted(script: seq<InnerWrite>, waiting: nat, handed: nat, used: nat) {
    && used <= |script| && (forall i :: 0 <= i < used ==> script[i].Accept?)
    && handed == (if Taken(script, used) < waiting then Taken(script, used) else waiting)
    && (used > 0 ==> Taken(script, used - 1) < waiting)
  }

  /** The flush went on until everything was handed on or an inner write took
      nothing. */
  ghost predicate FlushedAsScripted(script: seq<InnerWrite>, waiting: nat, handed: nat, used: nat) {
    && FlushingAsScripted(script, waiting, handed, used)
    && (handed < waiting ==> used == |script| || !script[used].Accept?)
  }

  /** How a poll that found no whole frame ends, by its last inner read. */
  ghost predicate GatherEnded(script: seq<InnerRead>, used: nat, readBuffer: seq<byte>, out: ReadOutcome)
    requires used <= |script|
  {
    if used > 0 && !script[used - 1].Data? then out == Ending(script[used - 1], readBuffer)
    else out == ReadPending && used == |script|
  }

  /** All inner reads but the last brought data, and each was needed: without the
      last one no whole frame was at hand. */
  ghost predicate NoReadTooMany(start: seq<byte>, script: seq<InnerRead>, used: nat)
    requires used <= |script|
  {
    && (forall i :: 0 <= i < used - 1 ==> script[i].Data?)
    && (used > 0 ==> !HasFrame(start + Bytes(script, used - 1)))
  }

  /** The end of the inner stream is clean whenever `readBuffer` is empty. */
  function Ending(r: InnerRead, readBuffer: seq<byte>): ReadOutcome
    requires !r.Data?
  {
    match r
    case Eof => if readBuffer == [] then Ready([]) else ReadError(UnexpectedEof)
    case ReadFail => ReadError(Transport)
    case ReadBlock => ReadPending
  }

  lemma HeaderPutBack(s: seq<byte>)
    requires |s| >= LENGTH_FIELD_SIZE
    ensures Be16(FromBe16(s)) + s[LENGTH_FIELD_SIZE..] == s
  {
  }
}
