/** Length-framed ciphertext: the byte format shared by the two halves of a
    Noise stream, with a batch decoder that serves as their reference. */
module NoiseCodec {
  import opened Common

  const MAX_NOISE_MESSAGE_LEN := 65535
  const LENGTH_FIELD_SIZE := 2
  const TAG_LEN := 16
  const MAX_PAYLOAD := MAX_NOISE_MESSAGE_LEN - TAG_LEN

  /** The nonce value that the Noise Protocol Framework reserves (section 5.1). */
  const NONCE_LIMIT := 0xffff_ffff_ffff_ffff

  /** One direction of a transport session, as functions of the nonce. */
  datatype Cipher = Cipher(
    seal: (nat, seq<byte>) -> seq<byte>,
    open: (nat, seq<byte>) -> Option<seq<byte>>)

  /** Opening undoes sealing under the same nonce, and a tag of 16 bytes is added. */
  ghost predicate Sound(c: Cipher) {
    && (forall n, p :: |c.seal(n, p)| == |p| + TAG_LEN && c.open(n, c.seal(n, p)) == Some(p))
    && (forall n, x :: c.open(n, x).Some? ==> |x| == |c.open(n, x).value| + TAG_LEN)
  }

  /** `u16` in network byte order, with the narrowing cast written out. */
  function Be16(n: nat): (s: seq<byte>)
    ensures |s| == LENGTH_FIELD_SIZE
  {
    [n / 0x100 % 0x100, n % 0x100]
  }

  function FromBe16(s: seq<byte>): (n: nat)
    requires |s| >= LENGTH_FIELD_SIZE
    ensures n <= MAX_NOISE_MESSAGE_LEN
  {
    0x100 * (s[0] as int) + s[1] as int
  }

  function Frame(x: seq<byte>): (f: seq<byte>)
    ensures |f| == |x| + LENGTH_FIELD_SIZE
  {
    Be16(|x|) + x
  }

  /** What a byte string decodes to: the plaintext of its whole frames, and
      either the bytes of a last incomplete frame or a frame that does not open. */
  datatype Decoded = Clean(plain: seq<byte>, rest: seq<byte>) | Corrupt(plain: seq<byte>)

  function Prepend(p: seq<byte>, d: Decoded): Decoded {
    match d
    case Clean(q, rest) => Clean(p + q, rest)
    case Corrupt(q) => Corrupt(p + q)
  }

  predicate HasFrame(s: seq<byte>) {
    |s| >= LENGTH_FIELD_SIZE && |s| >= LENGTH_FIELD_SIZE + FromBe16(s)
  }

  /** Decrypts one ciphertext; the reserved nonce is refused. */
  function Decrypt(c: Cipher, n: nat, x: seq<byte>): Option<seq<byte>> {
    if n < NONCE_LIMIT then c.open(n, x) else None
  }

  /** Batch decoder: reads frame after frame from the front. */
  function Decode(c: Cipher, n: nat, s: seq<byte>): Decoded
    decreases |s|
  {
    if !HasFrame(s) then Clean([], s)
    else
      var end := LENGTH_FIELD_SIZE + FromBe16(s);
      match Decrypt(c, n, s[LENGTH_FIELD_SIZE..end])
      case None => Corrupt([])
      case Some(p) => Prepend(p, Decode(c, n + 1, s[end..]))
  }

  lemma DecodeNoFrame(c: Cipher, n: nat, s: seq<byte>)
    requires !HasFrame(s)
    ensures Decode(c, n, s) == Clean([], s)
  {
  }

  lemma PrependAssoc(p: seq<byte>, q: seq<byte>, d: Decoded)
    ensures Prepend(p, Prepend(q, d)) == Prepend(p + q, d)
    ensures Prepend([], d) == d
  {
    assert p + (q + d.plain) == p + q + d.plain;
    assert [] + d.plain == d.plain;
  }

  /** A length survives the two-byte field exactly when it is at most 65535. */
  lemma Be16RoundTrip(n: nat)
    ensures FromBe16(Be16(n)) == n <==> n <= MAX_NOISE_MESSAGE_LEN
  {
  }

  /** The field is in network byte order: its first byte is the more significant. */
  lemma Be16Order(n: nat)
    requires n <= 65535
    ensures var first := Be16(n)[0] as int; 0x100 * first <= n < 0x100 * (first + 1)
  {
  }

  lemma HeaderOf(n: nat, rest: seq<byte>)
    requires n <= MAX_NOISE_MESSAGE_LEN
    ensures FromBe16(Be16(n) + rest) == n
  {
    Be16RoundTrip(n);
  }

  /** A frame at the front is taken off as a unit, whatever follows it. */
  lemma DecodeFrame(c: Cipher, n: nat, x: seq<byte>, rest: seq<byte>)
    requires |x| <= MAX_NOISE_MESSAGE_LEN
    ensures Decode(c, n, Frame(x) + rest) ==
            match Decrypt(c, n, x)
            case None => Corrupt([])
            case Some(p) => Prepend(p, Decode(c, n + 1, rest))
  {
    var s := Frame(x) + rest;
    Be16RoundTrip(|x|);
    assert s[..2] == Be16(|x|);
    assert s[2..2 + |x|] == x && s[2 + |x|..] == rest;
  }

  // ----- handshake frames -----

  /** Reads one handshake frame from the front of a stream into a buffer of the
      given capacity; `None` stands for a short stream or an oversized frame. */
  function ReadFrame(s: seq<byte>, capacity: nat): Option<(seq<byte>, seq<byte>)> {
    if |s| < LENGTH_FIELD_SIZE || FromBe16(s) > capacity then None
    else
      var end := LENGTH_FIELD_SIZE + FromBe16(s);
      if |s| < end then None else Some((s[LENGTH_FIELD_SIZE..end], s[end..]))
  }

  /** Handshake framing is undone exactly for messages that fit the length
      field; both ends use 65535-byte buffers. */
  lemma HandshakeRoundTrip(data: seq<byte>, rest: seq<byte>)
    ensures ReadFrame(Frame(data) + rest, MAX_NOISE_MESSAGE_LEN) == Some((data, rest))
            <==> |data| <= MAX_NOISE_MESSAGE_LEN
  {
    var s := Frame(data) + rest;
    Be16RoundTrip(|data|);
    assert s[..2] == Be16(|data|);
    if |data| <= MAX_NOISE_MESSAGE_LEN {
      assert s[2..2 + |data|] == data && s[2 + |data|..] == rest;
    }
  }
}
