/**
  The binary sync protocol (web/src/protocol.ts).

  A frame is generic in how its text fields are held: as texts, which is what the program
  handles, or as the bytes that travel. On bytes the codec is a bijection; on texts it is
  one exactly up to the byte-order mark that the browser's decoder strips.
 */
module SyncFrame {
  import opened Wrappers
  import opened Binary
  import opened Utf8

  const MAX_BLOB: nat := 16 * 1024 * 1024

  type Status = s: int | 0 <= s <= 1

  datatype Catchup = NoCatchup | Updates(bytes: Bytes) | FullSnapshot(bytes: Bytes)

  datatype BlobKind = UpdateBlob | SnapshotBlob | PresenceBlob

  datatype Frame<S> =
    | Hello(proto: nat, documentId: S, peer: int, token: S, versionVector: Bytes)
    | Welcome(status: Status, note: S, catchup: Catchup)
    | Blob(kind: BlobKind, bytes: Bytes)
    | Heartbeat
    | Bye
    | Error(code: nat, message: S)

  // ------------------------------------------------------------------ encoding

  function Sized(b: Bytes): Bytes { BigEndian(|b|, 4) + b }

  function BlobTag(kind: BlobKind): byte {
    match kind
    case UpdateBlob => 3
    case SnapshotBlob => 4
    case PresenceBlob => 5
  }

  function CatchupBytes(c: Catchup): Bytes {
    match c
    case NoCatchup => [0]
    case Updates(b) => [1] + Sized(b)
    case FullSnapshot(b) => [2] + Sized(b)
  }

  function CredentialBytes(peer: nat, token: Bytes, vv: Bytes): Bytes {
    BigEndian(peer, 8) + (Sized(token) + Sized(vv))
  }

  function HelloBytes(proto: nat, doc: Bytes, peer: nat, token: Bytes, vv: Bytes): Bytes {
    [proto % 256] + (Sized(doc) + CredentialBytes(peer, token, vv))
  }

  function WelcomeBytes(status: Status, note: Bytes, catchup: Catchup): Bytes {
    [status] + (Sized(note) + CatchupBytes(catchup))
  }

  /** The number naming the type of a frame. */
  function Tag<S>(f: Frame<S>): byte {
    match f
    case Hello(_, _, _, _, _) => 1
    case Welcome(_, _, _) => 2
    case Blob(kind, _) => BlobTag(kind)
    case Heartbeat => 6
    case Error(_, _) => 7
    case Bye => 8
  }

  function Body(f: Frame<Bytes>): Bytes {
    match f
    case Hello(proto, doc, peer, token, vv) => HelloBytes(proto, doc, if peer >= 0 then peer else 0, token, vv)
    case Welcome(status, note, catchup) => WelcomeBytes(status, note, catchup)
    case Blob(_, b) => Sized(b)
    case Error(code, message) => BigEndian(code, 2) + Sized(message)
    case _ => []
  }

  /** The frame on the wire. A `u8` field keeps its low byte, as storing into a byte array does. */
  function Encoded(f: Frame<Bytes>): Bytes { [Tag(f)] + Body(f) }

  /** The first byte of a message names its type. */
  lemma TypeNumbers(f: Frame<Bytes>)
    ensures var n := Encoded(f)[0];
            && (n == 1 <==> f.Hello?) && (n == 2 <==> f.Welcome?)
            && (n == 3 <==> f.Blob? && f.kind.UpdateBlob?) && (n == 4 <==> f.Blob? && f.kind.SnapshotBlob?)
            && (n == 5 <==> f.Blob? && f.kind.PresenceBlob?) && (n == 6 <==> f.Heartbeat?)
            && (n == 7 <==> f.Error?) && (n == 8 <==> f.Bye?)
  {
  }

  /** When the encoder does not throw. */
  predicate Encodable(f: Frame<Bytes>) {
    match f
    case Hello(_, doc, peer, token, vv) => 0 <= peer < U64 && |doc| < U32 && |token| < U32 && |vv| < U32
    case Welcome(_, note, catchup) => |note| < U32 && (catchup.NoCatchup? || |catchup.bytes| < U32)
    case Blob(_, b) => |b| < U32
    case Error(_, message) => |message| < U32
    case _ => true
  }

  // ------------------------------------------------------------------ decoding

  datatype Parsed<T> = Fail | Got(value: T, rest: Bytes)

  function ReadUint(b: Bytes, n: nat): Parsed<nat> {
    if |b| < n then Fail else Got(FromBigEndian(b[..n]), b[n..])
  }

  function ReadBlob(b: Bytes): Parsed<Bytes> {
    match ReadUint(b, 4)
    case Fail => Fail
    case Got(len, rest) => if len > MAX_BLOB || |rest| < len then Fail else Got(rest[..len], rest[len..])
  }

  /** The bytes of a text field; ill-formed UTF-8 is refused. */
  function ReadText(b: Bytes): Parsed<Bytes> {
    match ReadBlob(b)
    case Fail => Fail
    case Got(payload, rest) => if Decode(payload).Some? then Got(payload, rest) else Fail
  }

  /** The last three fields of a hello: the peer, the token and the version vector. */
  function ReadCredentials(b: Bytes): Parsed<(nat, Bytes, Bytes)> {
    match ReadUint(b, 8) case Fail => Fail case Got(peer, b1) =>
    match ReadText(b1) case Fail => Fail case Got(token, b2) =>
    match ReadBlob(b2) case Fail => Fail case Got(vv, b3) => Got((peer, token, vv), b3)
  }

  function ReadHello(b: Bytes): Parsed<Frame<Bytes>> {
    match ReadUint(b, 1) case Fail => Fail case Got(proto, b1) =>
    match ReadText(b1) case Fail => Fail case Got(doc, b2) =>
    match ReadCredentials(b2) case Fail => Fail case Got(c, b3) => Got(Hello(proto, doc, c.0, c.1, c.2), b3)
  }

  function ReadCatchup(b: Bytes): Parsed<Catchup> {
    match ReadUint(b, 1) case Fail => Fail case Got(tag, b1) =>
    if tag == 0 then Got(NoCatchup, b1)
    else if tag == 1 || tag == 2 then
      match ReadBlob(b1) case Fail => Fail case Got(bytes, b2) =>
      Got(if tag == 1 then Updates(bytes) else FullSnapshot(bytes), b2)
    else Fail
  }

  function ReadWelcome(b: Bytes): Parsed<Frame<Bytes>> {
    match ReadUint(b, 1) case Fail => Fail case Got(status, b1) =>
    if status > 1 then Fail
    else
      match ReadText(b1) case Fail => Fail case Got(note, b2) =>
      match ReadCatchup(b2) case Fail => Fail case Got(catchup, b3) => Got(Welcome(status, note, catchup), b3)
  }

  function ReadBlobFrame(kind: BlobKind, b: Bytes): Parsed<Frame<Bytes>> {
    match ReadBlob(b) case Fail => Fail case Got(bytes, b1) => Got(Blob(kind, bytes), b1)
  }

  function ReadError(b: Bytes): Parsed<Frame<Bytes>> {
    match ReadUint(b, 2) case Fail => Fail case Got(code, b1) =>
    match ReadText(b1) case Fail => Fail case Got(message, b2) => Got(Error(code, message), b2)
  }

  /** One frame off the front of the bytes. */
  function ReadFrame(b: Bytes): Parsed<Frame<Bytes>> {
    if b == [] then Fail
    else match b[0]
      case 1 => ReadHello(b[1..])
      case 2 => ReadWelcome(b[1..])
      case 3 => ReadBlobFrame(UpdateBlob, b[1..])
      case 4 => ReadBlobFrame(SnapshotBlob, b[1..])
      case 5 => ReadBlobFrame(PresenceBlob, b[1..])
      case 6 => Got(Heartbeat, b[1..])
      case 7 => ReadError(b[1..])
      case 8 => Got(Bye, b[1..])
      case _ => Fail
  }

  /** A complete frame: trailing bytes are refused. */
  function DecodeBytes(b: Bytes): Option<Frame<Bytes>> {
    match ReadFrame(b)
    case Got(f, rest) => if rest == [] then Some(f) else None
    case Fail => None
  }

  // ------------------------------------------------------------------ reading back what was written

  lemma ReadUintBack(v: nat, n: nat, rest: Bytes)
    requires v < Power256(n)
    ensures ReadUint(BigEndian(v, n) + rest, n) == Got(v, rest)
  {
    BigEndianRoundTrip(v, n);
    assert (BigEndian(v, n) + rest)[..n] == BigEndian(v, n);
    assert (BigEndian(v, n) + rest)[n..] == rest;
  }

  lemma ReadByteBack(v: byte, rest: Bytes)
    ensures ReadUint([v] + rest, 1) == Got(v, rest)
  {
    assert BigEndian(v, 1) == [v];
    Powers();
    ReadUintBack(v, 1, rest);
  }

  lemma ReadBlobBack(b: Bytes, rest: Bytes)
    requires |b| < U32
    ensures ReadBlob(Sized(b) + rest) == if |b| <= MAX_BLOB then Got(b, rest) else Fail
  {
    Powers();
    assert Sized(b) + rest == BigEndian(|b|, 4) + (b + rest);
    ReadUintBack(|b|, 4, b + rest);
    assert (b + rest)[..|b|] == b && (b + rest)[|b|..] == rest;
  }

  lemma ReadTextBack(b: Bytes, rest: Bytes)
    requires |b| < U32
    ensures ReadText(Sized(b) + rest) == if TextField(b) then Got(b, rest) else Fail
  {
    ReadBlobBack(b, rest);
  }

  /** A payload the decoder admits as a text. */
  predicate TextField(b: Bytes) { |b| <= MAX_BLOB && Decode(b).Some? }

  predicate CatchupFits(c: Catchup) { c.NoCatchup? || |c.bytes| <= MAX_BLOB }

  /** Every field is within what the decoder admits. */
  predicate Readable(f: Frame<Bytes>) {
    match f
    case Hello(_, doc, _, token, vv) => TextField(doc) && TextField(token) && |vv| <= MAX_BLOB
    case Welcome(_, note, catchup) => TextField(note) && CatchupFits(catchup)
    case Blob(_, b) => |b| <= MAX_BLOB
    case Error(_, message) => TextField(message)
    case _ => true
  }

  /** The numbers are within the width of their fields. */
  predicate InRange<S>(f: Frame<S>) {
    match f
    case Hello(proto, _, peer, _, _) => proto < 256 && 0 <= peer < U64
    case Error(code, _) => code < U16
    case _ => true
  }

  /** The frame with its unchecked numbers cut to the width of their fields. */
  function Clipped<S>(f: Frame<S>): (r: Frame<S>) {
    match f
    case Hello(proto, _, _, _, _) => f.(proto := proto % 256)
    case Error(code, _) => f.(code := code % U16)
    case _ => f
  }

  lemma CatchupForward(c: Catchup, rest: Bytes)
    requires c.NoCatchup? || |c.bytes| < U32
    ensures ReadCatchup(CatchupBytes(c) + rest) == if CatchupFits(c) then Got(c, rest) else Fail
  {
    match c
    case NoCatchup => ReadByteBack(0, rest);
    case Updates(b) =>
      assert CatchupBytes(c) + rest == [1] + (Sized(b) + rest);
      ReadByteBack(1, Sized(b) + rest);
      ReadBlobBack(b, rest);
    case FullSnapshot(b) =>
      assert CatchupBytes(c) + rest == [2] + (Sized(b) + rest);
      ReadByteBack(2, Sized(b) + rest);
      ReadBlobBack(b, rest);
  }

  lemma CredentialsForward(peer: nat, token: Bytes, vv: Bytes, rest: Bytes)
    requires peer < U64 && |token| < U32 && |vv| < U32
    ensures ReadCredentials(CredentialBytes(peer, token, vv) + rest) ==
            if TextField(token) && |vv| <= MAX_BLOB then Got((peer, token, vv), rest) else Fail
  {
    var r2 := Sized(vv) + rest;
    var r1 := Sized(token) + r2;
    assert CredentialBytes(peer, token, vv) + rest == BigEndian(peer, 8) + r1;
    Powers();
    ReadUintBack(peer, 8, r1);
    ReadTextBack(token, r2);
    ReadBlobBack(vv, rest);
  }

  lemma HelloForward(f: Frame<Bytes>, rest: Bytes)
    requires f.Hello? && Encodable(f)
    ensures ReadHello(Body(f) + rest) == if Readable(f) then Got(Clipped(f), rest) else Fail
  {
    var r2 := CredentialBytes(f.peer, f.token, f.versionVector) + rest;
    var r1 := Sized(f.documentId) + r2;
    assert Body(f) + rest == [f.proto % 256] + r1;
    ReadByteBack(f.proto % 256, r1);
    ReadTextBack(f.documentId, r2);
    CredentialsForward(f.peer, f.token, f.versionVector, rest);
  }

  lemma WelcomeForward(f: Frame<Bytes>, rest: Bytes)
    requires f.Welcome? && Encodable(f)
    ensures ReadWelcome(Body(f) + rest) == if Readable(f) then Got(f, rest) else Fail
  {
    var r2 := CatchupBytes(f.catchup) + rest;
    var r1 := Sized(f.note) + r2;
    assert Body(f) + rest == [f.status] + r1;
    ReadByteBack(f.status, r1);
    ReadTextBack(f.note, r2);
    CatchupForward(f.catchup, rest);
  }

  lemma ErrorForward(f: Frame<Bytes>, rest: Bytes)
    requires f.Error? && Encodable(f)
    ensures ReadError(Body(f) + rest) == if Readable(f) then Got(Clipped(f), rest) else Fail
  {
    var r1 := Sized(f.message) + rest;
    assert Body(f) + rest == BigEndian(f.code, 2) + r1;
    Powers();
    LowBytes(f.code, 2);
    ReadUintBack(f.code % U16, 2, r1);
    ReadTextBack(f.message, rest);
  }

  /**
    What the reader makes of an encoded frame, whatever follows it: the frame, cut to its
    field widths, and all of what follows; or a refusal if a field is over the size limit
    or is no text.
   */
  lemma FrameForward(f: Frame<Bytes>, rest: Bytes)
    requires Encodable(f)
    ensures ReadFrame(Encoded(f) + rest) == if Readable(f) then Got(Clipped(f), rest) else Fail
  {
    TagOff(Tag(f), Body(f), rest);
    match f
    case Hello(_, _, _, _, _) => HelloForward(f, rest);
    case Welcome(_, _, _) => WelcomeForward(f, rest);
    case Error(_, _) => ErrorForward(f, rest);
    case Blob(_, bytes) => ReadBlobBack(bytes, rest);
    case _ => assert Body(f) + rest == rest;
  }

  lemma TagOff(tag: byte, body: Bytes, rest: Bytes)
    ensures var b := [tag] + body + rest; b != [] && b[0] == tag && b[1..] == body + rest
  {
  }

  // ------------------------------------------------------------------ what is accepted was written

  lemma UintBackward(b: Bytes, n: nat)
    requires ReadUint(b, n).Got?
    ensures var Got(v, rest) := ReadUint(b, n); v < Power256(n) && b == BigEndian(v, n) + rest
  {
    FromBigEndianBound(b[..n]);
    ToBigEndianRoundTrip(b[..n]);
    assert b == b[..n] + b[n..];
  }

  lemma ByteBackward(b: Bytes)
    requires ReadUint(b, 1).Got?
    ensures var Got(v, rest) := ReadUint(b, 1); v < 256 && b == [v] + rest
  {
    UintBackward(b, 1);
    Powers();
    var v := ReadUint(b, 1).value;
    assert BigEndian(v, 1) == [v];
  }

  lemma SplitOff(head: Bytes, tail: Bytes, k: nat)
    requires k <= |tail|
    ensures head + tail == head + tail[..k] + tail[k..]
  {
    assert tail == tail[..k] + tail[k..];
  }

  lemma BlobBackward(b: Bytes)
    requires ReadBlob(b).Got?
    ensures var Got(v, rest) := ReadBlob(b); |v| <= MAX_BLOB && b == Sized(v) + rest
  {
    UintBackward(b, 4);
    var Got(len, rest) := ReadUint(b, 4);
    SplitOff(BigEndian(len, 4), rest, len);
  }

  lemma CatchupBackward(b: Bytes)
    requires ReadCatchup(b).Got?
    ensures var Got(c, rest) := ReadCatchup(b); CatchupFits(c) && b == CatchupBytes(c) + rest
  {
    ByteBackward(b);
    var Got(tag, b1) := ReadUint(b, 1);
    if tag != 0 {
      BlobBackward(b1);
      var Got(v, rest) := ReadBlob(b1);
      assert [tag] + (Sized(v) + rest) == [tag] + Sized(v) + rest;
    }
  }

  lemma CredentialsBackward(b: Bytes)
    requires ReadCredentials(b).Got?
    ensures var Got((peer, token, vv), rest) := ReadCredentials(b);
            peer < U64 && TextField(token) && |vv| <= MAX_BLOB && b == CredentialBytes(peer, token, vv) + rest
  {
    var Got(peer, b1) := ReadUint(b, 8);
    var Got(token, b2) := ReadText(b1);
    var Got(vv, rest) := ReadBlob(b2);
    UintBackward(b, 8);
    Powers();
    BlobBackward(b1);
    BlobBackward(b2);
    Regroups(BigEndian(peer, 8), Sized(token), Sized(vv), b, b1, b2, rest);
  }

  lemma Regroups(x: Bytes, y: Bytes, z: Bytes, b: Bytes, b1: Bytes, b2: Bytes, rest: Bytes)
    requires b == x + b1 && b1 == y + b2 && b2 == z + rest
    ensures b == x + (y + z) + rest
  {
    assert b1 == y + z + rest;
  }

  lemma TagRegroups(tag: byte, b: Bytes, body: Bytes, rest: Bytes)
    requires b == body + rest
    ensures [tag] + b == [tag] + body + rest
  {
  }

  lemma HelloBackward(b: Bytes)
    requires ReadHello(b).Got?
    ensures var Got(f, rest) := ReadHello(b);
            f.Hello? && Encodable(f) && Readable(f) && InRange(f)
            && b == HelloBytes(f.proto, f.documentId, f.peer, f.token, f.versionVector) + rest
  {
    var Got(f, rest) := ReadHello(b);
    var b1 := ReadUint(b, 1).rest;
    var b2 := ReadText(b1).rest;
    var c := CredentialBytes(f.peer, f.token, f.versionVector);
    ByteBackward(b);
    BlobBackward(b1);
    assert b2 == c + rest && Encodable(f) && Readable(f) by { CredentialsBackward(b2); }
    HelloRegroups(f, c, b, b1, b2, rest);
  }

  lemma HelloRegroups(f: Frame<Bytes>, c: Bytes, b: Bytes, b1: Bytes, b2: Bytes, rest: Bytes)
    requires f.Hello? && InRange(f) && c == CredentialBytes(f.peer, f.token, f.versionVector)
    requires b == [f.proto] + b1 && b1 == Sized(f.documentId) + b2 && b2 == c + rest
    ensures b == HelloBytes(f.proto, f.documentId, f.peer, f.token, f.versionVector) + rest
  {
    Regroups([f.proto], Sized(f.documentId), c, b, b1, b2, rest);
  }

  lemma WelcomeBackward(b: Bytes)
    requires ReadWelcome(b).Got?
    ensures var Got(f, rest) := ReadWelcome(b);
            f.Welcome? && Encodable(f) && Readable(f) && b == WelcomeBytes(f.status, f.note, f.catchup) + rest
  {
    var Got(status, b1) := ReadUint(b, 1);
    var Got(note, b2) := ReadText(b1);
    var Got(catchup, rest) := ReadCatchup(b2);
    ByteBackward(b);
    BlobBackward(b1);
    CatchupBackward(b2);
    Regroups([status], Sized(note), CatchupBytes(catchup), b, b1, b2, rest);
  }

  lemma ErrorBackward(b: Bytes)
    requires ReadError(b).Got?
    ensures var Got(f, rest) := ReadError(b);
            f.Error? && Encodable(f) && Readable(f) && InRange(f) && b == Body(f) + rest
  {
    var Got(code, b1) := ReadUint(b, 2);
    var Got(message, rest) := ReadText(b1);
    UintBackward(b, 2);
    Powers();
    BlobBackward(b1);
    assert BigEndian(code, 2) + (Sized(message) + rest) == BigEndian(code, 2) + Sized(message) + rest;
  }

  lemma BodyBackward(b: Bytes)
    requires ReadFrame(b).Got?
    ensures var Got(f, rest) := ReadFrame(b);
            Encodable(f) && Readable(f) && InRange(f) && Tag(f) == b[0] && b[1..] == Body(f) + rest
  {
    var tail := b[1..];
    if b[0] == 1 {
      HelloBackward(tail);
    } else if b[0] == 2 {
      WelcomeBackward(tail);
    } else if b[0] == 7 {
      ErrorBackward(tail);
    } else if 3 <= b[0] <= 5 {
      BlobBackward(tail);
    }
  }

  /** Whatever the reader accepts is the encoding of the frame it returns, and of no other. */
  lemma FrameBackward(b: Bytes)
    requires ReadFrame(b).Got?
    ensures var Got(f, rest) := ReadFrame(b);
            Encodable(f) && Readable(f) && InRange(f) && b == Encoded(f) + rest
  {
    BodyBackward(b);
    var Got(f, rest) := ReadFrame(b);
    TagRegroups(b[0], b[1..], Body(f), rest);
    HeadTail(b);
  }

  lemma HeadTail(b: Bytes)
    requires b != []
    ensures b == [b[0]] + b[1..]
  {
  }

  // ------------------------------------------------------------------ the codec on bytes

  /** A frame comes back from the wire as it went exactly if it fits its fields and the limits. */
  lemma BytesRoundTrip(f: Frame<Bytes>)
    requires Encodable(f)
    ensures DecodeBytes(Encoded(f)) == if Readable(f) then Some(Clipped(f)) else None
    ensures DecodeBytes(Encoded(f)) == Some(f) <==> Readable(f) && InRange(f)
  {
    EncodedReads(f);
    ClippedInRange(f);
  }

  lemma EncodedReads(f: Frame<Bytes>)
    requires Encodable(f)
    ensures ReadFrame(Encoded(f)) == if Readable(f) then Got(Clipped(f), []) else Fail
  {
    AppendNil(Encoded(f));
    FrameForward(f, []);
  }

  lemma AppendNil(b: Bytes)
    ensures b + [] == b
  {
  }

  lemma ClippedInRange(f: Frame<Bytes>)
    requires Encodable(f)
    ensures Clipped(f) == f <==> InRange(f)
  {
  }

  /** The decoder accepts exactly the canonical encodings: nothing is written in two ways. */
  lemma AcceptedIsCanonical(b: Bytes)
    requires DecodeBytes(b).Some?
    ensures var f := DecodeBytes(b).value; Encodable(f) && Readable(f) && InRange(f) && Encoded(f) == b
  {
    FrameBackward(b);
    AppendNil(Encoded(DecodeBytes(b).value));
  }

  /** No accepted message is a proper prefix of another. */
  lemma PrefixFree(b: Bytes, more: Bytes)
    requires DecodeBytes(b).Some? && more != []
    ensures DecodeBytes(b + more) == None
  {
    AcceptedThenMore(b, more);
  }

  lemma AcceptedThenMore(b: Bytes, more: Bytes)
    requires DecodeBytes(b).Some?
    ensures ReadFrame(b + more) == Got(DecodeBytes(b).value, more)
  {
    AcceptedIsCanonical(b);
    var f := DecodeBytes(b).value;
    FrameForward(f, more);
    ClippedInRange(f);
  }

  /** Cutting an encoded frame short or adding to it gives bytes that are refused. */
  lemma CutOrExtendedIsRefused(f: Frame<Bytes>, k: nat, more: Bytes)
    requires Encodable(f)
    ensures k < |Encoded(f)| ==> DecodeBytes(Encoded(f)[..k]) == None
    ensures more != [] ==> DecodeBytes(Encoded(f) + more) == None
  {
    FrameForward(f, more);
    EncodedReads(f);
    if k < |Encoded(f)| && DecodeBytes(Encoded(f)[..k]).Some? { AcceptedPrefix(Encoded(f), k); }
  }

  lemma AcceptedPrefix(b: Bytes, k: nat)
    requires k <= |b| && DecodeBytes(b[..k]).Some?
    ensures ReadFrame(b) == Got(DecodeBytes(b[..k]).value, b[k..])
  {
    assert b[..k] + b[k..] == b;
    AcceptedThenMore(b[..k], b[k..]);
  }

  // ------------------------------------------------------------------ the codec on texts

  const BOM: char := '\U{FEFF}'

  predicate StartsWithBom(s: string) { s != [] && s[0] == BOM }

  /** What the browser's decoder makes of a valid payload: one leading byte-order mark goes. */
  function Shown(s: string): string { if StartsWithBom(s) then s[1..] else s }

  function TextOf(payload: Bytes): string
    requires Decode(payload).Some?
  {
    Shown(Decode(payload).value)
  }

  /** The frame with its texts as bytes. */
  function OnWire(f: Frame<string>): Frame<Bytes> {
    match f
    case Hello(proto, doc, peer, token, vv) => Hello(proto, Encode(doc), peer, Encode(token), vv)
    case Welcome(status, note, catchup) => Welcome(status, Encode(note), catchup)
    case Blob(kind, bytes) => Blob(kind, bytes)
    case Heartbeat => Heartbeat
    case Bye => Bye
    case Error(code, message) => Error(code, Encode(message))
  }

  function OffWire(f: Frame<Bytes>): Frame<string>
    requires Readable(f)
  {
    match f
    case Hello(proto, doc, peer, token, vv) => Hello(proto, TextOf(doc), peer, TextOf(token), vv)
    case Welcome(status, note, catchup) => Welcome(status, TextOf(note), catchup)
    case Blob(kind, bytes) => Blob(kind, bytes)
    case Heartbeat => Heartbeat
    case Bye => Bye
    case Error(code, message) => Error(code, TextOf(message))
  }

  /** The bytes of a frame, or nothing where the encoder throws. */
  function EncodeFrame(f: Frame<string>): Option<Bytes> {
    var wire := OnWire(f);
    if Encodable(wire) then Some(Encoded(wire)) else None
  }

  function DecodeFrame(b: Bytes): Option<Frame<string>> {
    match DecodeBytes(b)
    case None => None
    case Some(f) => AcceptedIsCanonical(b); Some(OffWire(f))
  }

  predicate NoBom(f: Frame<string>) {
    match f
    case Hello(_, doc, _, token, _) => !StartsWithBom(doc) && !StartsWithBom(token)
    case Welcome(_, note, _) => !StartsWithBom(note)
    case Error(_, message) => !StartsWithBom(message)
    case _ => true
  }

  /** The three bytes of a byte-order mark at the start of a payload. */
  predicate BomBytes(b: Bytes) { |b| >= 3 && b[0] == 0xEF && b[1] == 0xBB && b[2] == 0xBF }

  predicate NoBomBytes(f: Frame<Bytes>) {
    match f
    case Hello(_, doc, _, token, _) => !BomBytes(doc) && !BomBytes(token)
    case Welcome(_, note, _) => !BomBytes(note)
    case Error(_, message) => !BomBytes(message)
    case _ => true
  }

  /** Every field of the frame is within the decoder's size limit. */
  predicate WithinLimit(f: Frame<string>) {
    match f
    case Hello(_, doc, _, token, vv) => |Encode(doc)| <= MAX_BLOB && |Encode(token)| <= MAX_BLOB && |vv| <= MAX_BLOB
    case Welcome(_, note, catchup) => |Encode(note)| <= MAX_BLOB && CatchupFits(catchup)
    case Blob(_, b) => |b| <= MAX_BLOB
    case Error(_, message) => |Encode(message)| <= MAX_BLOB
    case _ => true
  }

  lemma TextComesBack(s: string)
    ensures Decode(Encode(s)) == Some(s) && TextOf(Encode(s)) == Shown(s)
    ensures Shown(s) == s <==> !StartsWithBom(s)
  {
    DecodeEncode(s);
    assert StartsWithBom(s) ==> |Shown(s)| < |s|;
  }

  lemma PayloadComesBack(b: Bytes)
    requires Decode(b).Some?
    ensures Encode(TextOf(b)) == b <==> !BomBytes(b)
    ensures BomBytes(b) ==> Encode(TextOf(b)) == b[3..]
  {
    EncodeDecode(b);
    var s := Decode(b).value;
    assert EncodeChar(BOM) == [0xEF, 0xBB, 0xBF];
    assert BomBytes(b) ==> DecodeScalar(b) == Some((0xFEFF, 3));
    if StartsWithBom(s) { assert b == [0xEF, 0xBB, 0xBF] + Encode(s[1..]); }
  }

  lemma TextsComeBack(f: Frame<string>)
    requires WithinLimit(f)
    ensures Readable(Clipped(OnWire(f)))
    ensures OffWire(Clipped(OnWire(f))) == f <==>
            NoBom(f) && (f.Hello? ==> f.proto < 256) && (f.Error? ==> f.code < U16)
  {
    match f
    case Hello(_, doc, _, token, _) => TextComesBack(doc); TextComesBack(token);
    case Welcome(_, note, _) => TextComesBack(note);
    case Error(_, message) => TextComesBack(message);
    case _ =>
  }

  /**
    Decoding an encoded frame gives the same frame back exactly if its numbers are in
    range, its fields are within the size limit and no text starts with a byte-order mark.
   */
  lemma FrameRoundTrip(f: Frame<string>)
    requires EncodeFrame(f).Some?
    ensures DecodeFrame(EncodeFrame(f).value) == Some(f) <==> InRange(f) && WithinLimit(f) && NoBom(f)
    ensures DecodeFrame(EncodeFrame(f).value).None? <==> !WithinLimit(f)
  {
    BytesRoundTrip(OnWire(f));
    LimitIsReadable(f);
    if WithinLimit(f) { TextsComeBack(f); }
  }

  lemma LimitIsReadable(f: Frame<string>)
    ensures Readable(OnWire(f)) <==> WithinLimit(f)
    ensures Readable(Clipped(OnWire(f))) <==> WithinLimit(f)
  {
    match f
    case Hello(_, doc, _, token, _) => TextComesBack(doc); TextComesBack(token);
    case Welcome(_, note, _) => TextComesBack(note);
    case Error(_, message) => TextComesBack(message);
    case _ =>
  }

  /** Accepted bytes re-encode to themselves exactly if no text payload starts with a byte-order mark. */
  lemma AcceptedReencodes(b: Bytes)
    requires DecodeFrame(b).Some?
    ensures EncodeFrame(DecodeFrame(b).value) == Some(b) <==> NoBomBytes(DecodeBytes(b).value)
  {
    AcceptedIsCanonical(b);
    var wire := DecodeBytes(b).value;
    OnWireOffWire(wire);
    var again := OnWire(OffWire(wire));
    if Encodable(again) && Encoded(again) == b {
      BytesRoundTrip(again);
    }
  }

  lemma OnWireOffWire(f: Frame<Bytes>)
    requires Readable(f) && InRange(f)
    ensures OnWire(OffWire(f)) == f <==> NoBomBytes(f)
    ensures Clipped(OnWire(OffWire(f))) == OnWire(OffWire(f))
  {
    match f
    case Hello(_, doc, _, token, _) => PayloadComesBack(doc); PayloadComesBack(token);
    case Welcome(_, note, _) => PayloadComesBack(note);
    case Error(_, message) => PayloadComesBack(message);
    case _ =>
  }

  /** A frame that is encoded and accepted, but comes back without the mark its note began with. */
  lemma MarkedFrameIsLost()
    ensures var f: Frame<string> := Welcome(0, [BOM], NoCatchup);
            EncodeFrame(f).Some? && DecodeFrame(EncodeFrame(f).value).Some?
            && DecodeFrame(EncodeFrame(f).value) != Some(f)
  {
    var f: Frame<string> := Welcome(0, [BOM], NoCatchup);
    MarkedPayload();
    FrameRoundTrip(f);
  }

  /** And its bytes, though accepted, do not re-encode to themselves. */
  lemma MarkedBytesChange()
    ensures var f: Frame<string> := Welcome(0, [BOM], NoCatchup);
            EncodeFrame(f).Some? && DecodeFrame(EncodeFrame(f).value).Some?
            && EncodeFrame(DecodeFrame(EncodeFrame(f).value).value) != EncodeFrame(f)
  {
    var f: Frame<string> := Welcome(0, [BOM], NoCatchup);
    MarkedFrameIsLost();
    var b := EncodeFrame(f).value;
    MarkedPayload();
    AcceptedReencodes(b);
    BytesRoundTrip(OnWire(f));
  }

  lemma MarkedPayload()
    ensures |Encode([BOM])| == 3 && BomBytes(Encode([BOM]))
  {
    assert EncodeChar(BOM) == [0xEF, 0xBB, 0xBF];
    assert [BOM][1..] == [];
  }
}
