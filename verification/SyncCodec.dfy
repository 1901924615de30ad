/**
  The working parts of the sync codec (web/src/protocol.ts): an encoder that fills a buffer
  allocated once at its final size, and a cursor that walks a received message.
 */
module SyncCodec {
  import opened Wrappers
  import opened Binary
  import opened Utf8
  import opened SyncFrame

  /** The size the encoder allocates for a frame. */
  function FrameSize(f: Frame<string>): nat {
    match f
    case Hello(_, doc, _, token, vv) => 1 + 1 + TextSize(doc) + 8 + TextSize(token) + 4 + |vv|
    case Welcome(_, note, catchup) => 1 + 1 + TextSize(note) + CatchupSize(catchup)
    case Blob(_, bytes) => 1 + 4 + |bytes|
    case Error(_, message) => 1 + 2 + TextSize(message)
    case _ => 1
  }

  function CatchupSize(c: Catchup): nat { 1 + if c.NoCatchup? then 0 else 4 + |c.bytes| }

  function TextSize(s: string): nat { 4 + |Encode(s)| }

  /** The buffer is exactly as large as what is written to it. */
  lemma FrameSizeIsExact(f: Frame<string>)
    ensures FrameSize(f) == |Encoded(OnWire(f))|
  {
    match f
    case Hello(proto, doc, peer, token, vv) =>
      var p: nat := if peer >= 0 then peer else 0;
      HelloSize(proto, Encode(doc), p, Encode(token), vv);
    case Welcome(status, note, catchup) => assert |WelcomeBytes(status, Encode(note), catchup)| == FrameSize(f) - 1;
    case _ =>
  }

  lemma HelloSize(proto: nat, doc: Bytes, peer: nat, token: Bytes, vv: Bytes)
    ensures |HelloBytes(proto, doc, peer, token, vv)| == 1 + (4 + |doc|) + 8 + (4 + |token|) + (4 + |vv|)
  {
    assert |CredentialBytes(peer, token, vv)| == 8 + (4 + |token|) + (4 + |vv|);
  }

  // ------------------------------------------------------------------ encoder

  class Encoder {
    const bytes: array<byte>
    var offset: nat

    ghost predicate Valid()
      reads this
    {
      offset <= bytes.Length
    }

    ghost function Written(): Bytes
      requires Valid()
      reads this, bytes
    {
      bytes[..offset]
    }

    constructor (size: nat)
      ensures Valid() && fresh(bytes)
      ensures bytes.Length == size && Written() == []
    {
      bytes := new byte[size];
      offset := 0;
    }

    method U8(value: nat)
      requires Valid() && offset < bytes.Length
      modifies this`offset, bytes
      ensures Valid() && Written() == old(Written()) + [value % 256]
    {
      bytes[offset] := value % 256;
      offset := offset + 1;
    }

    method U16(value: nat)
      requires Valid() && offset + 2 <= bytes.Length
      modifies this`offset, bytes
      ensures Valid() && Written() == old(Written()) + BigEndian(value, 2)
    {
      U8(value / 256);
      U8(value % 256);
      BigEndianSteps(value);
    }

    /** Throws for a value over 32 bits. */
    method U32(value: nat) returns (ok: bool)
      requires Valid() && offset + 4 <= bytes.Length
      modifies this`offset, bytes
      ensures Valid() && ok == (value < Binary.U32)
      ensures Written() == if ok then old(Written()) + BigEndian(value, 4) else old(Written())
    {
      if value > 0xffffffff { return false; }
      U8(value / 256 / 256 / 256);
      U8(value / 256 / 256 % 256);
      U8(value / 256 % 256);
      U8(value % 256);
      assert Written() == old(Written()) +
             [value / 256 / 256 / 256 % 256, value / 256 / 256 % 256, value / 256 % 256, value % 256];
      BigEndianSteps(value);
      ok := true;
    }

    /** Throws for a value outside 64 bits. */
    method U64(value: int) returns (ok: bool)
      requires Valid() && offset + 8 <= bytes.Length
      modifies this`offset, bytes
      ensures Valid() && ok == (0 <= value < Binary.U64)
      ensures Written() == if ok then old(Written()) + BigEndian(value, 8) else old(Written())
    {
      if value < 0 || value > 0xffff_ffff_ffff_ffff { return false; }
      var shift: nat := 8;
      while shift > 0
        invariant shift <= 8 && Valid() && offset == old(offset) + (8 - shift)
        invariant Written() == old(Written()) + BigEndian(ShiftRight(value, shift), 8 - shift)
      {
        shift := shift - 1;
        U8(ShiftRight(value, shift) % 256);
      }
      ok := true;
    }

    method Data(value: Bytes) returns (ok: bool)
      requires Valid() && offset + 4 + |value| <= bytes.Length
      modifies this`offset, bytes
      ensures Valid() && ok == (|value| < Binary.U32)
      ensures Written() == if ok then old(Written()) + Sized(value) else old(Written())
    {
      ok := U32(|value|);
      if !ok { return; }
      ghost var before := Written();
      var at := offset;
      forall i | 0 <= i < |value| { bytes[at + i] := value[i]; }
      offset := offset + |value|;
      assert Written() == before + value;
      Assoc(old(Written()), BigEndian(|value|, 4), value);
    }

    method Text(value: string) returns (ok: bool)
      requires Valid() && offset + TextSize(value) <= bytes.Length
      modifies this`offset, bytes
      ensures Valid() && ok == (|Encode(value)| < Binary.U32)
      ensures Written() == if ok then old(Written()) + Sized(Encode(value)) else old(Written())
    {
      ok := Data(Encode(value));
    }
  }

  lemma BigEndianSteps(v: nat)
    ensures BigEndian(v, 2) == [v / 256 % 256, v % 256]
    ensures BigEndian(v, 4) == [v / 256 / 256 / 256 % 256, v / 256 / 256 % 256, v / 256 % 256, v % 256]
  {
    assert BigEndian(v / 256 / 256 / 256, 1) == [v / 256 / 256 / 256 % 256];
    assert BigEndian(v / 256 / 256, 2) == BigEndian(v / 256 / 256 / 256, 1) + [v / 256 / 256 % 256];
    assert BigEndian(v / 256, 1) == [v / 256 % 256];
  }

  /** The number without its `n` lowest bytes. */
  function ShiftRight(v: nat, n: nat): nat {
    if n == 0 then v else ShiftRight(v, n - 1) / 256
  }

  lemma JoinThree(start: Bytes, x: Bytes, y: Bytes, z: Bytes)
    ensures start + x + y + z == start + (x + (y + z))
  {
    Assoc(start + x, y, z);
    Assoc(start, x, y + z);
  }

  lemma Assoc(a: Bytes, b: Bytes, c: Bytes)
    ensures a + b + c == a + (b + c)
  {
  }

  method PutHello(out: Encoder, f: Frame<string>) returns (ok: bool)
    requires f.Hello? && out.Valid() && out.offset + FrameSize(f) - 1 <= out.bytes.Length
    modifies out`offset, out.bytes
    ensures out.Valid() && ok == Encodable(OnWire(f))
    ensures ok ==> out.Written() == old(out.Written()) + Body(OnWire(f))
  {
    ghost var start := out.Written();
    out.U8(f.proto);
    ok := out.Text(f.documentId);
    if !ok { return; }
    ghost var p, d := [f.proto % 256], Sized(Encode(f.documentId));
    ok := PutCredentials(out, f.peer, f.token, f.versionVector);
    if ok { JoinThree(start, p, d, CredentialBytes(f.peer, Encode(f.token), f.versionVector)); }
  }

  method PutCredentials(out: Encoder, peer: int, token: string, vv: Bytes) returns (ok: bool)
    requires out.Valid() && out.offset + 8 + TextSize(token) + 4 + |vv| <= out.bytes.Length
    modifies out`offset, out.bytes
    ensures out.Valid() && ok == (0 <= peer < U64 && |Encode(token)| < U32 && |vv| < U32)
    ensures ok ==> out.Written() == old(out.Written()) + CredentialBytes(peer, Encode(token), vv)
  {
    ghost var start := out.Written();
    ok := out.U64(peer);
    if !ok { return; }
    ok := out.Text(token);
    if !ok { return; }
    ok := out.Data(vv);
    JoinThree(start, BigEndian(peer, 8), Sized(Encode(token)), Sized(vv));
  }

  method PutWelcome(out: Encoder, status: Status, note: string, catchup: Catchup) returns (ok: bool)
    requires out.Valid() && out.offset + 1 + TextSize(note) + CatchupSize(catchup) <= out.bytes.Length
    modifies out`offset, out.bytes
    ensures out.Valid() && ok == (|Encode(note)| < U32 && (catchup.NoCatchup? || |catchup.bytes| < U32))
    ensures ok ==> out.Written() == old(out.Written()) + WelcomeBytes(status, Encode(note), catchup)
  {
    ghost var start := out.Written();
    out.U8(status);
    assert out.Written() == start + [status];
    ghost var rest := Sized(Encode(note)) + CatchupBytes(catchup);
    ok := PutNote(out, note, catchup);
    if ok { Assoc(start, [status], rest); }
  }

  method PutNote(out: Encoder, note: string, catchup: Catchup) returns (ok: bool)
    requires out.Valid() && out.offset + TextSize(note) + CatchupSize(catchup) <= out.bytes.Length
    modifies out`offset, out.bytes
    ensures out.Valid() && ok == (|Encode(note)| < U32 && (catchup.NoCatchup? || |catchup.bytes| < U32))
    ensures ok ==> out.Written() == old(out.Written()) + (Sized(Encode(note)) + CatchupBytes(catchup))
  {
    ghost var start, text := out.Written(), Sized(Encode(note));
    ok := out.Text(note);
    if !ok { return; }
    ok := PutCatchup(out, catchup);
    if ok { Assoc(start, text, CatchupBytes(catchup)); }
  }

  method PutCatchup(out: Encoder, c: Catchup) returns (ok: bool)
    requires out.Valid() && out.offset + CatchupSize(c) <= out.bytes.Length
    modifies out`offset, out.bytes
    ensures out.Valid() && ok == (c.NoCatchup? || |c.bytes| < U32)
    ensures ok ==> out.Written() == old(out.Written()) + CatchupBytes(c)
  {
    if c.NoCatchup? {
      out.U8(0);
      return true;
    }
    ok := PutTagged(out, if c.Updates? then 1 else 2, c.bytes);
  }

  method PutTagged(out: Encoder, tag: byte, data: Bytes) returns (ok: bool)
    requires out.Valid() && out.offset + 5 + |data| <= out.bytes.Length
    modifies out`offset, out.bytes
    ensures out.Valid() && ok == (|data| < U32)
    ensures ok ==> out.Written() == old(out.Written()) + ([tag] + Sized(data))
  {
    ghost var start, sized := out.Written(), Sized(data);
    out.U8(tag);
    ok := out.Data(data);
    if ok { Assoc(start, [tag], sized); }
  }

  method PutError(out: Encoder, f: Frame<string>) returns (ok: bool)
    requires f.Error? && out.Valid() && out.offset + FrameSize(f) - 1 <= out.bytes.Length
    modifies out`offset, out.bytes
    ensures out.Valid() && ok == Encodable(OnWire(f))
    ensures ok ==> out.Written() == old(out.Written()) + Body(OnWire(f))
  {
    ghost var start := out.Written();
    out.U16(f.code);
    ok := out.Text(f.message);
    Assoc(start, BigEndian(f.code, 2), Sized(Encode(f.message)));
  }

  method PutBody(out: Encoder, f: Frame<string>) returns (ok: bool)
    requires out.Valid() && out.offset + FrameSize(f) - 1 <= out.bytes.Length
    modifies out`offset, out.bytes
    ensures out.Valid() && ok == Encodable(OnWire(f))
    ensures ok ==> out.Written() == old(out.Written()) + Body(OnWire(f))
  {
    ok := true;
    match f
    case Hello(_, _, _, _, _) => ok := PutHello(out, f);
    case Welcome(status, note, catchup) => ok := PutWelcome(out, status, note, catchup);
    case Blob(_, bytes) => ok := out.Data(bytes);
    case Error(_, _) => ok := PutError(out, f);
    case _ =>
  }

  /** The encoder never runs past its buffer, fills it to the last byte and writes `EncodeFrame`. */
  method EncodeSyncFrame(f: Frame<string>) returns (r: Option<Bytes>)
    ensures r == EncodeFrame(f)
    ensures r.Some? ==> |r.value| == FrameSize(f)
  {
    var out := new Encoder(FrameSize(f));
    out.U8(Tag(f));
    assert out.Written() == [Tag(OnWire(f))];
    var ok := PutBody(out, f);
    if !ok { return None; }
    FrameSizeIsExact(f);
    assert out.offset == |out.Written()| == |Encoded(OnWire(f))|;
    assert out.bytes[..] == out.Written();
    r := Some(out.bytes[..]);
  }

  // ------------------------------------------------------------------ cursor

  /** A result of a reader method, beside what the reading function says of the same bytes. */
  ghost predicate Agrees<T(!new)>(r: Option<T>, rest: Bytes, spec: Parsed<T>) {
    match spec
    case Fail => r.None?
    case Got(v, left) => r == Some(v) && rest == left
  }

  /** After a refusal the cursor is not used again, so its position then does not matter. */
  class SyncCursor {
    const bytes: Bytes
    var offset: nat

    ghost predicate Valid()
      reads this
    {
      offset <= |bytes|
    }

    ghost function Rest(): Bytes
      requires Valid()
      reads this
    {
      bytes[offset..]
    }

    constructor (input: Bytes)
      ensures Valid() && Rest() == input
    {
      bytes := input;
      offset := 0;
    }

    method ReadU8() returns (r: Option<nat>)
      requires Valid()
      modifies this
      ensures Valid() && Agrees(r, Rest(), ReadUint(old(Rest()), 1))
    {
      if offset + 1 > |bytes| { return None; }
      assert Rest()[..1] == [bytes[offset]];
      OneByte(bytes[offset]);
      r := Some(bytes[offset]);
      offset := offset + 1;
    }

    /** `n` bytes, the most significant first. */
    method ReadBig(n: nat) returns (r: Option<nat>)
      requires Valid()
      modifies this
      ensures Valid() && Agrees(r, Rest(), ReadUint(old(Rest()), n))
    {
      var value := 0;
      ghost var all := Rest();
      for i := 0 to n
        invariant Valid() && ReadUint(all, i) == Got(value, Rest())
      {
        ReadUintStep(all, i);
        var b := ReadU8();
        if b.None? {
          ShortStaysShort(all, i + 1, n);
          return None;
        }
        value := value * 256 + b.value;
      }
      r := Some(value);
    }

    /** A sized field. */
    method ReadBytes() returns (r: Option<Bytes>)
      requires Valid()
      modifies this
      ensures Valid() && Agrees(r, Rest(), ReadBlob(old(Rest())))
    {
      var length := ReadBig(4);
      if length.None? || length.value > MAX_BLOB || offset + length.value > |bytes| { return None; }
      r := Some(bytes[offset..offset + length.value]);
      assert Rest()[..length.value] == r.value;
      offset := offset + length.value;
    }

    /** A sized field of well-formed UTF-8; its bytes, from which the text is decoded. */
    method ReadString() returns (r: Option<Bytes>)
      requires Valid()
      modifies this
      ensures Valid() && Agrees(r, Rest(), ReadText(old(Rest())))
    {
      r := ReadBytes();
      if r.Some? && Decode(r.value).None? { r := None; }
    }
  }

  lemma OneByte(x: byte)
    ensures FromBigEndian([x]) == x
  {
    assert [x][..0] == [];
  }

  lemma ReadUintStep(b: Bytes, n: nat)
    requires ReadUint(b, n).Got?
    ensures var Got(v, rest) := ReadUint(b, n);
            ReadUint(b, n + 1) == match ReadUint(rest, 1) case Fail => Fail case Got(w, left) => Got(v * 256 + w, left)
  {
    if n < |b| {
      assert b[..n + 1][..n] == b[..n];
      assert b[n..][..1] == [b[n]];
      OneByte(b[n]);
      assert b[n..][1..] == b[n + 1..];
    }
  }

  lemma ShortStaysShort(b: Bytes, m: nat, n: nat)
    requires ReadUint(b, m).Fail? && m <= n
    ensures ReadUint(b, n).Fail?
  {
  }

  method TakeCredentials(c: SyncCursor) returns (r: Option<(nat, Bytes, Bytes)>)
    requires c.Valid()
    modifies c
    ensures c.Valid() && Agrees(r, c.Rest(), ReadCredentials(old(c.Rest())))
  {
    var peer := c.ReadBig(8);
    if peer.None? { return None; }
    var token := c.ReadString();
    if token.None? { return None; }
    var vv := c.ReadBytes();
    if vv.None? { return None; }
    r := Some((peer.value, token.value, vv.value));
  }

  method TakeHello(c: SyncCursor) returns (r: Option<Frame<Bytes>>)
    requires c.Valid()
    modifies c
    ensures c.Valid() && Agrees(r, c.Rest(), ReadHello(old(c.Rest())))
  {
    var proto := c.ReadU8();
    if proto.None? { return None; }
    var doc := c.ReadString();
    if doc.None? { return None; }
    var cred := TakeCredentials(c);
    if cred.None? { return None; }
    r := Some(Hello(proto.value, doc.value, cred.value.0, cred.value.1, cred.value.2));
  }

  method TakeCatchup(c: SyncCursor) returns (r: Option<Catchup>)
    requires c.Valid()
    modifies c
    ensures c.Valid() && Agrees(r, c.Rest(), ReadCatchup(old(c.Rest())))
  {
    var tag := c.ReadU8();
    if tag.None? || tag.value > 2 { return None; }
    if tag.value == 0 { return Some(NoCatchup); }
    var bytes := c.ReadBytes();
    if bytes.None? { return None; }
    r := Some(if tag.value == 1 then Updates(bytes.value) else FullSnapshot(bytes.value));
  }

  method TakeWelcome(c: SyncCursor) returns (r: Option<Frame<Bytes>>)
    requires c.Valid()
    modifies c
    ensures c.Valid() && Agrees(r, c.Rest(), ReadWelcome(old(c.Rest())))
  {
    var status := c.ReadU8();
    if status.None? || (status.value != 0 && status.value != 1) { return None; }
    var note := c.ReadString();
    if note.None? { return None; }
    var catchup := TakeCatchup(c);
    if catchup.None? { return None; }
    r := Some(Welcome(status.value, note.value, catchup.value));
  }

  method TakeError(c: SyncCursor) returns (r: Option<Frame<Bytes>>)
    requires c.Valid()
    modifies c
    ensures c.Valid() && Agrees(r, c.Rest(), ReadError(old(c.Rest())))
  {
    var code := c.ReadBig(2);
    if code.None? { return None; }
    var message := c.ReadString();
    if message.None? { return None; }
    r := Some(Error(code.value, message.value));
  }

  method TakeBlob(c: SyncCursor, kind: BlobKind) returns (r: Option<Frame<Bytes>>)
    requires c.Valid()
    modifies c
    ensures c.Valid() && Agrees(r, c.Rest(), ReadBlobFrame(kind, old(c.Rest())))
  {
    var bytes := c.ReadBytes();
    if bytes.None? { return None; }
    r := Some(Blob(kind, bytes.value));
  }

  method TakeFrame(c: SyncCursor) returns (r: Option<Frame<Bytes>>)
    requires c.Valid()
    modifies c
    ensures c.Valid() && Agrees(r, c.Rest(), ReadFrame(old(c.Rest())))
  {
    ghost var all := c.Rest();
    var tag := c.ReadU8();
    if tag.None? { return None; }
    assert all[..1] == [all[0]];
    OneByte(all[0]);
    assert tag.value == all[0] && c.Rest() == all[1..];
    match tag.value
    case 1 => r := TakeHello(c);
    case 2 => r := TakeWelcome(c);
    case 3 => r := TakeBlob(c, UpdateBlob);
    case 4 => r := TakeBlob(c, SnapshotBlob);
    case 5 => r := TakeBlob(c, PresenceBlob);
    case 6 => r := Some(Heartbeat);
    case 7 => r := TakeError(c);
    case 8 => r := Some(Bye);
    case _ => r := None;
  }

  /** The cursor's decoder computes `DecodeFrame`: trailing bytes are refused too. */
  method DecodeSyncFrame(input: Bytes) returns (r: Option<Frame<string>>)
    ensures r == DecodeFrame(input)
  {
    var cursor := new SyncCursor(input);
    var frame := TakeFrame(cursor);
    if frame.None? || cursor.offset != |cursor.bytes| { return None; }
    AcceptedIsCanonical(input);
    r := Some(OffWire(frame.value));
  }
}
