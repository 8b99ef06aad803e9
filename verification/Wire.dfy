/** The wire format of Jupyter messages: identities or a topic, a delimiter, a signature, four JSON frames
    and any number of binary buffers. */
module Wire {
  import opened Basics
  import opened JsonText

  const DELIMITER: Bytes := "<IDS|MSG>"

  /** `EmptyPop` is the undefined behaviour of taking a frame from an empty multipart message, `MissingPort`
      the type error of a registration without one of its ports. */
  datatype Error = NoDelimiter | MalformedJson | SignatureMismatch | EmptyPop | MissingPort

  datatype Result<+T> = Ok(value: T) | Failed(error: Error)

  // ---------------------------------------------------------------- authentication

  /** The keyed hash, as a function of the hash name, the key and the bytes fed to it, in hexadecimal. */
  datatype Mac = Mac(compute: (Bytes, Bytes, Bytes) -> Bytes)

  datatype Authentication = Unsigned | Hmac(mac: Mac, hash: Bytes, key: Bytes) {
    function Sign(text: Bytes): Bytes {
      match this
      case Unsigned => ""
      case Hmac(mac, hash, key) => mac.compute(hash, key, text)
    }

    /** Only the first bytes of the signature frame are compared, as many as the computed one has. */
    predicate Verify(signature: Bytes, text: Bytes) { Unsigned? || Sign(text) <= signature }
  }

  function UpperChar(x: char): char { if 'a' <= x <= 'z' then 'A' + (x - 'a') else x }

  function Upper(s: Bytes): Bytes { seq(|s|, i requires 0 <= i < |s| => UpperChar(s[i])) }

  /** The scheme `none` means no authentication; of any other only what follows the fifth character
      counts, and a shorter one throws. */
  function MakeAuthentication(mac: Mac, scheme: Bytes, key: Bytes): Option<Authentication> {
    if scheme == "none" then Some(Unsigned)
    else if |scheme| < 5 then None
    else Some(Hmac(mac, Upper(scheme[5..]), key))
  }

  // ---------------------------------------------------------------- messages

  datatype Base = Base(header: Json, parentHeader: Json, metadata: Json, content: Json, buffers: seq<Bytes>)

  datatype Message = Message(identities: seq<Bytes>, base: Base)

  datatype PubMessage = PubMessage(topic: Bytes, base: Base)

  /** The four frames that are signed, as they are fed to the hash: one after the other. */
  function SignedText(c: JsonCodec, base: Base): Bytes {
    c.dump(base.header) + c.dump(base.parentHeader) + c.dump(base.metadata) + c.dump(base.content)
  }

  function BaseFrames(auth: Authentication, c: JsonCodec, base: Base): seq<Bytes> {
    [auth.Sign(SignedText(c, base)), c.dump(base.header), c.dump(base.parentHeader), c.dump(base.metadata),
     c.dump(base.content)] + base.buffers
  }

  function Frames(auth: Authentication, c: JsonCodec, m: Message): seq<Bytes> {
    m.identities + [DELIMITER] + BaseFrames(auth, c, m.base)
  }

  function PubFrames(auth: Authentication, c: JsonCodec, m: PubMessage): seq<Bytes> {
    [m.topic, DELIMITER] + BaseFrames(auth, c, m.base)
  }

  /** The position of the first delimiter that is followed by another frame, if there is one. */
  function Boundary(frames: seq<Bytes>): (at: Option<nat>)
    ensures at.Some? ==> at.value + 1 < |frames|
  {
    if |frames| <= 1 then None
    else if frames[0] == DELIMITER then Some(0)
    else match Boundary(frames[1..]) case None => None case Some(n) => Some(n + 1)
  }

  function ReadBase(auth: Authentication, c: JsonCodec, frames: seq<Bytes>): Result<Base> {
    if |frames| < 5 then Failed(EmptyPop)
    else if !(c.Readable(frames[1]) && c.Readable(frames[2]) && c.Readable(frames[3]) && c.Readable(frames[4])) then
      Failed(MalformedJson)
    else if !auth.Verify(frames[0], frames[1] + frames[2] + frames[3] + frames[4]) then Failed(SignatureMismatch)
    else Ok(Base(c.parse(frames[1]).value, c.parse(frames[2]).value, c.parse(frames[3]).value,
                 c.parse(frames[4]).value, frames[5..]))
  }

  function Read(auth: Authentication, c: JsonCodec, frames: seq<Bytes>): Result<Message> {
    if frames == [] then Failed(EmptyPop)
    else match Boundary(frames)
      case None => Failed(NoDelimiter)
      case Some(n) =>
        match ReadBase(auth, c, frames[n + 1..])
        case Failed(error) => Failed(error)
        case Ok(base) => Ok(Message(frames[..n], base))
  }

  /** The second frame of a publication is taken to be the delimiter without a look at it. */
  function ReadPub(auth: Authentication, c: JsonCodec, frames: seq<Bytes>): Result<PubMessage> {
    if |frames| < 2 then Failed(EmptyPop)
    else match ReadBase(auth, c, frames[2..])
      case Failed(error) => Failed(error)
      case Ok(base) => Ok(PubMessage(frames[0], base))
  }

  // ---------------------------------------------------------------- the serializer

  /** A multipart message, whose frames are added at the back and taken from the front. */
  class Multipart {
    var frames: seq<Bytes>

    constructor (frames: seq<Bytes>)
      ensures this.frames == frames
    {
      this.frames := frames;
    }

    method Add(frame: Bytes)
      modifies this
      ensures frames == old(frames) + [frame]
    {
      frames := frames + [frame];
    }

    method Pop() returns (frame: Bytes)
      requires frames != []
      modifies this
      ensures old(frames) == [frame] + frames
    {
      frame := frames[0];
      frames := frames[1..];
    }
  }

  method SerializeZmqId(ids: seq<Bytes>, wire: Multipart)
    modifies wire
    ensures wire.frames == old(wire.frames) + ids + [DELIMITER]
  {
    for i := 0 to |ids|
      invariant wire.frames == old(wire.frames) + ids[..i]
    {
      wire.Add(ids[i]);
    }
    wire.Add(DELIMITER);
  }

  /** What the scan of some frames returns and what it leaves: the frames on the two sides of the first
      delimiter, unless none is there or nothing follows it. */
  predicate Scanned(frames: seq<Bytes>, r: Result<seq<Bytes>>, rest: seq<Bytes>) {
    match r
    case Ok(ids) => frames == ids + [DELIMITER] + rest && DELIMITER !in ids && rest != []
    case Failed(error) =>
      && rest == []
      && if frames == [] then error == EmptyPop
         else error == NoDelimiter && DELIMITER !in frames[..|frames| - 1]
  }

  method DeserializeZmqId(wire: Multipart) returns (r: Result<seq<Bytes>>)
    modifies wire
    ensures Scanned(old(wire.frames), r, wire.frames)
  {
    if wire.frames == [] {
      return Failed(EmptyPop);
    }
    ghost var all := wire.frames;
    var ids: seq<Bytes> := [];
    var frame := wire.Pop();
    while frame != DELIMITER && wire.frames != []
      invariant all == ids + [frame] + wire.frames
      invariant DELIMITER !in ids
      decreases |wire.frames|
    {
      ids := ids + [frame];
      frame := wire.Pop();
    }
    if wire.frames == [] {
      assert all[..|all| - 1] == ids;
      return Failed(NoDelimiter);
    }
    return Ok(ids);
  }

  method SerializeMessageBase(base: Base, auth: Authentication, c: JsonCodec, wire: Multipart)
    modifies wire
    ensures wire.frames == old(wire.frames) + BaseFrames(auth, c, base)
  {
    var header := c.dump(base.header);
    var parentHeader := c.dump(base.parentHeader);
    var metadata := c.dump(base.metadata);
    var content := c.dump(base.content);
    var signature := auth.Sign(header + parentHeader + metadata + content);
    wire.Add(signature);
    wire.Add(header);
    wire.Add(parentHeader);
    wire.Add(metadata);
    wire.Add(content);
    var head := [signature, header, parentHeader, metadata, content];
    assert wire.frames == old(wire.frames) + head;
    for i := 0 to |base.buffers|
      invariant wire.frames == old(wire.frames) + head + base.buffers[..i]
    {
      wire.Add(base.buffers[i]);
    }
    assert base.buffers[..|base.buffers|] == base.buffers;
    Associative(old(wire.frames), head, base.buffers);
  }

  method DeserializeMessageBase(wire: Multipart, auth: Authentication, c: JsonCodec) returns (r: Result<Base>)
    modifies wire
    ensures r == ReadBase(auth, c, old(wire.frames))
  {
    if |wire.frames| < 5 {
      return Failed(EmptyPop);
    }
    ghost var all := wire.frames;
    var signature := wire.Pop();
    var header := wire.Pop();
    var parentHeader := wire.Pop();
    var metadata := wire.Pop();
    var content := wire.Pop();
    assert all == [signature, header, parentHeader, metadata, content] + wire.frames;
    if !c.Readable(header) || !c.Readable(parentHeader) || !c.Readable(metadata) || !c.Readable(content) {
      return Failed(MalformedJson);
    }
    var buffers: seq<Bytes> := [];
    while wire.frames != []
      invariant all[5..] == buffers + wire.frames
      decreases |wire.frames|
    {
      var buffer := wire.Pop();
      buffers := buffers + [buffer];
    }
    assert buffers == all[5..];
    if !auth.Verify(signature, header + parentHeader + metadata + content) {
      return Failed(SignatureMismatch);
    }
    return Ok(Base(c.parse(header).value, c.parse(parentHeader).value, c.parse(metadata).value,
                   c.parse(content).value, buffers));
  }

  method Serialize(m: Message, auth: Authentication, c: JsonCodec) returns (wire: Multipart)
    ensures fresh(wire) && wire.frames == Frames(auth, c, m)
  {
    wire := new Multipart([]);
    SerializeZmqId(m.identities, wire);
    SerializeMessageBase(m.base, auth, c, wire);
  }

  method Deserialize(wire: Multipart, auth: Authentication, c: JsonCodec) returns (r: Result<Message>)
    modifies wire
    ensures r == Read(auth, c, old(wire.frames))
  {
    ghost var all := wire.frames;
    var ids := DeserializeZmqId(wire);
    ScanFindsTheBoundary(all, ids, wire.frames);
    if ids.Failed? {
      return Failed(ids.error);
    }
    var base := DeserializeMessageBase(wire, auth, c);
    r := if base.Failed? then Failed(base.error) else Ok(Message(ids.value, base.value));
  }

  method SerializeIopub(m: PubMessage, auth: Authentication, c: JsonCodec) returns (wire: Multipart)
    ensures fresh(wire) && wire.frames == PubFrames(auth, c, m)
  {
    wire := new Multipart([]);
    wire.Add(m.topic);
    wire.Add(DELIMITER);
    SerializeMessageBase(m.base, auth, c, wire);
  }

  method DeserializeIopub(wire: Multipart, auth: Authentication, c: JsonCodec) returns (r: Result<PubMessage>)
    modifies wire
    ensures r == ReadPub(auth, c, old(wire.frames))
  {
    if |wire.frames| < 2 {
      return Failed(EmptyPop);
    }
    ghost var all := wire.frames;
    var topic := wire.Pop();
    var delimiter := wire.Pop();
    assert wire.frames == all[2..];
    var base := DeserializeMessageBase(wire, auth, c);
    r := if base.Failed? then Failed(base.error) else Ok(PubMessage(topic, base.value));
  }

  // ---------------------------------------------------------------- properties

  /** A boundary is exactly a split of the frames at their first delimiter with something after it. */
  lemma {:induction false} BoundaryExactly(frames: seq<Bytes>, n: nat)
    ensures Boundary(frames) == Some(n) <==>
            n + 1 < |frames| && frames[n] == DELIMITER && DELIMITER !in frames[..n]
  {
    if |frames| > 1 && frames[0] != DELIMITER && n > 0 {
      BoundaryExactly(frames[1..], n - 1);
      assert n <= |frames| ==> frames[..n] == [frames[0]] + frames[1..][..n - 1];
    }
  }

  /** There is no boundary exactly when every frame but the last is something else. */
  lemma {:induction false} NoBoundaryExactly(frames: seq<Bytes>)
    ensures frames != [] ==> (Boundary(frames).None? <==> DELIMITER !in frames[..|frames| - 1])
  {
    if |frames| > 1 {
      NoBoundaryExactly(frames[1..]);
      assert frames[..|frames| - 1] == [frames[0]] + frames[1..][..|frames| - 2];
    }
  }

  /** The scan of the deserializer agrees with `Boundary` on every list of frames. */
  lemma ScanFindsTheBoundary(frames: seq<Bytes>, ids: Result<seq<Bytes>>, rest: seq<Bytes>)
    requires Scanned(frames, ids, rest)
    ensures frames == [] ==> ids == Failed(EmptyPop)
    ensures frames != [] && Boundary(frames).None? ==> ids == Failed(NoDelimiter)
    ensures frames != [] && Boundary(frames).Some? ==>
              ids == Ok(frames[..Boundary(frames).value]) && rest == frames[Boundary(frames).value + 1..]
  {
    NoBoundaryExactly(frames);
    if ids.Ok? {
      BoundaryExactly(frames, |ids.value|);
      assert frames[..|ids.value|] == ids.value;
    }
  }

  lemma BaseRoundTrip(auth: Authentication, c: JsonCodec, base: Base)
    requires c.Valid()
    ensures ReadBase(auth, c, BaseFrames(auth, c, base)) == Ok(base)
  {
    var frames := BaseFrames(auth, c, base);
    assert frames[5..] == base.buffers;
  }

  /** A message survives serialization and deserialization, with its identities and buffers, exactly when
      none of its identities is the delimiter. */
  lemma RoundTripExactly(auth: Authentication, c: JsonCodec, m: Message)
    requires c.Valid()
    ensures Read(auth, c, Frames(auth, c, m)) == Ok(m) <==> DELIMITER !in m.identities
  {
    var frames := Frames(auth, c, m);
    var n := |m.identities|;
    assert frames[n] == DELIMITER && frames[..n] == m.identities;
    assert frames[n + 1..] == BaseFrames(auth, c, m.base);
    BaseRoundTrip(auth, c, m.base);
    BoundaryExactly(frames, n);
    hide BaseFrames, ReadBase, Boundary;
  }

  /** A publication survives whatever its topic. */
  lemma {:induction false} PubRoundTrip(auth: Authentication, c: JsonCodec, m: PubMessage)
    requires c.Valid()
    ensures ReadPub(auth, c, PubFrames(auth, c, m)) == Ok(m)
  {
    BaseRoundTrip(auth, c, m.base);
    assert PubFrames(auth, c, m)[2..] == BaseFrames(auth, c, m.base);
  }

  /** The frames are a message: its identities, the first delimiter, five frames or more behind it, four of them JSON,
      and a signature that starts with the one computed for those four. */
  predicate IsMessage(auth: Authentication, c: JsonCodec, frames: seq<Bytes>, m: Message) {
    var n := |m.identities|;
    && n + 6 <= |frames|
    && frames[..n] == m.identities && DELIMITER !in m.identities && frames[n] == DELIMITER
    && c.parse(frames[n + 2]) == Some(m.base.header)
    && c.parse(frames[n + 3]) == Some(m.base.parentHeader)
    && c.parse(frames[n + 4]) == Some(m.base.metadata)
    && c.parse(frames[n + 5]) == Some(m.base.content)
    && frames[n + 6..] == m.base.buffers
    && (auth.Hmac? ==>
        var text := frames[n + 2] + frames[n + 3] + frames[n + 4] + frames[n + 5];
        auth.mac.compute(auth.hash, auth.key, text) <= frames[n + 1])
  }

  /** Exactly these frames are read as a message. */
  lemma ReadableExactly(auth: Authentication, c: JsonCodec, frames: seq<Bytes>, m: Message)
    ensures Read(auth, c, frames) == Ok(m) <==> IsMessage(auth, c, frames, m)
  {
    var n := |m.identities|;
    BoundaryExactly(frames, n);
    hide Boundary;
    if n < |frames| {
      if n + 6 <= |frames| {
        assert frames[n + 1..][5..] == frames[n + 6..];
      }
    }
  }

  /** Why frames with a delimiter at `n`, the first one and not the last frame, are no message. */
  lemma UnreadableExactly(auth: Authentication, c: JsonCodec, frames: seq<Bytes>, n: nat)
    requires n + 1 < |frames| && frames[n] == DELIMITER && DELIMITER !in frames[..n]
    ensures Read(auth, c, frames) == Failed(EmptyPop) <==> |frames| < n + 6
    ensures Read(auth, c, frames) == Failed(MalformedJson) <==>
            n + 6 <= |frames| && exists k :: n + 2 <= k < n + 6 && c.parse(frames[k]).None?
    ensures Read(auth, c, frames) == Failed(SignatureMismatch) <==>
            && n + 6 <= |frames| && (forall k :: n + 2 <= k < n + 6 ==> c.parse(frames[k]).Some?)
            && auth.Hmac?
            && var text := frames[n + 2] + frames[n + 3] + frames[n + 4] + frames[n + 5];
               !(auth.mac.compute(auth.hash, auth.key, text) <= frames[n + 1])
    ensures Read(auth, c, frames) != Failed(NoDelimiter)
  {
    BoundaryExactly(frames, n);
    hide Boundary;
    if n + 6 <= |frames| {
      var rest := frames[n + 1..];
      assert forall k :: 0 <= k < 5 ==> rest[k] == frames[n + 1 + k];
    }
  }

  /** Without such a delimiter nothing is read. */
  lemma NoDelimiterExactly(auth: Authentication, c: JsonCodec, frames: seq<Bytes>)
    ensures Read(auth, c, frames) == Failed(NoDelimiter) <==>
            frames != [] && DELIMITER !in frames[..|frames| - 1]
    ensures Read(auth, c, []) == Failed(EmptyPop)
  {
    NoBoundaryExactly(frames);
    hide Boundary;
  }

  /** Exactly which frames are read as a publication: seven frames or more, the first of them the topic, the second
      anything, four of them JSON, and a signature that starts with the one computed for those four. */
  lemma PubReadableExactly(auth: Authentication, c: JsonCodec, frames: seq<Bytes>, m: PubMessage)
    ensures ReadPub(auth, c, frames) == Ok(m) <==>
            && 7 <= |frames| && frames[0] == m.topic
            && c.parse(frames[3]) == Some(m.base.header)
            && c.parse(frames[4]) == Some(m.base.parentHeader)
            && c.parse(frames[5]) == Some(m.base.metadata)
            && c.parse(frames[6]) == Some(m.base.content)
            && frames[7..] == m.base.buffers
            && (auth.Hmac? ==>
                auth.mac.compute(auth.hash, auth.key, frames[3] + frames[4] + frames[5] + frames[6]) <= frames[2])
  {
    if 7 <= |frames| {
      assert frames[2..][5..] == frames[7..];
    }
  }

  /** Why frames are no publication. */
  lemma PubUnreadableExactly(auth: Authentication, c: JsonCodec, frames: seq<Bytes>)
    ensures ReadPub(auth, c, frames) == Failed(EmptyPop) <==> |frames| < 7
    ensures ReadPub(auth, c, frames) == Failed(MalformedJson) <==>
            7 <= |frames| && exists k :: 3 <= k < 7 && c.parse(frames[k]).None?
    ensures ReadPub(auth, c, frames) == Failed(SignatureMismatch) <==>
            && 7 <= |frames| && (forall k :: 3 <= k < 7 ==> c.parse(frames[k]).Some?)
            && auth.Hmac?
            && !(auth.mac.compute(auth.hash, auth.key, frames[3] + frames[4] + frames[5] + frames[6]) <= frames[2])
  {
    if 7 <= |frames| {
      var rest := frames[2..];
      assert forall k :: 0 <= k < 5 ==> rest[k] == frames[2 + k];
    }
  }
}
