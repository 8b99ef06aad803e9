/** The registration handshake: a kernel that chose its own ports announces them to the client that
    launched it, over a DEALER socket facing the client's ROUTER socket, and waits for the acknowledgement. */
module Handshake {
  import opened Basics
  import opened JsonText
  import opened Wire

  datatype Ports = Ports(control: Bytes, shell: Bytes, stdin: Bytes, iopub: Bytes, hb: Bytes)

  /** The part of the kernel configuration that the client fills in. */
  datatype Registered = Registered(key: Bytes, ports: Ports)

  const ACK: Bytes := "ACK"

  /** The scheme the client signs its acknowledgement with, whatever scheme the kernel uses. */
  const ACK_SCHEME: Bytes := "hmac-sha256"

  function Announced(kernelId: Bytes, ports: Ports): Json {
    Object(map["kernel_id" := Text(kernelId), "control_port" := Text(ports.control), "shell_port" := Text(ports.shell),
               "stdin_port" := Text(ports.stdin), "iopub_port" := Text(ports.iopub), "hb_port" := Text(ports.hb)])
  }

  predicate HasText(j: Json, field: Bytes) { j.Object? && field in j.fields && j.fields[field].Text? }

  predicate HasPorts(j: Json) {
    && HasText(j, "control_port") && HasText(j, "shell_port") && HasText(j, "stdin_port")
    && HasText(j, "iopub_port") && HasText(j, "hb_port")
  }

  function PortsOf(j: Json): Ports
    requires HasPorts(j)
  {
    Ports(j.fields["control_port"].text, j.fields["shell_port"].text, j.fields["stdin_port"].text,
          j.fields["iopub_port"].text, j.fields["hb_port"].text)
  }

  // ---------------------------------------------------------------- what the two sides compute

  function Announcement(auth: Authentication, c: JsonCodec, kernelId: Bytes, ports: Ports): seq<Bytes> {
    var content := c.dump(Announced(kernelId, ports));
    [DELIMITER, auth.Sign(content), content]
  }

  /** The two frames after the first delimiter of a message, behind its identities. */
  function Envelope(frames: seq<Bytes>): Result<(seq<Bytes>, Bytes, Bytes)> {
    if frames == [] then Failed(EmptyPop)
    else match Boundary(frames)
      case None => Failed(NoDelimiter)
      case Some(n) => if n + 2 < |frames| then Ok((frames[..n], frames[n + 1], frames[n + 2])) else Failed(EmptyPop)
  }

  function ReadRegistration(c: JsonCodec, key: Bytes, content: Bytes): Result<Registered> {
    if !c.Readable(content) then Failed(MalformedJson)
    else if !HasPorts(c.parse(content).value) then Failed(MissingPort)
    else Ok(Registered(key, PortsOf(c.parse(content).value)))
  }

  /** The client does not look at the signature. */
  function Register(c: JsonCodec, key: Bytes, frames: seq<Bytes>): Result<Registered> {
    match Envelope(frames)
    case Failed(error) => Failed(error)
    case Ok((_, _, content)) => ReadRegistration(c, key, content)
  }

  function Acknowledgement(mac: Mac, key: Bytes, ids: seq<Bytes>): seq<Bytes> {
    ids + [DELIMITER, mac.compute("SHA256", key, ACK), ACK]
  }

  function Accept(auth: Authentication, frames: seq<Bytes>): Result<()> {
    match Envelope(frames)
    case Failed(error) => Failed(error)
    case Ok((_, signature, content)) => if auth.Verify(signature, content) then Ok(()) else Failed(SignatureMismatch)
  }

  lemma AckScheme(mac: Mac, key: Bytes)
    ensures MakeAuthentication(mac, ACK_SCHEME, key) == Some(Hmac(mac, "SHA256", key))
  {
    assert ACK_SCHEME[5..] == "sha256";
    assert Upper("sha256") == "SHA256";
  }

  // ---------------------------------------------------------------- the two sides

  /** The first half of `send_connection_info`: what the kernel sends. */
  method Announce(auth: Authentication, c: JsonCodec, kernelId: Bytes, ports: Ports) returns (wire: Multipart)
    ensures fresh(wire) && wire.frames == Announcement(auth, c, kernelId, ports)
  {
    wire := new Multipart([]);
    SerializeZmqId([], wire);
    var content := c.dump(Announced(kernelId, ports));
    wire.Add(auth.Sign(content));
    wire.Add(content);
  }

  /** The second half of `send_connection_info`: what the kernel makes of the reply. */
  method CheckReply(auth: Authentication, rep: Multipart) returns (r: Result<()>)
    modifies rep
    ensures r == Accept(auth, old(rep.frames))
  {
    ghost var all := rep.frames;
    var ids := DeserializeZmqId(rep);
    ScanFindsTheBoundary(all, ids, rep.frames);
    if ids.Failed? {
      return Failed(ids.error);
    }
    var signature := rep.Pop();
    if rep.frames == [] {
      return Failed(EmptyPop);
    }
    var content := rep.Pop();
    r := if auth.Verify(signature, content) then Ok(()) else Failed(SignatureMismatch);
  }

  method WaitForConfiguration(mac: Mac, c: JsonCodec, key: Bytes, wire: Multipart)
    returns (r: Result<Registered>, reply: Multipart)
    modifies wire
    ensures r == Register(c, key, old(wire.frames))
    ensures fresh(reply)
    ensures reply.frames == if r.Ok? then Acknowledgement(mac, key, Envelope(old(wire.frames)).value.0) else []
  {
    ghost var all := wire.frames;
    reply := new Multipart([]);
    var ids := DeserializeZmqId(wire);
    ScanFindsTheBoundary(all, ids, wire.frames);
    if ids.Failed? {
      return Failed(ids.error), reply;
    }
    var signature := wire.Pop();
    if wire.frames == [] {
      return Failed(EmptyPop), reply;
    }
    var content := wire.Pop();
    if !c.Readable(content) {
      return Failed(MalformedJson), reply;
    }
    var j := c.parse(content).value;
    if !HasPorts(j) {
      return Failed(MissingPort), reply;
    }
    r := Ok(Registered(key, PortsOf(j)));
    AckScheme(mac, key);
    var auth := MakeAuthentication(mac, ACK_SCHEME, key).value;
    SerializeZmqId(ids.value, reply);
    reply.Add(auth.Sign(ACK));
    reply.Add(ACK);
  }

  // ---------------------------------------------------------------- the two sides together

  /** A ROUTER socket puts the identity of the peer in front of what it receives from it; what it sends
      goes to the peer named by the first frame, without that frame. */
  function Received(id: Bytes, frames: seq<Bytes>): seq<Bytes> { [id] + frames }

  function SentTo(id: Bytes, frames: seq<Bytes>): Option<seq<Bytes>> {
    if frames != [] && frames[0] == id then Some(frames[1..]) else None
  }

  lemma EnvelopeAt(ids: seq<Bytes>, signature: Bytes, content: Bytes)
    requires DELIMITER !in ids
    ensures Envelope(ids + [DELIMITER, signature, content]) == Ok((ids, signature, content))
  {
    var frames := ids + [DELIMITER, signature, content];
    assert frames[..|ids|] == ids;
    BoundaryExactly(frames, |ids|);
    hide Boundary;
  }

  /** Exactly which frames have an envelope: some identities, the first delimiter, a signature and a content, whatever
      comes behind. */
  lemma EnvelopeExactly(frames: seq<Bytes>, ids: seq<Bytes>, signature: Bytes, content: Bytes)
    ensures Envelope(frames) == Ok((ids, signature, content)) <==>
            DELIMITER !in ids && ids + [DELIMITER, signature, content] <= frames
  {
    var n := |ids|;
    BoundaryExactly(frames, n);
    hide Boundary;
    if n + 2 < |frames| {
      assert frames[..n + 3] == frames[..n] + [frames[n], frames[n + 1], frames[n + 2]];
    }
    var whole := ids + [DELIMITER, signature, content];
    if whole <= frames {
      assert forall k :: 0 <= k < |whole| ==> frames[k] == whole[k];
      assert frames[..n] == ids;
    }
  }

  /** Exactly which replies the kernel accepts: with an envelope whose signature begins with the one that the kernel
      computes over the content. */
  lemma AcceptedExactly(auth: Authentication, frames: seq<Bytes>)
    ensures Accept(auth, frames) == Ok(()) <==>
            exists ids, signature, content :: Envelops(frames, ids, signature, content)
              && (auth.Hmac? ==> auth.mac.compute(auth.hash, auth.key, content) <= signature)
  {
    forall ids, signature, content
      ensures Envelope(frames) == Ok((ids, signature, content)) <==> Envelops(frames, ids, signature, content)
    {
      EnvelopeExactly(frames, ids, signature, content);
    }
    hide Envelope, Envelops;
    if Envelope(frames).Ok? {
      var (ids, signature, content) := Envelope(frames).value;
      assert Envelops(frames, ids, signature, content);
    }
  }

  /** Why the kernel turns a reply down. */
  lemma RejectedExactly(auth: Authentication, frames: seq<Bytes>)
    ensures Accept(auth, frames) == Failed(NoDelimiter) <==> frames != [] && DELIMITER !in frames[..|frames| - 1]
    ensures Accept(auth, frames) == Failed(SignatureMismatch) <==>
            exists ids, signature, content :: Envelops(frames, ids, signature, content)
              && auth.Hmac? && !(auth.mac.compute(auth.hash, auth.key, content) <= signature)
  {
    forall ids, signature, content
      ensures Envelope(frames) == Ok((ids, signature, content)) <==> Envelops(frames, ids, signature, content)
    {
      EnvelopeExactly(frames, ids, signature, content);
    }
    NoBoundaryExactly(frames);
    assert Envelope(frames) == Failed(NoDelimiter) <==> frames != [] && Boundary(frames).None?;
    assert Envelope(frames) != Failed(SignatureMismatch);
    hide Envelope, Envelops, Boundary;
    if Envelope(frames).Ok? {
      var (ids, signature, content) := Envelope(frames).value;
      assert Envelops(frames, ids, signature, content);
    }
  }

  predicate Envelops(frames: seq<Bytes>, ids: seq<Bytes>, signature: Bytes, content: Bytes) {
    DELIMITER !in ids && ids + [DELIMITER, signature, content] <= frames
  }

  /** The announcement carries the signature of its content under the kernel's own key and hash, and its content says
      who the kernel is and where each of its five sockets is. */
  lemma AnnouncementSays(auth: Authentication, c: JsonCodec, kernelId: Bytes, ports: Ports, id: Bytes)
    requires c.Valid() && id != DELIMITER
    ensures var announced := Envelope(Received(id, Announcement(auth, c, kernelId, ports)));
            && announced.Ok? && announced.value.0 == [id]
            && announced.value.1 ==
               (if auth.Hmac? then auth.mac.compute(auth.hash, auth.key, announced.value.2) else "")
            && c.parse(announced.value.2) ==
               Some(Object(map["kernel_id" := Text(kernelId),
                               "control_port" := Text(ports.control), "shell_port" := Text(ports.shell),
                               "stdin_port" := Text(ports.stdin), "iopub_port" := Text(ports.iopub),
                               "hb_port" := Text(ports.hb)]))
  {
    var announcement := Announcement(auth, c, kernelId, ports);
    EnvelopeAt([id], announcement[1], announcement[2]);
    assert Received(id, announcement) == [id] + [DELIMITER, announcement[1], announcement[2]];
    hide Envelope;
  }

  /** The text is a JSON object with these five ports. */
  predicate SaysPorts(c: JsonCodec, text: Bytes, ports: Ports) {
    && c.parse(text).Some? && c.parse(text).value.Object?
    && var fields := c.parse(text).value.fields;
       && Says(fields, "control_port", ports.control) && Says(fields, "shell_port", ports.shell)
       && Says(fields, "stdin_port", ports.stdin) && Says(fields, "iopub_port", ports.iopub)
       && Says(fields, "hb_port", ports.hb)
  }

  predicate Says(fields: map<Bytes, Json>, field: Bytes, text: Bytes) { field in fields && fields[field] == Text(text) }

  lemma ReadExactly(c: JsonCodec, key: Bytes, content: Bytes, r: Registered)
    ensures ReadRegistration(c, key, content) == Ok(r) <==> r.key == key && SaysPorts(c, content, r.ports)
  {}

  /** Exactly which messages register a kernel with the client: with an envelope, whatever its signature, and a content
      that names the five ports. */
  lemma RegisteredExactly(c: JsonCodec, key: Bytes, frames: seq<Bytes>, r: Registered)
    ensures Register(c, key, frames) == Ok(r) <==>
            r.key == key && exists ids, signature, content ::
              Envelops(frames, ids, signature, content) && SaysPorts(c, content, r.ports)
  {
    forall ids, signature, content
      ensures Envelope(frames) == Ok((ids, signature, content)) <==> Envelops(frames, ids, signature, content)
      ensures ReadRegistration(c, key, content) == Ok(r) <==> r.key == key && SaysPorts(c, content, r.ports)
    {
      EnvelopeExactly(frames, ids, signature, content);
      ReadExactly(c, key, content, r);
    }
    hide Envelope, Envelops, SaysPorts, ReadRegistration;
    if Envelope(frames).Ok? {
      var (ids, signature, content) := Envelope(frames).value;
      assert Envelops(frames, ids, signature, content);
    }
  }

  /** What the client reads: the content, or, if the routing identity of the kernel is the delimiter, the
      signature in its place. */
  lemma WhatIsRead(auth: Authentication, c: JsonCodec, kernelId: Bytes, ports: Ports, key: Bytes, id: Bytes)
    ensures var announcement := Announcement(auth, c, kernelId, ports);
            Register(c, key, Received(id, announcement)) ==
            ReadRegistration(c, key, announcement[if id != DELIMITER then 2 else 1])
  {
    var announcement := Announcement(auth, c, kernelId, ports);
    if id != DELIMITER {
      EnvelopeAt([id], announcement[1], announcement[2]);
      assert Received(id, announcement) == [id] + [DELIMITER, announcement[1], announcement[2]];
    } else {
      BoundaryExactly(Received(id, announcement), 0);
      hide Boundary;
    }
  }

  /** The client learns exactly the kernel's ports if and only if the routing identity of the kernel is not
      the delimiter, or the signature is itself a JSON object with the same five ports. */
  lemma PortsArriveExactly(auth: Authentication, c: JsonCodec, kernelId: Bytes, ports: Ports, key: Bytes, id: Bytes)
    requires c.Valid()
    ensures var announcement := Announcement(auth, c, kernelId, ports);
            Register(c, key, Received(id, announcement)) == Ok(Registered(key, ports)) <==>
            id != DELIMITER || SaysPorts(c, announcement[1], ports)
  {
    var announcement := Announcement(auth, c, kernelId, ports);
    WhatIsRead(auth, c, kernelId, ports, key, id);
    ReadExactly(c, key, announcement[2], Registered(key, ports));
    ReadExactly(c, key, announcement[1], Registered(key, ports));
    assert SaysPorts(c, announcement[2], ports);
    hide Register, ReadRegistration;
  }

  /** Under the scheme `none` the signature is empty, which is no JSON text: a kernel whose routing identity is
      the delimiter is never registered. */
  lemma DelimiterIsNoIdentity(mac: Mac, c: JsonCodec, kernelKey: Bytes, kernelId: Bytes, ports: Ports, key: Bytes)
    requires !c.Readable("")
    ensures MakeAuthentication(mac, "none", kernelKey) == Some(Unsigned)
    ensures Register(c, key, Received(DELIMITER, Announcement(Unsigned, c, kernelId, ports))) == Failed(MalformedJson)
  {
    WhatIsRead(Unsigned, c, kernelId, ports, key, DELIMITER);
    hide Register;
  }

  /** With any other identity the acknowledgement comes back to the kernel, which accepts it exactly when
      it asks for no signature or computes, with its own hash and key, a beginning of the client's. */
  lemma AckIsAcceptedExactly(mac: Mac, auth: Authentication, c: JsonCodec, kernelId: Bytes, ports: Ports, key: Bytes,
                             id: Bytes)
    requires c.Valid() && id != DELIMITER
    ensures var frames := Received(id, Announcement(auth, c, kernelId, ports));
            && Envelope(frames).Ok?
            && var reply := SentTo(id, Acknowledgement(mac, key, Envelope(frames).value.0));
               && reply.Some?
               && (Accept(auth, reply.value) == Ok(()) <==>
                   auth.Unsigned?
                   || auth.mac.compute(auth.hash, auth.key, "ACK") <= mac.compute("SHA256", key, "ACK"))
  {
    var announcement := Announcement(auth, c, kernelId, ports);
    EnvelopeAt([id], announcement[1], announcement[2]);
    assert Received(id, announcement) == [id] + [DELIMITER, announcement[1], announcement[2]];
    var signature := mac.compute("SHA256", key, ACK);
    EnvelopeAt([], signature, ACK);
    assert SentTo(id, Acknowledgement(mac, key, [id])) == Some([] + [DELIMITER, signature, ACK]);
  }

  /** The whole handshake: with equal keys, and on the kernel's side the scheme `none` or `hmac-sha256`, the
      client returns the kernel's key and five ports and the kernel accepts the acknowledgement. */
  lemma HandshakeCompletes(mac: Mac, c: JsonCodec, scheme: Bytes, key: Bytes, kernelId: Bytes, ports: Ports, id: Bytes)
    requires c.Valid() && id != DELIMITER && (scheme == "none" || scheme == ACK_SCHEME)
    ensures MakeAuthentication(mac, scheme, key).Some?
    ensures var auth := MakeAuthentication(mac, scheme, key).value;
            var frames := Received(id, Announcement(auth, c, kernelId, ports));
            && Register(c, key, frames) == Ok(Registered(key, ports))
            && Envelope(frames).Ok?
            && var reply := SentTo(id, Acknowledgement(mac, key, Envelope(frames).value.0));
               reply.Some? && Accept(auth, reply.value) == Ok(())
  {
    AckScheme(mac, key);
    var auth := MakeAuthentication(mac, scheme, key).value;
    PortsArriveExactly(auth, c, kernelId, ports, key, id);
    AckIsAcceptedExactly(mac, auth, c, kernelId, ports, key, id);
    hide Register, Accept, Envelope;
  }
}
