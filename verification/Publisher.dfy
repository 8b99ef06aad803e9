/** The publisher thread: it forwards what the kernel's threads publish, welcomes subscribers and stops on
    request. */
module Publisher {
  import opened Basics
  import opened JsonText
  import opened Wire

  /** A message of one of the publishing sockets, and the socket it comes from. */
  datatype Publication = Publication(socket: nat, frames: seq<Bytes>)

  /** One return of the poll: the message that each ready socket has, if it is ready. */
  datatype Round = Round(data: Option<Publication>, stop: Option<seq<Bytes>>, upstream: Option<seq<Bytes>>)

  /** What leaves on the publisher socket, and why. */
  datatype Output = Forwarded(publication: Publication) | Welcome(topic: Bytes, frames: seq<Bytes>)

  /** `Waiting`: the poll does not return any more. `Unset`: the exception for a missing serializer. */
  datatype Ending = Stopped | Unset | Waiting

  /** How publications are put on the wire, and the header of a welcome (identifier and date). */
  datatype Setup = Setup(serialize: Option<PubMessage -> seq<Bytes>>, header: Json)

  /** A subscription is one frame, the byte 1 and then the topic. */
  predicate IsSubscription(frames: seq<Bytes>) { |frames| == 1 && frames[0] != [] && frames[0][0] == 1 as char }

  function TopicOf(frames: seq<Bytes>): Bytes
    requires IsSubscription(frames)
  {
    frames[0][1..]
  }

  /** The welcome goes out under the empty topic, with the topic subscribed to in its content. */
  function CreateXpubMessage(setup: Setup, topic: Bytes): PubMessage {
    PubMessage("", Base(setup.header, Object(map[]), Object(map[]), Object(map["subscription" := Text(topic)]), []))
  }

  // ---------------------------------------------------------------- what a run is about

  predicate Subscribes(r: Round) { r.upstream.Some? && IsSubscription(r.upstream.value) }

  /** The round in which the loop ends: a stop, or a subscription that cannot be answered. */
  predicate Ends(setup: Setup, r: Round) { r.stop.Some? || (Subscribes(r) && setup.serialize.None?) }

  function DataOf(r: Round): seq<Publication> { if r.data.Some? then [r.data.value] else [] }

  function Publications(rounds: seq<Round>): seq<Publication> {
    if rounds == [] then [] else DataOf(rounds[0]) + Publications(rounds[1..])
  }

  /** The topic of a subscription that comes in a round without a stop. */
  function Asked(r: Round): seq<Bytes> {
    if r.stop.None? && Subscribes(r) then [TopicOf(r.upstream.value)] else []
  }

  function Topics(rounds: seq<Round>): seq<Bytes> {
    if rounds == [] then [] else Asked(rounds[0]) + Topics(rounds[1..])
  }

  /** What one round sends: the publication comes before the welcome. */
  function RoundOutput(setup: Setup, r: Round): seq<Output> {
    (if r.data.Some? then [Forwarded(r.data.value)] else [])
    + if r.stop.None? && Subscribes(r) && setup.serialize.Some? then [WelcomeFor(setup, TopicOf(r.upstream.value))]
        else []
  }

  function WelcomeFor(setup: Setup, topic: Bytes): Output
    requires setup.serialize.Some?
  {
    Welcome(topic, setup.serialize.value(CreateXpubMessage(setup, topic)))
  }

  function Transcript(setup: Setup, rounds: seq<Round>): seq<Output> {
    if rounds == [] then [] else Transcript(setup, rounds[..|rounds| - 1]) + RoundOutput(setup, rounds[|rounds| - 1])
  }

  function ForwardOf(o: Output): seq<Publication> { if o.Forwarded? then [o.publication] else [] }

  function ForwardedIn(outputs: seq<Output>): seq<Publication> {
    if outputs == [] then [] else ForwardOf(outputs[0]) + ForwardedIn(outputs[1..])
  }

  function WelcomeOf(o: Output): seq<Bytes> { if o.Welcome? then [o.topic] else [] }

  function WelcomedIn(outputs: seq<Output>): seq<Bytes> {
    if outputs == [] then [] else WelcomeOf(outputs[0]) + WelcomedIn(outputs[1..])
  }

  /** Every welcome is the serialized welcome message of its topic. */
  predicate WelcomesAreFaithful(setup: Setup, outputs: seq<Output>) {
    forall o :: o in outputs && o.Welcome? ==>
      setup.serialize.Some? && o.frames == setup.serialize.value(CreateXpubMessage(setup, o.topic))
  }

  // ---------------------------------------------------------------- the thread

  class Publisher {
    const setup: Setup
    /** What was sent on the publisher socket and back on the controller socket. */
    var sent: seq<Output>
    var acknowledged: seq<seq<Bytes>>

    constructor (setup: Setup)
      ensures this.setup == setup && sent == [] && acknowledged == []
    {
      this.setup := setup;
      sent := [];
      acknowledged := [];
    }

    /** Goes through the rounds until the first one that ends the loop, sends what each of them asks for,
        the last one included, and sends the stop back. */
    method Run(rounds: seq<Round>) returns (ending: Ending, n: nat)
      requires sent == [] && acknowledged == []
      modifies this
      ensures n <= |rounds| && forall i :: 0 <= i < n - 1 ==> !Ends(setup, rounds[i])
      ensures ending == Waiting <==> forall i :: 0 <= i < |rounds| ==> !Ends(setup, rounds[i])
      ensures ending == Waiting ==> n == |rounds|
      ensures ending != Waiting ==>
                n > 0 && Ends(setup, rounds[n - 1]) && (ending == Stopped <==> rounds[n - 1].stop.Some?)
      ensures acknowledged == if ending == Stopped then [rounds[n - 1].stop.value] else []
      ensures sent == Transcript(setup, rounds[..n])
    {
      hide Transcript, CreateXpubMessage;
      n := 0;
      TranscriptStart(setup, rounds);
      while n < |rounds|
        invariant n <= |rounds| && forall i :: 0 <= i < n ==> !Ends(setup, rounds[i])
        invariant acknowledged == []
        invariant sent == Transcript(setup, rounds[..n])
      {
        var r := rounds[n];
        TranscriptStep(setup, rounds, n);
        n := n + 1;
        if r.data.Some? {
          sent := sent + [Forwarded(r.data.value)];
        }
        if r.stop.Some? {
          acknowledged := acknowledged + [r.stop.value];
          return Stopped, n;
        }
        if r.upstream.Some? {
          var frames := r.upstream.value;
          if |frames| != 1 || |frames[0]| == 0 {
            continue;
          }
          if frames[0][0] == 1 as char {
            var topic := frames[0][1..];
            if setup.serialize.Some? {
              var welcome := setup.serialize.value(CreateXpubMessage(setup, topic));
              sent := sent + [Welcome(topic, welcome)];
            } else {
              return Unset, n;
            }
          }
        }
      }
      ending := Waiting;
    }
  }

  // ---------------------------------------------------------------- what a run sends

  lemma TranscriptStart(setup: Setup, rounds: seq<Round>)
    ensures Transcript(setup, rounds[..0]) == [] && rounds[..|rounds|] == rounds
  {}

  lemma TranscriptStep(setup: Setup, rounds: seq<Round>, n: nat)
    requires n < |rounds|
    ensures Transcript(setup, rounds[..n + 1]) == Transcript(setup, rounds[..n]) + RoundOutput(setup, rounds[n])
  {
    assert rounds[..n + 1][..n] == rounds[..n];
  }

  lemma {:induction false} PublicationsAppend(front: seq<Round>, back: seq<Round>)
    ensures Publications(front + back) == Publications(front) + Publications(back)
    ensures Topics(front + back) == Topics(front) + Topics(back)
  {
    if front == [] {
      assert front + back == back;
    } else {
      PublicationsAppend(front[1..], back);
      assert (front + back)[1..] == front[1..] + back;
      Associative(DataOf(front[0]), Publications(front[1..]), Publications(back));
      Associative(Asked(front[0]), Topics(front[1..]), Topics(back));
      hide DataOf, Asked;
    }
  }

  lemma PublicationsSnoc(rounds: seq<Round>)
    requires rounds != []
    ensures var n := |rounds| - 1;
            && Publications(rounds) == Publications(rounds[..n]) + DataOf(rounds[n])
            && Topics(rounds) == Topics(rounds[..n]) + Asked(rounds[n])
  {
    var n := |rounds| - 1;
    assert rounds == rounds[..n] + [rounds[n]];
    PublicationsAppend(rounds[..n], [rounds[n]]);
    assert Publications([rounds[n]]) == DataOf(rounds[n]) && Topics([rounds[n]]) == Asked(rounds[n]);
    hide DataOf, Asked, Publications, Topics;
  }

  function HasData(): Round -> bool { (r: Round) => r.data.Some? }

  /** A subscription is one frame that begins with the byte 1; it counts unless a stop comes in the same round. */
  function AsksForTopic(): Round -> bool {
    (r: Round) =>
      && r.stop.None? && r.upstream.Some? && |r.upstream.value| == 1
      && r.upstream.value[0] != [] && r.upstream.value[0][0] == 1 as char
  }

  /** The publications and topics of some rounds are the messages of the ready sockets, and what follows the first byte
      of the subscriptions. */
  lemma {:induction false} PublicationsExactly(rounds: seq<Round>, nothing: Publication)
    ensures Picks(HasData(), (r: Round) => if r.data.Some? then r.data.value else nothing, rounds, Publications(rounds))
    ensures Picks(AsksForTopic(), (r: Round) => if AsksForTopic()(r) then r.upstream.value[0][1..] else [],
                  rounds, Topics(rounds))
    decreases |rounds|
  {
    if rounds != [] {
      var n := |rounds| - 1;
      PublicationsExactly(rounds[..n], nothing);
      PublicationsSnoc(rounds);
      assert rounds == rounds[..n] + [rounds[n]];
      PicksOneMore(HasData(), (r: Round) => if r.data.Some? then r.data.value else nothing,
                   rounds[..n], Publications(rounds[..n]), rounds[n]);
      PicksOneMore(AsksForTopic(), (r: Round) => if AsksForTopic()(r) then r.upstream.value[0][1..] else [],
                   rounds[..n], Topics(rounds[..n]), rounds[n]);
      hide Picks, Publications, Topics;
    }
  }

  lemma FaithfulAppend(setup: Setup, front: seq<Output>, back: seq<Output>)
    requires WelcomesAreFaithful(setup, front) && WelcomesAreFaithful(setup, back)
    ensures WelcomesAreFaithful(setup, front + back)
  {}

  lemma {:induction false} OutputsAppend(front: seq<Output>, back: seq<Output>)
    ensures ForwardedIn(front + back) == ForwardedIn(front) + ForwardedIn(back)
    ensures WelcomedIn(front + back) == WelcomedIn(front) + WelcomedIn(back)
  {
    if front == [] {
      assert front + back == back;
    } else {
      OutputsAppend(front[1..], back);
      assert (front + back)[1..] == front[1..] + back;
      Associative(ForwardOf(front[0]), ForwardedIn(front[1..]), ForwardedIn(back));
      Associative(WelcomeOf(front[0]), WelcomedIn(front[1..]), WelcomedIn(back));
      hide ForwardOf, WelcomeOf;
    }
  }

  lemma RoundOutputMeans(setup: Setup, r: Round)
    ensures ForwardedIn(RoundOutput(setup, r)) == DataOf(r)
    ensures WelcomedIn(RoundOutput(setup, r)) == if setup.serialize.None? then [] else Asked(r)
    ensures WelcomesAreFaithful(setup, RoundOutput(setup, r))
  {
    var data := if r.data.Some? then [Forwarded(r.data.value)] else [];
    var welcome := RoundOutput(setup, r)[|data|..];
    assert RoundOutput(setup, r) == data + welcome;
    OutputsAppend(data, welcome);
  }

  /** A run forwards exactly what was published until its end, in order, and welcomes exactly the
      subscriptions, once each and in order, with the serialized welcome of their topic. */
  lemma {:induction false} TranscriptMeans(setup: Setup, rounds: seq<Round>)
    ensures ForwardedIn(Transcript(setup, rounds)) == Publications(rounds)
    ensures WelcomedIn(Transcript(setup, rounds)) == if setup.serialize.None? then [] else Topics(rounds)
    ensures WelcomesAreFaithful(setup, Transcript(setup, rounds))
  {
    if rounds != [] {
      var n := |rounds| - 1;
      TranscriptMeans(setup, rounds[..n]);
      RoundOutputMeans(setup, rounds[n]);
      OutputsAppend(Transcript(setup, rounds[..n]), RoundOutput(setup, rounds[n]));
      PublicationsSnoc(rounds);
      FaithfulAppend(setup, Transcript(setup, rounds[..n]), RoundOutput(setup, rounds[n]));
      hide RoundOutput, DataOf, Asked, ForwardedIn, WelcomedIn, Publications, Topics, WelcomesAreFaithful;
    }
  }

  /** What a round sends comes behind what the rounds before have sent, its publication first. */
  lemma PublicationComesFirst(setup: Setup, rounds: seq<Round>, i: nat)
    requires i < |rounds|
    ensures var before, after := Transcript(setup, rounds[..i]), Transcript(setup, rounds[..i + 1]);
            && before <= after
            && (rounds[i].data.Some? ==> |before| < |after| && after[|before|] == Forwarded(rounds[i].data.value))
  {
    TranscriptStep(setup, rounds, i);
  }

  // ---------------------------------------------------------------- per socket, and at the subscriber

  function FromSocket(socket: nat): Publication -> bool { (p: Publication) => p.socket == socket }

  /** Wherever the loop ends, what was forwarded for each publishing socket is a beginning of what that
      socket published, in its order. */
  lemma ForwardsAPrefixPerSocket(setup: Setup, rounds: seq<Round>, n: nat, socket: nat)
    requires n <= |rounds|
    ensures Filter(FromSocket(socket), ForwardedIn(Transcript(setup, rounds[..n]))) <=
            Filter(FromSocket(socket), Publications(rounds))
  {
    hide Filter, Publications, ForwardedIn, Transcript, FromSocket;
    TranscriptMeans(setup, rounds[..n]);
    assert rounds[..n] + rounds[n..] == rounds;
    PublicationsAppend(rounds[..n], rounds[n..]);
    FilterAppend(FromSocket(socket), Publications(rounds[..n]), Publications(rounds[n..]));
  }

  /** A message from upstream that is not a subscription could as well not have come. */
  lemma {:induction false} OtherUpstreamIsIgnored(setup: Setup, rounds: seq<Round>, i: nat)
    requires i < |rounds| && !Subscribes(rounds[i])
    ensures var without := rounds[i].(upstream := None);
            && Transcript(setup, rounds[i := without]) == Transcript(setup, rounds)
            && Ends(setup, without) == Ends(setup, rounds[i])
  {
    var n := |rounds| - 1;
    var without := rounds[i].(upstream := None);
    var fewer := rounds[i := without];
    if i < n {
      OtherUpstreamIsIgnored(setup, rounds[..n], i);
      assert fewer[..n] == rounds[..n][i := without];
    } else {
      assert fewer[..n] == rounds[..n];
    }
  }

  /** A subscriber that deserializes a welcome finds the topic it subscribed to. */
  lemma {:induction false} SubscriberReadsItsTopic(auth: Authentication, c: JsonCodec, setup: Setup,
                                                   outputs: seq<Output>, o: Output)
    requires c.Valid() && setup.serialize == Some((m: PubMessage) => PubFrames(auth, c, m))
    requires WelcomesAreFaithful(setup, outputs) && o in outputs && o.Welcome?
    ensures ReadPub(auth, c, o.frames).Ok?
    ensures var m := ReadPub(auth, c, o.frames).value;
            && m.topic == "" && m.base.content == Object(map["subscription" := Text(o.topic)])
            && m.base.header == setup.header && m.base.parentHeader == m.base.metadata == Object(map[])
            && m.base.buffers == []
  {
    PubRoundTrip(auth, c, CreateXpubMessage(setup, o.topic));
  }
}
