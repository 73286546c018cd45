/**
 The handoff of packets from the network thread to the transmit loop through one transport
 buffer, a semaphore and a flag, as interleaved steps of two threads. Before a subframe is
 encoded the loop writes generated octets over the buffer; the histories below follow what
 becomes of each packet.
 */
module PacketHandoff {
  import opened Options

  /** What the transport buffer holds: the `number`-th packet copied in, or generated octets. */
  datatype Content = Packet(number: nat) | Filler

  datatype Producer = Reading | Waiting | Copying | Filled

  /** Where the transmit loop is in a subframe that may carry network data. `Sampled` occurs in
      MBMS mode only, where the loop looks at the flag before anything else. */
  datatype Consumer = Idle | Sampled | Encoding | Checking | Clearing | Posting

  /** What the subframe that released a packet had done: the buffer when it looked at the flag,
      whether a packet was waiting when it wrote over the buffer and when it encoded, and what
      it encoded. */
  datatype Release = Release(sampled: Content, overwrote: bool, held: bool, air: Content)

  /** The shared variables, the two threads, the record of the current subframe, and histories:
      how many packets were copied in and published, for each copy whether it fell between the
      writing over the buffer and the encoding of a subframe, the packets encoded, and the
      releases. */
  datatype State = State(
    sem: nat, ready: bool, slot: Content,
    producer: Producer, consumer: Consumer, current: Release,
    copied: nat, published: nat, midway: seq<bool>, aired: seq<nat>, released: seq<Release>)

  datatype Action =
    | Fetch | Wait | Copy | Publish
    | Sample | Fill(send: bool) | Encode | Check | Clear | Post

  const INIT := State(1, false, Filler, Reading, Idle, Release(Filler, false, false, Filler), 0, 0, [], [], [])

  /** A packet has been copied in and not been released. */
  predicate Pending(s: State) {
    s.ready || s.producer.Filled?
  }

  /** One step. In MBMS mode the loop goes on only if it has seen the flag; otherwise it writes
      over the buffer in every subframe, encodes in those that send, and looks at the flag
      afterwards. */
  function Next(mbms: bool, s: State, a: Action): Option<State> {
    match a
    case Fetch => if s.producer.Reading? then Some(s.(producer := Waiting)) else None
    case Wait =>
      if s.producer.Waiting? && s.sem > 0 then Some(s.(sem := s.sem - 1, producer := Copying)) else None
    case Copy =>
      if s.producer.Copying? then
        Some(s.(slot := Packet(s.copied), copied := s.copied + 1, producer := Filled,
                midway := s.midway + [s.consumer.Encoding?]))
      else None
    case Publish =>
      if s.producer.Filled? then Some(s.(ready := true, producer := Reading, published := s.published + 1)) else None
    case Sample =>
      if mbms && s.consumer.Idle? then
        Some(if s.ready then s.(consumer := Sampled, current := s.current.(sampled := s.slot)) else s)
      else None
    case Fill(send) =>
      if s.consumer == (if mbms then Sampled else Idle) then
        Some(s.(slot := Filler, current := s.current.(overwrote := Pending(s)),
                consumer := if mbms || send then Encoding else Idle))
      else None
    case Encode =>
      if s.consumer.Encoding? then
        Some(s.(current := s.current.(held := Pending(s), air := s.slot), consumer := Checking,
                aired := if s.slot.Packet? then s.aired + [s.slot.number] else s.aired))
      else None
    case Check => if s.consumer.Checking? then Some(s.(consumer := if s.ready then Clearing else Idle)) else None
    case Clear => if s.consumer.Clearing? then Some(s.(ready := false, consumer := Posting)) else None
    case Post =>
      if s.consumer.Posting? then
        Some(s.(sem := s.sem + 1, consumer := Idle, released := s.released + [s.current]))
      else None
  }

  function Run(mbms: bool, s: State, actions: seq<Action>): Option<State>
    decreases |actions|
  {
    if actions == [] then Some(s)
    else
      match Next(mbms, s, actions[0])
      case None => None
      case Some(t) => Run(mbms, t, actions[1..])
  }

  // ------------------------------------------------------------------------
  // Safety over every interleaving
  // ------------------------------------------------------------------------

  function Tokens(s: State): nat {
    s.sem
    + (if s.producer.Copying? || s.producer.Filled? then 1 else 0)
    + (if s.ready then 1 else 0)
    + (if s.consumer.Posting? then 1 else 0)
  }

  /** A published packet that has not been released yet. */
  predicate Outstanding(s: State) {
    s.ready || s.consumer.Posting?
  }

  /** A packet that was copied in since the subframe wrote over the buffer is about to be encoded. */
  predicate AboutToAir(s: State) {
    s.consumer.Encoding? && Pending(s) && !s.current.overwrote
  }

  /** The handshake: one token, and the counts of packets that follow from it. */
  ghost predicate HandshakeInv(s: State) {
    && Tokens(s) == 1
    && |s.midway| == s.copied == s.published + (if s.producer.Filled? then 1 else 0)
    && s.published == |s.released| + (if Outstanding(s) then 1 else 0)
    && (s.consumer.Clearing? ==> s.ready)
  }

  /** What a release took up: the packet it releases, or generated octets. */
  predicate TookExactly(r: Release, number: nat) {
    r.air == if r.held && !r.overwrote then Packet(number) else Filler
  }

  ghost predicate SubframeInv(s: State)
    requires HandshakeInv(s)
  {
    && (s.consumer.Encoding? ==>
          && (s.current.overwrote ==> Pending(s))
          && s.slot == if AboutToAir(s) then Packet(s.copied - 1) else Filler)
    && (s.consumer.Checking? || s.consumer.Clearing? ==>
          && (s.current.overwrote ==> s.current.held)
          && (s.current.held ==> Pending(s) && TookExactly(s.current, s.copied - 1))
          && (!s.current.held ==> s.current.air == Filler))
    && (s.consumer.Posting? ==> TookExactly(s.current, |s.released|))
    && (forall i | 0 <= i < |s.released| :: TookExactly(s.released[i], i))
  }

  ghost predicate AiredInv(s: State)
    requires HandshakeInv(s)
  {
    && (AboutToAir(s) ==> s.midway[s.copied - 1])
    && (forall k: nat :: k in s.aired <==> k < s.copied && s.midway[k] && !(AboutToAir(s) && k == s.copied - 1))
    && (forall i, j | 0 <= i < j < |s.aired| :: s.aired[i] < s.aired[j])
  }

  /** In MBMS mode the flag stays up from the sample to the release, and the buffer held the
      packet when it was sampled. */
  ghost predicate MbmsInv(s: State)
    requires HandshakeInv(s)
  {
    && (s.consumer in {Sampled, Encoding, Checking, Clearing} ==> s.ready)
    && (Pending(s) && s.consumer in {Idle, Sampled} ==> s.slot == Packet(s.copied - 1))
    && (!s.consumer.Idle? ==> s.current.sampled == Packet(|s.released|))
    && (s.consumer in {Encoding, Checking, Clearing, Posting} ==> s.current.overwrote)
    && (forall i | 0 <= i < |s.released| :: s.released[i].sampled == Packet(i) && s.released[i].overwrote)
    && (forall k | 0 <= k < |s.midway| :: !s.midway[k])
  }

  ghost predicate Inv(mbms: bool, s: State) {
    HandshakeInv(s) && SubframeInv(s) && AiredInv(s) && (if mbms then MbmsInv(s) else !s.consumer.Sampled?)
  }

  lemma HandshakeStep(mbms: bool, s: State, a: Action)
    requires HandshakeInv(s) && Next(mbms, s, a).Some?
    ensures HandshakeInv(Next(mbms, s, a).value)
  {
  }

  lemma SubframeStep(mbms: bool, s: State, a: Action)
    requires HandshakeInv(s) && SubframeInv(s) && Next(mbms, s, a).Some? && HandshakeInv(Next(mbms, s, a).value)
    ensures SubframeInv(Next(mbms, s, a).value)
  {
  }

  lemma AiredStep(mbms: bool, s: State, a: Action)
    requires HandshakeInv(s) && SubframeInv(s) && AiredInv(s)
    requires Next(mbms, s, a).Some? && HandshakeInv(Next(mbms, s, a).value)
    ensures AiredInv(Next(mbms, s, a).value)
  {
    match a {
      case Copy => AiredCopy(mbms, s);
      case Encode => AiredEncode(mbms, s);
      case _ =>
    }
  }

  lemma AiredCopy(mbms: bool, s: State)
    requires HandshakeInv(s) && SubframeInv(s) && AiredInv(s)
    requires Next(mbms, s, Copy).Some? && HandshakeInv(Next(mbms, s, Copy).value)
    ensures AiredInv(Next(mbms, s, Copy).value)
  {
    var t := Next(mbms, s, Copy).value;
    assert forall k | 0 <= k < s.copied :: t.midway[k] == s.midway[k];
  }

  lemma AiredEncode(mbms: bool, s: State)
    requires HandshakeInv(s) && SubframeInv(s) && AiredInv(s)
    requires Next(mbms, s, Encode).Some? && HandshakeInv(Next(mbms, s, Encode).value)
    ensures AiredInv(Next(mbms, s, Encode).value)
  {
    var t := Next(mbms, s, Encode).value;
    assert forall i | 0 <= i < |s.aired| :: s.aired[i] in s.aired;
    if AboutToAir(s) {
      assert forall k :: k in t.aired <==> k in s.aired || k == s.copied - 1;
    }
  }

  lemma MbmsStep(s: State, a: Action)
    requires HandshakeInv(s) && MbmsInv(s) && Next(true, s, a).Some? && HandshakeInv(Next(true, s, a).value)
    ensures MbmsInv(Next(true, s, a).value)
  {
  }

  lemma StepInv(mbms: bool, s: State, a: Action)
    requires Inv(mbms, s) && Next(mbms, s, a).Some?
    ensures Inv(mbms, Next(mbms, s, a).value)
  {
    hide HandshakeInv, SubframeInv, AiredInv, MbmsInv;
    HandshakeStep(mbms, s, a);
    SubframeStep(mbms, s, a);
    AiredStep(mbms, s, a);
    if mbms {
      MbmsStep(s, a);
    }
  }

  lemma {:induction false} RunInv(mbms: bool, s: State, actions: seq<Action>)
    requires Inv(mbms, s) && Run(mbms, s, actions).Some?
    ensures Inv(mbms, Run(mbms, s, actions).value)
    decreases |actions|
  {
    if actions != [] {
      StepInv(mbms, s, actions[0]);
      RunInv(mbms, Next(mbms, s, actions[0]).value, actions[1..]);
    }
  }

  /** One token in the system: at most one packet is outstanding, and while it is, the producer
      is not filling the buffer and cannot start to. */
  lemma OneOutstanding(mbms: bool, actions: seq<Action>)
    requires Run(mbms, INIT, actions).Some?
    ensures var s := Run(mbms, INIT, actions).value;
            && Tokens(s) == 1
            && |s.released| <= s.published <= |s.released| + 1
            && s.published <= s.copied <= s.published + 1
            && (Outstanding(s) ==> !s.producer.Copying? && !s.producer.Filled? && Next(mbms, s, Wait).None?)
  {
    RunInv(mbms, INIT, actions);
  }

  /** In MBMS mode the subframe that releases the i-th packet found the i-th packet in the
      buffer when it looked at the flag, and from then until the release the producer neither
      fills the buffer nor can start to. */
  lemma MbmsSamplesEachPacket(actions: seq<Action>)
    requires Run(true, INIT, actions).Some?
    ensures var s := Run(true, INIT, actions).value;
            && (forall i | 0 <= i < |s.released| :: s.released[i].sampled == Packet(i))
            && (s.consumer.Sampled? ==> s.slot == Packet(|s.released|))
            && (!s.consumer.Idle? ==>
                  !s.producer.Copying? && !s.producer.Filled? && Next(true, s, Wait).None?)
  {
    RunInv(true, INIT, actions);
  }

  /** And yet no packet is ever encoded in MBMS mode: the pattern is written over it after the
      flag was seen, and nothing can be copied in before the encoding. */
  lemma MbmsAirsNothing(actions: seq<Action>)
    requires Run(true, INIT, actions).Some?
    ensures var s := Run(true, INIT, actions).value;
            && s.aired == []
            && (forall i | 0 <= i < |s.released| :: s.released[i].air == Filler)
  {
    RunInv(true, INIT, actions);
    var s := Run(true, INIT, actions).value;
    assert forall i | 0 <= i < |s.released| :: TookExactly(s.released[i], i);
    FirstMember(s.aired);
  }

  lemma FirstMember(a: seq<nat>)
    ensures a == [] || exists k: nat :: k in a
  {
    if a != [] {
      assert a[0] in a;
    }
  }

  /** In either mode: which packets are encoded. Exactly those that were copied in while a
      subframe stood between writing over the buffer and encoding it; each at most once, in
      their order. (`AboutToAir` is the one packet whose encoding is the loop's next step.) */
  lemma AiredExactly(mbms: bool, actions: seq<Action>)
    requires Run(mbms, INIT, actions).Some?
    ensures var s := Run(mbms, INIT, actions).value;
            && |s.midway| == s.copied
            && (forall k | 0 <= k < s.copied && !(AboutToAir(s) && k == s.copied - 1) :: k in s.aired <==> s.midway[k])
            && (forall k | k in s.aired :: k < s.copied)
            && (forall i, j | 0 <= i < j < |s.aired| :: s.aired[i] < s.aired[j])
  {
    RunInv(mbms, INIT, actions);
  }

  /** The subframe that releases the i-th packet encoded it if and only if the packet was in
      the buffer at the encoding and had not been when the subframe wrote over it; otherwise it
      encoded generated octets, never another packet. */
  lemma ReleasedExactly(mbms: bool, actions: seq<Action>)
    requires Run(mbms, INIT, actions).Some?
    ensures var s := Run(mbms, INIT, actions).value;
            forall i | 0 <= i < |s.released| ::
              var r := s.released[i];
              && (r.air == Packet(i) <==> r.held && !r.overwrote)
              && (r.air == Packet(i) || r.air == Filler)
  {
    RunInv(mbms, INIT, actions);
    var s := Run(mbms, INIT, actions).value;
    assert forall i | 0 <= i < |s.released| :: TookExactly(s.released[i], i);
  }

  // ------------------------------------------------------------------------
  // Every case occurs
  // ------------------------------------------------------------------------

  lemma {:induction false} RunConcat(mbms: bool, s: State, a: seq<Action>, b: seq<Action>)
    requires Run(mbms, s, a).Some?
    ensures Run(mbms, s, a + b) == Run(mbms, Run(mbms, s, a).value, b)
    decreases |a|
  {
    hide Next;
    if a == [] {
      assert a + b == b;
    } else {
      RunConcat(mbms, Next(mbms, s, a[0]).value, a[1..], b);
      assert (a + b)[1..] == a[1..] + b;
    }
  }

  lemma RunTwo(mbms: bool, s: State, a: Action, t: State, b: Action)
    requires Next(mbms, s, a) == Some(t)
    ensures Run(mbms, s, [a, b]) == Next(mbms, t, b)
  {
    hide Next;
    assert [a, b][1..] == [b];
    RunOne(mbms, t, b);
  }

  lemma RunOne(mbms: bool, s: State, a: Action)
    ensures Run(mbms, s, [a]) == Next(mbms, s, a)
  {
    hide Next;
    assert [a][1..] == [];
  }

  const PRODUCE := [Fetch, Wait] + [Copy, Publish]
  const TRANSMIT := [Fill(true), Encode]
  const RELEASE := [Check, Clear] + [Post]

  predicate Quiescent(s: State) {
    s.producer.Reading? && s.consumer.Idle? && s.sem == 1 && !s.ready
  }

  function Produced(s: State): State
    requires s.sem > 0
  {
    s.(sem := s.sem - 1, slot := Packet(s.copied), copied := s.copied + 1, ready := true,
       midway := s.midway + [s.consumer.Encoding?], published := s.published + 1)
  }

  lemma ProducerTurn(mbms: bool, s: State)
    requires s.producer.Reading? && s.sem > 0
    ensures Run(mbms, s, PRODUCE) == Some(Produced(s))
  {
    var t := s.(producer := Waiting);
    var u := t.(sem := s.sem - 1, producer := Copying);
    RunTwo(mbms, s, Fetch, t, Wait);
    RunTwo(mbms, u, Copy, Next(mbms, u, Copy).value, Publish);
    RunConcat(mbms, s, [Fetch, Wait], [Copy, Publish]);
  }

  function Released(s: State): State {
    s.(ready := false, sem := s.sem + 1, consumer := Idle, released := s.released + [s.current])
  }

  lemma ReleaseTurn(mbms: bool, s: State)
    requires s.consumer.Checking? && s.ready
    ensures Run(mbms, s, RELEASE) == Some(Released(s))
  {
    var t := s.(consumer := Clearing);
    var u := t.(ready := false, consumer := Posting);
    RunTwo(mbms, s, Check, t, Clear);
    RunConcat(mbms, s, [Check, Clear], [Post]);
    RunOne(mbms, u, Post);
  }

  /** From every quiescent state all cases of `ReleasedExactly` can follow outside MBMS mode: a
      packet copied in before the subframe writes over the buffer is released without having
      been encoded, ... */
  lemma EarlyPacketIsLost(s: State) returns (t: State)
    requires Quiescent(s)
    ensures Run(false, s, PRODUCE + TRANSMIT + RELEASE) == Some(t) && Quiescent(t)
    ensures t.copied == s.copied + 1 && t.aired == s.aired
    ensures t.released == s.released + [s.current.(overwrote := true, held := true, air := Filler)]
  {
    var p := Produced(s);
    var f := Next(false, p, Fill(true)).value;
    var e := Next(false, f, Encode).value;
    ProducerTurn(false, s);
    RunTwo(false, p, Fill(true), f, Encode);
    ReleaseTurn(false, e);
    RunConcat(false, s, PRODUCE, TRANSMIT);
    RunConcat(false, s, PRODUCE + TRANSMIT, RELEASE);
    t := Released(e);
  }

  /** ... so is one copied in after the encoding, ... */
  lemma LatePacketIsLost(s: State) returns (t: State)
    requires Quiescent(s)
    ensures Run(false, s, TRANSMIT + PRODUCE + RELEASE) == Some(t) && Quiescent(t)
    ensures t.copied == s.copied + 1 && t.aired == s.aired
    ensures t.released == s.released + [s.current.(overwrote := false, held := false, air := Filler)]
  {
    var f := Next(false, s, Fill(true)).value;
    var e := Next(false, f, Encode).value;
    RunTwo(false, s, Fill(true), f, Encode);
    ProducerTurn(false, e);
    ReleaseTurn(false, Produced(e));
    RunConcat(false, s, TRANSMIT, PRODUCE);
    RunConcat(false, s, TRANSMIT + PRODUCE, RELEASE);
    t := Released(Produced(e));
  }

  /** ... and one copied in between is encoded. */
  lemma MidwayPacketIsAired(s: State) returns (t: State)
    requires Quiescent(s)
    ensures Run(false, s, [Fill(true)] + PRODUCE + [Encode] + RELEASE) == Some(t) && Quiescent(t)
    ensures t.copied == s.copied + 1 && t.aired == s.aired + [s.copied]
    ensures t.released == s.released + [s.current.(overwrote := false, held := true, air := Packet(s.copied))]
  {
    var f := Next(false, s, Fill(true)).value;
    var p := Produced(f);
    var e := Next(false, p, Encode).value;
    RunOne(false, s, Fill(true));
    RunOne(false, p, Encode);
    ProducerTurn(false, f);
    ReleaseTurn(false, e);
    RunConcat(false, s, [Fill(true)], PRODUCE);
    RunConcat(false, s, [Fill(true)] + PRODUCE, [Encode]);
    RunConcat(false, s, [Fill(true)] + PRODUCE + [Encode], RELEASE);
    t := Released(e);
  }

  /** A subframe that does not send writes over a waiting packet all the same, and leaves the flag
      and the semaphore alone. */
  lemma SilentSubframe(s: State)
    requires s.consumer.Idle?
    ensures var t := Run(false, s, [Fill(false)]);
            && t.Some? && t.value.slot == Filler && t.value.consumer.Idle?
            && t.value.ready == s.ready && t.value.sem == s.sem && t.value.released == s.released
            && t.value.aired == s.aired
  {
    RunOne(false, s, Fill(false));
  }

  /** The turn of a packet in MBMS mode, from every quiescent state: the loop goes on if and only if
      the flag is up when it looks, it takes note of the packet, writes over it and encodes the
      pattern, whatever `send` says, and gives the semaphore back. */
  lemma MbmsTurn(s: State, send: bool) returns (t: State)
    requires Quiescent(s)
    ensures Run(true, s, [Sample]) == Some(s)
    ensures Run(true, s, PRODUCE + [Sample, Fill(send)] + [Encode] + RELEASE) == Some(t) && Quiescent(t)
    ensures t.copied == s.copied + 1 && t.published == s.published + 1 && t.aired == s.aired
    ensures t.released == s.released + [Release(Packet(s.copied), true, true, Filler)]
  {
    var p := Produced(s);
    var q := Next(true, p, Sample).value;
    var f := Next(true, q, Fill(send)).value;
    var e := Next(true, f, Encode).value;
    RunOne(true, s, Sample);
    ProducerTurn(true, s);
    RunTwo(true, p, Sample, q, Fill(send));
    RunOne(true, f, Encode);
    ReleaseTurn(true, e);
    RunConcat(true, s, PRODUCE, [Sample, Fill(send)]);
    RunConcat(true, s, PRODUCE + [Sample, Fill(send)], [Encode]);
    RunConcat(true, s, PRODUCE + [Sample, Fill(send)] + [Encode], RELEASE);
    t := Released(e);
  }

  // ------------------------------------------------------------------------
  // Nothing gets stuck
  // ------------------------------------------------------------------------

  /** How far the packets that have been fetched are from their release, and how far the loop is
      from the end of its subframe. */
  function Distance(s: State): nat {
    16 * ((match s.producer case Waiting => 4 case Copying => 3 case Filled => 2 case Reading => 0)
          + if s.ready then 1 else 0)
    + (match s.consumer
       case Idle => if s.ready then 7 else 0
       case Sampled => 6
       case Encoding => 5
       case Checking => 4
       case Clearing => 3
       case Posting => 1)
  }

  /** The step that brings the handoff closer to rest: first the network thread until it waits for
      the semaphore, then the loop. */
  function Helpful(mbms: bool, s: State): Action {
    if s.producer.Copying? then Copy
    else if s.producer.Filled? then Publish
    else if s.producer.Waiting? && s.sem > 0 then Wait
    else
      match s.consumer
      case Idle => if mbms then Sample else Fill(true)
      case Sampled => Fill(true)
      case Encoding => Encode
      case Checking => Check
      case Clearing => Clear
      case Posting => Post
  }

  lemma Progress(mbms: bool, s: State)
    requires Inv(mbms, s) && !Quiescent(s)
    ensures Next(mbms, s, Helpful(mbms, s)).Some?
    ensures Distance(Next(mbms, s, Helpful(mbms, s)).value) < Distance(s)
  {
    hide SubframeInv, AiredInv;
  }

  /** In either mode, from every state that can be reached, the two threads can come to rest, and
      then every packet that was copied in has been released: there is no deadlock, and neither
      a packet nor the semaphore is ever lost. */
  lemma {:induction false} ComesToRest(mbms: bool, s: State) returns (actions: seq<Action>)
    requires Inv(mbms, s)
    ensures Run(mbms, s, actions).Some?
    ensures var t := Run(mbms, s, actions).value;
            Quiescent(t) && |t.released| == t.published == t.copied >= s.copied
    decreases Distance(s)
  {
    hide SubframeInv, AiredInv, MbmsInv, Next;
    if Quiescent(s) {
      actions := [];
    } else {
      var a := Helpful(mbms, s);
      Progress(mbms, s);
      StepInv(mbms, s, a);
      CopiedGrows(mbms, s, a);
      var rest := ComesToRest(mbms, Next(mbms, s, a).value);
      actions := [a] + rest;
      assert actions[1..] == rest;
    }
  }

  lemma CopiedGrows(mbms: bool, s: State, a: Action)
    requires Next(mbms, s, a).Some?
    ensures Next(mbms, s, a).value.copied >= s.copied
  {
  }

  lemma ReachableComesToRest(mbms: bool, before: seq<Action>) returns (after: seq<Action>)
    requires Run(mbms, INIT, before).Some?
    ensures Run(mbms, INIT, before + after).Some?
    ensures var s, t := Run(mbms, INIT, before).value, Run(mbms, INIT, before + after).value;
            Quiescent(t) && |t.released| == t.published == t.copied >= s.copied
  {
    RunInv(mbms, INIT, before);
    after := ComesToRest(mbms, Run(mbms, INIT, before).value);
    RunConcat(mbms, INIT, before, after);
  }
}
