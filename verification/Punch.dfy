/** UDP hole punching, desktop/internal/p2p/punch.go: the packet format, and the two-endpoint handshake over a
    network that may lose, duplicate and reorder datagrams but never invents one. */
module Punch {
  import opened Prelude
  import opened BigEndian

  const MAGIC: uint16 := 0x4E50
  const FLAG_SYN: uint8 := 0x01
  const FLAG_ACK: uint8 := 0x02
  const FLAG_SYNACK: uint8 := 0x03
  const PACKET_SIZE := 27

  type Session = s: seq<uint8> | |s| == 16 witness seq(16, _ => 0)

  datatype Fields = Fields(session: Session, flags: uint8, nonce: uint64)

  function Packet(f: Fields): (pkt: seq<uint8>)
    ensures |pkt| == PACKET_SIZE
  {
    ToBytes(MAGIC, 2) + f.session + [f.flags] + ToBytes(f.nonce, 8)
  }

  /** Fills a fresh buffer at the field offsets. */
  method BuildPunchPacket(session: Session, flags: uint8, nonce: uint64) returns (pkt: array<uint8>)
    ensures fresh(pkt) && pkt[..] == Packet(Fields(session, flags, nonce))
  {
    pkt := new uint8[PACKET_SIZE];
    PutUint(pkt, 0, 2, MAGIC);
    for i := 0 to 16
      invariant pkt[..2] == ToBytes(MAGIC, 2)
      invariant pkt[2..2 + i] == session[..i]
    {
      pkt[2 + i] := session[i];
    }
    pkt[18] := flags;
    assert pkt[..19] == ToBytes(MAGIC, 2) + session + [flags];
    PutUint(pkt, 19, 8, nonce);
    assert pkt[..] == pkt[..19] + pkt[19..];
  }

  /** Trailing bytes beyond the 27th are ignored. */
  function ParsePunchPacket(pkt: seq<uint8>): Option<Fields> {
    if |pkt| < PACKET_SIZE then None
    else if FromBytes(pkt[0..2]) != MAGIC then None
    else
      WriteRead(pkt[19..27]);
      Widths();
      Some(Fields(pkt[2..18], pkt[18], FromBytes(pkt[19..27])))
  }

  /** The 27 bytes: "NP", the session, the flags, and the nonce with the most significant byte first. */
  lemma PacketLayout(f: Fields, i: nat)
    requires i < 8
    ensures Packet(f)[0] == 0x4E && Packet(f)[1] == 0x50 && Packet(f)[2..18] == f.session && Packet(f)[18] == f.flags
    ensures Packet(f)[19 + i] == f.nonce / Pow256(7 - i) % 256
  {
    ByteAt(MAGIC, 2, 0);
    ByteAt(MAGIC, 2, 1);
    assert Pow256(1) == 256 && Pow256(0) == 1;
    ByteAt(f.nonce, 8, i);
  }

  /** What the flags mean on the wire. */
  lemma FlagsOnTheWire(s: State, side: Side, f: Fields, writeOk: bool)
    requires f.session == s.At(side).session
    ensures var t := OnDatagram(s, side, Packet(f), writeOk);
      && (f.flags == 1 ==> t.At(side) == s.At(side) && t.Outgoing(side, 3) in t.handed)
      && (f.flags == 2 ==> t.At(side).reader == Succeeded && t.At(side).posted && t.handed == s.handed)
      && (f.flags == 3 ==> t.At(side).reader == Succeeded && t.At(side).posted && t.Outgoing(side, 2) in t.handed)
      && (f.flags in {1, 3} && writeOk ==> t.Outgoing(side, if f.flags == 1 then 3 else 2) in t.wire)
  {
    ParseBuilt(f, []);
    assert Packet(f) + [] == Packet(f);
  }

  /** Parsing undoes building, whatever follows the packet. */
  lemma ParseBuilt(f: Fields, trailing: seq<uint8>)
    ensures ParsePunchPacket(Packet(f) + trailing) == Some(f)
  {
    var pkt := Packet(f) + trailing;
    Widths();
    ReadWritten(MAGIC, 2);
    ReadWritten(f.nonce, 8);
    assert pkt[0..2] == ToBytes(MAGIC, 2);
    assert pkt[2..18] == f.session;
    assert pkt[19..27] == ToBytes(f.nonce, 8);
  }

  /** Whatever parses begins with the packet its fields build. */
  lemma ParsedIsBuilt(pkt: seq<uint8>)
    requires ParsePunchPacket(pkt).Some?
    ensures |pkt| >= PACKET_SIZE && pkt[..PACKET_SIZE] == Packet(ParsePunchPacket(pkt).value)
  {
    WriteRead(pkt[0..2]);
    WriteRead(pkt[19..27]);
    assert pkt[..PACKET_SIZE] == pkt[0..2] + pkt[2..18] + [pkt[18]] + pkt[19..27];
  }

  // ---------- the protocol ----------

  datatype Side = Left | Right

  function Peer(side: Side): Side {
    if side == Left then Right else Left
  }

  datatype Phase = Idle | Punching | Verified | Failed

  /** The reader goroutine: not started, reading, returned after posting its success, or stopped. */
  datatype Reader = NotStarted | Reading | Succeeded | Stopped

  datatype Endpoint = Endpoint(session: Session, nonce: uint64, phase: Phase, reader: Reader, posted: bool)

  /** A datagram as its sender built it; on the wire it is the bytes Packet(fields). */
  datatype Datagram = Datagram(from: Side, fields: Fields)

  /** handed: given to the socket; wire: those for which the write did not fail, which the network may deliver
      any number of times in any order; delivered: read by the peer's reader at least once. */
  datatype State = State(left: Endpoint, right: Endpoint, handed: set<Datagram>, wire: set<Datagram>,
                         delivered: set<Datagram>)
  {
    function At(side: Side): Endpoint {
      if side == Left then left else right
    }

    function With(side: Side, e: Endpoint): State {
      if side == Left then this.(left := e) else this.(right := e)
    }

    function Send(side: Side, flags: uint8, writeOk: bool): State {
      var d := Outgoing(side, flags);
      this.(handed := handed + {d}, wire := if writeOk then wire + {d} else wire)
    }

    function Outgoing(side: Side, flags: uint8): Datagram {
      Datagram(side, Fields(At(side).session, flags, At(side).nonce))
    }
  }

  datatype Step =
    | Start(side: Side)
    | Tick(side: Side, writeOk: bool)
    | Deliver(d: Datagram, writeOk: bool)
    | Confirm(side: Side)
    | GiveUp(side: Side)
    | StopReader(side: Side)

  /** What the reader does with one datagram. */
  function OnDatagram(s: State, side: Side, bytes: seq<uint8>, writeOk: bool): State {
    var e := s.At(side);
    match ParsePunchPacket(bytes)
    case None => s
    case Some(f) =>
      if f.session != e.session then s
      else if f.flags == FLAG_SYN then s.Send(side, FLAG_SYNACK, writeOk)
      else if f.flags == FLAG_SYNACK then
        s.Send(side, FLAG_ACK, writeOk).With(side, e.(reader := Succeeded, posted := true))
      else if f.flags == FLAG_ACK then s.With(side, e.(reader := Succeeded, posted := true))
      else s
  }

  predicate Enabled(s: State, step: Step) {
    match step
    case Start(side) => s.At(side).phase == Idle
    case Tick(side, _) => s.At(side).phase == Punching
    case Deliver(d, _) => d in s.wire && s.At(Peer(d.from)).reader == Reading
    case Confirm(side) => s.At(side).phase == Punching && s.At(side).posted
    case GiveUp(side) => s.At(side).phase == Punching
    case StopReader(side) => s.At(side).phase in {Verified, Failed} && s.At(side).reader == Reading
  }

  function Next(s: State, step: Step): State {
    match step
    case Start(side) => s.With(side, s.At(side).(phase := Punching, reader := Reading))
    case Tick(side, writeOk) => s.Send(side, FLAG_SYN, writeOk)
    case Deliver(d, writeOk) => OnDatagram(s.(delivered := s.delivered + {d}), Peer(d.from), Packet(d.fields), writeOk)
    case Confirm(side) => s.With(side, s.At(side).(phase := Verified, posted := false))
    case GiveUp(side) => s.With(side, s.At(side).(phase := Failed))
    case StopReader(side) => s.With(side, s.At(side).(reader := Stopped))
  }

  predicate Initial(s: State) {
    && s.handed == {} && s.wire == {} && s.delivered == {}
    && s.left.phase == s.right.phase == Idle
    && s.left.reader == s.right.reader == NotStarted
    && !s.left.posted && !s.right.posted
  }

  /** The states a list of steps goes through, when every step is enabled. */
  ghost predicate IsRun(s: State, steps: seq<Step>)
    decreases |steps|
  {
    steps == [] || (Enabled(s, steps[0]) && IsRun(Next(s, steps[0]), steps[1..]))
  }

  ghost function After(s: State, steps: seq<Step>): State
    requires IsRun(s, steps)
    decreases |steps|
  {
    if steps == [] then s else After(Next(s, steps[0]), steps[1..])
  }

  /** A datagram of this session from side has reached its peer's reader. */
  ghost predicate Reached(s: State, side: Side, flags: uint8) {
    s.Outgoing(side, flags) in s.delivered
  }

  predicate SideWellFormed(e: Endpoint) {
    && (e.phase == Idle ==> e.reader == NotStarted)
    && (e.phase == Verified ==> e.reader == Succeeded && !e.posted)
    && (e.posted ==> e.reader == Succeeded)
    && (e.reader == Succeeded ==> e.posted || e.phase == Verified)
  }

  ghost predicate TrafficWellFormed(s: State) {
    && s.delivered <= s.wire <= s.handed
    && forall d :: d in s.handed ==> d == s.Outgoing(d.from, d.fields.flags)
  }

  /** Why a reply was sent and a success posted. */
  ghost predicate CausesOf(s: State, side: Side) {
    && (s.Outgoing(side, FLAG_SYNACK) in s.handed ==> SameSession(s) && Reached(s, Peer(side), FLAG_SYN))
    && (s.Outgoing(side, FLAG_ACK) in s.handed ==>
          SameSession(s) && Reached(s, Peer(side), FLAG_SYNACK) && s.At(side).reader == Succeeded)
    && (s.At(side).reader == Succeeded ==>
          && SameSession(s)
          && (Reached(s, Peer(side), FLAG_ACK) ||
              (Reached(s, Peer(side), FLAG_SYNACK) && s.Outgoing(side, FLAG_ACK) in s.handed)))
  }

  predicate SameSession(s: State) {
    s.left.session == s.right.session
  }

  ghost predicate Inv(s: State) {
    SideWellFormed(s.left) && SideWellFormed(s.right) && TrafficWellFormed(s) && CausesOf(s, Left) && CausesOf(s, Right)
  }

  lemma DeliverKeepsInv(s: State, d: Datagram, writeOk: bool)
    requires Inv(s) && Enabled(s, Deliver(d, writeOk))
    ensures Inv(Next(s, Deliver(d, writeOk)))
  {
    ParseBuilt(d.fields, []);
    assert Packet(d.fields) + [] == Packet(d.fields);
    var side := Peer(d.from);
    var received := s.(delivered := s.delivered + {d});
    assert Inv(received);
    if d.fields.session == s.At(side).session {
      assert SameSession(s) && Reached(received, Peer(side), d.fields.flags);
      if d.fields.flags == FLAG_SYN {
        SynKeepsInv(received, side, writeOk);
      } else if d.fields.flags == FLAG_SYNACK {
        SynAckKeepsInv(received, side, writeOk);
      } else if d.fields.flags == FLAG_ACK {
        AckKeepsInv(received, side);
      }
    }
  }

  lemma SynKeepsInv(s: State, side: Side, writeOk: bool)
    requires Inv(s) && SameSession(s) && Reached(s, Peer(side), FLAG_SYN)
    ensures Inv(s.Send(side, FLAG_SYNACK, writeOk))
  {
  }

  lemma SynAckKeepsInv(s: State, side: Side, writeOk: bool)
    requires Inv(s) && SameSession(s) && Reached(s, Peer(side), FLAG_SYNACK) && s.At(side).reader == Reading
    ensures Inv(s.Send(side, FLAG_ACK, writeOk).With(side, s.At(side).(reader := Succeeded, posted := true)))
  {
  }

  lemma AckKeepsInv(s: State, side: Side)
    requires Inv(s) && SameSession(s) && Reached(s, Peer(side), FLAG_ACK) && s.At(side).reader == Reading
    ensures Inv(s.With(side, s.At(side).(reader := Succeeded, posted := true)))
  {
  }

  lemma TickKeepsInv(s: State, side: Side, writeOk: bool)
    requires Inv(s) && Enabled(s, Tick(side, writeOk))
    ensures Inv(Next(s, Tick(side, writeOk)))
  {
  }

  lemma LocalChangeKeepsInv(s: State, side: Side, e: Endpoint)
    requires Inv(s) && SideWellFormed(e)
    requires e.session == s.At(side).session && e.nonce == s.At(side).nonce
    requires e.reader == Succeeded <==> s.At(side).reader == Succeeded
    ensures Inv(s.With(side, e))
  {
  }

  /** Every step keeps the invariant. */
  lemma StepKeepsInv(s: State, step: Step)
    requires Inv(s) && Enabled(s, step)
    ensures Inv(Next(s, step))
  {
    match step {
      case Deliver(d, writeOk) => DeliverKeepsInv(s, d, writeOk);
      case Tick(side, writeOk) => TickKeepsInv(s, side, writeOk);
      case Start(side) => LocalChangeKeepsInv(s, side, s.At(side).(phase := Punching, reader := Reading));
      case Confirm(side) => LocalChangeKeepsInv(s, side, s.At(side).(phase := Verified, posted := false));
      case GiveUp(side) => LocalChangeKeepsInv(s, side, s.At(side).(phase := Failed));
      case StopReader(side) => LocalChangeKeepsInv(s, side, s.At(side).(reader := Stopped));
    }
  }

  lemma {:induction false} RunKeepsInv(s: State, steps: seq<Step>)
    requires Inv(s) && IsRun(s, steps)
    ensures Inv(After(s, steps))
    decreases |steps|
  {
    if steps == [] {
    } else {
      StepKeepsInv(s, steps[0]);
      RunKeepsInv(Next(s, steps[0]), steps[1..]);
    }
  }

  lemma ReachableInv(s: State, steps: seq<Step>)
    requires Initial(s) && IsRun(s, steps)
    ensures Inv(After(s, steps))
  {
    RunKeepsInv(s, steps);
  }

  /** In every run, an endpoint that confirms the path has had a packet of its own session delivered in each
      direction. */
  lemma ConfirmedMeansBothDirections(s: State, steps: seq<Step>, side: Side)
    requires Initial(s) && IsRun(s, steps)
    requires After(s, steps).At(side).phase == Verified
    ensures var t := After(s, steps);
      && t.left.session == t.right.session
      && (exists flags :: Reached(t, side, flags))
      && (exists flags :: Reached(t, Peer(side), flags))
  {
    ReachableInv(s, steps);
    var t := After(s, steps);
    assert Peer(Peer(side)) == side;
    if Reached(t, Peer(side), FLAG_ACK) {
      assert t.Outgoing(Peer(side), FLAG_ACK) in t.handed;
      assert Reached(t, side, FLAG_SYNACK);
    } else {
      assert t.Outgoing(Peer(side), FLAG_SYNACK) in t.handed;
      assert Reached(t, side, FLAG_SYN);
    }
  }

  /** In every run, once one side has confirmed, an ACK to the other has been handed to the socket or the other has
      confirmed too, if and only if there is such an ACK or no success of the other waits unread. A success that
      waits unread is the one way to miss: its endpoint is still punching and can confirm at once, or has given up. */
  lemma ConfirmationReachesPeer(s: State, steps: seq<Step>, side: Side)
    requires Initial(s) && IsRun(s, steps)
    requires After(s, steps).At(side).phase == Verified
    ensures var t := After(s, steps);
      var peer := t.At(Peer(side));
      var ackSent := t.Outgoing(side, FLAG_ACK) in t.handed;
      && (ackSent || peer.phase == Verified <==> ackSent || !peer.posted)
      && (!ackSent ==> peer.reader == Succeeded)
      && (!ackSent && peer.posted ==> Enabled(t, Confirm(Peer(side))) || peer.phase == Failed)
  {
    ReachableInv(s, steps);
    var t := After(s, steps);
    if Reached(t, Peer(side), FLAG_ACK) {
      assert t.Outgoing(Peer(side), FLAG_ACK) in t.handed;
    }
  }

  lemma {:induction false} RunsCompose(s: State, first: seq<Step>, step: Step)
    requires IsRun(s, first) && Enabled(After(s, first), step)
    ensures IsRun(s, first + [step]) && After(s, first + [step]) == Next(After(s, first), step)
    decreases |first|
  {
    if first == [] {
      assert (first + [step])[1..] == [];
    } else {
      RunsCompose(Next(s, first[0]), first[1..], step);
      assert (first + [step])[1..] == first[1..] + [step];
    }
  }

  function Fresh(session: Session, leftNonce: uint64, rightNonce: uint64): State {
    State(Endpoint(session, leftNonce, Idle, NotStarted, false),
      Endpoint(session, rightNonce, Idle, NotStarted, false), {}, {}, {})
  }

  /** Left confirms on an ACK; Right, whose reader has posted its own success, times out before looking at it.
      No ACK from Left to Right is ever sent: "the other has confirmed" holds of the reader, not of the phase. */
  lemma PeerCanStillTimeOut(session: Session, n: uint64, m: uint64) returns (steps: seq<Step>)
    ensures IsRun(Fresh(session, n, m), steps)
    ensures var t := After(Fresh(session, n, m), steps);
      t.left.phase == Verified && t.right.phase == Failed && t.Outgoing(Left, FLAG_ACK) !in t.handed
  {
    var s0 := Fresh(session, n, m);
    var syn := s0.Outgoing(Right, FLAG_SYN);
    var synAck := s0.Outgoing(Left, FLAG_SYNACK);
    var ack := s0.Outgoing(Right, FLAG_ACK);
    ParseBuilt(syn.fields, []);
    ParseBuilt(synAck.fields, []);
    ParseBuilt(ack.fields, []);
    assert forall f: Fields :: Packet(f) + [] == Packet(f);
    steps := [Start(Left)];
    steps := Extend(s0, steps, Start(Right));
    steps := Extend(s0, steps, Tick(Right, true));
    steps := Extend(s0, steps, Deliver(syn, true));
    steps := Extend(s0, steps, Deliver(synAck, true));
    steps := Extend(s0, steps, Deliver(ack, true));
    steps := Extend(s0, steps, Confirm(Left));
    steps := Extend(s0, steps, GiveUp(Right));
  }

  /** Both endpoints of one session are under way; what has been sent, lost or delivered before is anybody's guess. */
  predicate BothUnderWay(s: State) {
    && SameSession(s)
    && s.left.phase == s.right.phase == Punching
    && s.left.reader == s.right.reader == Reading
  }

  /** The handshake survives loss: from any such state either side's next SYN can lead to both being verified, if
      that SYN, the SYNACK it causes and the ACK that causes get through. */
  lemma HandshakeSurvivesLoss(s: State, side: Side) returns (steps: seq<Step>)
    requires BothUnderWay(s)
    ensures IsRun(s, steps) && After(s, steps).left.phase == After(s, steps).right.phase == Verified
    ensures |steps| == 6 && steps[0] == Tick(side, true)
    ensures forall k :: 0 < k < |steps| ==> !steps[k].Tick? && !steps[k].Start?
  {
    var peer := Peer(side);
    var syn, synAck, ack := s.Outgoing(side, FLAG_SYN), s.Outgoing(peer, FLAG_SYNACK), s.Outgoing(side, FLAG_ACK);
    ParseBuilt(syn.fields, []);
    ParseBuilt(synAck.fields, []);
    ParseBuilt(ack.fields, []);
    assert forall f: Fields :: Packet(f) + [] == Packet(f);
    steps := [Tick(side, true)];
    steps := Extend(s, steps, Deliver(syn, true));
    steps := Extend(s, steps, Deliver(synAck, true));
    steps := Extend(s, steps, Deliver(ack, true));
    steps := Extend(s, steps, Confirm(side));
    steps := Extend(s, steps, Confirm(peer));
  }

  /** From the start of a session the handshake can complete. */
  lemma BothCanConfirm(session: Session, n: uint64, m: uint64) returns (steps: seq<Step>)
    ensures IsRun(Fresh(session, n, m), steps)
    ensures var t := After(Fresh(session, n, m), steps); t.left.phase == Verified && t.right.phase == Verified
  {
    var s0 := Fresh(session, n, m);
    var start := Extend(s0, [Start(Left)], Start(Right));
    var more := HandshakeSurvivesLoss(After(s0, start), Left);
    RunsJoin(s0, start, more);
    steps := start + more;
  }

  lemma {:induction false} RunsJoin(s: State, first: seq<Step>, second: seq<Step>)
    requires IsRun(s, first) && IsRun(After(s, first), second)
    ensures IsRun(s, first + second) && After(s, first + second) == After(After(s, first), second)
    decreases |first|
  {
    if first == [] {
      assert first + second == second;
    } else {
      RunsJoin(Next(s, first[0]), first[1..], second);
      assert (first + second)[1..] == first[1..] + second;
    }
  }

  /** A packet of another session, one that is not a punch packet, or one with unknown flags is taken in silently. */
  lemma StrangersAreIgnored(s: State, side: Side, bytes: seq<uint8>, writeOk: bool)
    requires ParsePunchPacket(bytes) == None
      || ParsePunchPacket(bytes).value.session != s.At(side).session
      || ParsePunchPacket(bytes).value.flags !in {1, 2, 3}
    ensures OnDatagram(s, side, bytes, writeOk) == s
  {
  }

  lemma Extend(s: State, steps: seq<Step>, step: Step) returns (more: seq<Step>)
    requires IsRun(s, steps) && Enabled(After(s, steps), step)
    ensures more == steps + [step] && IsRun(s, more) && After(s, more) == Next(After(s, steps), step)
  {
    RunsCompose(s, steps, step);
    more := steps + [step];
  }
}
