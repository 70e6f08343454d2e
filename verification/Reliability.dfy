/** Per-channel reliability: acks over 16-bit wrapping sequences, proved to speak
    about unbounded message numbers over a network that loses, duplicates and
    reorders both data and acks. */
module Reliability {
  import opened Bits
  import opened SequenceMath

  const KEEP: int := 1024       // receiver memory behind the newest sequence
  const AHEAD: int := 31743     // farthest a delivery may jump ahead: 32767 - KEEP
  const ACK_BITS: nat := 32

  datatype InFlight<P> = InFlight(sequence: Seq16, payload: P, sentTime: real, sendCount: nat)

  /** The sequences an (ack, ackBits) pair names. */
  ghost function Named(ack: Seq16, ackBits: nat): set<Seq16> {
    NamedUpTo(ack, ackBits, ACK_BITS)
  }

  ghost function NamedUpTo(ack: Seq16, ackBits: nat, n: nat): set<Seq16> {
    {ack} + set i: nat | i < n && Bit(ackBits, i) :: Wrap(ack - 1 - i)
  }

  lemma NamedNext(ack: Seq16, ackBits: nat, n: nat)
    ensures NamedUpTo(ack, ackBits, n + 1) == NamedUpTo(ack, ackBits, n)
      + (if Bit(ackBits, n) then {Wrap(ack - 1 - n)} else {})
  {
    forall q | q in NamedUpTo(ack, ackBits, n + 1) && q != ack
      ensures q in NamedUpTo(ack, ackBits, n) || (Bit(ackBits, n) && q == Wrap(ack - 1 - n))
    {
      var i: nat :| i < n + 1 && Bit(ackBits, i) && q == Wrap(ack - 1 - i);
    }
  }

  /** No named in-flight message gives an RTT sample. */
  ghost predicate NoSample<P>(inFlight: map<Seq16, InFlight<P>>, named: set<Seq16>) {
    forall s :: s in named && s in inFlight ==> inFlight[s].sendCount != 1
  }

  // ---- Sender --------------------------------------------------------------

  const INITIAL_RTO: real := 0.2
  const MIN_RTO: real := 0.05
  const MAX_RTO: real := 2.0

  ghost predicate Allowed(rto: real) {
    MIN_RTO <= rto <= MAX_RTO
  }

  ghost function Distance(x: real, y: real): real {
    if x < y then y - x else x - y
  }

  /** The smoothed round-trip time and its deviation. */
  datatype Estimate = Estimate(srtt: real, rttvar: real)

  /** The first sample is taken over; each later one moves the estimate an eighth of the way
      towards it, and the deviation a quarter of the way towards the distance of the two. */
  ghost function Smoothed(e: Estimate, sample: real): Estimate {
    if sample < 0.0 then e
    else if e.srtt <= 0.0 then Estimate(sample, sample / 2.0)
    else Estimate(e.srtt + (sample - e.srtt) / 8.0, e.rttvar + (Distance(sample, e.srtt) - e.rttvar) / 4.0)
  }

  /** The estimate after one sequence was acked: only a message sent exactly once gives a sample. */
  ghost function Sampled<P>(inFlight: map<Seq16, InFlight<P>>, e: Estimate, number: Seq16, now: real): Estimate {
    if number in inFlight && inFlight[number].sendCount == 1 then Smoothed(e, now - inFlight[number].sentTime) else e
  }

  /** The estimate after the ack and the first n bits were taken in order. */
  ghost function SampledUpTo<P>(inFlight: map<Seq16, InFlight<P>>, e: Estimate, ack: Seq16, ackBits: nat, now: real,
                                n: nat)
    : Estimate
  {
    if n == 0 then Sampled(inFlight, e, ack, now)
    else
      var before := SampledUpTo(inFlight, e, ack, ackBits, now, n - 1);
      if Bit(ackBits, n - 1) then Sampled(inFlight, before, Wrap(ack - n), now) else before
  }

  /** No sequence is named twice, so what an ack names later was not retired by it before. */
  lemma NamedOnce(ack: Seq16, ackBits: nat, n: nat)
    requires n < ACK_BITS
    ensures Wrap(ack - 1 - n) !in NamedUpTo(ack, ackBits, n)
  {
    var number := Wrap(ack - 1 - n);
    assert Wrap(ack) == ack;
    if number in NamedUpTo(ack, ackBits, n) {
      hide Wrap;
      var i: int :| -1 <= i < n && number == Wrap(ack - 1 - i);
      WrapInjective(ack - 1 - n, ack - 1 - i);
    }
  }

  ghost function Resent<P>(f: InFlight<P>, now: real): InFlight<P> {
    InFlight(f.sequence, f.payload, now, f.sendCount + 1)
  }

  class ReliableSender<P> {
    var nextSequence: Seq16
    var inFlight: map<Seq16, InFlight<P>>
    var srtt: real
    var rttvar: real

    ghost predicate Valid()
      reads this
    {
      srtt >= 0.0 && rttvar >= 0.0 && forall k :: k in inFlight ==> inFlight[k].sendCount >= 1
    }

    ghost function Rtt(): Estimate
      reads this
    {
      Estimate(srtt, rttvar)
    }

    constructor ()
      ensures Valid() && nextSequence == 0 && inFlight == map[] && srtt == 0.0
    {
      nextSequence, inFlight, srtt, rttvar := 0, map[], 0.0, 0.0;
    }

    method Send(payload: P, now: real) returns (number: Seq16)
      requires Valid()
      modifies this
      ensures Valid() && srtt == old(srtt) && rttvar == old(rttvar)
      ensures number == old(nextSequence) && nextSequence == Wrap(number + 1)
      ensures inFlight == old(inFlight)[number := InFlight(number, payload, now, 1)]
    {
      number := nextSequence;
      nextSequence := if number == 65535 then 0 else number + 1;
      inFlight := inFlight[number := InFlight(number, payload, now, 1)];
    }

    /** Retires exactly the named sequences, and takes their samples in order. */
    method OnAck(ack: Seq16, ackBits: nat, now: real)
      requires Valid()
      modifies this
      ensures Valid() && nextSequence == old(nextSequence)
      ensures inFlight == old(inFlight) - Named(ack, ackBits)
      ensures Rtt() == SampledUpTo(old(inFlight), old(Rtt()), ack, ackBits, now, ACK_BITS)
      ensures NoSample(old(inFlight), Named(ack, ackBits)) ==> Rtt() == old(Rtt())
    {
      AckOne(ack, now);
      ghost var named := {ack};
      assert named == NamedUpTo(ack, ackBits, 0);
      for i := 0 to ACK_BITS
        invariant Valid() && nextSequence == old(nextSequence)
        invariant named == NamedUpTo(ack, ackBits, i)
        invariant inFlight == old(inFlight) - named
        invariant Rtt() == SampledUpTo(old(inFlight), old(Rtt()), ack, ackBits, now, i)
        invariant NoSample(old(inFlight), named) ==> Rtt() == old(Rtt())
      {
        BitShr(ackBits, i, 0);
        NamedOnce(ack, ackBits, i);
        NamedNext(ack, ackBits, i);
        if Shr(ackBits, i) % 2 == 1 {
          var number := Wrap(ack - 1 - i);
          AckOne(number, now);
          named := named + {number};
        }
      }
    }

    method AckOne(number: Seq16, now: real)
      requires Valid()
      modifies this
      ensures Valid() && nextSequence == old(nextSequence)
      ensures inFlight == old(inFlight) - {number}
      ensures Rtt() == Sampled(old(inFlight), old(Rtt()), number, now)
    {
      if number !in inFlight { return; }
      if inFlight[number].sendCount == 1 { UpdateRtt(now - inFlight[number].sentTime); }
      inFlight := inFlight - {number};
    }

    method UpdateRtt(sample: real)
      requires Valid()
      modifies this
      ensures Valid() && inFlight == old(inFlight) && nextSequence == old(nextSequence)
      ensures Rtt() == Smoothed(old(Rtt()), sample)
    {
      if sample < 0.0 { return; }
      if srtt <= 0.0 {
        srtt, rttvar := sample, sample / 2.0;
      } else {
        var diff := sample - srtt;
        rttvar := 0.75 * rttvar + 0.25 * (if diff < 0.0 then -diff else diff);
        srtt := 0.875 * srtt + 0.125 * sample;
      }
    }

    function CurrentRto(): (rto: real)
      reads this
      ensures Allowed(rto)
      ensures srtt <= 0.0 ==> rto == INITIAL_RTO
      ensures srtt > 0.0 ==> forall x :: Allowed(x) ==>
        Distance(rto, srtt + 4.0 * rttvar) <= Distance(x, srtt + 4.0 * rttvar)
    {
      if srtt <= 0.0 then INITIAL_RTO
      else
        var rto := srtt + 4.0 * rttvar;
        if rto < MIN_RTO then MIN_RTO else if rto > MAX_RTO then MAX_RTO else rto
    }

    /** Exactly the messages past their RTO are handed back, each once, with its payload. */
    method CollectTimedOut(now: real) returns (out: seq<Seq16>)
      requires Valid()
      modifies this`inFlight
      ensures Valid()
      ensures inFlight.Keys == old(inFlight).Keys
      ensures forall s :: s in inFlight && s in out ==> inFlight[s] == Resent(old(inFlight)[s], now)
      ensures forall s :: s in inFlight && s !in out ==> inFlight[s] == old(inFlight)[s]
      ensures forall s :: s in out <==> s in old(inFlight) && now - old(inFlight)[s].sentTime >= CurrentRto()
      ensures forall i, j :: 0 <= i < j < |out| ==> out[i] != out[j]
    {
      out := [];
      var rto := CurrentRto();
      var todo := inFlight.Keys;
      while todo != {}
        invariant todo <= inFlight.Keys == old(inFlight).Keys
        invariant forall s :: s in todo ==> inFlight[s] == old(inFlight)[s]
        invariant forall s :: s in old(inFlight) && s !in todo ==>
          inFlight[s] == if s in out then Resent(old(inFlight)[s], now) else old(inFlight)[s]
        invariant forall s :: s in out <==> s in old(inFlight) && s !in todo && now - old(inFlight)[s].sentTime >= rto
        invariant forall i, j :: 0 <= i < j < |out| ==> out[i] != out[j]
        decreases |todo|
      {
        var s :| s in todo;
        todo := todo - {s};
        var f := inFlight[s];
        if now - f.sentTime >= rto {
          inFlight := inFlight[s := f.(sentTime := now, sendCount := f.sendCount + 1)];
          out := out + [s];
        }
      }
    }
  }

  /** What one collection hands back, a second one within the timeout does not. */
  method CollectedOnce<P>(s: ReliableSender<P>, now: real, later: real) returns (first: seq<Seq16>, second: seq<Seq16>)
    requires s.Valid() && later - now < s.CurrentRto()
    modifies s
    ensures forall k :: k in first <==>
      k in old(s.inFlight) && now - old(s.inFlight)[k].sentTime >= s.CurrentRto()
    ensures forall k :: k in first ==> k !in second
    ensures later <= now ==> second == []
  {
    first := s.CollectTimedOut(now);
    second := s.CollectTimedOut(later);
    if later <= now && second != [] { assert second[0] in second; }
  }

  /** A message that was sent again gives no round-trip sample, whenever its ack comes. */
  method ResentGivesNoSample<P>(s: ReliableSender<P>, number: Seq16, now: real, ackedAt: real)
    requires s.Valid() && number in s.inFlight && now - s.inFlight[number].sentTime >= s.CurrentRto()
    modifies s
    ensures number !in s.inFlight && s.Rtt() == old(s.Rtt())
  {
    var out := s.CollectTimedOut(now);
    s.AckOne(number, ackedAt);
  }

  /** A message sent once gives the time from its sending to its ack as the first estimate. */
  method FirstSample<P>(s: ReliableSender<P>, payload: P, now: real, ackedAt: real)
    requires s.Valid() && s.srtt == 0.0 && now <= ackedAt
    modifies s
    ensures s.Rtt() == Estimate(ackedAt - now, (ackedAt - now) / 2.0)
  {
    var number := s.Send(payload, now);
    s.AckOne(number, ackedAt);
  }

  /** The estimate after n further samples of the same size. */
  ghost function SmoothedBy(e: Estimate, sample: real, n: nat): Estimate {
    if n == 0 then e else Smoothed(SmoothedBy(e, sample, n - 1), sample)
  }

  /** An eighth taken off x, n times. */
  ghost function EighthsOff(x: real, n: nat): real {
    if n == 0 then x else EighthsOff(x, n - 1) * 7.0 / 8.0
  }

  /** Under samples of one size the estimate stays positive and closes in on them by an
      eighth of the distance at a time; once it is there, the deviation loses a quarter at a time. */
  lemma {:induction false} SteadySamplesConverge(e: Estimate, sample: real, n: nat)
    requires e.srtt > 0.0 && sample > 0.0
    ensures SmoothedBy(e, sample, n).srtt > 0.0
    ensures Distance(sample, SmoothedBy(e, sample, n).srtt) == EighthsOff(Distance(sample, e.srtt), n)
    ensures e.srtt == sample ==> SmoothedBy(e, sample, n + 1).rttvar == SmoothedBy(e, sample, n).rttvar * 3.0 / 4.0
  {
    if n > 0 { SteadySamplesConverge(e, sample, n - 1); }
  }

  // ---- Receiver ------------------------------------------------------------

  datatype ReceiverState = ReceiverState(seenAny: bool, latest: Seq16, received: set<Seq16>)

  ghost function Prune(received: set<Seq16>, latest: Seq16): set<Seq16> {
    set s | s in received && SeqDiff(latest, s) <= KEEP
  }

  /** The state after one arriving sequence, and whether it was taken. */
  ghost function Receive(r: ReceiverState, number: Seq16): (ReceiverState, bool) {
    if !r.seenAny then (ReceiverState(true, number, {number}), true)
    else if number in r.received then (r, false)
    else
      var latest := if SeqGreater(number, r.latest) then number else r.latest;
      (ReceiverState(true, latest, Prune(r.received + {number}, latest)), true)
  }

  class ReliableReceiver {
    var seenAny: bool
    var latest: Seq16
    var received: set<Seq16>

    ghost function State(): ReceiverState
      reads this
    {
      ReceiverState(seenAny, latest, received)
    }

    constructor ()
      ensures State() == ReceiverState(false, 0, {})
    {
      seenAny, latest, received := false, 0, {};
    }

    method OnReceive(number: Seq16) returns (taken: bool)
      modifies this
      ensures (State(), taken) == Receive(old(State()), number)
    {
      if !seenAny {
        seenAny, latest := true, number;
        received := {};
        received := received + {number};
        assert received == {number};
        return true;
      }
      if number in received { return false; }
      received := received + {number};
      if SeqGreater(number, latest) { latest := number; }
      PruneOld();
      return true;
    }

    method PruneOld()
      modifies this`received
      ensures received == Prune(old(received), latest)
    {
      var todo := received;
      while todo != {}
        invariant todo <= received <= old(received)
        invariant forall s :: s in old(received) && s !in todo ==> (s in received <==> SeqDiff(latest, s) <= KEEP)
        decreases |todo|
      {
        var s :| s in todo;
        todo := todo - {s};
        if SeqDiff(latest, s) > KEEP { received := received - {s}; }
      }
    }

    method AckBits() returns (bits: nat)
      ensures bits == AckBitsOf(State())
    {
      bits := 0;
      for i := 0 to ACK_BITS
        invariant bits == AckBitsUpTo(State(), i)
      {
        if Wrap(latest - 1 - i) in received { bits := Or(bits, Shl(32, 1, i)); }
      }
    }
  }

  ghost function AckBitsUpTo(r: ReceiverState, n: nat): nat {
    if n == 0 then 0
    else if Wrap(r.latest - n) in r.received then Or(AckBitsUpTo(r, n - 1), Shl(32, 1, n - 1))
    else AckBitsUpTo(r, n - 1)
  }

  ghost function AckBitsOf(r: ReceiverState): nat {
    AckBitsUpTo(r, ACK_BITS)
  }

  lemma {:induction false} AckBitsNameReceived(r: ReceiverState, n: nat, i: nat)
    requires n <= ACK_BITS
    ensures Bit(AckBitsUpTo(r, n), i) <==> i < n && Wrap(r.latest - 1 - i) in r.received
  {
    if n == 0 {
      BitOfZero(i);
    } else {
      AckBitsNameReceived(r, n - 1, i);
      BitOr(AckBitsUpTo(r, n - 1), Shl(32, 1, n - 1), i);
      BitShl(32, 1, n - 1, i);
      if i > n - 1 { BitOfZero(i - n); }
    }
  }

  // ---- Sender, receiver and network ----------------------------------------

  /** An ack on the wire, with the message number it was built from. */
  datatype AckMsg = AckMsg(ack: Seq16, bits: nat, newest: nat)

  /** The numbers an ack vouches for. */
  ghost predicate Vouches(a: AckMsg, n: int) {
    n == a.newest || exists i: nat :: i < ACK_BITS && Bit(a.bits, i) && n == a.newest - 1 - i
  }

  datatype System<P> = System(
    next: Seq16, inFlight: map<Seq16, InFlight<P>>,  // the sender's fields
    receiver: ReceiverState,
    sent: seq<P>,                // sent[n] is the payload of message n
    numberOf: map<Seq16, nat>,   // the message behind each in-flight sequence
    taken: seq<nat>,             // messages the receiver handed up, in order
    newest: nat,                 // highest message taken
    acks: set<AckMsg>,           // every ack ever put on the wire
    retired: set<nat>)           // messages the sender stopped resending

  datatype Event<P> =
    | Send(payload: P, now: real)
    | Resend(seqs: set<Seq16>, now: real)
    | DeliverData(n: nat)
    | EmitAck
    | DeliverAck(a: AckMsg)

  ghost function Init<P>(): System<P> {
    System(0, map[], ReceiverState(false, 0, {}), [], map[], [], 0, {}, {})
  }

  /** What the network may do next. Data and acks stay available for ever, so any
      may be lost, duplicated or reordered; the two distance bounds are the
      hypotheses on how stale a delivery may be. */
  ghost predicate Enabled<P>(s: System<P>, e: Event<P>) {
    match e
    case Send(_, _) => true
    case Resend(seqs, _) => seqs <= s.inFlight.Keys
    case DeliverData(n) =>
      n < |s.sent| && (s.receiver.seenAny ==> s.newest - KEEP <= n <= s.newest + AHEAD)
    case EmitAck => s.receiver.seenAny
    case DeliverAck(a) =>
      a in s.acks &&
      forall k, n :: k in s.numberOf && Vouches(a, n) ==> -65536 < s.numberOf[k] - n < 65536
  }

  ghost function Step<P>(s: System<P>, e: Event<P>): System<P> {
    match e
    case Send(p, now) =>
      s.(next := Wrap(s.next + 1), inFlight := s.inFlight[s.next := InFlight(s.next, p, now, 1)],
         sent := s.sent + [p], numberOf := s.numberOf[s.next := |s.sent|])
    case Resend(seqs, now) =>
      s.(inFlight := map k | k in s.inFlight :: if k in seqs
           then s.inFlight[k].(sentTime := now, sendCount := s.inFlight[k].sendCount + 1) else s.inFlight[k])
    case DeliverData(n) =>
      var (r, ok) := Receive(s.receiver, Wrap(n));
      if !ok then s.(receiver := r)
      else s.(receiver := r, taken := s.taken + [n], newest := if n > s.newest then n else s.newest)
    case EmitAck =>
      s.(acks := s.acks + {AckMsg(s.receiver.latest, AckBitsOf(s.receiver), s.newest)})
    case DeliverAck(a) =>
      var named := Named(a.ack, a.bits);
      s.(inFlight := s.inFlight - named, numberOf := s.numberOf - named,
         retired := s.retired + set k | k in s.numberOf && k in named :: s.numberOf[k])
  }

  /** The state a run of events leads to. */
  ghost function Run<P>(es: seq<Event<P>>): System<P> {
    if es == [] then Init() else Step(Run(es[..|es| - 1]), es[|es| - 1])
  }

  ghost predicate Legal<P>(es: seq<Event<P>>) {
    es == [] || (Legal(es[..|es| - 1]) && Enabled(Run(es[..|es| - 1]), es[|es| - 1]))
  }

  ghost predicate ReceiverInv<P>(s: System<P>) {
    && (s.receiver.seenAny <==> s.taken != [])
    && (forall n :: n in s.taken ==> n <= s.newest && n < |s.sent|)
    && (!s.receiver.seenAny ==> s.newest == 0)
    && (s.receiver.seenAny ==> s.newest in s.taken && s.receiver.latest == Wrap(s.newest))
    && (s.receiver.seenAny ==> s.receiver.received == Remembered(s.taken, s.newest))
  }

  ghost function Remembered(taken: seq<nat>, newest: nat): set<Seq16> {
    set n | n in taken && newest - KEEP <= n :: Wrap(n)
  }

  ghost predicate SenderInv<P>(s: System<P>) {
    && s.next == Wrap(|s.sent|)
    && s.inFlight.Keys == s.numberOf.Keys
    && forall k :: k in s.numberOf ==>
         && s.numberOf[k] < |s.sent| && Wrap(s.numberOf[k]) == k
         && s.inFlight[k].sequence == k && s.inFlight[k].payload == s.sent[s.numberOf[k]]
  }

  ghost predicate AckInv<P>(s: System<P>) {
    && (forall a :: a in s.acks ==> a.ack == Wrap(a.newest))
    && (forall a, n :: a in s.acks && Vouches(a, n) ==> n in s.taken)
    && (forall n :: n in s.retired ==> n in s.taken)
  }

  ghost predicate TakenOnce(taken: seq<nat>) {
    forall i, j :: 0 <= i < j < |taken| ==> taken[i] != taken[j]
  }

  ghost predicate Inv<P>(s: System<P>) {
    ReceiverInv(s) && SenderInv(s) && AckInv(s) && TakenOnce(s.taken)
  }

  /** Inside the delivery window the receiver's 16-bit memory answers exactly
      whether the message was taken before. */
  lemma DeliveryDecision<P>(s: System<P>, n: nat)
    requires ReceiverInv(s) && Enabled(s, DeliverData(n))
    ensures Receive(s.receiver, Wrap(n)).1 <==> n !in s.taken
  {
    if s.receiver.seenAny {
      if Wrap(n) in s.receiver.received {
        var m :| m in s.taken && s.newest - KEEP <= m && Wrap(m) == Wrap(n);
        WrapInjective(n, m);
      }
    }
  }

  lemma DeliveryKeepsReceiver<P>(s: System<P>, n: nat)
    requires ReceiverInv(s) && Enabled(s, DeliverData(n)) && n !in s.taken
    ensures ReceiverInv(Step(s, DeliverData(n)))
  {
    DeliveryDecision(s, n);
    var t := Step(s, DeliverData(n));
    if s.receiver.seenAny {
      SeqOrderRefinesNumbers(n, s.newest);
      var before := s.receiver.received + {Wrap(n)};
      forall q | q in before ensures q in Prune(before, t.receiver.latest) <==> q in Remembered(t.taken, t.newest) {
        PruneExact(s, n, q);
      }
      assert Remembered(t.taken, t.newest) <= before;
    } else {
      assert t.taken == [n];
      assert Remembered(t.taken, t.newest) == {Wrap(n)};
    }
  }

  lemma PruneExact<P>(s: System<P>, n: nat, q: Seq16)
    requires ReceiverInv(s) && Enabled(s, DeliverData(n)) && s.receiver.seenAny
    requires q in s.receiver.received + {Wrap(n)}
    ensures var newest := if n > s.newest then n else s.newest;
      SeqDiff(Wrap(newest), q) <= KEEP <==> q in Remembered(s.taken + [n], newest)
  {
    var newest := if n > s.newest then n else s.newest;
    var m: nat :| m in s.taken + [n] && s.newest - KEEP <= m && Wrap(m) == q;
    SeqOrderRefinesNumbers(newest, m);
    if q in Remembered(s.taken + [n], newest) {
      var m': nat :| m' in s.taken + [n] && newest - KEEP <= m' && Wrap(m') == q;
      WrapInjective(m, m');
    }
  }

  lemma EmittedAckIsExact<P>(s: System<P>, n: int)
    requires ReceiverInv(s) && s.receiver.seenAny
    ensures var a := AckMsg(s.receiver.latest, AckBitsOf(s.receiver), s.newest);
      Vouches(a, n) <==> n == s.newest || (s.newest - ACK_BITS <= n < s.newest && n in s.taken)
  {
    var a := AckMsg(s.receiver.latest, AckBitsOf(s.receiver), s.newest);
    forall i: nat | i < ACK_BITS
      ensures Bit(a.bits, i) <==> s.newest - 1 - i in s.taken
    {
      AckBitsNameReceived(s.receiver, ACK_BITS, i);
      WrapOffset(s.newest, 1 + i);
      assert Wrap(s.receiver.latest - 1 - i) == Wrap(s.newest - 1 - i) by {
        WrapTwice(s.newest, 1 + i);
      }
      if Wrap(s.newest - 1 - i) in s.receiver.received {
        var m :| m in s.taken && s.newest - KEEP <= m && Wrap(m) == Wrap(s.newest - 1 - i);
        WrapInjective(m, s.newest - 1 - i);
      }
    }
    if s.newest - ACK_BITS <= n < s.newest {
      var i: nat := s.newest - 1 - n;
      assert Bit(a.bits, i) <==> s.newest - 1 - i in s.taken;
    }
  }

  lemma WrapTwice(n: int, d: int)
    ensures Wrap(Wrap(n) - d) == Wrap(n - d)
  {
    var q := n / U16;
    assert n - d == U16 * q + (Wrap(n) - d);
  }

  /** An arriving ack retires an in-flight message only if it vouches for it. */
  lemma RetiredWasVouched<P>(s: System<P>, a: AckMsg, k: Seq16)
    requires SenderInv(s) && AckInv(s) && Enabled(s, DeliverAck(a))
    requires k in s.numberOf && k in Named(a.ack, a.bits)
    ensures Vouches(a, s.numberOf[k])
  {
    if k == a.ack {
      assert Vouches(a, a.newest);
      WrapInjective(s.numberOf[k], a.newest);
    } else {
      var i: nat :| i < ACK_BITS && Bit(a.bits, i) && k == Wrap(a.ack - 1 - i);
      WrapTwice(a.newest, 1 + i);
      assert Vouches(a, a.newest - 1 - i);
      WrapInjective(s.numberOf[k], a.newest - 1 - i);
    }
  }

  lemma StepKeepsInv<P>(s: System<P>, e: Event<P>)
    requires Inv(s) && Enabled(s, e)
    ensures Inv(Step(s, e))
  {
    var t := Step(s, e);
    match e
    case Send(_, _) => WrapTwice(|s.sent|, -1);
    case Resend(_, _) =>
    case DeliverData(n) =>
      DeliveryDecision(s, n);
      if n !in s.taken { DeliveryKeepsReceiver(s, n); }
    case EmitAck =>
      forall a, n | a in t.acks && Vouches(a, n) ensures n in t.taken {
        if a !in s.acks { EmittedAckIsExact(s, n); }
      }
    case DeliverAck(a) => AckArrivalKeepsInv(s, a);
  }

  lemma AckArrivalKeepsInv<P>(s: System<P>, a: AckMsg)
    requires Inv(s) && Enabled(s, DeliverAck(a))
    ensures Inv(Step(s, DeliverAck(a)))
  {
    hide Named, Wrap;
    var t := Step(s, DeliverAck(a));
    forall n | n in t.retired ensures n in t.taken {
      if n !in s.retired {
        var k :| k in s.numberOf && k in Named(a.ack, a.bits) && s.numberOf[k] == n;
        RetiredWasVouched(s, a, k);
      }
    }
  }

  lemma {:induction false} RunKeepsInv<P>(es: seq<Event<P>>)
    requires Legal(es)
    ensures Inv(Run(es))
  {
    if es != [] {
      var n := |es| - 1;
      RunKeepsInv(es[..n]);
      StepKeepsInv(Run(es[..n]), es[n]);
    }
  }

  /** Main result. In every reachable state: no message was taken twice, a message
      delivered now is taken exactly if it never was, every retired message was
      taken, and whatever is still in flight carries its own payload. */
  lemma ReliableDelivery<P>(es: seq<Event<P>>, s: System<P>)
    requires Legal(es) && s == Run(es)
    ensures TakenOnce(s.taken)
    ensures forall n: nat :: Enabled(s, DeliverData(n)) ==>
      n in Step(s, DeliverData(n)).taken && (n !in s.taken <==> Step(s, DeliverData(n)).taken != s.taken)
    ensures forall n :: n in s.retired ==> n in s.taken
    ensures forall k :: k in s.inFlight ==>
      exists n: nat :: n < |s.sent| && Wrap(n) == k && s.inFlight[k].payload == s.sent[n]
  {
    RunKeepsInv(es);
    forall n: nat | Enabled(s, DeliverData(n))
      ensures n in Step(s, DeliverData(n)).taken && (n !in s.taken <==> Step(s, DeliverData(n)).taken != s.taken)
    {
      DeliveryDecision(s, n);
    }
    forall k | k in s.inFlight
      ensures exists n: nat :: n < |s.sent| && Wrap(n) == k && s.inFlight[k].payload == s.sent[n]
    {
      assert k in s.numberOf;
      var n := s.numberOf[k];
      assert n < |s.sent| && Wrap(n) == k;
    }
  }

  /** Exactly when the verdict is right, from less than half the range behind the newest
      message to AHEAD past it: inside the window, or for a message never taken. A message
      further behind is taken at every delivery, as its record is pruned at once. */
  lemma VerdictIsRightExactly<P>(s: System<P>, n: nat)
    requires ReceiverInv(s) && s.receiver.seenAny && n < |s.sent|
    requires s.newest - 32768 < n <= s.newest + AHEAD
    ensures (Receive(s.receiver, Wrap(n)).1 <==> n !in s.taken) <==> s.newest - KEEP <= n || n !in s.taken
    ensures n < s.newest - KEEP ==> Receive(s.receiver, Wrap(n)) == (s.receiver, true)
  {
    if n < s.newest - KEEP { FarBehindTaken(s, n); } else { DeliveryDecision(s, n); }
  }

  lemma FarBehindTaken<P>(s: System<P>, n: nat)
    requires ReceiverInv(s) && s.receiver.seenAny
    requires s.newest - 32768 < n < s.newest - KEEP
    ensures Receive(s.receiver, Wrap(n)) == (s.receiver, true)
  {
    SeqOrderRefinesNumbers(n, s.newest);
    SeqOrderRefinesNumbers(s.newest, n);
    if Wrap(n) in s.receiver.received {
      var m :| m in s.taken && s.newest - KEEP <= m && Wrap(m) == Wrap(n);
      WrapInjective(n, m);
    }
    forall q | q in s.receiver.received ensures SeqDiff(s.receiver.latest, q) <= KEEP {
      var m :| m in s.taken && s.newest - KEEP <= m && Wrap(m) == q;
      SeqOrderRefinesNumbers(s.newest, m);
    }
    assert Prune(s.receiver.received + {Wrap(n)}, s.receiver.latest) == s.receiver.received;
  }

  /** Exactly which records survive a jump ahead to message n: those inside the new window,
      and those half the range or more behind, which pruning takes for newer ones. */
  lemma JumpKeepsRecordExactly<P>(s: System<P>, m: nat, n: nat)
    requires ReceiverInv(s) && s.receiver.seenAny
    requires m in s.taken && s.newest - KEEP <= m && s.newest < n < s.newest + 32768
    ensures var (r, ok) := Receive(s.receiver, Wrap(n));
      ok && r.latest == Wrap(n) && (Wrap(m) in r.received <==> n - m <= KEEP || n - m >= 32768)
  {
    if Wrap(n) in s.receiver.received {
      var k :| k in s.taken && s.newest - KEEP <= k && Wrap(k) == Wrap(n);
      WrapInjective(n, k);
    }
    SeqOrderRefinesNumbers(n, s.newest);
    WrapOffset(n, m);
  }

  /** Why the AHEAD bound is needed: past it, the oldest record in the window survives the
      jump, and a message one wrap later is refused although it was never taken. */
  lemma JumpTooFarRefusesLater<P>(s: System<P>, m: nat, n: nat)
    requires ReceiverInv(s) && s.receiver.seenAny
    requires m in s.taken && m == s.newest - KEEP && s.newest + AHEAD < n < s.newest + 32768
    ensures var r := Receive(s.receiver, Wrap(n)).0;
      n < m + 65536 <= n + 32768 && m + 65536 !in s.taken + [n] && !Receive(r, Wrap(m + 65536)).1
  {
    JumpKeepsRecordExactly(s, m, n);
    assert Wrap(m + 65536) == Wrap(m);
  }
}
