/** The write-through economy outbox: an append-only log drained into a ledger whose
    idempotency keys survive a crash even when the drain watermark does not. */
module Outboxes {

  type Account = nat

  datatype EconomyEvent = EconomyEvent(number: nat, idemKey: nat, accountId: Account, amount: int)
  datatype LedgerEntry = LedgerEntry(number: nat, idemKey: nat, accountId: Account, delta: int, balanceAfter: int)

  // ---- What the ledger ought to hold ---------------------------------------

  ghost function Keys(log: seq<EconomyEvent>): set<nat> {
    set e | e in log :: e.idemKey
  }

  /** The events of a log whose key no earlier event carries. */
  ghost function FirstPerKey(log: seq<EconomyEvent>): seq<EconomyEvent> {
    if log == [] then []
    else
      var init, e := log[..|log| - 1], log[|log| - 1];
      if e.idemKey in Keys(init) then FirstPerKey(init) else FirstPerKey(init) + [e]
  }

  ghost function Total(events: seq<EconomyEvent>, account: Account): int {
    if events == [] then 0
    else
      var e := events[|events| - 1];
      Total(events[..|events| - 1], account) + (if e.accountId == account then e.amount else 0)
  }

  /** The entry for the last of these events, carrying the running balance. */
  ghost function EntryFor(events: seq<EconomyEvent>): LedgerEntry
    requires events != []
  {
    var e := events[|events| - 1];
    LedgerEntry(e.number, e.idemKey, e.accountId, e.amount, Total(events, e.accountId))
  }

  ghost function LedgerOf(events: seq<EconomyEvent>): (l: seq<LedgerEntry>)
    ensures |l| == |events|
  {
    if events == [] then [] else LedgerOf(events[..|events| - 1]) + [EntryFor(events)]
  }

  lemma {:induction false} LedgerEntries(events: seq<EconomyEvent>, i: nat)
    requires i < |events|
    ensures LedgerOf(events)[i] == EntryFor(events[..i + 1])
    ensures var entry, e := LedgerOf(events)[i], events[i];
      && entry.number == e.number && entry.idemKey == e.idemKey && entry.accountId == e.accountId
      && entry.delta == e.amount
      && entry.balanceAfter == Total(events[..i], e.accountId) + e.amount
  {
    var n := |events| - 1;
    assert events[..i + 1][..i] == events[..i];
    if i < n {
      LedgerEntries(events[..n], i);
      assert events[..n][..i + 1] == events[..i + 1];
    } else {
      assert events[..i + 1] == events;
    }
  }

  /** First-per-key events are an unrepeated selection: each key of the log once. */
  lemma {:induction false} FirstPerKeyIsExact(log: seq<EconomyEvent>)
    ensures Keys(FirstPerKey(log)) == Keys(log)
    ensures forall i, j :: 0 <= i < j < |FirstPerKey(log)| ==>
      FirstPerKey(log)[i].idemKey != FirstPerKey(log)[j].idemKey
    ensures forall e :: e in FirstPerKey(log) ==> e in log
  {
    if log != [] {
      var init, e := log[..|log| - 1], log[|log| - 1];
      FirstPerKeyIsExact(init);
      assert log == init + [e];
      assert Keys(log) == Keys(init) + {e.idemKey};
      var kept := FirstPerKey(init);
      assert forall i :: 0 <= i < |kept| ==> kept[i].idemKey in Keys(kept);
      if e.idemKey !in Keys(init) { assert Keys(kept + [e]) == Keys(kept) + {e.idemKey}; }
    }
  }

  lemma AppliedOneMore(events: seq<EconomyEvent>, e: EconomyEvent)
    ensures var after, b := events + [e], Total(events, e.accountId) + e.amount;
      && LedgerOf(after) == LedgerOf(events) + [LedgerEntry(e.number, e.idemKey, e.accountId, e.amount, b)]
      && Keys(after) == Keys(events) + {e.idemKey}
      && forall a: Account :: Total(after, a) == if a == e.accountId then b else Total(events, a)
  {
    assert (events + [e])[..|events|] == events;
  }

  // ---- The ledger state ----------------------------------------------------

  /** After the first `done` events of a log were offered in order. */
  class EconomyState {
    var wallet: map<Account, int>
    var ledger: seq<LedgerEntry>
    var appliedKeys: set<nat>
    var lastAppliedSeq: nat
    ghost var applied: seq<EconomyEvent>

    /** Ledger, keys and balances all follow from the events applied. */
    ghost predicate Valid()
      reads this
    {
      && ledger == LedgerOf(applied)
      && appliedKeys == Keys(applied)
      && (forall a :: a in wallet ==> wallet[a] == Total(applied, a))
      && (forall a: Account :: a !in wallet ==> Total(applied, a) == 0)
    }

    constructor ()
      ensures Valid() && applied == [] && lastAppliedSeq == 0
    {
      wallet, ledger, appliedKeys, lastAppliedSeq, applied := map[], [], {}, 0, [];
    }

    method Apply(e: EconomyEvent, injectFailure: bool := false) returns (newly: bool)
      requires Valid()
      modifies this
      ensures Valid()
      ensures newly <==> e.number > old(lastAppliedSeq) && e.idemKey !in Keys(old(applied)) && !injectFailure
      ensures applied == if newly then old(applied) + [e] else old(applied)
      ensures var balance := old(Balance(e.accountId)) + e.amount;
        var entry := LedgerEntry(e.number, e.idemKey, e.accountId, e.amount, balance);
        ledger == if newly then old(ledger) + [entry] else old(ledger)
      ensures forall a :: Balance(a) == old(Balance(a)) + (if newly && a == e.accountId then e.amount else 0)
      ensures lastAppliedSeq == if newly then e.number else old(lastAppliedSeq)
    {
      if e.number <= lastAppliedSeq { return false; }
      if e.idemKey in appliedKeys { return false; }
      if injectFailure { return false; }
      hide LedgerOf, Keys, Total;
      Enter(e);
      return true;
    }

    /** Moves the account's balance, and writes the entry that says so. */
    method Enter(e: EconomyEvent)
      requires Valid() && e.number > lastAppliedSeq
      modifies this
      ensures Valid() && applied == old(applied) + [e] && lastAppliedSeq == e.number
      ensures ledger == old(ledger) +
        [LedgerEntry(e.number, e.idemKey, e.accountId, e.amount, old(Balance(e.accountId)) + e.amount)]
      ensures forall a :: Balance(a) == old(Balance(a)) + (if a == e.accountId then e.amount else 0)
    {
      hide LedgerOf, Keys, Total;
      AppliedOneMore(applied, e);
      var balance := (if e.accountId in wallet then wallet[e.accountId] else 0) + e.amount;
      wallet := wallet[e.accountId := balance];
      ledger := ledger + [LedgerEntry(e.number, e.idemKey, e.accountId, e.amount, balance)];
      appliedKeys := appliedKeys + {e.idemKey};
      if e.number > lastAppliedSeq { lastAppliedSeq := e.number; }
      applied := applied + [e];
    }

    function Balance(account: Account): (b: int)
      requires Valid()
      reads this
      ensures b == Total(applied, account)
    {
      if account in wallet then wallet[account] else 0
    }

    /** A crash that loses the in-memory watermark but nothing durable. */
    method DropWatermarkOnly()
      requires Valid()
      modifies this
      ensures Valid() && applied == old(applied) && lastAppliedSeq == 0
    {
      lastAppliedSeq := 0;
    }
  }

  // ---- The log -------------------------------------------------------------

  ghost predicate Numbered(log: seq<EconomyEvent>) {
    forall i :: 0 <= i < |log| ==> log[i].number == i + 1
  }

  /** The state holds exactly what the first `done` events of the log amount to. The
      watermark may have been lost, but what it covers is no more than `done`. */
  ghost predicate Covers(s: EconomyState, log: seq<EconomyEvent>, done: nat)
    reads s
  {
    s.Valid() && done <= |log| && s.applied == FirstPerKey(log[..done]) && s.lastAppliedSeq <= done
  }

  class Outbox {
    var log: seq<EconomyEvent>
    var nextSeq: nat
    var drainWatermark: nat

    ghost predicate Valid()
      reads this
    {
      Numbered(log) && nextSeq == |log|
    }

    constructor ()
      ensures Valid() && log == [] && drainWatermark == 0
    {
      log, nextSeq, drainWatermark := [], 0, 0;
    }

    method Append(idemKey: nat, accountId: Account, amount: int) returns (number: nat)
      requires Valid()
      modifies this
      ensures Valid() && drainWatermark == old(drainWatermark)
      ensures number == |log| && log == old(log) + [EconomyEvent(number, idemKey, accountId, amount)]
    {
      nextSeq := nextSeq + 1;
      number := nextSeq;
      log := log + [EconomyEvent(number, idemKey, accountId, amount)];
    }

    method PendingCount() returns (n: nat)
      requires Valid()
      ensures n == if drainWatermark < |log| then |log| - drainWatermark else 0
    {
      n := 0;
      for i := 0 to |log|
        invariant n == if drainWatermark < i then i - drainWatermark else 0
      {
        if log[i].number > drainWatermark { n := n + 1; }
      }
    }

    /** Offers the log's events past `from`, stopping after `upto` of the log; a drain
        that is not interrupted has upto == |log|. Events above what the state covers and
        at or below `from` are skipped, whatever they are. */
    method Offer(state: EconomyState, from: nat, upto: nat, ghost done: nat) returns (count: nat)
      requires Valid() && Covers(state, log, done) && upto <= |log|
      modifies state
      ensures state.Valid() && state.applied == FirstPerKey(Offered(log, done, from, upto))
      ensures from <= done ==> Covers(state, log, Max(done, upto))
      ensures count == |state.applied| - |old(state.applied)|
      ensures state.lastAppliedSeq == WatermarkAfter(count, old(state.lastAppliedSeq), state.applied)
    {
      hide FirstPerKey, LedgerOf, Keys, Total, Offered;
      count := 0;
      NothingOffered(log, done, from);
      for i := 0 to upto
        invariant state.Valid() && state.lastAppliedSeq <= Max(done, i)
        invariant state.applied == FirstPerKey(Offered(log, done, from, i))
        invariant count == |state.applied| - |old(state.applied)|
        invariant state.lastAppliedSeq == WatermarkAfter(count, old(state.lastAppliedSeq), state.applied)
      {
        OfferedEvent(log, done, from, i);
        if log[i].number > from {
          var newly := state.Apply(log[i]);
          if newly { count := count + 1; }
        }
      }
      if from <= done { NothingSkipped(log, done, from, upto); }
    }

    /** Applies every pending event; events confirmed before they were applied stay out. */
    method Drain(state: EconomyState, ghost done: nat) returns (count: nat)
      requires Valid() && Covers(state, log, done)
      modifies state
      ensures state.Valid() && state.applied == FirstPerKey(Offered(log, done, drainWatermark, |log|))
      ensures drainWatermark <= done ==> Covers(state, log, |log|)
      ensures count == |state.applied| - |old(state.applied)|
      ensures state.lastAppliedSeq == WatermarkAfter(count, old(state.lastAppliedSeq), state.applied)
    {
      count := Offer(state, drainWatermark, |log|, done);
    }

    method ReplayAll(state: EconomyState, ghost done: nat) returns (count: nat)
      requires Valid() && Covers(state, log, done)
      modifies state
      ensures Covers(state, log, |log|)
      ensures count == |state.applied| - |old(state.applied)|
      ensures done == |log| ==> count == 0 && state.applied == old(state.applied)
    {
      count := Offer(state, 0, |log|, done);
    }

    method ConfirmDrained(upto: nat)
      requires Valid()
      modifies this
      ensures Valid() && log == old(log) && drainWatermark == Max(old(drainWatermark), upto)
    {
      if upto > drainWatermark { drainWatermark := upto; }
    }
  }

  /** The number of the last event applied, if any was. */
  ghost function WatermarkAfter(count: int, before: nat, applied: seq<EconomyEvent>): nat {
    if count == 0 || applied == [] then before else applied[|applied| - 1].number
  }

  function Max(a: nat, b: nat): nat {
    if a < b then b else a
  }

  /** One more applied event, unless its key is already there. */
  ghost function WithEvent(applied: seq<EconomyEvent>, e: EconomyEvent): seq<EconomyEvent> {
    if e.idemKey in Keys(applied) then applied else applied + [e]
  }

  /** The events a state was given: those it covers, then those past `from` up to `upto`. */
  ghost function Offered(log: seq<EconomyEvent>, done: nat, from: nat, upto: nat): seq<EconomyEvent>
    requires done <= |log| && upto <= |log|
  {
    log[..done] + if Max(done, from) < upto then log[Max(done, from)..upto] else []
  }

  lemma NothingOffered(log: seq<EconomyEvent>, done: nat, from: nat)
    requires done <= |log|
    ensures Offered(log, done, from, 0) == log[..done]
  {
  }

  lemma NothingSkipped(log: seq<EconomyEvent>, done: nat, from: nat, upto: nat)
    requires done <= |log| && upto <= |log| && from <= done
    ensures Offered(log, done, from, upto) == log[..Max(done, upto)]
  {
  }

  /** Event i is skipped by its key when it was covered before, and otherwise extends
      the first-per-key selection exactly if it is past `from` and its key is new. */
  lemma OfferedEvent(log: seq<EconomyEvent>, done: nat, from: nat, i: nat)
    requires i < |log| && done <= |log|
    ensures i < done ==> log[i].idemKey in Keys(FirstPerKey(Offered(log, done, from, i)))
    ensures Offered(log, done, from, i + 1) == Offered(log, done, from, i) || Max(done, from) <= i
    ensures Max(done, from) <= i ==>
      FirstPerKey(Offered(log, done, from, i + 1)) == WithEvent(FirstPerKey(Offered(log, done, from, i)), log[i])
  {
    var before, after := Offered(log, done, from, i), Offered(log, done, from, i + 1);
    FirstPerKeyIsExact(before);
    if i < done {
      assert log[i] in log[..done];
    } else if Max(done, from) <= i {
      assert after == before + [log[i]];
      assert after[..|before|] == before;
    }
  }

  /** How far into the log the skipped events reach. */
  ghost function SkippedTo(log: seq<EconomyEvent>, done: nat, watermark: nat): nat {
    if Max(done, watermark) < |log| then Max(done, watermark) else |log|
  }

  /** Exactly when a drain does its job, for any watermark: it applies what the whole log
      amounts to if and only if every event confirmed before it was applied repeats a key
      already applied. */
  lemma DrainIsExact(log: seq<EconomyEvent>, done: nat, watermark: nat)
    requires Numbered(log) && done <= |log|
    ensures FirstPerKey(Offered(log, done, watermark, |log|)) == FirstPerKey(log)
      <==> Keys(log[done..SkippedTo(log, done, watermark)]) <= Keys(log[..done])
  {
    hide FirstPerKey, Keys, Numbered;
    var to := SkippedTo(log, done, watermark);
    var a, b, c := log[..done], log[done..to], log[to..];
    assert Offered(log, done, watermark, |log|) == a + c;
    assert log == a + b + c;
    if Keys(b) <= Keys(a) {
      RepeatsAddNothing(a, b);
      SameTail(a + b, a, c);
    } else {
      SkippedIsLost(a, b, c);
    }
  }

  lemma SkippedIsLost(a: seq<EconomyEvent>, b: seq<EconomyEvent>, c: seq<EconomyEvent>)
    requires Numbered(a + b + c) && !(Keys(b) <= Keys(a))
    ensures FirstPerKey(a + c) != FirstPerKey(a + b + c)
  {
    hide FirstPerKey, Keys;
    var f := NewKeyIsKept(a, b);
    FirstPerKeyPrefix(a + b, c);
    MiddleIsApart(a, b, c, f);
    FirstPerKeyIsExact(a + c);
  }

  lemma MiddleIsApart(a: seq<EconomyEvent>, b: seq<EconomyEvent>, c: seq<EconomyEvent>, f: EconomyEvent)
    requires Numbered(a + b + c) && f in b
    ensures f !in a + c
  {
    var log := a + b + c;
    var j :| 0 <= j < |b| && b[j] == f;
    assert log[|a| + j] == f;
    forall i | 0 <= i < |a + c| ensures (a + c)[i] != f {
      assert (a + c)[i] == log[if i < |a| then i else i + |b|];
    }
  }

  lemma NewKeyIsKept(a: seq<EconomyEvent>, b: seq<EconomyEvent>) returns (f: EconomyEvent)
    requires !(Keys(b) <= Keys(a))
    ensures f in b && f in FirstPerKey(a + b)
  {
    var k :| k in Keys(b) && k !in Keys(a);
    FirstPerKeyIsExact(a + b);
    assert k in Keys(a + b) by { var e :| e in b && e.idemKey == k; assert e in a + b; }
    f :| f in FirstPerKey(a + b) && f.idemKey == k;
    assert f in a + b && f !in a;
  }

  lemma {:induction false} FirstPerKeyPrefix(a: seq<EconomyEvent>, b: seq<EconomyEvent>)
    ensures FirstPerKey(a) <= FirstPerKey(a + b)
  {
    if b == [] {
      assert a + b == a;
    } else {
      assert (a + b)[..|a + b| - 1] == a + b[..|b| - 1];
      FirstPerKeyPrefix(a, b[..|b| - 1]);
    }
  }

  lemma OneMoreEvent(log: seq<EconomyEvent>, more: seq<EconomyEvent>)
    requires more != []
    ensures var m := |more| - 1;
      && FirstPerKey(log + more) ==
           FirstPerKey(log + more[..m]) + (if more[m].idemKey in Keys(log + more[..m]) then [] else [more[m]])
      && Keys(log + more) == Keys(log + more[..m]) + {more[m].idemKey}
  {
    var m := |more| - 1;
    assert (log + more)[..|log + more| - 1] == log + more[..m];
    assert log + more == log + more[..m] + [more[m]];
  }

  /** Events that repeat an earlier key leave the selection as it is. */
  lemma {:induction false} RepeatsAddNothing(a: seq<EconomyEvent>, b: seq<EconomyEvent>)
    requires Keys(b) <= Keys(a)
    ensures FirstPerKey(a + b) == FirstPerKey(a) && Keys(a + b) == Keys(a)
  {
    hide FirstPerKey;
    if b == [] {
      assert a + b == a;
    } else {
      var m := |b| - 1;
      assert b[m] in b && forall e :: e in b[..m] ==> e in b;
      OneMoreEvent(a, b);
      RepeatsAddNothing(a, b[..m]);
    }
  }

  /** What follows is selected the same after either of two logs with the same selection and keys. */
  lemma {:induction false} SameTail(a: seq<EconomyEvent>, b: seq<EconomyEvent>, c: seq<EconomyEvent>)
    requires FirstPerKey(a) == FirstPerKey(b) && Keys(a) == Keys(b)
    ensures FirstPerKey(a + c) == FirstPerKey(b + c) && Keys(a + c) == Keys(b + c)
  {
    hide FirstPerKey, Keys;
    if c == [] {
      assert a + c == a && b + c == b;
    } else {
      OneMoreEvent(a, c);
      OneMoreEvent(b, c);
      SameTail(a, b, c[..|c| - 1]);
    }
  }

  // ---- Whole runs ----------------------------------------------------------

  datatype Command =
    | Append(idemKey: nat, account: Account, amount: int)
    | Drain
    | InterruptedDrain(upto: nat)  // the process dies after this many events of the log
    | ReplayAll
    | Confirm(upto: nat)
    | Crash                        // the in-memory watermark is lost

  /** Main result, for every run in which a confirm never passes what was drained: the
      ledger holds exactly the first event of each key in a prefix of the log, in order,
      with running balances, and a drain or replay brings it up to the whole log. */
  method Execute(commands: seq<Command>) returns (outbox: Outbox, state: EconomyState, done: nat)
    ensures outbox.Valid() && Covers(state, outbox.log, done) && outbox.drainWatermark <= done
    ensures outbox.log == LogOf(commands)
    ensures state.ledger == LedgerOf(FirstPerKey(LogOf(commands)[..done]))
    ensures commands != [] && commands[|commands| - 1] in {Drain, ReplayAll} ==> done == |LogOf(commands)|
  {
    outbox := new Outbox();
    state := new EconomyState();
    done := 0;
    for i := 0 to |commands|
      invariant fresh(outbox) && fresh(state)
      invariant outbox.Valid() && Covers(state, outbox.log, done) && outbox.drainWatermark <= done
      invariant outbox.log == LogOf(commands[..i])
      invariant i > 0 && commands[i - 1] in {Drain, ReplayAll} ==> done == |outbox.log|
    {
      assert commands[..i + 1][..i] == commands[..i];
      match commands[i]
      case Append(k, a, x) =>
        ghost var before := outbox.log;
        var _ := outbox.Append(k, a, x);
        assert outbox.log[..done] == before[..done];
      case Drain =>
        var _ := outbox.Drain(state, done);
        done := |outbox.log|;
      case InterruptedDrain(upto) =>
        var stop := if upto < |outbox.log| then upto else |outbox.log|;
        var _ := outbox.Offer(state, outbox.drainWatermark, stop, done);
        done := Max(done, stop);
      case ReplayAll =>
        var _ := outbox.ReplayAll(state, done);
        done := |outbox.log|;
      case Confirm(upto) =>
        if upto <= done { outbox.ConfirmDrained(upto); }
      case Crash =>
        state.DropWatermarkOnly();
    }
    assert commands[..|commands|] == commands;
  }

  ghost function LogOf(commands: seq<Command>): seq<EconomyEvent> {
    if commands == [] then []
    else
      var log, c := LogOf(commands[..|commands| - 1]), commands[|commands| - 1];
      if c.Append? then log + [EconomyEvent(|log| + 1, c.idemKey, c.account, c.amount)] else log
  }

  /** Why a confirm must not pass what was drained: the next drain skips event 1, and its
      watermark then makes even a full replay skip it. */
  method ConfirmAheadLosesEvent() returns (outbox: Outbox, state: EconomyState)
    ensures fresh(outbox) && fresh(state) && outbox.Valid() && state.Valid() && |outbox.log| == 2
    ensures outbox.log[0].idemKey != outbox.log[1].idemKey
    ensures state.applied == [outbox.log[1]] && state.lastAppliedSeq == 2
  {
    OneEventApplied();
    hide LedgerOf, Keys, Total, FirstPerKey;
    outbox := new Outbox();
    state := new EconomyState();
    var _ := outbox.Append(11, 1, 50);
    outbox.ConfirmDrained(1);
    var _ := outbox.Append(12, 1, 70);
    assert outbox.log[..0] == [];
    var _ := outbox.Drain(state, 0);
    assert Offered(outbox.log, 0, 1, 2) == [outbox.log[1]];
  }

  /** The event is lost until the in-memory watermark is: then it is applied after all, but
      out of order. */
  method LostUntilWatermarkDropped() returns (outbox: Outbox, state: EconomyState, before: bool, after: bool)
    ensures outbox.Valid() && state.Valid() && |outbox.log| == 2
    ensures !before && after && state.applied == [outbox.log[1], outbox.log[0]]
  {
    outbox, state := ConfirmAheadLosesEvent();
    before := state.Apply(outbox.log[0]);
    state.DropWatermarkOnly();
    after := state.Apply(outbox.log[0]);
  }

  lemma OneEventApplied()
    ensures FirstPerKey([]) == [] && forall e :: FirstPerKey([e]) == [e]
  {
    forall e: EconomyEvent ensures FirstPerKey([e]) == [e] {
      assert [e][..0] == [];
    }
  }
}
