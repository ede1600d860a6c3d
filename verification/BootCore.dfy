/**
 * One boot decision: select the record, apply the trial rule, verify the slot it names and
 * fall back to the other one. The method follows the bootloader; the functions say what it
 * does to any device under any script of failures.
 */
module BootCore {
  import opened Bytes
  import opened FlashModel
  import opened BootRecord
  import opened BootSlot

  const MAX_ROLLBACKS: U32 := 16

  datatype Outcome = Run | HaltNoImage | HaltRollbackLimit | HaltFlashFault

  datatype BootEvent = RecordInitialised | TrialStarted | TrialAbandoned | ActiveInvalid | MetaWriteFailed | CopyInvalid

  datatype Report = Report(outcome: Outcome, events: set<BootEvent>, slotBase: nat, imageLen: U32, version: U32,
                           stateIn: Byte, stateOut: Byte, activeBank: Byte, generation: U32, rollbackCount: U32)

  /** The slot to jump to. */
  datatype Started = Started(bank: Byte, image: Image)

  function MakeReport(cur: Current, outcome: Outcome, events: set<BootEvent>, stateIn: Byte, started: Option<Started>)
    : Report
  {
    var base, len, version := if started.Some? then SlotBase(started.value.bank) else 0,
                              if started.Some? then started.value.image.len else 0,
                              if started.Some? then started.value.image.version else 0;
    match cur
    case NoRecord => Report(outcome, events, base, len, version, stateIn, 0, 0, 0, 0)
    case InForce(_, r) => Report(outcome, events, base, len, version, stateIn, r.state, r.active, r.generation, r.count)
  }

  predicate HasState(cur: Current, state: Byte) {
    cur.InForce? && cur.rec.state == state
  }

  /** The record the trial rule wants written before any slot is looked at. */
  function Wanted(cur: Current): Option<Meta> {
    match cur
    case NoRecord => Some(Successor(cur, BANK_A, CONFIRMED, BANK_B, 0))
    case InForce(_, r) =>
      if r.state == TRIAL_PENDING then Some(Successor(cur, r.active, TRIAL_RUNNING, r.previous, r.count))
      else if r.state == TRIAL_RUNNING && r.count < MAX_ROLLBACKS
      then Some(Successor(cur, r.previous, ROLLED_BACK, r.active, r.count + 1))
      else None
  }

  datatype Settled = Settled(cur: Current, events: set<BootEvent>, halt: Option<Outcome>, d: Device)

  function SettleEvents(cur: Current, ok: bool): set<BootEvent> {
    (if cur == NoRecord then {RecordInitialised} else {}) +
    (if !ok then {MetaWriteFailed}
     else if HasState(cur, TRIAL_PENDING) then {TrialStarted}
     else if HasState(cur, TRIAL_RUNNING) then {TrialAbandoned}
     else {})
  }

  /** Apply the trial rule; only an abandoned trial may go on after a failed write. */
  function Settle(cur: Current, d: Device): Settled {
    match Wanted(cur)
    case None => Settled(cur, {}, if HasState(cur, TRIAL_RUNNING) then Some(HaltRollbackLimit) else None, d)
    case Some(r) =>
      var (ok, d1) := Write(d, Target(cur), r);
      Settled(if ok then InForce(Target(cur), r) else cur, SettleEvents(cur, ok),
              if ok || HasState(cur, TRIAL_RUNNING) then None else Some(HaltFlashFault), d1)
  }

  /** The slot to try first: the one the record names, unless a rollback could not be recorded. */
  function FirstBank(st: Settled): Byte
    requires st.cur.InForce?
  {
    if MetaWriteFailed in st.events && st.cur.rec.state == TRIAL_RUNNING then st.cur.rec.previous
    else st.cur.rec.active
  }

  datatype Launched = Launched(outcome: Outcome, started: Option<Started>, cur: Current, events: set<BootEvent>, d: Device)

  /** The record that makes a fall-back permanent. */
  function FallBack(cur: Current, failed: Byte): Meta
    requires cur.InForce? && cur.rec.count < MAX_ROLLBACKS
  {
    Successor(cur, OtherBank(failed), ROLLED_BACK, failed, cur.rec.count + 1)
  }

  /** Verify the first slot; when it fails, verify the other one, record the fall-back and run it. */
  function Launch(cur: Current, bank: Byte, d: Device): Launched
    requires cur.InForce?
  {
    var (first, d1) := SlotCheck(d, bank);
    if first.Some? then Launched(Run, Some(Started(bank, first.value)), cur, {}, d1)
    else if cur.rec.count >= MAX_ROLLBACKS then Launched(HaltRollbackLimit, None, cur, {ActiveInvalid}, d1)
    else
      var (second, d2) := SlotCheck(d1, OtherBank(bank));
      if second == None then Launched(HaltNoImage, None, cur, {ActiveInvalid}, d2)
      else
        var r := FallBack(cur, bank);
        var (ok, d3) := Write(d2, Target(cur), r);
        Launched(Run, Some(Started(OtherBank(bank), second.value)), if ok then InForce(Target(cur), r) else cur,
                 if ok then {ActiveInvalid} else {ActiveInvalid, MetaWriteFailed}, d3)
  }

  function StateIn(cur: Current): Byte {
    if cur.InForce? then cur.rec.state else 0
  }

  function BootRun(d: Device): (Report, Device) {
    var s := SelectOp(d);
    var events := if s.damaged then {CopyInvalid} else {};
    if !s.read then (MakeReport(s.cur, HaltFlashFault, events, 0, None), s.d) else
    var st := Settle(s.cur, s.d);
    if st.halt.Some? then (MakeReport(st.cur, st.halt.value, events + st.events, StateIn(s.cur), None), st.d) else
    var l := Launch(st.cur, FirstBank(st), st.d);
    (MakeReport(l.cur, l.outcome, events + st.events + l.events, StateIn(s.cur), l.started), l.d)
  }

  /** Verify and launch, as the second half of the boot decision does. */
  method LaunchSlot(fl: InternalFlash, cur0: Current, bank: Byte)
    returns (cur: Current, outcome: Outcome, events: set<BootEvent>, started: Option<Started>)
    requires cur0.InForce?
    modifies fl
    ensures Launched(outcome, started, cur, events, fl.State()) == Launch(cur0, bank, old(fl.State()))
  {
    hide SlotCheck, Write, Successor;
    cur, events, started := cur0, {}, None;
    var first := SlotIsBootable(fl, bank);
    if first.Some? {
      outcome, started := Run, Some(Started(bank, first.value));
      return;
    }
    events := {ActiveInvalid};
    if cur.rec.count >= MAX_ROLLBACKS {
      outcome := HaltRollbackLimit;
      return;
    }
    var second := SlotIsBootable(fl, OtherBank(bank));
    if second == None {
      outcome := HaltNoImage;
      return;
    }
    var ok;
    ok, cur := RecordWrite(fl, cur, Successor(cur, OtherBank(bank), ROLLED_BACK, bank, cur.rec.count + 1));
    if !ok {
      events := events + {MetaWriteFailed};
    }
    outcome, started := Run, Some(Started(OtherBank(bank), second.value));
  }

  /** Apply the trial rule, as the first half of the boot decision does. */
  method SettleRecord(fl: InternalFlash, cur0: Current)
    returns (cur: Current, events: set<BootEvent>, halt: Option<Outcome>)
    modifies fl
    ensures Settled(cur, events, halt, fl.State()) == Settle(cur0, old(fl.State()))
  {
    hide Write, Successor;
    cur, events, halt := cur0, {}, None;
    var ok;
    if cur == NoRecord {
      events := {RecordInitialised};
      ok, cur := RecordWrite(fl, cur, Successor(cur, BANK_A, CONFIRMED, BANK_B, 0));
      if !ok {
        events, halt := events + {MetaWriteFailed}, Some(HaltFlashFault);
      }
    } else if cur.rec.state == TRIAL_PENDING {
      ok, cur := RecordWrite(fl, cur, Successor(cur, cur.rec.active, TRIAL_RUNNING, cur.rec.previous, cur.rec.count));
      if !ok {
        events, halt := {MetaWriteFailed}, Some(HaltFlashFault);
        return;
      }
      events := {TrialStarted};
    } else if cur.rec.state == TRIAL_RUNNING {
      if cur.rec.count >= MAX_ROLLBACKS {
        halt := Some(HaltRollbackLimit);
        return;
      }
      ok, cur := RecordWrite(fl, cur, Successor(cur, cur.rec.previous, ROLLED_BACK, cur.rec.active, cur.rec.count + 1));
      events := if ok then {TrialAbandoned} else {MetaWriteFailed};
    }
  }

  /** The boot decision. */
  method BootCoreRun(fl: InternalFlash) returns (report: Report)
    modifies fl
    ensures (report, fl.State()) == BootRun(old(fl.State()))
  {
    hide Launch, MakeReport, SelectBy, Write, Successor;
    var s := RecordSelect(fl, IsValid);
    var events := if s.damaged then {CopyInvalid} else {};
    if !s.read {
      return MakeReport(s.cur, HaltFlashFault, events, 0, None);
    }
    var cur, more, halt := SettleRecord(fl, s.cur);
    events := events + more;
    if halt.Some? {
      return MakeReport(cur, halt.value, events, StateIn(s.cur), None);
    }
    var bank := cur.rec.active;
    if MetaWriteFailed in events && cur.rec.state == TRIAL_RUNNING {
      bank := cur.rec.previous;
    }
    var outcome, started;
    cur, outcome, more, started := LaunchSlot(fl, cur, bank);
    return MakeReport(cur, outcome, events + more, StateIn(s.cur), started);
  }
}
