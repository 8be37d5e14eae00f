/**
 The bank webhook and the reconciliation job racing on charge rows under a version field. Every actor
 is split at its awaits into read, wait, compare-and-set and insert steps, and any number of actors
 interleave. The charge a `findFirst` by txid returns, the provider's replies and the clock are inputs.
 */
module PixCharge {
  import opened Wrappers
  import Runs

  datatype ChargeStatus = Pending | Issued | Paid | Cancelled | Expired | Failed

  datatype Charge = Charge(status: ChargeStatus, version: nat, txid: Option<string>, externalId: Option<string>, amount: int)

  /** The text of an external payment id, or the charge's own id as the last resort. */
  datatype PaymentId = Text(text: string) | OwnId(charge: nat)

  /** A PIX settlement row; (source, externalPaymentId) is unique, and the source here is always PIX. */
  datatype Settlement = Settlement(externalId: PaymentId, charge: nat, amount: int, paidAt: int)

  datatype Entry = Entry(endToEndId: string, txid: string, amount: int, paidAt: int)

  datatype Verdict = Skipped | NoCharge | AlreadySettled | Settled | LostLock

  /** Where an actor stands; `seen` is the snapshot it read. */
  datatype Actor =
    | WebhookStart(e: Entry)
    | WebhookFind(e: Entry)
    | WebhookPay(e: Entry, id: nat, seen: Charge)
    | WebhookRefetch(e: Entry, id: nat)
    | WebhookEnsure(e: Entry, id: nat)
    | WebhookInsert(e: Entry, id: nat)
    | WebhookDone(e: Entry, verdict: Verdict)
    | JobWait(id: nat, seen: Charge, pendingCandidate: bool, expiredCandidate: bool)
    | JobWrite(id: nat, seen: Charge, target: ChargeStatus)
    | JobSettle(id: nat, seen: Charge)
    | JobInsert(id: nat, seen: Charge)
    | JobDone

  datatype State = State(charges: seq<Charge>, settlements: seq<Settlement>, actors: seq<Actor>)

  /** What the outside world contributes to one actor step. */
  datatype Input = Input(found: nat, reply: Option<ChargeStatus>, now: int)

  datatype Step =
    | Issue(charge: Charge)
    | Deliver(e: Entry)
    | Fetch(id: nat, pendingCandidate: bool, expiredCandidate: bool)
    | Advance(a: nat, input: Input)

  predicate Exists(settlements: seq<Settlement>, key: PaymentId) {
    exists i :: 0 <= i < |settlements| && settlements[i].externalId == key
  }

  predicate ChargeSettled(settlements: seq<Settlement>, id: nat) {
    exists i :: 0 <= i < |settlements| && settlements[i].charge == id
  }

  predicate HasTxid(charges: seq<Charge>, txid: string) {
    exists i :: 0 <= i < |charges| && charges[i].txid == Some(txid)
  }

  /** The insert, under the unique index. */
  function Insert(settlements: seq<Settlement>, row: Settlement): seq<Settlement> {
    if Exists(settlements, row.externalId) then settlements else settlements + [row]
  }

  /** The versioned write: nothing happens when the version has moved on. */
  function CompareAndSet(charges: seq<Charge>, id: nat, seen: Charge, target: ChargeStatus): seq<Charge>
    requires id < |charges|
  {
    if charges[id].version == seen.version
    then charges[id := charges[id].(status := target, version := charges[id].version + 1)]
    else charges
  }

  /** The job's transition for a provider reply, late payment first. */
  function Decide(seen: ChargeStatus, pendingCandidate: bool, expiredCandidate: bool, reply: ChargeStatus): Option<ChargeStatus> {
    if reply.Paid? then Some(Paid)
    else if pendingCandidate && !expiredCandidate then
      if reply.Issued? then Some(Issued) else if reply.Failed? then Some(Failed) else None
    else if expiredCandidate then
      if reply.Issued? || reply == seen then Some(Expired) else None
    else None
  }

  function JobKey(id: nat, seen: Charge): PaymentId {
    if seen.externalId.Some? then Text(seen.externalId.value)
    else if seen.txid.Some? then Text(seen.txid.value) else OwnId(id)
  }

  /** One await-to-await step of an actor. An actor pointing at no row, which never arises, stays put. */
  function Act(s: State, actor: Actor, input: Input): (State, Actor) {
    match actor
    case WebhookStart(e) =>
      if e.txid == "" || e.endToEndId == "" then (s, WebhookDone(e, Skipped))
      else if Exists(s.settlements, Text(e.endToEndId)) then (s, WebhookDone(e, AlreadySettled))
      else (s, WebhookFind(e))
    case WebhookFind(e) =>
      if !HasTxid(s.charges, e.txid) then (s, WebhookDone(e, NoCharge))
      else if input.found >= |s.charges| || s.charges[input.found].txid != Some(e.txid) then (s, actor)
      else if s.charges[input.found].status.Paid? then (s, WebhookEnsure(e, input.found))
      else (s, WebhookPay(e, input.found, s.charges[input.found]))
    case WebhookPay(e, id, seen) =>
      if id >= |s.charges| then (s, actor) else
        (s.(charges := CompareAndSet(s.charges, id, seen, Paid)),
         if s.charges[id].version == seen.version then WebhookEnsure(e, id) else WebhookRefetch(e, id))
    case WebhookRefetch(e, id) =>
      if id < |s.charges| && s.charges[id].status.Paid? then (s, WebhookEnsure(e, id))
      else (s, WebhookDone(e, LostLock))
    case WebhookEnsure(e, id) =>
      if Exists(s.settlements, Text(e.endToEndId)) then (s, WebhookDone(e, Settled)) else (s, WebhookInsert(e, id))
    case WebhookInsert(e, id) =>
      (s.(settlements := Insert(s.settlements, Settlement(Text(e.endToEndId), id, e.amount, e.paidAt))), WebhookDone(e, Settled))
    case WebhookDone(_, _) => (s, actor)
    case JobWait(id, seen, pendingCandidate, expiredCandidate) =>
      var target := if input.reply.None? then None
                    else Decide(seen.status, pendingCandidate, expiredCandidate, input.reply.value);
      (s, if target.Some? then JobWrite(id, seen, target.value) else JobDone)
    case JobWrite(id, seen, target) =>
      if id >= |s.charges| then (s, actor) else
        (s.(charges := CompareAndSet(s.charges, id, seen, target)), if target.Paid? then JobSettle(id, seen) else JobDone)
    case JobSettle(id, seen) =>
      if ChargeSettled(s.settlements, id) then (s, JobDone) else (s, JobInsert(id, seen))
    case JobInsert(id, seen) =>
      (s.(settlements := Insert(s.settlements, Settlement(JobKey(id, seen), id, seen.amount, input.now))), JobDone)
    case JobDone => (s, actor)
  }

  /** The job only fetches PENDING and ISSUED rows, and only a PENDING one is a pending candidate. */
  predicate Fetchable(c: Charge, pendingCandidate: bool, expiredCandidate: bool) {
    && (c.status.Pending? || c.status.Issued?)
    && (pendingCandidate || expiredCandidate)
    && (pendingCandidate ==> c.status.Pending?)
  }

  function Do(s: State, step: Step): State {
    match step
    case Issue(charge) => s.(charges := s.charges + [charge])
    case Deliver(e) => s.(actors := s.actors + [WebhookStart(e)])
    case Fetch(id, pendingCandidate, expiredCandidate) =>
      if id < |s.charges| && Fetchable(s.charges[id], pendingCandidate, expiredCandidate)
      then s.(actors := s.actors + [JobWait(id, s.charges[id], pendingCandidate, expiredCandidate)])
      else s
    case Advance(a, input) =>
      if a < |s.actors| then
        var (s', actor) := Act(s, s.actors[a], input);
        s'.(actors := s'.actors[a := actor])
      else s
  }

  function Run(s: State, steps: seq<Step>): State {
    Runs.Fold(s, steps, Do)
  }

  // ---- invariant ----

  /** The columns that no writer touches. */
  predicate SameCharge(c: Charge, c': Charge) {
    c.txid == c'.txid && c.externalId == c'.externalId && c.amount == c'.amount
  }

  /** A snapshot is never ahead of the row, and with an equal version it is the row. */
  predicate Snapshot(charges: seq<Charge>, id: nat, seen: Charge) {
    && id < |charges|
    && SameCharge(seen, charges[id])
    && seen.version <= charges[id].version
    && (seen.version == charges[id].version ==> seen == charges[id])
  }

  predicate Concerns(charges: seq<Charge>, id: nat, e: Entry) { id < |charges| && charges[id].txid == Some(e.txid) }

  /** The life of a charge: anything unpaid may be paid; PENDING may be issued or fail; both may expire. */
  predicate LegalMove(from: ChargeStatus, to: ChargeStatus) {
    || (!from.Paid? && to.Paid?)
    || (from.Pending? && (to.Issued? || to.Failed? || to.Expired?))
    || (from.Issued? && to.Expired?)
  }

  predicate ActorOk(s: State, actor: Actor) {
    match actor
    case WebhookPay(e, id, seen) => Snapshot(s.charges, id, seen) && !seen.status.Paid? && Concerns(s.charges, id, e)
    case WebhookRefetch(e, id) => Concerns(s.charges, id, e)
    case WebhookEnsure(e, id) => Concerns(s.charges, id, e) && s.charges[id].status.Paid?
    case WebhookInsert(e, id) => Concerns(s.charges, id, e) && s.charges[id].status.Paid?
    case WebhookDone(e, Settled) => Exists(s.settlements, Text(e.endToEndId))
    case WebhookDone(e, AlreadySettled) => Exists(s.settlements, Text(e.endToEndId))
    case JobWait(id, seen, p, x) => Snapshot(s.charges, id, seen) && Fetchable(seen, p, x)
    case JobWrite(id, seen, target) => Snapshot(s.charges, id, seen) && LegalMove(seen.status, target)
    case JobSettle(id, seen) => id < |s.charges| && SameCharge(seen, s.charges[id])
    case JobInsert(id, seen) => id < |s.charges| && SameCharge(seen, s.charges[id])
    case _ => true
  }

  ghost predicate Inv(s: State) {
    && (forall a :: 0 <= a < |s.actors| ==> ActorOk(s, s.actors[a]))
    && (forall i, j :: 0 <= i < j < |s.settlements| ==> s.settlements[i].externalId != s.settlements[j].externalId)
  }

  /** How the store may change: every write to a charge bumps its version, PAID is final, settlements only grow. */
  ghost predicate Evolves(s: State, s': State) {
    && |s.charges| <= |s'.charges|
    && s.settlements <= s'.settlements
    && forall id :: 0 <= id < |s.charges| ==> RowEvolves(s.charges[id], s'.charges[id])
  }

  predicate RowEvolves(c: Charge, c': Charge) {
    && SameCharge(c, c')
    && c.version <= c'.version
    && (c.version == c'.version ==> c == c')
    && (c.status.Paid? ==> c'.status.Paid?)
  }

  lemma EvolvesTransitive(s0: State, s1: State, s2: State)
    requires Evolves(s0, s1) && Evolves(s1, s2)
    ensures Evolves(s0, s2)
  {
  }

  /** Growth of the store keeps every actor's assertion. */
  lemma ActorOkStable(s: State, s': State, actor: Actor)
    requires ActorOk(s, actor) && Evolves(s, s')
    ensures ActorOk(s', actor)
  {
    match actor
    case WebhookPay(_, id, seen) => assert RowEvolves(s.charges[id], s'.charges[id]);
    case WebhookRefetch(_, id) => assert RowEvolves(s.charges[id], s'.charges[id]);
    case WebhookEnsure(_, id) => assert RowEvolves(s.charges[id], s'.charges[id]);
    case WebhookInsert(_, id) => assert RowEvolves(s.charges[id], s'.charges[id]);
    case JobWait(id, seen, _, _) => assert RowEvolves(s.charges[id], s'.charges[id]);
    case JobWrite(id, seen, _) => assert RowEvolves(s.charges[id], s'.charges[id]);
    case JobSettle(id, seen) => assert RowEvolves(s.charges[id], s'.charges[id]);
    case JobInsert(id, seen) => assert RowEvolves(s.charges[id], s'.charges[id]);
    case WebhookDone(e, verdict) =>
      if verdict.Settled? || verdict.AlreadySettled? {
        var i :| 0 <= i < |s.settlements| && s.settlements[i].externalId == Text(e.endToEndId);
        assert s'.settlements[i] == s.settlements[i];
      }
    case _ =>
  }

  lemma InsertEvolves(settlements: seq<Settlement>, row: Settlement)
    ensures settlements <= Insert(settlements, row) && Exists(Insert(settlements, row), row.externalId)
  {
    var after := Insert(settlements, row);
    assert !Exists(settlements, row.externalId) ==> after[|settlements|] == row;
  }

  /** A landed versioned write replaces exactly the row that was read, so it cannot undo a payment. */
  lemma WriteEvolves(s: State, id: nat, seen: Charge, target: ChargeStatus)
    requires Snapshot(s.charges, id, seen) && !seen.status.Paid?
    ensures Evolves(s, s.(charges := CompareAndSet(s.charges, id, seen, target)))
  {
  }

  lemma ActSafe(s: State, actor: Actor, input: Input)
    requires Inv(s) && ActorOk(s, actor)
    ensures var (s', actor') := Act(s, actor, input);
            s'.actors == s.actors && Evolves(s, s') && ActorOk(s', actor')
    ensures forall i, j :: 0 <= i < j < |Act(s, actor, input).0.settlements| ==>
              Act(s, actor, input).0.settlements[i].externalId != Act(s, actor, input).0.settlements[j].externalId
  {
    match actor
    case WebhookPay(_, id, seen) => WriteEvolves(s, id, seen, Paid);
    case JobWrite(id, seen, target) => WriteEvolves(s, id, seen, target);
    case WebhookInsert(e, id) => InsertEvolves(s.settlements, Settlement(Text(e.endToEndId), id, e.amount, e.paidAt));
    case JobInsert(id, seen) => InsertEvolves(s.settlements, Settlement(JobKey(id, seen), id, seen.amount, input.now));
    case _ =>
  }

  lemma StepSafe(s: State, step: Step)
    requires Inv(s)
    ensures Inv(Do(s, step)) && Evolves(s, Do(s, step))
  {
    var s' := Do(s, step);
    if step.Advance? && step.a < |s.actors| {
      ActSafe(s, s.actors[step.a], step.input);
    }
    forall a | 0 <= a < |s'.actors|
      ensures ActorOk(s', s'.actors[a])
    {
      if a < |s.actors| && s'.actors[a] == s.actors[a] {
        ActorOkStable(s, s', s.actors[a]);
      }
    }
  }

  lemma {:induction false} RunSafe(s: State, steps: seq<Step>)
    requires Inv(s)
    ensures Inv(Run(s, steps)) && Evolves(s, Run(s, steps))
  {
    if steps != [] {
      var n := |steps| - 1;
      hide Do;
      RunSafe(s, steps[..n]);
      StepSafe(Run(s, steps[..n]), steps[n]);
      EvolvesTransitive(s, Run(s, steps[..n]), Run(s, steps));
    }
  }

  // ---- theorems over every interleaving ----

  /** Once paid, a charge is paid in every later state; its versions never go back. */
  lemma PaidForever(s: State, first: seq<Step>, second: seq<Step>, id: nat)
    requires Inv(s) && id < |Run(s, first).charges|
    ensures id < |Run(s, first + second).charges|
    ensures RowEvolves(Run(s, first).charges[id], Run(s, first + second).charges[id])
  {
    RunSafe(s, first);
    RunSafe(Run(s, first), second);
    Runs.FoldConcat(s, first, second, Do);
  }

  /** Who writes to a charge with this step. */
  function Writes(s: State, step: Step): Option<(nat, Charge, ChargeStatus)> {
    if step.Advance? && step.a < |s.actors| then
      match s.actors[step.a]
      case WebhookPay(_, id, seen) => Some((id, seen, Paid))
      case JobWrite(id, seen, target) => Some((id, seen, target))
      case _ => None
    else None
  }

  /**
   No stale write lands: in any reachable state, a step that changes a row is a versioned write whose snapshot
   is that very row, it makes a legal move, and it bumps the version by one.
   */
  lemma NoStaleWrite(s: State, steps: seq<Step>, step: Step, id: nat)
    requires Inv(s) && id < |Run(s, steps).charges|
    ensures var s0 := Run(s, steps);
            var s1 := Do(s0, step);
            && id < |s1.charges|
            && (s1.charges[id] != s0.charges[id] ==>
                  && Writes(s0, step).Some?
                  && Writes(s0, step).value.0 == id
                  && Writes(s0, step).value.1 == s0.charges[id]
                  && LegalMove(s0.charges[id].status, s1.charges[id].status)
                  && s1.charges[id] == s0.charges[id].(status := Writes(s0, step).value.2, version := s0.charges[id].version + 1))
  {
    RunSafe(s, steps);
    StepSafe(Run(s, steps), step);
    var s0 := Run(s, steps);
    if step.Advance? && step.a < |s0.actors| {
      assert ActorOk(s0, s0.actors[step.a]);
    }
  }

  /** A write that lands at the end of `second` on what was read before it saw no write in between. */
  lemma NothingBetween(s: State, first: seq<Step>, second: seq<Step>, k: nat, id: nat)
    requires Inv(s) && k <= |second| && id < |Run(s, first).charges|
    requires id < |Run(s, first + second).charges|
    requires Run(s, first).charges[id].version == Run(s, first + second).charges[id].version
    ensures id < |Run(s, first + second[..k]).charges|
    ensures Run(s, first + second[..k]).charges[id] == Run(s, first).charges[id]
  {
    hide Run;
    PaidForever(s, first, second[..k], id);
    PaidForever(s, first + second[..k], second[k..], id);
    assert first + second[..k] + second[k..] == first + second;
  }

  /** One row per external id, and a webhook that finished as settled has its row, in every reachable state. */
  lemma SettledOnce(s: State, steps: seq<Step>, i: nat, j: nat)
    requires Inv(s) && i < |Run(s, steps).settlements| && j < |Run(s, steps).settlements|
    requires Run(s, steps).settlements[i].externalId == Run(s, steps).settlements[j].externalId
    ensures i == j
  {
    RunSafe(s, steps);
  }

  lemma SettledHasRow(s: State, steps: seq<Step>, a: nat, later: seq<Step>)
    requires Inv(s) && a < |Run(s, steps).actors|
    requires var actor := Run(s, steps).actors[a];
             actor.WebhookDone? && (actor.verdict.Settled? || actor.verdict.AlreadySettled?)
    ensures Exists(Run(s, steps + later).settlements, Text(Run(s, steps).actors[a].e.endToEndId))
  {
    RunSafe(s, steps);
    var s1 := Run(s, steps);
    RunSafe(s1, later);
    Runs.FoldConcat(s, steps, later, Do);
    assert ActorOk(s1, s1.actors[a]);
    ActorOkStable(s1, Run(s1, later), s1.actors[a]);
  }

  /**
   Where a settlement row comes from: a delivered entry for a charge with its txid, now PAID, carrying the entry's
   amount and date; or the job, carrying the charge's own amount and id.
   */
  ghost predicate Sourced(s: State, r: Settlement) {
    && r.charge < |s.charges|
    && ((exists a :: 0 <= a < |s.actors| && FromEntry(s, s.actors[a], r))
        || (r.amount == s.charges[r.charge].amount && r.externalId == JobKey(r.charge, s.charges[r.charge])))
  }

  predicate FromEntry(s: State, actor: Actor, r: Settlement) {
    && actor.WebhookDone? && actor.verdict.Settled?
    && r == Settlement(Text(actor.e.endToEndId), r.charge, actor.e.amount, actor.e.paidAt)
    && Concerns(s.charges, r.charge, actor.e) && s.charges[r.charge].status.Paid?
  }

  lemma SourcedStable(s: State, step: Step, r: Settlement)
    requires Inv(s) && Sourced(s, r)
    ensures Sourced(Do(s, step), r)
  {
    var s' := Do(s, step);
    StepSafe(s, step);
    assert RowEvolves(s.charges[r.charge], s'.charges[r.charge]);
    if a :| 0 <= a < |s.actors| && FromEntry(s, s.actors[a], r) {
      assert s'.actors[a] == s.actors[a];
      assert FromEntry(s', s'.actors[a], r);
    }
  }

  lemma NewRowSourced(s: State, step: Step)
    requires Inv(s) && |Do(s, step).settlements| > |s.settlements|
    ensures |Do(s, step).settlements| == |s.settlements| + 1
    ensures Sourced(Do(s, step), Do(s, step).settlements[|s.settlements|])
  {
    var s' := Do(s, step);
    assert ActorOk(s, s.actors[step.a]);
    assert s.actors[step.a].WebhookInsert? ==> FromEntry(s', s'.actors[step.a], s'.settlements[|s.settlements|]);
  }

  /** Every settlement added in a run is accounted for by a delivery or by the job. */
  lemma {:induction false} RowsSourced(s: State, steps: seq<Step>, i: nat)
    requires Inv(s) && |s.settlements| <= i < |Run(s, steps).settlements|
    ensures Sourced(Run(s, steps), Run(s, steps).settlements[i])
  {
    if steps != [] {
      hide Do;
      var n := |steps| - 1;
      var mid := Run(s, steps[..n]);
      RunSafe(s, steps[..n]);
      StepSafe(mid, steps[n]);
      if i < |mid.settlements| {
        RowsSourced(s, steps[..n], i);
        SourcedStable(mid, steps[n], mid.settlements[i]);
      } else {
        NewRowSourced(mid, steps[n]);
      }
    }
  }

  // ---- when a payment is dropped ----

  /** A job write that takes charge `id` somewhere other than PAID, and lands. */
  predicate JobMoves(s: State, step: Step, id: nat) {
    && step.Advance? && step.a < |s.actors| && s.actors[step.a].JobWrite?
    && s.actors[step.a].id == id && !s.actors[step.a].target.Paid?
    && id < |s.charges| && s.charges[id].version == s.actors[step.a].seen.version
  }

  /** A write of PAID to charge `id` by an actor other than `a` that lands on an unpaid row. */
  predicate OtherPays(s: State, step: Step, a: nat, id: nat) {
    && step.Advance? && step.a < |s.actors| && step.a != a && Writes(s, step).Some?
    && Writes(s, step).value.0 == id && Writes(s, step).value.2.Paid?
    && id < |s.charges| && !s.charges[id].status.Paid? && s.charges[id].version == Writes(s, step).value.1.version
  }

  /** Some step of the run is a job write that takes the charge elsewhere. */
  ghost predicate Taken(s: State, steps: seq<Step>, id: nat) {
    exists k :: 0 <= k < |steps| && JobMoves(Run(s, steps[..k]), steps[k], id)
  }

  /** Some step of the run is another actor's payment of the charge while actor `a` is under way. */
  ghost predicate Rescued(s: State, steps: seq<Step>, a: nat, id: nat) {
    exists k :: 0 <= k < |steps| && Busy(Run(s, steps[..k]), a) && OtherPays(Run(s, steps[..k]), steps[k], a, id)
  }

  predicate Busy(s: State, a: nat) { a < |s.actors| && !s.actors[a].WebhookDone? }

  lemma TakenSnoc(s: State, steps: seq<Step>, n: nat, id: nat)
    requires |steps| == n + 1
    ensures Taken(s, steps, id) <==> Taken(s, steps[..n], id) || JobMoves(Run(s, steps[..n]), steps[n], id)
  {
    hide Run, JobMoves;
    assert forall k :: 0 <= k < n ==> steps[..n][..k] == steps[..k] && steps[..n][k] == steps[k];
  }

  lemma RescuedSnoc(s: State, steps: seq<Step>, n: nat, a: nat, id: nat)
    requires |steps| == n + 1
    ensures Rescued(s, steps, a, id) <==>
            Rescued(s, steps[..n], a, id) || (Busy(Run(s, steps[..n]), a) && OtherPays(Run(s, steps[..n]), steps[n], a, id))
  {
    hide Run, OtherPays, Busy;
    assert forall k :: 0 <= k < n ==> steps[..n][..k] == steps[..k] && steps[..n][k] == steps[k];
  }

  /** Nothing has come between this actor and the row it read; or it has paid the row itself. */
  predicate OnCourse(s: State, actor: Actor, id: nat) {
    && id < |s.charges|
    && match actor
       case WebhookPay(_, i, seen) => i == id && s.charges[id] == seen
       case WebhookEnsure(_, i) => i == id && s.charges[id].status.Paid?
       case WebhookInsert(_, i) => i == id && s.charges[id].status.Paid?
       case WebhookDone(_, verdict) => verdict.Settled? && s.charges[id].status.Paid?
       case JobWrite(i, seen, target) => i == id && s.charges[id] == seen && target.Paid?
       case JobSettle(i, _) => i == id && s.charges[id].status.Paid?
       case JobInsert(i, _) => i == id && s.charges[id].status.Paid?
       case JobDone => s.charges[id].status.Paid?
       case _ => false
  }

  /** The row has moved on to a status other than PAID, so this actor's versioned write misses or has missed. */
  predicate Losing(s: State, actor: Actor, id: nat) {
    && id < |s.charges|
    && match actor
       case WebhookPay(_, i, seen) => i == id && seen.version < s.charges[id].version && !s.charges[id].status.Paid?
       case WebhookRefetch(_, i) => i == id && !s.charges[id].status.Paid?
       case WebhookDone(_, verdict) => verdict.LostLock?
       case JobWrite(i, seen, target) => i == id && seen.version < s.charges[id].version && !s.charges[id].status.Paid? && target.Paid?
       case JobSettle(i, _) => i == id && !s.charges[id].status.Paid?
       case JobInsert(i, _) => i == id && !s.charges[id].status.Paid?
       case JobDone => !s.charges[id].status.Paid?
       case _ => false
  }

  /** Somebody else has paid the row. */
  predicate Secured(s: State, actor: Actor, id: nat) {
    && id < |s.charges| && s.charges[id].status.Paid?
    && match actor
       case WebhookPay(_, i, _) => i == id
       case WebhookRefetch(_, i) => i == id
       case WebhookEnsure(_, i) => i == id
       case WebhookInsert(_, i) => i == id
       case WebhookDone(_, verdict) => verdict.Settled?
       case JobWrite(i, _, target) => i == id && target.Paid?
       case JobSettle(i, _) => i == id
       case JobInsert(i, _) => i == id
       case JobDone => true
       case _ => false
  }

  ghost predicate Fate(s: State, actor: Actor, id: nat, taken: bool, rescued: bool) {
    if rescued then Secured(s, actor, id) else if taken then Losing(s, actor, id) else OnCourse(s, actor, id)
  }

  /** The actor's own step moves it along within its fate. */
  lemma OwnStep(s: State, a: nat, input: Input, id: nat)
    requires a < |s.actors| && ActorOk(s, s.actors[a])
    ensures var s' := Do(s, Advance(a, input));
            && a < |s'.actors|
            && (OnCourse(s, s.actors[a], id) ==> OnCourse(s', s'.actors[a], id))
            && (Losing(s, s.actors[a], id) ==> Losing(s', s'.actors[a], id))
            && (Secured(s, s.actors[a], id) ==> Secured(s', s'.actors[a], id))
            && (OnCourse(s, s.actors[a], id) || Losing(s, s.actors[a], id) || Secured(s, s.actors[a], id)
                ==> !JobMoves(s, Advance(a, input), id))
  {
  }

  /** Anybody else's step changes the row of the charge only by a job's move or by a payment. */
  lemma OthersStep(s: State, step: Step, a: nat, id: nat)
    requires Inv(s) && a < |s.actors| && id < |s.charges| && (step.Advance? ==> step.a != a)
    ensures var s' := Do(s, step);
            && a < |s'.actors| && s'.actors[a] == s.actors[a] && id < |s'.charges|
            && (JobMoves(s, step, id) ==> !s.charges[id].status.Paid? && !s'.charges[id].status.Paid?)
            && (OtherPays(s, step, a, id) ==> s'.charges[id].status.Paid?)
            && !(JobMoves(s, step, id) && OtherPays(s, step, a, id))
            && (if JobMoves(s, step, id) || OtherPays(s, step, a, id)
                then s'.charges[id].version == s.charges[id].version + 1
                else s'.charges[id] == s.charges[id])
  {
    if step.Advance? && step.a < |s.actors| {
      assert ActorOk(s, s.actors[step.a]);
    }
  }

  lemma FateStep(s: State, step: Step, a: nat, id: nat, taken: bool, rescued: bool)
    requires Inv(s) && a < |s.actors| && Fate(s, s.actors[a], id, taken, rescued)
    ensures var s' := Do(s, step);
            && a < |s'.actors|
            && Fate(s', s'.actors[a], id, taken || JobMoves(s, step, id), rescued || (Busy(s, a) && OtherPays(s, step, a, id)))
  {
    if step.Advance? && step.a == a {
      OwnStep(s, a, step.input, id);
      hide Do, JobMoves;
    } else {
      OthersStep(s, step, a, id);
      assert ActorOk(s, s.actors[a]);
      hide Do, JobMoves, OtherPays;
    }
  }

  /** In every run, what has happened to the charge so far decides where the actor stands. */
  lemma {:induction false} FateOfActor(s: State, a: nat, id: nat, later: seq<Step>)
    requires Inv(s) && a < |s.actors| && OnCourse(s, s.actors[a], id)
    ensures a < |Run(s, later).actors|
    ensures Fate(Run(s, later), Run(s, later).actors[a], id, Taken(s, later, id), Rescued(s, later, a, id))
  {
    if later != [] {
      hide Do, Fate, JobMoves, OtherPays;
      var n := |later| - 1;
      FateOfActor(s, a, id, later[..n]);
      RunSafe(s, later[..n]);
      TakenSnoc(s, later, n, id);
      RescuedSnoc(s, later, n, a, id);
      FateStep(Run(s, later[..n]), later[n], a, id, Taken(s, later[..n], id), Rescued(s, later[..n], a, id));
    }
  }

  /**
   When a payment is dropped, over every run. A webhook that has read an unpaid charge ends as settled or with a lost
   lock, and it ends with a lost lock exactly when the job took the charge elsewhere and nobody else paid it before the
   entry was done. Its settlement is then there if it settled.
   */
  lemma LostExactly(s: State, a: nat, id: nat, later: seq<Step>)
    requires Inv(s) && a < |s.actors| && s.actors[a].WebhookPay? && s.actors[a].id == id
    requires id < |s.charges| && s.charges[id] == s.actors[a].seen
    requires a < |Run(s, later).actors| && Run(s, later).actors[a].WebhookDone?
    ensures var done := Run(s, later).actors[a];
            && (done.verdict.LostLock? <==> Taken(s, later, id) && !Rescued(s, later, a, id))
            && (done.verdict.Settled? <==> !Taken(s, later, id) || Rescued(s, later, a, id))
            && (done.verdict.Settled? ==> Exists(Run(s, later).settlements, Text(done.e.endToEndId)))
  {
    hide Run, Taken, Rescued, Do;
    FateOfActor(s, a, id, later);
    RunSafe(s, later);
    assert ActorOk(Run(s, later), Run(s, later).actors[a]);
  }

  /** The job has recorded what it believes to be a payment of the charge. */
  predicate JobSettled(s: State, actor: Actor, id: nat, key: PaymentId) {
    match actor
    case JobWrite(i, seen, target) => i == id && target.Paid? && JobKey(id, seen) == key
    case JobSettle(i, seen) => i == id && JobKey(id, seen) == key
    case JobInsert(i, seen) => i == id && JobKey(id, seen) == key
    case JobDone => ChargeSettled(s.settlements, id) || Exists(s.settlements, key)
    case _ => false
  }

  lemma {:induction false} JobSettles(s: State, a: nat, id: nat, key: PaymentId, later: seq<Step>)
    requires Inv(s) && a < |s.actors| && JobSettled(s, s.actors[a], id, key)
    ensures a < |Run(s, later).actors| && JobSettled(Run(s, later), Run(s, later).actors[a], id, key)
  {
    if later != [] {
      hide Do;
      var n := |later| - 1;
      JobSettles(s, a, id, key, later[..n]);
      RunSafe(s, later[..n]);
      JobSettledStep(Run(s, later[..n]), later[n], a, id, key);
    }
  }

  lemma JobSettledStep(s: State, step: Step, a: nat, id: nat, key: PaymentId)
    requires Inv(s) && a < |s.actors| && JobSettled(s, s.actors[a], id, key)
    ensures a < |Do(s, step).actors| && JobSettled(Do(s, step), Do(s, step).actors[a], id, key)
  {
    var s' := Do(s, step);
    StepSafe(s, step);
    assert forall i :: 0 <= i < |s.settlements| ==> s'.settlements[i] == s.settlements[i];
    if step.Advance? && step.a == a && s.actors[a].JobInsert? {
      InsertEvolves(s.settlements, Settlement(key, id, s.actors[a].seen.amount, step.input.now));
    }
  }

  /**
   The job settles even when its own versioned write missed. A job that has decided to pay a charge ends with a
   CONFIRMED settlement for the charge or under the charge's key, and that settlement stands on a charge that is
   not PAID exactly when another cycle took the charge elsewhere and nobody else has paid it.
   */
  lemma SettledUnpaidExactly(s: State, a: nat, id: nat, later: seq<Step>)
    requires Inv(s) && a < |s.actors| && s.actors[a].JobWrite? && s.actors[a].id == id && s.actors[a].target.Paid?
    requires id < |s.charges| && s.charges[id] == s.actors[a].seen
    requires a < |Run(s, later).actors| && Run(s, later).actors[a].JobDone?
    ensures var s' := Run(s, later);
            && (ChargeSettled(s'.settlements, id) || Exists(s'.settlements, JobKey(id, s.actors[a].seen)))
            && id < |s'.charges|
            && (!s'.charges[id].status.Paid? <==> Taken(s, later, id) && !Rescued(s, later, a, id))
  {
    JobSettles(s, a, id, JobKey(id, s.actors[a].seen), later);
    FateOfActor(s, a, id, later);
  }

  // ---- what the job decides ----

  /** The answer a job needs to go on to write this status: PAID always wins, whatever kind of candidate the charge is. */
  predicate Calls(reply: Option<ChargeStatus>, seen: ChargeStatus, pendingCandidate: bool, expiredCandidate: bool, target: ChargeStatus) {
    reply.Some? &&
    match target
    case Paid => reply.value.Paid?
    case Issued => reply.value.Issued? && pendingCandidate && !expiredCandidate
    case Failed => reply.value.Failed? && pendingCandidate && !expiredCandidate
    case Expired => expiredCandidate && !reply.value.Paid? && (reply.value.Issued? || reply.value == seen)
    case _ => false
  }

  /** A waiting job answered by the provider goes on to write exactly the status the answer calls for, or is done. */
  lemma JobDecidesExactly(s: State, a: nat, input: Input)
    requires a < |s.actors| && s.actors[a].JobWait?
    ensures var job, s' := s.actors[a], Do(s, Advance(a, input));
            && s' == s.(actors := s'.actors) && |s'.actors| == |s.actors|
            && (forall b :: 0 <= b < |s.actors| && b != a ==> s'.actors[b] == s.actors[b])
            && (forall target :: s'.actors[a] == JobWrite(job.id, job.seen, target) <==>
                  Calls(input.reply, job.seen.status, job.pendingCandidate, job.expiredCandidate, target))
            && (s'.actors[a].JobDone? || (s'.actors[a].JobWrite? && s'.actors[a].id == job.id && s'.actors[a].seen == job.seen))
  {
  }

  /** The step gives actor a the answer that calls for this write. */
  predicate CalledBy(step: Step, a: nat, job: Actor, target: ChargeStatus)
    requires job.JobWait?
  {
    step.Advance? && step.a == a && Calls(step.input.reply, job.seen.status, job.pendingCandidate, job.expiredCandidate, target)
  }

  /** In every run: what a job is about to write was called for by the answer it got on the way. */
  lemma {:induction false} WritesAsCalled(s: State, a: nat, later: seq<Step>)
    requires a < |s.actors| && s.actors[a].JobWait?
    ensures a < |Run(s, later).actors|
    ensures var job, now := s.actors[a], Run(s, later).actors[a];
            && (now.JobWait? ==> now == job)
            && (now.JobWrite? ==> exists k :: 0 <= k < |later| && CalledBy(later[k], a, job, now.target))
  {
    if later != [] {
      var n := |later| - 1;
      WritesAsCalled(s, a, later[..n]);
      var mid := Run(s, later[..n]);
      if mid.actors[a].JobWait? && later[n].Advance? && later[n].a == a {
        JobDecidesExactly(mid, a, later[n].input);
      }
      hide Decide;
      assert forall k :: 0 <= k < n ==> later[..n][k] == later[k];
    }
  }

  /**
   Late payment has precedence: a job answered PAID, whatever the charge's date, ends with a settlement for the charge or
   under its key, and with the charge PAID unless another cycle moved it meanwhile and nobody else has paid it.
   */
  lemma PaidReplySettles(s: State, a: nat, id: nat, input: Input, later: seq<Step>)
    requires Inv(s) && a < |s.actors| && s.actors[a].JobWait? && s.actors[a].id == id
    requires id < |s.charges| && s.charges[id] == s.actors[a].seen && input.reply == Some(ChargeStatus.Paid)
    requires var s1 := Do(s, Advance(a, input)); a < |Run(s1, later).actors| && Run(s1, later).actors[a].JobDone?
    ensures var s1 := Do(s, Advance(a, input));
            var s' := Run(s1, later);
            && (ChargeSettled(s'.settlements, id) || Exists(s'.settlements, JobKey(id, s.actors[a].seen)))
            && id < |s'.charges|
            && (!s'.charges[id].status.Paid? <==> Taken(s1, later, id) && !Rescued(s1, later, a, id))
  {
    JobDecidesExactly(s, a, input);
    StepSafe(s, Advance(a, input));
    assert Calls(input.reply, s.actors[a].seen.status, s.actors[a].pendingCandidate, s.actors[a].expiredCandidate, ChargeStatus.Paid);
    hide Do, Run;
    SettledUnpaidExactly(Do(s, Advance(a, input)), a, id, later);
  }

  /** How a job's write ends: it lands exactly on an unchanged row, and only a job that wrote PAID settles. */
  lemma JobWritesExactly(s: State, a: nat, input: Input)
    requires a < |s.actors| && s.actors[a].JobWrite? && s.actors[a].id < |s.charges|
    ensures var job, s' := s.actors[a], Do(s, Advance(a, input));
            && s'.settlements == s.settlements && |s'.charges| == |s.charges| && |s'.actors| == |s.actors|
            && (forall i :: 0 <= i < |s.charges| && i != job.id ==> s'.charges[i] == s.charges[i])
            && (s.charges[job.id].version != job.seen.version ==> s'.charges == s.charges)
            && (s.charges[job.id].version == job.seen.version ==>
                  && s'.charges[job.id].status == job.target && s'.charges[job.id].version == s.charges[job.id].version + 1
                  && SameCharge(s.charges[job.id], s'.charges[job.id]))
            && s'.actors[a] == if job.target.Paid? then JobSettle(job.id, job.seen) else JobDone
  {
  }

  // ---- what a delivery meets ----

  /** A delivered entry that lacks an id is skipped, one whose settlement exists is done, and any other looks for its charge. */
  lemma EntryStartsExactly(s: State, a: nat, input: Input)
    requires a < |s.actors| && s.actors[a].WebhookStart?
    ensures var e, s' := s.actors[a].e, Do(s, Advance(a, input));
            && s'.charges == s.charges && s'.settlements == s.settlements && |s'.actors| == |s.actors|
            && (s'.actors[a] == WebhookDone(e, Skipped) <==> e.txid == "" || e.endToEndId == "")
            && (s'.actors[a] == WebhookDone(e, AlreadySettled) <==>
                  e.txid != "" && e.endToEndId != "" && exists i :: 0 <= i < |s.settlements| && s.settlements[i].externalId == Text(e.endToEndId))
            && (s'.actors[a].WebhookDone? || s'.actors[a] == WebhookFind(e))
  {
  }

  /** An entry looking for its charge is done if no charge has its txid; else it settles a paid one and pays an unpaid one. */
  lemma EntryFindsExactly(s: State, a: nat, input: Input)
    requires a < |s.actors| && s.actors[a].WebhookFind?
    requires (exists i :: 0 <= i < |s.charges| && s.charges[i].txid == Some(s.actors[a].e.txid)) ==>
               input.found < |s.charges| && s.charges[input.found].txid == Some(s.actors[a].e.txid)
    ensures var e, s' := s.actors[a].e, Do(s, Advance(a, input));
            && s'.charges == s.charges && s'.settlements == s.settlements && |s'.actors| == |s.actors|
            && (s'.actors[a] == WebhookDone(e, NoCharge) <==> forall i :: 0 <= i < |s.charges| ==> s.charges[i].txid != Some(e.txid))
            && (s'.actors[a] == WebhookDone(e, NoCharge)
                || s'.actors[a] == (if s.charges[input.found].status.Paid? then WebhookEnsure(e, input.found)
                                    else WebhookPay(e, input.found, s.charges[input.found])))
  {
  }

  /** A job fetches exactly the PENDING and ISSUED charges it has a reason for, and keeps the row it read. */
  lemma FetchesExactly(s: State, id: nat, pendingCandidate: bool, expiredCandidate: bool)
    ensures var s' := Do(s, Fetch(id, pendingCandidate, expiredCandidate));
            if id < |s.charges|
               && ((s.charges[id].status.Pending? && (pendingCandidate || expiredCandidate))
                   || (s.charges[id].status.Issued? && expiredCandidate && !pendingCandidate))
            then s' == s.(actors := s.actors + [JobWait(id, s.charges[id], pendingCandidate, expiredCandidate)])
            else s' == s
  {
  }

  /** A settling job leaves a charge that has a settlement alone; otherwise it inserts one row, if the key is free. */
  lemma JobSettlesExactly(s: State, a: nat, input: Input)
    requires a < |s.actors| && (s.actors[a].JobSettle? || s.actors[a].JobInsert?)
    ensures var job, s' := s.actors[a], Do(s, Advance(a, input));
            && s'.charges == s.charges && |s'.actors| == |s.actors|
            && (job.JobSettle? ==>
                  && s'.settlements == s.settlements
                  && (s'.actors[a].JobDone? <==> exists i :: 0 <= i < |s.settlements| && s.settlements[i].charge == job.id)
                  && (s'.actors[a].JobDone? || s'.actors[a] == JobInsert(job.id, job.seen)))
            && (job.JobInsert? ==>
                  && s'.actors[a].JobDone?
                  && var key := if job.seen.externalId.Some? then Text(job.seen.externalId.value)
                                else if job.seen.txid.Some? then Text(job.seen.txid.value) else OwnId(job.id);
                     s'.settlements == if exists i :: 0 <= i < |s.settlements| && s.settlements[i].externalId == key
                                       then s.settlements
                                       else s.settlements + [Settlement(key, job.id, job.seen.amount, input.now)])
  {
  }

  /** A paid entry inserts one row with its own id, amount and date, if the id is free. */
  lemma EntrySettlesExactly(s: State, a: nat, input: Input)
    requires a < |s.actors| && s.actors[a].WebhookInsert?
    ensures var e, id, s' := s.actors[a].e, s.actors[a].id, Do(s, Advance(a, input));
            && s'.charges == s.charges && |s'.actors| == |s.actors| && s'.actors[a] == WebhookDone(e, Settled)
            && s'.settlements == if exists i :: 0 <= i < |s.settlements| && s.settlements[i].externalId == Text(e.endToEndId)
                                 then s.settlements
                                 else s.settlements + [Settlement(Text(e.endToEndId), id, e.amount, e.paidAt)]
  {
  }

  /** Such a schedule: two overlapping cycles read a PENDING charge, one issues it, the other settles it as paid. */
  lemma UnpaidSettlement(c: Charge, now: int)
    requires c.status.Pending?
    ensures var issued, paid := Input(0, Some(Issued), now), Input(0, Some(ChargeStatus.Paid), now);
            var read := Do(Do(State([c], [], []), Fetch(0, true, false)), Fetch(0, true, false));
            var decided := Do(Do(read, Advance(0, issued)), Advance(1, paid));
            var written := Do(Do(decided, Advance(0, issued)), Advance(1, paid));
            Do(Do(written, Advance(1, paid)), Advance(1, paid)) ==
            State([c.(status := Issued, version := c.version + 1)], [Settlement(JobKey(0, c), 0, c.amount, now)], [JobDone, JobDone])
  {
    var issued, paid := Input(0, Some(Issued), now), Input(0, Some(ChargeStatus.Paid), now);
    var read := Do(Do(State([c], [], []), Fetch(0, true, false)), Fetch(0, true, false));
    assert read.actors == [JobWait(0, c, true, false), JobWait(0, c, true, false)];
    var decided := Do(Do(read, Advance(0, issued)), Advance(1, paid));
    assert decided.actors == [JobWrite(0, c, Issued), JobWrite(0, c, ChargeStatus.Paid)];
    var written := Do(Do(decided, Advance(0, issued)), Advance(1, paid));
    assert written.actors == [JobDone, JobSettle(0, c)];
    assert Do(written, Advance(1, paid)).actors == [JobDone, JobInsert(0, c)];
  }

  /** The race exists: a PENDING charge, one delivery and one job fetch end in a dropped payment. */
  lemma DroppedPayment(c: Charge, e: Entry)
    requires c.status.Pending? && c.txid == Some(e.txid) && e.txid != "" && e.endToEndId != ""
    ensures var input := Input(0, Some(Issued), 0);
            var read := Do(Do(Do(Do(State([c], [], []), Deliver(e)), Fetch(0, true, false)), Advance(0, input)), Advance(0, input));
            var moved := Do(Do(read, Advance(1, input)), Advance(1, input));
            Do(Do(moved, Advance(0, input)), Advance(0, input)) ==
            State([c.(status := Issued, version := c.version + 1)], [], [WebhookDone(e, LostLock), JobDone])
  {
    var input := Input(0, Some(Issued), 0);
    var s2 := Do(Do(State([c], [], []), Deliver(e)), Fetch(0, true, false));
    assert s2.charges[0].txid == Some(e.txid);
    var read := Do(Do(s2, Advance(0, input)), Advance(0, input));
    assert read.actors == [WebhookPay(e, 0, c), JobWait(0, c, true, false)];
    var s5 := Do(read, Advance(1, input));
    assert s5.actors == [WebhookPay(e, 0, c), JobWrite(0, c, Issued)];
    var moved := Do(s5, Advance(1, input));
    assert moved.actors == [WebhookPay(e, 0, c), JobDone];
    assert Do(moved, Advance(0, input)).actors == [WebhookRefetch(e, 0), JobDone];
  }
}
