/**
 Debt removals at Serasa without a confirming webhook: reconciliation passes claim stale items and queue a resend, the
 worker sends one request at a time and records the reply, and a user may cancel. A pass works on the snapshot it took
 when it started, and any number of passes may be open. Times are minutes.
 */
module SerasaRemoval {
  import opened Wrappers
  import Runs

  const INITIAL_RETRY_MINUTES: nat := 30
  const MAX_ATTEMPTS: nat := 5

  datatype Cause = Timeout | Rejected | ProcessingError | Cancelled

  datatype ItemStatus = Pending | Waiting | Failed(cause: Cause)

  /** The contract's provider status while its removal is under way. */
  datatype Serasa = Removing | SerasaFailed | Removed

  /**
   An operation item, its contract's status, the jobs queued for it, whether a request is out, and the history of the
   requests sent and the answers received.
   */
  datatype Item = Item(status: ItemStatus, attempts: nat, lastAttemptAt: Option<int>, contract: Serasa,
                       jobs: nat, inFlight: bool, sends: seq<int>, answers: seq<Reply>)

  /** What a pass read about one candidate. */
  datatype Candidate = Candidate(item: nat, attempts: nat, lastAttemptAt: Option<int>)

  /** An open pass, and a finished one once nothing is left to do. */
  datatype Pass = Pass(now: int, todo: seq<Candidate>)

  datatype State = State(clock: int, items: seq<Item>, passes: seq<Pass>)

  datatype Reply = Accepted | Refused | Exception

  datatype Step =
    | Create
    | Tick(minutes: nat)
    | PassStart(chosen: seq<nat>)
    | PassHandle(pass: nat)
    | Send(item: nat, own: bool)
    | Receive(item: nat, reply: Reply)
    | Sweep(item: nat)
    | Cancel(item: nat)
    | Drop(item: nat)

  function Pow2(n: nat): nat { if n == 0 then 1 else 2 * Pow2(n - 1) }

  /** The backoff after `attempts` requests: 30, 60, 120, 240, then 480 minutes. */
  function Delay(attempts: nat): nat {
    var p := Pow2(if attempts >= 1 then attempts - 1 else 0);
    INITIAL_RETRY_MINUTES * if p < 16 then p else 16
  }

  /** The same in plain minutes. */
  function Backoff(attempts: nat): nat {
    if attempts <= 1 then 30 else if attempts == 2 then 60 else if attempts == 3 then 120 else if attempts == 4 then 240 else 480
  }

  predicate IsCandidate(it: Item) { it.status.Waiting? && it.contract.Removing? }

  predicate Early(lastAttemptAt: Option<int>, attempts: nat, now: int) {
    lastAttemptAt.Some? && now - lastAttemptAt.value < Delay(attempts)
  }

  /** The body of the pass loop for one candidate: the tests read the snapshot, the claim reads the status of the row. */
  function Handle(it: Item, c: Candidate, now: int): Item {
    if Early(c.lastAttemptAt, c.attempts, now) then it
    else if c.attempts >= MAX_ATTEMPTS then it.(status := Failed(Timeout), contract := SerasaFailed)
    else if !it.status.Waiting? then it
    else it.(status := Pending, jobs := it.jobs + 1)
  }

  /** The worker picks up a queued job, the item's own or another one of its batch; only a pending item is sent. */
  function SendItem(it: Item, own: bool, clock: int): Item {
    if own && it.jobs == 0 then it
    else
      var taken := if own then it.(jobs := it.jobs - 1) else it;
      if !it.status.Pending? || it.inFlight then taken else taken.(inFlight := true, sends := it.sends + [clock])
  }

  /** The provider's answer is written whatever the item has become meanwhile; the catch block only fails a pending item. */
  function ReceiveItem(it: Item, reply: Reply, clock: int): Item {
    if !it.inFlight then it else
      var idle := it.(inFlight := false, answers := it.answers + [reply]);
      var done := idle.(attempts := it.attempts + 1, lastAttemptAt := Some(clock));
      match reply
      case Accepted => done.(status := Waiting, contract := Removing)
      case Refused => done.(status := Failed(Rejected), contract := SerasaFailed)
      case Exception => if it.status.Pending? then done.(status := Failed(ProcessingError)) else idle
  }

  /** The request of another item of the batch threw: the catch block fails this one too, though it was never sent. */
  function SweepItem(it: Item, clock: int): Item {
    if it.status.Pending? && !it.inFlight
    then it.(status := Failed(ProcessingError), attempts := it.attempts + 1, lastAttemptAt := Some(clock))
    else it
  }

  /**
   Cancelling the operation fails every pending item. The operation's status is read before the transaction, and a
   claim of any item sets it back to PENDING, so a request of the cancelled item may be out.
   */
  function CancelItem(it: Item): Item {
    if it.status.Pending? then it.(status := Failed(Cancelled)) else it
  }

  /**
   The worker drops the jobs of a cancelled operation. A cancellation writes the items first and the operation second; an
   item claimed between the two writes stays pending and loses its job.
   */
  function DropItem(it: Item): Item { if it.jobs == 0 then it else it.(jobs := it.jobs - 1) }

  function Update(s: State, i: nat, it: Item): State
    requires i < |s.items|
  {
    s.(items := s.items[i := it])
  }

  predicate Choosable(s: State, chosen: seq<nat>) {
    && (forall k :: 0 <= k < |chosen| ==> chosen[k] < |s.items| && IsCandidate(s.items[chosen[k]]))
    && (forall k, l :: 0 <= k < l < |chosen| ==> chosen[k] != chosen[l])
  }

  function Snapshot(s: State, chosen: seq<nat>): (r: seq<Candidate>)
    requires Choosable(s, chosen)
    ensures |r| == |chosen|
    ensures forall k :: 0 <= k < |r| ==>
              r[k] == Candidate(chosen[k], s.items[chosen[k]].attempts, s.items[chosen[k]].lastAttemptAt)
  {
    seq(|chosen|, k requires 0 <= k < |chosen| =>
      Candidate(chosen[k], s.items[chosen[k]].attempts, s.items[chosen[k]].lastAttemptAt))
  }

  predicate Open(s: State, p: nat) { p < |s.passes| && s.passes[p].todo != [] }

  function Do(s: State, step: Step): State {
    match step
    case Create => s.(items := s.items + [Item(Pending, 0, None, Removing, 1, false, [], [])])
    case Tick(minutes) => s.(clock := s.clock + minutes)
    case PassStart(chosen) =>
      if !Choosable(s, chosen) then s else s.(passes := s.passes + [Pass(s.clock, Snapshot(s, chosen))])
    case PassHandle(p) =>
      if !Open(s, p) then s else
        var c := s.passes[p].todo[0];
        var rest := s.(passes := s.passes[p := s.passes[p].(todo := s.passes[p].todo[1..])]);
        if c.item >= |s.items| then rest else Update(rest, c.item, Handle(s.items[c.item], c, s.passes[p].now))
    case Send(i, own) => if i < |s.items| then Update(s, i, SendItem(s.items[i], own, s.clock)) else s
    case Receive(i, reply) => if i < |s.items| then Update(s, i, ReceiveItem(s.items[i], reply, s.clock)) else s
    case Sweep(i) => if i < |s.items| then Update(s, i, SweepItem(s.items[i], s.clock)) else s
    case Cancel(i) => if i < |s.items| then Update(s, i, CancelItem(s.items[i])) else s
    case Drop(i) => if i < |s.items| then Update(s, i, DropItem(s.items[i])) else s
  }

  function Run(s: State, steps: seq<Step>): State { Runs.Fold(s, steps, Do) }

  const START := State(0, [], [])

  // ---- what a step does ----

  /** Only item i may differ. */
  predicate OthersStay(s: State, s': State, i: nat) {
    && s'.clock == s.clock && |s'.items| == |s.items|
    && forall j :: 0 <= j < |s.items| && j != i ==> s'.items[j] == s.items[j]
  }

  /**
   A pass leaves a candidate alone within the backoff its snapshot asks for; behind it, it times out a candidate with five
   attempts, and queues a resend for any other one that is still waiting.
   */
  lemma PassHandlesExactly(s: State, p: nat)
    requires Open(s, p) && s.passes[p].todo[0].item < |s.items|
    ensures var c, s' := s.passes[p].todo[0], Do(s, PassHandle(p));
            && OthersStay(s, s', c.item)
            && s'.passes == s.passes[p := Pass(s.passes[p].now, s.passes[p].todo[1..])]
            && var it, it' := s.items[c.item], s'.items[c.item];
               var early := c.lastAttemptAt.Some? && s.passes[p].now - c.lastAttemptAt.value < Backoff(c.attempts);
               && (early ==> it' == it)
               && (!early && c.attempts >= 5 ==> it' == it.(status := Failed(Timeout), contract := SerasaFailed))
               && (!early && c.attempts < 5 && it.status.Waiting? ==> it' == it.(status := Pending, jobs := it.jobs + 1))
               && (!early && c.attempts < 5 && !it.status.Waiting? ==> it' == it)
  {
    DelayTable();
    hide Delay;
  }

  /** A pass reads waiting items of contracts in REMOVING only, each as it stands. */
  lemma PassReadsExactly(s: State, i: nat)
    ensures var s' := Do(s, PassStart([i]));
            && s'.clock == s.clock && s'.items == s.items
            && if i < |s.items| && s.items[i].status.Waiting? && s.items[i].contract.Removing?
               then s'.passes == s.passes + [Pass(s.clock, [Candidate(i, s.items[i].attempts, s.items[i].lastAttemptAt)])]
               else s' == s
  {
    assert [i][0] == i;
    if i < |s.items| && Choosable(s, [i]) {
      assert Snapshot(s, [i]) == [Candidate(i, s.items[i].attempts, s.items[i].lastAttemptAt)];
    }
  }

  /** The worker sends a pending item that has no request out, at this minute, and otherwise only uses up the job. */
  lemma SendsExactly(s: State, i: nat, own: bool)
    requires i < |s.items|
    ensures var s' := Do(s, Send(i, own));
            && OthersStay(s, s', i) && s'.passes == s.passes
            && var it, it' := s.items[i], s'.items[i];
               var jobs := if own && it.jobs > 0 then it.jobs - 1 else it.jobs;
               if it.status.Pending? && !it.inFlight && (!own || it.jobs > 0)
               then it' == it.(jobs := jobs, inFlight := true, sends := it.sends + [s.clock])
               else it' == it.(jobs := jobs)
  {
  }

  /**
   An answer counts an attempt at this minute and decides the item: an accepted one makes it wait, a refused one fails it
   and its contract. A request that threw fails a pending item, leaving its contract, and does nothing to a cancelled one.
   */
  lemma AnswersExactly(s: State, i: nat, reply: Reply)
    requires i < |s.items|
    ensures var s' := Do(s, Receive(i, reply));
            && OthersStay(s, s', i) && s'.passes == s.passes
            && var it, it' := s.items[i], s'.items[i];
               && (!it.inFlight ==> it' == it)
               && (it.inFlight ==>
                     && !it'.inFlight && it'.answers == it.answers + [reply] && it'.jobs == it.jobs && it'.sends == it.sends
                     && (if reply.Exception? && !it.status.Pending?
                         then it'.attempts == it.attempts && it'.lastAttemptAt == it.lastAttemptAt
                         else it'.attempts == it.attempts + 1 && it'.lastAttemptAt == Some(s.clock))
                     && (reply.Accepted? ==> it'.status.Waiting? && it'.contract.Removing?)
                     && (reply.Refused? ==> it'.status == Failed(Rejected) && it'.contract.SerasaFailed?)
                     && (reply.Exception? ==>
                           && it'.contract == it.contract
                           && it'.status == if it.status.Pending? then Failed(ProcessingError) else it.status))
  {
  }

  /** The other ways out of PENDING: a sweep counts an attempt, a cancellation does not; both leave the contract. */
  lemma LeavesPendingExactly(s: State, i: nat)
    requires i < |s.items|
    ensures var it, s' := s.items[i], Do(s, Sweep(i));
            && OthersStay(s, s', i) && s'.passes == s.passes
            && s'.items[i] == if it.status.Pending? && !it.inFlight
                              then it.(status := Failed(ProcessingError), attempts := it.attempts + 1, lastAttemptAt := Some(s.clock))
                              else it
    ensures var it, s' := s.items[i], Do(s, Cancel(i));
            && OthersStay(s, s', i) && s'.passes == s.passes
            && s'.items[i] == if it.status.Pending? then it.(status := Failed(Cancelled)) else it
    ensures var it, s' := s.items[i], Do(s, Drop(i));
            && OthersStay(s, s', i) && s'.passes == s.passes
            && s'.items[i] == if it.jobs > 0 then it.(jobs := it.jobs - 1) else it
  {
  }

  // ---- invariant ----

  /** The k-th resend comes at least the backoff after the request before it. */
  ghost predicate Spaced(sends: seq<int>) {
    forall k :: 1 <= k < |sends| ==> sends[k] - sends[k - 1] >= Delay(k)
  }

  /** The item may be sent again: the tests of the pass, on the row itself. */
  predicate Due(it: Item, clock: int) { it.attempts < MAX_ATTEMPTS && !Early(it.lastAttemptAt, it.attempts, clock) }

  /** Failed, and no request is out that could still be answered. */
  predicate Settled(it: Item) { it.status.Failed? && !it.inFlight }

  /** The last answer, if the last request has one. */
  function LastAnswer(it: Item): Option<Reply> {
    if it.inFlight || it.answers == [] then None else Some(it.answers[|it.answers| - 1])
  }

  /** What the history of answers has to do with the item: only an accepted request is ever followed by another one. */
  ghost predicate AnswersOk(it: Item) {
    && |it.answers| + (if it.inFlight then 1 else 0) == |it.sends|
    && (forall k :: 0 <= k < |it.answers| && k + 1 < |it.sends| ==> it.answers[k] == Accepted)
    && match it.status
       case Pending => LastAnswer(it).None? || LastAnswer(it) == Some(Accepted)
       case Waiting => LastAnswer(it) == Some(Accepted)
       case Failed(cause) =>
         && (LastAnswer(it) == Some(Refused) <==> cause.Rejected?)
         && (LastAnswer(it) == Some(Exception) ==> cause.ProcessingError? || cause.Cancelled?)
         && (cause.Timeout? <==> LastAnswer(it) == Some(Accepted) && |it.answers| == MAX_ATTEMPTS)
  }

  ghost predicate ItemOk(it: Item, clock: int) {
    && it.attempts <= MAX_ATTEMPTS && |it.sends| <= MAX_ATTEMPTS
    && Spaced(it.sends) && AnswersOk(it)
    && (it.sends != [] ==> it.sends[|it.sends| - 1] <= clock)
    && (!Settled(it) ==>
          && |it.sends| == it.attempts + (if it.inFlight then 1 else 0)
          && (it.attempts > 0 ==> it.lastAttemptAt.Some? && it.sends[it.attempts - 1] <= it.lastAttemptAt.value <= clock))
    && match it.status
       case Pending => it.contract.Removing? && it.attempts < MAX_ATTEMPTS && (!it.inFlight ==> Due(it, clock))
       case Waiting => it.contract.Removing? && it.attempts > 0 && !it.inFlight
       case Failed(cause) =>
         // A processing error or a cancellation leaves the contract in REMOVING.
         && it.contract == (if cause.Timeout? || cause.Rejected? then SerasaFailed else Removing)
         && (it.inFlight ==> cause.Cancelled? && it.attempts < MAX_ATTEMPTS)
  }

  /** All five requests are spent and none is out: the item waits for its timeout, or has had it. */
  predicate AtLimit(it: Item) { it.attempts == MAX_ATTEMPTS && (it.status.Waiting? || it.status == Failed(Timeout)) }

  /** What is left of a snapshot's truth however old it is. */
  predicate CandidateOk(s: State, c: Candidate) {
    && c.item < |s.items|
    && c.attempts <= s.items[c.item].attempts
    && (c.attempts >= MAX_ATTEMPTS ==> AtLimit(s.items[c.item]))
  }

  ghost predicate Inv(s: State) {
    && (forall i :: 0 <= i < |s.items| ==> ItemOk(s.items[i], s.clock))
    && (forall p :: 0 <= p < |s.passes| ==> s.passes[p].now <= s.clock)
    && (forall p, k :: 0 <= p < |s.passes| && 0 <= k < |s.passes[p].todo| ==> CandidateOk(s, s.passes[p].todo[k]))
  }

  /** The one harmful step: a pass claims, on an old snapshot, an item that is not due. */
  predicate Untimely(s: State, step: Step) {
    && step.PassHandle? && Open(s, step.pass)
    && var c := s.passes[step.pass].todo[0];
       && c.item < |s.items| && s.items[c.item].status.Waiting?
       && !Early(c.lastAttemptAt, c.attempts, s.passes[step.pass].now) && c.attempts < MAX_ATTEMPTS
       && !Due(s.items[c.item], s.clock)
  }

  // ---- one item ----

  /** Steps left in the life of an item; every change of the item uses at least one up. */
  function Measure(it: Item): nat
    requires it.attempts <= MAX_ATTEMPTS
  {
    it.jobs +
    match it.status
    case Pending => 6 * (MAX_ATTEMPTS - it.attempts) + if it.inFlight then 2 else 3
    case Waiting => 6 * (MAX_ATTEMPTS - it.attempts) + 5
    case Failed(_) => if it.inFlight then 6 * (MAX_ATTEMPTS - it.attempts) + 1 else 0
  }

  ghost predicate Advances(it: Item, it': Item, clock: int) {
    && ItemOk(it', clock)
    && it.attempts <= it'.attempts
    && (AtLimit(it) ==> AtLimit(it'))
    && (Settled(it) ==> it'.status == it.status && it'.contract == it.contract && !it'.inFlight)
    && (it' == it || (it.attempts <= MAX_ATTEMPTS && Measure(it') < Measure(it)))
  }

  lemma HandleAdvances(it: Item, c: Candidate, now: int, clock: int)
    requires ItemOk(it, clock) && (c.attempts >= MAX_ATTEMPTS ==> AtLimit(it))
    requires it.status.Waiting? && !Early(c.lastAttemptAt, c.attempts, now) && c.attempts < MAX_ATTEMPTS ==> Due(it, clock)
    ensures Advances(it, Handle(it, c, now), clock)
  {
  }

  lemma SendAdvances(it: Item, own: bool, clock: int)
    requires ItemOk(it, clock)
    ensures Advances(it, SendItem(it, own, clock), clock)
  {
    hide Delay;
    var it' := SendItem(it, own, clock);
    if it'.inFlight && !it.inFlight {
      forall k | 1 <= k < |it'.sends|
        ensures it'.sends[k] - it'.sends[k - 1] >= Delay(k)
      {
        if k < |it.sends| {
          assert it.sends[k] - it.sends[k - 1] >= Delay(k);
        } else {
          assert k == it.attempts && it'.sends[k - 1] == it.sends[it.attempts - 1];
        }
      }
    }
  }

  lemma ReceiveAdvances(it: Item, reply: Reply, clock: int)
    requires ItemOk(it, clock)
    ensures Advances(it, ReceiveItem(it, reply, clock), clock)
  {
    hide Spaced, Delay;
  }

  lemma OthersAdvance(it: Item, clock: int)
    requires ItemOk(it, clock)
    ensures Advances(it, SweepItem(it, clock), clock)
    ensures Advances(it, CancelItem(it), clock)
    ensures Advances(it, DropItem(it), clock)
  {
    SweepAdvances(it, clock);
    CancelAdvances(it, clock);
    DropAdvances(it, clock);
    hide *;
  }

  lemma SweepAdvances(it: Item, clock: int)
    requires ItemOk(it, clock)
    ensures Advances(it, SweepItem(it, clock), clock)
  {
    hide Spaced, Delay;
  }

  lemma CancelAdvances(it: Item, clock: int)
    requires ItemOk(it, clock)
    ensures Advances(it, CancelItem(it), clock)
  {
    hide Spaced, Delay;
  }

  lemma DropAdvances(it: Item, clock: int)
    requires ItemOk(it, clock)
    ensures Advances(it, DropItem(it), clock)
  {
    hide Spaced, Delay;
  }

  lemma TimePasses(it: Item, clock: int, later: int)
    requires ItemOk(it, clock) && clock <= later
    ensures Advances(it, it, later)
  {
  }

  // ---- every run ----

  lemma ItemsAdvance(s: State, step: Step, i: nat)
    requires Inv(s) && !Untimely(s, step) && i < |s.items|
    ensures i < |Do(s, step).items| && Advances(s.items[i], Do(s, step).items[i], Do(s, step).clock)
  {
    hide ItemOk, Advances, Handle, SendItem, ReceiveItem, SweepItem, CancelItem, DropItem, Due, Early;
    var it := s.items[i];
    TimePasses(it, s.clock, Do(s, step).clock);
    match step
    case PassHandle(p) =>
      if Open(s, p) && s.passes[p].todo[0].item == i {
        assert CandidateOk(s, s.passes[p].todo[0]);
        HandleAdvances(it, s.passes[p].todo[0], s.passes[p].now, s.clock);
      }
    case Send(_, own) => SendAdvances(it, own, s.clock);
    case Receive(_, reply) => ReceiveAdvances(it, reply, s.clock);
    case Sweep(_) => OthersAdvance(it, s.clock);
    case Cancel(_) => OthersAdvance(it, s.clock);
    case Drop(_) => OthersAdvance(it, s.clock);
    case _ =>
  }

  lemma FreshItemOk(clock: int)
    ensures ItemOk(Item(Pending, 0, None, Removing, 1, false, [], []), clock)
  {
  }

  /** Every step but an untimely claim keeps the invariant, and uses up the measure of each item it changes. */
  lemma StepKeeps(s: State, step: Step)
    requires Inv(s) && !Untimely(s, step)
    ensures Inv(Do(s, step))
    ensures |s.items| <= |Do(s, step).items|
    ensures forall i :: 0 <= i < |s.items| ==> Advances(s.items[i], Do(s, step).items[i], Do(s, step).clock)
  {
    var s' := Do(s, step);
    forall i | 0 <= i < |s.items|
      ensures i < |s'.items| && Advances(s.items[i], s'.items[i], s'.clock)
    {
      ItemsAdvance(s, step, i);
    }
    FreshItemOk(s'.clock);
    CandidatesKept(s, step);
    hide ItemOk, Advances, Handle, SendItem, ReceiveItem, SweepItem, CancelItem, DropItem, CandidateOk;
  }

  lemma CandidatesKept(s: State, step: Step)
    requires Inv(s)
    requires |s.items| <= |Do(s, step).items|
    requires forall i :: 0 <= i < |s.items| ==> Advances(s.items[i], Do(s, step).items[i], Do(s, step).clock)
    ensures var s' := Do(s, step);
            forall p, k :: 0 <= p < |s'.passes| && 0 <= k < |s'.passes[p].todo| ==> CandidateOk(s', s'.passes[p].todo[k])
  {
    var s' := Do(s, step);
    hide ItemOk, Handle, SendItem, ReceiveItem, SweepItem, CancelItem, DropItem;
    forall p, k | 0 <= p < |s'.passes| && 0 <= k < |s'.passes[p].todo|
      ensures CandidateOk(s', s'.passes[p].todo[k])
    {
      var c := s'.passes[p].todo[k];
      if p < |s.passes| {
        var shift := if step.PassHandle? && p == step.pass && Open(s, p) then 1 else 0;
        assert s.passes[p].todo[k + shift] == c;
        assert CandidateOk(s, c);
      } else {
        assert IsCandidate(s.items[c.item]) && ItemOk(s.items[c.item], s.clock);
        AtMostFive(s.items[c.item], s.clock);
      }
    }
  }

  lemma AtMostFive(it: Item, clock: int)
    requires ItemOk(it, clock)
    ensures it.attempts <= MAX_ATTEMPTS
  {
  }

  /** The worker would send a request before its time: a sixth one, or one within the backoff after the last answer. */
  predicate EarlySend(s: State, step: Step) {
    && step.Send? && step.item < |s.items|
    && SendItem(s.items[step.item], step.own, s.clock).sends != s.items[step.item].sends
    && !Due(s.items[step.item], s.clock)
  }

  /** While the invariant holds, no request is early. */
  lemma NoEarlySend(s: State, step: Step)
    requires Inv(s)
    ensures !EarlySend(s, step)
  {
    assert step.Send? && step.item < |s.items| ==> ItemOk(s.items[step.item], s.clock);
  }

  /** Behind an untimely claim the queued job sends early at once. */
  lemma UntimelySendsEarly(s: State, step: Step) returns (i: nat)
    requires Inv(s) && Untimely(s, step)
    ensures EarlySend(Do(s, step), Send(i, true))
  {
    i := s.passes[step.pass].todo[0].item;
    var it := s.items[i];
    assert ItemOk(it, s.clock);
    var it' := Do(s, step).items[i];
    assert it' == it.(status := Pending, jobs := it.jobs + 1);
    assert |SendItem(it', true, s.clock).sends| == |it'.sends| + 1;
  }

  /** A run without untimely claims. */
  ghost predicate Timely(s: State, steps: seq<Step>) {
    forall k :: 0 <= k < |steps| ==> !Untimely(Run(s, steps[..k]), steps[k])
  }

  lemma TimelyPrefix(s: State, steps: seq<Step>, n: nat)
    requires Timely(s, steps) && n <= |steps|
    ensures Timely(s, steps[..n])
  {
    hide Run;
    assert forall k :: 0 <= k < n ==> steps[..n][..k] == steps[..k];
  }

  lemma {:induction false} RunKeeps(s: State, steps: seq<Step>)
    requires Inv(s) && Timely(s, steps)
    ensures Inv(Run(s, steps)) && |s.items| <= |Run(s, steps).items|
  {
    if steps != [] {
      hide Do, Untimely;
      var n := |steps| - 1;
      TimelyPrefix(s, steps, n);
      RunKeeps(s, steps[..n]);
      StepKeeps(Run(s, steps[..n]), steps[n]);
    }
  }

  /**
   One step: a claim is timely exactly when nothing that follows it, short of another untimely claim, can bring the worker
   to send a sixth request or to send within the backoff.
   */
  lemma StepTimelyExactly(s: State, step: Step)
    requires Inv(s)
    ensures !Untimely(s, step) <==>
            forall later, x :: Timely(Do(s, step), later) ==> !EarlySend(Run(Do(s, step), later), x)
  {
    hide Do, Untimely, Inv, EarlySend;
    if !Untimely(s, step) {
      StepKeeps(s, step);
      forall later, x | Timely(Do(s, step), later)
        ensures !EarlySend(Run(Do(s, step), later), x)
      {
        RunKeeps(Do(s, step), later);
        NoEarlySend(Run(Do(s, step), later), x);
      }
    } else {
      var i := UntimelySendsEarly(s, step);
      assert Timely(Do(s, step), []) && EarlySend(Run(Do(s, step), []), Send(i, true));
    }
  }

  /**
   Over all runs, overlapping passes included: at no point can the worker send a sixth request or send within the
   backoff, exactly when no pass claims an item that is not due on its own row.
   */
  lemma PromiseExactly(s: State, steps: seq<Step>)
    requires Inv(s)
    ensures (forall k, x :: 0 <= k <= |steps| ==> !EarlySend(Run(s, steps[..k]), x)) <==> Timely(s, steps)
  {
    hide Do, Untimely, Inv, EarlySend;
    if Timely(s, steps) {
      forall k, x | 0 <= k <= |steps|
        ensures !EarlySend(Run(s, steps[..k]), x)
      {
        TimelyPrefix(s, steps, k);
        RunKeeps(s, steps[..k]);
        NoEarlySend(Run(s, steps[..k]), x);
      }
    } else {
      var k := FirstUntimely(s, steps);
      RunKeeps(s, steps[..k]);
      var i := UntimelySendsEarly(Run(s, steps[..k]), steps[k]);
      assert steps[..k + 1][..k] == steps[..k];
      assert EarlySend(Run(s, steps[..k + 1]), Send(i, true));
    }
  }

  lemma FirstUntimely(s: State, steps: seq<Step>) returns (k: nat)
    requires !Timely(s, steps)
    ensures k < |steps| && Timely(s, steps[..k]) && Untimely(Run(s, steps[..k]), steps[k])
  {
    hide Run, Untimely;
    k := 0;
    while !Untimely(Run(s, steps[..k]), steps[k])
      invariant k < |steps|
      invariant forall j :: 0 <= j < k ==> !Untimely(Run(s, steps[..j]), steps[j])
      decreases |steps| - k
    {
      k := k + 1;
    }
    assert forall j :: 0 <= j < k ==> steps[..k][..j] == steps[..j];
  }

  /**
   In every timely run: at most five requests per item, each resend at least 30, 60, 120, 240 minutes after the request
   before it, and only behind an accepted one; the contract never becomes REMOVED. An item waits only on an accepted
   request, and a refused one is failed with its contract FAILED. A failed item's contract is FAILED if and only if its
   last request was refused or all five were accepted without a confirmation; otherwise it is still REMOVING.
   */
  lemma RemovalSafety(steps: seq<Step>, i: nat)
    requires Timely(START, steps) && i < |Run(START, steps).items|
    ensures var it := Run(START, steps).items[i];
            && |it.answers| <= |it.sends| <= 5 && |it.sends| <= |it.answers| + 1 && it.attempts <= 5
            && (forall k :: 0 <= k < |it.sends| - 1 ==> it.answers[k] == Accepted)
            && (forall k :: 1 <= k < |it.sends| ==> it.sends[k] - it.sends[k - 1] >= Backoff(k))
            && !it.contract.Removed?
            && (it.status.Waiting? ==> !it.inFlight && it.answers != [] && it.answers[|it.answers| - 1] == Accepted)
            && (!it.inFlight && it.answers != [] && it.answers[|it.answers| - 1] == Refused ==>
                  it.status.Failed? && it.contract.SerasaFailed?)
            && (it.contract == if it.status.Failed? && !it.inFlight && it.answers != []
                                  && (it.answers[|it.answers| - 1] == Refused
                                      || (it.answers[|it.answers| - 1] == Accepted && |it.answers| == 5))
                               then SerasaFailed else Removing)
  {
    RunKeeps(START, steps);
    DelayTable();
    assert ItemOk(Run(START, steps).items[i], Run(START, steps).clock);
    hide Run, Delay;
  }

  lemma DelayTable()
    ensures forall n: nat :: Delay(n) == Backoff(n)
  {
    assert Pow2(0) == 1 && Pow2(1) == 2 && Pow2(2) == 4 && Pow2(3) == 8;
    forall n: nat
      ensures Delay(n) == Backoff(n)
    {
      if n >= 5 {
        Pow2Grows(n - 1);
      }
    }
  }

  lemma {:induction false} Pow2Grows(n: nat)
    requires n >= 4
    ensures Pow2(n) >= 16
  {
    if n > 4 {
      Pow2Grows(n - 1);
    } else {
      assert Pow2(1) == 2 && Pow2(2) == 4 && Pow2(3) == 8;
    }
  }

  // ---- passes that do not overlap ----

  predicate Current(s: State, c: Candidate) {
    && c.item < |s.items|
    && s.items[c.item].status.Waiting?
    && s.items[c.item].attempts == c.attempts && s.items[c.item].lastAttemptAt == c.lastAttemptAt
  }

  /** At most one pass is open, and what it has read about the items it has not reached yet is still true. */
  ghost predicate Sequential(s: State) {
    && (forall p: nat, q: nat :: Open(s, p) && Open(s, q) ==> p == q)
    && (forall p, k :: 0 <= p < |s.passes| && 0 <= k < |s.passes[p].todo| ==> Current(s, s.passes[p].todo[k]))
    && (forall p, k, l :: 0 <= p < |s.passes| && 0 <= k < l < |s.passes[p].todo| ==>
          s.passes[p].todo[k].item != s.passes[p].todo[l].item)
  }

  ghost predicate Drained(s: State) { forall p :: 0 <= p < |s.passes| ==> s.passes[p].todo == [] }

  /** A run in which a pass starts only when none is open. */
  ghost predicate OneAtATime(s: State, steps: seq<Step>) {
    forall k :: 0 <= k < |steps| ==> steps[k].PassStart? ==> Drained(Run(s, steps[..k]))
  }

  /** A waiting item changes only by a pass that handles it. */
  lemma WaitingStays(s: State, step: Step, i: nat)
    requires Inv(s) && i < |s.items| && s.items[i].status.Waiting?
    requires !(step.PassHandle? && Open(s, step.pass) && s.passes[step.pass].todo[0].item == i)
    ensures var it' := Do(s, step).items[i];
            it'.status.Waiting? && it'.attempts == s.items[i].attempts && it'.lastAttemptAt == s.items[i].lastAttemptAt
  {
    assert ItemOk(s.items[i], s.clock);
  }

  lemma SequentialIsTimely(s: State, step: Step)
    requires Inv(s) && Sequential(s)
    ensures !Untimely(s, step)
  {
    if step.PassHandle? && Open(s, step.pass) {
      var c := s.passes[step.pass].todo[0];
      assert Current(s, c) && ItemOk(s.items[c.item], s.clock);
    }
  }

  lemma CurrentKept(s: State, step: Step)
    requires Inv(s) && Sequential(s) && (step.PassStart? ==> Drained(s))
    ensures var s' := Do(s, step);
            forall p, k :: 0 <= p < |s'.passes| && 0 <= k < |s'.passes[p].todo| ==> Current(s', s'.passes[p].todo[k])
  {
    var s' := Do(s, step);
    hide ItemOk, Handle, SendItem, ReceiveItem, SweepItem, CancelItem, DropItem;
    forall p, k | 0 <= p < |s'.passes| && 0 <= k < |s'.passes[p].todo|
      ensures Current(s', s'.passes[p].todo[k])
    {
      var c := s'.passes[p].todo[k];
      if p < |s.passes| {
        assert Open(s, p);
        var shift := if step.PassHandle? && Open(s, step.pass) then 1 else 0;
        assert s.passes[p].todo[k + shift] == c && Current(s, c);
        WaitingStays(s, step, c.item);
      }
    }
  }

  lemma {:induction false} SequentialRun(s: State, steps: seq<Step>)
    requires Inv(s) && Sequential(s) && OneAtATime(s, steps)
    ensures Timely(s, steps) && Inv(Run(s, steps)) && Sequential(Run(s, steps))
  {
    if steps != [] {
      hide Do, Untimely, Inv, Sequential, Drained;
      var n := |steps| - 1;
      OneAtATimePrefix(s, steps, n);
      SequentialRun(s, steps[..n]);
      SequentialStep(Run(s, steps[..n]), steps[n]);
      TimelySnoc(s, steps, n);
      RunKeeps(s, steps);
    }
  }

  lemma OneAtATimePrefix(s: State, steps: seq<Step>, n: nat)
    requires OneAtATime(s, steps) && n <= |steps|
    ensures OneAtATime(s, steps[..n])
  {
    hide Run, Drained;
    assert forall k :: 0 <= k < n ==> steps[..n][..k] == steps[..k];
  }

  lemma TimelySnoc(s: State, steps: seq<Step>, n: nat)
    requires |steps| == n + 1 && Timely(s, steps[..n]) && !Untimely(Run(s, steps[..n]), steps[n])
    ensures Timely(s, steps)
  {
    hide Run, Untimely;
    assert forall k :: 0 <= k < n ==> steps[..n][..k] == steps[..k];
  }

  lemma SequentialStep(s: State, step: Step)
    requires Inv(s) && Sequential(s) && (step.PassStart? ==> Drained(s))
    ensures !Untimely(s, step) && Sequential(Do(s, step))
  {
    SequentialIsTimely(s, step);
    CurrentKept(s, step);
    OneOpenKept(s, step);
    DistinctKept(s, step);
    hide Untimely, Current, Inv, Do, Open;
  }

  /** What a step does to the passes. */
  lemma PassesAfter(s: State, step: Step)
    ensures var s' := Do(s, step);
            && |s.passes| <= |s'.passes| <= |s.passes| + 1
            && (!step.PassStart? ==> |s'.passes| == |s.passes|)
            && forall p :: 0 <= p < |s.passes| ==>
                 s'.passes[p].todo == if step.PassHandle? && p == step.pass && s.passes[p].todo != [] then s.passes[p].todo[1..]
                                      else s.passes[p].todo
  {
    hide Handle, SendItem, ReceiveItem, SweepItem, CancelItem, DropItem;
  }

  lemma OneOpenKept(s: State, step: Step)
    requires Sequential(s) && (step.PassStart? ==> Drained(s))
    ensures forall p: nat, q: nat :: Open(Do(s, step), p) && Open(Do(s, step), q) ==> p == q
  {
    PassesAfter(s, step);
    hide Do, Current;
    forall p: nat, q: nat | Open(Do(s, step), p) && Open(Do(s, step), q)
      ensures p == q
    {
      assert p < |s.passes| ==> Open(s, p);
      assert q < |s.passes| ==> Open(s, q);
    }
  }

  lemma DistinctKept(s: State, step: Step)
    requires Sequential(s)
    ensures var s' := Do(s, step);
            forall p, k, l :: 0 <= p < |s'.passes| && 0 <= k < l < |s'.passes[p].todo| ==>
              s'.passes[p].todo[k].item != s'.passes[p].todo[l].item
  {
    PassesAfter(s, step);
    if step.PassStart? {
      hide Current;
    } else {
      hide Do, Current;
    }
  }

  /** Passes that never overlap never claim untimely, so every promise above holds in their runs. */
  lemma OneAtATimeIsTimely(steps: seq<Step>)
    requires OneAtATime(START, steps)
    ensures Timely(START, steps)
  {
    SequentialRun(START, steps);
  }

  // ---- passes that do ----

  function AllAccepted(n: nat): (r: seq<Reply>)
    ensures |r| == n && forall k :: 0 <= k < n ==> r[k] == Accepted
  {
    seq(n, _ => Accepted)
  }

  lemma OneMoreAccepted(n: nat)
    ensures AllAccepted(n) + [Accepted] == AllAccepted(n + 1)
  {
  }

  /** A waiting item just answered, alone in the database. */
  function AfterReplies(clock: int, passes: seq<Pass>, sends: seq<int>): State {
    State(clock, [Item(Waiting, |sends|, Some(clock), Removing, 0, false, sends, AllAccepted(|sends|))], passes)
  }

  /** One regular resend: wait, pass, send, reply. */
  function Resend(minutes: nat, pass: nat): seq<Step> {
    [Tick(minutes), PassStart([0]), PassHandle(pass), Send(0, true), Receive(0, Accepted)]
  }

  lemma RunTwo(s: State, a: Step, b: Step)
    ensures Run(s, [a]) == Do(s, a)
    ensures Run(s, [a, b]) == Do(Do(s, a), b)
  {
    hide Do;
    assert [a][..0] == [];
    assert Run(s, []) == s;
    assert Run(s, [a]) == Do(Run(s, []), a);
    assert [a, b][..1] == [a];
  }

  /** Waiting out the backoff and passing over the item claims it. */
  lemma ClaimWorks(s: State, it: Item, minutes: nat)
    requires s.items == [it] && IsCandidate(it) && it.attempts < MAX_ATTEMPTS && it.lastAttemptAt == Some(s.clock)
    requires minutes == Delay(it.attempts)
    ensures var s' := Do(Do(Do(s, Tick(minutes)), PassStart([0])), PassHandle(|s.passes|));
            && s'.clock == s.clock + minutes && |s'.passes| == |s.passes| + 1
            && s'.items == [it.(status := Pending, jobs := it.jobs + 1)]
  {
    hide Delay;
    var ticked := s.(clock := s.clock + minutes);
    assert Choosable(ticked, [0]) && Snapshot(ticked, [0]) == [Candidate(0, it.attempts, it.lastAttemptAt)];
  }

  lemma ResendWorks(s: State, minutes: nat)
    requires |s.items| == 1 && |s.items[0].sends| < MAX_ATTEMPTS && s == AfterReplies(s.clock, s.passes, s.items[0].sends)
    requires minutes == Delay(|s.items[0].sends|)
    ensures var s' := Run(s, Resend(minutes, |s.passes|));
            && |s'.passes| == |s.passes| + 1 && s'.clock == s.clock + minutes
            && s' == AfterReplies(s'.clock, s'.passes, s.items[0].sends + [s'.clock])
  {
    OneMoreAccepted(|s.items[0].sends|);
    hide Delay, Run;
    var a, b, c := [Tick(minutes), PassStart([0])], [PassHandle(|s.passes|), Send(0, true)], Receive(0, Accepted);
    assert Resend(minutes, |s.passes|) == a + b + [c];
    ClaimWorks(s, s.items[0], minutes);
    var s2 := Do(Do(s, Tick(minutes)), PassStart([0]));
    var s3 := Do(s2, PassHandle(|s.passes|));
    hide Handle, Snapshot;
    var s4 := Do(s3, Send(0, true));
    RunTwo(s, Tick(minutes), PassStart([0]));
    RunTwo(s2, PassHandle(|s.passes|), Send(0, true));
    RunTwo(s4, c, c);
    RunConcat(s, a, b);
    RunConcat(s, a + b, [c]);
  }

  /** Create the item, send it, and have it accepted: the first request. */
  const OPENING: seq<Step> := [Create, Send(0, true)] + [Receive(0, Accepted)]

  /** Two passes read the item at four requests; the second handles it after the reply to the fifth. */
  const OVERLAP: seq<Step> :=
    [Tick(240), PassStart([0])] + [PassStart([0]), PassHandle(3)] + [Send(0, true), Receive(0, Accepted)]
    + [PassHandle(4), Send(0, true)]

  lemma FirstRequest()
    ensures Do(Do(START, Create), Send(0, true)) == State(0, [Item(Pending, 0, None, Removing, 0, true, [0], [])], [])
  {
    var it := Item(Pending, 0, None, Removing, 1, false, [], []);
    assert Do(START, Create) == State(0, [it], []);
    assert it.sends + [0] == [0];
  }

  lemma OpeningWorks()
    ensures Run(START, OPENING) == AfterReplies(0, [], [0])
  {
    FirstRequest();
    var sent := Do(Do(START, Create), Send(0, true));
    OneMoreAccepted(0);
    assert Do(sent, Receive(0, Accepted)).items == [Item(Waiting, 1, Some(0), Removing, 0, false, [0], AllAccepted(1))];
    RunTwo(START, Create, Send(0, true));
    RunTwo(sent, Receive(0, Accepted), Receive(0, Accepted));
    RunConcat(START, [Create, Send(0, true)], [Receive(0, Accepted)]);
  }

  /** Up to the first claim: both passes have read the same snapshot. */
  lemma BothPassesRead(s: State, four: Item)
    requires |s.passes| == 3 && s.items == [four] && four.attempts == 4 && four.lastAttemptAt == Some(s.clock)
    requires IsCandidate(four)
    ensures var s' := Do(Do(Do(Do(s, Tick(240)), PassStart([0])), PassStart([0])), PassHandle(3));
            && s'.clock == s.clock + 240 && s'.items == [four.(status := Pending, jobs := four.jobs + 1)]
            && |s'.passes| == 5 && s'.passes[4] == Pass(s.clock + 240, [Candidate(0, 4, Some(s.clock))])
  {
    DelayTable();
    hide Delay;
    var ticked := s.(clock := s.clock + 240);
    var c := Candidate(0, 4, Some(s.clock));
    assert Choosable(ticked, [0]) && Snapshot(ticked, [0]) == [c];
    var s2 := Do(ticked, PassStart([0]));
    assert Choosable(s2, [0]) && Snapshot(s2, [0]) == [c];
    var s3 := Do(s2, PassStart([0]));
    assert s3.items == [four] && s3.passes[3] == Pass(s.clock + 240, [c]) == s3.passes[4];
  }

  /** From the first claim on: the fifth request, its reply, the stale claim, the sixth request. */
  lemma StaleClaim(s: State, sends: seq<int>, last: int)
    requires |s.passes| == 5 && s.passes[4] == Pass(s.clock, [Candidate(0, 4, Some(last))]) && s.clock - last >= 240
    requires s.items == [Item(Pending, 4, Some(last), Removing, 1, false, sends, AllAccepted(4))]
    ensures var s' := Do(Do(Do(Do(s, Send(0, true)), Receive(0, Accepted)), PassHandle(4)), Send(0, true));
            s'.items == [Item(Pending, 5, Some(s.clock), Removing, 0, true, sends + [s.clock] + [s.clock], AllAccepted(5))]
  {
    DelayTable();
    hide Delay;
    var s2 := Do(Do(s, Send(0, true)), Receive(0, Accepted));
    OneMoreAccepted(4);
    assert s2.items == [Item(Waiting, 5, Some(s.clock), Removing, 0, false, sends + [s.clock], AllAccepted(5))];
    var s3 := Do(s2, PassHandle(4));
    assert s3.items == [Item(Pending, 5, Some(s.clock), Removing, 1, false, sends + [s.clock], AllAccepted(5))];
  }

  lemma OverlapWorks(s: State)
    requires |s.passes| == 3 && |s.items| == 1 && |s.items[0].sends| == 4
    requires s == AfterReplies(s.clock, s.passes, s.items[0].sends)
    ensures Run(s, OVERLAP).items ==
            [Item(Pending, 5, Some(s.clock + 240), Removing, 0, true, s.items[0].sends + [s.clock + 240] + [s.clock + 240],
                  AllAccepted(5))]
  {
    BothPassesRead(s, s.items[0]);
    hide Do, Run;
    var s2 := Do(Do(s, Tick(240)), PassStart([0]));
    var s4 := Do(Do(s2, PassStart([0])), PassHandle(3));
    StaleClaim(s4, s.items[0].sends, s.clock);
    var s6 := Do(Do(s4, Send(0, true)), Receive(0, Accepted));
    RunTwo(s, Tick(240), PassStart([0]));
    RunTwo(s2, PassStart([0]), PassHandle(3));
    RunTwo(s4, Send(0, true), Receive(0, Accepted));
    RunTwo(s6, PassHandle(4), Send(0, true));
    var a, b, c, d := [Tick(240), PassStart([0])], [PassStart([0]), PassHandle(3)], [Send(0, true), Receive(0, Accepted)],
      [PassHandle(4), Send(0, true)];
    RunConcat(s, a, b);
    RunConcat(s, a + b, c);
    RunConcat(s, a + b + c, d);
  }

  /**
   Overlapping passes reach a sixth request: a full schedule from the empty database in which the second of two passes
   claims, on its old snapshot, an item whose fifth request has just been answered.
   */
  lemma SixthRequest()
    ensures var steps := OPENING + Resend(30, 0) + Resend(60, 1) + Resend(120, 2) + OVERLAP;
            && |Run(START, steps).items| == 1
            && Run(START, steps).items[0].sends == [0, 30, 90, 210, 450, 450]
            && !Timely(START, steps)
  {
    var p1, p2, p3, p4 := OPENING, Resend(30, 0), Resend(60, 1), Resend(120, 2);
    var steps := p1 + p2 + p3 + p4 + OVERLAP;
    FourRequests();
    hide Do, Run, Resend, Timely;
    var s4 := Run(START, p1 + p2 + p3 + p4);
    OverlapWorks(s4);
    RunConcat(START, p1 + p2 + p3 + p4, OVERLAP);
    assert [0, 30, 90, 210] + [450] + [450] == [0, 30, 90, 210, 450, 450];
    if Timely(START, steps) {
      RemovalSafety(steps, 0);
    }
  }

  lemma FourRequests()
    ensures var s := Run(START, OPENING + Resend(30, 0) + Resend(60, 1) + Resend(120, 2));
            |s.passes| == 3 && s == AfterReplies(210, s.passes, [0, 30, 90, 210])
  {
    var p1, p2, p3, p4 := OPENING, Resend(30, 0), Resend(60, 1), Resend(120, 2);
    OpeningWorks();
    DelayTable();
    hide Do, Run, Resend, Delay;
    RunConcat(START, p1, p2);
    RunConcat(START, p1 + p2, p3);
    RunConcat(START, p1 + p2 + p3, p4);
    var s1 := Run(START, p1);
    ResendWorks(s1, 30);
    var s2 := Run(s1, p2);
    assert [0] + [30] == [0, 30];
    ResendWorks(s2, 60);
    var s3 := Run(s2, p3);
    assert [0, 30] + [90] == [0, 30, 90];
    ResendWorks(s3, 120);
    assert [0, 30, 90] + [210] == [0, 30, 90, 210];
  }

  lemma RunConcat(s: State, first: seq<Step>, second: seq<Step>)
    ensures Run(s, first + second) == Run(Run(s, first), second)
  {
    Runs.FoldConcat(s, first, second, Do);
  }

  // ---- how often an item changes ----

  /** How often item i changes along a run. */
  ghost function Changes(s: State, steps: seq<Step>, i: nat): nat {
    if steps == [] then 0 else
      var n := |steps| - 1;
      var before, after := Run(s, steps[..n]), Run(s, steps);
      Changes(s, steps[..n], i) +
      if i < |before.items| && i < |after.items| && before.items[i] != after.items[i] then 1 else 0
  }

  /** The measure bounds the life of an item: no timely run changes it more often than its measure says. */
  lemma {:induction false} ChangesBounded(s: State, steps: seq<Step>, i: nat)
    requires Inv(s) && Timely(s, steps) && i < |s.items|
    ensures i < |Run(s, steps).items| && s.items[i].attempts <= MAX_ATTEMPTS && Run(s, steps).items[i].attempts <= MAX_ATTEMPTS
    ensures Changes(s, steps, i) + Measure(Run(s, steps).items[i]) <= Measure(s.items[i])
    ensures Run(s, steps).items[i] != s.items[i] ==> Changes(s, steps, i) > 0
  {
    hide Do, Untimely, ItemOk, Measure;
    AtMostFive(s.items[i], s.clock);
    if steps != [] {
      var n := |steps| - 1;
      TimelyPrefix(s, steps, n);
      ChangesBounded(s, steps[..n], i);
      RunKeeps(s, steps[..n]);
      StepKeeps(Run(s, steps[..n]), steps[n]);
      AtMostFive(Run(s, steps).items[i], Run(s, steps).clock);
    }
  }

  // ---- finality ----

  predicate SameOutcome(s: State, s': State, i: nat) {
    i < |s.items| && i < |s'.items| && s'.items[i].status == s.items[i].status && s'.items[i].contract == s.items[i].contract
  }

  lemma {:induction false} SettledForever(s: State, steps: seq<Step>, i: nat)
    requires Inv(s) && Timely(s, steps) && i < |s.items| && Settled(s.items[i])
    ensures SameOutcome(s, Run(s, steps), i) && Settled(Run(s, steps).items[i])
  {
    if steps != [] {
      hide Do, Untimely, ItemOk;
      var n := |steps| - 1;
      TimelyPrefix(s, steps, n);
      SettledForever(s, steps[..n], i);
      RunKeeps(s, steps[..n]);
      StepKeeps(Run(s, steps[..n]), steps[n]);
    }
  }

  /**
   A failed item and its contract stay as they are in every timely continuation exactly when no request of the item
   is out: the answer to a request sent before a cancellation brings the item back.
   */
  lemma FailedForeverExactly(s: State, i: nat)
    requires Inv(s) && i < |s.items| && s.items[i].status.Failed?
    ensures (forall steps :: Timely(s, steps) ==> SameOutcome(s, Run(s, steps), i)) <==> !s.items[i].inFlight
  {
    hide Do, Untimely, Inv;
    if !s.items[i].inFlight {
      forall steps | Timely(s, steps)
        ensures SameOutcome(s, Run(s, steps), i)
      {
        SettledForever(s, steps, i);
      }
    } else {
      ReplyRevives(s, i);
    }
  }

  lemma ReplyRevives(s: State, i: nat)
    requires i < |s.items| && s.items[i].inFlight
    ensures Timely(s, [Receive(i, Accepted)]) && i < |Run(s, [Receive(i, Accepted)]).items|
    ensures Run(s, [Receive(i, Accepted)]).items[i].status.Waiting?
  {
    RunTwo(s, Receive(i, Accepted), Receive(i, Accepted));
  }

  /** A contract can stay in REMOVING for ever: the worker's request throws, and whatever happens then leaves it there. */
  lemma RemovingForever(later: seq<Step>)
    requires var s := Run(START, [Create, Send(0, true)] + [Receive(0, Exception)]); Timely(s, later)
    ensures var s := Run(START, [Create, Send(0, true)] + [Receive(0, Exception)] + later);
            |s.items| > 0 && s.items[0].status == Failed(ProcessingError) && s.items[0].contract.Removing?
  {
    var opening := [Create, Send(0, true)] + [Receive(0, Exception)];
    var s := Run(START, opening);
    RunTwo(START, Create, Send(0, true));
    var sent := Do(Do(START, Create), Send(0, true));
    FirstRequest();
    RunTwo(sent, Receive(0, Exception), Receive(0, Exception));
    RunConcat(START, [Create, Send(0, true)], [Receive(0, Exception)]);
    assert sent.items[0].answers + [Exception] == [Exception];
    assert s.items == [Item(Failed(ProcessingError), 1, Some(0), Removing, 0, false, [0], [Exception])];
    SettledForever(s, later, 0);
    RunConcat(START, opening, later);
  }

  // ---- progress ----

  lemma DelayBounded(attempts: nat)
    ensures INITIAL_RETRY_MINUTES <= Delay(attempts) <= 16 * INITIAL_RETRY_MINUTES
  {
    Pow2Positive(if attempts >= 1 then attempts - 1 else 0);
  }

  lemma {:induction false} Pow2Positive(n: nat)
    ensures Pow2(n) >= 1
  {
    if n > 0 {
      Pow2Positive(n - 1);
    }
  }

  /** Something can still happen to the item by itself, or it has timed out: it is not failed for good, and not without a job. */
  predicate Hopeful(it: Item) {
    && (Settled(it) ==> it.status == Failed(Timeout))
    && (it.status.Pending? && !it.inFlight ==> it.jobs > 0)
  }

  lemma OneAtATimeConcat(s: State, first: seq<Step>, second: seq<Step>)
    requires OneAtATime(s, first) && OneAtATime(Run(s, first), second)
    ensures OneAtATime(s, first + second)
  {
    hide Run, Drained;
    var all := first + second;
    forall k | 0 <= k < |all| && all[k].PassStart?
      ensures Drained(Run(s, all[..k]))
    {
      if k < |first| {
        assert all[..k] == first[..k];
      } else {
        assert all[..k] == first + second[..k - |first|];
        RunConcat(s, first, second[..k - |first|]);
        assert all[k] == second[k - |first|];
      }
    }
  }

  /** No job of another item of the batch sends item i. */
  ghost predicate Unaided(steps: seq<Step>, i: nat) {
    forall k :: 0 <= k < |steps| ==> steps[k] != Send(i, false)
  }

  /** Handling what the open pass has left closes it; the item may move on, but not into a dead end. */
  lemma {:induction false} Drain(s: State, p: nat, i: nat) returns (steps: seq<Step>)
    requires Inv(s) && Sequential(s) && i < |s.items| && Hopeful(s.items[i])
    requires p < |s.passes| && forall q :: 0 <= q < |s.passes| && q != p ==> s.passes[q].todo == []
    ensures OneAtATime(s, steps) && Unaided(steps, i)
    ensures Inv(Run(s, steps)) && Sequential(Run(s, steps)) && Drained(Run(s, steps))
    ensures i < |Run(s, steps).items| && Hopeful(Run(s, steps).items[i])
    decreases |s.passes[p].todo|
  {
    if s.passes[p].todo == [] {
      steps := [];
      assert Run(s, []) == s;
    } else {
      var step := PassHandle(p);
      SequentialStep(s, step);
      StepKeeps(s, step);
      HandleHopeful(s, p, i);
      var rest := Drain(Do(s, step), p, i);
      RunTwo(s, step, step);
      RunConcat(s, [step], rest);
      OneAtATimeConcat(s, [step], rest);
      steps := [step] + rest;
    }
  }

  lemma HandleHopeful(s: State, p: nat, i: nat)
    requires Inv(s) && Sequential(s) && Open(s, p) && i < |s.items| && Hopeful(s.items[i])
    ensures i < |Do(s, PassHandle(p)).items| && Hopeful(Do(s, PassHandle(p)).items[i])
  {
    assert Current(s, s.passes[p].todo[0]);
    assert ItemOk(s.items[i], s.clock);
  }

  /** Every stage of an unconfirmed item has a next one: the queued job runs, the reply arrives, or a later pass picks it up. */
  function NextSteps(it: Item, i: nat, pass: nat): seq<Step> {
    match it.status
    case Waiting => [Tick(16 * INITIAL_RETRY_MINUTES), PassStart([i])] + [PassHandle(pass)]
    case _ => if it.inFlight then [Receive(i, Accepted)] else [Send(i, true)]
  }

  lemma PassReaches(s: State, i: nat)
    requires Inv(s) && i < |s.items| && s.items[i].status.Waiting?
    ensures var s1 := Do(s, Tick(16 * INITIAL_RETRY_MINUTES));
            var s3 := Do(Do(s1, PassStart([i])), PassHandle(|s.passes|));
            && i < |s3.items| && s3.items[i] != s.items[i] && Hopeful(s3.items[i])
            && (Drained(s) ==> Drained(s1) && Drained(s3))
  {
    var it := s.items[i];
    assert ItemOk(it, s.clock);
    DelayBounded(it.attempts);
    hide Delay, ItemOk;
    var s1 := Do(s, Tick(16 * INITIAL_RETRY_MINUTES));
    assert Choosable(s1, [i]) && Snapshot(s1, [i]) == [Candidate(i, it.attempts, it.lastAttemptAt)];
    var s2 := Do(s1, PassStart([i]));
    assert s2.passes[|s.passes|] == Pass(s1.clock, [Candidate(i, it.attempts, it.lastAttemptAt)]);
    var s3 := Do(s2, PassHandle(|s.passes|));
    assert s3.items[i] == Handle(it, Candidate(i, it.attempts, it.lastAttemptAt), s1.clock);
  }

  lemma Progress(s: State, i: nat)
    requires Inv(s) && Drained(s) && i < |s.items| && !Settled(s.items[i]) && Hopeful(s.items[i])
    ensures var steps := NextSteps(s.items[i], i, |s.passes|);
            && OneAtATime(s, steps) && Unaided(steps, i) && Drained(Run(s, steps))
            && i < |Run(s, steps).items| && Run(s, steps).items[i] != s.items[i] && Hopeful(Run(s, steps).items[i])
  {
    var it := s.items[i];
    assert ItemOk(it, s.clock);
    var steps := NextSteps(it, i, |s.passes|);
    if it.status.Waiting? {
      PassReaches(s, i);
      hide Do, Hopeful;
      var a, b, c := Tick(16 * INITIAL_RETRY_MINUTES), PassStart([i]), PassHandle(|s.passes|);
      RunTwo(s, a, b);
      RunTwo(Do(Do(s, a), b), c, c);
      RunConcat(s, [a, b], [c]);
      assert OneAtATime(s, [a, b]) by {
        assert [a, b][..1] == [a];
      }
      OneAtATimeConcat(s, [a, b], [c]);
    } else {
      hide Spaced, Delay;
      RunTwo(s, steps[0], steps[0]);
    }
  }

  /**
   A provider that accepts every request and never confirms leads an item to its timeout, from every state of runs whose
   passes do not overlap, with or without an open pass, and again without overlap and without a job of another item -
   unless the item has failed otherwise with no request out, or its cancelled operation has cost it its job.
   */
  lemma DrivenToFailed(s: State, i: nat) returns (steps: seq<Step>)
    requires Inv(s) && Sequential(s) && i < |s.items| && Hopeful(s.items[i])
    ensures OneAtATime(s, steps) && Unaided(steps, i)
    ensures i < |Run(s, steps).items| && Run(s, steps).items[i].status == Failed(Timeout)
  {
    if Drained(s) {
      steps := DrivenOn(s, i);
    } else {
      var p :| 0 <= p < |s.passes| && s.passes[p].todo != [];
      forall q | 0 <= q < |s.passes| && q != p
        ensures s.passes[q].todo == []
      {
        assert Open(s, p) && !Open(s, q);
      }
      var first := Drain(s, p, i);
      var rest := DrivenOn(Run(s, first), i);
      RunConcat(s, first, rest);
      OneAtATimeConcat(s, first, rest);
      steps := first + rest;
    }
  }

  lemma {:induction false} DrivenOn(s: State, i: nat) returns (steps: seq<Step>)
    requires Inv(s) && Sequential(s) && Drained(s) && i < |s.items| && s.items[i].attempts <= MAX_ATTEMPTS && Hopeful(s.items[i])
    ensures OneAtATime(s, steps) && Unaided(steps, i)
    ensures i < |Run(s, steps).items| && Run(s, steps).items[i].status == Failed(Timeout)
    decreases Measure(s.items[i])
  {
    hide Do, Inv, Sequential, NextSteps, Changes, Measure;
    if Settled(s.items[i]) {
      steps := [];
      assert Run(s, []) == s;
    } else {
      var next := NextSteps(s.items[i], i, |s.passes|);
      var s' := Run(s, next);
      Progress(s, i);
      SequentialRun(s, next);
      ChangesBounded(s, next, i);
      hide Run;
      var rest := DrivenOn(s', i);
      RunConcat(s, next, rest);
      OneAtATimeConcat(s, next, rest);
      steps := next + rest;
    }
  }

  /** Failed otherwise for good, or pending without a job and with no request out. */
  predicate Stranded(it: Item) { !Hopeful(it) }

  /** A stranded item stays stranded until a job of another item of its batch sends it. */
  lemma StrandedStep(s: State, step: Step, i: nat)
    requires Inv(s) && !Untimely(s, step) && i < |s.items| && Stranded(s.items[i]) && step != Send(i, false)
    ensures i < |Do(s, step).items| && Stranded(Do(s, step).items[i])
  {
    assert ItemOk(s.items[i], s.clock);
    hide Spaced, Delay;
    ItemsAdvance(s, step, i);
  }

  lemma {:induction false} StrandedForever(s: State, steps: seq<Step>, i: nat)
    requires Inv(s) && Timely(s, steps) && Unaided(steps, i) && i < |s.items| && Stranded(s.items[i])
    ensures i < |Run(s, steps).items| && Stranded(Run(s, steps).items[i])
  {
    if steps != [] {
      hide Do, Untimely, Inv, Hopeful;
      var n := |steps| - 1;
      TimelyPrefix(s, steps, n);
      StrandedForever(s, steps[..n], i);
      RunKeeps(s, steps[..n]);
      StrandedStep(Run(s, steps[..n]), steps[n], i);
    }
  }

  /** So by its own jobs the timeout is within reach exactly when the item is not stranded. */
  lemma TimesOutExactly(s: State, i: nat)
    requires Inv(s) && Sequential(s) && i < |s.items|
    ensures (exists steps :: OneAtATime(s, steps) && Unaided(steps, i) && |s.items| <= |Run(s, steps).items|
                             && Run(s, steps).items[i].status == Failed(Timeout))
            <==> Hopeful(s.items[i])
  {
    hide Do, Inv, Sequential, OneAtATime;
    if Hopeful(s.items[i]) {
      var steps := DrivenToFailed(s, i);
      SequentialRun(s, steps);
      RunKeeps(s, steps);
    } else {
      forall steps | OneAtATime(s, steps) && Unaided(steps, i)
        ensures |s.items| <= |Run(s, steps).items| && Run(s, steps).items[i].status != Failed(Timeout)
      {
        SequentialRun(s, steps);
        RunKeeps(s, steps);
        StrandedForever(s, steps, i);
      }
    }
  }

  /** A stranded item without failure exists: the pass claims it while its operation is being cancelled. */
  lemma ClaimedWhileCancelled()
    ensures var s := Run(START, OPENING + [Tick(30), PassStart([0])] + [PassHandle(0), Drop(0)]);
            && s.items == [Item(Pending, 1, Some(0), Removing, 0, false, [0], [Accepted])]
            && Stranded(s.items[0])
  {
    OpeningWorks();
    var s := Run(START, OPENING);
    DelayTable();
    hide Delay, Run;
    assert AllAccepted(1) == [Accepted];
    ClaimWorks(s, s.items[0], 30);
    var s2 := Do(Do(s, Tick(30)), PassStart([0]));
    var s3 := Do(s2, PassHandle(0));
    hide Handle, Snapshot;
    assert Do(s3, Drop(0)).items == [Item(Pending, 1, Some(0), Removing, 0, false, [0], [Accepted])];
    RunTwo(s, Tick(30), PassStart([0]));
    RunTwo(s2, PassHandle(0), Drop(0));
    RunConcat(START, OPENING, [Tick(30), PassStart([0])]);
    RunConcat(START, OPENING + [Tick(30), PassStart([0])], [PassHandle(0), Drop(0)]);
  }
}
