/** The fault-mode page protocol of the guest write tracker, as a transition
    system: one owner thread that arms, disarms and collects, any number of
    threads that fault on protected pages or announce host writes, and a queue of
    written pages. A step is one atomic action of the source: one compare-and-swap
    or store on a page state, one mprotect, one fetch_add, one slot access. Only where
    ArmFault skips a page the look at its state is joined with the mprotect of the batch
    before it: that the page is not open cannot change in between, since the owner alone
    opens pages. ArmFault can give up only where the page table has no chunk yet, that is
    at a page in whose 1 GiB chunk no page was ever armed. Pages are page numbers; page 0
    does not occur, since a zero slot means empty.
 */
module WriteProtocol {
  /** A thread other than the owner. The four Host states are OnHostWrite, whose
      `run` is the first page it exchanged but has not opened yet (0: none). */
  datatype Writer =
    | Idle
    | Faulted(page: nat)
    | Opening(page: nat)
    | Claiming(page: nat)
    | Filling(page: nat, slot: nat)
    | HostScan(end: nat, at: nat, run: nat)
    | HostClaim(end: nat, at: nat, run: nat)
    | HostFill(end: nat, at: nat, run: nat, slot: nat)
    | HostFlush(end: nat, at: nat, run: nat)

  /** The owner's program counter: AllArmed, ArmFault's two loops, DisarmFault
      followed by NoteWrite, and TakeFaulted. */
  datatype Owner =
    | Resting
    | Scanning(first: nat, end: nat, at: nat)
    | Checking(first: nat, end: nat, at: nat)
    | Marking(first: nat, end: nat, at: nat, run: nat)
    | Disarming(first: nat, end: nat, at: nat)
    | Noting(first: nat, end: nat)
    | Taking(at: nat, head: nat, taken: seq<nat>)
    | Reopening(todo: set<nat>)

  /** `shielded` and `queued` are the pages whose state is protected and queued,
      `readOnly` the pages the host refuses writes to, `log` the page each queue
      position was claimed for, `armed` the pages of the owner's run map.
      `tracked` are the pages Arm returned true for that were not reported since,
      `written` those of them that a guest store has changed since. */
  datatype State = State(
    capacity: nat,
    shielded: set<nat>,
    queued: set<nat>,
    readOnly: set<nat>,
    everArmed: set<nat>,
    slots: seq<nat>,
    log: seq<nat>,
    tail: nat,
    armed: set<nat>,
    owner: Owner,
    writers: seq<Writer>,
    tracked: set<nat>,
    written: set<nat>)

  datatype Step =
    | Store(page: nat)
    | Fault(t: nat, page: nat)
    | HostBegin(t: nat, first: nat, end: nat)
    | Thread(t: nat)
    | Scan(first: nat, end: nat)
    | Arm(first: nat, end: nat)
    | Refuse
    | Abort
    | Disarm(first: nat, end: nat)
    | Take
    | Reopen(page: nat)
    | Advance

  /** Pages of 4 KiB in a chunk of 1 GiB. */
  const CHUNK_PAGES: nat := 0x4_0000

  predicate In(lo: int, p: int, hi: int) {
    lo <= p < hi
  }

  function Pages(lo: nat, hi: nat): set<nat> {
    set p: nat | lo <= p < hi && In(lo, p, hi)
  }

  function Elements(s: seq<nat>): set<nat> {
    set p | p in s
  }

  /** Pages a pending batch would protect or open; none while `run` is 0. */
  function Batch(run: nat, at: nat): set<nat> {
    if run == 0 then {} else Pages(run, at)
  }

  predicate Init(s: State) {
    && s.capacity >= 2
    && s.shielded == {} && s.queued == {} && s.readOnly == {} && s.everArmed == {}
    && s.slots == seq(s.capacity, i => 0) && s.log == [] && s.tail == 0
    && s.armed == {} && s.owner == Resting && s.tracked == {} && s.written == {}
    && forall t :: 0 <= t < |s.writers| ==> s.writers[t] == Idle
  }

  predicate Enabled(s: State, step: Step) {
    match step
    case Store(p) => p !in s.readOnly
    case Fault(t, p) => t < |s.writers| && s.writers[t] == Idle && p in s.readOnly
    case HostBegin(t, first, end) => t < |s.writers| && s.writers[t] == Idle && 0 < first <= end
    case Thread(t) => t < |s.writers| && s.writers[t] != Idle
    case Scan(first, end) => s.owner == Resting && 0 < first < end
    case Arm(first, end) =>
      s.owner == Resting && 0 < first < end && |s.armed| + (end - first) < s.capacity / 2
    case Refuse => s.owner.Checking?
    case Abort =>
      && s.owner.Marking? && s.owner.at < s.owner.end
      && forall p :: p in s.everArmed ==> p / CHUNK_PAGES != s.owner.at / CHUNK_PAGES
    case Disarm(first, end) => s.owner == Resting && 0 < first < end
    case Take => s.owner == Resting
    case Reopen(p) => s.owner.Reopening? && p in s.owner.todo
    case Advance =>
      match s.owner
      case Resting => false
      case Taking(at, head, taken) =>
        at >= head || (s.capacity == |s.slots| && s.capacity > 0 && s.slots[at % s.capacity] != 0)
      case Reopening(todo) => todo == {}
      case _ => true
  }

  function SetWriter(s: State, t: nat, w: Writer): State
    requires t < |s.writers|
  {
    s.(writers := s.writers[t := w])
  }

  /** One action of a writer or of OnHostWrite. */
  function ThreadStep(s: State, t: nat): State
    requires t < |s.writers|
  {
    match s.writers[t]
    case Idle => s
    case Faulted(p) =>
      if p in s.shielded
      then SetWriter(s, t, Opening(p)).(shielded := s.shielded - {p}, queued := s.queued + {p})
      else SetWriter(s, t, Idle)
    case Opening(p) => SetWriter(s, t, Claiming(p)).(readOnly := s.readOnly - {p})
    case Claiming(p) => SetWriter(s, t, Filling(p, |s.log|)).(log := s.log + [p])
    case Filling(p, slot) => Put(SetWriter(s, t, Idle), slot, p)
    case HostScan(end, at, run) =>
      if at < end && at in s.shielded
      then SetWriter(s, t, HostClaim(end, at, if run == 0 then at else run))
           .(shielded := s.shielded - {at}, queued := s.queued + {at})
      else SetWriter(s, t, HostFlush(end, at, run))
    case HostClaim(end, at, run) => SetWriter(s, t, HostFill(end, at, run, |s.log|)).(log := s.log + [at])
    case HostFill(end, at, run, slot) => Put(SetWriter(s, t, HostScan(end, at + 1, run)), slot, at)
    case HostFlush(end, at, run) =>
      SetWriter(s, t, if at >= end then Idle else HostScan(end, at + 1, 0)).(readOnly := s.readOnly - Batch(run, at))
  }

  function Put(s: State, slot: nat, page: nat): State {
    if |s.slots| == 0 then s else s.(slots := s.slots[slot % |s.slots| := page])
  }

  /** One action of the owner. */
  function OwnerStep(s: State): State {
    match s.owner
    case Resting => s
    case Scanning(first, end, at) =>
      if at >= end then s.(owner := Resting, tracked := s.tracked + Pages(first, end))
      else if at in s.shielded then s.(owner := Scanning(first, end, at + 1))
      else s.(owner := Resting)
    case Checking(first, end, at) =>
      if at >= end then s.(owner := Marking(first, end, first, 0))
      else if at in s.queued then s.(owner := Resting)
      else s.(owner := Checking(first, end, at + 1))
    case Marking(first, end, at, run) =>
      if at >= end
      then s.(owner := Resting, readOnly := s.readOnly + Batch(run, at),
              armed := s.armed + Pages(first, end), tracked := s.tracked + Pages(first, end))
      else if at in s.shielded || at in s.queued
      then s.(owner := Marking(first, end, at + 1, 0), readOnly := s.readOnly + Batch(run, at))
      else s.(owner := Marking(first, end, at + 1, if run == 0 then at else run),
              everArmed := s.everArmed + {at}, shielded := s.shielded + {at})
    case Disarming(first, end, at) =>
      if at >= end
      then s.(owner := Noting(first, end), readOnly := s.readOnly - Pages(first, end),
              armed := s.armed - Pages(first, end))
      else s.(owner := Disarming(first, end, at + 1), shielded := s.shielded - {at})
    case Noting(first, end) =>
      s.(owner := Resting, tracked := s.tracked - Pages(first, end), written := s.written - Pages(first, end))
    case Taking(at, head, taken) =>
      if at >= head then s.(owner := Reopening(Elements(taken)), tail := head)
      else if |s.slots| == 0 then s
      else s.(owner := Taking(at + 1, head, taken + [s.slots[at % |s.slots|]]),
              slots := s.slots[at % |s.slots| := 0])
    case Reopening(todo) => s.(owner := Resting)
  }

  function Apply(s: State, step: Step): State
    requires Enabled(s, step)
  {
    match step
    case Store(p) => if p in s.tracked then s.(written := s.written + {p}) else s
    case Fault(t, p) => SetWriter(s, t, Faulted(p))
    case HostBegin(t, first, end) => SetWriter(s, t, HostScan(end, first, 0))
    case Thread(t) => ThreadStep(s, t)
    case Scan(first, end) => s.(owner := Scanning(first, end, first))
    case Arm(first, end) => s.(owner := Checking(first, end, first))
    case Refuse => s.(owner := Resting)
    case Abort => s.(owner := Resting)
    case Disarm(first, end) => s.(owner := Disarming(first, end, first))
    case Take => s.(owner := Taking(s.tail, |s.log|, []))
    case Reopen(p) =>
      s.(owner := Reopening(s.owner.todo - {p}), queued := s.queued - {p}, armed := s.armed - {p},
         tracked := s.tracked - {p}, written := s.written - {p})
    case Advance => OwnerStep(s)
  }

  // ---- runs -------------------------------------------------------------

  /** Pages a host write has exchanged but not opened yet. */
  function Unopened(w: Writer): set<nat> {
    match w
    case HostScan(_, at, run) => Batch(run, at)
    case HostFlush(_, at, run) => Batch(run, at)
    case HostClaim(_, at, run) => Batch(run, at + 1)
    case HostFill(_, at, run, _) => Batch(run, at + 1)
    case _ => {}
  }

  /** The pages ArmFault is protecting right now. */
  function Target(o: Owner): set<nat> {
    if o.Marking? then Pages(o.first, o.end) else {}
  }

  /** Written pages that a Disarm took out of the run map before they were collected. */
  function Orphans(s: State): set<nat> {
    s.queued - s.armed - Target(s.owner)
  }

  /** The first queue position that has not been taken. */
  function Position(o: Owner, tail: nat): nat {
    if o.Taking? then o.at else tail
  }

  /** ArmFault is about to mark an open page. */
  predicate MarksOpen(s: State, step: Step) {
    && step.Advance? && s.owner.Marking? && s.owner.at < s.owner.end
    && s.owner.at !in s.shielded && s.owner.at !in s.queued
  }

  /** What protection relies on: ArmFault does not give up while it has marked a page that
      is still writable, and does not mark a page that a host write has yet to open. */
  predicate PageSafe(s: State, step: Step) {
    && (step.Abort? ==> s.shielded <= s.readOnly)
    && (MarksOpen(s, step) ==> forall t :: 0 <= t < |s.writers| ==> s.owner.at !in Unopened(s.writers[t]))
  }

  predicate Claims(s: State, step: Step) {
    step.Thread? && step.t < |s.writers| && (s.writers[step.t].Claiming? || s.writers[step.t].HostClaim?)
  }

  /** What the queue relies on: it is not full when a thread claims a position. */
  predicate QueueSafe(s: State, step: Step) {
    Claims(s, step) ==> |s.log| < Position(s.owner, s.tail) + s.capacity
  }

  /** A run of enabled steps, whatever the environment does. */
  predicate Possible(s: State, steps: seq<Step>)
    decreases |steps|
  {
    steps == [] || (Enabled(s, steps[0]) && Possible(Apply(s, steps[0]), steps[1..]))
  }

  /** Every step of a possible run obeys the guard. */
  predicate Obeys(s: State, steps: seq<Step>, guard: (State, Step) -> bool)
    requires Possible(s, steps)
    decreases |steps|
  {
    steps == [] || (guard(s, steps[0]) && Obeys(Apply(s, steps[0]), steps[1..], guard))
  }

  function Exec(s: State, steps: seq<Step>): State
    requires Possible(s, steps)
    decreases |steps|
  {
    if steps == [] then s else Exec(Apply(s, steps[0]), steps[1..])
  }
}
