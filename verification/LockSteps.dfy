/** The steps of a resource: what each of them does to the locks, whatever way it is carried out. */
module LockSteps {
  import opened Words
  import opened Shapes
  import opened LockModes
  import opened Alignment
  import opened Lists
  import opened LockBook
  import opened LockPolicy
  import opened LockConflicts

  /** Lock x, which nobody stood in the way of, is granted on the extent that the policies choose: it contains the
    * request, no granted lock of an incompatible mode overlaps it, and it keeps off the waiting locks.
    */
  ghost predicate GrantedTo(b: Book, b': Book, x: Id) {
    && Inv(b) && OnlyChanged(b, b', x) && x in b.locks && x in b'.locks
    && b'.granted == b.granted + [x] && b'.waiting == Without(b.waiting, x)
    && b'.locks[x] == b.locks[x].(granted := true, ext := b'.locks[x].ext, node := b'.locks[x].node)
    && Within(b.locks[x].req, b'.locks[x].ext) && Free(b, b.locks[x].mode, b'.locks[x].ext)
    && (forall l :: l in b.waiting && l in b.locks && l != x ==> KeepsOff(b.locks[l], b.locks[x], b'.locks[x].ext))
    && Sized(b) && (forall l :: l in b.waiting ==> l in b.locks) && ExtentFor(b, x, b'.locks[x].ext)
  }

  /** Lock x has to wait, and all who stand in its way have been told. */
  ghost predicate BlockedBy(b: Book, b': Book, x: Id) {
    && Inv(b) && x in b.locks && Obstacles(b, x) != {} && Notified(b.locks, b'.locks, Obstacles(b, x))
    && b' == b.(locks := b'.locks, waiting := if x in b.waiting then b.waiting else b.waiting + [x])
  }

  /** Lock x is destroyed; if it was granted, it leaves its interval node, which leaves the tree with its last lock. */
  ghost predicate CancelledFrom(b: Book, b': Book, x: Id) {
    && x in b.locks && if b.locks[x].granted then
      && b.locks[x].node in b.groups && Sized(b) && b.sizes[Index(b.locks[x].mode)] > 0 && b' == Cut(b, x)
    else b' == Drop(b, x)
  }

  datatype Outcome = Granted | Blocked | Denied

  // What an enqueue says after its callbacks: wait, try the whole operation again, already granted, or a new attempt.
  datatype Reply = Waits | Again | Held | Restarted(outcome: Outcome)

  datatype Step =
    | Arrive(x: Id, mode: Mode, req: Extent, client: nat, blocking: bool, node: Ptr)
    | Try(x: Id, deny: bool, now: int)
    | Resume(x: Id, restart: bool, deny: bool, now: int)
    | Recheck(x: Id)
    | Release(x: Id)

  // ---------- Contention ----------

  // What the namespace sets: how many locks in conflict make a resource contended, for how long, and how large a
  // request may be that is denied then.
  datatype Limits = Limits(contendedLocks: nat, contentionTime: nat, maxNolockSize: nat)

  // A request that may be denied: its client asked for it, and it is small.
  ghost predicate Deniable(limits: Limits, k: Lock, deny: bool) {
    deny && k.req.end - k.req.start <= limits.maxNolockSize
  }

  // The contention clock after the scan of the granted locks, and after that of the waiting ones.
  ghost function GrantedClock(limits: Limits, b: Book, x: Id, clock: int, now: int): int
    requires x in b.locks
  {
    if |Counting(b.locks, Blockers(b, b.locks[x], LCK_MODE_NUM))| > limits.contendedLocks then now else clock
  }

  ghost function WaitingClock(limits: Limits, b: Book, x: Id, clock: int, now: int): int
    requires Inv(b) && x in b.locks
  {
    var n := |Counting(b.locks, Blockers(b, b.locks[x], LCK_MODE_NUM))|;
    var stop := ScanStop(b.locks, b.waiting, x, 0);
    if n + ContendCount(b.locks, b.waiting, x, stop) > limits.contendedLocks then now
    else GrantedClock(limits, b, x, clock, now)
  }

  // A granted lock is in the way, and the resource is contended.
  ghost predicate DeniedFirst(limits: Limits, b: Book, x: Id, deny: bool, clock: int, now: int)
    requires x in b.locks
  {
    && Deniable(limits, b.locks[x], deny) && Blockers(b, b.locks[x], LCK_MODE_NUM) != {}
    && now < GrantedClock(limits, b, x, clock, now) + limits.contentionTime
  }

  // A waiting lock is in the way, the scan was not cut short, and the resource is contended.
  ghost predicate DeniedLater(limits: Limits, b: Book, x: Id, deny: bool, clock: int, now: int)
    requires Inv(b) && x in b.locks
  {
    var stop := ScanStop(b.locks, b.waiting, x, 0);
    && Deniable(limits, b.locks[x], deny) && Ahead(b.locks, b.waiting, x, stop) != {} && ScansOn(b.waiting, x, stop)
    && now < WaitingClock(limits, b, x, clock, now) + limits.contentionTime
  }

  ghost predicate MustDeny(limits: Limits, b: Book, x: Id, deny: bool, clock: int, now: int)
    requires Inv(b) && x in b.locks
  {
    DeniedFirst(limits, b, x, deny, clock, now) || DeniedLater(limits, b, x, deny, clock, now)
  }

  ghost function ClockAfter(limits: Limits, b: Book, x: Id, deny: bool, clock: int, now: int): int
    requires Inv(b) && x in b.locks
  {
    if DeniedFirst(limits, b, x, deny, clock, now) || !ScansOn(b.waiting, x, ScanStop(b.locks, b.waiting, x, 0))
    then GrantedClock(limits, b, x, clock, now)
    else WaitingClock(limits, b, x, clock, now)
  }

  // ---------- Steps ----------

  // The locks of a resource and its contention clock.
  datatype Standing = Standing(book: Book, clock: int)

  // An attempt drops the lock exactly under contention; otherwise it grants it if nobody is in its way, and lets it
  // wait if somebody is.
  ghost predicate Attempted(limits: Limits, s: Standing, s': Standing, x: Id, deny: bool, now: int)
    requires Inv(s.book) && x in s.book.locks
  {
    && s'.clock == ClockAfter(limits, s.book, x, deny, s.clock, now)
    && if MustDeny(limits, s.book, x, deny, s.clock, now) then s'.book == Drop(s.book, x)
       else if Obstacles(s.book, x) == {} then GrantedTo(s.book, s'.book, x)
       else BlockedBy(s.book, s'.book, x)
  }

  ghost function Arriving(b: Book, x: Id, mode: Mode, req: Extent, client: nat, blocking: bool, node: Ptr): Book {
    if x !in b.locks && PageAligned(req) && node != NULL && node !in b.groups
    then Create(b, x, Lock(mode, false, req, req, node, client, blocking, false, false))
    else b
  }

  /** What a step does to a resource.  A step whose caller's conditions do not hold changes nothing. */
  ghost predicate Follows(limits: Limits, step: Step, s: Standing, s': Standing)
    requires Inv(s.book)
  {
    var b, b' := s.book, s'.book;
    match step
    case Arrive(x, mode, req, client, blocking, node) =>
      s'.clock == s.clock && b' == Arriving(b, x, mode, req, client, blocking, node)
    case Try(x, deny, now) =>
      if x in b.locks && Pending(b.locks[x]) then Attempted(limits, s, s', x, deny, now) else s' == s
    case Resume(x, restart, deny, now) =>
      if restart && x in b.locks && Pending(b.locks[x]) then Attempted(limits, s, s', x, deny, now) else s' == s
    case Recheck(x) =>
      && s'.clock == s.clock
      && if x in b.waiting && x in b.locks && Obstacles(b, x) == {} then GrantedTo(b, b', x) else b' == b
    case Release(x) =>
      s'.clock == s.clock && if x in b.locks && !b.locks[x].destroyed then CancelledFrom(b, b', x) else b' == b
  }
}
