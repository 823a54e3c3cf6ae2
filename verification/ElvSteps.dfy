/** What the operations of the elevator do to its pending requests, and what follows over runs. */
module ElvSteps {
  import opened Requests
  import opened Options

  datatype Merge = NoMerge | FrontMerge(rq: Id) | BackMerge(rq: Id)

  // The request that io can be merged into: the one merged into last if io adjoins it, else one of its kind that ends
  // where io begins.
  ghost predicate Found(last: Option<Id>, reqs: map<Id, Request>, io: Ioreq, m: Merge) {
    if last.Some? && last.value in reqs && End(reqs[last.value]) == io.off then m == BackMerge(last.value)
    else if last.Some? && last.value in reqs && reqs[last.value].off == io.off + io.count then
      m == FrontMerge(last.value)
    else
      || (m.BackMerge? && m.rq in reqs && End(reqs[m.rq]) == io.off && reqs[m.rq].write == io.write)
      || (m.NoMerge? && forall x :: x in reqs && End(reqs[x]) == io.off ==> reqs[x].write != io.write)
  }

  // It is merged unless that makes the request too large.
  ghost predicate Chosen(last: Option<Id>, reqs: map<Id, Request>, io: Ioreq, maxsize: nat, m: Merge) {
    || (m != NoMerge && Found(last, reqs, io, m) && m.rq in reqs && reqs[m.rq].count + io.count <= maxsize)
    || (m == NoMerge && Found(last, reqs, io, m))
    || (m == NoMerge && exists f ::
          f != NoMerge && Found(last, reqs, io, f) && f.rq in reqs && reqs[f.rq].count + io.count > maxsize)
  }

  datatype Op = Arrive(io: Ioreq) | Next

  // No ioreq arrives twice.
  ghost predicate Distinct(ops: seq<Op>) {
    forall i, j :: 0 <= i < j < |ops| && ops[i].Arrive? && ops[j].Arrive? ==> ops[i].io != ops[j].io
  }

  // The ioreqs of a run are not empty and do not overlap.
  ghost predicate Disjoint(ops: seq<Op>) {
    && (forall i :: 0 <= i < |ops| && ops[i].Arrive? ==> ops[i].io.count > 0)
    && forall i, j :: 0 <= i < j < |ops| && ops[i].Arrive? && ops[j].Arrive? ==> ApartFrom(ops[j].io, ops[i].io)
  }

  ghost predicate ApartFrom(a: Ioreq, b: Ioreq) { a.off + a.count <= b.off || b.off + b.count <= a.off }

  // io is not empty and overlaps no ioreq that is pending.
  ghost predicate Welcome(reqs: map<Id, Request>, io: Ioreq) {
    io.count > 0 && forall b :: b in Held(reqs) ==> ApartFrom(io, b)
  }

  // The pending requests, and the one that was merged into or filed last.
  datatype Sight = Sight(reqs: map<Id, Request>, last: Option<Id>)

  // io begins where the request ends, or ends where it begins.
  ghost predicate Adjoins(r: Request, io: Ioreq) { End(r) == io.off || r.off == io.off + io.count }

  // What becomes of io, for a merge m that was chosen for it; whatever request io ends up in is tried first next time,
  // unless io became a request of its own while another one, which it does not adjoin, was to be tried.
  ghost predicate EnteredBy(maxsize: nat, s: Sight, s': Sight, io: Ioreq, m: Merge) {
    && Chosen(s.last, s.reqs, io, maxsize, m)
    && match m
       case BackMerge(x) =>
         x in s.reqs && ClosedBehind(s.reqs[x := Appended(s.reqs[x], io)], s'.reqs, x, maxsize) && s'.last == Some(x)
       case FrontMerge(x) =>
         x in s.reqs && ClosedAhead(s.reqs[x := Prepended(s.reqs[x], io)], s'.reqs, x, maxsize, s'.last)
       case NoMerge =>
         exists x :: x !in s.reqs && s'.reqs == s.reqs[x := Single(io)] && s'.last == LastAlone(s, io, x)
  }

  // The request that is tried first after io became request x.
  ghost function LastAlone(s: Sight, io: Ioreq, x: Id): Option<Id> {
    if s.last.Some? && s.last.value in s.reqs && !Adjoins(s.reqs[s.last.value], io) then s.last else Some(x)
  }

  ghost predicate Entered(maxsize: nat, s: Sight, s': Sight, io: Ioreq) { exists m :: EnteredBy(maxsize, s, s', io, m) }

  // x is the write request of lowest offset, or the read request of lowest offset when no write request is pending.
  ghost predicate Leads(reqs: map<Id, Request>, x: Id) {
    && x in reqs
    && forall y :: y in reqs && y != x ==>
      if reqs[y].write == reqs[x].write then reqs[x].off < reqs[y].off else reqs[x].write
  }

  // What a step does to the requests that are pending.
  ghost predicate Moved(maxsize: nat, op: Op, s: Sight, s': Sight, out: Option<Request>) {
    match op
    case Arrive(io) =>
      && out.None?
      && if Welcome(s.reqs, io) then Entered(maxsize, s, s', io) && Held(s'.reqs) == Held(s.reqs) + {io} else s' == s
    case Next =>
      if out.None? then s' == s && s.reqs == map[]
      else
        && Held(s.reqs) == Held(s'.reqs) + Parts(out) && Held(s'.reqs) !! Parts(out)
        && exists x :: Leads(s.reqs, x) && Some(s.reqs[x]) == out && s'.reqs == s.reqs - {x}
             && s'.last == if s.last == Some(x) then None else s.last
  }

  ghost function Accepted(ops: seq<Op>, trace: seq<Sight>, n: nat): set<Ioreq>
    requires n <= |ops| && n <= |trace|
  {
    set i | 0 <= i < n && ops[i].Arrive? && Welcome(trace[i].reqs, ops[i].io) :: ops[i].io
  }

  ghost function Parts(out: Option<Request>): set<Ioreq> {
    if out.None? then {} else set io | io in out.value.batch
  }

  ghost function Emitted(outs: seq<Option<Request>>): set<Ioreq> {
    set i, io | 0 <= i < |outs| && io in Parts(outs[i]) :: io
  }

  lemma NothingYet(ops: seq<Op>, trace: seq<Sight>)
    ensures Accepted(ops, trace, 0) == {} && Held(map[]) == {} && Emitted([]) == {}
  {
  }

  lemma EmittedMore(outs: seq<Option<Request>>, out: Option<Request>)
    ensures Emitted(outs + [out]) == Emitted(outs) + Parts(out)
    ensures forall i :: 0 <= i < |outs| ==> Parts(outs[i]) <= Emitted(outs)
  {
    hide Parts;
    var outs' := outs + [out];
    assert forall i :: 0 <= i < |outs| ==> outs'[i] == outs[i];
    assert outs'[|outs|] == out;
  }

  lemma AcceptedMore(ops: seq<Op>, trace: seq<Sight>, n: nat, next: Sight)
    requires n < |ops| && |trace| == n + 1
    ensures Accepted(ops, trace + [next], n + 1) == Accepted(ops, trace, n)
      + if ops[n].Arrive? && Welcome(trace[n].reqs, ops[n].io) then {ops[n].io} else {}
  {
    hide Welcome;
    var trace' := trace + [next];
    assert forall i :: 0 <= i <= n ==> trace'[i] == trace[i];
    forall io | io in Accepted(ops, trace, n) ensures io in Accepted(ops, trace', n + 1) {
      var i :| 0 <= i < n && ops[i].Arrive? && Welcome(trace[i].reqs, ops[i].io) && ops[i].io == io;
      assert Welcome(trace'[i].reqs, ops[i].io);
    }
    if ops[n].Arrive? && Welcome(trace[n].reqs, ops[n].io) {
      assert Welcome(trace'[n].reqs, ops[n].io);
    }
  }

  // An ioreq that was accepted before is not the one that arrives now.
  lemma NotBefore(ops: seq<Op>, trace: seq<Sight>, n: nat)
    requires Distinct(ops) && n < |ops| && n <= |trace| && ops[n].Arrive?
    ensures ops[n].io !in Accepted(ops, trace, n)
  {
    hide Welcome;
  }

  // One step keeps the balance of what was accepted against what is pending and what has left.
  lemma Conserved(maxsize: nat, ops: seq<Op>, trace: seq<Sight>, n: nat, outs: seq<Option<Request>>,
                  next: Sight, out: Option<Request>)
    requires n < |ops| && |trace| == n + 1 && Distinct(ops) && Moved(maxsize, ops[n], trace[n], next, out)
    requires Accepted(ops, trace, n) == Held(trace[n].reqs) + Emitted(outs) && Held(trace[n].reqs) !! Emitted(outs)
    ensures Accepted(ops, trace + [next], n + 1) == Held(next.reqs) + Emitted(outs + [out])
    ensures Held(next.reqs) !! Emitted(outs + [out])
    ensures forall i :: 0 <= i < |outs| ==> Parts(outs[i]) !! Parts(out)
  {
    hide Distinct, Accepted, Emitted, Held, Welcome, Parts, Entered, Leads;
    AcceptedMore(ops, trace, n, next);
    EmittedMore(outs, out);
    if ops[n].Arrive? {
      NotBefore(ops, trace, n);
      NoParts();
    } else if out.None? {
      NoParts();
    }
  }

  lemma NoParts()
    ensures Parts(None) == {}
  {
  }

  // A run whose steps are as specified, from no pending requests on.
  ghost predicate Follows(maxsize: nat, ops: seq<Op>, outs: seq<Option<Request>>, trace: seq<Sight>) {
    && |outs| == |ops| && |trace| == |ops| + 1 && trace[0].reqs == map[]
    && forall i :: 0 <= i < |ops| ==> Moved(maxsize, ops[i], trace[i], trace[i + 1], outs[i])
  }

  /** Ioreqs that do not overlap each other are all accepted. */
  lemma {:induction false} AllAccepted(maxsize: nat, ops: seq<Op>, trace: seq<Sight>, outs: seq<Option<Request>>,
                                       n: nat)
    requires Disjoint(ops) && n <= |ops| && Follows(maxsize, ops, outs, trace)
    ensures Held(trace[n].reqs) <= Accepted(ops, trace, n)
    ensures forall i :: 0 <= i < n && ops[i].Arrive? ==> ops[i].io in Accepted(ops, trace, n)
  {
    hide Held, Parts, Entered, Leads;
    if n == 0 {
      NothingYet(ops, trace);
    } else {
      AllAccepted(maxsize, ops, trace, outs, n - 1);
      assert Accepted(ops, trace, n - 1) <= Accepted(ops, trace, n);
      assert Moved(maxsize, ops[n - 1], trace[n - 1], trace[n - 1 + 1], outs[n - 1]);
      if ops[n - 1].Arrive? {
        WelcomeAll(ops, trace, n - 1);
      }
    }
  }

  lemma WelcomeAll(ops: seq<Op>, trace: seq<Sight>, n: nat)
    requires Disjoint(ops) && n < |ops| && n < |trace| && ops[n].Arrive?
    requires Held(trace[n].reqs) <= Accepted(ops, trace, n)
    ensures Welcome(trace[n].reqs, ops[n].io)
  {
    hide Held;
    forall b | b in Held(trace[n].reqs) ensures ApartFrom(ops[n].io, b) {
      assert b in Accepted(ops, trace, n);
      var i :| 0 <= i < n && ops[i].Arrive? && ops[i].io == b;
    }
  }

  // ---------- The request that is tried first ----------

  // The ioreqs are all in one request.
  ghost predicate Together(reqs: map<Id, Request>, parts: set<Ioreq>) {
    exists z :: z in reqs && forall io :: io in parts ==> io in reqs[z].batch
  }

  // A request that was extended at the front is still there when the gap ahead of it has been closed.
  lemma ClosedTogether(before: map<Id, Request>, after: map<Id, Request>, x: Id, maxsize: nat, last: Option<Id>,
                       parts: set<Ioreq>)
    requires ClosedAhead(before, after, x, maxsize, last) && x in before
    requires forall io :: io in parts ==> io in before[x].batch
    ensures last.Some? && last.value in after && forall io :: io in parts ==> io in after[last.value].batch
  {
    if exists y: Id :: MergedPair(before, after, y, x, maxsize) && last == Some(y) {
      var y: Id :| MergedPair(before, after, y, x, maxsize) && last == Some(y);
      assert after[y].batch == before[y].batch + before[x].batch;
    }
  }

  /** An ioreq that ends where the request to be tried first begins, and fits, joins it. */
  lemma JoinsLast(maxsize: nat, s: Sight, s': Sight, io: Ioreq, y: Id)
    requires Entered(maxsize, s, s', io) && s.last == Some(y) && y in s.reqs && s.reqs[y].count > 0 && io.count > 0
    requires s.reqs[y].off == io.off + io.count && s.reqs[y].count + io.count <= maxsize
    ensures Together(s'.reqs, {io} + set b | b in s.reqs[y].batch)
  {
    hide ClosedAhead, ClosedBehind;
    var m :| EnteredBy(maxsize, s, s', io, m);
    assert m == FrontMerge(y);
    var before := s.reqs[y := Prepended(s.reqs[y], io)];
    ClosedTogether(before, s'.reqs, y, maxsize, s'.last, {io} + set b | b in s.reqs[y].batch);
  }

  // After io became a request of its own, which it does when its request is new.
  lemma AloneFacts(maxsize: nat, s: Sight, s': Sight, io: Ioreq, x: Id)
    requires Entered(maxsize, s, s', io) && x !in s.reqs && s'.reqs == s.reqs[x := Single(io)]
    ensures s'.last == LastAlone(s, io, x)
  {
    var m :| EnteredBy(maxsize, s, s', io, m);
    assert x in s'.reqs;
    KeysTell(maxsize, s, s', io, m);
    var z :| z !in s.reqs && s'.reqs == s.reqs[z := Single(io)] && s'.last == LastAlone(s, io, z);
    assert z in s'.reqs.Keys;
  }

  // There is a new request exactly when there was no merge.
  lemma KeysTell(maxsize: nat, s: Sight, s': Sight, io: Ioreq, m: Merge)
    requires EnteredBy(maxsize, s, s', io, m)
    ensures m == NoMerge <==> !(s'.reqs.Keys <= s.reqs.Keys)
    ensures (exists x :: x in s'.reqs && x !in s.reqs) ==> m == NoMerge
  {
    if m == NoMerge {
      var z :| z !in s.reqs && s'.reqs == s.reqs[z := Single(io)];
      assert z in s'.reqs.Keys;
    }
  }

  /** Two arrivals: when nothing was to be tried first and io becomes a request of its own, the next ioreq, if it ends
    * where io begins and both fit into one request, joins it.
    */
  lemma TwoArrivals(maxsize: nat, s: Sight, s1: Sight, s2: Sight, io: Ioreq, next: Ioreq, x: Id)
    requires Entered(maxsize, s, s1, io) && Entered(maxsize, s1, s2, next) && s.last.None?
    requires x !in s.reqs && s1.reqs == s.reqs[x := Single(io)]
    requires io.count > 0 && next.count > 0 && next.off + next.count == io.off && io.count + next.count <= maxsize
    ensures Together(s2.reqs, {next, io})
  {
    AloneFacts(maxsize, s, s1, io, x);
    JoinsLast(maxsize, s1, s2, next, x);
    assert io in s1.reqs[x].batch;
    TogetherFewer(s2.reqs, {next} + (set b | b in s1.reqs[x].batch), {next, io});
  }

  lemma TogetherFewer(reqs: map<Id, Request>, parts: set<Ioreq>, fewer: set<Ioreq>)
    requires Together(reqs, parts) && fewer <= parts
    ensures Together(reqs, fewer)
  {
  }

  // After a merge the request that io is in is tried first.
  lemma MergedFacts(maxsize: nat, s: Sight, s': Sight, io: Ioreq)
    requires Entered(maxsize, s, s', io) && s'.reqs.Keys <= s.reqs.Keys
    ensures s'.last.Some? && s'.last.value in s'.reqs && io in s'.reqs[s'.last.value].batch
  {
    hide ClosedAhead;
    var m :| EnteredBy(maxsize, s, s', io, m);
    KeysTell(maxsize, s, s', io, m);
    if m.BackMerge? {
      assert io in Appended(s.reqs[m.rq], io).batch;
    } else {
      ClosedTogether(s.reqs[m.rq := Prepended(s.reqs[m.rq], io)], s'.reqs, m.rq, maxsize, s'.last, {io});
    }
  }

  /** The same after a merge: what then ends where the merged request begins, and fits, joins it. */
  lemma JoinsMerged(maxsize: nat, s: Sight, s1: Sight, s2: Sight, io: Ioreq, next: Ioreq, y: Id)
    requires Entered(maxsize, s, s1, io) && s1.reqs.Keys <= s.reqs.Keys && Entered(maxsize, s1, s2, next)
    requires y in s1.reqs && s1.last == Some(y) && s1.reqs[y].count > 0 && next.count > 0
    requires next.off + next.count == s1.reqs[y].off && s1.reqs[y].count + next.count <= maxsize
    ensures io in s1.reqs[y].batch && Together(s2.reqs, {next, io})
  {
    MergedFacts(maxsize, s, s1, io);
    JoinsLast(maxsize, s1, s2, next, y);
    TogetherFewer(s2.reqs, {next} + (set b | b in s1.reqs[y].batch), {next, io});
  }
}
