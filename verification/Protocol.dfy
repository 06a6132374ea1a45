/** The assignment protocol between the reconciler, the store's queue and the workers. */
module Protocol {
  import opened Tables
  import opened Types
  import opened Cluster
  import Text

  // ----- what is enqueued -----

  /** Stamps strictly increase along the log. */
  ghost predicate Stamped(s: State) {
    && (forall i, j :: 0 <= i < j < |s.log| ==> s.log[i].stamp < s.log[j].stamp)
    && (forall a | a in s.log :: a.stamp <= s.clock)
  }

  /** All assignments for one workload go to one node and carry the resources it was charged. */
  ghost predicate Addressed(s: State) {
    && (forall a | a in s.log :: a.workloadId in s.issued)
    && (forall a, b | a in s.log && b in s.log && a.workloadId == b.workloadId ::
          a.nodeId == b.nodeId && a.resources == b.resources)
    && (forall a | a in s.log && Has(s.workloads, a.workloadId) ::
          var w := Get(s.workloads, a.workloadId).value;
          a.nodeId == w.nodeId && a.resources == w.resources)
  }

  /** At most one create per workload, before every delete: later entries are deletes. */
  ghost predicate CreateFirst(s: State) {
    forall i, j | 0 <= i < j < |s.log| && s.log[i].workloadId == s.log[j].workloadId :: s.log[j].action == Delete
  }

  ghost predicate Keyed(queue: seq<Entry<Assignment>>) {
    forall e | e in queue :: e.id == AssignmentKey(e.rec)
  }

  /** What was enqueued is either delivered or still queued, each entry exactly once. */
  ghost predicate Partitioned(s: State) {
    && Keyed(s.queue)
    && multiset(s.log) == multiset(s.delivered) + multiset(Recs(s.queue))
  }

  ghost predicate Sound(s: State) {
    Stamped(s) && Addressed(s) && CreateFirst(s) && Partitioned(s)
  }

  lemma QueueWithinLog(s: State)
    requires Partitioned(s)
    ensures forall e | e in s.queue :: e.rec in s.log
    ensures forall a | a in s.delivered :: a in s.log
  {
    RecsAt(s.queue);
    forall e | e in s.queue ensures e.rec in s.log {
      var i :| 0 <= i < |s.queue| && s.queue[i] == e;
      assert Recs(s.queue)[i] in multiset(Recs(s.queue));
      assert e.rec in multiset(s.log);
    }
    forall a | a in s.delivered ensures a in s.log {
      assert a in multiset(s.delivered);
      assert a in multiset(s.log);
    }
  }

  /** Distinct stamps give distinct keys, whatever the node and workload identifiers are. */
  lemma KeyCarriesStamp(a: Assignment, b: Assignment)
    requires AssignmentKey(a) == AssignmentKey(b)
    ensures a.stamp == b.stamp
  {
    var p, q := AssignmentPrefix(a.nodeId) + a.workloadId, AssignmentPrefix(b.nodeId) + b.workloadId;
    assert AssignmentKey(a) == p + "-" + Text.Decimal(a.stamp);
    assert AssignmentKey(b) == q + "-" + Text.Decimal(b.stamp);
    Text.DashedNumber(p, q, a.stamp, b.stamp);
  }

  /** An enqueue never overwrites a queued assignment. */
  lemma KeyIsNew(s: State, a: Assignment)
    requires Stamped(s) && Partitioned(s) && a.stamp > s.clock
    ensures !Has(s.queue, AssignmentKey(a))
  {
    QueueWithinLog(s);
    GetMember(s.queue, AssignmentKey(a));
    if Has(s.queue, AssignmentKey(a)) {
      var e := Entry(AssignmentKey(a), Get(s.queue, AssignmentKey(a)).value);
      assert e in s.queue;
      KeyCarriesStamp(e.rec, a);
    }
  }

  lemma EnqueueKeepsStamps(s: State, a: Assignment)
    requires Stamped(s) && a.stamp > s.clock
    ensures Stamped(Enqueue(s, a))
  {
    var t := Enqueue(s, a);
    forall i, j | 0 <= i < j < |t.log| ensures t.log[i].stamp < t.log[j].stamp {
      assert s.log[i] in s.log;
    }
  }

  lemma EnqueueKeepsCreateFirst(s: State, a: Assignment)
    requires CreateFirst(s)
    requires a.action == Delete || forall b | b in s.log :: b.workloadId != a.workloadId
    ensures CreateFirst(Enqueue(s, a))
  {
    var t := Enqueue(s, a);
    forall i, j | 0 <= i < j < |t.log| && t.log[i].workloadId == t.log[j].workloadId ensures t.log[j].action == Delete {
      assert s.log[i] in s.log;
    }
  }

  lemma EnqueueKeepsAddresses(s: State, a: Assignment)
    requires Addressed(s) && a.workloadId in s.issued && Has(s.workloads, a.workloadId)
    requires var w := Get(s.workloads, a.workloadId).value; a.nodeId == w.nodeId && a.resources == w.resources
    ensures Addressed(Enqueue(s, a))
  {
    assert forall b | b in Enqueue(s, a).log :: b == a || b in s.log;
  }

  lemma EnqueueKeepsPartition(s: State, a: Assignment)
    requires Stamped(s) && Partitioned(s) && a.stamp > s.clock
    ensures Partitioned(Enqueue(s, a))
  {
    KeyIsNew(s, a);
    RecsPut(s.queue, AssignmentKey(a), a);
    PutMembers(s.queue, AssignmentKey(a), a);
    assert multiset(s.log + [a]) == multiset(s.log) + multiset{a};
  }

  lemma EnqueueIsSound(s: State, a: Assignment)
    requires Sound(s) && a.stamp > s.clock && a.workloadId in s.issued
    requires Has(s.workloads, a.workloadId)
    requires var w := Get(s.workloads, a.workloadId).value; a.nodeId == w.nodeId && a.resources == w.resources
    requires a.action == Delete || forall b | b in s.log :: b.workloadId != a.workloadId
    ensures Sound(Enqueue(s, a))
  {
    EnqueueKeepsStamps(s, a);
    EnqueueKeepsCreateFirst(s, a);
    EnqueueKeepsAddresses(s, a);
    EnqueueKeepsPartition(s, a);
  }

  /** Steps that leave the log, the queue and the charged node of every stored workload alone. */
  lemma QuietStepIsSound(s: State, t: State)
    requires Sound(s)
    requires t.log == s.log && t.queue == s.queue && t.delivered == s.delivered && t.clock == s.clock && s.issued <= t.issued
    requires forall id | Has(t.workloads, id) && id in s.issued ::
               && Has(s.workloads, id)
               && Get(t.workloads, id).value.nodeId == Get(s.workloads, id).value.nodeId
               && Get(t.workloads, id).value.resources == Get(s.workloads, id).value.resources
    ensures Sound(t)
  {
  }

  lemma {:induction false} PopMembers(t: seq<Entry<Assignment>>, gone: seq<Entry<Assignment>>, e: Entry<Assignment>)
    requires Ordered(t) && Ordered(gone)
    requires forall g | g in gone :: g in t
    ensures e in RemoveAll(t, gone) <==> e in t && e !in gone
    decreases gone
  {
    if gone != [] {
      var g := gone[0];
      PopHead(t, gone);
      GetEntry(t, e);
      PopMembers(Remove(t, g.id), gone[1..], e);
      assert gone == [g] + gone[1..];
    }
  }

  lemma PopHead(t: seq<Entry<Assignment>>, gone: seq<Entry<Assignment>>)
    requires Ordered(t) && Ordered(gone) && gone != []
    requires forall g | g in gone :: g in t
    ensures Get(t, gone[0].id) == Some(gone[0].rec)
    ensures Ordered(Remove(t, gone[0].id))
    ensures forall g | g in gone[1..] :: g in Remove(t, gone[0].id)
    ensures forall g | g in Remove(t, gone[0].id) :: g in t && g.id != gone[0].id
    ensures forall g | g in t && g.id != gone[0].id :: g in Remove(t, gone[0].id)
  {
    assert gone[0] in gone;
    GetEntry(t, gone[0]);
    RemoveOrdered(t, gone[0].id);
    RemoveMembers(t, gone[0].id);
    HeadBelow(gone);
  }

  /** A pop moves records: what it takes and what it leaves make up what was there. */
  lemma {:induction false} PopConserves(t: seq<Entry<Assignment>>, gone: seq<Entry<Assignment>>)
    requires Ordered(t) && Ordered(gone)
    requires forall e | e in gone :: e in t
    ensures multiset(Recs(t)) == multiset(Recs(gone)) + multiset(Recs(RemoveAll(t, gone)))
    decreases gone
  {
    if gone != [] {
      PopHead(t, gone);
      RecsRemove(t, gone[0].id);
      PopConserves(Remove(t, gone[0].id), gone[1..]);
    }
  }

  lemma TakeKeepsKeys(queue: seq<Entry<Assignment>>, gone: seq<Entry<Assignment>>)
    requires Ordered(queue) && Ordered(gone) && Keyed(queue)
    requires forall e | e in gone :: e in queue
    ensures Keyed(RemoveAll(queue, gone))
  {
    forall e | e in RemoveAll(queue, gone) ensures e.id == AssignmentKey(e.rec) {
      PopMembers(queue, gone, e);
    }
  }

  lemma TakeKeepsPartition(s: State, gone: seq<Entry<Assignment>>)
    requires Ordered(s.queue) && Ordered(gone) && Partitioned(s)
    requires forall e | e in gone :: e in s.queue
    ensures Partitioned(s.(queue := RemoveAll(s.queue, gone), delivered := s.delivered + Recs(gone)))
  {
    TakeKeepsKeys(s.queue, gone);
    PopConserves(s.queue, gone);
    var d, g := s.delivered, Recs(gone);
    assert multiset(d + g) == multiset(d) + multiset(g);
  }

  lemma PopKeepsPartition(s: State, node: string, max: int)
    requires Tidy(s) && Partitioned(s)
    ensures Partitioned(Apply(s, Pop(node, max)))
  {
    PoppedFromQueue(s, node, max);
    TakeKeepsPartition(s, Popped(s, node, max));
  }

  lemma PopIsSound(s: State, node: string, max: int)
    requires Tidy(s) && Sound(s)
    ensures Sound(Apply(s, Pop(node, max)))
  {
    PopKeepsPartition(s, node, max);
  }

  lemma PoppedFromQueue(s: State, node: string, max: int)
    requires Tidy(s)
    ensures Ordered(Popped(s, node, max))
    ensures forall e | e in Popped(s, node, max) :: e in s.queue
  {
    PoppedMembers(s, node, max);
  }

  lemma PoppedMembers(s: State, node: string, max: int)
    requires Tidy(s)
    ensures var gone := Popped(s, node, max);
            Ordered(gone) && forall e | e in gone :: e in s.queue && Text.HasPrefix(e.id, AssignmentPrefix(node))
  {
    WithPrefixOrdered(s.queue, AssignmentPrefix(node));
    WithPrefixMembers(s.queue, AssignmentPrefix(node));
  }

  /** A pop takes no more than it is asked for, in key order, and leaves some of the node's entries only when it took that many. */
  lemma PopTakesAsAsked(s: State, node: string, max: nat)
    ensures |Popped(s, node, max)| <= max && Popped(s, node, max) <= WithPrefix(s.queue, AssignmentPrefix(node))
    ensures |Popped(s, node, max)| == max || forall e | e in s.queue && Text.HasPrefix(e.id, AssignmentPrefix(node)) :: e in Popped(s, node, max)
  {
    WithPrefixMembers(s.queue, AssignmentPrefix(node));
  }

  lemma PlaceIsSound(s: State, step: Step)
    requires Sound(s) && Tidy(s) && Lifecycle(s) && step.Place? && Enabled(s, step)
    ensures Sound(Apply(s, step))
  {
    var d, n := Get(s.deployments, step.dep).value, Get(s.nodes, step.node).value;
    var w := NewWorkload(d, step.dep, step.node, step.created);
    var placed := Placed(s, step.wid, w, n);
    AllPut(s.workloads, step.wid, w);
    assert Sound(placed);
    if step.createStamp.Some? {
      EnqueueIsSound(placed, CreateAssignment(w, step.wid, step.createStamp.value));
    }
  }

  lemma MarkIsSound(s: State, wid: string, stamp: nat)
    requires Sound(s) && Lifecycle(s) && Enabled(s, Mark(wid, stamp))
    ensures Sound(Apply(s, Mark(wid, stamp)))
  {
    var w := Get(s.workloads, wid).value;
    var t := s.(workloads := Put(s.workloads, wid, w.(status := Terminating)));
    AllPut(s.workloads, wid, w.(status := Terminating));
    QuietStepIsSound(s, t);
    EnqueueIsSound(t, DeleteAssignment(w, wid, stamp));
  }

  lemma ReportIsSound(s: State, step: Step)
    requires Sound(s) && (step.Report? || step.Evict?)
    ensures Sound(Apply(s, step))
  {
    if Has(s.workloads, step.wid) {
      AllRemove(s.workloads, step.wid);
      if step.Report? {
        AllPut(s.workloads, step.wid, Reported(Get(s.workloads, step.wid).value, step.reported, step.container));
      }
      QuietStepIsSound(s, Apply(s, step));
    }
  }

  lemma StepIsSound(s: State, step: Step)
    requires Sound(s) && Tidy(s) && Lifecycle(s) && Enabled(s, step)
    ensures Sound(Apply(s, step))
  {
    match step
    case Place(_, _, _, _, _) => PlaceIsSound(s, step);
    case Evict(wid) => ReportIsSound(s, step);
    case Mark(wid, stamp) => MarkIsSound(s, wid, stamp);
    case Report(wid, status, container) => ReportIsSound(s, step);
    case DropDeployment(dep) => SweepRemovesNothing(s, dep); QuietStepIsSound(s, Apply(s, step));
    case Pop(node, max) => PopIsSound(s, node, max);
    case _ => QuietStepIsSound(s, Apply(s, step));
  }

  /** In every run: one node per workload, at most one create and first, and nothing repeated or dropped. */
  lemma {:induction false} ProtocolHolds(trace: seq<Step>)
    requires Admissible(trace)
    ensures Sound(Run(trace))
  {
    if trace != [] {
      var before := trace[..|trace| - 1];
      ProtocolHolds(before);
      RecordsHold(before);
      StepIsSound(Run(before), trace[|trace| - 1]);
    }
  }

  /** A controller step that newly puts a workload into Terminating enqueues its delete, with its node and resources. */
  lemma MarkingEnqueuesDelete(s: State, step: Step, wid: string)
    requires Tidy(s) && Lifecycle(s) && Enabled(s, step) && !step.Report?
    requires Has(s.workloads, wid) && Get(s.workloads, wid).value.status != Terminating
    requires Has(Apply(s, step).workloads, wid) && Get(Apply(s, step).workloads, wid).value.status == Terminating
    ensures exists a :: && Apply(s, step).log == s.log + [a]
                        && a.action == Delete && a.workloadId == wid
                        && a.nodeId == Get(s.workloads, wid).value.nodeId
                        && a.resources == Get(s.workloads, wid).value.resources
                        && Get(Apply(s, step).queue, AssignmentKey(a)) == Some(a)
  {
    match step
    case Place(dep, k, node, created, stamp) =>
      AllPut(s.workloads, k, NewWorkload(Get(s.deployments, dep).value, dep, node, created));
    case Evict(k) => AllRemove(s.workloads, k);
    case Mark(k, stamp) =>
      var w := Get(s.workloads, k).value;
      AllPut(s.workloads, k, w.(status := Terminating));
      var a := DeleteAssignment(w, k, stamp);
      AllPut(s.queue, AssignmentKey(a), a);
      assert Apply(s, step).log == s.log + [a];
    case DropDeployment(dep) => SweepRemovesNothing(s, dep);
    case _ =>
  }

  /** Every stored workload in status Terminating has had its delete enqueued. */
  ghost predicate Announced(s: State) {
    forall wid | Has(s.workloads, wid) && Get(s.workloads, wid).value.status == Terminating :: HasDelete(s, wid)
  }

  ghost predicate HasDelete(s: State, wid: string) {
    exists a :: a in s.log && a.action == Delete && a.workloadId == wid
  }

  /** A status report that puts a stored workload without a delete into Terminating. */
  ghost predicate SilentTermination(s: State, step: Step) {
    step.Report? && step.reported == Terminating && Has(s.workloads, step.wid) && !HasDelete(s, step.wid)
  }

  lemma DeletesPersist(s: State, step: Step)
    ensures forall wid | HasDelete(s, wid) :: HasDelete(Apply(s, step), wid)
  {
    forall wid | HasDelete(s, wid) ensures HasDelete(Apply(s, step), wid) {
      var a :| a in s.log && a.action == Delete && a.workloadId == wid;
      LogOnlyGrows(s, step);
      assert a in Apply(s, step).log;
    }
  }

  lemma MarkAnnounces(s: State, wid: string, stamp: nat)
    requires Has(s.workloads, wid)
    ensures HasDelete(Apply(s, Mark(wid, stamp)), wid)
  {
    var a := DeleteAssignment(Get(s.workloads, wid).value, wid, stamp);
    assert a in Apply(s, Mark(wid, stamp)).log;
  }

  /** A step keeps every Terminating workload announced exactly when it is not such a report. */
  lemma AnnouncedExactly(s: State, step: Step)
    requires Tidy(s) && Lifecycle(s) && Enabled(s, step) && Announced(s)
    ensures Announced(Apply(s, step)) <==> !SilentTermination(s, step)
  {
    DeletesPersist(s, step);
    match step
    case Place(dep, wid, node, created, stamp) =>
      AllPut(s.workloads, wid, NewWorkload(Get(s.deployments, dep).value, dep, node, created));
    case Evict(wid) => AllRemove(s.workloads, wid);
    case Mark(wid, stamp) =>
      MarkAnnounces(s, wid, stamp);
      AllPut(s.workloads, wid, Get(s.workloads, wid).value.(status := Terminating));
    case Report(wid, status, container) =>
      if Has(s.workloads, wid) {
        AllRemove(s.workloads, wid);
        AllPut(s.workloads, wid, Reported(Get(s.workloads, wid).value, status, container));
        if SilentTermination(s, step) {
          assert Apply(s, step).log == s.log;
          assert !HasDelete(Apply(s, step), wid);
        }
      }
    case DropDeployment(dep) => SweepRemovesNothing(s, dep);
    case _ =>
  }

  /** In every run whose reports never say Terminating, each Terminating workload has its delete in the log. */
  lemma {:induction false} TerminatingIsAnnounced(trace: seq<Step>)
    requires Admissible(trace) && forall i | 0 <= i < |trace| :: trace[i].Report? ==> trace[i].reported != Terminating
    ensures Announced(Run(trace))
  {
    if trace != [] {
      var before := trace[..|trace| - 1];
      TerminatingIsAnnounced(before);
      RecordsHold(before);
      AnnouncedExactly(Run(before), trace[|trace| - 1]);
    }
  }

  /** No report of the run is a silent termination. */
  ghost predicate NeverSilent(trace: seq<Step>) {
    trace == [] || (NeverSilent(trace[..|trace| - 1]) && !SilentTermination(Run(trace[..|trace| - 1]), trace[|trace| - 1]))
  }

  ghost predicate AnnouncedThroughout(trace: seq<Step>) {
    Announced(Run(trace)) && (trace == [] || AnnouncedThroughout(trace[..|trace| - 1]))
  }

  lemma AnnouncedNow(trace: seq<Step>)
    requires AnnouncedThroughout(trace)
    ensures Announced(Run(trace))
  {
  }

  /** All along a run each Terminating workload has its delete in the log, exactly when no report is a silent termination. */
  lemma {:induction false} AnnouncedThroughoutExactly(trace: seq<Step>)
    requires Admissible(trace)
    ensures AnnouncedThroughout(trace) <==> NeverSilent(trace)
  {
    if trace != [] {
      var before := trace[..|trace| - 1];
      AnnouncedThroughoutExactly(before);
      RecordsHold(before);
      if AnnouncedThroughout(before) {
        AnnouncedNow(before);
        AnnouncedExactly(Run(before), trace[|trace| - 1]);
      }
    }
  }

  // ----- what is delivered, and in which order -----

  /** A nanosecond clock reading of nineteen digits: every instant from 2001-09-09 on. */
  predicate NanoStamp(t: nat) {
    Text.Pow10(18) <= t < Text.Pow10(19)
  }

  ghost predicate FixedWidth(s: State) {
    forall a | a in s.log :: NanoStamp(a.stamp)
  }

  function Stem(a: Assignment): string {
    AssignmentPrefix(a.nodeId) + a.workloadId + "-"
  }

  lemma KeyIsStemAndStamp(a: Assignment)
    ensures AssignmentKey(a) == Stem(a) + Text.Decimal(a.stamp)
  {
  }

  /** For one workload on one node, key order is stamp order. */
  lemma KeyOrderIsStampOrder(a: Assignment, b: Assignment)
    requires a.nodeId == b.nodeId && a.workloadId == b.workloadId && NanoStamp(a.stamp) && NanoStamp(b.stamp)
    requires Text.Less(AssignmentKey(a), AssignmentKey(b))
    ensures a.stamp < b.stamp
  {
    KeyIsStemAndStamp(a);
    KeyIsStemAndStamp(b);
    Text.LessSamePrefix(Stem(a), Text.Decimal(a.stamp), Text.Decimal(b.stamp));
    Text.DecimalWidth(a.stamp, 18);
    Text.DecimalWidth(b.stamp, 18);
    Text.DecimalOrder(a.stamp, b.stamp);
  }

  /** A node prefix ends before the stamp, so it covers all assignments of a workload or none. */
  lemma PrefixCoversWorkload(a: Assignment, b: Assignment, node: string)
    requires a.nodeId == b.nodeId && a.workloadId == b.workloadId
    requires Text.HasPrefix(AssignmentKey(a), AssignmentPrefix(node))
    ensures Text.HasPrefix(AssignmentKey(b), AssignmentPrefix(node))
  {
    var p, stem, digits := AssignmentPrefix(node), Stem(a), Text.Decimal(a.stamp);
    KeyIsStemAndStamp(a);
    KeyIsStemAndStamp(b);
    var key := AssignmentKey(a);
    assert forall k :: |stem| <= k < |key| ==> key[k] == digits[k - |stem|] && key[k] in digits;
    assert p[|p| - 1] == ':' && key[|p| - 1] == p[|p| - 1];
    assert |p| <= |stem|;
    assert key[..|p|] == stem[..|p|] == AssignmentKey(b)[..|p|];
  }

  ghost predicate RisingPerWorkload(d: seq<Assignment>) {
    forall i, j | 0 <= i < j < |d| && d[i].workloadId == d[j].workloadId :: d[i].stamp < d[j].stamp
  }

  ghost predicate DeliveredInOrder(s: State) {
    && RisingPerWorkload(s.delivered)
    && (forall a, e | a in s.delivered && e in s.queue && a.workloadId == e.rec.workloadId :: a.stamp < e.rec.stamp)
  }

  /** Whatever a pop leaves behind for a workload is younger than what it takes. */
  lemma PopTakesOldest(s: State, node: string, max: int, i: nat, e: Entry<Assignment>)
    requires Tidy(s) && Sound(s) && FixedWidth(s)
    requires i < |Popped(s, node, max)| && e in s.queue && e.rec.workloadId == Popped(s, node, max)[i].rec.workloadId
    requires e !in Popped(s, node, max)[..i + 1]
    ensures Popped(s, node, max)[i].rec.stamp < e.rec.stamp
  {
    var p, gone := AssignmentPrefix(node), Popped(s, node, max);
    var all := WithPrefix(s.queue, p);
    PoppedMembers(s, node, max);
    QueueWithinLog(s);
    var g := gone[i];
    assert g in gone;
    PrefixCoversWorkload(g.rec, e.rec, node);
    WithPrefixMembers(s.queue, p);
    WithPrefixOrdered(s.queue, p);
    LaterInScan(all, gone, i, e);
    KeyOrderIsStampOrder(g.rec, e.rec);
  }

  /** What a scan reaches only after its first entries has a greater key. */
  lemma LaterInScan(all: seq<Entry<Assignment>>, gone: seq<Entry<Assignment>>, i: nat, e: Entry<Assignment>)
    requires Ordered(all) && gone <= all && i < |gone| && e in all && e !in gone[..i + 1]
    ensures Text.Less(gone[i].id, e.id)
  {
    var j :| 0 <= j < |all| && all[j] == e;
    assert forall k :: 0 <= k <= i ==> gone[..i + 1][k] == all[k];
    assert j > i;
  }

  lemma PoppedRise(s: State, node: string, max: int, i: nat, j: nat)
    requires Tidy(s) && Sound(s) && FixedWidth(s) && i < j < |Popped(s, node, max)|
    requires Popped(s, node, max)[i].rec.workloadId == Popped(s, node, max)[j].rec.workloadId
    ensures Popped(s, node, max)[i].rec.stamp < Popped(s, node, max)[j].rec.stamp
  {
    var gone := Popped(s, node, max);
    PoppedFromQueue(s, node, max);
    assert gone[j] in gone;
    LaterIsAbsent(gone, i, j);
    PopTakesOldest(s, node, max, i, gone[j]);
  }

  lemma PoppedAfterDelivered(s: State, node: string, max: int, i: nat, j: nat)
    requires Tidy(s) && DeliveredInOrder(s) && i < |s.delivered| && j < |Popped(s, node, max)|
    requires s.delivered[i].workloadId == Popped(s, node, max)[j].rec.workloadId
    ensures s.delivered[i].stamp < Popped(s, node, max)[j].rec.stamp
  {
    PoppedFromQueue(s, node, max);
    assert Popped(s, node, max)[j] in Popped(s, node, max) && s.delivered[i] in s.delivered;
  }

  lemma PopDeliversInOrder(s: State, node: string, max: int)
    requires Tidy(s) && Sound(s) && FixedWidth(s) && DeliveredInOrder(s)
    ensures RisingPerWorkload(s.delivered + Recs(Popped(s, node, max)))
  {
    var gone, n := Popped(s, node, max), |s.delivered|;
    var d := s.delivered + Recs(gone);
    RecsAt(gone);
    forall i, j | 0 <= i < j < |d| && d[i].workloadId == d[j].workloadId ensures d[i].stamp < d[j].stamp {
      if n <= i {
        PoppedRise(s, node, max, i - n, j - n);
      } else if n <= j {
        PoppedAfterDelivered(s, node, max, i, j - n);
      }
    }
  }

  lemma PopLeavesYounger(s: State, node: string, max: int, a: Assignment, e: Entry<Assignment>)
    requires Tidy(s) && Sound(s) && FixedWidth(s) && DeliveredInOrder(s)
    requires a in s.delivered + Recs(Popped(s, node, max))
    requires e in s.queue && e !in Popped(s, node, max) && a.workloadId == e.rec.workloadId
    ensures a.stamp < e.rec.stamp
  {
    var gone := Popped(s, node, max);
    if a !in s.delivered {
      RecsAt(gone);
      var i :| 0 <= i < |gone| && Recs(gone)[i] == a;
      PopTakesOldest(s, node, max, i, e);
    }
  }

  lemma PopRemainder(s: State, node: string, max: int, e: Entry<Assignment>)
    requires Tidy(s) && e in RemoveAll(s.queue, Popped(s, node, max))
    ensures e in s.queue && e !in Popped(s, node, max)
  {
    var gone := Popped(s, node, max);
    PoppedFromQueue(s, node, max);
    PopMembers(s.queue, gone, e);
  }

  lemma PopKeepsOrder(s: State, node: string, max: int)
    requires Tidy(s) && Sound(s) && FixedWidth(s) && DeliveredInOrder(s)
    ensures DeliveredInOrder(Apply(s, Pop(node, max)))
  {
    var t := Apply(s, Pop(node, max));
    var d, q := s.delivered + Recs(Popped(s, node, max)), RemoveAll(s.queue, Popped(s, node, max));
    PopDeliversInOrder(s, node, max);
    assert forall a, e | a in d && e in q && a.workloadId == e.rec.workloadId :: a.stamp < e.rec.stamp by {
      forall a, e | a in d && e in q && a.workloadId == e.rec.workloadId ensures a.stamp < e.rec.stamp {
        PopRemainder(s, node, max, e);
        PopLeavesYounger(s, node, max, a, e);
      }
    }
    assert t.delivered == d && t.queue == q;
  }

  lemma LaterIsAbsent(t: seq<Entry<Assignment>>, i: nat, j: nat)
    requires Ordered(t) && i < j < |t|
    ensures t[j] !in t[..i + 1]
  {
    forall k | 0 <= k <= i ensures t[k] != t[j] {
      Text.LessTotal(t[k].id, t[j].id);
    }
  }

  lemma EnqueueKeepsOrder(s: State, a: Assignment)
    requires Stamped(s) && Partitioned(s) && DeliveredInOrder(s) && a.stamp > s.clock
    ensures DeliveredInOrder(Enqueue(s, a))
  {
    QueueWithinLog(s);
    PutMembers(s.queue, AssignmentKey(a), a);
  }

  lemma LogOnlyGrows(s: State, step: Step)
    ensures s.log <= Apply(s, step).log
  {
  }

  lemma PlaceKeepsOrder(s: State, step: Step)
    requires Sound(s) && step.Place? && Enabled(s, step) && DeliveredInOrder(s)
    ensures DeliveredInOrder(Apply(s, step))
  {
    var w := NewWorkload(Get(s.deployments, step.dep).value, step.dep, step.node, step.created);
    if step.createStamp.Some? {
      EnqueueKeepsOrder(Placed(s, step.wid, w, Get(s.nodes, step.node).value), CreateAssignment(w, step.wid, step.createStamp.value));
    }
  }

  lemma MarkKeepsOrder(s: State, wid: string, stamp: nat)
    requires Sound(s) && Enabled(s, Mark(wid, stamp)) && DeliveredInOrder(s)
    ensures DeliveredInOrder(Apply(s, Mark(wid, stamp)))
  {
    var w := Get(s.workloads, wid).value;
    EnqueueKeepsOrder(s.(workloads := Put(s.workloads, wid, w.(status := Terminating))), DeleteAssignment(w, wid, stamp));
  }

  lemma StepKeepsOrder(s: State, step: Step)
    requires Tidy(s) && Sound(s) && Enabled(s, step) && FixedWidth(s) && DeliveredInOrder(s)
    ensures DeliveredInOrder(Apply(s, step))
  {
    match step
    case Place(_, _, _, _, _) => PlaceKeepsOrder(s, step);
    case Mark(wid, stamp) => MarkKeepsOrder(s, wid, stamp);
    case Pop(node, max) => PopKeepsOrder(s, node, max);
    case _ =>
  }

  lemma {:induction false} DeliveryHolds(trace: seq<Step>)
    requires Admissible(trace) && FixedWidth(Run(trace))
    ensures DeliveredInOrder(Run(trace))
  {
    if trace != [] {
      var before, step := trace[..|trace| - 1], trace[|trace| - 1];
      LogOnlyGrows(Run(before), step);
      forall a | a in Run(before).log ensures NanoStamp(a.stamp) {
        assert a in Run(trace).log;
      }
      DeliveryHolds(before);
      RecordsHold(before);
      ProtocolHolds(before);
      StepKeepsOrder(Run(before), step);
    }
  }

  lemma PositionByStamp(s: State, a: Assignment, b: Assignment) returns (i: nat, j: nat)
    requires Stamped(s) && a in s.log && b in s.log && a.stamp < b.stamp
    ensures i < j < |s.log| && s.log[i] == a && s.log[j] == b
  {
    i :| 0 <= i < |s.log| && s.log[i] == a;
    j :| 0 <= j < |s.log| && s.log[j] == b;
  }

  lemma CreateIsOldest(s: State, c: Assignment, d: Assignment)
    requires Stamped(s) && CreateFirst(s) && c in s.log && d in s.log
    requires c.workloadId == d.workloadId && c.action == Create && d.action == Delete
    ensures c.stamp < d.stamp
  {
    if d.stamp < c.stamp {
      var i, j := PositionByStamp(s, d, c);
    } else if c.stamp == d.stamp {
      SameStampSameEntry(s, c, d);
    }
  }

  /** In every run with nanosecond stamps, a worker is handed a workload's create, if there is one, before any of its deletes. */
  lemma CreateDeliveredBeforeDelete(trace: seq<Step>, c: Assignment, k: nat)
    requires Admissible(trace) && FixedWidth(Run(trace))
    requires c in Run(trace).log && c.action == Create
    requires k < |Run(trace).delivered| && Run(trace).delivered[k].workloadId == c.workloadId && Run(trace).delivered[k].action == Delete
    ensures exists i :: 0 <= i < k && Run(trace).delivered[i] == c
  {
    ProtocolHolds(trace);
    DeliveryHolds(trace);
    DeliveredEarlier(Run(trace), c, k);
  }

  lemma DeliveredEarlier(s: State, c: Assignment, k: nat)
    requires Stamped(s) && CreateFirst(s) && Partitioned(s) && DeliveredInOrder(s) && c in s.log && c.action == Create
    requires k < |s.delivered| && s.delivered[k].workloadId == c.workloadId && s.delivered[k].action == Delete
    ensures exists i :: 0 <= i < k && s.delivered[i] == c
  {
    var d := s.delivered[k];
    QueueWithinLog(s);
    assert d in s.delivered;
    CreateIsOldest(s, c, d);
    NotQueuedBehind(s, c, d);
    var i :| 0 <= i < |s.delivered| && s.delivered[i] == c;
  }

  /** What is older than a delivered assignment of its workload has been delivered too. */
  lemma NotQueuedBehind(s: State, c: Assignment, d: Assignment)
    requires Partitioned(s) && DeliveredInOrder(s) && c in s.log && d in s.delivered
    requires c.workloadId == d.workloadId && c.stamp < d.stamp
    ensures c in s.delivered
  {
    DeliveredOrQueued(s, c);
  }

  lemma DeliveredOrQueued(s: State, a: Assignment)
    requires Partitioned(s) && a in s.log
    ensures a in s.delivered || exists e :: e in s.queue && e.rec == a
  {
    assert a in multiset(s.log);
    RecsAt(s.queue);
    if a in Recs(s.queue) {
      var q :| 0 <= q < |s.queue| && Recs(s.queue)[q] == a;
      assert s.queue[q] in s.queue;
    }
  }

  lemma SameStampSameEntry(s: State, a: Assignment, b: Assignment)
    requires Stamped(s) && a in s.log && b in s.log && a.stamp == b.stamp
    ensures a == b
  {
    var i :| 0 <= i < |s.log| && s.log[i] == a;
    var j :| 0 <= j < |s.log| && s.log[j] == b;
    assert i == j;
  }

  /** With node identifiers free of ':', a pop for a node returns assignments of that node only. */
  lemma PopReturnsOwnAssignments(trace: seq<Step>, node: string, max: int)
    requires Admissible(trace) && ':' !in node
    requires forall a | a in Run(trace).log :: ':' !in a.nodeId
    ensures forall e | e in Popped(Run(trace), node, max) :: e.rec.nodeId == node
  {
    var s := Run(trace);
    RecordsHold(trace);
    ProtocolHolds(trace);
    PoppedMembers(s, node, max);
    QueueWithinLog(s);
    forall e | e in Popped(s, node, max) ensures e.rec.nodeId == node {
      ColonSeparates(node, e.rec.nodeId, e.rec.workloadId + "-" + Text.Decimal(e.rec.stamp));
    }
  }

  lemma ColonSeparates(n: string, m: string, rest: string)
    requires ':' !in n && ':' !in m
    requires Text.HasPrefix("assignment:" + m + ":" + rest, AssignmentPrefix(n))
    ensures n == m
  {
    var head := |"assignment:"|;
    var full := "assignment:" + m + ":" + rest;
    assert forall i :: 0 <= i < |n| ==> full[head + i] == AssignmentPrefix(n)[head + i] == n[i];
    assert forall i :: 0 <= i < |m| ==> full[head + i] == m[i];
    assert full[head + |n|] == AssignmentPrefix(n)[head + |n|] == ':';
    assert full[head + |m|] == ':';
    assert forall i :: 0 <= i < |n| ==> n[i] in n;
    assert forall i :: 0 <= i < |m| ==> m[i] in m;
    assert |n| == |m|;
  }
}
