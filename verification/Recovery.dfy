/** Crashes, failed copies and reopenings: what the database holds after any of them. */
module Recovery {
  import opened Words
  import opened Wrappers
  import opened Sequences
  import opened Floats
  import opened Tables

  /** What can happen to the shared in-memory database and its disk copy. An interrupted operation
      belongs to a process that dies after the write and before the copy; a reboot clears the shared
      memory; opening is done by the server, the price updater, or either of them again. */
  datatype Event =
    | Do(call: Call)
    | Interrupted(call: Call)
    | Shutdown(flush: bool)
    | Reboot
    | Open(restored: bool)

  datatype World = World(mem: Image, disk: Image)

  function Happen(w: World, e: Event): World {
    match e
    case Do(c) =>
      var r := Apply(w.mem, c);
      World(r.image, if r.status == PDB_OK && c.env.flush then r.image else w.disk)
    case Interrupted(c) => w.(mem := Apply(w.mem, c).image)
    case Shutdown(flush) => if flush then w.(disk := w.mem) else w
    case Reboot => w.(mem := EMPTY)
    case Open(restored) => if restored then w.(mem := w.disk) else w
  }

  function After(es: seq<Event>): World {
    if es == [] then World(EMPTY, EMPTY) else Happen(After(es[..|es| - 1]), es[|es| - 1])
  }

  // ---------------------------------------------------------------- which operations count

  /** The last event copied memory to disk. */
  predicate CopiedLast(es: seq<Event>)
    requires es != []
    decreases |es|, 0
  {
    match es[|es| - 1]
    case Do(c) => c.env.flush && Apply(Run(Lineage(es[..|es| - 1])), c).status == PDB_OK
    case Shutdown(flush) => flush
    case _ => false
  }

  /** How many events there were up to and including the last successful copy to disk. */
  function LastCopy(es: seq<Event>): (n: nat)
    ensures n <= |es|
    decreases |es|, 1
  {
    if es == [] then 0
    else if CopiedLast(es) then |es|
    else LastCopy(es[..|es| - 1])
  }

  /** The operations that make up memory: all of them in order, except that a reboot forgets everything
      and a successful opening goes back to the last copy. */
  function Lineage(es: seq<Event>): seq<Call>
    decreases |es|, 2
  {
    if es == [] then []
    else
      var before := es[..|es| - 1];
      match es[|es| - 1]
      case Do(c) => Lineage(before) + [c]
      case Interrupted(c) => Lineage(before) + [c]
      case Shutdown(_) => Lineage(before)
      case Reboot => []
      case Open(restored) => if restored then Lineage(before[..LastCopy(before)]) else Lineage(before)
  }

  /** The operations that make up the disk copy. */
  function Durable(es: seq<Event>): seq<Call> {
    Lineage(es[..LastCopy(es)])
  }

  lemma CopyGrows(es: seq<Event>)
    requires es != []
    ensures Durable(es) == if CopiedLast(es) then Lineage(es) else Durable(es[..|es| - 1])
  {
    var before := es[..|es| - 1];
    if CopiedLast(es) {
      assert es[..|es|] == es;
    } else {
      assert es[..LastCopy(before)] == before[..LastCopy(before)];
    }
  }

  /** Over all runs with failed copies, interrupted operations, reboots and (failed) openings: memory is
      the result of its lineage, and the disk of the operations up to the last successful copy. */
  lemma {:induction false} StoresFollowLineage(es: seq<Event>)
    ensures After(es).mem == Run(Lineage(es))
    ensures After(es).disk == Run(Durable(es))
  {
    if es == [] {
      assert Durable(es) == [];
    } else {
      var before, e := es[..|es| - 1], es[|es| - 1];
      StoresFollowLineage(before);
      CopyGrows(es);
      match e
      case Do(c) => RunSnoc(Lineage(before), c);
      case Interrupted(c) => RunSnoc(Lineage(before), c);
      case _ =>
    }
  }

  /** Reopening restores exactly the state after the operations up to the last successful copy. */
  lemma ReopeningRestoresLastCopy(es: seq<Event>)
    ensures After(es + [Open(true)]).mem == Run(Lineage(es[..LastCopy(es)]))
    ensures Lineage(es + [Open(true)]) == Durable(es)
  {
    assert (es + [Open(true)])[..|es|] == es;
    StoresFollowLineage(es);
  }

  /** Between openings the lineage is plainly the sequence of operations, so the last copy holds a prefix of it. */
  lemma {:induction false} DurableIsPrefix(es: seq<Event>)
    requires forall k :: 0 <= k < |es| ==> es[k].Do? || es[k].Interrupted? || es[k].Shutdown?
    ensures Lineage(es) == Operations(es)
    ensures Durable(es) <= Operations(es)
  {
    if es != [] {
      DurableIsPrefix(es[..|es| - 1]);
      CopyGrows(es);
    }
  }

  /** Every operation that ran, in order. */
  function Operations(es: seq<Event>): seq<Call> {
    if es == [] then []
    else
      Operations(es[..|es| - 1])
      + match es[|es| - 1]
        case Do(c) => [c]
        case Interrupted(c) => [c]
        case _ => []
  }

  /** Closing with a successful copy makes everything in memory durable; otherwise it changes nothing. */
  lemma ClosingMakesDurable(es: seq<Event>, flush: bool)
    ensures var fs := es + [Shutdown(flush)];
            && After(fs).mem == After(es).mem
            && After(fs).disk == (if flush then After(es).mem else After(es).disk)
            && Durable(fs) == if flush then Lineage(es) else Durable(es)
  {
    var fs := es + [Shutdown(flush)];
    assert fs[..|es|] == es;
    CopyGrows(fs);
  }

  // ---------------------------------------------------------------- nothing acknowledged is lost

  /** Shared memory holds the database: it has been opened since the last reboot. */
  predicate Up(es: seq<Event>) {
    es == [] || es[|es| - 1].Open? || (!es[|es| - 1].Reboot? && Up(es[..|es| - 1]))
  }

  /** No copy fails in either direction, and a process uses the database only after opening it. */
  ghost predicate Proper(es: seq<Event>) {
    forall k :: 0 <= k < |es| ==> ProperStep(es[..k], es[k])
  }

  predicate ProperStep(before: seq<Event>, e: Event) {
    match e
    case Do(c) => Up(before) && c.env.flush
    case Interrupted(c) => Up(before)
    case Shutdown(_) => Up(before)
    case Reboot => true
    case Open(restored) => restored
  }

  /** The operations that were acknowledged with PDB_OK, in order. */
  function Acknowledged(es: seq<Event>): seq<Call> {
    if es == [] then []
    else
      var before, e := es[..|es| - 1], es[|es| - 1];
      Acknowledged(before)
      + if e.Do? && Apply(After(before).mem, e.call).status == PDB_OK then [e.call] else []
  }

  lemma ProperPrefix(es: seq<Event>)
    requires Proper(es) && es != []
    ensures Proper(es[..|es| - 1]) && ProperStep(es[..|es| - 1], es[|es| - 1])
  {
    var before := es[..|es| - 1];
    forall k | 0 <= k < |before| ensures ProperStep(before[..k], before[k]) {
      assert before[..k] == es[..k];
    }
  }

  /** With no copy failing, every acknowledged operation is durable, through interruptions, reboots and
      any number of openings; and while the database is up, memory holds it too. */
  lemma {:induction false} AcknowledgedSurvive(es: seq<Event>)
    requires Proper(es)
    ensures Subsequence(Acknowledged(es), Durable(es))
    ensures Up(es) ==> Subsequence(Acknowledged(es), Lineage(es))
    ensures After(es).disk == Run(Durable(es))
  {
    StoresFollowLineage(es);
    if es == [] {
      assert Embeds(Acknowledged(es), Durable(es), []);
      assert Embeds(Acknowledged(es), Lineage(es), []);
    } else {
      var before, e := es[..|es| - 1], es[|es| - 1];
      ProperPrefix(es);
      AcknowledgedSurvive(before);
      StoresFollowLineage(before);
      CopyGrows(es);
      match e
      case Do(c) =>
        SubsequenceReflexive([c]);
        SubsequenceConcat(Acknowledged(before), Lineage(before), [c], [c]);
        SubsequenceExtend(Acknowledged(before), Lineage(before), [c]);
        assert Acknowledged(before) + [] == Acknowledged(before);
      case Interrupted(c) =>
        SubsequenceExtend(Acknowledged(before), Lineage(before), [c]);
        assert Acknowledged(before) + [] == Acknowledged(before);
      case _ =>
        assert Acknowledged(before) + [] == Acknowledged(before);
    }
  }

  /** While the database is up, memory extends the disk copy. */
  lemma {:induction false} LineageExtendsDurable(es: seq<Event>)
    requires Proper(es) && Up(es)
    ensures Durable(es) <= Lineage(es)
  {
    if es != [] {
      var before := es[..|es| - 1];
      ProperPrefix(es);
      CopyGrows(es);
      if Up(before) {
        LineageExtendsDurable(before);
      }
    }
  }

  /** With no copy failing, what is durable stays durable: the disk's history only ever grows at its end. */
  lemma {:induction false} DurableGrows(es: seq<Event>, n: nat)
    requires Proper(es) && n <= |es|
    ensures Durable(es[..n]) <= Durable(es)
  {
    if n == |es| {
      assert es[..n] == es;
    } else {
      var before := es[..|es| - 1];
      ProperPrefix(es);
      assert es[..n] == before[..n];
      DurableGrows(before, n);
      CopyGrows(es);
      if CopiedLast(es) {
        LineageExtendsDurable(before);
      }
    }
  }

  /** So an acknowledged operation keeps its effect for ever: every later disk copy continues the very history that
      ended with it. */
  lemma AcknowledgedForGood(es: seq<Event>, k: nat)
    requires Proper(es) && k < |es| && es[k].Do?
    requires Apply(After(es[..k]).mem, es[k].call).status == PDB_OK
    ensures Lineage(es[..k]) + [es[k].call] <= Durable(es)
  {
    var upto := es[..k + 1];
    assert upto[..k] == es[..k];
    StoresFollowLineage(es[..k]);
    CopyGrows(upto);
    DurableGrows(es, k + 1);
    assert ProperStep(es[..k], es[k]);
  }

  /** No SQL statement fails, and no operation is interrupted. */
  ghost predicate Clean(es: seq<Event>) {
    forall k :: 0 <= k < |es| ==> CleanStep(es[k])
  }

  predicate CleanStep(e: Event) {
    !e.Interrupted? && (e.Do? ==> NoSqlError(e.call.env))
  }

  predicate NoSqlError(env: Env) {
    env.find && env.price && env.purgePrepared && env.purged && env.write
  }

  /** With nothing failing, memory and disk agree whenever the database is up and both hold every
      operation so far; so one more process opening it loses nothing. */
  lemma {:induction false} OpeningAgainLosesNothing(es: seq<Event>)
    requires Proper(es) && Clean(es)
    ensures After(es).disk == Run(Operations(es))
    ensures Up(es) ==> After(es).mem == Run(Operations(es)) && After(es + [Open(true)]) == After(es)
  {
    assert (es + [Open(true)])[..|es|] == es;
    if es != [] {
      var before, e := es[..|es| - 1], es[|es| - 1];
      ProperPrefix(es);
      OpeningAgainLosesNothing(before);
      assert Operations(before) + [] == Operations(before);
      assert CleanStep(e);
      if e.Do? {
        RunSnoc(Operations(before), e.call);
        if Apply(After(before).mem, e.call).status == PDB_ERR {
          ErrorChangesNothing(After(before).mem, e.call);
        }
      }
    }
  }

  lemma NothingRun()
    ensures Run([]) == EMPTY
  {
  }

  lemma AfterEvent(es: seq<Event>, e: Event)
    ensures var fs := es + [e];
            && Lineage(fs) == (if e.Do? || e.Interrupted? then Lineage(es) + [e.call]
                               else if e.Reboot? then []
                               else if e.Open? && e.restored then Durable(es)
                               else Lineage(es))
            && Durable(fs) == (if CopiedLast(fs) then Lineage(fs) else Durable(es))
  {
    hide Run, RunFrom, Apply;
    var fs := es + [e];
    assert fs[..|es|] == es;
    CopyGrows(fs);
  }

  /** A reboot, an opening and a first success: the disk copy then holds what was restored and that success. So
      what was durable before stays so exactly if the restore succeeds or the one operation repeats it. */
  lemma AfterReboot(es: seq<Event>, restored: bool, b: Call)
    requires b.env.flush && Apply(if restored then After(es).disk else EMPTY, b).status == PDB_OK
    ensures var fs := es + [Reboot, Open(restored), Do(b)];
            && Durable(fs) == (if restored then Durable(es) else []) + [b]
            && After(fs).disk == Run(Durable(fs))
            && (Durable(es) <= Durable(fs) <==> restored || Durable(es) <= [b])
  {
    hide Run, RunFrom, Apply, After, Lineage, Durable;
    var rebooted := es + [Reboot];
    var reopened := rebooted + [Open(restored)];
    var fs := reopened + [Do(b)];
    AfterEvent(es, Reboot);
    AfterEvent(rebooted, Open(restored));
    AfterEvent(reopened, Do(b));
    assert fs == es + [Reboot, Open(restored), Do(b)];
    StoresFollowLineage(es);
    StoresFollowLineage(fs);
    NothingRun();
    assert fs[..|fs| - 1] == reopened;
    assert CopiedLast(fs);
  }

  /** In particular, when the restore fails, the next success overwrites everything acknowledged before. */
  lemma FailedRestoreLosesHistory(es: seq<Event>, b: Call)
    requires Apply(EMPTY, b).status == PDB_OK && b.env.flush
    ensures After(es + [Reboot, Open(false), Do(b)]).disk == Run([b])
  {
    AfterReboot(es, false, b);
    assert [] + [b] == [b];
  }
}
