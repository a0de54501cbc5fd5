/** Coordinators, readers and checkpoint consumers interleaved over one database file.

    The environment is SQLite with a rollback journal: a snapshot holds a SHARED lock from its first
    SELECT, which looks for the table, through one SELECT per camera until it is closed, BEGIN IMMEDIATE
    takes the single RESERVED lock, and a commit needs every SHARED lock gone. A crash or a lock timeout
    is a rollback. */
module PolicyProtocol {
  import opened Outcomes
  import opened SourcePolicy
  import opened NativeRestart

  datatype Operation =
    | BeginOp(id: string, mode: string, expected: int)
    | ActivateOp(id: string, expected: int)
    | BlockOp(id: string, expected: int)
    | ConsumeOp(item: CleanRestart)
    | SaveOp(items: seq<CleanRestart>)
    | DiscardOp(id: string)
    | RegistryOp(cameras: set<string>)

  /** The committed result of an operation, or None if it raises. */
  function Apply(db: Database, op: Operation): Option<Database>
  {
    match op
    case BeginOp(id, mode, expected) => First(BeginChange(db, id, mode, expected))
    case ActivateOp(id, expected) => First(Activate(db, id, expected))
    case BlockOp(id, expected) => First(Block(db, id, expected))
    case ConsumeOp(item) => First(Consume(db, item))
    case SaveOp(items) => var r := Save(db, items); if r.Ok? then Some(r.value) else None
    case DiscardOp(id) => var r := Discard(db, id); if r.Ok? then Some(r.value) else None
    case RegistryOp(cameras) => Some(db.(cameras := cameras))
  }

  function First(r: Result<(Database, Selection), PolicyError>): Option<Database>
  {
    if r.Ok? then Some(r.value.0) else None
  }

  /** The camera whose intent an operation changes, and the revision it names. */
  function Target(op: Operation): Option<string>
  {
    match op
    case BeginOp(id, _, _) => Some(id)
    case ActivateOp(id, _) => Some(id)
    case BlockOp(id, _) => Some(id)
    case ConsumeOp(item) => Some(item.cameraId)
    case _ => None
  }

  function Expected(op: Operation): int
  {
    match op
    case BeginOp(_, _, expected) => expected
    case ActivateOp(_, expected) => expected
    case BlockOp(_, expected) => expected
    case ConsumeOp(item) => item.revision
    case _ => 0
  }

  datatype Transaction = Transaction(op: Operation, staged: Database)

  datatype Commitment = Commitment(op: Operation, before: Database, after: Database)

  /** A snapshot in progress: the cameras asked for and the selections read so far. */
  datatype Snapshot = Snapshot(ids: set<string>, read: map<string, Selection>)

  datatype World = World(db: Database, readers: map<nat, Snapshot>,
                         writer: Option<Transaction>, history: seq<Commitment>)

  datatype Step =
    | Open(reader: nat, ids: set<string>)
    | Read(reader: nat, id: string)
    | Close(reader: nat)
    | Begin(op: Operation)
    | Commit
    | Rollback

  /** One atomic step; a step that the locks or a raised error do not allow changes nothing. */
  ghost function Do(w: World, step: Step): World
  {
    match step
    case Open(reader, ids) =>
      if reader in w.readers || ids == {} || exists id :: id in ids && !ValidCameraId(id) then w
      else w.(readers := w.readers[reader := Snapshot(ids, map[])])
    case Read(reader, id) =>
      if reader !in w.readers || id !in w.readers[reader].ids then w
      else w.(readers := w.readers[reader :=
               w.readers[reader].(read := w.readers[reader].read[id := w.db.Selected(id)])])
    case Close(reader) => w.(readers := w.readers - {reader})
    case Begin(op) =>
      if w.writer.Some? || Apply(w.db, op).None? then w
      else w.(writer := Some(Transaction(op, Apply(w.db, op).value)))
    case Commit =>
      if w.writer.None? || w.readers != map[] then w
      else w.(db := w.writer.value.staged, writer := None,
              history := w.history + [Commitment(w.writer.value.op, w.db, w.writer.value.staged)])
    case Rollback => w.(writer := None)
  }

  ghost function Start(db: Database): World { World(db, map[], None, []) }

  ghost function Execute(db: Database, steps: seq<Step>): World
  {
    if steps == [] then Start(db) else Do(Execute(db, steps[..|steps| - 1]), steps[|steps| - 1])
  }

  // ----- single operations -----

  /** The whole transition relation of one camera's intent. */
  lemma IntentRules(db: Database, op: Operation, id: string)
    requires Apply(db, op).Some?
    ensures var was, now := db.Selected(id), Apply(db, op).value.Selected(id);
            if Target(op) == Some(id) then
              && was.revision == Expected(op) && now.revision == Expected(op) + 1 <= MAX_REVISION
              && (now.phase == "active" <==> op.ActivateOp?)
              && (op.ActivateOp? ==> was.phase == "transition" && now.mode == was.mode)
              && (op.BeginOp? ==> was.phase == "active" && now.phase == "transition" && now.mode == op.mode)
              && (op.BlockOp? ==> now.phase == "blocked" && now.mode == was.mode)
              && (was.phase == "blocked" ==>
                    && op.ConsumeOp? && op.item.revision == was.revision && Spendable(db, op.item)
                    && was.mode == "native" == now.mode && now.phase == "transition")
            else Apply(db, op).value.Policy(id) == db.Policy(id)
  {
  }

  /** Exactly which operations commit when they are tried alone. */
  lemma AcceptedExactly(db: Database, op: Operation)
    ensures Apply(db, op).Some? <==>
              (match op
               case BeginOp(id, mode, expected) =>
                 && mode in {"legacy_rtsp", "owned_rtsp", "native"} && !BadArguments(db, id, expected)
                 && db.Selected(id).revision == expected && db.Selected(id).phase == "active"
               case ActivateOp(id, expected) =>
                 && !BadArguments(db, id, expected)
                 && db.Selected(id).revision == expected && db.Selected(id).phase == "transition"
               case BlockOp(id, expected) =>
                 && !BadArguments(db, id, expected)
                 && db.Selected(id).revision == expected && db.Selected(id).phase in {"active", "transition"}
               case ConsumeOp(item) => Consume(db, item).Ok?
               case SaveOp(items) => Save(db, items).Ok?
               case DiscardOp(id) => ValidCameraId(id)
               case RegistryOp(_) => true)
    ensures Apply(db, op).Some? ==>
              var next := Apply(db, op).value;
              && (op.RegistryOp? ==> next == db.(cameras := op.cameras))
              && (!op.RegistryOp? ==> next.cameras == db.cameras)
              && (op.DiscardOp? ==> op.id !in next.restart)
              && (op.SaveOp? ==> forall i :: 0 <= i < |op.items| ==> Consume(next, op.items[i]).Ok?)
  {
    match op
    case BeginOp(id, mode, expected) => BeginExactly(db, id, mode, expected);
    case ActivateOp(id, expected) => ActivateExactly(db, id, expected);
    case BlockOp(id, expected) => BlockExactly(db, id, expected);
    case SaveOp(items) => if Save(db, items).Ok? { SavedBatchIsSpendable(db, items); }
    case _ =>
  }

  /** The steps do take place when the locks allow: an accepted operation is staged while no other
      writer is, and committed while no snapshot is open; a snapshot reads each camera it asked for. */
  lemma StepsTakeEffect(w: World, op: Operation, reader: nat, ids: set<string>, id: string)
    ensures Apply(w.db, op).Some? && w.writer.None? ==>
              && Do(w, Begin(op)) == w.(writer := Some(Transaction(op, Apply(w.db, op).value)))
              && (w.readers == map[] ==>
                    && Do(Do(w, Begin(op)), Commit).db == Apply(w.db, op).value
                    && Do(Do(w, Begin(op)), Commit).writer.None?
                    && Do(Do(w, Begin(op)), Commit).history
                       == w.history + [Commitment(op, w.db, Apply(w.db, op).value)])
    ensures w.writer.Some? ==> Do(w, Begin(op)) == w
    ensures Do(w, Rollback) == w.(writer := None) && Do(w, Close(reader)) == w.(readers := w.readers - {reader})
    ensures reader !in w.readers && id in ids && (forall i :: i in ids ==> ValidCameraId(i)) ==>
              var v := Do(w, Open(reader, ids));
              && reader in v.readers && v.db == w.db
              && Do(v, Read(reader, id)).readers[reader] == Snapshot(ids, map[id := w.db.Selected(id)])
  {
    hide Apply;
  }

  /** A damaged row survives every operation, and a sound database stays sound. */
  lemma CorruptionRules(db: Database, op: Operation, id: string)
    requires Apply(db, op).Some?
    ensures id in db.policy && Corrupt(db.policy[id]) ==> Apply(db, op).value.Policy(id) == db.Policy(id)
    ensures (id in db.policy ==> !Corrupt(db.policy[id])) && id in Apply(db, op).value.policy
            ==> !Corrupt(Apply(db, op).value.policy[id])
  {
  }

  // ----- all interleavings -----

  /** Snapshots agree with the committed state, a staged transaction is the effect of its operation
      on it, and the history is the chain of commits that led to it. */
  ghost predicate Consistent(w: World, db: Database)
  {
    && (forall r, id :: r in w.readers && id in w.readers[r].read ==> w.readers[r].read[id] == w.db.Selected(id))
    && (w.writer.Some? ==> Apply(w.db, w.writer.value.op) == Some(w.writer.value.staged))
    && Chain(db, w.history, w.db)
  }

  ghost predicate Chain(first: Database, history: seq<Commitment>, last: Database)
  {
    if history == [] then first == last else
      var c := history[|history| - 1];
      && Apply(c.before, c.op) == Some(c.after) && c.after == last
      && Chain(first, history[..|history| - 1], c.before)
  }

  lemma StepKeepsConsistent(w: World, db: Database, step: Step)
    requires Consistent(w, db)
    ensures Consistent(Do(w, step), db)
  {
    hide Apply;
    var v := Do(w, step);
    if v.history != w.history {
      assert v.history[..|w.history|] == w.history;
    }
  }

  lemma {:induction false} AlwaysConsistent(db: Database, steps: seq<Step>)
    ensures Consistent(Execute(db, steps), db)
  {
    if steps != [] {
      AlwaysConsistent(db, steps[..|steps| - 1]);
      StepKeepsConsistent(Execute(db, steps[..|steps| - 1]), db, steps[|steps| - 1]);
    }
  }

  /** In every interleaving, whatever an open snapshot has read about its cameras, one by one, is what
      the durable policy still says, for all of them at once, and no commit happens while it is open. */
  lemma OpenSnapshotsAreCurrent(db: Database, steps: seq<Step>, reader: nat)
    requires reader in Execute(db, steps).readers
    ensures var w := Execute(db, steps);
            && (forall id :: id in w.readers[reader].read ==> w.readers[reader].read[id] == w.db.Selected(id))
            && (forall id :: id in w.readers[reader].read && w.readers[reader].read[id].PermitsLegacyRtsp() ==>
                  w.db.Selected(id).PermitsLegacyRtsp())
            && Do(w, Commit) == w
  {
    AlwaysConsistent(db, steps);
  }

  /** The number of commits that changed a camera's intent. */
  ghost function Changes(history: seq<Commitment>, id: string): nat
  {
    if history == [] then 0 else
      Changes(history[..|history| - 1], id) + if Target(history[|history| - 1].op) == Some(id) then 1 else 0
  }

  /** A camera's revision counts the accepted changes exactly, and each accepted change named the
      revision it found. */
  lemma {:induction false} RevisionCountsChanges(first: Database, history: seq<Commitment>, last: Database, id: string)
    requires Chain(first, history, last)
    ensures last.Selected(id).revision == first.Selected(id).revision + Changes(history, id)
    ensures Changes(history, id) > 0 ==> last.Selected(id).revision <= MAX_REVISION
  {
    hide Apply;
    if history != [] {
      var n := |history| - 1;
      var c := history[n];
      RevisionCountsChanges(first, history[..n], c.before, id);
      IntentRules(c.before, c.op, id);
    }
  }

  lemma {:induction false} ChainPrefix(first: Database, history: seq<Commitment>, last: Database, k: nat)
    requires Chain(first, history, last) && k < |history|
    ensures Chain(first, history[..k], history[k].before)
            && Apply(history[k].before, history[k].op) == Some(history[k].after)
    decreases |history|
  {
    var n := |history| - 1;
    if k < n {
      ChainPrefix(first, history[..n], history[n].before, k);
      assert history[..n][..k] == history[..k];
    }
  }

  lemma {:induction false} ChangesGrow(history: seq<Commitment>, id: string, i: nat, j: nat)
    requires i < j <= |history| && Target(history[i].op) == Some(id)
    ensures Changes(history[..i], id) < Changes(history[..j], id)
    decreases j
  {
    assert history[..j][..j - 1] == history[..j - 1];
    if i < j - 1 { ChangesGrow(history, id, i, j - 1); }
  }

  /** At most one coordinator wins each revision of a camera, whatever the interleaving: of two
      accepted changes the later one names a larger revision. */
  lemma OneWinnerPerRevision(db: Database, steps: seq<Step>, i: nat, j: nat)
    requires i < j < |Execute(db, steps).history|
    requires Target(Execute(db, steps).history[i].op).Some?
    requires Target(Execute(db, steps).history[i].op) == Target(Execute(db, steps).history[j].op)
    ensures Expected(Execute(db, steps).history[i].op) < Expected(Execute(db, steps).history[j].op)
  {
    hide Apply;
    AlwaysConsistent(db, steps);
    var w := Execute(db, steps);
    var id := Target(w.history[i].op).value;
    ChainPrefix(db, w.history, w.db, i);
    ChainPrefix(db, w.history, w.db, j);
    RevisionCountsChanges(db, w.history[..i], w.history[i].before, id);
    RevisionCountsChanges(db, w.history[..j], w.history[j].before, id);
    IntentRules(w.history[i].before, w.history[i].op, id);
    IntentRules(w.history[j].before, w.history[j].op, id);
    ChangesGrow(w.history, id, i, j);
  }

  /** A checkpoint is spent at most once per camera and revision in any run, with any number of
      repeated saves and racing consumers. */
  lemma CheckpointSpentOnce(db: Database, steps: seq<Step>, i: nat, j: nat)
    requires i < j < |Execute(db, steps).history|
    requires Execute(db, steps).history[i].op.ConsumeOp? && Execute(db, steps).history[j].op.ConsumeOp?
    ensures var a, b := Execute(db, steps).history[i].op.item, Execute(db, steps).history[j].op.item;
            a.cameraId != b.cameraId || a.revision < b.revision
  {
    var a, b := Execute(db, steps).history[i].op.item, Execute(db, steps).history[j].op.item;
    if a.cameraId == b.cameraId { OneWinnerPerRevision(db, steps, i, j); }
  }

  /** A blocked intent that changed was changed first by spending a matching checkpoint. */
  lemma {:induction false} BlockedLeavesByCheckpoint(
    first: Database, history: seq<Commitment>, last: Database, id: string)
    returns (k: nat)
    requires Chain(first, history, last)
    requires first.Selected(id).phase == "blocked" && last.Policy(id) != first.Policy(id)
    ensures k < |history| && history[k].op.ConsumeOp? && history[k].before.Policy(id) == first.Policy(id)
    ensures var item := history[k].op.item;
            && first.Selected(id) == Selection("native", "blocked", item.revision)
            && item.cameraId == id && Spendable(history[k].before, item)
  {
    hide Apply;
    var n := |history| - 1;
    var c := history[n];
    if c.before.Policy(id) == first.Policy(id) {
      IntentRules(c.before, c.op, id);
      k := n;
    } else {
      k := BlockedLeavesByCheckpoint(first, history[..n], c.before, id);
    }
  }

  /** A camera blocked in a mode other than native, or with a damaged row, is blocked in every
      later state of every run. */
  lemma BlockedForever(db: Database, steps: seq<Step>, id: string)
    requires db.Selected(id).phase == "blocked"
    requires db.Selected(id).mode != "native"
    ensures Execute(db, steps).db.Policy(id) == db.Policy(id)
    ensures !Execute(db, steps).db.Selected(id).PermitsLegacyRtsp()
  {
    AlwaysConsistent(db, steps);
    var w := Execute(db, steps);
    if w.db.Policy(id) != db.Policy(id) {
      var k := BlockedLeavesByCheckpoint(db, w.history, w.db, id);
      assert false;
    }
  }

  /** From a sound database every reachable state is sound. */
  lemma {:induction false} SoundRowsStaySound(first: Database, history: seq<Commitment>, last: Database, id: string)
    requires Chain(first, history, last)
    requires id in first.policy ==> !Corrupt(first.policy[id])
    ensures id in last.policy ==> !Corrupt(last.policy[id])
  {
    hide Apply;
    if history != [] {
      var n := |history| - 1;
      SoundRowsStaySound(first, history[..n], history[n].before, id);
      CorruptionRules(history[n].before, history[n].op, id);
    }
  }
}
