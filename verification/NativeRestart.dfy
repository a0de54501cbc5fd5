/** One-use clean-restart checkpoints, the only way out of the blocked phase. */
module NativeRestart {
  import opened Outcomes
  import opened SourcePolicy

  datatype CleanRestart = CleanRestart(cameraId: string, revision: int, domain: string)

  predicate ValidDomain(s: string)
  {
    1 <= |s| <= 128 && forall i :: 0 <= i < |s| ==> '!' <= s[i] <= '~'
  }

  predicate ValidItem(item: CleanRestart)
  {
    ValidCameraId(item.cameraId) && 1 <= item.revision < MAX_REVISION && ValidDomain(item.domain)
  }

  /** The camera is configured and its intent is native, blocked, at the checkpoint's revision. */
  predicate Current(db: Database, item: CleanRestart)
  {
    && item.cameraId in db.cameras && item.cameraId in db.policy
    && var row := db.policy[item.cameraId];
       row.mode == "native" && row.phase == "blocked" && row.revision == Integer(item.revision)
  }

  predicate Distinct(items: seq<CleanRestart>)
  {
    forall i, j :: 0 <= i < j < |items| ==> items[i].cameraId != items[j].cameraId
  }

  function Inserted(restart: map<string, RestartRow>, items: seq<CleanRestart>): map<string, RestartRow>
  {
    if items == [] then restart else
      var last := items[|items| - 1];
      Inserted(restart, items[..|items| - 1])
      [last.cameraId := RestartRow(Integer(last.revision), Some(last.domain), Integer(1))]
  }

  function Save(db: Database, items: seq<CleanRestart>): Result<Database, PolicyError>
  {
    if items == [] then Ok(db)
    else if !Distinct(items) || exists i :: 0 <= i < |items| && !ValidItem(items[i]) then Err(InvalidArgument)
    else if exists i :: 0 <= i < |items| && !Current(db, items[i]) then Err(Conflict)
    else Ok(db.(restart := Inserted(db.restart, items)))
  }

  function Discard(db: Database, id: string): Result<Database, PolicyError>
  {
    if !ValidCameraId(id) then Err(InvalidArgument) else Ok(db.(restart := db.restart - {id}))
  }

  predicate Spendable(db: Database, item: CleanRestart)
  {
    && item.cameraId in db.restart
    && db.restart[item.cameraId] == RestartRow(Integer(item.revision), Some(item.domain), Integer(1))
    && Current(db, item)
  }

  function Consume(db: Database, item: CleanRestart): Result<(Database, Selection), PolicyError>
  {
    if !ValidItem(item) then Err(InvalidArgument)
    else if !Spendable(db, item) then Err(Conflict)
    else
      var id := item.cameraId;
      var row := db.policy[id].(phase := "transition", revision := Integer(item.revision + 1));
      Ok((db.(policy := db.policy[id := row], restart := db.restart - {id}),
          Selection("native", "transition", item.revision + 1)))
  }

  /** The checkpoints a stored row stands for: one, or none if the row is damaged. */
  function ItemOf(id: string, row: RestartRow): Option<CleanRestart>
  {
    if row.revision.NotInteger? || row.domain.None? then None
    else Some(CleanRestart(id, row.revision.value, row.domain.value))
  }

  predicate Listed(db: Database, id: string)
    requires id in db.restart
  {
    && ItemOf(id, db.restart[id]).Some? && ValidItem(ItemOf(id, db.restart[id]).value)
    && db.restart[id].version == Integer(1) && Current(db, ItemOf(id, db.restart[id]).value)
  }

  /** The tables as the module's functions change them, one committed transaction per method. */
  class Store {
    var cameras: set<string>
    var policy: map<string, Row>
    var restart: map<string, RestartRow>

    ghost function Db(): Database
      reads this
    {
      Database(cameras, policy, restart)
    }

    method ChangePolicy(id: string, expected: int, phase: string, mode: Option<string>)
      returns (r: Result<Selection, PolicyError>)
      requires IsPhase(phase)
      modifies this`policy
      ensures match Change(old(Db()), id, expected, phase, mode)
              case Err(e) => r == Err(e) && Db() == old(Db())
              case Ok((next, selected)) => r == Ok(selected) && Db() == next
    {
      if !ValidCameraId(id) { return Err(InvalidArgument); }
      if expected < 0 || expected >= MAX_REVISION { return Err(InvalidArgument); }
      if id !in cameras { return Err(InvalidArgument); }
      var current := Select(if id in policy then Some(policy[id]) else None);
      var allowed := match phase
        case "transition" => current.phase == "active"
        case "active" => current.phase == "transition"
        case _ => current.phase == "active" || current.phase == "transition";
      if current.revision != expected || !allowed { return Err(Conflict); }
      var selected := Selection(if mode.Some? then mode.value else current.mode, phase, expected + 1);
      policy := policy[id := Row(selected.mode, selected.phase, Integer(selected.revision))];
      r := Ok(selected);
    }

    /** Nothing is written unless every item of the batch is valid and current. */
    method SaveBatch(items: seq<CleanRestart>) returns (r: Result<(), PolicyError>)
      modifies this`restart
      ensures match Save(old(Db()), items)
              case Err(e) => r == Err(e) && Db() == old(Db())
              case Ok(next) => r.Ok? && Db() == next
    {
      if items == [] { return Ok(()); }
      if !Distinct(items) { return Err(InvalidArgument); }
      for i := 0 to |items|
        invariant forall k :: 0 <= k < i ==> ValidItem(items[k])
      {
        if !ValidItem(items[i]) { return Err(InvalidArgument); }
      }
      var db := Database(cameras, policy, restart);
      for i := 0 to |items|
        invariant forall k :: 0 <= k < i ==> Current(db, items[k])
      {
        if !Current(db, items[i]) { return Err(Conflict); }
      }
      for i := 0 to |items|
        modifies this`restart
        invariant restart == Inserted(old(restart), items[..i])
      {
        assert items[..i + 1][..i] == items[..i];
        restart := restart[items[i].cameraId :=
          RestartRow(Integer(items[i].revision), Some(items[i].domain), Integer(1))];
      }
      assert items[..|items|] == items;
      r := Ok(());
    }

    /** The listed checkpoints are exactly those whose consumption would succeed now. */
    method Pending() returns (items: set<CleanRestart>)
      ensures forall item :: item in items <==> Consume(Db(), item).Ok?
    {
      var db := Database(cameras, policy, restart);
      var rows := restart.Keys;
      items := {};
      while rows != {}
        invariant rows <= restart.Keys
        invariant forall item :: item in items <==>
                    item.cameraId in restart.Keys - rows && Consume(db, item).Ok?
        decreases |rows|
      {
        var id :| id in rows;
        rows := rows - {id};
        ListedIsSpendable(db, id);
        if Listed(db, id) {
          items := items + {ItemOf(id, restart[id]).value};
        }
      }
    }

    method DiscardCheckpoint(id: string) returns (r: Result<(), PolicyError>)
      modifies this`restart
      ensures match Discard(old(Db()), id)
              case Err(e) => r == Err(e) && Db() == old(Db())
              case Ok(next) => r.Ok? && Db() == next
    {
      if !ValidCameraId(id) { return Err(InvalidArgument); }
      restart := restart - {id};
      r := Ok(());
    }

    method ConsumeCheckpoint(item: CleanRestart) returns (r: Result<Selection, PolicyError>)
      modifies this`policy, this`restart
      ensures match Consume(old(Db()), item)
              case Err(e) => r == Err(e) && Db() == old(Db())
              case Ok((next, selected)) => r == Ok(selected) && Db() == next
    {
      if !ValidItem(item) { return Err(InvalidArgument); }
      var id := item.cameraId;
      var db := Database(cameras, policy, restart);
      if id !in restart || restart[id].version != Integer(1) || restart[id].revision != Integer(item.revision)
         || restart[id].domain != Some(item.domain) || !Current(db, item) {
        return Err(Conflict);
      }
      policy := policy[id := policy[id].(phase := "transition", revision := Integer(item.revision + 1))];
      restart := restart - {id};
      r := Ok(Selection("native", "transition", item.revision + 1));
    }
  }

  /** A checkpoint can be spent exactly when it is the stored one, in version 1, of a configured camera
      whose intent is native, blocked and at its revision. */
  lemma ConsumeExactly(db: Database, item: CleanRestart)
    ensures Consume(db, item) == Err(InvalidArgument) <==>
              !(&& ValidCameraId(item.cameraId) && 1 <= item.revision < 0x7fff_ffff_ffff_ffff
                && 1 <= |item.domain| <= 128 && forall i :: 0 <= i < |item.domain| ==> '!' <= item.domain[i] <= '~')
    ensures Consume(db, item).Ok? <==>
              && Consume(db, item) != Err(InvalidArgument)
              && item.cameraId in db.cameras && item.cameraId in db.restart
              && db.restart[item.cameraId] == RestartRow(Integer(item.revision), Some(item.domain), Integer(1))
              && db.Selected(item.cameraId) == Selection("native", "blocked", item.revision)
  {
  }

  /** Discarding removes the camera's checkpoint and nothing else, so that none of it can be spent. */
  lemma DiscardExactly(db: Database, id: string)
    ensures Discard(db, id).Ok? <==> ValidCameraId(id)
    ensures Discard(db, id).Err? ==> Discard(db, id).error == InvalidArgument
    ensures Discard(db, id).Ok? ==>
              var next := Discard(db, id).value;
              && next.policy == db.policy && next.cameras == db.cameras && id !in next.restart
              && (forall other :: other != id ==>
                    && (other in next.restart <==> other in db.restart)
                    && (other in db.restart ==> next.restart[other] == db.restart[other]))
              && forall item: CleanRestart :: item.cameraId == id ==> Consume(next, item).Err?
  {
  }

  /** A batch is accepted exactly when its cameras are distinct and every item is well-formed and of a
      configured camera whose intent is native, blocked and at its revision. */
  lemma SaveExactly(db: Database, items: seq<CleanRestart>)
    ensures Save(db, []) == Ok(db)
    ensures items != [] ==>
              (Save(db, items) == Err(InvalidArgument) <==>
                 || (exists i, j :: 0 <= i < j < |items| && items[i].cameraId == items[j].cameraId)
                 || exists i :: 0 <= i < |items| && Consume(db, items[i]) == Err(InvalidArgument))
    ensures Save(db, items).Ok? <==>
              items == [] ||
              (&& Save(db, items) != Err(InvalidArgument)
               && forall i :: 0 <= i < |items| ==>
                    && items[i].cameraId in db.cameras
                    && db.Selected(items[i].cameraId) == Selection("native", "blocked", items[i].revision))
  {
    if items != [] && Save(db, items) != Err(InvalidArgument) {
      assert forall i :: 0 <= i < |items| ==> ValidItem(items[i]);
    }
  }

  lemma ListedIsSpendable(db: Database, id: string)
    requires id in db.restart
    ensures forall item: CleanRestart :: item.cameraId == id ==>
              (Consume(db, item).Ok? <==> Listed(db, id) && Some(item) == ItemOf(id, db.restart[id]))
  {
  }

  /** After a saved batch every item is spendable, and other cameras' checkpoints are untouched. */
  lemma SavedBatchIsSpendable(db: Database, items: seq<CleanRestart>)
    requires Save(db, items).Ok?
    ensures var next := Save(db, items).value;
            && next.policy == db.policy && next.cameras == db.cameras
            && (forall i :: 0 <= i < |items| ==> Consume(next, items[i]).Ok?)
            && (forall id :: (forall i :: 0 <= i < |items| ==> items[i].cameraId != id) ==>
                  (id in next.restart <==> id in db.restart)
                  && (id in db.restart ==> next.restart[id] == db.restart[id]))
  {
    InsertedAt(db.restart, items);
  }

  lemma {:induction false} InsertedAt(restart: map<string, RestartRow>, items: seq<CleanRestart>)
    requires Distinct(items)
    ensures var next := Inserted(restart, items);
            && (forall i :: 0 <= i < |items| ==>
                  && items[i].cameraId in next
                  && next[items[i].cameraId]
                     == RestartRow(Integer(items[i].revision), Some(items[i].domain), Integer(1)))
            && (forall id :: (forall i :: 0 <= i < |items| ==> items[i].cameraId != id) ==>
                  (id in next <==> id in restart) && (id in restart ==> next[id] == restart[id]))
  {
    if items != [] {
      var n := |items| - 1;
      InsertedAt(restart, items[..n]);
      assert forall i :: 0 <= i < n ==> items[..n][i] == items[i];
    }
  }

  /** Consuming spends the checkpoint: it moves the blocked native intent to the next revision in
      transition, and the same item cannot be consumed again. */
  lemma ConsumeSpends(db: Database, item: CleanRestart)
    requires Consume(db, item).Ok?
    ensures var (next, selected) := Consume(db, item).value;
            && db.Selected(item.cameraId) == Selection("native", "blocked", item.revision)
            && next.Selected(item.cameraId) == selected == Selection("native", "transition", item.revision + 1)
            && item.cameraId !in next.restart && Consume(next, item) == Err(Conflict)
            && (forall other :: other != item.cameraId ==> next.Policy(other) == db.Policy(other))
            && next.cameras == db.cameras
  {
  }
}
