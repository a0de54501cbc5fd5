/** Durable per-camera source intent: a mode, a phase and a revision that change only by
    compare-and-swap. */
module SourcePolicy {
  import opened Outcomes

  const MAX_REVISION := 0x7fff_ffff_ffff_ffff

  predicate IsMode(s: string) { s == "legacy_rtsp" || s == "owned_rtsp" || s == "native" }

  predicate IsPhase(s: string) { s == "active" || s == "transition" || s == "blocked" }

  predicate IsLowerHex(c: char) { '0' <= c <= '9' || 'a' <= c <= 'f' }

  predicate ValidCameraId(s: string)
  {
    |s| == 28 && s[..4] == "cam_" && forall i :: 4 <= i < 28 ==> IsLowerHex(s[i])
  }

  /** A camera id is "cam_" and 24 lower-case hexadecimal digits. */
  lemma CameraIdShape(s: string)
    ensures ValidCameraId(s) <==>
              |s| == 28 && "cam_" <= s && forall i :: 4 <= i < 28 ==> s[i] in "0123456789abcdef"
  {
    assert "cam_" <= s <==> |s| >= 4 && s[..4] == "cam_";
    forall i | 0 <= i < |s|
      ensures IsLowerHex(s[i]) <==> s[i] in "0123456789abcdef"
    {
      HexDigit(s[i]);
    }
  }

  lemma HexDigit(c: char)
    ensures IsLowerHex(c) <==> c in "0123456789abcdef"
  {
    var all := "0123456789abcdef";
    if '0' <= c <= '9' { assert all[(c - '0') as int] == c; }
    if 'a' <= c <= 'f' { assert all[10 + (c - 'a') as int] == c; }
  }

  /** A column value: the database does not enforce that it is an integer. */
  datatype Stored = Integer(value: int) | NotInteger

  datatype Row = Row(mode: string, phase: string, revision: Stored)

  datatype RestartRow = RestartRow(revision: Stored, domain: Option<string>, version: Stored)

  datatype Database = Database(cameras: set<string>, policy: map<string, Row>, restart: map<string, RestartRow>)
  {
    function Policy(id: string): Option<Row> { if id in policy then Some(policy[id]) else None }

    /** The intent every reader of this state sees. */
    function Selected(id: string): Selection { Select(Policy(id)) }
  }

  datatype Selection = Selection(mode: string, phase: string, revision: int)
  {
    predicate PermitsLegacyRtsp() { mode == "legacy_rtsp" && phase == "active" }
  }

  datatype PolicyError = InvalidArgument | Conflict

  predicate Corrupt(row: Row)
  {
    || !IsMode(row.mode) || !IsPhase(row.phase)
    || row.revision.NotInteger? || !(1 <= row.revision.value <= MAX_REVISION)
  }

  /** No row means untouched legacy; a damaged row is blocked, never legacy. */
  function Select(row: Option<Row>): Selection
  {
    if row.None? then Selection("legacy_rtsp", "active", 0)
    else if Corrupt(row.value) then Selection("legacy_rtsp", "blocked", -1)
    else Selection(row.value.mode, row.value.phase, row.value.revision.value)
  }

  predicate MayEnter(from: string, phase: string)
  {
    if phase == "transition" then from == "active"
    else if phase == "active" then from == "transition"
    else from == "active" || from == "transition"
  }

  function Change(db: Database, id: string, expected: int, phase: string, mode: Option<string>)
    : Result<(Database, Selection), PolicyError>
  {
    if !ValidCameraId(id) || !(0 <= expected < MAX_REVISION) || id !in db.cameras then Err(InvalidArgument) else
      var was := db.Selected(id);
      if was.revision != expected || !MayEnter(was.phase, phase) then Err(Conflict) else
        var selected := Selection(if mode.Some? then mode.value else was.mode, phase, expected + 1);
        Ok((db.(policy := db.policy[id := Row(selected.mode, phase, Integer(expected + 1))]), selected))
  }

  function BeginChange(db: Database, id: string, mode: string, expected: int)
    : Result<(Database, Selection), PolicyError>
  {
    if !IsMode(mode) then Err(InvalidArgument) else Change(db, id, expected, "transition", Some(mode))
  }

  function Activate(db: Database, id: string, expected: int): Result<(Database, Selection), PolicyError>
  {
    Change(db, id, expected, "active", None)
  }

  function Block(db: Database, id: string, expected: int): Result<(Database, Selection), PolicyError>
  {
    Change(db, id, expected, "blocked", None)
  }

  /** What a reader sees: nothing stored means active legacy at revision 0, a sound row means itself, and
      any other row means blocked at revision -1. */
  lemma SelectedIs(db: Database, id: string)
    ensures id !in db.policy ==> db.Selected(id) == Selection("legacy_rtsp", "active", 0)
    ensures id in db.policy ==>
              var row := db.policy[id];
              var sound := && row.mode in {"legacy_rtsp", "owned_rtsp", "native"}
                           && row.phase in {"active", "transition", "blocked"}
                           && row.revision.Integer? && 1 <= row.revision.value <= 0x7fff_ffff_ffff_ffff;
              db.Selected(id) == if sound then Selection(row.mode, row.phase, row.revision.value)
                                 else Selection("legacy_rtsp", "blocked", -1)
  {
  }

  /** The arguments that raise a ValueError in every change. */
  ghost predicate BadArguments(db: Database, id: string, expected: int)
  {
    !ValidCameraId(id) || id !in db.cameras || expected < 0 || expected >= 0x7fff_ffff_ffff_ffff
  }

  /** The database in which one camera has a new intent. */
  ghost function Written(db: Database, id: string, s: Selection): (Database, Selection)
  {
    (db.(policy := db.policy[id := Row(s.mode, s.phase, Integer(s.revision))]), s)
  }

  /** Exactly which changes are accepted, with what effect, and how the others are refused: an intent is
      blocked from active or transition, ... */
  lemma BlockExactly(db: Database, id: string, expected: int)
    ensures var was := db.Selected(id);
            Block(db, id, expected)
            == if BadArguments(db, id, expected) then Err(InvalidArgument)
               else if was.revision == expected && was.phase in {"active", "transition"}
               then Ok(Written(db, id, Selection(was.mode, "blocked", expected + 1)))
               else Err(Conflict)
  {
  }

  /** ... activated from transition, ... */
  lemma ActivateExactly(db: Database, id: string, expected: int)
    ensures var was := db.Selected(id);
            Activate(db, id, expected)
            == if BadArguments(db, id, expected) then Err(InvalidArgument)
               else if was.revision == expected && was.phase == "transition"
               then Ok(Written(db, id, Selection(was.mode, "active", expected + 1)))
               else Err(Conflict)
  {
  }

  /** ... and given a new mode from active. */
  lemma BeginExactly(db: Database, id: string, mode: string, expected: int)
    ensures var was := db.Selected(id);
            BeginChange(db, id, mode, expected)
            == if mode !in {"legacy_rtsp", "owned_rtsp", "native"} || BadArguments(db, id, expected)
               then Err(InvalidArgument)
               else if was.revision == expected && was.phase == "active"
               then Ok(Written(db, id, Selection(mode, "transition", expected + 1)))
               else Err(Conflict)
  {
  }

  /** A winning change names the current revision, raises it by one, and writes a sound row that
      readers see as the returned selection; nothing else in the database moves. */
  lemma ChangeWins(db: Database, id: string, expected: int, phase: string, mode: Option<string>)
    requires IsPhase(phase) && (mode.Some? ==> IsMode(mode.value))
    requires Change(db, id, expected, phase, mode).Ok?
    ensures var (next, selected) := Change(db, id, expected, phase, mode).value;
            && expected == db.Selected(id).revision && next.Selected(id) == selected
            && selected.revision == expected + 1 <= MAX_REVISION
            && (forall other :: other != id ==> next.Policy(other) == db.Policy(other))
            && next.cameras == db.cameras && next.restart == db.restart
            && !Corrupt(next.policy[id])
            && (id in db.policy ==> !Corrupt(db.policy[id]) && db.policy[id].phase != "blocked")
            && (phase == "active" ==> db.Selected(id).phase == "transition")
  {
  }

  /** A damaged row permits nothing and refuses every compare-and-swap. */
  lemma CorruptRowIsInert(db: Database, id: string, expected: int, phase: string, mode: Option<string>)
    requires id in db.policy && Corrupt(db.policy[id])
    ensures !db.Selected(id).PermitsLegacyRtsp()
    ensures Change(db, id, expected, phase, mode).Err?
  {
  }
}
