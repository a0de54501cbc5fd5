/** The camera registry: upsert by stable identity, re-key to an authoritative MAC, and the
    reconciliation of a scan. */
module Registry {
  import opened Outcomes
  import SourcePolicy

  type Token = seq<byte>

  type Caps = map<string, string>

  /** One stored row; the primary key is the camera id. */
  datatype Row = Row(mac: string, name: string, username: string, passwordEnc: Option<Token>, streamPath: string,
                     rtspPort: int, lastIp: string, vendor: string, capabilities: string,
                     createdAt: string, updatedAt: string)

  type Table = map<string, Row>

  /** A record as callers see it, with the password decrypted and the capabilities parsed. */
  datatype Camera = Camera(cameraId: string, mac: string, name: string, username: string, password: string,
                           streamPath: string, rtspPort: int, lastIp: string, vendor: string, capabilities: Caps,
                           createdAt: string, updatedAt: string)

  /** Code outside the registry: encryption, JSON, identity hashing and case folding. */
  datatype Env = Env(encrypt: string -> Token, decrypt: Token -> Option<string>,
                     dump: Caps -> string, load: string -> Caps,
                     stableId: string -> Option<string>, lower: string -> string)
  {
    /** Decrypting an encrypted password returns it, JSON of a non-empty object reads back, derived
        ids are well-formed, and folding case twice changes nothing more and empties nothing. */
    ghost predicate Faithful()
    {
      && (forall p :: p != "" ==> decrypt(encrypt(p)) == Some(p) && encrypt(p) != [])
      && load("") == map[] && (forall c :: c != map[] ==> load(dump(c)) == c)
      && (forall m :: stableId(m).Some? ==> SourcePolicy.ValidCameraId(stableId(m).value))
      && (forall m :: lower(lower(m)) == lower(m) && (lower(m) == "" <==> m == ""))
    }

    function Password(token: Option<Token>): string
    {
      if token.None? || token.value == [] || decrypt(token.value).None? then "" else decrypt(token.value).value
    }

    function View(id: string, row: Row): Camera
    {
      Camera(id, row.mac, row.name, row.username, Password(row.passwordEnc), row.streamPath, row.rtspPort,
             row.lastIp, row.vendor, load(row.capabilities), row.createdAt, row.updatedAt)
    }

    function Stored(c: Camera): Row
    {
      Row(c.mac, c.name, c.username, if c.password != "" then Some(encrypt(c.password)) else None, c.streamPath,
          c.rtspPort, c.lastIp, c.vendor, if c.capabilities != map[] then dump(c.capabilities) else "",
          c.createdAt, c.updatedAt)
    }
  }

  /** Writing a record back leaves its view unchanged. */
  lemma StoredView(env: Env, c: Camera)
    requires env.Faithful()
    ensures env.View(c.cameraId, env.Stored(c)) == c
  {
  }

  /** The unique index on non-empty MACs. */
  ghost predicate UniqueMacs(t: Table)
  {
    forall a, b :: a in t && b in t && t[a].mac != "" && t[a].mac == t[b].mac ==> a == b
  }

  ghost function FindMac(t: Table, mac: string): Option<string>
  {
    if mac != "" && exists id :: id in t && t[id].mac == mac then
      var id :| id in t && t[id].mac == mac;
      Some(id)
    else None
  }

  lemma FindMacUnique(t: Table, mac: string, id: string)
    requires UniqueMacs(t) && mac != "" && id in t && t[id].mac == mac
    ensures FindMac(t, mac) == Some(id)
  {
  }

  datatype RegistryError = InvalidIdentity | MacTaken | CallbackFailed

  /** The fields an upsert may set; the others keep their value. */
  datatype Changes = Changes(name: Option<string>, username: Option<string>, password: Option<string>,
                             streamPath: Option<string>, rtspPort: Option<int>, lastIp: Option<string>,
                             vendor: Option<string>, capabilities: Option<Caps>)

  function Or<T>(o: Option<T>, default: T): T { if o.Some? then o.value else default }

  function Merge(c: Camera, ch: Changes): Camera
  {
    c.(name := Or(ch.name, c.name), username := Or(ch.username, c.username), password := Or(ch.password, c.password),
       streamPath := Or(ch.streamPath, c.streamPath), rtspPort := Or(ch.rtspPort, c.rtspPort),
       lastIp := Or(ch.lastIp, c.lastIp), vendor := Or(ch.vendor, c.vendor),
       capabilities := Or(ch.capabilities, c.capabilities))
  }

  function NewCamera(id: string, mac: string, now: string): Camera
  {
    Camera(id, mac, "", "admin", "", "", 554, "", "", map[], now, now)
  }

  /** The record an upsert works on: found by id, else by MAC, else new. */
  ghost function Subject(env: Env, t: Table, id: string, mac: string, now: string): Camera
  {
    var found := if id in t then Some(id) else FindMac(t, mac);
    if found.None? || found.value !in t then NewCamera(id, mac, now) else
      var c := env.View(found.value, t[found.value]);
      c.(updatedAt := now, mac := if mac != "" then mac else c.mac)
  }

  ghost predicate Taken(t: Table, id: string, mac: string)
  {
    mac != "" && exists other :: other in t && other != id && t[other].mac == mac
  }

  ghost function Upsert(env: Env, t: Table, id: Option<string>, rawMac: string, ch: Changes, now: string)
    : Result<(Table, Camera), RegistryError>
  {
    var mac := env.lower(rawMac);
    if id.None? || !SourcePolicy.ValidCameraId(id.value) then Err(InvalidIdentity) else
      var c := Merge(Subject(env, t, id.value, mac, now), ch);
      if Taken(t, c.cameraId, c.mac) then Err(MacTaken) else Ok((t[c.cameraId := env.Stored(c)], c))
  }

  ghost function Rekey(env: Env, t: Table, oldMac: string, newMac: string, now: string): (Table, Option<string>)
  {
    var o, n := env.lower(oldMac), env.lower(newMac);
    var found := FindMac(t, o);
    if o == n then (t, found)
    else if found.None? || FindMac(t, n).Some? then (t, None)
    else (t[found.value := t[found.value].(mac := n, updatedAt := now)], found)
  }

  datatype Host = Host(mac: string, arpMac: string, address: string, hasRtsp: bool)

  datatype Candidate = Candidate(mac: string, ip: string)

  const NO_CHANGES := Changes(None, None, None, None, None, None, None, None)

  // ----- what must survive -----

  /** Everything about a record except its MAC, its last address and its update time. */
  ghost predicate SameRecord(env: Env, a: Row, b: Row)
  {
    && a.name == b.name && a.username == b.username && env.Password(a.passwordEnc) == env.Password(b.passwordEnc)
    && a.streamPath == b.streamPath && a.rtspPort == b.rtspPort && a.vendor == b.vendor
    && env.load(a.capabilities) == env.load(b.capabilities) && a.createdAt == b.createdAt
  }

  /** The same cameras with the same configuration, and MACs still unique. */
  ghost predicate Preserved(env: Env, t: Table, u: Table)
  {
    && u.Keys == t.Keys && (UniqueMacs(t) ==> UniqueMacs(u))
    && forall id :: id in t ==> SameRecord(env, t[id], u[id])
  }

  lemma ReplaceOne(env: Env, t: Table, id: string, row: Row)
    requires id in t && SameRecord(env, t[id], row) && !Taken(t, id, row.mac)
    ensures Preserved(env, t, t[id := row])
  {
  }

  /** A re-key moves one record to a MAC nobody had; it never merges two. */
  lemma RekeyPreserves(env: Env, t: Table, oldMac: string, newMac: string, now: string)
    requires UniqueMacs(t)
    ensures var (u, moved) := Rekey(env, t, oldMac, newMac, now);
            && Preserved(env, t, u)
            && (moved.None? ==> u == t)
            && (moved.Some? ==>
                  && moved.value in t && t[moved.value].mac == env.lower(oldMac)
                  && u[moved.value].mac == env.lower(newMac)
                  && !Taken(t, moved.value, env.lower(newMac))
                  && forall id :: id in t && id != moved.value ==> u[id] == t[id])
  {
    hide UniqueMacs;
    var o, n := env.lower(oldMac), env.lower(newMac);
    var found := FindMac(t, o);
    if found.Some? && o == n {
      NotTaken(t, n, found.value);
    } else if found.Some? && FindMac(t, n).None? {
      ReplaceOne(env, t, found.value, t[found.value].(mac := n, updatedAt := now));
    }
  }

  lemma NotTaken(t: Table, mac: string, id: string)
    requires UniqueMacs(t) && FindMac(t, mac) == Some(id)
    ensures !Taken(t, id, mac)
  {
  }

  /** Refreshing the address of a registered MAC succeeds exactly when the identity derived from that
      MAC is free or is the record's own; it then changes only the address and the update time. */
  lemma RefreshAddress(env: Env, t: Table, rawMac: string, id: string, address: string, now: string)
    requires env.Faithful() && UniqueMacs(t) && FindMac(t, env.lower(rawMac)) == Some(id)
    ensures var derived := env.stableId(env.lower(rawMac));
            var r := Upsert(env, t, derived, rawMac, NO_CHANGES.(lastIp := Some(address)), now);
            && (r.Ok? <==> derived.Some? && (derived.value !in t || derived.value == id))
            && (r.Ok? ==> && Preserved(env, t, r.value.0)
                          && r.value.1 == env.View(id, t[id]).(lastIp := address, updatedAt := now)
                          && env.View(id, r.value.0[id]) == r.value.1
                          && forall other :: other in t && other != id ==> r.value.0[other] == t[other])
  {
    hide UniqueMacs, Preserved;
    var mac := env.lower(rawMac);
    var derived := env.stableId(mac);
    NotTaken(t, mac, id);
    if derived.Some? {
      var c := Merge(Subject(env, t, derived.value, mac, now), NO_CHANGES.(lastIp := Some(address)));
      if derived.value in t && derived.value != id {
        assert Taken(t, c.cameraId, mac) by { assert t[id].mac == mac; }
      } else {
        assert c == env.View(id, t[id]).(lastIp := address, updatedAt := now);
        StoredView(env, c);
        ReplaceOne(env, t, id, env.Stored(c));
      }
    }
  }

  /** Each field of c that an upsert may set is the given one, or else that of the record before. */
  ghost predicate SetFrom(c: Camera, before: Camera, ch: Changes)
  {
    && (if ch.name.Some? then Some(c.name) == ch.name else c.name == before.name)
    && (if ch.username.Some? then Some(c.username) == ch.username else c.username == before.username)
    && (if ch.password.Some? then Some(c.password) == ch.password else c.password == before.password)
    && (if ch.streamPath.Some? then Some(c.streamPath) == ch.streamPath else c.streamPath == before.streamPath)
    && (if ch.rtspPort.Some? then Some(c.rtspPort) == ch.rtspPort else c.rtspPort == before.rtspPort)
    && (if ch.lastIp.Some? then Some(c.lastIp) == ch.lastIp else c.lastIp == before.lastIp)
    && (if ch.vendor.Some? then Some(c.vendor) == ch.vendor else c.vendor == before.vendor)
    && (if ch.capabilities.Some? then Some(c.capabilities) == ch.capabilities
        else c.capabilities == before.capabilities)
  }

  /** An upsert is refused exactly for an invalid identity, or for a MAC that another record has. */
  lemma UpsertExactly(env: Env, t: Table, id: Option<string>, rawMac: string, ch: Changes, now: string)
    requires env.Faithful() && UniqueMacs(t)
    ensures var r := Upsert(env, t, id, rawMac, ch, now);
            var mac := env.lower(rawMac);
            && (r == Err(InvalidIdentity) <==> id.None? || !SourcePolicy.ValidCameraId(id.value))
            && (r == Err(MacTaken) <==>
                  && id.Some? && SourcePolicy.ValidCameraId(id.value)
                  && id.value in t && mac != "" && FindMac(t, mac).Some? && FindMac(t, mac) != id)
            && (r.Err? ==> r.error == InvalidIdentity || r.error == MacTaken)
  {
  }

  /** An upsert stores what it returns, sets only the fields it was given, and leaves every other
      record alone; it adds a record only when neither the identity nor the MAC is known. */
  lemma UpsertSetsOnlyGiven(env: Env, t: Table, id: string, rawMac: string, ch: Changes, now: string)
    requires env.Faithful() && UniqueMacs(t) && Upsert(env, t, Some(id), rawMac, ch, now).Ok?
    ensures var (u, c) := Upsert(env, t, Some(id), rawMac, ch, now).value;
            var mac := env.lower(rawMac);
            && c.cameraId in u && env.View(c.cameraId, u[c.cameraId]) == c && UniqueMacs(u)
            && (forall other :: other != c.cameraId ==>
                  (other in u <==> other in t) && (other in t ==> u[other] == t[other]))
            && (c.cameraId !in t ==>
                  && c.cameraId == id && FindMac(t, mac).None? && c.createdAt == now && c.mac == mac
                  && SetFrom(c, Camera(id, mac, "", "admin", "", "", 554, "", "", map[], now, now), ch))
            && (c.cameraId in t ==>
                  && c.cameraId == (if id in t then id else c.cameraId)
                  && (c.cameraId == id || FindMac(t, mac) == Some(c.cameraId))
                  && SetFrom(c, env.View(c.cameraId, t[c.cameraId]), ch) && c.createdAt == t[c.cameraId].createdAt
                  && c.mac == if mac != "" then mac else t[c.cameraId].mac)
            && c.updatedAt == now
  {
    hide Merge, SetFrom, Subject, FindMac, UniqueMacs, Taken, Env.View, Env.Stored;
    var (u, c) := Upsert(env, t, Some(id), rawMac, ch, now).value;
    var mac := env.lower(rawMac);
    StoredView(env, c);
    assert env.Stored(c).mac == c.mac by { StoredMac(env, c); }
    FreeMacStaysUnique(t, c.cameraId, env.Stored(c));
    SubjectIs(env, t, id, mac, now);
    MergeSets(Subject(env, t, id, mac, now), ch);
    if c.cameraId in t { SetFromSame(c, env.View(c.cameraId, t[c.cameraId]), c.mac, now, ch); }
  }

  lemma StoredMac(env: Env, c: Camera)
    ensures env.Stored(c).mac == c.mac
  {
  }

  lemma FreeMacStaysUnique(t: Table, id: string, row: Row)
    requires UniqueMacs(t) && !Taken(t, id, row.mac)
    ensures UniqueMacs(t[id := row])
  {
  }

  /** The record an upsert works on. */
  lemma SubjectIs(env: Env, t: Table, id: string, mac: string, now: string)
    ensures var c := Subject(env, t, id, mac, now);
            && (id in t ==> c.cameraId == id)
            && (c.cameraId !in t ==>
                  && c.cameraId == id && FindMac(t, mac).None?
                  && c == Camera(id, mac, "", "admin", "", "", 554, "", "", map[], now, now))
            && (c.cameraId in t ==>
                  && (c.cameraId == id || FindMac(t, mac) == Some(c.cameraId))
                  && c == env.View(c.cameraId, t[c.cameraId]).(updatedAt := now, mac := c.mac)
                  && c.createdAt == t[c.cameraId].createdAt
                  && c.mac == if mac != "" then mac else t[c.cameraId].mac)
  {
    if id !in t && FindMac(t, mac).Some? { Found(t, mac); }
  }

  lemma MergeSets(c: Camera, ch: Changes)
    ensures var m := Merge(c, ch);
            && SetFrom(m, c, ch) && m.cameraId == c.cameraId && m.mac == c.mac
            && m.createdAt == c.createdAt && m.updatedAt == c.updatedAt
  {
  }

  lemma SetFromSame(c: Camera, before: Camera, mac: string, now: string, ch: Changes)
    requires SetFrom(c, before.(mac := mac, updatedAt := now), ch)
    ensures SetFrom(c, before, ch)
  {
  }

  // ----- reconciliation -----

  /** What one scanned host does: the table it leaves, the refreshed camera if it was registered,
      the candidate if it is new, and the error that stops the scan, if any. */
  datatype Effect = Effect(table: Table, configured: Option<Camera>,
                           candidate: Option<Candidate>, error: Option<RegistryError>)

  ghost function ReconcileHost(env: Env, t: Table, host: Host, callbackFails: bool, now: string): Effect
  {
    if host.mac == "" then Effect(t, None, None, None) else
      var known := FindMac(t, env.lower(host.mac));
      var (u, found) := if known.None? && host.arpMac != "" && host.arpMac != host.mac
                        then Rekey(env, t, host.arpMac, host.mac, now) else (t, known);
      if known.None? && found.Some? && callbackFails then Effect(u, None, None, Some(CallbackFailed))
      else if found.Some? then
        var r := Upsert(env, u, env.stableId(env.lower(host.mac)), host.mac,
                        NO_CHANGES.(lastIp := Some(host.address)), now);
        if r.Err? then Effect(u, None, None, Some(r.error)) else Effect(r.value.0, Some(r.value.1), None, None)
      else Effect(u, None, if host.hasRtsp then Some(Candidate(host.mac, host.address)) else None, None)
  }

  /** One host, whether or not it stops the scan, keeps every camera and its configuration, and a
      registered host's record gets the scanned MAC and address. */
  lemma HostPreserves(env: Env, t: Table, host: Host, callbackFails: bool, now: string)
    requires env.Faithful() && UniqueMacs(t)
    ensures var e := ReconcileHost(env, t, host, callbackFails, now);
            && Preserved(env, t, e.table) && UniqueMacs(e.table)
            && (e.configured.Some? ==>
                  var c := e.configured.value;
                  && c.cameraId in e.table && env.View(c.cameraId, e.table[c.cameraId]) == c
                  && c.mac == env.lower(host.mac) && c.lastIp == host.address && e.error.None?)
            && (e.candidate.Some? ==> e.table == t && FindMac(t, env.lower(host.mac)).None? && e.configured.None?
                                      && e.candidate.value == Candidate(host.mac, host.address) && host.hasRtsp)
  {
    hide UniqueMacs, Preserved, Upsert, Rekey, FindMac;
    if host.mac != "" {
      var mac := env.lower(host.mac);
      var known := FindMac(t, mac);
      Reflexive(env, t);
      if known.Some? {
        Found(t, mac);
        RefreshAddress(env, t, host.mac, known.value, host.address, now);
        Keeps(env, t, ReconcileHost(env, t, host, callbackFails, now).table);
      } else if host.arpMac != "" && host.arpMac != host.mac {
        RekeyPreserves(env, t, host.arpMac, host.mac, now);
        var (u, moved) := Rekey(env, t, host.arpMac, host.mac, now);
        Keeps(env, t, u);
        if moved.Some? {
          FindMacUnique(u, mac, moved.value);
          Found(u, mac);
          RefreshAddress(env, u, host.mac, moved.value, host.address, now);
          var e := ReconcileHost(env, t, host, callbackFails, now);
          if e.configured.Some? { Transitive(env, t, u, e.table); }
          Keeps(env, t, e.table);
        }
      } else {
        Keeps(env, t, t);
      }
    } else {
      Reflexive(env, t);
      Keeps(env, t, t);
    }
  }

  /** The record a host is recognised as: the holder of its MAC, else of its ARP address. */
  ghost function Matched(env: Env, t: Table, host: Host): Option<string>
  {
    if host.mac == "" then None
    else if FindMac(t, env.lower(host.mac)).Some? then FindMac(t, env.lower(host.mac))
    else if host.arpMac != "" && host.arpMac != host.mac then FindMac(t, env.lower(host.arpMac))
    else None
  }

  /** A host stops the scan with a MAC conflict exactly when it is recognised as one camera while the
      identity derived from its MAC is another registered camera (and the re-key callback, if one is
      due, did not stop it first). */
  lemma StopsOnForeignIdentity(env: Env, t: Table, host: Host, callbackFails: bool, now: string)
    requires env.Faithful() && UniqueMacs(t)
    ensures var mac := env.lower(host.mac);
            var matched, derived := Matched(env, t, host), env.stableId(mac);
            ReconcileHost(env, t, host, callbackFails, now).error == Some(MacTaken) <==>
              && matched.Some? && derived.Some? && derived.value in t && derived.value != matched.value
              && (FindMac(t, mac).Some? || !callbackFails)
  {
    hide UniqueMacs, Preserved, Upsert, Rekey, FindMac;
    var mac := env.lower(host.mac);
    if host.mac != "" {
      var known := FindMac(t, mac);
      if known.Some? {
        RefreshRefusal(env, t, host.mac, known.value, host.address, now);
      } else if host.arpMac != "" && host.arpMac != host.mac {
        RekeyPreserves(env, t, host.arpMac, host.mac, now);
        RekeyMoves(env, t, host.arpMac, host.mac, now);
        var (u, moved) := Rekey(env, t, host.arpMac, host.mac, now);
        Keeps(env, t, u);
        if moved.Some? {
          FindMacUnique(u, mac, moved.value);
          RefreshRefusal(env, u, host.mac, moved.value, host.address, now);
        }
      }
    }
  }

  /** What a host comes to, exactly: skipped without a MAC; a candidate if it is not recognised and has
      RTSP; otherwise refreshed, unless the callback of a re-key fails or its identity is refused. */
  lemma HostOutcome(env: Env, t: Table, host: Host, callbackFails: bool, now: string)
    requires env.Faithful() && UniqueMacs(t)
    ensures var e := ReconcileHost(env, t, host, callbackFails, now);
            var matched, known := Matched(env, t, host), FindMac(t, env.lower(host.mac)).Some?;
            && (e.candidate == if host.mac != "" && matched.None? && host.hasRtsp
                               then Some(Candidate(host.mac, host.address)) else None)
            && (e.configured.Some? <==> matched.Some? && e.error.None?)
            && (e.configured.Some? ==> e.configured.value.cameraId == matched.value)
            && (e.error == Some(CallbackFailed) <==> matched.Some? && !known && callbackFails)
            && (matched.None? ==> e.table == t && e.error.None?)
  {
    hide UniqueMacs, Preserved, Upsert, Rekey, FindMac;
    var mac := env.lower(host.mac);
    if host.mac != "" {
      var known := FindMac(t, mac);
      if known.Some? {
        RefreshAddress(env, t, host.mac, known.value, host.address, now);
        RefreshError(env, t, host.mac, host.address, now);
      } else if host.arpMac != "" && host.arpMac != host.mac {
        RekeyPreserves(env, t, host.arpMac, host.mac, now);
        RekeyMoves(env, t, host.arpMac, host.mac, now);
        var (u, moved) := Rekey(env, t, host.arpMac, host.mac, now);
        Keeps(env, t, u);
        if moved.Some? {
          FindMacUnique(u, mac, moved.value);
          RefreshAddress(env, u, host.mac, moved.value, host.address, now);
          RefreshError(env, u, host.mac, host.address, now);
        }
      }
    }
  }

  lemma RefreshError(env: Env, t: Table, rawMac: string, address: string, now: string)
    ensures Upsert(env, t, env.stableId(env.lower(rawMac)), rawMac, NO_CHANGES.(lastIp := Some(address)), now)
            != Err(CallbackFailed)
  {
  }

  /** A re-key to a free MAC moves the holder of the old one. */
  lemma RekeyMoves(env: Env, t: Table, oldMac: string, newMac: string, now: string)
    requires FindMac(t, env.lower(newMac)).None?
    ensures Rekey(env, t, oldMac, newMac, now).1 == FindMac(t, env.lower(oldMac))
  {
  }

  /** Why refreshing the holder of a MAC fails. */
  lemma RefreshRefusal(env: Env, t: Table, rawMac: string, id: string, address: string, now: string)
    requires env.Faithful() && UniqueMacs(t) && FindMac(t, env.lower(rawMac)) == Some(id)
    ensures var derived := env.stableId(env.lower(rawMac));
            var r := Upsert(env, t, derived, rawMac, NO_CHANGES.(lastIp := Some(address)), now);
            r == Err(MacTaken) <==> derived.Some? && derived.value in t && derived.value != id
  {
    RefreshAddress(env, t, rawMac, id, address, now);
  }

  /** Such a scan exists after a re-key: camera b was registered under MAC y, which is now on camera a's
      hardware. The first host moves b to z; the second moves a to y, whose identity is still b's, and
      stops the scan instead of refreshing a. */
  lemma ScanStopsAfterRekey(env: Env, t: Table, a: string, b: string, x: string, y: string, z: string,
                            fresh': string, p: string, q: string, rtsp: bool, callbackFails: nat -> bool, now: string)
    requires env.Faithful() && t.Keys == {a, b} && a != b && t[a].mac == x && t[b].mac == y
    requires env.lower(x) == x && env.lower(y) == y && env.lower(z) == z
    requires x != "" && y != "" && z != "" && x != y && y != z && x != z
    requires env.stableId(y) == Some(b) && env.stableId(z) == Some(fresh') && fresh' != a && fresh' != b
    requires !callbackFails(0) && !callbackFails(1)
    ensures var scan := ReconcileAll(env, t, [Host(z, y, p, rtsp), Host(y, x, q, rtsp)], callbackFails, now);
            && scan.error == Some(MacTaken) && |scan.configured| == 1
            && scan.table.Keys == {a, b} && scan.table[a].mac == y && scan.table[b].mac == z
            && scan.table[a].lastIp == t[a].lastIp
  {
    hide ReconcileHost, ReconcileAll, UniqueMacs;
    var first, second := Host(z, y, p, rtsp), Host(y, x, q, rtsp);
    PairIsUnique(t, a, b);
    MovedTo(env, t, b, y, z, p, rtsp, fresh', now);
    var u := ReconcileHost(env, t, first, false, now).table;
    PairIsUnique(u, a, b);
    MovedButRefused(env, u, a, b, x, y, q, rtsp, now);
    TwoHosts(env, t, first, second, callbackFails, now);
  }

  lemma PairIsUnique(t: Table, a: string, b: string)
    requires t.Keys == {a, b} && t[a].mac != t[b].mac
    ensures UniqueMacs(t)
  {
  }

  lemma TwoHosts(env: Env, t: Table, first: Host, second: Host, callbackFails: nat -> bool, now: string)
    ensures var one := Advance(env, Scan(t, [], [], None), first, callbackFails(0), now);
            ReconcileAll(env, t, [first, second], callbackFails, now)
            == if one.error.Some? then one else Advance(env, one, second, callbackFails(1), now)
  {
    hide Advance;
    assert [first, second][..1] == [first] && [first][..0] == [];
    assert ReconcileAll(env, t, [], callbackFails, now) == Scan(t, [], [], None);
    assert ReconcileAll(env, t, [first], callbackFails, now)
        == Advance(env, Scan(t, [], [], None), first, callbackFails(0), now);
  }

  /** A host seen under a new MAC: its record moves there and is refreshed. */
  lemma MovedTo(env: Env, t: Table, id: string, old': string, new': string, address: string, rtsp: bool,
                derived: string, now: string)
    requires env.Faithful() && UniqueMacs(t) && id in t && t[id].mac == old' != "" && new' != "" && old' != new'
    requires env.lower(old') == old' && env.lower(new') == new' && env.stableId(new') == Some(derived) && derived !in t
    requires forall k :: k in t ==> t[k].mac != new'
    ensures var e := ReconcileHost(env, t, Host(new', old', address, rtsp), false, now);
            && e.error.None? && e.configured.Some? && e.candidate.None?
            && e.table.Keys == t.Keys && e.table[id].mac == new'
            && forall k :: k in t && k != id ==> e.table[k] == t[k]
  {
    hide Upsert, Preserved;
    FindMacUnique(t, old', id);
    var (u, moved) := Rekey(env, t, old', new', now);
    RekeyPreserves(env, t, old', new', now);
    FindMacUnique(u, new', id);
    Keeps(env, t, u);
    RefreshAddress(env, u, new', id, address, now);
    Keeps(env, u, ReconcileHost(env, t, Host(new', old', address, rtsp), false, now).table);
  }

  /** A host whose record moves to a MAC that another camera's identity was derived from. */
  lemma MovedButRefused(env: Env, t: Table, id: string, other: string, old': string, new': string, address: string,
                        rtsp: bool, now: string)
    requires env.Faithful() && UniqueMacs(t) && id in t && other in t && id != other
    requires t[id].mac == old' != "" && new' != "" && old' != new'
    requires env.lower(old') == old' && env.lower(new') == new' && env.stableId(new') == Some(other)
    requires forall k :: k in t ==> t[k].mac != new'
    ensures var e := ReconcileHost(env, t, Host(new', old', address, rtsp), false, now);
            && e.error == Some(MacTaken) && e.configured.None? && e.candidate.None?
            && e.table == t[id := t[id].(mac := new', updatedAt := now)]
  {
    FindMacUnique(t, old', id);
    StopsOnForeignIdentity(env, t, Host(new', old', address, rtsp), false, now);
  }

  lemma Reflexive(env: Env, t: Table)
    ensures Preserved(env, t, t)
  {
  }

  lemma Transitive(env: Env, t: Table, u: Table, v: Table)
    requires Preserved(env, t, u) && Preserved(env, u, v)
    ensures Preserved(env, t, v)
  {
  }

  lemma Keeps(env: Env, t: Table, u: Table)
    requires Preserved(env, t, u) && UniqueMacs(t)
    ensures UniqueMacs(u) && u.Keys == t.Keys
  {
  }

  lemma Found(t: Table, mac: string)
    requires FindMac(t, mac).Some?
    ensures FindMac(t, mac).value in t && t[FindMac(t, mac).value].mac == mac != ""
  {
  }

  /** The whole scan: hosts are handled in order until one raises. */
  datatype Scan = Scan(table: Table, configured: seq<Camera>, candidates: seq<Candidate>, error: Option<RegistryError>)

  ghost function Advance(env: Env, scan: Scan, host: Host, callbackFails: bool, now: string): Scan
  {
    var e := ReconcileHost(env, scan.table, host, callbackFails, now);
    Scan(e.table,
         if e.configured.Some? then scan.configured + [e.configured.value] else scan.configured,
         if e.candidate.Some? then scan.candidates + [e.candidate.value] else scan.candidates,
         e.error)
  }

  ghost function ReconcileAll(env: Env, t: Table, hosts: seq<Host>, callbackFails: nat -> bool, now: string): Scan
  {
    if hosts == [] then Scan(t, [], [], None) else
      var n := |hosts| - 1;
      var before := ReconcileAll(env, t, hosts[..n], callbackFails, now);
      if before.error.Some? then before else Advance(env, before, hosts[n], callbackFails(n), now)
  }

  /** Reconciling any scan, including one that stops on an error, keeps the set of cameras, every
      stored name, credential, path and capability, and the uniqueness of MACs; every camera it
      returns is a registered one. */
  lemma {:induction false} ScanPreserves(env: Env, t: Table, hosts: seq<Host>, callbackFails: nat -> bool, now: string)
    requires env.Faithful() && UniqueMacs(t)
    ensures var scan := ReconcileAll(env, t, hosts, callbackFails, now);
            && Preserved(env, t, scan.table) && UniqueMacs(scan.table)
            && |scan.configured| + |scan.candidates| <= |hosts|
            && forall i :: 0 <= i < |scan.configured| ==> scan.configured[i].cameraId in t
  {
    hide UniqueMacs, Preserved, ReconcileHost;
    Reflexive(env, t);
    if hosts != [] {
      var n := |hosts| - 1;
      ScanPreserves(env, t, hosts[..n], callbackFails, now);
      var before := ReconcileAll(env, t, hosts[..n], callbackFails, now);
      if before.error.None? {
        HostPreserves(env, before.table, hosts[n], callbackFails(n), now);
        var e := ReconcileHost(env, before.table, hosts[n], callbackFails(n), now);
        Transitive(env, t, before.table, e.table);
        Keeps(env, t, before.table);
        Keeps(env, t, e.table);
      }
    }
  }

  /** A password that no longer decrypts, because the key changed, is erased by an address refresh:
      the stored token survives in readable form exactly when it could be read. */
  lemma UnreadablePasswordIsErased(env: Env, t: Table, rawMac: string, id: string, address: string, now: string)
    requires env.Faithful() && UniqueMacs(t) && FindMac(t, env.lower(rawMac)) == Some(id) && id in t
    requires Upsert(env, t, env.stableId(env.lower(rawMac)), rawMac, NO_CHANGES.(lastIp := Some(address)), now).Ok?
    ensures var u := Upsert(env, t, env.stableId(env.lower(rawMac)), rawMac,
                            NO_CHANGES.(lastIp := Some(address)), now).value.0;
            id in u && (u[id].passwordEnc == None <==> env.Password(t[id].passwordEnc) == "")
  {
    RefreshAddress(env, t, rawMac, id, address, now);
  }

  // ----- the registry as its functions update it -----

  class CameraTable {
    var rows: Table

    method GetCamera(env: Env, mac: string) returns (id: Option<string>)
      requires env.Faithful() && UniqueMacs(rows)
      ensures id == FindMac(rows, env.lower(mac))
    {
      if mac == "" { return None; }
      var wanted := env.lower(mac);
      var ids := rows.Keys;
      while ids != {}
        invariant ids <= rows.Keys && forall k :: k in rows.Keys - ids ==> rows[k].mac != wanted
        decreases |ids|
      {
        var k :| k in ids;
        if rows[k].mac == wanted {
          FindMacUnique(rows, wanted, k);
          return Some(k);
        }
        ids := ids - {k};
      }
      id := None;
    }

    /** Whether the unique index refuses this MAC for this record. */
    method MacIsTaken(id: string, mac: string) returns (taken: bool)
      ensures taken == Taken(rows, id, mac)
    {
      if mac == "" { return false; }
      var ids := rows.Keys - {id};
      while ids != {}
        invariant ids <= rows.Keys - {id} && forall k :: k in rows.Keys - {id} - ids ==> rows[k].mac != mac
        decreases |ids|
      {
        var k :| k in ids;
        if rows[k].mac == mac { return true; }
        ids := ids - {k};
      }
      taken := false;
    }

    method UpsertCamera(env: Env, id: Option<string>, rawMac: string, ch: Changes, now: string)
      returns (r: Result<Camera, RegistryError>)
      requires env.Faithful() && UniqueMacs(rows)
      modifies this
      ensures match Upsert(env, old(rows), id, rawMac, ch, now)
              case Err(e) => r == Err(e) && rows == old(rows)
              case Ok((t, c)) => r == Ok(c) && rows == t
    {
      var mac := env.lower(rawMac);
      if id.None? || !SourcePolicy.ValidCameraId(id.value) { return Err(InvalidIdentity); }
      var found: Option<string>;
      if id.value in rows { found := id; } else { found := GetCamera(env, mac); }
      var c: Camera;
      if found.None? {
        c := NewCamera(id.value, mac, now);
      } else {
        c := env.View(found.value, rows[found.value]).(updatedAt := now);
        if mac != "" { c := c.(mac := mac); }
      }
      c := Merge(c, ch);
      var taken := MacIsTaken(c.cameraId, c.mac);
      if taken { return Err(MacTaken); }
      rows := rows[c.cameraId := env.Stored(c)];
      r := Ok(c);
    }

    method RekeyCamera(env: Env, oldMac: string, newMac: string, now: string) returns (moved: Option<string>)
      requires env.Faithful() && UniqueMacs(rows)
      modifies this
      ensures (rows, moved) == Rekey(env, old(rows), oldMac, newMac, now)
    {
      var found := GetCamera(env, oldMac);
      if env.lower(oldMac) == env.lower(newMac) { return found; }
      var occupied := GetCamera(env, newMac);
      if found.None? || occupied.Some? { return None; }
      rows := rows[found.value := rows[found.value].(mac := env.lower(newMac), updatedAt := now)];
      moved := found;
    }

    method Reconcile(env: Env, hosts: seq<Host>, callbackFails: nat -> bool, now: string)
      returns (configured: seq<Camera>, candidates: seq<Candidate>, error: Option<RegistryError>)
      requires env.Faithful() && UniqueMacs(rows)
      modifies this
      ensures Scan(rows, configured, candidates, error) == ReconcileAll(env, old(rows), hosts, callbackFails, now)
      ensures Preserved(env, old(rows), rows) && UniqueMacs(rows)
    {
      hide ReconcileHost, Preserved, UniqueMacs;
      configured, candidates, error := [], [], None;
      Reflexive(env, rows);
      for n := 0 to |hosts|
        invariant Scan(rows, configured, candidates, None)
              == ReconcileAll(env, old(rows), hosts[..n], callbackFails, now)
        invariant Preserved(env, old(rows), rows) && UniqueMacs(rows)
      {
        ScanPreserves(env, old(rows), hosts[..n + 1], callbackFails, now);
        Continues(env, old(rows), hosts, callbackFails, now, n);
        var one, new', failed := ReconcileOne(env, hosts[n], callbackFails(n), now);
        if one.Some? { configured := configured + [one.value]; }
        if new'.Some? { candidates := candidates + [new'.value]; }
        if failed.Some? {
          StopsHere(env, old(rows), hosts, callbackFails, now, n + 1);
          return configured, candidates, failed;
        }
      }
      assert hosts[..|hosts|] == hosts;
    }

    method ReconcileOne(env: Env, host: Host, callbackFails: bool, now: string)
      returns (configured: Option<Camera>, candidate: Option<Candidate>, error: Option<RegistryError>)
      requires env.Faithful() && UniqueMacs(rows)
      modifies this
      ensures Effect(rows, configured, candidate, error) == ReconcileHost(env, old(rows), host, callbackFails, now)
    {
      configured, candidate, error := None, None, None;
      if host.mac == "" { return; }
      var existing := GetCamera(env, host.mac);
      if existing.None? && host.arpMac != "" && host.arpMac != host.mac {
        RekeyPreserves(env, rows, host.arpMac, host.mac, now);
        existing := RekeyCamera(env, host.arpMac, host.mac, now);
        if existing.Some? && callbackFails { error := Some(CallbackFailed); return; }
      }
      if existing.Some? {
        var r := UpsertCamera(env, env.stableId(env.lower(host.mac)), host.mac,
                              NO_CHANGES.(lastIp := Some(host.address)), now);
        if r.Err? { error := Some(r.error); } else { configured := Some(r.value); }
      } else if host.hasRtsp {
        candidate := Some(Candidate(host.mac, host.address));
      }
    }
  }

  lemma Continues(env: Env, t: Table, hosts: seq<Host>, callbackFails: nat -> bool, now: string, n: nat)
    requires n < |hosts| && ReconcileAll(env, t, hosts[..n], callbackFails, now).error.None?
    ensures ReconcileAll(env, t, hosts[..n + 1], callbackFails, now)
         == Advance(env, ReconcileAll(env, t, hosts[..n], callbackFails, now), hosts[n], callbackFails(n), now)
  {
    assert hosts[..n + 1][..n] == hosts[..n];
  }

  /** What a scan reports, host by host and in order: unrecognised hosts with RTSP as candidates, recognised
      ones as refreshed cameras, until one stops it. */
  lemma ScanReports(env: Env, t: Table, hosts: seq<Host>, callbackFails: nat -> bool, now: string, n: nat)
    requires env.Faithful() && UniqueMacs(t) && n < |hosts|
    requires ReconcileAll(env, t, hosts[..n], callbackFails, now).error.None?
    ensures var before := ReconcileAll(env, t, hosts[..n], callbackFails, now);
            var after := ReconcileAll(env, t, hosts[..n + 1], callbackFails, now);
            var host, matched := hosts[n], Matched(env, before.table, hosts[n]);
            && after.candidates == before.candidates
               + (if host.mac != "" && matched.None? && host.hasRtsp then [Candidate(host.mac, host.address)] else [])
            && (if matched.None? || after.error.Some? then after.configured == before.configured
                else && |after.configured| == |before.configured| + 1 && before.configured <= after.configured
                     && matched.value in after.table
                     && after.configured[|before.configured|]
                        == env.View(matched.value, after.table[matched.value]))
  {
    hide ReconcileHost, Matched, Preserved, UniqueMacs, FindMac, Env.View;
    var before := ReconcileAll(env, t, hosts[..n], callbackFails, now);
    Continues(env, t, hosts, callbackFails, now, n);
    ScanPreserves(env, t, hosts[..n], callbackFails, now);
    HostOutcome(env, before.table, hosts[n], callbackFails(n), now);
    HostPreserves(env, before.table, hosts[n], callbackFails(n), now);
  }

  /** A scan that stopped is not affected by the hosts that remain. */
  lemma {:induction false} StopsHere(env: Env, t: Table, hosts: seq<Host>, callbackFails: nat -> bool,
                                      now: string, n: nat)
    requires n <= |hosts| && ReconcileAll(env, t, hosts[..n], callbackFails, now).error.Some?
    ensures ReconcileAll(env, t, hosts, callbackFails, now) == ReconcileAll(env, t, hosts[..n], callbackFails, now)
    decreases |hosts|
  {
    hide Advance;
    if n == |hosts| {
      assert hosts[..n] == hosts;
    } else {
      var m := |hosts| - 1;
      assert hosts[..m][..n] == hosts[..n];
      StopsHere(env, t, hosts[..m], callbackFails, now, n);
    }
  }
}
