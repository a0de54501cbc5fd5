/** Revocable delegated keys: issue, revocation, validity and login. Times are exact. */
module AccessKeys {
  import opened Outcomes

  datatype KeyRow = KeyRow(title: string, verifier: string, createdAt: real, expiresAt: Option<real>,
                           revokedAt: Option<real>, permissions: seq<string>)

  type Table = map<string, KeyRow>

  datatype Status = Active | Expired | Revoked

  datatype KeyError = InvalidExpiration | ConstraintViolated

  predicate IsLowerHex(c: char) { '0' <= c <= '9' || 'a' <= c <= 'f' }

  predicate IsUrlSafe(c: char)
  {
    '0' <= c <= '9' || 'a' <= c <= 'z' || 'A' <= c <= 'Z' || c == '_' || c == '-'
  }

  predicate ValidKeyId(id: string) { |id| == 32 && forall i :: 0 <= i < 32 ==> IsLowerHex(id[i]) }

  const PREFIX := "ccg_tmp_"

  /** The shape of a credential: the prefix, the public key id, a dot and 43 random characters. */
  predicate IsCredential(secret: string)
  {
    && |secret| == 84 && secret[..8] == PREFIX && ValidKeyId(secret[8..40]) && secret[40] == '.'
    && forall i :: 41 <= i < 84 ==> IsUrlSafe(secret[i])
  }

  /** The alphabet of the random part is that of URL-safe base64, and ids are lower-case hexadecimal. */
  lemma Alphabets(c: char)
    ensures IsUrlSafe(c) <==> c in "ABCDEFGHIJKLMNOPQRSTUVWXYZ" || c in "abcdefghijklmnopqrstuvwxyz"
                              || c in "0123456789" || c in "-_"
    ensures IsLowerHex(c) <==> c in "0123456789" || c in "abcdef"
  {
    Stretch("ABCDEFGHIJKLMNOPQRSTUVWXYZ", 'A', c);
    Stretch("abcdefghijklmnopqrstuvwxyz", 'a', c);
    Stretch("0123456789", '0', c);
    Stretch("abcdef", 'a', c);
  }

  /** Consecutive characters are a range. */
  lemma Stretch(s: string, first: char, c: char)
    requires |s| < 100 && first < 'z' && forall i :: 0 <= i < |s| ==> s[i] as int == first as int + i
    ensures c in s <==> first as int <= c as int < first as int + |s|
  {
    if first as int <= c as int < first as int + |s| { assert s[c as int - first as int] == c; }
  }

  /** What create() prints is a credential, and names its key. */
  lemma PrintedCredential(id: string, random: string)
    requires ValidKeyId(id) && |random| == 43 && forall i :: 0 <= i < 43 ==> IsUrlSafe(random[i])
    ensures var secret := "ccg_tmp_" + id + "." + random;
            IsCredential(secret) && secret[8..40] == id
  {
    var secret := "ccg_tmp_" + id + "." + random;
    assert secret[..8] == "ccg_tmp_" && secret[8..40] == id;
    assert forall i :: 41 <= i < 84 ==> secret[i] == random[i - 41];
  }

  function StatusOf(row: KeyRow, now: real): Status
  {
    if row.revokedAt.Some? then Revoked
    else if row.expiresAt.Some? && row.expiresAt.value <= now then Expired
    else Active
  }

  /** The row that create() stores, unless the expiry is past or the row breaks a constraint. */
  function Issue(t: Table, id: string, title: string, verifier: string, now: real, expiry: Option<real>,
                 permissions: seq<string>): Result<Table, KeyError>
  {
    if expiry.Some? && expiry.value <= now then Err(InvalidExpiration)
    else if id in t then Err(ConstraintViolated)
    else Ok(t[id := KeyRow(title, verifier, now, expiry, None, permissions)])
  }

  function Revoke(t: Table, id: string, now: real): Table
  {
    if !ValidKeyId(id) || id !in t then t
    else t[id := t[id].(revokedAt := if t[id].revokedAt.Some? then t[id].revokedAt else Some(now))]
  }

  function ActiveKey(t: Table, id: string, now: real): Option<KeyRow>
  {
    if ValidKeyId(id) && id in t && StatusOf(t[id], now) == Active then Some(t[id]) else None
  }

  /** A login: the verifier is compared against the table as first read, validity is read again
      afterwards, when other operations may have committed in between. */
  function Authenticate(first: Table, second: Table, secret: string, digest: string -> string, now: real)
    : Option<KeyRow>
  {
    if !IsCredential(secret) then None
    else if secret[8..40] !in first || first[secret[8..40]].verifier != digest(secret) then None
    else ActiveKey(second, secret[8..40], now)
  }

  class Repository {
    var keys: Table

    method Insert(id: string, title: string, verifier: string, now: real, expiry: Option<real>,
                  permissions: seq<string>)
      returns (r: Result<(), KeyError>)
      modifies this
      ensures match Issue(old(keys), id, title, verifier, now, expiry, permissions)
              case Err(e) => r == Err(e) && keys == old(keys)
              case Ok(t) => r.Ok? && keys == t
    {
      if expiry.Some? && expiry.value <= now { return Err(InvalidExpiration); }
      if id in keys { return Err(ConstraintViolated); }
      keys := keys[id := KeyRow(title, verifier, now, expiry, None, permissions)];
      r := Ok(());
    }

    method RevokeKey(id: string, now: real) returns (status: Option<Status>)
      modifies this
      ensures keys == Revoke(old(keys), id, now)
      ensures status == if ValidKeyId(id) && id in old(keys) then Some(Revoked) else None
    {
      if !ValidKeyId(id) || id !in keys { return None; }
      var row := keys[id];
      if row.revokedAt.None? { keys := keys[id := row.(revokedAt := Some(now))]; }
      status := Some(StatusOf(keys[id], now));
    }
  }

  // ----- runs -----

  datatype Op =
    | IssueOp(id: string, title: string, verifier: string, at: real, expiry: Option<real>, permissions: seq<string>)
    | RevokeOp(id: string, at: real)

  function Apply(t: Table, op: Op): Table
  {
    match op
    case RevokeOp(id, at) => Revoke(t, id, at)
    case IssueOp(id, title, verifier, at, expiry, permissions) =>
      var r := Issue(t, id, title, verifier, at, expiry, permissions);
      if r.Ok? then r.value else t
  }

  function Run(t: Table, ops: seq<Op>): Table
    decreases |ops|
  {
    if ops == [] then t else Run(Apply(t, ops[0]), ops[1..])
  }

  /** When a key is first revoked by a run. */
  function FirstRevocation(ops: seq<Op>, id: string): Option<real>
  {
    if ops == [] then None
    else if ops[0].RevokeOp? && ops[0].id == id then Some(ops[0].at)
    else FirstRevocation(ops[1..], id)
  }

  /** All that a run can do to an existing key is stamp its first revocation time. */
  lemma {:induction false} OnlyFirstRevocationCounts(t: Table, ops: seq<Op>, id: string)
    requires id in t && ValidKeyId(id)
    ensures id in Run(t, ops)
    ensures Run(t, ops)[id]
         == t[id].(revokedAt := if t[id].revokedAt.Some? then t[id].revokedAt else FirstRevocation(ops, id))
    decreases |ops|
  {
    if ops != [] { OnlyFirstRevocationCounts(Apply(t, ops[0]), ops[1..], id); }
  }

  /** A revoked or expired key never becomes active again, whatever happens to the table, as long
      as the clock does not go back. */
  lemma NeverActiveAgain(t: Table, ops: seq<Op>, id: string, now: real, later: real)
    requires id in t && StatusOf(t[id], now) != Active && now <= later
    ensures ActiveKey(Run(t, ops), id, later).None?
    ensures ValidKeyId(id) && t[id].revokedAt.Some? ==>
              id in Run(t, ops) && Run(t, ops)[id].revokedAt == t[id].revokedAt
  {
    if ValidKeyId(id) { OnlyFirstRevocationCounts(t, ops, id); }
  }

  /** The credential printed for a new key logs in exactly until its expiry or revocation, even if
      the revocation commits between the two reads of the login. */
  lemma IssuedKeyAuthenticates(t: Table, secret: string, digest: string -> string, title: string, at: real,
                               expiry: Option<real>, permissions: seq<string>, before: seq<Op>,
                               between: seq<Op>, now: real)
    requires IsCredential(secret)
    requires Issue(t, secret[8..40], title, digest(secret), at, expiry, permissions).Ok?
    ensures var issued := Issue(t, secret[8..40], title, digest(secret), at, expiry, permissions).value;
            var first := Run(issued, before);
            var id := secret[8..40];
            Authenticate(first, Run(first, between), secret, digest, now)
            == if FirstRevocation(before, id).None? && FirstRevocation(between, id).None?
                  && (expiry.Some? ==> now < expiry.value)
               then Some(KeyRow(title, digest(secret), at, expiry, None, permissions)) else None
  {
    var issued := Issue(t, secret[8..40], title, digest(secret), at, expiry, permissions).value;
    OnlyFirstRevocationCounts(issued, before, secret[8..40]);
    OnlyFirstRevocationCounts(Run(issued, before), between, secret[8..40]);
  }

  /** A key is issued exactly when its expiry, if any, is in the future and its id is new; it is stored
      unrevoked with what it was issued for, and no other key changes. */
  lemma IssueExactly(t: Table, id: string, title: string, verifier: string, now: real, expiry: Option<real>,
                     permissions: seq<string>)
    ensures var r := Issue(t, id, title, verifier, now, expiry, permissions);
            && (r == Err(InvalidExpiration) <==> expiry.Some? && expiry.value <= now)
            && (r.Ok? <==> (expiry.None? || expiry.value > now) && id !in t)
            && (r.Ok? ==>
                  && r.value.Keys == t.Keys + {id}
                  && r.value[id] == KeyRow(title, verifier, now, expiry, None, permissions)
                  && forall other :: other in t ==> r.value[other] == t[other])
  {
  }

  /** A login succeeds only with a text whose digest is the stored verifier of its own key, and
      only for a key that is active at the second read. */
  lemma LoginRequiresSecret(first: Table, between: seq<Op>, secret: string, digest: string -> string, now: real)
    requires Authenticate(first, Run(first, between), secret, digest, now).Some?
    ensures |secret| == 84 && secret[..8] == "ccg_tmp_" && secret[40] == '.'
    ensures var id := secret[8..40];
            && id in first && first[id].verifier == digest(secret)
            && Authenticate(first, Run(first, between), secret, digest, now) == Some(first[id])
            && first[id].revokedAt.None? && (first[id].expiresAt.Some? ==> now < first[id].expiresAt.value)
            && FirstRevocation(between, id).None?
  {
    OnlyFirstRevocationCounts(first, between, secret[8..40]);
  }
}
