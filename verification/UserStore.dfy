/** The identity store (backend/src/auth/user_store.rs): row decoding, the read-modify-write
    transaction, and the operations that run inside it. */
module UserStore {
  import opened Words
  import opened Wrappers

  datatype UserRecord = UserRecord(
    hash: Option<string>, admin: bool, home: Option<string>, ver: u64, disabled: bool, sharesEnabled: bool)

  type Users = map<string, UserRecord>

  // ---- Rows

  /** A JSON row. `JOther` is any value no accessor accepts: text that does not parse, an
      array, a number that is not an integer. */
  datatype Json =
    | JNull
    | JBool(b: bool)
    | JInt(n: int)
    | JString(s: string)
    | JObject(fields: map<string, Json>)
    | JOther

  function BoolField(fields: map<string, Json>, key: string, default: bool): bool {
    if key in fields && fields[key].JBool? then fields[key].b else default
  }

  function StringField(fields: map<string, Json>, key: string): Option<string> {
    if key in fields && fields[key].JString? then Some(fields[key].s) else None
  }

  function U64Field(fields: map<string, Json>, key: string): u64 {
    if key in fields && fields[key].JInt? && 0 <= fields[key].n <= U64_MAX then fields[key].n else 0
  }

  /** Reads a PBKDF2 hash object and renders it as the text stored since, if it is well formed. */
  type LegacyHash = Json -> Option<string>

  /** The hash of a row: absent, present, or malformed (`None`). */
  function DecodeHash(legacy: LegacyHash, row: Json): Option<Option<string>>
    requires row.JObject?
  {
    if "salt" in row.fields && "iterations" in row.fields then Lift(legacy(row))
    else if "hash" in row.fields then
      match row.fields["hash"]
      case JNull => Some(None)
      case JString(s) => Some(Some(s))
      case JObject(_) => Lift(legacy(row.fields["hash"]))
      case _ => None
    else Some(None)
  }

  function Lift(text: Option<string>): Option<Option<string>> {
    match text
    case None => None
    case Some(t) => Some(Some(t))
  }

  function Decode(legacy: LegacyHash, row: Json): Option<UserRecord> {
    if !row.JObject? then None
    else
      match DecodeHash(legacy, row)
      case None => None
      case Some(hash) =>
        Some(UserRecord(hash, BoolField(row.fields, "admin", false), StringField(row.fields, "home"),
                        U64Field(row.fields, "ver"), BoolField(row.fields, "disabled", false),
                        BoolField(row.fields, "shares_enabled", true)))
  }

  function EncodeText(text: Option<string>): Json {
    match text
    case None => JNull
    case Some(s) => JString(s)
  }

  function Encode(u: UserRecord): Json {
    JObject(map["hash" := EncodeText(u.hash), "admin" := JBool(u.admin), "home" := EncodeText(u.home),
                "ver" := JInt(u.ver), "disabled" := JBool(u.disabled), "shares_enabled" := JBool(u.sharesEnabled)])
  }

  /** Writing a record and reading it back is the identity, whatever the legacy reader does. */
  lemma DecodeEncode(legacy: LegacyHash, u: UserRecord)
    ensures Decode(legacy, Encode(u)) == Some(u)
  {
    var fields := Encode(u).fields;
    assert "salt" !in fields && "hash" in fields && fields["hash"] == EncodeText(u.hash);
    assert DecodeHash(legacy, Encode(u)) == Some(u.hash);
    assert fields["admin"] == JBool(u.admin) && fields["home"] == EncodeText(u.home);
    assert fields["ver"] == JInt(u.ver) && fields["disabled"] == JBool(u.disabled);
    assert fields["shares_enabled"] == JBool(u.sharesEnabled);
  }

  /** Re-encoding any readable row, legacy or not, keeps its meaning. */
  lemma ReencodingKeepsMeaning(legacy: LegacyHash, row: Json)
    requires Decode(legacy, row).Some?
    ensures Decode(legacy, Encode(Decode(legacy, row).value)) == Decode(legacy, row)
  {
    DecodeEncode(legacy, Decode(legacy, row).value);
  }

  /** A row that is not a flattened legacy one, so that its hash is read from its own field. */
  predicate Plain(fields: map<string, Json>) {
    !("salt" in fields && "iterations" in fields)
  }

  /** Absent fields read as their defaults: no rights, no home, version 0, enabled, sharing. */
  lemma HashOnlyRow(legacy: LegacyHash, hash: string)
    ensures Decode(legacy, JObject(map["hash" := JString(hash)]))
         == Some(UserRecord(Some(hash), false, None, 0, false, true))
    ensures Decode(legacy, JObject(map[])) == Some(UserRecord(None, false, None, 0, false, true))
  {
    var fields: map<string, Json> := map["hash" := JString(hash)];
    assert "salt" !in fields && "hash" in fields && fields["hash"] == JString(hash);
    assert "admin" !in fields && "home" !in fields && "ver" !in fields;
    assert "disabled" !in fields && "shares_enabled" !in fields;
  }

  function HashOf(legacy: LegacyHash, row: Json): Option<string>
    requires Decode(legacy, row).Some?
  {
    Decode(legacy, row).value.hash
  }

  /** Where the hash of a row comes from, and what makes a row unreadable: not an object, a hash that is
      neither null, text nor a readable legacy object, or a flattened legacy row that does not read. */
  lemma HashIsReadFrom(legacy: LegacyHash, fields: map<string, Json>, v: Json)
    ensures !v.JObject? ==> Decode(legacy, v).None?
    ensures !Plain(fields) ==>
      var row := JObject(fields);
      && (Decode(legacy, row).Some? <==> legacy(row).Some?)
      && (Decode(legacy, row).Some? ==> HashOf(legacy, row) == legacy(row))
    ensures Plain(fields) ==>
      var row := JObject(fields["hash" := v]);
      && (Decode(legacy, row).Some? <==> v.JNull? || v.JString? || (v.JObject? && legacy(v).Some?))
      && (Decode(legacy, row).Some? ==>
            HashOf(legacy, row) == if v.JNull? then None else if v.JString? then Some(v.s) else legacy(v))
    ensures Plain(fields) ==>
      var row := JObject(fields - {"hash"});
      Decode(legacy, row).Some? && HashOf(legacy, row) == None
  {
  }

  lemma FieldWritten(legacy: LegacyHash, fields: map<string, Json>, u: UserRecord, key: string, v: Json)
    requires Plain(fields) && Decode(legacy, JObject(fields)) == Some(u)
    requires key != "hash" && key != "salt" && key != "iterations"
    ensures Decode(legacy, JObject(fields[key := v])) ==
      Some(UserRecord(u.hash,
                      if key == "admin" then v == JBool(true) else u.admin,
                      if key == "home" then (if v.JString? then Some(v.s) else None) else u.home,
                      if key == "ver" then (if v.JInt? && 0 <= v.n <= U64_MAX then v.n else 0) else u.ver,
                      if key == "disabled" then v == JBool(true) else u.disabled,
                      if key == "shares_enabled" then v != JBool(false) else u.sharesEnabled))
  {
    HashUnmoved(legacy, fields, key, v);
  }

  /** Each field of a plain row decides its own attribute and no other, whatever is written in it. */
  lemma EachFieldIsItsAttribute(legacy: LegacyHash, fields: map<string, Json>, u: UserRecord, v: Json)
    requires Plain(fields) && Decode(legacy, JObject(fields)) == Some(u)
    ensures Decode(legacy, JObject(fields["admin" := v])) == Some(u.(admin := v == JBool(true)))
    ensures Decode(legacy, JObject(fields["disabled" := v])) == Some(u.(disabled := v == JBool(true)))
    ensures Decode(legacy, JObject(fields["shares_enabled" := v])) == Some(u.(sharesEnabled := v != JBool(false)))
    ensures Decode(legacy, JObject(fields["home" := v])) == Some(u.(home := if v.JString? then Some(v.s) else None))
    ensures Decode(legacy, JObject(fields["ver" := v]))
         == Some(u.(ver := if v.JInt? && 0 <= v.n <= U64_MAX then v.n else 0))
  {
    FieldWritten(legacy, fields, u, "admin", v);
    FieldWritten(legacy, fields, u, "disabled", v);
    FieldWritten(legacy, fields, u, "shares_enabled", v);
    FieldWritten(legacy, fields, u, "home", v);
    FieldWritten(legacy, fields, u, "ver", v);
  }

  lemma HashUnmoved(legacy: LegacyHash, fields: map<string, Json>, key: string, v: Json)
    requires Plain(fields) && key != "hash" && key != "salt" && key != "iterations"
    ensures DecodeHash(legacy, JObject(fields[key := v])) == DecodeHash(legacy, JObject(fields))
  {
  }

  /** The users of a table; one unreadable row fails the whole load. */
  function DecodeAll(legacy: LegacyHash, rows: map<string, Json>): Option<Users> {
    if forall id :: id in rows ==> Decode(legacy, rows[id]).Some?
    then Some(map id | id in rows :: Decode(legacy, rows[id]).value)
    else None
  }

  function EncodeAll(users: Users): map<string, Json> {
    map id | id in users :: Encode(users[id])
  }

  lemma DecodeEncodeAll(legacy: LegacyHash, users: Users)
    ensures DecodeAll(legacy, EncodeAll(users)) == Some(users)
  {
    var rows := EncodeAll(users);
    forall id | id in rows ensures Decode(legacy, rows[id]) == Some(users[id]) {
      DecodeEncode(legacy, users[id]);
    }
    assert DecodeAll(legacy, rows).value == users;
  }

  // ---- The read-modify-write transaction

  datatype Error = NotFound | Conflict | Io

  class UserTable {
    var rows: map<string, Json>

    method Load(legacy: LegacyHash) returns (r: Option<Users>)
      ensures r == DecodeAll(legacy, rows)
    {
      var decoded := map id | id in rows :: Decode(legacy, rows[id]);
      r := Collect(decoded);
      assert forall id :: id in rows ==> decoded[id] == Decode(legacy, rows[id]);
      if r.Some? {
        assert DecodeAll(legacy, rows).value == r.value;
      }
    }

    /** Decode, run `f`, write every record back, then remove the stale keys, and publish. An
        unreadable table or an error from `f` publishes nothing. */
    method Rmw<T>(legacy: LegacyHash, f: Users -> Result<(Users, T), Error>) returns (r: Result<T, Error>)
      modifies this
      ensures DecodeAll(legacy, old(rows)).None? ==> r == Err(Io) && rows == old(rows)
      ensures DecodeAll(legacy, old(rows)).Some? ==>
        match f(DecodeAll(legacy, old(rows)).value)
        case Err(e) => r == Err(e) && rows == old(rows)
        case Ok((users, t)) => r == Ok(t) && DecodeAll(legacy, rows) == Some(users)
    {
      var loaded := Load(legacy);
      if loaded.None? {
        return Err(Io);
      }
      var outcome := f(loaded.value);
      if outcome.Err? {
        return Err(outcome.error);
      }
      var (users, t) := outcome.value;
      rows := Rewrite(rows, EncodeAll(users));
      DecodeEncodeAll(legacy, users);
      r := Ok(t);
    }
  }

  /** One identity operation against a table: the stored users become `After`, and a refused
      operation or an unreadable table changes no row. */
  method Execute(table: UserTable, legacy: LegacyHash, op: Op) returns (r: Result<Reply, Error>)
    modifies table
    ensures DecodeAll(legacy, old(table.rows)).None? ==> r == Err(Io)
    ensures DecodeAll(legacy, old(table.rows)).Some? ==>
      var users := DecodeAll(legacy, old(table.rows)).value;
      && DecodeAll(legacy, table.rows) == Some(After(users, op))
      && r == match Apply(op, users) case Ok((_, reply)) => Ok(reply) case Err(e) => Err(e)
    ensures r.Err? ==> table.rows == old(table.rows)
  {
    r := table.Rmw(legacy, users => Apply(op, users));
  }

  /** Gather decoded rows one by one; the first unreadable one fails them all. */
  method Collect<V>(decoded: map<string, Option<V>>) returns (r: Option<map<string, V>>)
    ensures r.None? <==> exists k :: k in decoded && decoded[k].None?
    ensures r.Some? ==> r.value.Keys == decoded.Keys && forall k :: k in decoded ==> decoded[k] == Some(r.value[k])
  {
    var values: map<string, V> := map[];
    var todo := decoded.Keys;
    while todo != {}
      invariant todo <= decoded.Keys
      invariant forall k :: k in values <==> k in decoded && k !in todo
      invariant forall k :: k in values ==> decoded[k] == Some(values[k])
      decreases |todo|
    {
      var k :| k in todo;
      if decoded[k].None? {
        return None;
      }
      values := values[k := decoded[k].value];
      todo := todo - {k};
    }
    r := Some(values);
  }

  /** Insert every new row, then remove the keys that are no longer wanted. */
  method Rewrite<V>(rows: map<string, V>, wanted: map<string, V>) returns (table: map<string, V>)
    ensures table == wanted
  {
    table := InsertAll(rows, wanted);
    table := RemoveStale(table, wanted.Keys);
  }

  lemma InsertOne<V>(table: map<string, V>, rest: map<string, V>, k: string)
    requires k in rest
    ensures table[k := rest[k]] + (rest - {k}) == table + rest
  {
  }

  method InsertAll<V>(rows: map<string, V>, extra: map<string, V>) returns (table: map<string, V>)
    ensures table == rows + extra
  {
    table := rows;
    var rest := extra;
    while rest.Keys != {}
      invariant table + rest == rows + extra
      decreases rest.Keys
    {
      var k :| k in rest.Keys;
      InsertOne(table, rest, k);
      table := table[k := rest[k]];
      rest := rest - {k};
    }
    assert table + rest == table;
  }

  method RemoveStale<V>(rows: map<string, V>, keep: set<string>) returns (table: map<string, V>)
    ensures table == map k | k in rows && k in keep :: rows[k]
  {
    table := rows;
    var stale := rows.Keys - keep;
    while stale != {}
      invariant stale <= rows.Keys - keep
      invariant forall k :: k in table <==> k in rows && (k in keep || k in stale)
      invariant forall k :: k in table ==> table[k] == rows[k]
      decreases |stale|
    {
      var k :| k in stale;
      table := table - {k};
      stale := stale - {k};
    }
  }

  // ---- Operations

  datatype Op =
    | Provision(id: string, hash: string, admin: bool, home: Option<string>)
    | CreateUser(id: string, admin: bool)
    | Enrol(id: string, hash: string)
    | SetPassword(id: string, hash: string)
    | UpgradeHash(id: string, hash: string)
    | SetAdmin(id: string, admin: bool)
    | SetDisabled(id: string, disabled: bool)
    | SetSharing(id: string, enabled: bool)
    | BumpVer(id: string)
    | SetHome(id: string, home: Option<string>)
    | Delete(id: string, force: bool)

  datatype Reply = Done | Changed(effective: bool) | Version(ver: u64)

  type Outcome = Result<(Users, Reply), Error>

  /** `ver` counted up `n` times with 64-bit wrap-around. */
  function Bump(ver: u64, n: nat): u64 {
    (ver + n) % (U64_MAX + 1)
  }

  function NextVer(ver: u64): u64 {
    Bump(ver, 1)
  }

  function Admins(users: Users): set<string> {
    set id | id in users && users[id].admin
  }

  function EnabledAdmins(users: Users): set<string> {
    set id | id in users && users[id].admin && !users[id].disabled
  }

  function Insert(users: Users, id: string, u: UserRecord): Outcome {
    if id in users then Err(Conflict) else Ok((users[id := u], Done))
  }

  function Apply(op: Op, users: Users): Outcome {
    match op
    case Provision(id, hash, admin, home) => Insert(users, id, UserRecord(Some(hash), admin, home, 0, false, true))
    case CreateUser(id, admin) => Insert(users, id, UserRecord(None, admin, None, 0, false, true))
    case Enrol(id, hash) => Insert(users, id, UserRecord(Some(hash), false, None, 0, false, true))
    case SetPassword(id, hash) =>
      if id in users then Ok((users[id := users[id].(hash := Some(hash), ver := NextVer(users[id].ver))], Done))
      else Ok((users[id := UserRecord(Some(hash), false, None, 1, false, true)], Done))
    case UpgradeHash(id, hash) =>
      Ok((if id in users then users[id := users[id].(hash := Some(hash))] else users, Done))
    case Delete(id, force) =>
      if id !in users then Ok((users, Changed(false)))
      else if users[id].admin && !force && |Admins(users)| <= 1 then Err(Conflict)
      else Ok((users - {id}, Changed(true)))
    case _ => if op.id in users then ApplyExisting(op, users, users[op.id]) else Err(NotFound)
  }

  /** The operations that refuse an unknown id and report whether they changed anything. */
  function ApplyExisting(op: Op, users: Users, u: UserRecord): Outcome
    requires op.id in users && users[op.id] == u
    requires op.SetAdmin? || op.SetDisabled? || op.SetSharing? || op.BumpVer? || op.SetHome?
  {
    match op
    case SetAdmin(id, admin) =>
      if u.admin == admin then Ok((users, Changed(false)))
      else if !admin && |Admins(users)| <= 1 then Err(Conflict)
      else Ok((users[id := u.(admin := admin, ver := NextVer(u.ver))], Changed(true)))
    case SetDisabled(id, disabled) =>
      if u.disabled == disabled then Ok((users, Changed(false)))
      else if disabled && u.admin && |EnabledAdmins(users)| <= 1 then Err(Conflict)
      else Ok((users[id := u.(disabled := disabled, ver := if disabled then NextVer(u.ver) else u.ver)], Changed(true)))
    case SetSharing(id, enabled) =>
      if u.sharesEnabled == enabled then Ok((users, Changed(false)))
      else Ok((users[id := u.(sharesEnabled := enabled)], Changed(true)))
    case BumpVer(id) => Ok((users[id := u.(ver := NextVer(u.ver))], Version(NextVer(u.ver))))
    case SetHome(id, home) =>
      if u.home == home then Ok((users, Changed(false)))
      else Ok((users[id := u.(home := home)], Changed(true)))
  }

  /** A refused operation leaves the users as they were. */
  function After(users: Users, op: Op): Users {
    match Apply(op, users)
    case Ok((users', _)) => users'
    case Err(_) => users
  }

  function Run(users: Users, ops: seq<Op>): Users {
    if ops == [] then users else After(Run(users, ops[..|ops| - 1]), ops[|ops| - 1])
  }

  // ---- An admin always remains

  lemma TwoHaveAnother(s: set<string>, id: string)
    requires |s| > 1
    ensures exists other :: other in s && other != id
  {
    if s <= {id} {
      SubsetOfSingleton(s, id);
    }
  }

  lemma SubsetOfSingleton(s: set<string>, id: string)
    requires s <= {id}
    ensures |s| <= 1
  {
    if id in s {
      assert s == {id};
    } else {
      assert s == {};
    }
  }

  lemma StepKeepsAdmin(users: Users, op: Op)
    requires Admins(users) != {} && !(op.Delete? && op.force)
    ensures Admins(After(users, op)) != {}
  {
    var users' := After(users, op);
    if (op.Delete? || op.SetAdmin?) && |Admins(users)| > 1 {
      TwoHaveAnother(Admins(users), op.id);
      var other :| other in Admins(users) && other != op.id;
      assert other in Admins(users');
    } else {
      var id :| id in Admins(users);
      assert id in Admins(users');
    }
  }

  /** No run without a forced delete loses its last admin. */
  lemma {:induction false} AdminAlwaysRemains(users: Users, ops: seq<Op>)
    requires Admins(users) != {}
    requires forall op :: op in ops ==> !(op.Delete? && op.force)
    ensures Admins(Run(users, ops)) != {}
  {
    if ops != [] {
      AdminAlwaysRemains(users, ops[..|ops| - 1]);
      StepKeepsAdmin(Run(users, ops[..|ops| - 1]), ops[|ops| - 1]);
    }
  }

  /** The same is not true of enabled admins, because demotion and deletion count disabled admins
      too: a step loses the last enabled admin if and only if it demotes or deletes that one
      while a disabled admin (or force) lets the guard pass. */
  lemma LosesLastEnabledAdminIff(users: Users, op: Op)
    requires EnabledAdmins(users) != {}
    ensures EnabledAdmins(After(users, op)) == {} <==>
      && EnabledAdmins(users) == {op.id}
      && ((op.SetAdmin? && !op.admin && |Admins(users)| > 1) || (op.Delete? && (op.force || |Admins(users)| > 1)))
  {
    var users' := After(users, op);
    if EnabledAdmins(users) == {op.id} {
      assert op.id in EnabledAdmins(users);
      if op.SetDisabled? {
        assert |EnabledAdmins(users)| == 1 && !users[op.id].disabled;
        assert users' == users;
      } else if op.SetAdmin? && !op.admin && |Admins(users)| > 1 {
        assert forall id :: id in EnabledAdmins(users') ==> id in EnabledAdmins(users);
      } else if op.Delete? && (op.force || |Admins(users)| > 1) {
        assert forall id :: id in EnabledAdmins(users') ==> id in EnabledAdmins(users);
      } else {
        assert op.id in EnabledAdmins(users');
      }
    } else {
      var other :| other in EnabledAdmins(users) && other != op.id;
      assert other in EnabledAdmins(users');
    }
  }

  lemma TwoAdmins(users: Users, a: string, b: string)
    requires a != b && users.Keys == {a, b} && users[a].admin && users[b].admin
    ensures |Admins(users)| == 2 && (!users[a].disabled && !users[b].disabled ==> |EnabledAdmins(users)| == 2)
  {
    assert Admins(users) == {a, b};
    assert !users[a].disabled && !users[b].disabled ==> EnabledAdmins(users) == {a, b};
  }

  lemma RunOfFour(users: Users, w: Op, x: Op, y: Op, z: Op)
    ensures Run(users, [w, x, y]) == After(After(After(users, w), x), y)
    ensures Run(users, [w, x, y, z]) == After(After(After(After(users, w), x), y), z)
  {
    assert [w, x, y, z][..3] == [w, x, y] && [w, x, y][..2] == [w, x] && [w, x][..1] == [w] && [w][..0] == [];
    assert Run(users, [w]) == After(users, w) && Run(users, [w, x]) == After(After(users, w), x);
  }

  /** And it happens: of two admins one is disabled, then the other, now the only enabled one, is
      demoted, and nobody can administer any more. */
  lemma LastEnabledAdminCanGo(a: string, b: string, hash: string)
    requires a != b
    ensures var first, second := Provision(a, hash, true, None), Provision(b, hash, true, None);
      && EnabledAdmins(Run(map[], [first, second, SetDisabled(b, true)])) == {a}
      && EnabledAdmins(Run(map[], [first, second, SetDisabled(b, true), SetAdmin(a, false)])) == {}
  {
    var u := UserRecord(Some(hash), true, None, 0, false, true);
    RunOfFour(map[], Provision(a, hash, true, None), Provision(b, hash, true, None),
              SetDisabled(b, true), SetAdmin(a, false));
    var both := map[a := u][b := u];
    assert After(map[], Provision(a, hash, true, None)) == map[a := u];
    assert After(map[a := u], Provision(b, hash, true, None)) == both;
    assert EnabledAdmins(both) == {a, b};
    DisableThenDemote(both, a, b);
  }

  lemma DisableThenDemote(users: Users, a: string, b: string)
    requires a != b && users.Keys == {a, b} && EnabledAdmins(users) == {a, b}
    ensures EnabledAdmins(After(users, SetDisabled(b, true))) == {a}
    ensures EnabledAdmins(After(After(users, SetDisabled(b, true)), SetAdmin(a, false))) == {}
  {
    assert b in EnabledAdmins(users) && a in EnabledAdmins(users);
    TwoAdmins(users, a, b);
    var one := After(users, SetDisabled(b, true));
    assert one == users[b := users[b].(disabled := true, ver := NextVer(users[b].ver))];
    TwoAdmins(one, a, b);
    LosesLastEnabledAdminIff(one, SetAdmin(a, false));
  }

  /** The guards refuse exactly the demotion or unforced deletion of the only admin and the
      disabling of the only enabled admin. */
  lemma GuardsRefuseExactlyTheLast(users: Users, op: Op)
    requires op.id in users && (op.SetAdmin? || op.SetDisabled? || op.Delete?)
    ensures Apply(op, users).Err? <==>
      || (op.SetAdmin? && !op.admin && Admins(users) == {op.id})
      || (op.Delete? && !op.force && Admins(users) == {op.id})
      || (op.SetDisabled? && op.disabled && EnabledAdmins(users) == {op.id})
  {
    AtMostOneIff(Admins(users), op.id);
    AtMostOneIff(EnabledAdmins(users), op.id);
    assert op.id in Admins(users) <==> users[op.id].admin;
    assert op.id in EnabledAdmins(users) <==> users[op.id].admin && !users[op.id].disabled;
  }

  lemma AtMostOneIff(s: set<string>, id: string)
    ensures id in s ==> (|s| <= 1 <==> s == {id})
  {
    if |s| > 1 {
      TwoHaveAnother(s, id);
    } else if id in s {
      assert |s - {id}| == |s| - 1;
    }
  }

  /** Each attribute of a living account is written only by its own operations, and only for the
      account they name. */
  lemma EachAttributeHasItsWriter(users: Users, op: Op, id: string)
    requires id in users && id in After(users, op)
    ensures var u, v, hit := users[id], After(users, op)[id], op.id == id && Apply(op, users).Ok?;
      && v.hash == (if hit && (op.SetPassword? || op.UpgradeHash?) then Some(op.hash) else u.hash)
      && v.admin == (if hit && op.SetAdmin? then op.admin else u.admin)
      && v.disabled == (if hit && op.SetDisabled? then op.disabled else u.disabled)
      && v.home == (if hit && op.SetHome? then op.home else u.home)
      && v.sharesEnabled == (if hit && op.SetSharing? then op.enabled else u.sharesEnabled)
  {
  }

  // ---- What operations make, remove and answer

  /** The operations that make an account where there is none. */
  predicate Creates(op: Op) {
    op.Provision? || op.CreateUser? || op.Enrol? || op.SetPassword?
  }

  /** An account comes into being exactly by a creating operation naming its id, and is then what the
      caller asked for: only provisioning and creating may grant rights, only provisioning a home. */
  lemma NewAccountIsAsAsked(users: Users, op: Op, id: string)
    requires id !in users
    ensures id in After(users, op) <==> op.id == id && Creates(op)
    ensures id in After(users, op) ==>
      var u := After(users, op)[id];
      && u.hash == (if op.CreateUser? then None else Some(op.hash))
      && u.admin == ((op.Provision? || op.CreateUser?) && op.admin)
      && u.home == (if op.Provision? then op.home else None)
      && u.ver == (if op.SetPassword? then 1 else 0)
      && !u.disabled && u.sharesEnabled
  {
  }

  /** An account goes exactly by an accepted delete naming its id; no operation touches another id. */
  lemma OnlyTheNamedAccount(users: Users, op: Op, id: string)
    ensures id in users ==> (id !in After(users, op) <==> op.Delete? && op.id == id && Apply(op, users).Ok?)
    ensures id != op.id ==> Lookup(After(users, op), id) == Lookup(users, id)
  {
  }

  /** The operations that ask for an account and never make one. */
  predicate NeedsAccount(op: Op) {
    op.SetAdmin? || op.SetDisabled? || op.SetSharing? || op.BumpVer? || op.SetHome?
  }

  /** The operation would take away the only admin, or the only enabled one. */
  predicate TakesTheLast(users: Users, op: Op) {
    || (op.SetAdmin? && !op.admin && Admins(users) == {op.id})
    || (op.Delete? && !op.force && Admins(users) == {op.id})
    || (op.SetDisabled? && op.disabled && EnabledAdmins(users) == {op.id})
  }

  /** Why an operation is refused: the id is unknown, or taken, or the last admin would go. */
  lemma RefusedExactlyWhen(users: Users, op: Op)
    ensures Apply(op, users) == Err(NotFound) <==> NeedsAccount(op) && op.id !in users
    ensures Apply(op, users) == Err(Conflict) <==>
      op.id in users && (op.Provision? || op.CreateUser? || op.Enrol? || TakesTheLast(users, op))
    ensures Apply(op, users) != Err(Io)
  {
    if op.id in users && (op.SetAdmin? || op.SetDisabled? || op.Delete?) {
      GuardsRefuseExactlyTheLast(users, op);
    }
  }

  /** An accepted operation answers truly: a flag says whether the stored users changed at all, and a
      version is the one now stored. */
  lemma RepliesAreTrue(users: Users, op: Op)
    requires Apply(op, users).Ok?
    ensures var reply := Apply(op, users).value.1;
      && (reply.Changed? <==> (NeedsAccount(op) && !op.BumpVer?) || op.Delete?)
      && (reply.Version? <==> op.BumpVer?)
      && (reply.Changed? ==> (reply.effective <==> After(users, op) != users))
      && (reply.Version? ==> op.id in After(users, op) && After(users, op)[op.id].ver == reply.ver)
  {
    var after := After(users, op);
    if op.Delete? && op.id in users {
      assert op.id !in after;
    } else if NeedsAccount(op) {
      assert op.id in after;
      if after[op.id] == users[op.id] {
        assert after == users;
      }
    }
  }

  // ---- Token versions

  /** The operation ended every session of `id`, judged by what its caller saw. */
  predicate Invalidates(op: Op, reply: Result<(Users, Reply), Error>, id: string) {
    && op.id == id && reply.Ok?
    && (op.SetPassword? || op.BumpVer?
        || (op.SetAdmin? && reply.value.1 == Changed(true))
        || (op.SetDisabled? && op.disabled && reply.value.1 == Changed(true)))
  }

  function Invalidations(users: Users, ops: seq<Op>, id: string): nat {
    if ops == [] then 0
    else
      var n := |ops| - 1;
      Invalidations(users, ops[..n], id)
      + (if Invalidates(ops[n], Apply(ops[n], Run(users, ops[..n])), id) then 1 else 0)
  }

  /** `id` exists at every point of the run. */
  predicate Lives(users: Users, ops: seq<Op>, id: string) {
    id in Run(users, ops) && (ops != [] ==> Lives(users, ops[..|ops| - 1], id))
  }

  lemma StepVersion(users: Users, op: Op, id: string)
    requires id in users && id in After(users, op)
    ensures After(users, op)[id].ver ==
      if Invalidates(op, Apply(op, users), id) then NextVer(users[id].ver) else users[id].ver
  {
  }

  /** An id that is never deleted is in one life throughout. */
  lemma {:induction false} OneLife(users: Users, ops: seq<Op>, id: string)
    requires Lives(users, ops, id)
    ensures id in users && LifeOf(users, ops, id) == Life(users[id].ver, Invalidations(users, ops, id))
  {
    if ops != [] {
      OneLife(users, ops[..|ops| - 1], id);
    }
  }

  /** While an id lives, its version is the starting one plus the number of invalidating
      operations, modulo 2^64: nothing else moves it. */
  lemma VersionCountsInvalidations(users: Users, ops: seq<Op>, id: string)
    requires Lives(users, ops, id)
    ensures id in users
    ensures Run(users, ops)[id].ver == Bump(users[id].ver, Invalidations(users, ops, id))
  {
    OneLife(users, ops, id);
    VersionCountsThisLife(users, ops, id);
  }

  lemma ModAddOne(x: nat, m: nat)
    requires m > 1
    ensures (x % m + 1) % m == (x + 1) % m
  {
    var q := x / m;
    assert x == q * m + x % m;
    if x % m + 1 < m {
      DivModUnique(x + 1, m, q, x % m + 1);
    } else {
      assert x + 1 == (q + 1) * m;
      DivModUnique(x + 1, m, q + 1, 0);
    }
  }

  lemma DivModUnique(x: nat, m: nat, q: nat, r: nat)
    requires m > 0 && r < m && x == q * m + r
    ensures x % m == r
  {
    var d := x / m - q;
    assert x == (x / m) * m + x % m;
    assert d * m == r - x % m;
    NoSmallMultiple(d, m, r - x % m);
  }

  lemma NoSmallMultiple(d: int, m: int, r: int)
    requires d * m == r && -m < r < m
    ensures r == 0
  {
  }

  // ---- Ids that are deleted and made again

  /** The version a new account starts at. */
  function BirthVersion(op: Op): u64 {
    if op.SetPassword? then 1 else 0
  }

  /** The life an id is in: the version it began with, and the invalidations since. */
  datatype Life = Life(birth: u64, bumps: nat)

  function Current(life: Life): u64 {
    Bump(life.birth, life.bumps)
  }

  function LifeOf(users: Users, ops: seq<Op>, id: string): Life
    requires id in Run(users, ops)
  {
    if ops == [] then Life(users[id].ver, 0)
    else
      var n := |ops| - 1;
      var before := Run(users, ops[..n]);
      if id !in before then Life(BirthVersion(ops[n]), 0)
      else if Invalidates(ops[n], Apply(ops[n], before), id) then Bumped(LifeOf(users, ops[..n], id))
      else LifeOf(users, ops[..n], id)
  }

  function Bumped(life: Life): Life {
    Life(life.birth, life.bumps + 1)
  }

  lemma CurrentBumped(life: Life)
    ensures Current(Bumped(life)) == NextVer(Current(life))
  {
    ModAddOne(life.birth + life.bumps, U64_MAX + 1);
  }

  lemma BornAtBirthVersion(users: Users, op: Op, id: string)
    requires id !in users && id in After(users, op)
    ensures After(users, op)[id].ver == BirthVersion(op) == Current(Life(BirthVersion(op), 0))
  {
  }

  /** Over every run, deletions included, the version of an id is the one its present life began with
      plus the invalidations since, modulo 2^64. */
  lemma {:induction false} VersionCountsThisLife(users: Users, ops: seq<Op>, id: string)
    requires id in Run(users, ops)
    ensures Run(users, ops)[id].ver == Current(LifeOf(users, ops, id))
  {
    if ops != [] {
      var n := |ops| - 1;
      var before := Run(users, ops[..n]);
      if id in before {
        VersionCountsThisLife(users, ops[..n], id);
        StepVersion(before, ops[n], id);
        CurrentBumped(LifeOf(users, ops[..n], id));
      } else {
        BornAtBirthVersion(before, ops[n], id);
      }
    }
  }

  lemma SumHitsIff(v: nat, k: nat, ver: nat, m: nat)
    requires v < m && k < m && ver < m
    ensures (v + k) % m == ver <==> k == ver - v || k == ver - v + m
  {
    if v + k >= m {
      DivModUnique(v + k, m, 1, v + k - m);
    } else {
      DivModUnique(v + k, m, 0, v + k);
    }
  }

  /** The invalidations that lead from the version a life began with to `ver`, below a full wrap. */
  predicate LeadsTo(life: Life, ver: u64) {
    life.bumps == ver - life.birth || life.bumps == ver - life.birth + U64_MAX + 1
  }

  lemma CurrentIffLeadsTo(life: Life, ver: u64)
    requires life.bumps <= U64_MAX
    ensures Current(life) == ver <==> LeadsTo(life, ver)
  {
    SumHitsIff(life.birth, life.bumps, ver, U64_MAX + 1);
  }

  /** Over every run, deletions included: a token of any version matches an existing id if and only if
      the id's present life has seen exactly the invalidations that lead from the version it began with
      to the token's. In the life the token was minted in there must be none since; in a new life
      there must be as many as the version says, one fewer if setting a password made the account. */
  lemma TokenMatchesIff(users: Users, ops: seq<Op>, id: string, ver: u64)
    requires id in Run(users, ops) && LifeOf(users, ops, id).bumps <= U64_MAX
    ensures Run(users, ops)[id].ver == ver <==> LeadsTo(LifeOf(users, ops, id), ver)
  {
    VersionCountsThisLife(users, ops, id);
    CurrentIffLeadsTo(LifeOf(users, ops, id), ver);
  }

  /** While its account lives, a token survives a run of fewer than 2^64 invalidations exactly when
      there were none. */
  lemma TokenSurvivesIffNothingInvalidates(users: Users, ops: seq<Op>, id: string)
    requires Lives(users, ops, id) && Invalidations(users, ops, id) <= U64_MAX
    ensures id in users
    ensures Run(users, ops)[id].ver == users[id].ver <==> Invalidations(users, ops, id) == 0
  {
    OneLife(users, ops, id);
    TokenMatchesIff(users, ops, id, users[id].ver);
  }

  /** So it happens: a token minted at version 0 for an account that is then deleted matches the next
      account made under the same id. */
  lemma OldTokenMatchesNewAccount(users: Users, id: string, hash: string, admin: bool, home: Option<string>)
    requires id in users && users[id].ver == 0
    ensures var ops := [Delete(id, true), Provision(id, hash, admin, home)];
      id !in Run(users, ops[..1]) && id in Run(users, ops) && Run(users, ops)[id].ver == users[id].ver
  {
    var ops := [Delete(id, true), Provision(id, hash, admin, home)];
    assert ops[..1][..0] == [] && ops[..|ops| - 1] == ops[..1];
    assert Run(users, ops[..1]) == users - {id};
  }
}
