/**
 * The `formularios` table: one row per whitelist application, keyed by an
 * AUTOINCREMENT `id`, with `discord_id` UNIQUE, `status` defaulting to
 * 'pendente', `motivo_reprova` defaulting to '' and both timestamps
 * defaulting to CURRENT_TIMESTAMP (a trigger refreshes `updated_at` on
 * every UPDATE).
 *
 * The SQL statements the handlers issue are the methods of `Table`; each is
 * specified by a pure function on the table's value `Db`, and those
 * functions state which rows and which columns a statement may touch.
 * CURRENT_TIMESTAMP is the `now` argument of every writing statement.
 */
module Formularios {
  import opened Wrappers

  const MinAge := 13
  const MaxAge := 99
  const MinExperience := 100
  const MaxExperience := 5000
  /** The shortest rejection reason any path accepts. */
  const MinReason := 5

  datatype Status = Pendente | Aprovado | Reprovado

  /** The text stored in the `status` column. */
  function StatusText(s: Status): string {
    match s
    case Pendente => "pendente"
    case Aprovado => "aprovado"
    case Reprovado => "reprovado"
  }

  /** The three fields an applicant fills in. */
  datatype Content = Content(roblox: string, idade: int, experiencia: string)

  /** The bounds the submission checks put on the content: a nick, an age of 13 to 99, 100 to 5000 characters of experience. */
  predicate ContentPasses(c: Content) {
    c.roblox != "" && MinAge <= c.idade <= MaxAge && MinExperience <= |c.experiencia| <= MaxExperience
  }

  /** One row of `formularios`. */
  datatype Form = Form(
    id: int,
    discordId: string,
    discordName: string,
    discordAvatar: Option<string>,
    roblox: string,
    idade: int,
    experiencia: string,
    status: Status,
    motivoReprova: string,
    createdAt: int,
    updatedAt: int)

  /** The table: its rows by `id`, and the largest `id` AUTOINCREMENT has handed out. */
  datatype Db = Db(rows: map<int, Form>, lastId: int)

  /** What a statement or a handler answers, with the table it leaves behind. */
  datatype Step<R> = Step(result: R, db: Db)

  /** The `discord_id UNIQUE` constraint. */
  predicate UniqueDiscordIds(rows: map<int, Form>) {
    forall a, b :: a in rows && b in rows && rows[a].discordId == rows[b].discordId ==> a == b
  }

  /** Keys are the rows' own ids, all handed out by AUTOINCREMENT, and `discord_id` is unique. */
  predicate StoreInvariant(db: Db) {
    && db.lastId >= 0
    && (forall id :: id in db.rows ==> db.rows[id].id == id && 1 <= id <= db.lastId)
    && UniqueDiscordIds(db.rows)
  }

  /**
   * What every row written by the handlers satisfies: the content passed the
   * submission checks, a pending form carries no reason, and a rejected form
   * carries a reason of at least MinReason characters.
   */
  predicate WellFormed(f: Form) {
    && ContentPasses(Content(f.roblox, f.idade, f.experiencia))
    && (f.status == Pendente ==> f.motivoReprova == "")
    && (f.status == Reprovado ==> |f.motivoReprova| >= MinReason)
  }

  predicate AllWellFormed(rows: map<int, Form>) {
    forall id :: id in rows ==> WellFormed(rows[id])
  }

  /** `a` and `b` are the same applicant's row: the columns no UPDATE of the handlers writes. */
  predicate SameApplicant(a: Form, b: Form) {
    && a.id == b.id && a.discordId == b.discordId
    && a.discordName == b.discordName && a.discordAvatar == b.discordAvatar
    && a.createdAt == b.createdAt
  }

  /** `a` and `b` are the same application with the same submitted content. */
  predicate SameSubmission(a: Form, b: Form) {
    && SameApplicant(a, b)
    && a.roblox == b.roblox && a.idade == b.idade && a.experiencia == b.experiencia
  }

  predicate HasApplicant(rows: map<int, Form>, did: string) {
    exists id :: id in rows && rows[id].discordId == did
  }

  /** `SELECT * FROM formularios WHERE discord_id = ?`. */
  function FindByDiscordId(db: Db, did: string): (r: Option<Form>)
    requires StoreInvariant(db)
    ensures r.Some? <==> HasApplicant(db.rows, did)
    ensures r.Some? ==> r.value.id in db.rows && db.rows[r.value.id] == r.value && r.value.discordId == did
  {
    if exists id | id in db.rows :: db.rows[id].discordId == did then
      var id :| id in db.rows && db.rows[id].discordId == did;
      Some(db.rows[id])
    else
      None
  }

  /** `SELECT * FROM formularios WHERE id = ?`; a missing or unknown key selects nothing. */
  function Lookup(rows: map<int, Form>, key: Option<int>): (r: Option<Form>)
    ensures r.Some? <==> key.Some? && key.value in rows
    ensures r.Some? ==> r.value == rows[key.value]
  {
    if key.Some? && key.value in rows then Some(rows[key.value]) else None
  }

  datatype InsertError = UniqueViolation

  /** The row an INSERT creates: the column defaults fill status, reason and timestamps. */
  function NewForm(id: int, did: string, name: string, avatar: Option<string>, c: Content, now: int): Form {
    Form(id, did, name, avatar, c.roblox, c.idade, c.experiencia, Pendente, "", now, now)
  }

  /** Adding a row under the next AUTOINCREMENT id for a new applicant keeps the store invariant. */
  lemma AddKeepsInvariant(db: Db, f: Form)
    requires StoreInvariant(db) && f.id == db.lastId + 1 && !HasApplicant(db.rows, f.discordId)
    ensures StoreInvariant(Db(db.rows[f.id := f], f.id))
    ensures forall k :: k in db.rows ==> k < f.id
  {
    assert f.id !in db.rows;
  }

  /**
   * `INSERT INTO formularios (discord_id, discord_name, discord_avatar,
   * roblox, idade, experiencia) VALUES (...)`: fails on a duplicate
   * `discord_id`, otherwise adds exactly one row under the next id, with
   * the given columns and the defaults for status, reason and timestamps.
   */
  function Inserted(db: Db, did: string, name: string, avatar: Option<string>, c: Content, now: int)
    : (out: Step<Result<int, InsertError>>)
    requires StoreInvariant(db)
    ensures StoreInvariant(out.db)
    ensures out.result.Failure? <==> HasApplicant(db.rows, did)
    ensures out.result.Failure? ==> out.db == db
    ensures out.result.Success? ==>
      var id := out.result.value;
      && (forall k :: k in db.rows ==> k < id)
      && out.db.rows.Keys == db.rows.Keys + {id}
      && |out.db.rows| == |db.rows| + 1
      && (forall k :: k in db.rows ==> out.db.rows[k] == db.rows[k])
      && id == db.lastId + 1 && out.db.lastId == id
      && out.db.rows[id] == Form(id, did, name, avatar, c.roblox, c.idade, c.experiencia, Pendente, "", now, now)
  {
    if exists k | k in db.rows :: db.rows[k].discordId == did then
      Step(Failure(UniqueViolation), db)
    else
      var id := db.lastId + 1;
      AddKeepsInvariant(db, NewForm(id, did, name, avatar, c, now));
      Step(Success(id), Db(db.rows[id := NewForm(id, did, name, avatar, c, now)], id))
  }

  /** The resubmission UPDATE applied to one row. */
  function Resubmit(f: Form, c: Content, now: int): Form {
    f.(roblox := c.roblox, idade := c.idade, experiencia := c.experiencia,
       status := Pendente, motivoReprova := "", updatedAt := now)
  }

  /**
   * `UPDATE formularios SET roblox = ?, idade = ?, experiencia = ?,
   * status = 'pendente', motivo_reprova = '' WHERE discord_id = ?`.
   */
  function WithResubmission(rows: map<int, Form>, did: string, c: Content, now: int): (r: map<int, Form>)
    ensures r.Keys == rows.Keys
    ensures forall id :: id in rows && rows[id].discordId != did ==> r[id] == rows[id]
    ensures forall id :: id in rows && rows[id].discordId == did ==>
      && r[id].id == rows[id].id && r[id].discordId == did
      && r[id].discordName == rows[id].discordName && r[id].discordAvatar == rows[id].discordAvatar
      && r[id].createdAt == rows[id].createdAt
      && r[id].roblox == c.roblox && r[id].idade == c.idade && r[id].experiencia == c.experiencia
      && r[id].status == Pendente && r[id].motivoReprova == "" && r[id].updatedAt == now
  {
    map id | id in rows :: if rows[id].discordId == did then Resubmit(rows[id], c, now) else rows[id]
  }

  /** `UPDATE formularios SET status = ?, motivo_reprova = ? WHERE id = ?`. */
  function WithDecision(rows: map<int, Form>, key: Option<int>, s: Status, motivo: string, now: int)
    : (r: map<int, Form>)
    ensures r.Keys == rows.Keys
    ensures forall id :: id in rows && Some(id) != key ==> r[id] == rows[id]
    ensures key.Some? && key.value in rows ==>
      var f := r[key.value];
      SameSubmission(f, rows[key.value]) && f.status == s && f.motivoReprova == motivo && f.updatedAt == now
  {
    if key.Some? && key.value in rows then
      rows[key.value := rows[key.value].(status := s, motivoReprova := motivo, updatedAt := now)]
    else
      rows
  }

  /** `UPDATE formularios SET status = ? WHERE id = ?`: the reason column is left as it was. */
  function WithStatus(rows: map<int, Form>, key: Option<int>, s: Status, now: int): (r: map<int, Form>)
    ensures r.Keys == rows.Keys
    ensures forall id :: id in rows && Some(id) != key ==> r[id] == rows[id]
    ensures key.Some? && key.value in rows ==>
      var f := r[key.value];
      && SameSubmission(f, rows[key.value]) && f.status == s && f.updatedAt == now
      && f.motivoReprova == rows[key.value].motivoReprova
  {
    if key.Some? && key.value in rows then
      rows[key.value := rows[key.value].(status := s, updatedAt := now)]
    else
      rows
  }

  /** The number of rows an UPDATE ... WHERE id = ? touches. */
  function Changes(rows: map<int, Form>, key: Option<int>): (n: nat)
    ensures n <= 1
    ensures n == 1 <==> key.Some? && key.value in rows
  {
    if key.Some? && key.value in rows then 1 else 0
  }

  /** An UPDATE that keeps every row's id and `discord_id` keeps the store invariant. */
  lemma UpdateKeepsInvariant(db: Db, rows: map<int, Form>)
    requires StoreInvariant(db)
    requires rows.Keys == db.rows.Keys
    requires forall id :: id in rows ==> rows[id].id == db.rows[id].id && rows[id].discordId == db.rows[id].discordId
    ensures StoreInvariant(Db(rows, db.lastId))
  {
  }

  /** A decision keeps every row well formed as long as a rejection carries a long enough reason. */
  lemma DecisionKeepsWellFormed(rows: map<int, Form>, key: Option<int>, s: Status, motivo: string, now: int)
    requires s != Pendente && (s == Reprovado ==> |motivo| >= MinReason)
    ensures AllWellFormed(rows) ==> AllWellFormed(WithDecision(rows, key, s, motivo, now))
  {
    var r := WithDecision(rows, key, s, motivo, now);
    if AllWellFormed(rows) {
      forall id | id in r ensures WellFormed(r[id]) {
        assert WellFormed(rows[id]);
      }
    }
  }

  /** Approving keeps every row well formed: only the status changes, and not to pending. */
  lemma ApprovalKeepsWellFormed(rows: map<int, Form>, key: Option<int>, now: int)
    ensures AllWellFormed(rows) ==> AllWellFormed(WithStatus(rows, key, Aprovado, now))
  {
    var r := WithStatus(rows, key, Aprovado, now);
    if AllWellFormed(rows) {
      forall id | id in r ensures WellFormed(r[id]) {
        assert WellFormed(rows[id]);
      }
    }
  }

  /** The table, as the handlers share it. */
  class Table {
    var rows: map<int, Form>
    var lastId: int

    ghost function State(): Db
      reads this
    {
      Db(rows, lastId)
    }

    ghost predicate Valid()
      reads this
    {
      StoreInvariant(State())
    }

    /** `CREATE TABLE IF NOT EXISTS formularios`: an empty table. */
    constructor ()
      ensures Valid() && rows == map[] && lastId == 0
    {
      rows := map[];
      lastId := 0;
    }

    method SelectById(key: Option<int>) returns (f: Option<Form>)
      ensures f == Lookup(rows, key)
    {
      if key.Some? && key.value in rows {
        f := Some(rows[key.value]);
      } else {
        f := None;
      }
    }

    method SelectByDiscordId(did: string) returns (f: Option<Form>)
      requires Valid()
      ensures f == FindByDiscordId(State(), did)
    {
      if exists id | id in rows :: rows[id].discordId == did {
        var id :| id in rows && rows[id].discordId == did;
        f := Some(rows[id]);
      } else {
        f := None;
      }
    }

    method Insert(did: string, name: string, avatar: Option<string>, c: Content, now: int)
      returns (r: Result<int, InsertError>)
      requires Valid()
      modifies this
      ensures Valid()
      ensures Step(r, State()) == Inserted(old(State()), did, name, avatar, c, now)
    {
      ghost var spec := Inserted(State(), did, name, avatar, c, now);
      if exists k | k in rows :: rows[k].discordId == did {
        r := Failure(UniqueViolation);
      } else {
        var id := lastId + 1;
        AddKeepsInvariant(State(), NewForm(id, did, name, avatar, c, now));
        rows := rows[id := NewForm(id, did, name, avatar, c, now)];
        lastId := id;
        r := Success(id);
      }
      assert Step(r, State()) == spec;
    }

    method UpdateResubmission(did: string, c: Content, now: int)
      requires Valid()
      modifies this
      ensures Valid()
      ensures rows == WithResubmission(old(rows), did, c, now) && lastId == old(lastId)
    {
      UpdateKeepsInvariant(State(), WithResubmission(rows, did, c, now));
      rows := WithResubmission(rows, did, c, now);
    }

    method UpdateDecision(key: Option<int>, s: Status, motivo: string, now: int) returns (changes: nat)
      requires Valid()
      modifies this
      ensures Valid()
      ensures rows == WithDecision(old(rows), key, s, motivo, now) && lastId == old(lastId)
      ensures changes == Changes(old(rows), key)
    {
      changes := Changes(rows, key);
      UpdateKeepsInvariant(State(), WithDecision(rows, key, s, motivo, now));
      rows := WithDecision(rows, key, s, motivo, now);
    }

    method UpdateStatus(key: Option<int>, s: Status, now: int)
      requires Valid()
      modifies this
      ensures Valid()
      ensures rows == WithStatus(old(rows), key, s, now) && lastId == old(lastId)
    {
      UpdateKeepsInvariant(State(), WithStatus(rows, key, s, now));
      rows := WithStatus(rows, key, s, now);
    }
  }
}
