/**
 * POST /form: an applicant sends or resends the whitelist form. The body is
 * checked first, without touching the table; then the applicant's existing
 * row decides the outcome: none means a new pending row, a pending or
 * approved row refuses the request, and a rejected row is overwritten with
 * the new content and set back to pending.
 */
module Submission {
  import opened Wrappers
  import opened Formularios

  /** The logged-in Discord user of the session. */
  datatype User = User(id: string, username: string, avatar: Option<string>)

  /** The JSON body of the request; a field the body leaves out is None. */
  datatype Body = Body(roblox: Option<string>, idade: Option<int>, experiencia: Option<string>)

  datatype SubmitError =
    | MissingFields
    | AgeOutOfRange
    | ExperienceTooShort
    | ExperienceTooLong
    | AlreadyPending
    | AlreadyApproved
      /** the UNIQUE constraint on `discord_id` refused the INSERT */
    | AlreadyRegistered

  /** A text field JavaScript finds truthy: present and not empty. */
  predicate Given(s: Option<string>) {
    s.Some? && s.value != ""
  }

  /** A numeric field JavaScript finds truthy: present and not zero. */
  predicate GivenAge(a: Option<int>) {
    a.Some? && a.value != 0
  }

  /** The bodies the handler accepts, stated field by field. */
  predicate Acceptable(b: Body) {
    && b.roblox.Some? && b.idade.Some? && b.experiencia.Some?
    && ContentPasses(Content(b.roblox.value, b.idade.value, b.experiencia.value))
  }

  function ContentOf(b: Body): Content
    requires Acceptable(b)
  {
    Content(b.roblox.value, b.idade.value, b.experiencia.value)
  }

  /** The field checks, in the handler's order; None when the body is accepted. */
  function Validate(b: Body): (e: Option<SubmitError>)
    ensures e.None? <==> Acceptable(b)
    ensures e == Some(MissingFields) <==> !(Given(b.roblox) && GivenAge(b.idade) && Given(b.experiencia))
    ensures e == Some(AgeOutOfRange) <==>
      Given(b.roblox) && GivenAge(b.idade) && Given(b.experiencia)
      && (b.idade.value < MinAge || b.idade.value > MaxAge)
    ensures e == Some(ExperienceTooShort) <==>
      Given(b.roblox) && GivenAge(b.idade) && Given(b.experiencia)
      && MinAge <= b.idade.value <= MaxAge && |b.experiencia.value| < MinExperience
    ensures e == Some(ExperienceTooLong) <==>
      Given(b.roblox) && GivenAge(b.idade) && Given(b.experiencia)
      && MinAge <= b.idade.value <= MaxAge && |b.experiencia.value| > MaxExperience
    ensures e.Some? ==> e.value in {MissingFields, AgeOutOfRange, ExperienceTooShort, ExperienceTooLong}
  {
    if !(Given(b.roblox) && GivenAge(b.idade) && Given(b.experiencia)) then Some(MissingFields)
    else if b.idade.value < MinAge || b.idade.value > MaxAge then Some(AgeOutOfRange)
    else if |b.experiencia.value| < MinExperience then Some(ExperienceTooShort)
    else if |b.experiencia.value| > MaxExperience then Some(ExperienceTooLong)
    else None
  }

  /** The content fields of `f` are those of `c`. */
  predicate HoldsContent(f: Form, c: Content) {
    f.roblox == c.roblox && f.idade == c.idade && f.experiencia == c.experiencia
  }

  /** The table after a rejected applicant's row `f` is overwritten with `c` and set back to pending. */
  function Resubmitted(db: Db, f: Form, c: Content, now: int): (out: Db)
    requires StoreInvariant(db) && f.id in db.rows && db.rows[f.id] == f
    ensures StoreInvariant(out) && out.rows.Keys == db.rows.Keys
    ensures HoldsContent(out.rows[f.id], c) && SameApplicant(out.rows[f.id], f)
    ensures out.rows[f.id].status == Pendente && out.rows[f.id].motivoReprova == ""
    ensures out.rows[f.id].updatedAt == now
    ensures forall k :: k in db.rows && k != f.id ==> out.rows[k] == db.rows[k]
    ensures AllWellFormed(db.rows) && ContentPasses(c) ==> AllWellFormed(out.rows)
  {
    var rows := WithResubmission(db.rows, f.discordId, c, now);
    UpdateKeepsInvariant(db, rows);
    Db(rows, db.lastId)
  }

  /** The table after a first-time applicant's row is inserted; the INSERT cannot clash here. */
  function Fresh(db: Db, u: User, c: Content, now: int): (out: Step<int>)
    requires StoreInvariant(db) && !HasApplicant(db.rows, u.id)
    ensures StoreInvariant(out.db) && out.result !in db.rows
    ensures out.db.rows.Keys == db.rows.Keys + {out.result}
    ensures out.result == db.lastId + 1 && out.db.lastId == out.result
    ensures out.db.rows[out.result]
      == Form(out.result, u.id, u.username, u.avatar, c.roblox, c.idade, c.experiencia, Pendente, "", now, now)
    ensures forall k :: k in db.rows ==> out.db.rows[k] == db.rows[k]
    ensures AllWellFormed(db.rows) && ContentPasses(c) ==> AllWellFormed(out.db.rows)
  {
    var ins := Inserted(db, u.id, u.username, u.avatar, c, now);
    Step(ins.result.value, ins.db)
  }

  /**
   * The whole request, as a function of the table before it: the answer
   * (the form's id, or the reason for refusing) and the table after it.
   */
  function SubmitSpec(db: Db, u: User, b: Body, now: int): (out: Step<Result<int, SubmitError>>)
    requires StoreInvariant(db)
    ensures StoreInvariant(out.db)
    ensures out.result.Failure? ==> out.db == db
    ensures Validate(b).Some? ==> out.result == Failure(Validate(b).value)
    ensures Acceptable(b) && HasApplicant(db.rows, u.id) ==>
      var f := FindByDiscordId(db, u.id).value;
      && (f.status == Pendente ==> out.result == Failure(AlreadyPending))
      && (f.status == Aprovado ==> out.result == Failure(AlreadyApproved))
      && (f.status == Reprovado ==>
            && out.result == Success(f.id) && out.db.rows.Keys == db.rows.Keys
            && SameApplicant(out.db.rows[f.id], f))
    ensures Acceptable(b) && !HasApplicant(db.rows, u.id) ==>
      && out.result.Success? && out.result.value !in db.rows
      && out.db.rows.Keys == db.rows.Keys + {out.result.value}
      && var n := out.db.rows[out.result.value];
         n.discordName == u.username && n.discordAvatar == u.avatar && n.createdAt == now
    ensures out.result.Success? ==>
      var id := out.result.value;
      && Acceptable(b)
      && id in out.db.rows
      && HoldsContent(out.db.rows[id], ContentOf(b))
      && out.db.rows[id].discordId == u.id
      && out.db.rows[id].status == Pendente && out.db.rows[id].motivoReprova == ""
      && out.db.rows[id].updatedAt == now
      && db.rows.Keys <= out.db.rows.Keys
      && (forall k :: k in db.rows && k != id ==> out.db.rows[k] == db.rows[k])
    ensures AllWellFormed(db.rows) ==> AllWellFormed(out.db.rows)
  {
    match Validate(b)
    case Some(e) => Step(Failure(e), db)
    case None =>
      var c := ContentOf(b);
      match FindByDiscordId(db, u.id)
      case Some(f) =>
        (match f.status
         case Pendente => Step(Failure(AlreadyPending), db)
         case Aprovado => Step(Failure(AlreadyApproved), db)
         case Reprovado => Step(Success(f.id), Resubmitted(db, f, c, now)))
      case None =>
        var ins := Fresh(db, u, c, now);
        Step(Success(ins.result), ins.db)
  }

  /** The handler: the checks, then the SELECT, then one INSERT or one UPDATE. */
  method Submit(db: Table, u: User, b: Body, now: int) returns (r: Result<int, SubmitError>)
    requires db.Valid()
    modifies db
    ensures db.Valid()
    ensures Step(r, db.State()) == SubmitSpec(old(db.State()), u, b, now)
  {
    var invalid := Validate(b);
    if invalid.Some? {
      return Failure(invalid.value);
    }
    var c := ContentOf(b);
    var existing := db.SelectByDiscordId(u.id);
    if existing.Some? {
      match existing.value.status
      case Pendente =>
        return Failure(AlreadyPending);
      case Aprovado =>
        return Failure(AlreadyApproved);
      case Reprovado =>
        db.UpdateResubmission(u.id, c, now);
        return Success(existing.value.id);
    }
    var inserted := db.Insert(u.id, u.username, u.avatar, c, now);
    match inserted
    case Success(id) =>
      r := Success(id);
    case Failure(_) =>
      r := Failure(AlreadyRegistered);
  }
}
