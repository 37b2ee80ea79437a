/**
 * POST /admin/action: an administrator approves or rejects a form from the
 * web dashboard. The action must be 'aprovado' or 'reprovado'; a rejection
 * needs a reason of at least five characters once trimmed. The UPDATE then
 * writes the status and `motivo || ''` to the row with the given id,
 * whatever its current status, and reports how many rows it changed. This
 * path sends no notification.
 */
module Decision {
  import opened Wrappers
  import opened Formularios
  import opened JsStrings

  datatype DecideError = InvalidAction | ReasonRequired

  /** The status an action names: only 'aprovado' and 'reprovado' are actions. */
  function DecisionOf(action: Option<string>): (s: Option<Status>)
    ensures s.Some? <==> action == Some("aprovado") || action == Some("reprovado")
    ensures s.Some? ==> s.value != Pendente && StatusText(s.value) == action.value
  {
    if action == Some("aprovado") then Some(Aprovado)
    else if action == Some("reprovado") then Some(Reprovado)
    else None
  }

  /** The reason passes `!motivo || motivo.trim().length < 5` negated. */
  predicate ReasonGiven(motivo: Option<string>) {
    motivo.Some? && |Trim(motivo.value)| >= MinReason
  }

  /** A reason that is long enough once trimmed is long enough as stored. */
  lemma GivenReasonIsLong(motivo: Option<string>)
    ensures ReasonGiven(motivo) ==> |motivo.GetOr("")| >= MinReason
  {
    if motivo.Some? {
      assert |Trim(motivo.value)| <= |motivo.value|;
    }
  }

  /**
   * The request as a function of the table: the number of rows changed, or
   * the reason for refusing, and the table after it.
   */
  function DecideSpec(db: Db, key: Option<int>, action: Option<string>, motivo: Option<string>, now: int)
    : (out: Step<Result<nat, DecideError>>)
    requires StoreInvariant(db)
    ensures StoreInvariant(out.db) && out.db.lastId == db.lastId && out.db.rows.Keys == db.rows.Keys
    ensures out.result == Failure(InvalidAction) <==> DecisionOf(action).None?
    ensures out.result == Failure(ReasonRequired) <==> DecisionOf(action) == Some(Reprovado) && !ReasonGiven(motivo)
    ensures out.result.Failure? ==> out.db == db
    ensures out.result.Success? ==>
      && out.result.value == (if key.Some? && key.value in db.rows then 1 else 0)
      && (forall id :: id in db.rows && Some(id) != key ==> out.db.rows[id] == db.rows[id])
      && (key.Some? && key.value in db.rows ==>
            var f := out.db.rows[key.value];
            && SameSubmission(f, db.rows[key.value])
            && f.status == DecisionOf(action).value
            && f.motivoReprova == motivo.GetOr("")
            && f.updatedAt == now)
    ensures AllWellFormed(db.rows) ==> AllWellFormed(out.db.rows)
  {
    match DecisionOf(action)
    case None => Step(Failure(InvalidAction), db)
    case Some(s) =>
      if s == Reprovado && !ReasonGiven(motivo) then
        Step(Failure(ReasonRequired), db)
      else
        GivenReasonIsLong(motivo);
        Step(Success(Changes(db.rows, key)), Decided(db, key, s, motivo.GetOr(""), now))
  }

  /** The table after the decision UPDATE by id, which keeps the keys and the invariant. */
  function Decided(db: Db, key: Option<int>, s: Status, reason: string, now: int): (out: Db)
    requires StoreInvariant(db)
    ensures StoreInvariant(out) && out.lastId == db.lastId && out.rows.Keys == db.rows.Keys
    ensures forall id :: id in db.rows && Some(id) != key ==> out.rows[id] == db.rows[id]
    ensures key.Some? && key.value in db.rows ==>
      var f := out.rows[key.value];
      SameSubmission(f, db.rows[key.value]) && f.status == s && f.motivoReprova == reason && f.updatedAt == now
    ensures s != Pendente && (s == Reprovado ==> |reason| >= MinReason) && AllWellFormed(db.rows) ==>
      AllWellFormed(out.rows)
  {
    var rows := WithDecision(db.rows, key, s, reason, now);
    UpdateKeepsInvariant(db, rows);
    if s != Pendente && (s == Reprovado ==> |reason| >= MinReason) then
      DecisionKeepsWellFormed(db.rows, key, s, reason, now);
      Db(rows, db.lastId)
    else
      Db(rows, db.lastId)
  }

  /** The handler: the two checks, then one UPDATE by id. */
  method Decide(db: Table, key: Option<int>, action: Option<string>, motivo: Option<string>, now: int)
    returns (r: Result<nat, DecideError>)
    requires db.Valid()
    modifies db
    ensures db.Valid()
    ensures Step(r, db.State()) == DecideSpec(old(db.State()), key, action, motivo, now)
  {
    if action != Some("aprovado") && action != Some("reprovado") {
      return Failure(InvalidAction);
    }
    if action == Some("reprovado") && (motivo.None? || |Trim(motivo.value)| < MinReason) {
      return Failure(ReasonRequired);
    }
    var s := if action == Some("aprovado") then Aprovado else Reprovado;
    var changes := db.UpdateDecision(key, s, motivo.GetOr(""), now);
    r := Success(changes);
  }
}
