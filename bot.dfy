/**
 * The Discord bot's interaction handler: slash commands, button presses and
 * the rejection modal. Commands and buttons are refused to anyone not in the
 * admin list before the table is read; the modal submission has no such
 * gate. Approving writes only the status; rejecting writes the status and
 * the reason, which must be at least 5 characters on the slash command and
 * 10 in the modal, counted without trimming. The table row is read back
 * after the UPDATE, and the applicant is then sent a direct message, whose
 * delivery (`dmDelivered`) only shows in the reply.
 */
module Bot {
  import opened Wrappers
  import opened JsStrings
  import opened Formularios
  import opened Queries
  import opened BotText
  import opened Decision

  const SlashMinReason := 5
  const ModalMinReason := 10
  const PendingPageSize := 10

  /** The `/whitelist` subcommands this model covers, with their options as typed. */
  datatype Command =
    | Pendentes
    | Stats
    | Revisar(id: string)
    | Aprovar(id: string)
    | Reprovar(id: string, motivo: string)

  /** What the bot answers, stripped of its wording and colours. */
  datatype Reply =
    | Refused
    | Listed(cards: seq<Card>)
    | Counted(rows: seq<StatRow>, total: int)
    | Reviewed(card: Card)
    | Viewed(form: Form)
    | ReasonTooShort(min: nat)
    | NotFound
    | Written(form: Form, dmSent: bool)
    | ModalShown(modalId: string)
    | Ignored

  /**
   * `UPDATE formularios SET status='aprovado', updated_at=CURRENT_TIMESTAMP
   * WHERE id=?`, then the row read back; the DM outcome only shows in the reply.
   */
  function ApproveSpec(db: Db, key: Option<int>, now: int, dmDelivered: bool): (out: Step<Reply>)
    requires StoreInvariant(db)
    ensures StoreInvariant(out.db) && out.db.lastId == db.lastId && out.db.rows.Keys == db.rows.Keys
    ensures out.result.NotFound? <==> key.None? || key.value !in db.rows
    ensures out.result.NotFound? ==> out.db == db
    ensures out.result.NotFound? || out.result.Written?
    ensures out.result.Written? ==>
      var f := out.result.form;
      && f == out.db.rows[key.value] && SameSubmission(f, db.rows[key.value])
      && f.status == Aprovado && f.motivoReprova == db.rows[key.value].motivoReprova
      && f.updatedAt == now && out.result.dmSent == dmDelivered
    ensures forall id :: id in db.rows && Some(id) != key ==> out.db.rows[id] == db.rows[id]
    ensures AllWellFormed(db.rows) ==> AllWellFormed(out.db.rows)
  {
    var rows := WithStatus(db.rows, key, Aprovado, now);
    UpdateKeepsInvariant(db, rows);
    ApprovalKeepsWellFormed(db.rows, key, now);
    match Lookup(rows, key)
    case Some(f) => Step(Written(f, dmDelivered), Db(rows, db.lastId))
    case None => Step(NotFound, Db(rows, db.lastId))
  }

  /**
   * The reason check, then `UPDATE formularios SET status='reprovado',
   * motivo_reprova=?, updated_at=CURRENT_TIMESTAMP WHERE id=?` and the row
   * read back.
   */
  function RejectSpec(db: Db, key: Option<int>, motivo: string, minLength: nat, now: int, dmDelivered: bool)
    : (out: Step<Reply>)
    requires StoreInvariant(db)
    ensures StoreInvariant(out.db) && out.db.lastId == db.lastId && out.db.rows.Keys == db.rows.Keys
    ensures out.result == ReasonTooShort(minLength) <==> |motivo| < minLength
    ensures out.result.NotFound? <==> |motivo| >= minLength && (key.None? || key.value !in db.rows)
    ensures out.result.ReasonTooShort? || out.result.NotFound? ==> out.db == db
    ensures out.result.ReasonTooShort? || out.result.NotFound? || out.result.Written?
    ensures out.result.Written? ==>
      var f := out.result.form;
      && f == out.db.rows[key.value] && SameSubmission(f, db.rows[key.value])
      && f.status == Reprovado && f.motivoReprova == motivo
      && f.updatedAt == now && out.result.dmSent == dmDelivered
    ensures forall id :: id in db.rows && Some(id) != key ==> out.db.rows[id] == db.rows[id]
    ensures minLength >= MinReason && AllWellFormed(db.rows) ==> AllWellFormed(out.db.rows)
  {
    if |motivo| < minLength then
      Step(ReasonTooShort(minLength), db)
    else
      var rows := WithDecision(db.rows, key, Reprovado, motivo, now);
      UpdateKeepsInvariant(db, rows);
      assert minLength >= MinReason && AllWellFormed(db.rows) ==> AllWellFormed(rows) by {
        if minLength >= MinReason {
          DecisionKeepsWellFormed(db.rows, key, Reprovado, motivo, now);
        }
      }
      match Lookup(rows, key)
      case Some(f) => Step(Written(f, dmDelivered), Db(rows, db.lastId))
      case None => Step(NotFound, Db(rows, db.lastId))
  }

  /** `revisar` and the `ver` button: the row with that id, or "not found". */
  function ReviewReply(rows: map<int, Form>, key: Option<int>): (r: Reply)
    ensures r.NotFound? <==> key.None? || key.value !in rows
    ensures r.Reviewed? ==> r.card == ReviewCard(rows[key.value])
    ensures r.NotFound? || r.Reviewed?
  {
    match Lookup(rows, key)
    case Some(f) => Reviewed(ReviewCard(f))
    case None => NotFound
  }

  function FormsOf(cards: seq<Card>): (forms: seq<Form>)
    ensures |forms| == |cards| && forall i :: 0 <= i < |cards| ==> forms[i] == cards[i].form
  {
    seq(|cards|, i requires 0 <= i < |cards| => cards[i].form)
  }

  /** The `pendentes` answer: the ten newest pending forms, each sent with its buttons. */
  predicate IsPendingPage(rows: map<int, Form>, cards: seq<Card>) {
    && IsListing(rows, Only(StatusText(Pendente)), Some(PendingPageSize), FormsOf(cards))
    && forall i :: 0 <= i < |cards| ==> cards[i] == FormCard(cards[i].form, true)
  }

  /** Every form on the `pendentes` page carries its approve, reject and details buttons. */
  lemma PendingPageHasButtons(rows: map<int, Form>, cards: seq<Card>)
    requires IsPendingPage(rows, cards)
    ensures forall i :: 0 <= i < |cards| ==> |cards[i].buttons| == 3
  {
    forall i | 0 <= i < |cards| ensures |cards[i].buttons| == 3 {
      var f := FormsOf(cards)[i];
      assert Matches(f, Only(StatusText(Pendente)));
      assert f.status == Pendente;
    }
  }

  /** `for (const form of rows) await sendFormEmbed(channel, form, withButtons)`. */
  method SendCards(forms: seq<Form>, withButtons: bool) returns (cards: seq<Card>)
    ensures |cards| == |forms|
    ensures forall i :: 0 <= i < |forms| ==> cards[i] == FormCard(forms[i], withButtons)
  {
    cards := [];
    for i := 0 to |forms|
      invariant |cards| == i
      invariant forall k :: 0 <= k < i ==> cards[k] == FormCard(forms[k], withButtons)
    {
      cards := cards + [FormCard(forms[i], withButtons)];
    }
  }

  /** `rows.forEach(row => { total += row.count })`. */
  method SumTotal(rows: seq<StatRow>) returns (total: int)
    ensures total == SumCounts(rows)
  {
    total := 0;
    for i := 0 to |rows|
      invariant total == SumCounts(rows[..i])
    {
      assert rows[..i + 1][..i] == rows[..i];
      total := total + rows[i].count;
    }
    assert rows[..|rows|] == rows;
  }

  /** The key an id typed or carried in a custom id selects; `undefined` selects none. */
  function KeyOf(idText: Option<string>): (key: Option<int>)
    ensures idText.None? ==> key.None?
    ensures idText.Some? ==> key == ParseKey(idText.value)
    ensures key.Some? ==> key.value >= 0
  {
    if idText.Some? then ParseKey(idText.value) else None
  }

  /**
   * The buttons on a form's card and the modal its reject button opens all
   * select that form's row: a press acts on the form it was shown with.
   */
  lemma PressSelectsShownForm(action: string, id: nat)
    requires '_' !in action
    ensures KeyOf(ParseButtonId(ButtonId(action, id)).id) == Some(id)
    ensures KeyOf(ParseModalId(ModalId(ShowNat(id)))) == Some(id)
  {
    ButtonIdRoundTrip(action, id);
    NonDigitNotInShowNat(id, '_');
    ModalIdRoundTrip(ShowNat(id));
  }

  /** A slash command from `caller`. */
  method HandleCommand(db: Table, admins: seq<string>, caller: string, cmd: Command, now: int, dmDelivered: bool)
    returns (reply: Reply)
    requires db.Valid()
    modifies db
    ensures db.Valid()
    ensures !IsAdmin(admins, caller) ==> reply == Refused
    ensures !IsAdmin(admins, caller) || cmd.Pendentes? || cmd.Stats? || cmd.Revisar? ==>
      db.State() == old(db.State())
    ensures IsAdmin(admins, caller) && cmd.Pendentes? ==> reply.Listed? && IsPendingPage(db.rows, reply.cards)
    ensures IsAdmin(admins, caller) && cmd.Stats? ==> reply == Counted(StatsRows(db.rows), |db.rows|)
    ensures IsAdmin(admins, caller) && cmd.Revisar? ==> reply == ReviewReply(db.rows, ParseKey(cmd.id))
    ensures IsAdmin(admins, caller) && cmd.Aprovar? ==>
      Step(reply, db.State()) == ApproveSpec(old(db.State()), ParseKey(cmd.id), now, dmDelivered)
    ensures IsAdmin(admins, caller) && cmd.Reprovar? ==>
      Step(reply, db.State()) ==
        RejectSpec(old(db.State()), ParseKey(cmd.id), cmd.motivo, SlashMinReason, now, dmDelivered)
  {
    if caller !in admins {
      return Refused;
    }
    match cmd
    case Pendentes =>
      var forms := ListForms(db, Only("pendente"), Some(PendingPageSize));
      var cards := SendCards(forms, true);
      assert FormsOf(cards) == forms;
      reply := Listed(cards);
    case Stats =>
      var rows := StatsRows(db.rows);
      var total := SumTotal(rows);
      StatsAddUp(db.rows);
      reply := Counted(rows, total);
    case Revisar(id) =>
      var f := db.SelectById(ParseKey(id));
      reply := if f.Some? then Reviewed(ReviewCard(f.value)) else NotFound;
    case Aprovar(id) =>
      reply := Approve(db, ParseKey(id), now, dmDelivered);
    case Reprovar(id, motivo) =>
      reply := Reject(db, ParseKey(id), motivo, SlashMinReason, now, dmDelivered);
  }

  /** The approve paths of the command and of the button: UPDATE, then SELECT. */
  method Approve(db: Table, key: Option<int>, now: int, dmDelivered: bool) returns (reply: Reply)
    requires db.Valid()
    modifies db
    ensures db.Valid()
    ensures Step(reply, db.State()) == ApproveSpec(old(db.State()), key, now, dmDelivered)
  {
    db.UpdateStatus(key, Aprovado, now);
    var f := db.SelectById(key);
    reply := if f.Some? then Written(f.value, dmDelivered) else NotFound;
  }

  /** The reject paths of the command and of the modal: the length check, UPDATE, then SELECT. */
  method Reject(db: Table, key: Option<int>, motivo: string, minLength: nat, now: int, dmDelivered: bool)
    returns (reply: Reply)
    requires db.Valid()
    modifies db
    ensures db.Valid()
    ensures Step(reply, db.State()) == RejectSpec(old(db.State()), key, motivo, minLength, now, dmDelivered)
  {
    if |motivo| < minLength {
      return ReasonTooShort(minLength);
    }
    var _ := db.UpdateDecision(key, Reprovado, motivo, now);
    var f := db.SelectById(key);
    reply := if f.Some? then Written(f.value, dmDelivered) else NotFound;
  }

  /** A button press from `caller` on a button with the given custom id. */
  method HandleButton(db: Table, admins: seq<string>, caller: string, customId: string, now: int, dmDelivered: bool)
    returns (reply: Reply)
    requires db.Valid()
    modifies db
    ensures db.Valid()
    ensures !IsAdmin(admins, caller) ==> reply == Refused
    ensures var press := ParseButtonId(customId);
      !IsAdmin(admins, caller) || press.action != "aprovar" ==> db.State() == old(db.State())
    ensures var press := ParseButtonId(customId);
      IsAdmin(admins, caller) ==>
        && (press.action == "ver" ==>
              reply == (if Lookup(db.rows, KeyOf(press.id)).Some? then Viewed(Lookup(db.rows, KeyOf(press.id)).value) else NotFound))
        && (press.action == "aprovar" ==>
              Step(reply, db.State()) == ApproveSpec(old(db.State()), KeyOf(press.id), now, dmDelivered))
        && (press.action == "reprovar" ==> reply == ModalShown(ModalId(press.id.GetOr("undefined"))))
        && (press.action !in {"ver", "aprovar", "reprovar"} ==> reply == Ignored)
  {
    if caller !in admins {
      return Refused;
    }
    var press := ParseButtonId(customId);
    if press.action == "ver" {
      var f := db.SelectById(KeyOf(press.id));
      reply := if f.Some? then Viewed(f.value) else NotFound;
    } else if press.action == "aprovar" {
      reply := Approve(db, KeyOf(press.id), now, dmDelivered);
    } else if press.action == "reprovar" {
      reply := ModalShown(ModalId(press.id.GetOr("undefined")));
    } else {
      reply := Ignored;
    }
  }

  /** A submitted modal: only custom ids with the rejection prefix are handled, and no admin check is made. */
  method HandleModalSubmit(db: Table, customId: string, motivo: string, now: int, dmDelivered: bool)
    returns (reply: Reply)
    requires db.Valid()
    modifies db
    ensures db.Valid()
    ensures !StartsWith(customId, ModalPrefix) ==> reply == Ignored && db.State() == old(db.State())
    ensures StartsWith(customId, ModalPrefix) ==>
      Step(reply, db.State()) ==
        RejectSpec(old(db.State()), KeyOf(ParseModalId(customId)), motivo, ModalMinReason, now, dmDelivered)
  {
    var id := ParseModalId(customId);
    if id.None? {
      return Ignored;
    }
    reply := Reject(db, KeyOf(id), motivo, ModalMinReason, now, dmDelivered);
  }

  /**
   * Where both accept a rejection, the bot and the web dashboard leave the
   * table in the same state.
   */
  lemma RejectPathsAgree(db: Db, key: Option<int>, motivo: string, minLength: nat, now: int, dmDelivered: bool)
    requires StoreInvariant(db)
    requires |motivo| >= minLength && |Trim(motivo)| >= MinReason
    ensures RejectSpec(db, key, motivo, minLength, now, dmDelivered).db
         == DecideSpec(db, key, Some("reprovado"), Some(motivo), now).db
  {
    var bot := RejectSpec(db, key, motivo, minLength, now, dmDelivered).db;
    var web := DecideSpec(db, key, Some("reprovado"), Some(motivo), now).db;
    assert bot.rows.Keys == web.rows.Keys;
    forall id | id in bot.rows ensures bot.rows[id] == web.rows[id] {
      if Some(id) == key {
        assert SameSubmission(bot.rows[id], db.rows[id]) && SameSubmission(web.rows[id], db.rows[id]);
      }
    }
  }

  /**
   * The modal asks for a longer reason than the slash command: a reason of
   * 5 to 9 characters is written by one and refused by the other.
   */
  lemma ModalStricterThanCommand(db: Db, key: Option<int>, motivo: string, now: int, dm: bool)
    requires StoreInvariant(db)
    requires SlashMinReason <= |motivo| < ModalMinReason && key.Some? && key.value in db.rows
    ensures RejectSpec(db, key, motivo, ModalMinReason, now, dm).result == ReasonTooShort(ModalMinReason)
    ensures RejectSpec(db, key, motivo, SlashMinReason, now, dm).result.Written?
  {
  }
}
