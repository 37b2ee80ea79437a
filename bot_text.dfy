/**
 * The bot's pure text handling: the admin list read from ADMIN_IDS, the
 * custom ids of the review buttons and of the rejection modal, and the
 * embeds it builds for a form (truncated texts and the buttons attached).
 */
module BotText {
  import opened Wrappers
  import opened JsStrings
  import opened Formularios

  /** The entries of a split list that are not blank once trimmed, in order and untrimmed. */
  function NonBlank(parts: seq<string>): (r: seq<string>)
    ensures |r| <= |parts|
    ensures forall x :: x in r <==> x in parts && Trim(x) != ""
  {
    if parts == [] then []
    else (if Trim(parts[0]) != "" then [parts[0]] else []) + NonBlank(parts[1..])
  }

  /** ADMIN_IDS split on commas with blank entries dropped; no variable means no admins. */
  function ParseAdmins(env: Option<string>): (admins: seq<string>)
    ensures env.None? ==> admins == []
    ensures env.Some? ==> forall x :: x in admins <==> x in Split(env.value, ',') && Trim(x) != ""
    ensures forall i :: 0 <= i < |admins| ==> ',' !in admins[i] && Trim(admins[i]) != ""
  {
    if env.None? then []
    else
      var admins := NonBlank(Split(env.value, ','));
      assert forall i :: 0 <= i < |admins| ==> ',' !in admins[i] && Trim(admins[i]) != "" by {
        forall i | 0 <= i < |admins| ensures ',' !in admins[i] && Trim(admins[i]) != "" {
          assert admins[i] in admins;
        }
      }
      admins
  }

  /** `ADMINS.includes(id)`: the exact text, with no trimming. */
  predicate IsAdmin(admins: seq<string>, caller: string): (b: bool)
    ensures b <==> exists i :: 0 <= i < |admins| && admins[i] == caller
    ensures b && (forall i :: 0 <= i < |admins| ==> Trim(admins[i]) != "") ==> Trim(caller) != ""
  {
    caller in admins
  }

  lemma {:induction false} NonBlankKeepsAll(parts: seq<string>)
    requires forall i :: 0 <= i < |parts| ==> Trim(parts[i]) != ""
    ensures NonBlank(parts) == parts
  {
    if parts != [] {
      NonBlankKeepsAll(parts[1..]);
    }
  }

  /** A comma-separated list of non-blank, comma-free ids reads back as exactly that list. */
  lemma AdminListRoundTrip(ids: seq<string>)
    requires |ids| >= 1
    requires forall i :: 0 <= i < |ids| ==> ',' !in ids[i] && Trim(ids[i]) != ""
    ensures ParseAdmins(Some(Join(ids, ','))) == ids
  {
    SplitJoin(ids, ',');
    NonBlankKeepsAll(ids);
  }

  /** A caller id that is blank once trimmed is never an admin, whatever ADMIN_IDS holds. */
  lemma BlankIsNeverAdmin(env: Option<string>, caller: string)
    requires Trim(caller) == ""
    ensures !IsAdmin(ParseAdmins(env), caller)
  {
  }

  /** `${n}` for an integer. */
  function ShowInt(n: int): (r: string)
    ensures n >= 0 ==> r == ShowNat(n)
    ensures '_' !in r
  {
    NonDigitNotInShowNat(if n < 0 then -n else n, '_');
    if n < 0 then "-" + ShowNat(-n) else ShowNat(n)
  }

  /** `${action}_${form.id}`, the custom id of a review button. */
  function ButtonId(action: string, id: int): (r: string)
    ensures '_' !in action ==> Split(r, '_') == [action, ShowInt(id)]
  {
    var parts := [action, ShowInt(id)];
    assert Join(parts, '_') == action + "_" + ShowInt(id) by {
      assert parts[1..] == [ShowInt(id)];
    }
    if '_' in action then action + "_" + ShowInt(id)
    else
      SplitJoin(parts, '_');
      action + "_" + ShowInt(id)
  }

  /** What `customId.split("_")` hands to `[action, id]`; a missing second piece is None. */
  datatype ButtonPress = ButtonPress(action: string, id: Option<string>)

  function ParseButtonId(customId: string): (p: ButtonPress)
    ensures '_' !in p.action && (p.id.Some? ==> '_' !in p.id.value)
    ensures p.id.None? <==> '_' !in customId
    ensures p.id.None? ==> p.action == customId
    ensures p.id.Some? ==>
      var head := p.action + "_" + p.id.value;
      head <= customId && (|customId| > |head| ==> customId[|head|] == '_')
  {
    var parts := Split(customId, '_');
    if '_' !in customId then
      SplitOfPiece(customId, '_');
      ButtonPress(customId, None)
    else
      SplitFirstTwo(customId, '_');
      ButtonPress(parts[0], Some(parts[1]))
  }

  /** A button built for a form parses back to its action and to the text of the form's id. */
  lemma ButtonIdRoundTrip(action: string, id: nat)
    requires '_' !in action
    ensures ParseButtonId(ButtonId(action, id)) == ButtonPress(action, Some(ShowNat(id)))
    ensures ParseKey(ShowNat(id)) == Some(id)
  {
    NonDigitNotInShowNat(id, '_');
    assert ButtonId(action, id) == action + ['_'] + ShowNat(id);
    SplitAfterPiece(action, '_', ShowNat(id));
    SplitOfPiece(ShowNat(id), '_');
    ParseShow(id);
  }

  const ModalPrefix := "reprovar_modal_"

  /** `reprovar_modal_${id}`, the custom id of the rejection modal. */
  function ModalId(idText: string): (r: string)
    ensures StartsWith(r, ModalPrefix) && r[|ModalPrefix|..] == idText
    ensures '_' !in idText ==> Split(r, '_') == ["reprovar", "modal", idText]
  {
    var r := ModalPrefix + idText;
    if '_' in idText then r
    else
      assert r == "reprovar" + ['_'] + ("modal" + ['_'] + idText);
      SplitAfterPiece("reprovar", '_', "modal" + ['_'] + idText);
      SplitAfterPiece("modal", '_', idText);
      SplitOfPiece(idText, '_');
      r
  }

  /** The form id a modal submission names: the third `_`-piece, once the prefix is checked. */
  function ParseModalId(customId: string): (id: Option<string>)
    ensures id.Some? <==> StartsWith(customId, ModalPrefix)
    ensures id.Some? ==> id.value == Split(customId[|ModalPrefix|..], '_')[0]
    ensures id.Some? ==> '_' !in id.value
  {
    if !StartsWith(customId, ModalPrefix) then None
    else
      var rest := customId[|ModalPrefix|..];
      assert customId == "reprovar" + ['_'] + ("modal" + ['_'] + rest);
      SplitAfterPiece("reprovar", '_', "modal" + ['_'] + rest);
      SplitAfterPiece("modal", '_', rest);
      Some(Split(customId, '_')[2])
  }

  /** A modal built for an `_`-free id text is handled and yields that text back. */
  lemma ModalIdRoundTrip(idText: string)
    requires '_' !in idText
    ensures ParseModalId(ModalId(idText)) == Some(idText)
  {
    assert ModalId(idText)[|ModalPrefix|..] == idText;
    SplitOfPiece(idText, '_');
  }

  /** The reject button of form `id` opens a modal whose submission names form `id` again. */
  lemma RejectButtonReachesForm(id: nat)
    ensures var press := ParseButtonId(ButtonId("reprovar", id));
      && press.action == "reprovar" && press.id.Some?
      && ParseModalId(ModalId(press.id.value)).Some?
      && ParseKey(ParseModalId(ModalId(press.id.value)).value) == Some(id)
  {
    ButtonIdRoundTrip("reprovar", id);
    NonDigitNotInShowNat(id, '_');
    ModalIdRoundTrip(ShowNat(id));
  }

  /** `s.length > n ? s.substring(0, n) + '...' : s`. */
  function Truncate(s: string, n: nat): (r: string)
    ensures |r| <= n + 3
    ensures |s| <= n ==> r == s
    ensures |s| > n ==> |r| == n + 3 && r[..n] == s[..n] && r[n..] == "..."
  {
    if |s| > n then s[..n] + "..." else s
  }

  /** Truncating twice at the same length is truncating once. */
  lemma TruncateIdempotent(s: string, n: nat)
    ensures Truncate(Truncate(s, n), n) == Truncate(s, n)
  {
    if |s| > n {
      assert Truncate(s, n)[..n] == s[..n];
    }
  }

  const PreviewLength := 300
  const ReasonPreviewLength := 500
  const ReviewLength := 2000

  /** The parts of a form's embed this model keeps: the texts shown and the buttons attached. */
  datatype Card = Card(form: Form, experience: string, reason: string, buttons: seq<string>)

  /** `sendFormEmbed`: previews of the experience and the reason, and three buttons on a pending form. */
  function FormCard(f: Form, withButtons: bool): (c: Card)
    ensures c.form == f
    ensures c.experience == Truncate(f.experiencia, PreviewLength) && |c.experience| <= PreviewLength + 3
    ensures c.reason == Truncate(f.motivoReprova, ReasonPreviewLength) && |c.reason| <= ReasonPreviewLength + 3
    ensures c.buttons != [] <==> withButtons && f.status == Pendente
    ensures c.buttons != [] ==>
      c.buttons == [ButtonId("aprovar", f.id), ButtonId("reprovar", f.id), ButtonId("ver", f.id)]
  {
    var buttons := if withButtons && f.status == Pendente then
      [ButtonId("aprovar", f.id), ButtonId("reprovar", f.id), ButtonId("ver", f.id)]
    else [];
    Card(f, Truncate(f.experiencia, PreviewLength), Truncate(f.motivoReprova, ReasonPreviewLength), buttons)
  }

  /** The `revisar` embed: a longer experience, the whole reason, and two buttons on a pending form. */
  function ReviewCard(f: Form): (c: Card)
    ensures c.form == f
    ensures c.experience == Truncate(f.experiencia, ReviewLength) && |c.experience| <= ReviewLength + 3
    ensures c.reason == f.motivoReprova
    ensures c.buttons != [] <==> f.status == Pendente
    ensures c.buttons != [] ==> c.buttons == [ButtonId("aprovar", f.id), ButtonId("reprovar", f.id)]
  {
    var buttons := if f.status == Pendente then [ButtonId("aprovar", f.id), ButtonId("reprovar", f.id)] else [];
    Card(f, Truncate(f.experiencia, ReviewLength), f.motivoReprova, buttons)
  }

  /** Every button on a card names the card's own form, so a press acts on the form shown. */
  lemma CardButtonsNameTheForm(c: Card)
    requires c.form.id >= 0
    requires c == FormCard(c.form, true) || c == ReviewCard(c.form)
    ensures forall b :: b in c.buttons ==>
      var press := ParseButtonId(b);
      press.id.Some? && ParseKey(press.id.value) == Some(c.form.id)
      && press.action in {"aprovar", "reprovar", "ver"}
  {
    ButtonIdRoundTrip("aprovar", c.form.id);
    ButtonIdRoundTrip("reprovar", c.form.id);
    ButtonIdRoundTrip("ver", c.form.id);
  }
}
