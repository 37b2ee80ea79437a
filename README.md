# CidadeAltaWL whitelist workflow, modelled in Dafny

CidadeAltaWL runs the whitelist of a Roblox roleplay server. Applicants log in with
Discord and send a form (Roblox nick, age, roleplay experience). Administrators then
approve or reject it, either from the web dashboard (`server.js`) or from a Discord
bot (`bot.js`: slash commands, buttons and a rejection modal). Both programs share
one SQLite table, `formularios`.

This project models that table and the handlers that read and write it:

- `formularios.dfy` holds the table. It has:
  - one `Form` per row;
  - the `discord_id UNIQUE` and AUTOINCREMENT invariant;
  - a class `Table` whose methods are the SQL statements the handlers issue;
  - a pure function beside each write that states the table it leaves.
- `submission.dfy` covers POST `/form`: the field checks, then insert, refuse or resubmit, depending on the applicant's existing row.
- `decision.dfy` covers POST `/admin/action`, the dashboard's approve and reject.
- `queries.dfy` covers GET `/admin/forms`, which filters, orders newest first and limits, and GET `/admin/stats`, which counts per status.
- `bot_text.dfy` covers the bot's pure text handling:
  - the `ADMIN_IDS` list;
  - the `<action>_<id>` button ids and the `reprovar_modal_<id>` modal id, as built and as parsed with `split`;
  - the truncation of long texts;
  - the buttons attached to an embed.
- `bot.dfy` covers the bot's handlers for slash commands, buttons and modal submissions, and the loop that totals the stats.
- `js_strings.dfy` and `wrappers.dfy` hold the JavaScript string operations the code relies on (`split`, `trim`, `startsWith`, decimal ids) and Option/Result.

The clock (`CURRENT_TIMESTAMP`) is a `now` parameter of every writing operation.
The outcome of the bot's direct message to the applicant is the `dmDelivered`
parameter. It only shows in the bot's reply, and the table after a handler does
not depend on it. The SQL statements are the methods of `Table`. Each
state-changing handler (`Submit`, `Decide`, `Approve`, `Reject`, `HandleCommand`,
`HandleButton`, `HandleModalSubmit`) is a module-level method that takes the
`Table` and calls those statements. Its `ensures` equates the reply and the new
table with a pure specification function of the old table. The properties the code promises are stated on those functions.

Some of the code's behaviour is easy to misread. The model follows the code on each point:

- The dashboard stores `motivo || ''` on approve as well as on reject. An approval sent with a reason keeps that reason; one sent without a reason clears it.
- A dashboard decision on an id that does not exist succeeds and reports 0 changed rows. It is not an error.
- The dashboard sends no direct message. Only the bot does.
- The bot's modal submission is not checked against the admin list.
- The bot's reason minimum is 5 characters on the slash command and 10 in the modal. Both count the reason untrimmed; the dashboard counts it trimmed.
- The bot's approve writes only the status. A previous rejection reason stays in the row.

## Model

| member | source | states |
|---|---|---|
| `Formularios.Table.constructor` | server.js:15-28 | The table starts empty and satisfies the store invariant. |
| `Formularios.FindByDiscordId` | server.js:192-195 | A row is found exactly when some row has that `discord_id`, and the row found is that applicant's row of the table. |
| `Formularios.AddKeepsInvariant` | server.js:17-18 | Adding a new applicant's row under the next AUTOINCREMENT id keeps keys equal to ids and `discord_id` unique, and the new id exceeds every existing key. |
| `Formularios.Inserted` | server.js:245-248 | The INSERT fails exactly when the `discord_id` already has a row, and then changes nothing. Otherwise it adds exactly one row under the next id, larger than all others. That row holds the given `discord_id`, name, avatar and content, `pendente`, an empty reason, and `now` as both timestamps. Every existing row is unchanged. |
| `Formularios.Lookup` | bot.js:405 | `SELECT * WHERE id = ?` selects a row exactly when a key is given and names a row, and then selects that row. |
| `Formularios.WithResubmission` | server.js:216-225 | The UPDATE by `discord_id` overwrites the three content fields of that applicant's rows, sets them to `pendente` with an empty reason, keeps their id, name, avatar and creation time, and leaves every other row as it was. |
| `Formularios.WithDecision` | server.js:352-354 | The UPDATE by id sets the target row's status, reason and update time, keeps its submission, and leaves every other row and the key set unchanged. |
| `Formularios.WithStatus` | bot.js:468 | The bot's UPDATE by id sets only the status and update time of the target row and keeps its reason. |
| `Formularios.Changes` | server.js:365 | `this.changes` is 1 exactly when the id names a row, and 0 otherwise. |
| `Formularios.UpdateKeepsInvariant` | server.js:17-18 | An update that keeps every row's id and `discord_id` keeps the store invariant. |
| `Formularios.DecisionKeepsWellFormed` | server.js:344-354 | A decision that is not `pendente`, and that carries a reason of at least 5 characters when it is a rejection, keeps every row well formed. |
| `Formularios.ApprovalKeepsWellFormed` | bot.js:468 | Approving without touching the reason keeps every row well formed. |
| `Formularios.Table.SelectById` | bot.js:405 | `SELECT * WHERE id = ?` returns the row under that key, if any. |
| `Formularios.Table.SelectByDiscordId` | server.js:192-195 | `SELECT ... WHERE discord_id = ?` returns the applicant's row as `FindByDiscordId` specifies. |
| `Formularios.Table.Insert` | server.js:245-248 | The INSERT leaves the table and answers exactly as `Inserted` specifies, and keeps the invariant. |
| `Formularios.Table.UpdateResubmission` | server.js:216-225 | The resubmission UPDATE leaves the rows `WithResubmission` describes and keeps the invariant. |
| `Formularios.Table.UpdateDecision` | server.js:352-354 | The decision UPDATE leaves the rows `WithDecision` describes and reports `Changes`. |
| `Formularios.Table.UpdateStatus` | bot.js:610 | The status-only UPDATE leaves the rows `WithStatus` describes. |
| `JsStrings.Trim` | server.js:348 | `trim()` returns a contiguous piece of the text with no whitespace at either end, and everything cut off before and after it is whitespace. |
| `JsStrings.TrimEmptyIffBlank` | bot.js:37 | A text trims to empty exactly when every character of it is whitespace. |
| `JsStrings.StartsWith` | bot.js:682 | `startsWith(prefix)` holds exactly when the text is at least as long as the prefix and opens with it. |
| `JsStrings.Split` | bot.js:583 | `split(sep)` returns at least one piece, no piece contains the separator, and joining the pieces with the separator gives back the text. |
| `JsStrings.SplitFirstTwo` | bot.js:583 | A text holding the separator splits into two or more pieces, and the text opens with the first piece, the separator and the second piece, followed by the separator or nothing. |
| `JsStrings.SplitJoin` | bot.js:583 | Splitting the join of separator-free pieces returns exactly those pieces. |
| `JsStrings.ParseKey` | bot.js:405 | An id typed as text selects a row key exactly when it is non-empty and all digits, and that key is not negative. |
| `JsStrings.ParseShow` | bot.js:245 | The decimal text of a form id parses back to that id. |
| `Submission.Validate` | server.js:175-189 | A body is refused exactly when it is not acceptable. The checks run in the handler's order, and each error is stated both ways: "missing fields" exactly when a field is absent, empty or zero; otherwise the age error exactly when the age is outside 13 to 99; otherwise "too short" or "too long" exactly when the experience is under 100 or over 5000 characters. |
| `Submission.Resubmitted` | server.js:215-238 | A rejected applicant's row gets the new content, `pendente`, an empty reason and the new update time. It keeps its id, `discord_id`, name, avatar and creation time. No key is added, every other row is unchanged, and the invariant and well-formedness hold. |
| `Submission.Fresh` | server.js:244-265 | A first-time applicant gets exactly one new row under the next id. It holds the applicant's id, name and avatar and the content, is `pendente` with an empty reason, and has `now` as both timestamps. Every old row is unchanged. |
| `Submission.SubmitSpec` | server.js:167-270 | A refused request changes nothing. A pending or approved applicant is refused. A rejected applicant's row is reused under the same id and keeps its name, avatar and creation time. A new applicant gets a new id, with the session's name and avatar and `now` as creation time. Every accepted request leaves that applicant's row `pendente` with the submitted content, and the invariant and well-formedness are preserved. |
| `Submission.Submit` | server.js:167-270 | The handler answers and leaves the table exactly as `SubmitSpec` says. |
| `Decision.DecisionOf` | server.js:344-346 | Only `aprovado` and `reprovado` are actions, and each names its status. |
| `Decision.GivenReasonIsLong` | server.js:348 | A reason that is 5 characters long once trimmed is at least that long as stored. |
| `Decision.DecideSpec` | server.js:341-369 | An invalid action, or a rejection without a 5-character trimmed reason, is refused with no change. Otherwise only the row with that id changes, to the new status, the given reason (empty when none is given) and the new time. 1 or 0 changed rows is reported, and an unknown id changes nothing. |
| `Decision.Decided` | server.js:352-354 | After the decision UPDATE the keys and the invariant are kept, only the target row changes (status, reason, update time), and a non-pending decision with a long enough rejection reason keeps every row well formed. |
| `Decision.Decide` | server.js:341-369 | The handler answers and leaves the table exactly as `DecideSpec` says. |
| `Queries.FilterOf` | server.js:318-327 | No status, or an empty one, means `pendente`. `all` drops the filter. Any other text filters on itself. |
| `Queries.LimitOf` | server.js:319 | A missing, unparsable or zero limit means 50. A positive limit is kept. A negative one is no limit, as SQLite reads it. |
| `Queries.InsertNewestFirst` | server.js:329 | Inserting into the sorted answer adds exactly that row, a permutation. |
| `Queries.InsertKeepsOrder` | server.js:329 | Inserting keeps the answer ordered by `created_at` descending. |
| `Queries.InsertKeepsDistinct` | server.js:329 | Inserting a row whose id is new keeps ids distinct. |
| `Queries.InsertStep` | server.js:321-332 | Visiting one more key keeps the partial answer a distinct, newest-first list of exactly the matching rows already visited. |
| `Queries.TakeNewest` | server.js:329-330 | Cutting the full sorted answer at the limit yields a listing: matching rows only, no repeats, newest first, as many as the limit allows, and no omitted match newer than a kept one. |
| `Queries.ListForms` | server.js:321-332 | The query returns a listing of the table for the filter and limit. |
| `Queries.AdminForms` | server.js:317-338 | GET `/admin/forms` returns the listing for the defaulted status and limit. |
| `Queries.StatsRows` | server.js:373 | The `GROUP BY` answer has one row per status that occurs, never a zero count, with each count equal to the number of forms in that status. |
| `Queries.CountsPartition` | server.js:373 | The three per-status counts add up to the number of forms. |
| `Queries.StatsAddUp` | server.js:371-381 | The counts of the stats answer sum to the number of forms. |
| `BotText.NonBlank` | bot.js:37 | `filter(id => id.trim())` keeps exactly the entries that are not blank once trimmed, untrimmed. |
| `BotText.ParseAdmins` | bot.js:37 | No `ADMIN_IDS` means no admins. Otherwise the admins are exactly the comma-separated entries that are not blank, and none contains a comma. |
| `BotText.AdminListRoundTrip` | bot.js:37 | A comma-joined list of non-blank, comma-free ids reads back as exactly that list. |
| `BotText.IsAdmin` | bot.js:305 | `ADMINS.includes(id)` holds exactly when some entry equals the caller's id. When no entry is blank, an admin's id is not blank either. |
| `BotText.BlankIsNeverAdmin` | bot.js:305 | A caller id that is blank once trimmed is never an admin. |
| `BotText.ShowInt` | bot.js:245 | `${form.id}` never contains `_` and is the decimal text of a non-negative id. |
| `BotText.ButtonId` | bot.js:245-253 | `${action}_${form.id}` for an `_`-free action splits on `_` into exactly the action and the id text. |
| `BotText.ParseButtonId` | bot.js:583 | The action and id taken from a custom id contain no `_`. The id is missing exactly when the custom id has no `_`. Otherwise the custom id opens with the action, `_` and the id, followed by `_` or nothing, so they are its first two `_`-pieces. |
| `BotText.ButtonIdRoundTrip` | bot.js:245-255 | A button built for form `n` with an `_`-free action parses back to that action and to text that selects row `n`. |
| `BotText.ParseModalId` | bot.js:682-684 | A modal id is handled exactly when it starts with `reprovar_modal_`. It then yields the first `_`-piece after the prefix. |
| `BotText.ModalId` | bot.js:661 | `reprovar_modal_${id}` opens with the modal prefix followed by the id text, and for an `_`-free id splits into `reprovar`, `modal` and the id. |
| `BotText.ModalIdRoundTrip` | bot.js:661 | The modal built for an `_`-free id text yields that text back. |
| `BotText.RejectButtonReachesForm` | bot.js:658-684 | Pressing form `n`'s reject button opens a modal whose submission names row `n`. |
| `BotText.Truncate` | bot.js:227-229 | A text longer than N becomes its first N characters plus `...`, at most N+3 long. A shorter one is unchanged. |
| `BotText.TruncateIdempotent` | bot.js:236-238 | Truncating twice at the same length is truncating once. |
| `BotText.FormCard` | bot.js:205-258 | The form embed shows the experience truncated at 300 characters and the reason truncated at 500. It has the approve, reject and details buttons exactly when buttons are asked for and the form is pending. |
| `BotText.ReviewCard` | bot.js:424-455 | The review embed shows the experience truncated at 2000 characters and the whole reason. It has the approve and reject buttons exactly when the form is pending. |
| `BotText.CardButtonsNameTheForm` | bot.js:242-256 | Every button on a card parses back to one of the three actions and to the card's own form id. |
| `Bot.ApproveSpec` | bot.js:464-495 | Approving an unknown id answers "not found" and changes nothing. Otherwise only that row changes: `aprovado` and the new time, with its reason and submission kept. The reply is the row read back. |
| `Bot.RejectSpec` | bot.js:502-547 | A reason shorter than the minimum is refused with no change. An unknown id answers "not found" with no change. Otherwise only that row changes: `reprovado`, the reason and the new time. Well-formedness is kept when the minimum is at least 5. |
| `Bot.ReviewReply` | bot.js:401-457 | `revisar` answers "not found" exactly when the id selects no row, and otherwise the review embed of that row. |
| `Bot.PendingPageHasButtons` | bot.js:319-337 | Every form on the `pendentes` page carries its three buttons. |
| `Bot.SendCards` | bot.js:334-336 | The loop sends one embed per listed form, in order. |
| `Bot.SumTotal` | bot.js:355-363 | The `forEach` loop's total is the sum of the per-status counts. |
| `Bot.KeyOf` | bot.js:583 | A missing id selects no row. A given id text selects the key `ParseKey` reads from it, which is not negative. |
| `Bot.PressSelectsShownForm` | bot.js:583-586 | A button built for form `n`, and the modal its reject button opens, both select row `n`. |
| `Bot.HandleCommand` | bot.js:303-571 | A non-admin is refused and nothing changes. `pendentes` answers the ten newest pending forms with their buttons, and `stats` the per-status counts with a total equal to the number of forms; neither changes the table. `revisar` answers `ReviewReply`. `aprovar` and `reprovar` (minimum 5) act as `ApproveSpec` and `RejectSpec`. |
| `Bot.Approve` | bot.js:607-656 | The button's approve leaves the table and answers as `ApproveSpec`. |
| `Bot.Reject` | bot.js:502-547 | The reject path leaves the table and answers as `RejectSpec`. |
| `Bot.HandleButton` | bot.js:573-679 | A non-admin is refused with no change. `ver` shows the row, `aprovar` acts as `ApproveSpec`, `reprovar` opens the modal for the id (`undefined` when missing), and other actions are ignored. Only `aprovar` writes. |
| `Bot.HandleModalSubmit` | bot.js:681-748 | Custom ids without the modal prefix are ignored with no change. Others reject the named row as `RejectSpec` with a minimum of 10, with no admin check. |
| `Bot.RejectPathsAgree` | bot.js:511-513 | Where both accept a rejection, the bot and the dashboard leave the same table. |
| `Bot.ModalStricterThanCommand` | bot.js:689-691 | A reason of 5 to 9 characters is written by the slash command and refused by the modal. |

## Left out

- Discord gateway and REST plumbing are not modelled: client setup, command registration, presence, the legacy `!pendentes` and `!whitelist` messages, and `force-sync.js`. They are network side effects with no table logic.
- The direct message itself (`sendDMToUser`) is a call into Discord. Only its outcome is modelled, as the `dmDelivered` parameter.
- Embed layout is not modelled: colours, titles, date formatting, field order and the editing of the original message after a decision. Only the truncated texts and the attached buttons are kept.
- The `buscar` and `help` subcommands are not modelled. `buscar` relies on SQL `LIKE` matching, and `help` only prints text.
- These server parts are not modelled: OAuth login, sessions, the express middleware, static files, the 404 and error handlers, `/health`, `/api/status`, `/me`, `/form/data`, `/admin/form/:id` and the unfinished `/api/roblox/whitelist`. They are I/O and authentication mechanics. The server's `isAdmin` check is among them, so the dashboard handlers are modelled for an admin caller.
- `migrate.js`, the `updated_at` trigger and the rest of the schema set-up are not modelled.
- Store errors (the 500 answers and the bot's "error" replies) are not modelled. The model's statements always succeed.
- Callback interleaving is not modelled. Handlers run one at a time, so the race between the duplicate check and the INSERT cannot occur. `Submit` still maps an INSERT refused by `discord_id UNIQUE` to `AlreadyRegistered`. Its contract shows that branch is never taken in a sequential run.
- Ids in the bot arrive as text. SQLite's comparison of a TEXT value with the INTEGER `id` column is modelled only for plain decimal digits. Texts such as `+5`, ` 5` or `5.0` select no row in the model.
- `roblox` and `experiencia` are strings. The server does not check their type: a number passes `!experiencia`, its `.length` is `undefined`, both length comparisons are false, and the INSERT stores it as text. So a non-string `experiencia` can be stored outside 100 to 5000 characters. The model does not capture this, and its well-formedness bound holds only for string bodies.
- `idade` is an integer. JavaScript's loose comparison of a string age, and non-numeric ages, are not modelled. `parseInt` of the listing limit is likewise a given integer or none.
- Lengths are counted in characters, not UTF-16 code units.
- The modal's 10 to 1000 character limits are enforced by Discord's client. Only the handler's own check of 10 is modelled.
- `Queries.StatsRows` orders the groups by status text. SQLite does not promise the order of a `GROUP BY` without `ORDER BY`.
- `Queries.ListForms` returns one listing that satisfies `IsListing`. Rows with equal `created_at` may come in any order, as in SQLite.
