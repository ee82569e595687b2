# Taskmaster core in Dafny

A model of the logic at the heart of the Taskmaster Discord bot, with proofs
about it. Each part of the model has the same form as the code it models. A
file the code updates in place is a class whose fields its methods change.
A computation that only produces a value is a function, with lemmas that
relate it to the other functions.

- **Strawpoll** (`duration.dfy`, `polls.dfy`, `strawpoll.dfy`). This is the
  button-vote poll engine:
  - the duration token parser;
  - the poll file (`polls.json`) as a class `PollStore` over a map from poll
    id to record, with lookup and upsert;
  - creation of a poll record, with a zero count under every option index;
  - the one-ballot-per-voter `collect` handler;
  - the `vote_<index>_<pollId>` button id and its decoding, which rejoins the
    tail because poll ids contain `_`;
  - the results view, and the choice between editing the results message
    and posting a new one;
  - the choice of polls to resume at start-up.

  The component collector is a class `Collector` with an `open` flag, which
  `Close` clears. The central invariant is that the counts sum to the number
  of voters and that no voter is listed twice. Every handler preserves it.
- **Tunnel supplies** (`js_values.dfy`, `tunnels.dfy`, `tunnel_commands.dfy`).
  This covers:
  - the tunnel table (`tunnels.json`) as a class `TunnelFile`, with the add,
    edit, set-amount, clear and hourly-update commands;
  - the two status renderings: the view command and the periodic post;
  - the `imageLink` configuration update.

  The field values keep their JavaScript types: a string, a number, or
  `null`. `parseInt`, truthiness and `v <= 0` are modelled as the language
  defines them.
- **Ticket log edits** (`tickets.dfy`). The join handler rebuilds the
  "Officers in ticket" field. The close handler filters the fields, appends
  the "Closed by" and "Reason" fields, and writes the Recruitment content.
- **Button routing** (`buttons.dfy`). This covers the role permission
  predicate, the `split('_')` dispatch, and the close-modal id format and
  its parse.
- **Message logger** (`logger.dfy`). This covers the skip conditions of the
  delete and edit events and the fallback texts.

`wrappers.dfy` holds `Option` and `Result`. `strings.dfy` holds JavaScript's
`split`, `join`, `startsWith`, `substring` and `String(n)`, with their round
trips.

Discord, the file system and the clock are not modelled as such:

- Every fetch, edit or send the logic depends on becomes a parameter: a
  `found` set, a `ResultsChannel` record, a `logChannelFound` flag, an
  already fetched `Option`.
- The current time is a parameter `now`.
- The depletion timestamp of a tunnel row is a parameter `depletes`.

## Model

| member | source | states |
|---|---|---|
| Duration.Multiplier | commands/strawpoll.js:105-106 | a unit is in the multiplier table exactly when its multiplier is positive |
| Duration.Parse | commands/strawpoll.js:99-107 | a value is returned exactly for tokens matching `^(\d+)([hmd])$`; any other token yields null |
| Duration.ParseOfFormatted | commands/strawpoll.js:103-106 | a decimal count followed by a unit parses to the count times the unit's multiplier |
| Duration.ParseUnits | commands/strawpoll.js:105 | `<n>h`, `<n>m` and `<n>d` parse to n·3600000, n·60000 and n·86400000 |
| Duration.ParseZeroIffZeroDigits | commands/strawpoll.js:268-269 | a matching token parses to 0 (which creation rejects through `!duration`) exactly when all its digits are zeros |
| Duration.PositiveIsAtLeastAMinute | commands/strawpoll.js:105-106 | a positive duration is at least one minute |
| Duration.RejectedTokens | commands/strawpoll.js:100-101 | empty, unit-only, digit-only, upper-case, unknown-unit, fractional, signed and padded tokens are rejected |
| Polls.IndexKey | commands/strawpoll.js:294-296 | the key of option index i is a non-empty decimal string that holds no `_` and no newline |
| Polls.KeptOptions | commands/strawpoll.js:261-265 | only non-empty options are kept, in order: option1, option2, then option3 only when it is given; at most three |
| Polls.PollId | commands/strawpoll.js:276 | the poll id `<userId>_<now>` always contains `_` |
| Polls.InitialVotes | commands/strawpoll.js:294-296 | the loop leaves a count of 0 under every option index key and no other key |
| Polls.NewPoll | commands/strawpoll.js:267-296 | rejection exactly when the duration does not parse or parses to 0; otherwise the kept options, zero counts exactly under the index keys, no voters, a positive duration, startedAt = now and endTime = now + duration |
| Polls.TotalIncrement | commands/strawpoll.js:168 | adding one to a count, present or absent, adds one to the sum of all counts |
| Polls.NewPollWellFormed | commands/strawpoll.js:278-296 | a freshly built record is well formed: its counts sum to the empty voter list's length, and its keys are the option indices |
| Polls.ApplyVote | commands/strawpoll.js:168-169 | the voter is appended once; the count under the key rises by one from the old count, or from 0 when it is missing; no other count and no other field changes |
| Polls.ApplyVoteConsistent | commands/strawpoll.js:360-362 | a new voter's ballot keeps the voter list free of duplicates and the sum of the counts equal to the number of voters |
| Polls.ApplyVoteWellFormed | commands/strawpoll.js:168-169 | a ballot for one of the poll's own options keeps its keys, duration and deadline |
| Polls.ParseVoteId | commands/strawpoll.js:334-335 | the decoded prefix never contains `_` |
| Polls.ParseVoteIdRoundTrip | commands/strawpoll.js:334-335 | decoding the id `vote_<index>_<pollId>` built at line 302 gives prefix `vote`, the same index key and the same poll id, whatever `_` the poll id holds |
| Polls.ParseVoteIdPrefix | commands/strawpoll.js:337-342 | an id whose first part is not `vote` decodes to that part as prefix, so it is rejected |
| Polls.CastVote | commands/strawpoll.js:334-362 | every outcome of a press: a non-`vote` id is an invalid button, an unknown poll id is not found, a listed voter has already voted, and in every other case the ballot is applied under the decoded option key |
| Polls.PressCountsForItsOption | commands/strawpoll.js:334-361 | a new voter pressing button i of a stored, well formed poll is accepted: option i's count rises by one, every other count and the key set stay, and the voter is appended |
| Polls.VoteId | commands/strawpoll.js:302 | every vote button id starts with `vote_` (its decoding is stated by `Polls.ParseVoteIdRoundTrip`) |
| Polls.AfterVote | commands/strawpoll.js:360-362 | a refused press leaves the store as it was; an accepted one stores the updated record under its own id and leaves every other record unchanged |
| Polls.CastVoteKeepsStoreConsistent | commands/strawpoll.js:360-362 | after any press, every stored record is still under its own id and keeps one ballot per voter |
| Polls.SecondVoteRefused | commands/strawpoll.js:353-358 | once a voter's ballot is in, any later press of theirs on that poll is refused as already voted |
| Polls.RefusedVoteChangesNothing | commands/strawpoll.js:337-358 | a refused press, whether a foreign button, an unknown poll or a repeat voter, leaves the poll file unchanged |
| Polls.VoteButtons | commands/strawpoll.js:300-305 | one button per option, in order: button i has the id `vote_<i>_<pollId>`, option i cut to 80 characters as its label, and the requested disabled state |
| Polls.RenderPoll | commands/strawpoll.js:300-310 | the poll message's title starts with the chart emoji and it has one live (not disabled) button per option, button i carrying option i's vote id |
| Polls.OwnButtonsHitExistingCounts | commands/strawpoll.js:360 | every button of a well formed poll decodes to that poll and to a key its votes already hold, so `votes[optionIndex]++` never meets a missing key; button i decodes to option i's own key |
| Polls.DeadlineSeconds | commands/strawpoll.js:310 | the shown deadline is the whole second sec with sec·1000 <= endTime < sec·1000 + 1000 |
| Polls.ResultLines | commands/strawpoll.js:59-61 | one line per option in stored order, each with the option's count, or 0 when the count is missing |
| Polls.ResultsDescriptionLines | commands/strawpoll.js:59-61 | splitting the newline-joined description gives back exactly those lines |
| Polls.ResultsDescription | commands/strawpoll.js:59-61 | no contract of its own; its lines are stated by `Polls.ResultsDescriptionLines` |
| Polls.RenderResults | commands/strawpoll.js:63-67 | no contract of its own; `Polls.DecidePublication` states that every published view is this rendering |
| Polls.DecidePublication | commands/strawpoll.js:69-90 | the stored results message is edited exactly when there is one and the edit works; otherwise a new message is posted exactly when sending works; nothing happens when the guild or channel is missing |
| Polls.Republished | commands/strawpoll.js:86-89 | a publication changes only the record's resultsMessageId |
| Polls.PostedThenEditedInPlace | commands/strawpoll.js:69-73 | after a new results message is posted and its id recorded, the next publication edits that message |
| Polls.Reattachable | commands/strawpoll.js:114-134 | exactly the polls with endTime > now whose guild, channel and message are found are resumed, each for endTime - now > 0 |
| Polls.ResumedUntilDeadline | commands/strawpoll.js:116-134 | a well formed poll is resumed exactly until startedAt + duration, with at most its whole duration left |
| Polls.VotesKeepResumedPolls | commands/strawpoll.js:168-170 | a vote never changes which polls are resumed, or for how long |
| Polls.RepublishKeepsResumedPolls | commands/strawpoll.js:78-89 | recording a results message id never changes which polls are resumed |
| Strawpoll.PollStore.constructor | commands/strawpoll.js:10-12 | the poll file starts as `{}` |
| Strawpoll.PollStore.Load | commands/strawpoll.js:39-42 | the stored record of an id, or null when the id is unknown |
| Strawpoll.PollStore.Save | commands/strawpoll.js:29-37 | an upsert under the record's poll id; every other id keeps its record |
| Strawpoll.PollStore.Publish | commands/strawpoll.js:45-96 | the publication decided for the record; the record is saved with its new results message id only when a message was posted |
| Strawpoll.PollStore.Launch | commands/strawpoll.js:298-324 | the record is saved with the reply's message id and then with any new results message id; it stays well formed |
| Strawpoll.PollStore.Create | commands/strawpoll.js:251-324 | refused without the Send Messages permission or with a zero or malformed duration, and then the file is unchanged; otherwise the new well formed record is stored under its id, with the request's question, channel, guild and kept options, zero counts, no voters, the parsed duration, the reply id and the results message id of its first publication |
| Strawpoll.PollStore.Vote | commands/strawpoll.js:332-364 | the outcome of the collect handler applied to the stored file; an accepted ballot is saved and published; a refused one changes nothing |
| Strawpoll.PollStore.Finish | commands/strawpoll.js:382-397 | an unknown poll does nothing; otherwise the buttons are rebuilt disabled, and the final results are published only when the poll message was edited |
| Strawpoll.PollStore.Reattach | commands/strawpoll.js:110-134 | the loop over the poll file yields exactly the resumable polls and their remaining times |
| Strawpoll.Collector.constructor | commands/strawpoll.js:327-330 | a new collector is open on its poll |
| Strawpoll.Collector.Collect | commands/strawpoll.js:332-380 | an open collector passes a press to the vote handler; a closed one ignores it and changes nothing |
| Strawpoll.Collector.Close | commands/strawpoll.js:382-402 | closing leaves the collector closed; the end handler runs only on the first close |
| Strawpoll.PressAfterClose | commands/strawpoll.js:327-330 | after the collector's time is up, no press reaches the vote handler |
| Strawpoll.VoteThenRestart | commands/strawpoll.js:110-134 | a restart after a vote resumes the same polls with the same remaining times as one before it |
| JsValues.ParseIntOfIntToString | utils/handlers/hourlyUpdateHandler.js:22-23 | `parseInt(String(n))` gives back n, with or without a radix |
| JsValues.LessEqZeroOfDecimal | commands/updateMsupps.js:41 | for a decimal integer string, `v <= 0` holds exactly when the integer is at most 0 |
| Tunnels.ParseFieldIsParseInt | utils/handlers/hourlyUpdateHandler.js:22-23 | reading a field with `parseInt` reads a stored number back as itself, and null as NaN |
| Tunnels.Max0 | utils/handlers/hourlyUpdateHandler.js:28 | `Math.max(0, x)` |
| Tunnels.Deplete | utils/handlers/hourlyUpdateHandler.js:27-28 | no contract of its own; what one update does is stated by `Tunnels.DepleteRule` |
| Tunnels.DepleteRule | utils/handlers/hourlyUpdateHandler.js:22-31 | one update keeps the rate; it leaves a row with an unparsable field unchanged; otherwise the amount becomes the non-negative number max(0, amount - rate) |
| Tunnels.DepleteHoursAmount | utils/handlers/hourlyUpdateHandler.js:27-28 | k hourly updates of a row with usable data and a rate that is not negative take max(0, amount - k·rate) and change nothing else |
| Tunnels.ExhaustedIsOutOfSupply | utils/handlers/hourlyUpdateHandler.js:70-76 | with a rate that is not negative, once k·rate reaches the amount the row is reported out of supply |
| Tunnels.OutOfSupply | utils/handlers/hourlyUpdateHandler.js:70 | no contract of its own; used by `Tunnels.StatusText` and `Tunnels.ExhaustedIsOutOfSupply` |
| Tunnels.StatusText | utils/handlers/hourlyUpdateHandler.js:70-87 | a row with a falsy amount, a falsy rate or a rate <= 0 shows the out-of-supply text; any other row shows its own amount and then its own rate |
| Tunnels.NewTunnelShowsAmount | commands/addTunnel.js:35-38 | a tunnel just added with a positive rate is not reported out of supply; it shows amount 0 and its rate |
| Tunnels.NewTunnelOutAfterAnHour | utils/handlers/hourlyUpdateHandler.js:27-28 | with a decimal rate that is not negative, after the first update a new tunnel holds the number 0 and is reported out of supply |
| Tunnels.DecimalRateUnusable | commands/updateMsupps.js:40-43 | a decimal rate is refused exactly when it is not positive |
| Tunnels.AmountValue | commands/updateMsupps.js:24 | the stored amount is a number, or null for NaN |
| Tunnels.AmountValueOfDecimal | commands/updateMsupps.js:24 | a decimal amount is stored as that number |
| TunnelCommands.TunnelFile.constructor | commands/addTunnel.js:25-29 | before any command the file is missing, which every command reads as an empty table |
| TunnelCommands.TunnelFile.Add | commands/addTunnel.js:24-40 | an existing name is refused and nothing changes; otherwise exactly that key is added, with currentAmount "0", every other tunnel is kept, and the file exists |
| TunnelCommands.TunnelFile.Edit | commands/editTunnel.js:29-39 | an unknown name is refused; otherwise only that tunnel's rate changes, and its amount, the other tunnels and the key set are kept |
| TunnelCommands.TunnelFile.SetAmount | commands/updateMsupps.js:24-51 | an unknown tunnel, and a tunnel with a falsy or non-positive rate, are refused unchanged; otherwise only that tunnel's amount becomes the base-10 parse of the input |
| TunnelCommands.TunnelFile.Clear | commands/clearTunnel.js:12 | the file holds the empty table |
| TunnelCommands.TunnelFile.StartsUpdater | bot.js:34 | no contract of its own; `TunnelCommands.ClearSilencesUpdates` uses it |
| TunnelCommands.TunnelFile.HourlyUpdate | utils/handlers/hourlyUpdateHandler.js:10-44 | nothing is written without a file; otherwise every row is depleted once, with the key set and key order kept |
| TunnelCommands.TunnelFile.StatusFields | commands/msuppView.js:33-54 | one field per tunnel, in key order, named by the tunnel, holding its status text |
| TunnelCommands.TunnelFile.PeriodicPost | utils/handlers/hourlyUpdateHandler.js:46-88 | no post without a file or with an empty table; otherwise the status embed with one classified field per tunnel in key order |
| TunnelCommands.TunnelFile.View | commands/msuppView.js:11-56 | the missing-file and no-data replies; otherwise one field per tunnel in key order, with the out-of-supply text or its own amount and rate, under the configured image |
| TunnelCommands.Depleted | utils/handlers/hourlyUpdateHandler.js:20-34 | the update adds and removes no tunnel |
| TunnelCommands.DepletedTable | utils/handlers/hourlyUpdateHandler.js:20-36 | after the update every rate is kept, unusable rows are unchanged and no usable row has a negative amount |
| TunnelCommands.ImageConfig.constructor | commands/msuppEditImage.js:23-24 | the configuration as read from its file |
| TunnelCommands.ImageConfig.SetImageLink | commands/msuppEditImage.js:18-28 | a missing file is reported and nothing is written; otherwise only `imageLink` changes |
| TunnelCommands.WithImageLink | commands/msuppEditImage.js:26 | `imageLink` is the new link and every other key keeps its value |
| TunnelCommands.SetImageLinkIdempotent | commands/msuppEditImage.js:26-28 | setting the same link twice is setting it once |
| TunnelCommands.ClearSilencesUpdates | bot.js:30-42 | after clearing, no status is posted, start-up starts no hourly updater, and clearing again leaves the empty table |
| TunnelCommands.ViewMatchesPost | commands/msuppView.js:20-56 | viewing and posting modify nothing; the view shows the status exactly when the periodic post is sent, with the same fields |
| Buttons.RequiredRoles | utils/handlers/buttonHandler.js:15 | no roles when the variable is unset or empty; otherwise parts that hold no comma and join back with commas to its value |
| Buttons.AnyHeld | utils/handlers/buttonHandler.js:17 | true exactly when the member holds some listed role |
| Buttons.HasPermission | utils/handlers/buttonHandler.js:15-17 | permission holds exactly when the role list is empty or the member holds a listed role |
| Buttons.UnsetRolesPermitAll | utils/handlers/buttonHandler.js:15-17 | with no configured roles everyone is permitted |
| Buttons.ConfiguredRoles | utils/handlers/buttonHandler.js:15-17 | with a comma-joined list of roles configured, permission holds exactly when the member holds one of them |
| Buttons.TicketParts | utils/handlers/buttonHandler.js:20 | `ticket_<action>_<id>` splits into its three parts |
| Buttons.ModalId | utils/handlers/buttonHandler.js:48 | the close modal's id starts with `ticket_close_modal_`, the prefix the modal dispatcher tests |
| Buttons.Route | utils/handlers/buttonHandler.js:20-83 | a join or a close modal is dispatched only with permission, a denial happens only without it, and a close modal's id carries the `ticket_close_modal_` prefix |
| Buttons.RouteJoin | utils/handlers/buttonHandler.js:20-36 | `ticket_join_<id>` dispatches a join for `<id>` when permitted, and is denied otherwise |
| Buttons.RouteClose | utils/handlers/buttonHandler.js:38-49 | `ticket_close_<id>` opens the modal `ticket_close_modal_<id>` when permitted, and is denied otherwise |
| Buttons.RouteOtherTicketAction | utils/handlers/buttonHandler.js:64-83 | another ticket action falls through to the exact-id switch and does nothing |
| Buttons.ExactIdsOnly | utils/handlers/buttonHandler.js:71-83 | only the exact ids `start_ally_verification` and `start_recruitment` start their flows |
| Buttons.ParseModal | utils/handlers/buttonHandler.js:98-99 | a modal submission is handled exactly when its id starts with `ticket_close_modal_` |
| Buttons.ModalRoundTrip | utils/handlers/buttonHandler.js:98-99 | parsing the modal id built at line 48 gives back the identifier whenever it holds no `_` |
| Buttons.ModalTruncates | utils/handlers/buttonHandler.js:99 | an identifier holding `_` comes back cut at its first `_` |
| Tickets.Mention | utils/handlers/ticketJoinHandler.js:63 | a mention is never the placeholder, and is one line for a one-line id |
| Tickets.FirstNamed | utils/handlers/ticketJoinHandler.js:56 | the index of the first field with the name, or the length when there is none |
| Tickets.Find | utils/handlers/ticketJoinHandler.js:56 | the first field with the name, or none exactly when no field has it |
| Tickets.StaffList | utils/handlers/ticketJoinHandler.js:56-61 | the officers value split on newlines; empty when the field is absent or the placeholder is among the parts |
| Tickets.JoinedStaff | utils/handlers/ticketJoinHandler.js:63-65 | the old staff are kept in order, and the mention is appended at the end only if absent |
| Tickets.CollectStaff | utils/handlers/ticketJoinHandler.js:56-65 | the reassign-and-push steps compute the joined staff list |
| Tickets.ReplaceOfficers | utils/handlers/ticketJoinHandler.js:67-74 | every officers field is rebuilt with the new value; every other field keeps its value and position |
| Tickets.JoinTicket | utils/handlers/ticketJoinHandler.js:10-78 | a thread that is not private, a missing log channel, a missing log message and a message without an embed are each refused; otherwise the rebuilt fields |
| Tickets.JoinWithoutOfficersField | utils/handlers/ticketJoinHandler.js:69-73 | without an officers field, a join changes no field |
| Tickets.JoinedValueLists | utils/handlers/ticketJoinHandler.js:71 | after a join the officers value is never the placeholder, and it splits back into the staff list |
| Tickets.FindReplaced | utils/handlers/ticketJoinHandler.js:67-74 | after the rebuild, the first officers field carries the new value |
| Tickets.JoinIdempotent | utils/handlers/ticketJoinHandler.js:63-74 | joining twice gives the same fields as joining once |
| Tickets.RemoveOfficers | utils/handlers/ticketCloseHandler.js:43-44 | no officers field remains; every other field is kept; the length drops by the number of officers fields |
| Tickets.RemoveOfficersAppend | utils/handlers/ticketCloseHandler.js:44 | the filter keeps the original order |
| Tickets.ReasonText | utils/handlers/ticketCloseHandler.js:52 | an empty reason becomes "No reason provided"; any other is kept |
| Tickets.ClosedFields | utils/handlers/ticketCloseHandler.js:43-54 | the filtered fields, then "Closed by" with the closer's mention, then "Reason"; the count is the original count minus the officers fields plus 2 |
| Tickets.TicketType | utils/handlers/ticketCloseHandler.js:38-39 | no contract of its own; its fallback is stated by `Tickets.LookupDefaults` |
| Tickets.Creator | utils/handlers/ticketCloseHandler.js:37-40 | no contract of its own; its fallback is stated by `Tickets.LookupDefaults` |
| Tickets.LookupDefaults | utils/handlers/ticketCloseHandler.js:37-40 | the type and creator are the first matching field's value, or "Unknown Type" and "Unknown User" when no field matches |
| Tickets.CloseContent | utils/handlers/ticketCloseHandler.js:66-82 | content is set exactly for the Recruitment type, and it starts with `Created by: <creator> <t:` |
| Tickets.Close | utils/handlers/ticketCloseHandler.js:11-82 | a missing log message, a missing permission (by the split role list) and a missing embed are each refused; otherwise "Ticket Closed" with the closed fields and content |
| Tickets.CloseAsWritten | utils/handlers/ticketCloseHandler.js:5-9 | as written, the handler throws before any edit |
| Tickets.CloseAsWrittenNeverCloses | utils/handlers/ticketCloseHandler.js:9 | on a permitted close of a log message with an embed, the corrected handler closes and the handler as written does not |
| Logger.ContentText | utils/logger.js:23 | empty content renders as `*No text content*`; any other content as itself |
| Logger.DeleteLog | utils/logger.js:11-31 | a delete is logged exactly when it is not partial, is in a guild, is in a channel that is not ignored, is by a user who is not ignored, and the log channel is found; the entry shows the content or its fallback, the channel and the author |
| Logger.EditLog | utils/logger.js:34-57 | an edit is logged exactly when neither side is partial, it is in a guild, the content changed, the channel and author are not ignored and the log channel is found; Before, After and Channel fields |
| Logger.EditLogShowsAChange | utils/logger.js:35-48 | a logged edit shows two different texts, unless a side holds the placeholder text itself |
| Logger.FooterText | utils/logger.js:27 | no contract of its own; its fallback is stated by `Logger.FooterFallback` |
| Logger.FooterFallback | utils/logger.js:27 | a missing or empty author tag renders as "Unknown User" |
| Logger.IgnoredUserNeverLogged | utils/logger.js:15 | an ignored user's deletes and edits are never logged |

## Left out

- Discord I/O: replies, the reply texts, embed timestamps and avatars, thread archiving and locking, and the mention message of the join handler. Each fetch or edit the logic depends on is an input; others are dropped.
- File-system details: JSON parse and write errors, the `require.cache` reload, and the file creation at start-up, which is modelled only as the initial `{}`.
- Concurrency: each handler is one sequential step. The load, await and save interleaving in the vote handler is not modelled.
- Timers: `setInterval` in the hourly handler and the collector's `time` option. The collector is an `open` flag that `Strawpoll.Collector.Close` clears.
- The recovery loop's immediate results refresh (commands/strawpoll.js:213) is not a step of `Strawpoll.PollStore.Reattach`. Callers publish each resumed poll with `Strawpoll.PollStore.Publish`.
- Strawpoll.PollStore.Create: the three `Date.now()` reads are one `now`; the pollId and the deadline use the same instant.
- Polls.ApplyVote: it follows line 168, `(votes[k] || 0) + 1`. Line 360, `votes[k]++`, differs only for a key not in `votes`, where it stores NaN. `Polls.OwnButtonsHitExistingCounts` shows that the poll's own buttons never do this.
- TunnelCommands.TunnelFile.StatusFields: the depletion timestamp is the parameter `depletes`. It comes from floating-point arithmetic (`currentAmount / hourRate * 3600000`) on the clock, which is not modelled.
- TunnelCommands.TunnelFile.View: the image link is a parameter. It is read once through a cached `require` of `imageLink.json`, so an edit shows only after a restart.
- TunnelCommands.TunnelFile.Add: the existence check `tunnels[name]` is modelled as key membership. Inherited names such as `constructor` are not modelled.
- Tunnel key order: this is insertion order. JavaScript lists integer-like keys first; that ordering is not modelled.
- Numbers: integers are unbounded. Values above 2^53, and fractional amounts written by hand into the file, are not modelled.
- bot.js:34 also requires `tunnelsData.trim()`. Text that parses as JSON is never blank, so this test adds nothing to `StartsUpdater`.
- Strings.Truncate: JavaScript's `substring` counts UTF-16 code units, and the model counts Unicode scalar values. The two differ only for text with characters outside the Basic Multilingual Plane, such as emoji, which count as two units in JavaScript.
- Logger: an event with a null author throws at utils/logger.js:15 and 38. This is not modelled.
- Ticket close: once the log message is edited, the thread is locked and archived. This is left out as I/O.

## Findings

| source | as written | input that shows it | evidently intended | confidence | as-written member | corrected member |
|---|---|---|---|---|---|---|
| utils/handlers/ticketCloseHandler.js:5-9 | `process.env.requiredRoles.some(...)`, called on the raw variable, a string or undefined, neither of which has `some`, so every close throws | `requiredRoles = "42"`, a member holding role 42, a log message whose embed has no fields | split the variable on `,` and allow everyone when it is empty, as utils/handlers/buttonHandler.js:15-17 does | not executed | Tickets.CloseAsWritten (Tickets.CloseAsWrittenNeverCloses) | Tickets.Close |
