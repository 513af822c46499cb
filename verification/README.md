# Interaction response handle — Dafny model

This project models the interaction handle of a Discord bot convenience
library. An interaction (a slash command, a button click, a modal
submission) must get exactly one *initial response*. Everything sent after
it must be a *followup*. The handle keeps one flag, `responded`, behind a
per-handle mutex. It offers five operations:

- `check_permissions` compares the required permissions with the bot's
  permissions. It touches no state.
- `defer`, `autocomplete` and `modal` must be the first response. On a
  responded handle they fail with `AlreadyResponded` and make no call.
- `reply` works in both states. It sends the initial channel message on a
  fresh handle and a followup on a responded one.

Each stateful operation holds the mutex from reading the flag to setting it.
The flag is set only after the remote call succeeds. So every schedule of
concurrent callers on one handle is one sequence of atomic steps. The model
(`Protocol.Run`) executes such sequences. The remote API is an oracle: each
invocation carries the `Delivery` outcome the HTTP client reports for its
call. Every call made is recorded in a trace with that outcome.
All guarantees are about the outcomes the client reports. They are not
about what the platform recorded.

The protocol is stated twice:

- as an automaton over the trace (`Protocol.Scan`);
- directly, as predicates (`FollowupsAfterInitial`, `NoInitialAfterAccepted`,
  `AcceptedInitials`).

`ScanSound` and `ScanComplete` prove the two agree. `ProtocolHolds` then
shows that every run from a fresh handle keeps the protocol, and that the
flag records whether an initial response was reported delivered.

The two selectors of `InteractionExt` (`name`, `user`) are modelled in
`Util`.

Files: `wrappers.dfy` (Option, Result), `twilight.dfy` (the value types the
handle reads and writes, and the two remote calls), `util.dfy`,
`interaction.dfy` (the handle and its operations), `protocol.dfy`
(operation sequences and the protocol theorems).

## Model

| member | source | states |
|---|---|---|
| Util.NameOf | src/util.rs:59-66 | no data gives no name; a command gives its name; a component or modal submission gives its custom ID; any other payload gives no name |
| Util.UserOf | src/util.rs:68-74 | the top-level user wins whenever present, even with a member; otherwise the member's user; absent when there is neither |
| Util.NameMissingOnlyForPing | src/util.rs:45-50 | on an interaction whose payload matches its kind, the name is missing exactly for pings |
| Util.UserAlwaysPresent | src/util.rs:52-55 | when the interaction carries the user in direct messages and a member with a user in guilds, a user is always returned: the top-level user in direct messages, the member's user in guilds |
| InteractionHandle.NewHandle | src/interaction.rs:63-71 | a new handle is not responded, keeps the interaction's ID and token, and holds every permission when the interaction carries none |
| InteractionHandle.CheckPermissions | src/interaction.rs:91-98 | fails exactly when the required set is not within the granted set; the reported set is non-empty and holds exactly the required bits that are not granted |
| InteractionHandle.DeferResponse | src/interaction.rs:118-124 | the deferral is a deferred channel message whose only field is the flags, present and equal to {EPHEMERAL} exactly when ephemeral is asked for |
| InteractionHandle.Defer | src/interaction.rs:111-134 | on a responded handle: AlreadyResponded, no call, handle unchanged; otherwise exactly one initial-response call; success exactly when delivered; failure returns the HTTP error and leaves the handle untouched; the flag rises only on success |
| InteractionHandle.MessageResponse | src/interaction.rs:171-191 | the initial reply is a channel message carrying the content, embeds, components, attachments, flags and tts of the reply; allowed mentions are set only when the caller gave an explicit policy; no choices, custom ID or title |
| InteractionHandle.FollowupOf | src/interaction.rs:153-168 | the followup omits content exactly when it is empty, passes allowed mentions exactly as the caller set them, and always forwards embeds, components, attachments, flags and tts |
| InteractionHandle.FollowupRoundTrip | src/interaction.rs:156-168 | the reply can be recovered exactly from the followup request built from it |
| InteractionHandle.BothPathsCarryTheReply | src/interaction.rs:156-191 | the initial message and the followup carry the same text, embeds, components, attachments, flags, tts and effective mentions policy |
| InteractionHandle.SendReply | src/interaction.rs:149-198 | fresh handle: one initial channel-message call, and the flag rises exactly when it is delivered; responded handle: a builder refusal returns the validation error with no call, otherwise one followup call; a failed call on either path returns the remote error unchanged; never AlreadyResponded; a failure leaves the handle untouched |
| InteractionHandle.AutocompleteResponse | src/interaction.rs:237-255 | the autocomplete response carries the choices and no other field |
| InteractionHandle.Autocomplete | src/interaction.rs:225-261 | the first-response-only contract of Defer, with the autocomplete response as the call |
| InteractionHandle.ModalRows | src/interaction.rs:293-301 | one row per text input, in order, each an action row holding exactly that one text input |
| InteractionHandle.ModalRowsRoundTrip | src/interaction.rs:293-301 | reading the text inputs back from the built layout gives the original inputs |
| InteractionHandle.RowInputsExact | src/interaction.rs:293-301 | every layout of single-input action rows is the one built from its inputs |
| InteractionHandle.ModalResponse | src/interaction.rs:285-311 | the modal response carries the custom ID, the title and the one-input-per-row layout of exactly the given inputs, and no other field |
| InteractionHandle.ShowModal | src/interaction.rs:271-318 | the first-response-only contract of Defer, with the modal response as the call |
| Protocol.Apply | src/interaction.rs:111-318 | any operation makes at most one call, to this interaction's token; the call is an initial response exactly when the handle was not responded; the flag never falls and rises only with a delivered initial response; a failure leaves the handle untouched; a permission check makes no call and changes nothing |
| Protocol.Run | src/interaction.rs:39-40 | a run of operations yields one result per operation, never lowers the flag, and keeps the handle's ID, token and permissions |
| Protocol.StepKeepsProtocol | src/interaction.rs:111-318 | one operation extends an accepted trace to an accepted trace, and the automaton's state stays equal to the handle's flag |
| Protocol.RunKeepsProtocol | src/interaction.rs:111-318 | any sequence of operations on a fresh handle leaves a trace the automaton accepts, in the state the handle's flag records |
| Protocol.ProtocolHolds | src/interaction.rs:111-318 | from a fresh handle, for any operations and any outcomes the client reports: at most one initial response is reported delivered, none is attempted after it, every followup comes after it, and the flag is raised exactly when one was reported delivered |
| Protocol.RespondedIsFinal | src/interaction.rs:149-169 | once responded, the handle stays responded and every later call is a followup |
| Protocol.UnknownPermissionsPass | src/interaction.rs:63-98 | on a handle built from an interaction without permissions, every permission check passes |
| Protocol.MissingPermissionsExample | src/interaction.rs:91-98 | requiring {A, B} with {A} granted reports {B} missing; with {A, B, C} granted the check passes |
| Protocol.DeferThenReply | src/interaction.rs:111-198 | a delivered deferral followed by a reply sends the reply as a followup; both succeed |
| Protocol.RacingReplies | src/interaction.rs:149-198 | of two replies served in turn, the first is the initial channel message and the second a followup, each with its own payload |
| Protocol.AutocompleteTwice | src/interaction.rs:225-261 | a second autocomplete fails with AlreadyResponded and makes no call |
| Protocol.FailedDeferThenReply | src/interaction.rs:111-198 | a deferral whose call fails returns the HTTP error and leaves the handle fresh, so the next reply is the initial response |

## Left out

- The tokio `Mutex` and `Arc`, async scheduling and cancellation. The lock spans read, call and commit, so each operation is one atomic step. Interleavings are not modelled. Any schedule on one handle is a sequence that `Protocol.Run` covers.
- The HTTP client (`Bot::interaction_client`, `create_response`, `create_followup`) and payload serialization. Each remote call is an oracle answer, `Delivered` or `Failed(HttpError)`, recorded with the call in the trace.
- What the platform recorded, as distinct from what the client reported. `Delivery` is the outcome the HTTP client reports. A call the platform recorded but the client reported as failed (a timeout, a reset connection, a dropped future) is outside the model. In that case `.await?` returns before the flag is set (src/interaction.rs:129, 192, 256, 313). The flag stays false. The next `reply` sends a second initial response (src/interaction.rs:170-192), which the platform refuses. The followup path is never reached on that handle.
- The followup builder's validation rules (content length, embed and component limits). Its verdict is an input to the reply operation (`followupCheck`). A refusal makes no call, as upstream. Which field is refused first is not modelled.
- `Prettify for Permissions` (src/util.rs:16-40). It depends on the bitflags debug format and an external title-casing crate.
- The deprecated `followup` (src/interaction.rs:211-215). It only delegates to `reply`.
- The `Display` and `Error` impls and the `anyhow` wrapping. Errors are one datatype, `InteractionHandle.Error`, with one variant per source of failure.
- `UserError` beyond `MissingPermissions`. The `reply` module and the `extract` module are not part of this model.
- The contents of `Reply`, `TextInput`, `CommandOptionChoice`, embeds, attachments and allowed mentions are opaque values.
- `Permissions::all()` upstream is the set of all defined permission flags. Here it is all 64 bit positions. Every permission value built through the flag type lies within `all()`, so "no permission data means every check passes" is the same property.
- Interaction payloads carry only the field the selectors read (command name or custom ID). `OtherData` stands for the payload variants the upstream enumeration may add.

## Notes on the source

- The followup path omits empty content. The initial-response path always sends the content, even when it is empty.
- The initial path collapses the caller's two-layer allowed-mentions setting into one. An explicit "none" is sent the same as an unset policy. The followup path keeps both layers.
- Reply validation errors come from the local request builder on the followup path only. They are raised before any call is made. They are not remote errors.
- The guarantee is per handle. `Bot::interaction_handle` creates a new flag and mutex on every call (src/interaction.rs:69). Two handles built from the same interaction do not share the flag; only clones of one handle do. `Protocol.ProtocolHolds` is stated for the operations on one handle.
