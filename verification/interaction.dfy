/** The interaction handle: one flag, `responded`, and the operations that
    read it, pick a wire call, make it, and raise the flag only when the
    call succeeds. Upstream each operation holds the handle's mutex across
    that whole sequence, so each is one atomic step here. The remote API
    is an oracle: every operation is given the `Delivery` its call gets. */
module InteractionHandle {
  import opened Wrappers
  import opened Twilight

  datatype Handle = Handle(id: nat, token: string, appPermissions: Permissions, responded: bool)

  /** A first-response-only operation was used on a responded interaction. */
  datatype InteractionError = AlreadyResponded

  /** The user-facing error `check_permissions` returns; the wrapped set is
      the missing permissions. */
  datatype UserError = MissingPermissions(missing: Option<Permissions>)

  /** The dynamically typed error the operations return. */
  datatype Error =
    | InteractionFailure(interaction: InteractionError)
    | UserFailure(user: UserError)
    | HttpFailure(http: HttpError)
    | ValidationFailure(validation: ValidationError)

  /** What one operation does: the handle afterwards, its result, and the
      calls it made (at most one). */
  datatype Step = Step(handle: Handle, result: Result<(), Error>, attempts: seq<Attempt>)

  /** A fresh handle for an interaction: not responded, and holding every
      permission when the interaction carries none (direct messages). */
  function NewHandle(i: Interaction): (h: Handle)
    ensures !h.responded
    ensures h.id == i.id && h.token == i.token
    ensures i.appPermissions.Some? ==> h.appPermissions == i.appPermissions.value
    ensures i.appPermissions.None? ==> forall b: Bit :: b in h.appPermissions
  {
    Handle(i.id, i.token, if i.appPermissions.Some? then i.appPermissions.value else ALL_PERMISSIONS, false)
  }

  /** Fails exactly when some required permission is not granted, naming
      precisely the ones that are not. */
  function CheckPermissions(h: Handle, required: Permissions): (r: Result<(), UserError>)
    ensures r.Ok? <==> required <= h.appPermissions
    ensures r.Err? ==> r.error.missing.Some?
    ensures r.Err? ==> r.error.missing.value != {}
    ensures r.Err? ==> forall b :: b in r.error.missing.value <==> b in required && b !in h.appPermissions
  {
    var missing := required - h.appPermissions;
    if missing != {} then Err(MissingPermissions(Some(missing)))
    else
      assert forall b | b in required :: b in missing || b in h.appPermissions;
      Ok(())
  }

  /** The contract shared by `defer`, `autocomplete` and `modal`: on a
      responded handle they fail with `AlreadyResponded` and make no call;
      otherwise they make exactly the initial-response call `response`,
      and the flag rises exactly when that call is delivered. A failure
      leaves the handle as it was. */
  predicate FirstResponseOnly(h: Handle, response: InteractionResponse, delivery: Delivery, s: Step)
  {
    && (h.responded ==> s.result == Err(InteractionFailure(AlreadyResponded)) && s.attempts == [] && s.handle == h)
    && (!h.responded ==> s.attempts == [Attempt(CreateResponse(h.id, h.token, response), delivery)])
    && (s.result.Ok? <==> !h.responded && delivery.Delivered?)
    && (!h.responded && delivery.Failed? ==> s.result == Err(HttpFailure(delivery.error)))
    && (s.result.Err? ==> s.handle == h)
    && s.handle == h.(responded := h.responded || s.result.Ok?)
  }

  function FirstResponse(h: Handle, response: InteractionResponse, delivery: Delivery): Step
  {
    if h.responded then Step(h, Err(InteractionFailure(AlreadyResponded)), [])
    else
      var attempt := Attempt(CreateResponse(h.id, h.token, response), delivery);
      match delivery
      case Delivered => Step(h.(responded := true), Ok(()), [attempt])
      case Failed(e) => Step(h, Err(HttpFailure(e)), [attempt])
  }

  /** The deferral response: a deferred channel message carrying only the
      ephemeral flag, and that only when asked for. */
  function DeferResponse(ephemeral: bool): (r: InteractionResponse)
    ensures r.kind == DeferredChannelMessageWithSource && r.data.Some?
    ensures r.data.value.flags.Some? <==> ephemeral
    ensures r.data.value.flags.Some? ==> r.data.value.flags.value == {EPHEMERAL}
    ensures r.data.value.(flags := None) == EMPTY_DATA
  {
    InteractionResponse(
      DeferredChannelMessageWithSource,
      Some(EMPTY_DATA.(flags := if ephemeral then Some({EPHEMERAL}) else None)))
  }

  function Defer(h: Handle, ephemeral: bool, delivery: Delivery): (s: Step)
    ensures FirstResponseOnly(h, DeferResponse(ephemeral), delivery, s)
  {
    FirstResponse(h, DeferResponse(ephemeral), delivery)
  }

  /** The initial reply: a channel message carrying every field of the
      reply, with the allowed-mentions layers collapsed into one. */
  function MessageResponse(reply: Reply): (r: InteractionResponse)
    ensures r.kind == ChannelMessageWithSource && r.data.Some?
    ensures r.data.value.content == Some(reply.content)
    ensures r.data.value.embeds == Some(reply.embeds)
    ensures r.data.value.components == Some(reply.components)
    ensures r.data.value.attachments == Some(reply.attachments)
    ensures r.data.value.flags == Some(reply.flags)
    ensures r.data.value.tts == Some(reply.tts)
    ensures r.data.value.allowedMentions.Some? <==> reply.allowedMentions.Some? && reply.allowedMentions.value.Some?
    ensures r.data.value.allowedMentions.Some? ==> r.data.value.allowedMentions.value == reply.allowedMentions.value.value
    ensures r.data.value.choices.None? && r.data.value.customId.None? && r.data.value.title.None?
  {
    InteractionResponse(
      ChannelMessageWithSource,
      Some(InteractionResponseData(
        allowedMentions := Flatten(reply.allowedMentions),
        attachments := Some(reply.attachments),
        choices := None,
        components := Some(reply.components),
        content := Some(reply.content),
        customId := None,
        embeds := Some(reply.embeds),
        flags := Some(reply.flags),
        title := None,
        tts := Some(reply.tts))))
  }

  /** The followup request: empty content is left out, allowed mentions
      are passed on only when the caller set them, the rest always. */
  function FollowupOf(reply: Reply): (f: Followup)
    ensures f.content.None? <==> reply.content == []
    ensures f.content.Some? ==> f.content.value == reply.content
    ensures f.allowedMentions == reply.allowedMentions
    ensures f.embeds == reply.embeds && f.components == reply.components && f.attachments == reply.attachments
    ensures f.flags == reply.flags && f.tts == reply.tts
  {
    Followup(
      if reply.content != [] then Some(reply.content) else None,
      reply.allowedMentions,
      reply.embeds, reply.components, reply.attachments, reply.flags, reply.tts)
  }

  /** The reply a followup request was built from; inverts `FollowupOf`. */
  function ReplyOfFollowup(f: Followup): Reply
  {
    Reply(if f.content.Some? then f.content.value else [], f.embeds, f.components, f.attachments, f.flags, f.tts, f.allowedMentions)
  }

  /** A followup loses nothing of the reply it was built from. */
  lemma FollowupRoundTrip(reply: Reply)
    ensures ReplyOfFollowup(FollowupOf(reply)) == reply
  {
  }

  /** Whether a reply goes out as the initial response or as a followup,
      the message the platform is asked to post is the same: same text,
      embeds, components, attachments, flags and text-to-speech, and the
      same allowed-mentions policy once an explicit "none" and an unset
      policy are read alike. */
  lemma BothPathsCarryTheReply(reply: Reply)
    ensures var d := MessageResponse(reply).data.value; var f := FollowupOf(reply);
      && d.content == Some(ReplyOfFollowup(f).content)
      && d.embeds == Some(f.embeds) && d.components == Some(f.components)
      && d.attachments == Some(f.attachments) && d.flags == Some(f.flags) && d.tts == Some(f.tts)
      && d.allowedMentions == Flatten(f.allowedMentions)
  {
  }

  /** Reply works in both states. On a fresh handle it makes the initial
      channel-message response and raises the flag once delivered. On a
      responded handle the followup builder first validates the reply
      (`followupCheck` is its verdict): a refusal is returned with no call;
      otherwise the followup is sent and the flag stays raised. It never
      answers `AlreadyResponded`, and a failure leaves the handle as it was. */
  function SendReply(h: Handle, reply: Reply, followupCheck: Option<ValidationError>, delivery: Delivery): (s: Step)
    ensures !h.responded ==> s.attempts == [Attempt(CreateResponse(h.id, h.token, MessageResponse(reply)), delivery)]
    ensures h.responded && followupCheck.Some? ==> s.attempts == [] && s.result == Err(ValidationFailure(followupCheck.value))
    ensures h.responded && followupCheck.None? ==> s.attempts == [Attempt(CreateFollowup(h.token, FollowupOf(reply)), delivery)]
    ensures s.result.Ok? <==> delivery.Delivered? && (!h.responded || followupCheck.None?)
    ensures delivery.Failed? && (!h.responded || followupCheck.None?) ==> s.result == Err(HttpFailure(delivery.error))
    ensures s.result != Err(InteractionFailure(AlreadyResponded))
    ensures s.result.Err? ==> s.handle == h
    ensures s.handle == h.(responded := h.responded || s.result.Ok?)
  {
    if h.responded then
      match followupCheck
      case Some(e) => Step(h, Err(ValidationFailure(e)), [])
      case None =>
        var attempt := Attempt(CreateFollowup(h.token, FollowupOf(reply)), delivery);
        match delivery
        case Delivered => Step(h, Ok(()), [attempt])
        case Failed(e) => Step(h, Err(HttpFailure(e)), [attempt])
    else
      var attempt := Attempt(CreateResponse(h.id, h.token, MessageResponse(reply)), delivery);
      match delivery
      case Delivered => Step(h.(responded := true), Ok(()), [attempt])
      case Failed(e) => Step(h, Err(HttpFailure(e)), [attempt])
  }

  /** The autocomplete response: the choices and nothing else. */
  function AutocompleteResponse(choices: seq<CommandOptionChoice>): (r: InteractionResponse)
    ensures r.kind == ApplicationCommandAutocompleteResult && r.data.Some?
    ensures r.data.value.choices == Some(choices)
    ensures r.data.value.(choices := None) == EMPTY_DATA
  {
    InteractionResponse(ApplicationCommandAutocompleteResult, Some(EMPTY_DATA.(choices := Some(choices))))
  }

  function Autocomplete(h: Handle, choices: seq<CommandOptionChoice>, delivery: Delivery): (s: Step)
    ensures FirstResponseOnly(h, AutocompleteResponse(choices), delivery, s)
  {
    FirstResponse(h, AutocompleteResponse(choices), delivery)
  }

  /** The modal layout: each text input in its own action row, in order. */
  function ModalRows(inputs: seq<TextInput>): (rows: seq<Component>)
    ensures |rows| == |inputs|
    ensures forall k :: 0 <= k < |rows| ==> rows[k] == ActionRow([TextInputField(inputs[k])])
  {
    if inputs == [] then []
    else [ActionRow([TextInputField(inputs[0])])] + ModalRows(inputs[1..])
  }

  /** An action row holding exactly one text input. */
  predicate IsInputRow(c: Component)
  {
    c.ActionRow? && |c.components| == 1 && c.components[0].TextInputField?
  }

  /** The text inputs of a modal layout, when every row holds exactly one
      text input; inverts `ModalRows`. */
  function RowInputs(rows: seq<Component>): Option<seq<TextInput>>
  {
    if rows == [] then Some([])
    else if !IsInputRow(rows[0]) then None
    else
      match RowInputs(rows[1..])
      case Some(rest) => Some([rows[0].components[0].input] + rest)
      case None => None
  }

  /** Every layout `ModalRows` builds is read back by `RowInputs`. */
  lemma {:induction false} ModalRowsRoundTrip(inputs: seq<TextInput>)
    ensures RowInputs(ModalRows(inputs)) == Some(inputs)
  {
    if inputs != [] {
      ModalRowsRoundTrip(inputs[1..]);
      var rows := ModalRows(inputs);
      assert rows[0] == ActionRow([TextInputField(inputs[0])]);
      assert rows[1..] == ModalRows(inputs[1..]);
      assert inputs == [inputs[0]] + inputs[1..];
    }
  }

  /** Every layout `RowInputs` accepts is the one `ModalRows` builds. */
  lemma {:induction false} RowInputsExact(rows: seq<Component>)
    requires RowInputs(rows).Some?
    ensures ModalRows(RowInputs(rows).value) == rows
  {
    if rows != [] {
      var rest := RowInputs(rows[1..]);
      assert rest.Some?;
      RowInputsExact(rows[1..]);
      var x := rows[0].components[0].input;
      var xs := RowInputs(rows).value;
      assert xs == [x] + rest.value;
      assert xs[1..] == rest.value;
      assert rows[0].components == [TextInputField(x)];
      assert ModalRows(xs) == [ActionRow([TextInputField(x)])] + ModalRows(rest.value);
      assert rows == [rows[0]] + rows[1..];
    }
  }

  /** The modal response: custom ID, title and the one-input-per-row layout. */
  function ModalResponse(customId: string, title: string, inputs: seq<TextInput>): (r: InteractionResponse)
    ensures r.kind == Modal && r.data.Some?
    ensures r.data.value.customId == Some(customId) && r.data.value.title == Some(title)
    ensures r.data.value.components.Some? && RowInputs(r.data.value.components.value) == Some(inputs)
    ensures r.data.value.(customId := None, title := None, components := None) == EMPTY_DATA
  {
    ModalRowsRoundTrip(inputs);
    InteractionResponse(Modal, Some(EMPTY_DATA.(customId := Some(customId), title := Some(title), components := Some(ModalRows(inputs)))))
  }

  function ShowModal(h: Handle, customId: string, title: string, inputs: seq<TextInput>, delivery: Delivery): (s: Step)
    ensures FirstResponseOnly(h, ModalResponse(customId, title, inputs), delivery, s)
  {
    FirstResponse(h, ModalResponse(customId, title, inputs), delivery)
  }
}
