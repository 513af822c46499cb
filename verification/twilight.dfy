/** The values the interaction handle reads and writes: the inbound
    interaction record, message components, the caller's reply, and the
    two wire calls of the remote interaction API. Their contents beyond
    the fields the handle touches are opaque. */
module Twilight {
  import opened Wrappers

  /** A bit position of a 64-bit flag word. */
  newtype Bit = b: int | 0 <= b < 64

  /** A permission bitset, as the set of its raised bits. */
  type Permissions = set<Bit>

  /** `Permissions::all()`: every permission bit raised. */
  const ALL_PERMISSIONS: Permissions := set b: int | 0 <= b < 64 :: b as Bit

  /** A message flag bitset, as the set of its raised bits. */
  type MessageFlags = set<Bit>

  /** `MessageFlags::EPHEMERAL` is `1 << 6`. */
  const EPHEMERAL: Bit := 6

  datatype User = User(id: nat, name: string)

  /** The guild member attached to a guild interaction; its user is optional. */
  datatype PartialMember = PartialMember(user: Option<User>)

  /** The payload variants of an interaction. The enumeration upstream is
      non-exhaustive; `OtherData` stands for every variant not listed. */
  datatype InteractionData =
    | ApplicationCommand(name: string)
    | MessageComponent(customId: string)
    | ModalSubmit(customId: string)
    | OtherData

  datatype InteractionType =
    | Ping
    | ApplicationCommand
    | ApplicationCommandAutocomplete
    | MessageComponent
    | ModalSubmit

  /** One inbound interaction event. `guildId` is absent in direct messages. */
  datatype Interaction = Interaction(
    id: nat,
    kind: InteractionType,
    guildId: Option<nat>,
    token: string,
    appPermissions: Option<Permissions>,
    data: Option<InteractionData>,
    user: Option<User>,
    member: Option<PartialMember>)

  datatype TextInput = TextInput(customId: string, labelText: string)

  /** Message components; an action row holds further components. */
  datatype Component =
    | ActionRow(components: seq<Component>)
    | Button(customId: string)
    | SelectMenu(customId: string)
    | TextInputField(input: TextInput)

  datatype Embed = Embed(raw: string)
  datatype Attachment = Attachment(filename: string)
  datatype AllowedMentions = AllowedMentions(raw: string)
  datatype CommandOptionChoice = CommandOptionChoice(name: string, value: string)

  /** The caller-built message. `allowedMentions` is doubly optional: the
      outer layer says whether the caller set it, the inner one whether it
      is an explicit policy or an explicit "none". */
  datatype Reply = Reply(
    content: string,
    embeds: seq<Embed>,
    components: seq<Component>,
    attachments: seq<Attachment>,
    flags: MessageFlags,
    tts: bool,
    allowedMentions: Option<Option<AllowedMentions>>)

  datatype InteractionResponseType =
    | DeferredChannelMessageWithSource
    | ChannelMessageWithSource
    | ApplicationCommandAutocompleteResult
    | Modal

  /** The body of an initial response; every field is optional. */
  datatype InteractionResponseData = InteractionResponseData(
    allowedMentions: Option<AllowedMentions>,
    attachments: Option<seq<Attachment>>,
    choices: Option<seq<CommandOptionChoice>>,
    components: Option<seq<Component>>,
    content: Option<string>,
    customId: Option<string>,
    embeds: Option<seq<Embed>>,
    flags: Option<MessageFlags>,
    title: Option<string>,
    tts: Option<bool>)

  /** `InteractionResponseData::default()`: no field set. */
  const EMPTY_DATA := InteractionResponseData(None, None, None, None, None, None, None, None, None, None)

  datatype InteractionResponse = InteractionResponse(kind: InteractionResponseType, data: Option<InteractionResponseData>)

  /** The fields a followup request carries. `content` is absent when the
      builder was not given any; `allowedMentions` keeps both layers. */
  datatype Followup = Followup(
    content: Option<string>,
    allowedMentions: Option<Option<AllowedMentions>>,
    embeds: seq<Embed>,
    components: seq<Component>,
    attachments: seq<Attachment>,
    flags: MessageFlags,
    tts: bool)

  /** The two endpoints of the remote interaction API. */
  datatype Call =
    | CreateResponse(interactionId: nat, token: string, response: InteractionResponse)
    | CreateFollowup(token: string, followup: Followup)

  datatype HttpError = HttpError(status: nat, message: string)

  /** A local refusal by the followup request builder (content too long,
      too many embeds, ...). */
  datatype ValidationError = ValidationError(message: string)

  /** The outcome of one call as the HTTP client reports it to the handle.
      `Failed` covers every client error, including a timeout or a dropped
      connection after the platform may already have recorded the call. */
  datatype Delivery = Delivered | Failed(error: HttpError)

  /** One call made to the remote API, with its answer. */
  datatype Attempt = Attempt(call: Call, delivery: Delivery)
}
