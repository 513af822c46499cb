/** The two selectors that `InteractionExt` adds to an interaction: the
    name (command name or component/modal custom ID) and the invoking user. */
module Util {
  import opened Wrappers
  import opened Twilight

  /** The name or custom ID the interaction was dispatched under. */
  function NameOf(i: Interaction): (r: Option<string>)
    ensures i.data.None? ==> r == None
    ensures i.data == Some(OtherData) ==> r == None
    ensures r.Some? <==> i.data.Some? && !i.data.value.OtherData?
    ensures r.Some? && i.data.value.ApplicationCommand? ==> r.value == i.data.value.name
    ensures r.Some? && !i.data.value.ApplicationCommand? ==> r.value == i.data.value.customId
  {
    match i.data
    case None => None
    case Some(data) =>
      match data
      case ApplicationCommand(name) => Some(name)
      case MessageComponent(customId) => Some(customId)
      case ModalSubmit(customId) => Some(customId)
      case OtherData => None
  }

  /** The user who triggered the interaction: the top-level user (direct
      messages), otherwise the guild member's user. */
  function UserOf(i: Interaction): (r: Option<User>)
    ensures i.user.Some? ==> r == i.user
    ensures i.user.None? && i.member.Some? ==> r == i.member.value.user
    ensures r.Some? <==> i.user.Some? || (i.member.Some? && i.member.value.user.Some?)
  {
    if i.user.Some? then i.user
    else if i.member.Some? then i.member.value.user
    else None
  }

  /** What the platform guarantees of the data an interaction carries:
      a ping has none, every other kind carries the matching payload. */
  predicate DataMatchesKind(i: Interaction)
  {
    match i.kind
    case Ping => i.data.None?
    case ApplicationCommand => i.data.Some? && i.data.value.ApplicationCommand?
    case ApplicationCommandAutocomplete => i.data.Some? && i.data.value.ApplicationCommand?
    case MessageComponent => i.data.Some? && i.data.value.MessageComponent?
    case ModalSubmit => i.data.Some? && i.data.value.ModalSubmit?
  }

  /** What the platform guarantees of the invoker: a direct-message
      interaction carries the user and no member; a guild interaction
      carries a member with its user, and no top-level user. */
  predicate InvokerMatchesContext(i: Interaction)
  {
    if i.guildId.None? then i.user.Some? && i.member.None?
    else i.user.None? && i.member.Some? && i.member.value.user.Some?
  }

  /** On a well-formed interaction the name is missing exactly for pings. */
  lemma NameMissingOnlyForPing(i: Interaction)
    requires DataMatchesKind(i)
    ensures NameOf(i).None? <==> i.kind == Ping
  {
  }

  /** On a well-formed interaction there is always a user: the
      top-level one in direct messages, the member's in guilds. */
  lemma UserAlwaysPresent(i: Interaction)
    requires InvokerMatchesContext(i)
    ensures UserOf(i).Some?
    ensures i.guildId.None? ==> UserOf(i) == i.user
    ensures i.guildId.Some? ==> UserOf(i) == i.member.value.user
  {
  }
}
