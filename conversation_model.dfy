/** The Conversation schema: record shape, the isGroup default, the groupName requirement and
    the participant-count validators that every save runs. */
module ConversationModel {
  import opened Documents

  const MinParticipants: nat := 2
  const MaxParticipants: nat := 50
  const MaxGroupNameLength: nat := 50

  datatype Conversation = Conversation(
    participants: seq<Id>,
    lastMessage: Option<Id>,
    lastActivity: nat,
    isGroup: bool,
    groupName: Option<string>,
    createdBy: Id,
    updatedAt: nat,
    createdAt: nat)

  /** The isGroup default: applied only when the creator supplied no value. */
  function IsGroupOrDefault(supplied: Option<bool>, participants: seq<Id>): (isGroup: bool)
    ensures supplied.None? ==> (isGroup <==> |participants| > 2)
    ensures supplied.Some? ==> isGroup == supplied.value
  {
    match supplied
    case Some(b) => b
    case None => |participants| > 2
  }

  /** `new Conversation(data)`: the defaults fill every field the data leaves out, all
      timestamps at `now`. */
  function NewConversation(participants: seq<Id>, createdBy: Id, isGroup: Option<bool>,
                           groupName: Option<string>, now: nat): (c: Conversation)
    ensures c.participants == participants && c.createdBy == createdBy && c.groupName == groupName
    ensures c.isGroup == IsGroupOrDefault(isGroup, participants)
    ensures c.lastMessage.None?
    ensures c.lastActivity == now && c.updatedAt == now && c.createdAt == now
  {
    Conversation(participants, None, now, IsGroupOrDefault(isGroup, participants), groupName,
                 createdBy, now, now)
  }

  /** The first `pre('validate')` hook. */
  predicate HasMinParticipants(c: Conversation) {
    |c.participants| >= MinParticipants
  }

  /** The second `pre('validate')` hook. */
  predicate WithinMaxParticipants(c: Conversation) {
    |c.participants| <= MaxParticipants
  }

  /** The groupName path: required (a non-empty string) when isGroup holds, and at most
      50 characters whenever present. */
  predicate GroupNameAccepted(c: Conversation) {
    && (c.isGroup ==> c.groupName.Some? && c.groupName.value != "")
    && (c.groupName.Some? ==> |c.groupName.value| <= MaxGroupNameLength)
  }

  /** Everything `save()` validates before it writes. */
  predicate SchemaValid(c: Conversation) {
    HasMinParticipants(c) && WithinMaxParticipants(c) && GroupNameAccepted(c)
  }

  /** The `pre('save')` hook: every save stamps updatedAt and lastActivity. */
  function Stamped(c: Conversation, now: nat): (c': Conversation)
    ensures c'.updatedAt == now && c'.lastActivity == now
    ensures c'.participants == c.participants && c'.isGroup == c.isGroup
    ensures c'.groupName == c.groupName && c'.createdBy == c.createdBy
    ensures c'.lastMessage == c.lastMessage && c'.createdAt == c.createdAt
    ensures SchemaValid(c') <==> SchemaValid(c)
  {
    c.(updatedAt := now, lastActivity := now)
  }

  /** A group conversation cannot be stored without a name, whatever its size. */
  lemma GroupNeedsName(c: Conversation)
    requires c.isGroup && (c.groupName.None? || c.groupName == Some(""))
    ensures !SchemaValid(c)
  {
  }
}
