/** The Message record as the message handlers use it: owning conversation, sender,
    content, creation time, edit marker and the set of users who have read it. */
module MessageModel {
  import opened Documents

  datatype Message = Message(
    conversation: Id,
    sender: Id,
    content: string,
    timestamp: nat,
    readBy: set<Id>,
    edited: bool,
    editedAt: Option<nat>)

  /** A message as first saved: nobody has read it and it was never edited. */
  function NewMessage(conversation: Id, sender: Id, content: string, now: nat): (m: Message)
    ensures m.conversation == conversation && m.sender == sender && m.content == content
    ensures m.timestamp == now && m.readBy == {} && !m.edited && m.editedAt.None?
  {
    Message(conversation, sender, content, now, {}, false, None)
  }

  /** `message.isReadBy(user)`: membership in the readers. */
  predicate IsReadBy(m: Message, user: Id) {
    user in m.readBy
  }

  /** `message.markAsReadBy(user)`: the user joins the readers; nothing else changes. */
  function MarkAsReadBy(m: Message, user: Id): (m': Message)
    ensures IsReadBy(m', user)
    ensures forall v :: IsReadBy(m', v) <==> IsReadBy(m, v) || v == user
    ensures m'.conversation == m.conversation && m'.sender == m.sender
    ensures m'.content == m.content && m'.timestamp == m.timestamp
    ensures m'.edited == m.edited && m'.editedAt == m.editedAt
    ensures IsReadBy(m, user) ==> m' == m
  {
    m.(readBy := m.readBy + {user})
  }

  /** The filter `{ conversation: id }`. */
  function InConversation(conversation: Id): Doc<Message> -> bool {
    (d: Doc<Message>) => d.body.conversation == conversation
  }

  /** The filter `{ sender: id }`. */
  function SentBy(sender: Id): Doc<Message> -> bool {
    (d: Doc<Message>) => d.body.sender == sender
  }

  /** The sort key of `sort({ timestamp: 1 })`. */
  function Timestamp(d: Doc<Message>): int {
    d.body.timestamp
  }
}
