/** The per-chat conversation state of `src/conversation.rs`: message roles
    with their `u8` discriminants, text and code conversions, and appending
    to a chat's history. */
module Conversations {
  import opened Base

  newtype u8 = x: int | 0 <= x < 0x100
  newtype u64 = x: int | 0 <= x < 0x1_0000_0000_0000_0000

  /** `#[repr(u8)]` with `System = 0`, `User = 1`, `Assistant = 2`. */
  datatype MessageRole = System | User | Assistant

  /** The roles in declaration order. */
  const Roles: seq<MessageRole> := [System, User, Assistant]

  /** `role as u8`: the explicit discriminants 0, 1 and 2 are the roles'
      positions in declaration order. */
  function Discriminant(role: MessageRole): (b: u8)
    ensures b <= 2 && Roles[b] == role
  {
    match role
    case System => 0
    case User => 1
    case Assistant => 2
  }

  /** `MessageRole::try_from(u8)`: the three discriminants, and `Err(())`
      for every other byte. */
  function RoleTryFrom(b: u8): (r: Result<MessageRole, ()>)
    ensures r.Ok? <==> b <= 2
    ensures r.Ok? ==> Discriminant(r.value) == b
  {
    if b == 0 then Ok(System)
    else if b == 1 then Ok(User)
    else if b == 2 then Ok(Assistant)
    else Err(())
  }

  /** Converting a role to its discriminant and back gives the role. */
  lemma RoleRoundTrip(role: MessageRole)
    ensures RoleTryFrom(Discriminant(role)) == Ok(role)
  {
  }

  /** Distinct roles have distinct discriminants. */
  lemma DiscriminantInjective(a: MessageRole, b: MessageRole)
    ensures Discriminant(a) == Discriminant(b) ==> a == b
  {
  }

  /** The `Display` text of a role: a non-empty name that reads back as
      the role. */
  function RoleName(role: MessageRole): (s: string)
    ensures s != []
    ensures RoleFromName(s) == Some(role)
  {
    match role
    case System => "system"
    case User => "user"
    case Assistant => "assistant"
  }

  /** The role a name was printed from, if any. */
  function RoleFromName(s: string): (r: Option<MessageRole>)
    ensures r.Some? ==> s != []
  {
    if s == "system" then Some(System)
    else if s == "user" then Some(User)
    else if s == "assistant" then Some(Assistant)
    else None
  }

  /** Only a printed name reads back as a role. */
  lemma RoleFromNameSound(s: string)
    ensures RoleFromName(s).Some? ==> RoleName(RoleFromName(s).value) == s
  {
  }

  /** The names are pairwise distinct. */
  lemma RoleNameInjective(a: MessageRole, b: MessageRole)
    ensures RoleName(a) == RoleName(b) ==> a == b
  {
  }

  /** `MessageRole::default()`: the role with discriminant 0. */
  function DefaultRole(): (role: MessageRole)
    ensures Discriminant(role) == 0
    ensures RoleTryFrom(0) == Ok(role)
  {
    System
  }

  datatype Message = Message(role: MessageRole, text: string)

  /** `Message::default()`, derived field by field. */
  function DefaultMessage(): (m: Message)
    ensures m.role == DefaultRole() && m.text == []
  {
    Message(DefaultRole(), "")
  }

  /** The state kept for one chat. `history` is the `VecDeque`, front
      first. */
  datatype Conversation = Conversation(
    chatId: u64,
    history: seq<Message>,
    isAuthorized: bool,
    openaiApiKey: string,
    systemPrompt: Option<Message>)

  /** Everything but the history is the same. */
  predicate SameSettings(a: Conversation, b: Conversation)
  {
    && a.chatId == b.chatId
    && a.isAuthorized == b.isAuthorized
    && a.openaiApiKey == b.openaiApiKey
    && a.systemPrompt == b.systemPrompt
  }

  /** `add_message`: `push_back` onto the history. */
  function AddMessage(c: Conversation, m: Message): (r: Conversation)
    ensures SameSettings(r, c)
    ensures |r.history| == |c.history| + 1 && r.history[|c.history|] == m
    ensures r.history[..|c.history|] == c.history
  {
    c.(history := c.history + [m])
  }

  /** `add_messages`: each message pushed to the back in iteration order. */
  function AddMessages(c: Conversation, ms: seq<Message>): (r: Conversation)
    ensures SameSettings(r, c)
    ensures r.history == c.history + ms
    decreases |ms|
  {
    if ms == [] then c
    else
      var r := AddMessages(AddMessage(c, ms[0]), ms[1..]);
      assert (c.history + [ms[0]]) + ms[1..] == c.history + ms;
      r
  }

  /** Adding one batch after another is adding both at once. */
  lemma {:induction false} AddMessagesAppend(c: Conversation, a: seq<Message>, b: seq<Message>)
    ensures AddMessages(AddMessages(c, a), b) == AddMessages(c, a + b)
  {
    assert (c.history + a) + b == c.history + (a + b);
  }

  /** A one-message batch is `add_message`; an empty one changes nothing. */
  lemma AddMessagesSingle(c: Conversation, m: Message)
    ensures AddMessages(c, [m]) == AddMessage(c, m)
    ensures AddMessages(c, []) == c
  {
  }
}
