/**
 * The pending-intent registry of response_handlers.js (`response_data`) and the
 * records of the document store the dispatcher reads and writes.
 */
module Intents {
  import opened Common
  import opened Functions

  type UserId = int
  type QueryId = string
  type TaskId = string

  // The target tags of the ten message handlers, in the order they are registered.
  const TagAdminUserId: string := "admin_user_id"
  const TagBalanceAmount: string := "admin_balance_amount"
  const TagSupport: string := "support"
  const TagReplyToQuery: string := "reply_to_query"
  const TagEditTaskName: string := "admin_edit_task_name"
  const TagEditTaskMessage: string := "admin_edit_task_message"
  const TagEditTaskMediaUrl: string := "admin_edit_task_mediaURL"
  const TagAddAdminId: string := "add_admin_id"
  const TagChannelId: string := "admin_channel_id"
  const TagAddSocial: string := "add_social"

  /** The handler chain's tags in registration order. */
  const Chain: seq<string> := [TagAdminUserId, TagBalanceAmount, TagSupport, TagReplyToQuery,
                               TagEditTaskName, TagEditTaskMessage, TagEditTaskMediaUrl,
                               TagAddAdminId, TagChannelId, TagAddSocial]

  /** No two handlers of the chain answer to the same tag. */
  lemma ChainTagsDistinct()
    ensures |Chain| == 10
    ensures forall i, j :: 0 <= i < j < |Chain| ==> Chain[i] != Chain[j]
  {
  }

  /** The payload fields the handlers read; `None` is an absent field. */
  datatype Payload = Payload(userId: Option<UserId>, queryId: Option<QueryId>, taskId: Option<TaskId>)

  /** What a user's next message is expected to be: `{target, payload, back_command}`. */
  datatype Intent = Intent(target: string, payload: Payload, backCommand: Option<string>)

  /** `response_data`: at most one intent per user. */
  type Registry = map<UserId, Intent>

  /** `create_response`: the user's entry becomes exactly the new intent; nobody else's changes. */
  function CreateResponse(reg: Registry, user: UserId, target: string, payload: Payload := Payload(None, None, None), backCommand: Option<string> := None): (r: Registry)
    ensures user in r && r[user] == Intent(target, payload, backCommand)
    ensures forall v :: v != user ==> (v in r <==> v in reg)
    ensures forall v :: v != user && v in reg ==> r[v] == reg[v]
  {
    reg[user := Intent(target, payload, backCommand)]
  }

  /** `delete_response`: the user's entry is gone; nobody else's changes. */
  function DeleteResponse(reg: Registry, user: UserId): (r: Registry)
    ensures user !in r
    ensures forall v :: v != user ==> (v in r <==> v in reg)
    ensures forall v :: v != user && v in reg ==> r[v] == reg[v]
  {
    reg - {user}
  }

  /** Creating twice keeps only the second intent (last write wins, no merge). */
  lemma CreateOverwrites(reg: Registry, user: UserId, t1: string, p1: Payload, b1: Option<string>,
                         t2: string, p2: Payload, b2: Option<string>)
    ensures CreateResponse(CreateResponse(reg, user, t1, p1, b1), user, t2, p2, b2) == CreateResponse(reg, user, t2, p2, b2)
  {
  }

  /** Deleting a missing entry is a no-op, and deleting twice is deleting once. */
  lemma DeleteIdempotent(reg: Registry, user: UserId)
    ensures user !in reg ==> DeleteResponse(reg, user) == reg
    ensures DeleteResponse(DeleteResponse(reg, user), user) == DeleteResponse(reg, user)
  {
  }

  /** Whether the sender has an entry whose target is `tag`. */
  predicate Awaits(reg: Registry, user: UserId, tag: string) {
    user in reg && reg[user].target == tag
  }

  // ---------------------------------------------------------------- document store

  /** A user's `balance` field: a number, missing, or a value that is not a number. */
  datatype Balance = Amount(n: int) | Missing | NonNumeric

  datatype UserRecord = UserRecord(balance: Balance)

  /** A task record's editable fields; `None` is `null`. */
  datatype Task = Task(name: Option<string>, messageText: Option<string>, mediaUrl: Option<string>)

  datatype TaskField = Name | MessageText | MediaUrl

  datatype SocialLink = SocialLink(buttonText: string, url: string)

  /** The collections the handlers touch: `users`, `tasks`, the `admin` records and `social_sites`. */
  datatype Store = Store(
    users: map<UserId, UserRecord>,
    tasks: map<TaskId, Task>,
    admins: StoredAdmins,
    channels: seq<string>,
    socials: seq<SocialLink>)

  /** The value a task holds in field `f`. */
  function FieldOf(t: Task, f: TaskField): Option<string> {
    match f
    case Name => t.name
    case MessageText => t.messageText
    case MediaUrl => t.mediaUrl
  }

  /** `$set` of one task field: that field holds `v` and the other two are kept. */
  function SetField(t: Task, f: TaskField, v: Option<string>): (r: Task)
    ensures FieldOf(r, f) == v
    ensures forall g :: g != f ==> FieldOf(r, g) == FieldOf(t, g)
  {
    match f
    case Name => t.(name := v)
    case MessageText => t.(messageText := v)
    case MediaUrl => t.(mediaUrl := v)
  }

  /**
   * `$inc` of a balance by `amount`: a number grows by exactly `amount`, a missing
   * field is created with it, and a value that is not a number makes the update fail.
   */
  function IncBalance(b: Balance, amount: int): (r: Option<Balance>)
    ensures r.None? <==> b.NonNumeric?
    ensures r.Some? ==> r.value.Amount? && r.value.n - amount == (if b.Amount? then b.n else 0)
  {
    match b
    case Amount(n) => Some(Amount(n + amount))
    case Missing => Some(Amount(amount))
    case NonNumeric => None
  }
}
