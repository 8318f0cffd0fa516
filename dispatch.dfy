/**
 * The ten `bot.on('message')` handlers of response_handlers.js as functions from
 * (state, sender, message text, environment) to (new state, Handled | PassThrough),
 * the chain that tries them in registration order, and what each promises.
 */
module Dispatch {
  import opened Common
  import opened Strings
  import opened Functions
  import opened Validators
  import opened Intents

  // ---------------------------------------------------------------- state and outcomes

  /** `MAX_PENDING_QUERIES`: outstanding support queries a user may have. */
  const MaxPendingQueries: nat := 1

  /** `pendingQueries`: per user, the ids of the support queries not yet answered. */
  type Pending = map<UserId, set<QueryId>>

  /** The relay's invariant: every listed user has at least one and at most the cap outstanding ids. */
  predicate PendingBounded(p: Pending) {
    forall u :: u in p ==> 0 < |p[u]| <= MaxPendingQueries
  }

  /** Everything the handlers read and write: the two module-level maps and the document store. */
  datatype State = State(registry: Registry, pending: Pending, db: Store)

  /** What a handler, or the chain, makes of a message: it consumes it with a reply, or calls `next()`. */
  datatype Dispatched = PassThrough | Handled(reply: Reply)

  datatype Step = Step(state: State, result: Dispatched)

  /** The user-visible result of a consumed message, with what was sent to other chats. */
  datatype Reply =
    // admin_user_id
    | InvalidUserId | UserNotFound | UserSettings(user: UserId)
    // admin_balance_amount
    | InvalidUserSelection | BalanceUserNotFound | InvalidAmount | BalanceAdded(user: UserId, amount: int)
    | BalanceUpdateFailed
    // support: `notified` are the admins the query reached before the first failed send
    | QueryCapReached | QueryForwarded(queryId: QueryId, body: string, notified: seq<Scalar>, complete: bool)
    // reply_to_query
    | AnswerDelivered(user: UserId, body: string) | AnswerFailed
    // admin_edit_task_*
    | TaskUpdated(field: TaskField) | TaskNotFound | TaskUpdateError
    // add_admin_id
    | AlreadyAdmin(id: string, configured: bool) | AdminAdded(id: string) | AddAdminFailed
    // admin_channel_id
    | InvalidChannelFormat | BotNotAdmin | MissingRights(rights: seq<string>) | ChannelAdded(id: string)
    | ChannelCheckFailed(failure: ChannelFailure)
    // add_social
    | InvalidSocial | SocialAdded(url: string)
    // a TypeError thrown outside the handler's try block (a message without text)
    | Crashed
    // the Cancel and Back keyboard buttons
    | Dismissed

  /** getChatMember's answer for the bot in the channel named, or the error it threw. */
  datatype MemberLookup = MemberFound(member: ChatMember) | LookupFailed(error: TransportError)

  /**
   * What the handlers learn from outside for one event: the id generateQueryId
   * yields, the chats (by `String(id)`) a `sendMessage` to fails, and the bot's
   * membership in the channel the message names.
   */
  datatype Env = Env(queryId: QueryId, unreachable: set<string>, member: MemberLookup)

  function Pass(s: State): Step {
    Step(s, PassThrough)
  }

  function Clear(s: State, sender: UserId): State {
    s.(registry := DeleteResponse(s.registry, sender))
  }

  /** `escapeHtml(text)` with a missing text taking escapeHtml's default `""`. */
  function Escaped(text: Option<string>): string {
    EscapeHtml(text.GetOr(""))
  }

  // ---------------------------------------------------------------- admin_user_id

  function AdminUserIdStep(s: State, sender: UserId, text: Option<string>): (r: Step)
    ensures !Awaits(s.registry, sender, TagAdminUserId) ==> r == Pass(s)
    ensures text.None? || text == Some("") ==> r == Pass(s)
    ensures r.result.PassThrough? ==> r.state == s
    ensures r.state.registry == s.registry || r.state.registry == DeleteResponse(s.registry, sender)
    ensures r.state.pending == s.pending && r.state.db == s.db
  {
    if !Awaits(s.registry, sender, TagAdminUserId) then Pass(s)
    else if text.None? || text.value == "" then Pass(s)
    else
      match ParseInteger(Trim(text.value))
      case None => Step(s, Handled(InvalidUserId))
      case Some(id) =>
        if id !in s.db.users then Step(s, Handled(UserNotFound))
        else Step(Clear(s, sender), Handled(UserSettings(id)))
  }

  /** The intent stays on an unparsable id or an unknown user, and is cleared once the user is found. */
  lemma AdminUserIdKeepsUntilFound(s: State, sender: UserId, text: string)
    requires Awaits(s.registry, sender, TagAdminUserId) && text != ""
    ensures var r := AdminUserIdStep(s, sender, Some(text));
      match ParseInteger(Trim(text))
      case None => r == Step(s, Handled(InvalidUserId))
      case Some(id) =>
        if id in s.db.users then r == Step(Clear(s, sender), Handled(UserSettings(id)))
        else r == Step(s, Handled(UserNotFound))
  {
  }

  // ---------------------------------------------------------------- admin_balance_amount

  function BalanceStep(s: State, sender: UserId, text: Option<string>): (r: Step)
    ensures !Awaits(s.registry, sender, TagBalanceAmount) ==> r == Pass(s)
    ensures r.result.PassThrough? ==> r.state == s
    ensures r.state.registry == s.registry || r.state.registry == DeleteResponse(s.registry, sender)
    ensures r.state.pending == s.pending
    ensures r.state.db.tasks == s.db.tasks && r.state.db.admins == s.db.admins
    ensures r.state.db.channels == s.db.channels && r.state.db.socials == s.db.socials
  {
    if !Awaits(s.registry, sender, TagBalanceAmount) then Pass(s)
    else
      var target := s.registry[sender].payload.userId;
      if target.None? || target.value == 0 then Step(Clear(s, sender), Handled(InvalidUserSelection))
      else if target.value !in s.db.users then Step(Clear(s, sender), Handled(BalanceUserNotFound))
      else if text.None? || text.value == "" then Pass(s)
      else
        match ParseInteger(Trim(text.value))
        case None => Step(s, Handled(InvalidAmount))
        case Some(amount) =>
          if !AmountInRange(amount) then Step(s, Handled(InvalidAmount))
          else
            var user := target.value;
            match IncBalance(s.db.users[user].balance, amount)
            case None => Step(Clear(s, sender), Handled(BalanceUpdateFailed))
            case Some(b) =>
              var users := s.db.users[user := s.db.users[user].(balance := b)];
              Step(Clear(s, sender).(db := s.db.(users := users)), Handled(BalanceAdded(user, amount)))
  }

  /** A non-numeric amount or one beyond a billion either way is refused; the intent and balances stay. */
  lemma BalanceRejectsBadAmount(s: State, sender: UserId, text: string)
    requires Awaits(s.registry, sender, TagBalanceAmount)
    requires var t := s.registry[sender].payload.userId; t.Some? && t.value != 0 && t.value in s.db.users
    requires text != ""
    requires ParseInteger(Trim(text)).None? || !AmountInRange(ParseInteger(Trim(text)).value)
    ensures BalanceStep(s, sender, Some(text)) == Step(s, Handled(InvalidAmount))
  {
  }

  /**
   * An accepted amount clears the intent and moves the target's numeric balance
   * by exactly the amount (a missing balance starts from zero); nobody else's
   * balance changes.
   */
  lemma BalanceAddsExactly(s: State, sender: UserId, text: string, amount: int)
    requires Awaits(s.registry, sender, TagBalanceAmount)
    requires var t := s.registry[sender].payload.userId; t.Some? && t.value != 0 && t.value in s.db.users
    requires text != "" && ParseInteger(Trim(text)) == Some(amount) && AmountInRange(amount)
    ensures var user := s.registry[sender].payload.userId.value;
      var r := BalanceStep(s, sender, Some(text));
      && r.state.registry == DeleteResponse(s.registry, sender)
      && (forall v :: v != user ==> (v in r.state.db.users <==> v in s.db.users))
      && (forall v :: v != user && v in s.db.users ==> r.state.db.users[v] == s.db.users[v])
      && match s.db.users[user].balance
         case Amount(n) => r.result == Handled(BalanceAdded(user, amount)) && r.state.db.users[user].balance == Amount(n + amount)
         case Missing => r.result == Handled(BalanceAdded(user, amount)) && r.state.db.users[user].balance == Amount(amount)
         case NonNumeric => r.result == Handled(BalanceUpdateFailed) && r.state.db == s.db
  {
  }

  /** Without a target user id, or with one the store does not hold, the intent is cleared and nothing else changes. */
  lemma BalanceMissingTarget(s: State, sender: UserId, text: Option<string>)
    requires Awaits(s.registry, sender, TagBalanceAmount)
    requires var t := s.registry[sender].payload.userId; t.None? || t.value == 0 || t.value !in s.db.users
    ensures var r := BalanceStep(s, sender, text);
      r.state == Clear(s, sender) && r.result.Handled?
      && r.result.reply in {InvalidUserSelection, BalanceUserNotFound}
  {
  }

  // ---------------------------------------------------------------- fan-out

  /** Whether a `sendMessage` to `chat` succeeds. */
  predicate Reachable(chat: Scalar, unreachable: set<string>) {
    ToStr(chat) !in unreachable
  }

  /**
   * How many admins the sequential fan-out reaches: the admins before the first
   * one whose send fails, or all of them.
   */
  function FirstUnreachable(admins: seq<Scalar>, unreachable: set<string>): (k: nat)
    ensures k <= |admins|
    ensures forall i :: 0 <= i < k ==> Reachable(admins[i], unreachable)
    ensures k < |admins| ==> !Reachable(admins[k], unreachable)
  {
    if admins == [] || !Reachable(admins[0], unreachable) then 0
    else 1 + FirstUnreachable(admins[1..], unreachable)
  }

  // ---------------------------------------------------------------- support

  function SupportStep(config: seq<Scalar>, s: State, sender: UserId, text: Option<string>, env: Env): (r: Step)
    ensures !Awaits(s.registry, sender, TagSupport) ==> r == Pass(s)
    ensures r.result.PassThrough? ==> r.state == s
    ensures r.state.registry == s.registry || r.state.registry == DeleteResponse(s.registry, sender)
    ensures r.state.db == s.db
  {
    if !Awaits(s.registry, sender, TagSupport) then Pass(s)
    else
      var held := if sender in s.pending then s.pending[sender] else {};
      var cleared := Clear(s, sender);
      if |held| >= MaxPendingQueries then Step(cleared, Handled(QueryCapReached))
      else
        var k := FirstUnreachable(config, env.unreachable);
        Step(cleared.(pending := s.pending[sender := held + {env.queryId}]),
             Handled(QueryForwarded(env.queryId, Escaped(text), config[..k], k == |config|)))
  }

  /**
   * A support message always clears the intent. At the cap nothing is recorded
   * and no admin is messaged; below it the new id joins the sender's set whether
   * or not the fan-out completes, and the admins reached are those before the
   * first failed send.
   */
  lemma SupportAdmitsBelowCap(config: seq<Scalar>, s: State, sender: UserId, text: Option<string>, env: Env)
    requires Awaits(s.registry, sender, TagSupport)
    ensures var r := SupportStep(config, s, sender, text, env);
      var held := if sender in s.pending then s.pending[sender] else {};
      && r.state.registry == DeleteResponse(s.registry, sender)
      && (|held| >= MaxPendingQueries ==> r.state.pending == s.pending && r.result == Handled(QueryCapReached))
      && (|held| < MaxPendingQueries ==>
            && r.state.pending == s.pending[sender := held + {env.queryId}]
            && r.result.Handled? && r.result.reply.QueryForwarded?
            && r.result.reply.body == EscapeHtml(text.GetOr(""))
            && (forall i :: 0 <= i < |r.result.reply.notified| ==> Reachable(r.result.reply.notified[i], env.unreachable))
            && (r.result.reply.complete <==> r.result.reply.notified == config)
            && (!r.result.reply.complete ==>
                  |r.result.reply.notified| < |config|
                  && config[..|r.result.reply.notified|] == r.result.reply.notified
                  && !Reachable(config[|r.result.reply.notified|], env.unreachable)))
  {
  }

  /** The support handler never takes a user past the cap. */
  lemma SupportKeepsBound(config: seq<Scalar>, s: State, sender: UserId, text: Option<string>, env: Env)
    requires PendingBounded(s.pending)
    ensures PendingBounded(SupportStep(config, s, sender, text, env).state.pending)
  {
    var r := SupportStep(config, s, sender, text, env);
    if Awaits(s.registry, sender, TagSupport) {
      var held := if sender in s.pending then s.pending[sender] else {};
      if |held| < MaxPendingQueries {
        assert |held + {env.queryId}| <= |held| + 1;
      }
    }
  }

  // ---------------------------------------------------------------- reply_to_query

  /** Resolving a query: its id leaves the user's set, and the set is dropped once empty. */
  function Resolve(p: Pending, user: UserId, queryId: Option<QueryId>): (r: Pending)
    ensures forall v :: v != user ==> (v in r <==> v in p)
    ensures forall v :: v != user && v in p ==> r[v] == p[v]
    ensures user in r ==> user in p && 0 < |r[user]| && r[user] <= p[user]
    ensures user in r && queryId.Some? ==> queryId.value !in r[user]
    ensures user in p && queryId.Some? ==>
      && (p[user] - {queryId.value} == {} ==> user !in r)
      && (p[user] - {queryId.value} != {} ==> user in r && r[user] == p[user] - {queryId.value})
    ensures user in p && 0 < |p[user]| && (queryId.None? || queryId.value !in p[user]) ==> r == p
  {
    if user !in p then p
    else
      var rest := if queryId.Some? then p[user] - {queryId.value} else p[user];
      assert queryId.None? || queryId.value !in p[user] ==> rest == p[user];
      if |rest| == 0 then p - {user}
      else
        assert rest == p[user] ==> p[user := rest] == p;
        p[user := rest]
  }

  /** The chat key of a user id: `String(userId)`. */
  function UserChat(user: UserId): Scalar {
    Num(user)
  }

  function ReplyStep(s: State, sender: UserId, text: Option<string>, env: Env): (r: Step)
    ensures !Awaits(s.registry, sender, TagReplyToQuery) ==> r == Pass(s)
    ensures r.result.PassThrough? ==> r.state == s
    ensures r.state.registry == s.registry || r.state.registry == DeleteResponse(s.registry, sender)
    ensures r.state.db == s.db
  {
    if !Awaits(s.registry, sender, TagReplyToQuery) then Pass(s)
    else
      var p := s.registry[sender].payload;
      var cleared := Clear(s, sender);
      if p.userId.None? || !Reachable(UserChat(p.userId.value), env.unreachable) then
        Step(cleared, Handled(AnswerFailed))
      else
        Step(cleared.(pending := Resolve(s.pending, p.userId.value, p.queryId)),
             Handled(AnswerDelivered(p.userId.value, Escaped(text))))
  }

  /** An answer that cannot be sent clears the admin's intent and leaves every outstanding query as it was. */
  lemma ReplyFailureKeepsQueries(s: State, sender: UserId, text: Option<string>, env: Env)
    requires Awaits(s.registry, sender, TagReplyToQuery)
    requires var p := s.registry[sender].payload;
      p.userId.None? || !Reachable(UserChat(p.userId.value), env.unreachable)
    ensures ReplyStep(s, sender, text, env) == Step(Clear(s, sender), Handled(AnswerFailed))
  {
  }

  /**
   * An answer that reaches the user clears the admin's intent; the query id
   * leaves the user's set, the set goes once empty, and nobody else's changes.
   */
  lemma ReplyResolvesOnDelivery(s: State, sender: UserId, text: Option<string>, env: Env)
    requires Awaits(s.registry, sender, TagReplyToQuery)
    requires var p := s.registry[sender].payload;
      p.userId.Some? && Reachable(UserChat(p.userId.value), env.unreachable)
    ensures var r := ReplyStep(s, sender, text, env);
      var p := s.registry[sender].payload;
      var u := p.userId.value;
      && r.state.registry == DeleteResponse(s.registry, sender)
      && r.result == Handled(AnswerDelivered(u, EscapeHtml(text.GetOr(""))))
      && (forall v :: v != u ==> (v in r.state.pending <==> v in s.pending))
      && (forall v :: v != u && v in s.pending ==> r.state.pending[v] == s.pending[v])
      && (u in r.state.pending ==> u in s.pending && 0 < |r.state.pending[u]| && r.state.pending[u] <= s.pending[u])
      && (p.queryId.Some? && u in r.state.pending ==> p.queryId.value !in r.state.pending[u])
      && (p.queryId.Some? && u in s.pending ==>
            var rest := s.pending[u] - {p.queryId.value};
            && (rest == {} ==> u !in r.state.pending)
            && (rest != {} ==> u in r.state.pending && r.state.pending[u] == rest))
  {
    var p := s.registry[sender].payload;
    assert ReplyStep(s, sender, text, env).state.pending == Resolve(s.pending, p.userId.value, p.queryId);
  }

  /** Answering a query that is not outstanding still delivers the answer and changes no outstanding set. */
  lemma ReplyUnknownQueryIsNoop(s: State, sender: UserId, text: Option<string>, env: Env)
    requires Awaits(s.registry, sender, TagReplyToQuery) && PendingBounded(s.pending)
    requires var p := s.registry[sender].payload;
      p.userId.Some? && Reachable(UserChat(p.userId.value), env.unreachable)
      && (p.userId.value !in s.pending || p.queryId.None? || p.queryId.value !in s.pending[p.userId.value])
    ensures var r := ReplyStep(s, sender, text, env);
      r.state.pending == s.pending && r.result.Handled? && r.result.reply.AnswerDelivered?
  {
  }

  /** The reply handler never grows a set and never leaves an empty one behind. */
  lemma ReplyKeepsBound(s: State, sender: UserId, text: Option<string>, env: Env)
    requires PendingBounded(s.pending)
    ensures PendingBounded(ReplyStep(s, sender, text, env).state.pending)
  {
    var r := ReplyStep(s, sender, text, env);
    if Awaits(s.registry, sender, TagReplyToQuery) {
      var p := s.registry[sender].payload;
      if p.userId.Some? && Reachable(UserChat(p.userId.value), env.unreachable) {
        var u := p.userId.value;
        if u in r.state.pending {
          SubsetCard(r.state.pending[u], s.pending[u]);
        }
      }
    }
  }

  lemma SubsetCard<T>(a: set<T>, b: set<T>)
    requires a <= b
    ensures |a| <= |b|
  {
    assert b == a + (b - a);
  }

  // ---------------------------------------------------------------- admin_edit_task_*

  /** The three edit-task handlers differ only in their tag and the field they set. */
  function EditTaskStep(s: State, sender: UserId, text: Option<string>, tag: string, field: TaskField): (r: Step)
    ensures !Awaits(s.registry, sender, tag) ==> r == Pass(s)
    ensures r.result.PassThrough? ==> r.state == s
    ensures r.state.registry == s.registry || r.state.registry == DeleteResponse(s.registry, sender)
    ensures r.state.pending == s.pending
  {
    if !Awaits(s.registry, sender, tag) then Pass(s)
    else
      var taskId := s.registry[sender].payload.taskId;
      var cleared := Clear(s, sender);
      if field == MessageText && text.None? then Step(cleared, Handled(TaskUpdateError))
      else
        var value := if field == MessageText then Some(FormatText(text.value)) else text;
        if taskId.None? || taskId.value !in s.db.tasks then Step(cleared, Handled(TaskNotFound))
        else
          var tasks := s.db.tasks[taskId.value := SetField(s.db.tasks[taskId.value], field, value)];
          Step(cleared.(db := s.db.(tasks := tasks)), Handled(TaskUpdated(field)))
  }

  /**
   * An edit always clears the intent first. It sets only the named field of the
   * payload's task (the message text after formatText) and nothing else, or
   * reports a missing task with the store unchanged.
   */
  lemma EditTaskSetsOneField(s: State, sender: UserId, text: string, tag: string, field: TaskField)
    requires Awaits(s.registry, sender, tag)
    ensures var r := EditTaskStep(s, sender, Some(text), tag, field);
      var taskId := s.registry[sender].payload.taskId;
      var value := if field == MessageText then FormatText(text) else text;
      && r.state.registry == DeleteResponse(s.registry, sender)
      && (taskId.None? || taskId.value !in s.db.tasks ==> r == Step(Clear(s, sender), Handled(TaskNotFound)))
      && (taskId.Some? && taskId.value in s.db.tasks ==>
            var t := s.db.tasks[taskId.value];
            r == Step(Clear(s, sender).(db := s.db.(tasks := s.db.tasks[taskId.value := SetField(t, field, Some(value))])),
                      Handled(TaskUpdated(field))))
  {
  }

  /**
   * A message without text still clears the intent. The message-text handler
   * then fails in formatText and reports an error with the store unchanged; the
   * name and media-url handlers set their field to null.
   */
  lemma EditTaskWithoutText(s: State, sender: UserId, tag: string, field: TaskField)
    requires Awaits(s.registry, sender, tag)
    ensures var r := EditTaskStep(s, sender, None, tag, field);
      var taskId := s.registry[sender].payload.taskId;
      && r.state.registry == DeleteResponse(s.registry, sender)
      && (field == MessageText ==> r == Step(Clear(s, sender), Handled(TaskUpdateError)))
      && (field != MessageText && (taskId.None? || taskId.value !in s.db.tasks) ==>
            r == Step(Clear(s, sender), Handled(TaskNotFound)))
      && (field != MessageText && taskId.Some? && taskId.value in s.db.tasks ==>
            var t := s.db.tasks[taskId.value];
            r == Step(Clear(s, sender).(db := s.db.(tasks := s.db.tasks[taskId.value := SetField(t, field, None)])),
                      Handled(TaskUpdated(field))))
  {
  }

  // ---------------------------------------------------------------- add_admin_id

  /**
   * `adminData?.admins?.includes(answer)` for the shapes that have no `includes`
   * to throw on: an array holds the id as an element, while a string matches any
   * substring of it (so `"12"` is found in `"123,456"`).
   */
  function StoredIncludes(stored: StoredAdmins, answer: string): (b: bool)
    ensures b ==> stored.AdminList? || stored.AdminCsv?
    ensures stored.AdminList? ==> (b <==> Str(answer) in stored.items)
    ensures stored.AdminCsv? ==> (b <==> exists i :: 0 <= i <= |stored.text| && StartsWith(stored.text[i..], answer))
  {
    match stored
    case AdminList(items) => Str(answer) in items
    case AdminCsv(text) => Includes(text, answer)
    case _ => false
  }

  /** `$addToSet: { admins: answer }` with upsert; `None` when the field is not an array. */
  function AddToSet(stored: StoredAdmins, answer: string): (r: Option<StoredAdmins>)
    ensures r.Some? ==> r.value.AdminList? && Str(answer) in r.value.items
    ensures stored.AdminList? ==> r.Some? && (forall x :: x in r.value.items <==> x in stored.items || x == Str(answer))
    ensures stored.AdminList? && Str(answer) in stored.items ==> r == Some(stored)
    ensures stored.AdminList? && Str(answer) !in stored.items ==> r == Some(AdminList(stored.items + [Str(answer)]))
    ensures stored.Absent? ==> r == Some(AdminList([Str(answer)]))
    ensures !stored.AdminList? && !stored.Absent? ==> r.None?
  {
    match stored
    case Absent => Some(AdminList([Str(answer)]))
    case AdminList(items) => Some(AdminList(if Str(answer) in items then items else items + [Str(answer)]))
    case _ => None
  }

  function AddAdminStep(config: seq<Scalar>, s: State, sender: UserId, text: Option<string>): (r: Step)
    ensures !Awaits(s.registry, sender, TagAddAdminId) ==> r == Pass(s)
    ensures r.result.PassThrough? ==> r.state == s
    ensures r.state.registry == s.registry || r.state.registry == DeleteResponse(s.registry, sender)
    ensures r.state.pending == s.pending
  {
    if !Awaits(s.registry, sender, TagAddAdminId) then Pass(s)
    else if text.None? then Step(s, Handled(Crashed))
    else
      var answer := Trim(text.value);
      var cleared := Clear(s, sender);
      var configured := answer in StringsOf(config);
      if s.db.admins.AdminOther? then Step(cleared, Handled(AddAdminFailed))
      else if configured || StoredIncludes(s.db.admins, answer) then
        Step(cleared, Handled(AlreadyAdmin(answer, configured)))
      else
        match AddToSet(s.db.admins, answer)
        case None => Step(cleared, Handled(AddAdminFailed))
        case Some(a) => Step(cleared.(db := s.db.(admins := a)), Handled(AdminAdded(answer)))
  }

  /**
   * The intent is cleared before the id is looked at. A configured or stored id
   * is refused with the store unchanged; a new one joins the stored list without
   * a duplicate.
   */
  lemma AddAdminIsSetUnion(config: seq<Scalar>, s: State, sender: UserId, text: string)
    requires Awaits(s.registry, sender, TagAddAdminId)
    ensures var r := AddAdminStep(config, s, sender, Some(text));
      var answer := Trim(text);
      && r.state.registry == DeleteResponse(s.registry, sender)
      && (r.result == Handled(AdminAdded(answer)) ==>
            && answer !in StringsOf(config)
            && r.state.db.admins.AdminList?
            && (forall x :: x in r.state.db.admins.items <==> x == Str(answer) || (s.db.admins.AdminList? && x in s.db.admins.items))
            && (s.db.admins.AdminList? ==> |r.state.db.admins.items| == |s.db.admins.items| + 1))
      && (r.result != Handled(AdminAdded(answer)) ==> r.state.db == s.db)
      && (answer in StringsOf(config) ==> r.result.reply in {AlreadyAdmin(answer, true), AddAdminFailed})
  {
  }

  /** An id already in the stored array is refused as an admin, with the store unchanged. */
  lemma AddAdminRefusesStored(config: seq<Scalar>, s: State, sender: UserId, text: string)
    requires Awaits(s.registry, sender, TagAddAdminId)
    requires s.db.admins.AdminList? && Str(Trim(text)) in s.db.admins.items
    ensures var answer := Trim(text);
      AddAdminStep(config, s, sender, Some(text))
        == Step(Clear(s, sender), Handled(AlreadyAdmin(answer, answer in StringsOf(config))))
  {
  }

  /**
   * An id neither configured nor stored is added: appended once to a stored
   * array, or as the one element of a new array when the field is absent.
   */
  lemma AddAdminAddsFresh(config: seq<Scalar>, s: State, sender: UserId, text: string)
    requires Awaits(s.registry, sender, TagAddAdminId)
    requires Trim(text) !in StringsOf(config)
    requires s.db.admins.Absent? || (s.db.admins.AdminList? && Str(Trim(text)) !in s.db.admins.items)
    ensures var answer := Trim(text);
      var admins := if s.db.admins.Absent? then [Str(answer)] else s.db.admins.items + [Str(answer)];
      AddAdminStep(config, s, sender, Some(text))
        == Step(Clear(s, sender).(db := s.db.(admins := AdminList(admins))), Handled(AdminAdded(answer)))
  {
  }

  /** On a comma-delimited stored value the duplicate test is a substring test: a fragment of a stored id is refused. */
  lemma AddAdminCsvMatchesFragment(s: State, sender: UserId)
    requires Awaits(s.registry, sender, TagAddAdminId)
    requires s.db.admins == AdminCsv("12345,678")
    ensures AddAdminStep([], s, sender, Some("234")) == Step(Clear(s, sender), Handled(AlreadyAdmin("234", false)))
  {
    TrimKeepsUnpadded("234");
    assert StartsWith("12345,678"[1..], "234");
  }

  // ---------------------------------------------------------------- admin_channel_id

  function ChannelStep(s: State, sender: UserId, text: Option<string>, env: Env): (r: Step)
    ensures !Awaits(s.registry, sender, TagChannelId) ==> r == Pass(s)
    ensures r.result.PassThrough? ==> r.state == s
    ensures r.state.registry == s.registry || r.state.registry == DeleteResponse(s.registry, sender)
    ensures r.state.pending == s.pending
  {
    if !Awaits(s.registry, sender, TagChannelId) then Pass(s)
    else if text.None? then Step(s, Handled(Crashed))
    else
      var answer := Trim(text.value);
      if !IsChannelId(answer) then Step(s, Handled(InvalidChannelFormat))
      else
        match env.member
        case LookupFailed(e) => Step(s, Handled(ChannelCheckFailed(ClassifyError(e))))
        case MemberFound(m) =>
          match CheckPrivilege(m)
          case NotAdmin => Step(s, Handled(BotNotAdmin))
          case LacksRights(rights) => Step(s, Handled(MissingRights(rights)))
          case Privileged =>
            Step(Clear(s, sender).(db := s.db.(channels := s.db.channels + [answer])), Handled(ChannelAdded(answer)))
  }

  /**
   * Only a well-formed id of a channel where the bot is an administrator or the
   * creator with the 'Change Channel Info' right is appended (duplicates
   * included) and clears the intent; every rejection keeps intent and store.
   */
  lemma ChannelOnlySuccessRegisters(s: State, sender: UserId, text: string, env: Env)
    requires Awaits(s.registry, sender, TagChannelId)
    ensures var r := ChannelStep(s, sender, Some(text), env);
      var answer := Trim(text);
      && (!IsChannelId(answer) ==> r == Step(s, Handled(InvalidChannelFormat)))
      && (IsChannelId(answer) && env.member.MemberFound? ==>
            var m := env.member.member;
            && (m.status != "administrator" && m.status != "creator" ==> r == Step(s, Handled(BotNotAdmin)))
            && ((m.status == "administrator" || m.status == "creator") && !m.canChangeInfo ==>
                  r == Step(s, Handled(MissingRights([ChangeInfoRight])))))
      && (IsChannelId(answer) && env.member.MemberFound? && CheckPrivilege(env.member.member).Privileged? ==>
            r == Step(Clear(s, sender).(db := s.db.(channels := s.db.channels + [answer])), Handled(ChannelAdded(answer))))
      && (r.state != s ==>
            && IsChannelId(answer) && env.member.MemberFound? && CheckPrivilege(env.member.member).Privileged?
            && r.state == Clear(s, sender).(db := s.db.(channels := s.db.channels + [answer]))
            && r.result == Handled(ChannelAdded(answer)))
  {
  }

  // ---------------------------------------------------------------- add_social

  function SocialStep(s: State, sender: UserId, text: Option<string>): (r: Step)
    ensures !Awaits(s.registry, sender, TagAddSocial) ==> r == Pass(s)
    ensures r.result.PassThrough? ==> r.state == s
    ensures r.state.registry == s.registry || r.state.registry == DeleteResponse(s.registry, sender)
    ensures r.state.pending == s.pending
  {
    if !Awaits(s.registry, sender, TagAddSocial) then Pass(s)
    else if text.None? then Step(s, Handled(Crashed))
    else
      var (buttonText, url) := SplitSocial(text.value);
      if !ValidSocial(buttonText, url) then Step(s, Handled(InvalidSocial))
      else
        Step(Clear(s, sender).(db := s.db.(socials := s.db.socials + [SocialLink(buttonText, url)])), Handled(SocialAdded(url)))
  }

  /**
   * An accepted link is the text split at its first `-`: the label holds no `-`,
   * label, `-` and url give back the message, and the url is http(s). A refused
   * one keeps the intent and the store.
   */
  lemma SocialSplitsAtFirstDash(s: State, sender: UserId, text: string)
    requires Awaits(s.registry, sender, TagAddSocial)
    ensures var r := SocialStep(s, sender, Some(text));
      && (r.result.Handled? && r.result.reply.SocialAdded? ==>
            && |r.state.db.socials| == |s.db.socials| + 1
            && var link := r.state.db.socials[|s.db.socials|];
            && link.buttonText + "-" + link.url == text
            && '-' !in link.buttonText && link.buttonText != ""
            && (StartsWith(link.url, "https://") || StartsWith(link.url, "http://"))
            && r.state.registry == DeleteResponse(s.registry, sender))
      && (r.result == Handled(InvalidSocial) ==> r.state == s)
      && (ValidSocial(SplitSocial(text).0, SplitSocial(text).1) ==>
            r == Step(Clear(s, sender).(db := s.db.(socials := s.db.socials + [SocialLink(SplitSocial(text).0, SplitSocial(text).1)])),
                      Handled(SocialAdded(SplitSocial(text).1))))
      && (!ValidSocial(SplitSocial(text).0, SplitSocial(text).1) ==> r == Step(s, Handled(InvalidSocial)))
  {
  }

  // ---------------------------------------------------------------- the chain

  /** The `i`-th handler of the chain. */
  function RunHandler(i: nat, config: seq<Scalar>, s: State, sender: UserId, text: Option<string>, env: Env): (r: Step)
    requires i < |Chain|
    ensures !Awaits(s.registry, sender, Chain[i]) ==> r == Pass(s)
    ensures r.result.PassThrough? ==> r.state == s
    ensures r.state.registry == s.registry || r.state.registry == DeleteResponse(s.registry, sender)
  {
    if i == 0 then AdminUserIdStep(s, sender, text)
    else if i == 1 then BalanceStep(s, sender, text)
    else if i == 2 then SupportStep(config, s, sender, text, env)
    else if i == 3 then ReplyStep(s, sender, text, env)
    else if i == 4 then EditTaskStep(s, sender, text, TagEditTaskName, Name)
    else if i == 5 then EditTaskStep(s, sender, text, TagEditTaskMessage, MessageText)
    else if i == 6 then EditTaskStep(s, sender, text, TagEditTaskMediaUrl, MediaUrl)
    else if i == 7 then AddAdminStep(config, s, sender, text)
    else if i == 8 then ChannelStep(s, sender, text, env)
    else SocialStep(s, sender, text)
  }

  /** No single handler takes a user past `MAX_PENDING_QUERIES` outstanding queries or leaves an empty set. */
  lemma RunHandlerKeepsBound(i: nat, config: seq<Scalar>, s: State, sender: UserId, text: Option<string>, env: Env)
    requires i < |Chain| && PendingBounded(s.pending)
    ensures PendingBounded(RunHandler(i, config, s, sender, text, env).state.pending)
  {
    SupportKeepsBound(config, s, sender, text, env);
    ReplyKeepsBound(s, sender, text, env);
  }

  /** The chain from handler `i` on: the first handler that consumes the message wins. */
  function DispatchFrom(i: nat, config: seq<Scalar>, s: State, sender: UserId, text: Option<string>, env: Env): (r: Step)
    requires i <= |Chain|
    ensures r.result.PassThrough? ==> r.state == s
    decreases |Chain| - i
  {
    if i == |Chain| then Pass(s)
    else
      var h := RunHandler(i, config, s, sender, text, env);
      if h.result.Handled? then h else DispatchFrom(i + 1, config, h.state, sender, text, env)
  }

  /** One inbound message through the whole chain. */
  function DispatchMessage(config: seq<Scalar>, s: State, sender: UserId, text: Option<string>, env: Env): (r: Step)
    ensures r.result.PassThrough? ==> r.state == s
  {
    DispatchFrom(0, config, s, sender, text, env)
  }

  lemma {:induction false} DispatchFromSelects(i: nat, config: seq<Scalar>, s: State, sender: UserId, text: Option<string>, env: Env)
    requires i <= |Chain|
    ensures forall j :: i <= j < |Chain| && Awaits(s.registry, sender, Chain[j]) ==>
              DispatchFrom(i, config, s, sender, text, env) == RunHandler(j, config, s, sender, text, env)
    ensures (forall j :: i <= j < |Chain| ==> !Awaits(s.registry, sender, Chain[j])) ==>
              DispatchFrom(i, config, s, sender, text, env) == Pass(s)
    decreases |Chain| - i
  {
    if i < |Chain| {
      DispatchFromSelects(i + 1, config, s, sender, text, env);
      var h := RunHandler(i, config, s, sender, text, env);
      if Awaits(s.registry, sender, Chain[i]) {
        ChainTagsDistinct();
        assert forall j :: i < j < |Chain| ==> !Awaits(s.registry, sender, Chain[j]);
        assert h.result.PassThrough? ==> h == Pass(s);
      } else {
        assert h == Pass(s);
      }
    }
  }

  /**
   * Exactly the handler whose tag is the sender's target sees the message: with
   * no intent, or a target no handler answers to, the message passes through
   * and nothing changes.
   */
  lemma DispatchSelects(config: seq<Scalar>, s: State, sender: UserId, text: Option<string>, env: Env)
    ensures sender !in s.registry || s.registry[sender].target !in Chain ==>
              DispatchMessage(config, s, sender, text, env) == Pass(s)
    ensures forall i :: 0 <= i < |Chain| && Awaits(s.registry, sender, Chain[i]) ==>
              DispatchMessage(config, s, sender, text, env) == RunHandler(i, config, s, sender, text, env)
  {
    DispatchFromSelects(0, config, s, sender, text, env);
  }

  /** Whatever the chain does, the registry changes at most by the sender's own entry being cleared. */
  lemma {:induction false} DispatchTouchesOnlySender(config: seq<Scalar>, s: State, sender: UserId, text: Option<string>, env: Env)
    ensures var r := DispatchMessage(config, s, sender, text, env);
      r.state.registry == s.registry || r.state.registry == DeleteResponse(s.registry, sender)
  {
    DispatchSelects(config, s, sender, text, env);
    if sender in s.registry && s.registry[sender].target in Chain {
      var i :| 0 <= i < |Chain| && Chain[i] == s.registry[sender].target;
      var h := RunHandler(i, config, s, sender, text, env);
      assert DispatchMessage(config, s, sender, text, env) == h;
    }
  }

  /** No message takes a user past `MAX_PENDING_QUERIES` outstanding queries or leaves an empty set. */
  lemma DispatchKeepsPendingBounded(config: seq<Scalar>, s: State, sender: UserId, text: Option<string>, env: Env)
    requires PendingBounded(s.pending)
    ensures PendingBounded(DispatchMessage(config, s, sender, text, env).state.pending)
  {
    DispatchSelects(config, s, sender, text, env);
    if sender in s.registry && s.registry[sender].target in Chain {
      var i :| 0 <= i < |Chain| && Chain[i] == s.registry[sender].target;
      RunHandlerKeepsBound(i, config, s, sender, text, env);
    }
  }

  // ---------------------------------------------------------------- Cancel and Back

  /** `cancel_button` and `back_button`: texts the hears handlers take before any message handler. */
  const CancelButton := "Cancel"
  const BackButton := "Back"

  /** A text message, as the bot receives it: the two buttons first, then the chain. */
  function Receive(config: seq<Scalar>, s: State, sender: UserId, text: Option<string>, env: Env): (r: Step)
    ensures r.result.PassThrough? ==> r.state == s
  {
    if text == Some(CancelButton) || text == Some(BackButton) then Step(Clear(s, sender), Handled(Dismissed))
    else DispatchMessage(config, s, sender, text, env)
  }

  /**
   * Cancel and Back clear the sender's intent whatever it was waiting for, reach
   * no handler, and leave the outstanding queries, the store and every other
   * user's intent as they were.
   */
  lemma ButtonsDismiss(config: seq<Scalar>, s: State, sender: UserId, env: Env, button: string)
    requires button == CancelButton || button == BackButton
    ensures var r := Receive(config, s, sender, Some(button), env);
      && r.result == Handled(Dismissed)
      && sender !in r.state.registry
      && (forall v :: v != sender && v in s.registry ==> v in r.state.registry && r.state.registry[v] == s.registry[v])
      && r.state.pending == s.pending && r.state.db == s.db
  {
  }

  /** Any other message, a missing text included, goes down the handler chain unchanged. */
  lemma ReceiveDispatchesOtherText(config: seq<Scalar>, s: State, sender: UserId, text: Option<string>, env: Env)
    requires text != Some(CancelButton) && text != Some(BackButton)
    ensures Receive(config, s, sender, text, env) == DispatchMessage(config, s, sender, text, env)
  {
  }

  /** Receiving any message keeps every user within the outstanding-query cap. */
  lemma ReceiveKeepsPendingBounded(config: seq<Scalar>, s: State, sender: UserId, text: Option<string>, env: Env)
    requires PendingBounded(s.pending)
    ensures PendingBounded(Receive(config, s, sender, text, env).state.pending)
  {
    if !(text == Some(CancelButton) || text == Some(BackButton)) {
      DispatchKeepsPendingBounded(config, s, sender, text, env);
    }
  }
}
