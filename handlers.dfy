/**
 * response_handlers.js as it runs: the module-level `response_data` and
 * `pendingQueries` maps and the document store are fields that the handlers
 * update step by step. Each handler is proved to do what its step function in
 * Dispatch says, so the lemmas proved there hold of this object.
 */
module Handlers {
  import opened Common
  import opened Strings
  import opened Functions
  import opened Validators
  import opened Intents
  import opened Dispatch

  /**
   * The admin fan-out of the support handler: `sendMessage` to each configured
   * admin in order, stopping at the first send that throws.
   */
  method FanOut(admins: seq<Scalar>, unreachable: set<string>) returns (notified: seq<Scalar>, complete: bool)
    ensures notified == admins[..FirstUnreachable(admins, unreachable)]
    ensures complete <==> notified == admins
  {
    notified := [];
    var i := 0;
    while i < |admins|
      invariant 0 <= i <= |admins|
      invariant notified == admins[..i]
      invariant forall j :: 0 <= j < i ==> Reachable(admins[j], unreachable)
    {
      if !Reachable(admins[i], unreachable) {
        return notified, false;
      }
      notified := notified + [admins[i]];
      i := i + 1;
    }
    assert admins[..i] == admins;
    return notified, true;
  }

  class ResponseHandlers {
    /** `response_data`: the intent each user's next message answers. */
    var responseData: Registry
    /** `pendingQueries`: support queries not yet answered, per user. */
    var pendingQueries: Pending
    /** The collections the handlers read and write. */
    var db: Store
    /** `config.admins`. */
    const admins: seq<Scalar>

    function Snapshot(): State
      reads this
    {
      State(responseData, pendingQueries, db)
    }

    ghost predicate Valid()
      reads this
    {
      PendingBounded(pendingQueries)
    }

    constructor(admins: seq<Scalar>, db: Store)
      ensures this.admins == admins && this.db == db
      ensures responseData == map[] && pendingQueries == map[]
      ensures Valid()
    {
      this.admins := admins;
      this.db := db;
      responseData := map[];
      pendingQueries := map[];
    }

    /** `create_response`: the user's next message answers `target`. */
    method CreateResponse(user: UserId, target: string, payload: Payload := Payload(None, None, None), backCommand: Option<string> := None)
      modifies this
      ensures responseData == Intents.CreateResponse(old(responseData), user, target, payload, backCommand)
      ensures pendingQueries == old(pendingQueries) && db == old(db)
    {
      responseData := Intents.CreateResponse(responseData, user, target, payload, backCommand);
    }

    /** `delete_response`: the user's intent, if any, is dropped. */
    method DeleteResponse(user: UserId)
      modifies this
      ensures responseData == Intents.DeleteResponse(old(responseData), user)
      ensures pendingQueries == old(pendingQueries) && db == old(db)
    {
      responseData := Intents.DeleteResponse(responseData, user);
    }

    method HandleAdminUserId(sender: UserId, text: Option<string>) returns (r: Dispatched)
      modifies this
      ensures Step(Snapshot(), r) == AdminUserIdStep(old(Snapshot()), sender, text)
    {
      if !Awaits(responseData, sender, TagAdminUserId) || text.None? || text.value == "" {
        return PassThrough;
      }
      var userId := ParseInteger(Trim(text.value));
      if userId.None? {
        return Handled(InvalidUserId);
      }
      if userId.value !in db.users {
        return Handled(UserNotFound);
      }
      DeleteResponse(sender);
      return Handled(UserSettings(userId.value));
    }

    method HandleBalance(sender: UserId, text: Option<string>) returns (r: Dispatched)
      modifies this
      ensures Step(Snapshot(), r) == BalanceStep(old(Snapshot()), sender, text)
    {
      if !Awaits(responseData, sender, TagBalanceAmount) {
        return PassThrough;
      }
      var target := responseData[sender].payload.userId;
      if target.None? || target.value == 0 {
        DeleteResponse(sender);
        return Handled(InvalidUserSelection);
      }
      var user := target.value;
      if user !in db.users {
        DeleteResponse(sender);
        return Handled(BalanceUserNotFound);
      }
      if text.None? || text.value == "" {
        return PassThrough;
      }
      var amount := ParseInteger(Trim(text.value));
      if amount.None? || !AmountInRange(amount.value) {
        return Handled(InvalidAmount);
      }
      // the reset of a non-numeric balance filters on a field no user has: it changes nothing
      DeleteResponse(sender);
      var balance := IncBalance(db.users[user].balance, amount.value);
      if balance.None? {
        return Handled(BalanceUpdateFailed);
      }
      db := db.(users := db.users[user := db.users[user].(balance := balance.value)]);
      return Handled(BalanceAdded(user, amount.value));
    }

    method HandleSupport(sender: UserId, text: Option<string>, env: Env) returns (r: Dispatched)
      requires Valid()
      modifies this
      ensures Step(Snapshot(), r) == SupportStep(admins, old(Snapshot()), sender, text, env)
      ensures Valid()
    {
      SupportKeepsBound(admins, Snapshot(), sender, text, env);
      if !Awaits(responseData, sender, TagSupport) {
        return PassThrough;
      }
      var held := if sender in pendingQueries then pendingQueries[sender] else {};
      DeleteResponse(sender);
      if |held| >= MaxPendingQueries {
        return Handled(QueryCapReached);
      }
      pendingQueries := pendingQueries[sender := held + {env.queryId}];
      var notified, complete := FanOut(admins, env.unreachable);
      return Handled(QueryForwarded(env.queryId, Escaped(text), notified, complete));
    }

    method HandleReply(sender: UserId, text: Option<string>, env: Env) returns (r: Dispatched)
      requires Valid()
      modifies this
      ensures Step(Snapshot(), r) == ReplyStep(old(Snapshot()), sender, text, env)
      ensures Valid()
    {
      ReplyKeepsBound(Snapshot(), sender, text, env);
      if !Awaits(responseData, sender, TagReplyToQuery) {
        return PassThrough;
      }
      var payload := responseData[sender].payload;
      DeleteResponse(sender);
      if payload.userId.None? || !Reachable(UserChat(payload.userId.value), env.unreachable) {
        return Handled(AnswerFailed);
      }
      var user := payload.userId.value;
      if user in pendingQueries {
        var rest := pendingQueries[user];
        if payload.queryId.Some? {
          rest := rest - {payload.queryId.value};
        }
        if |rest| == 0 {
          pendingQueries := pendingQueries - {user};
        } else {
          pendingQueries := pendingQueries[user := rest];
        }
      }
      return Handled(AnswerDelivered(user, Escaped(text)));
    }

    /** The name, message-text and media-url handlers, which differ in their tag and field. */
    method HandleEditTask(sender: UserId, text: Option<string>, tag: string, field: TaskField) returns (r: Dispatched)
      modifies this
      ensures Step(Snapshot(), r) == EditTaskStep(old(Snapshot()), sender, text, tag, field)
    {
      if !Awaits(responseData, sender, tag) {
        return PassThrough;
      }
      var taskId := responseData[sender].payload.taskId;
      DeleteResponse(sender);
      if field == MessageText && text.None? {
        return Handled(TaskUpdateError);
      }
      var value := if field == MessageText then Some(FormatText(text.value)) else text;
      if taskId.None? || taskId.value !in db.tasks {
        return Handled(TaskNotFound);
      }
      db := db.(tasks := db.tasks[taskId.value := SetField(db.tasks[taskId.value], field, value)]);
      return Handled(TaskUpdated(field));
    }

    method HandleAddAdmin(sender: UserId, text: Option<string>) returns (r: Dispatched)
      modifies this
      ensures Step(Snapshot(), r) == AddAdminStep(admins, old(Snapshot()), sender, text)
    {
      if !Awaits(responseData, sender, TagAddAdminId) {
        return PassThrough;
      }
      if text.None? {
        return Handled(Crashed);
      }
      var answer := Trim(text.value);
      DeleteResponse(sender);
      var configured := answer in StringsOf(admins);
      if db.admins.AdminOther? {
        return Handled(AddAdminFailed);
      }
      if configured || StoredIncludes(db.admins, answer) {
        return Handled(AlreadyAdmin(answer, configured));
      }
      var added := AddToSet(db.admins, answer);
      if added.None? {
        return Handled(AddAdminFailed);
      }
      db := db.(admins := added.value);
      return Handled(AdminAdded(answer));
    }

    method HandleChannel(sender: UserId, text: Option<string>, env: Env) returns (r: Dispatched)
      modifies this
      ensures Step(Snapshot(), r) == ChannelStep(old(Snapshot()), sender, text, env)
    {
      if !Awaits(responseData, sender, TagChannelId) {
        return PassThrough;
      }
      if text.None? {
        return Handled(Crashed);
      }
      var answer := Trim(text.value);
      if !IsChannelId(answer) {
        return Handled(InvalidChannelFormat);
      }
      if env.member.LookupFailed? {
        return Handled(ChannelCheckFailed(ClassifyError(env.member.error)));
      }
      var privilege := CheckPrivilege(env.member.member);
      if privilege.NotAdmin? {
        return Handled(BotNotAdmin);
      }
      if privilege.LacksRights? {
        return Handled(MissingRights(privilege.rights));
      }
      db := db.(channels := db.channels + [answer]);
      DeleteResponse(sender);
      return Handled(ChannelAdded(answer));
    }

    method HandleSocial(sender: UserId, text: Option<string>) returns (r: Dispatched)
      modifies this
      ensures Step(Snapshot(), r) == SocialStep(old(Snapshot()), sender, text)
    {
      if !Awaits(responseData, sender, TagAddSocial) {
        return PassThrough;
      }
      if text.None? {
        return Handled(Crashed);
      }
      var (buttonText, url) := SplitSocial(text.value);
      if !ValidSocial(buttonText, url) {
        return Handled(InvalidSocial);
      }
      db := db.(socials := db.socials + [SocialLink(buttonText, url)]);
      DeleteResponse(sender);
      return Handled(SocialAdded(url));
    }

    /** The `i`-th `bot.on('message')` handler, in registration order. */
    method Handle(i: nat, sender: UserId, text: Option<string>, env: Env) returns (r: Dispatched)
      requires i < |Chain| && Valid()
      modifies this
      ensures Step(Snapshot(), r) == RunHandler(i, admins, old(Snapshot()), sender, text, env)
      ensures Valid()
    {
      RunHandlerKeepsBound(i, admins, Snapshot(), sender, text, env);
      if i == 0 {
        r := HandleAdminUserId(sender, text);
      } else if i == 1 {
        r := HandleBalance(sender, text);
      } else if i == 2 {
        r := HandleSupport(sender, text, env);
      } else if i == 3 {
        r := HandleReply(sender, text, env);
      } else if i == 4 {
        r := HandleEditTask(sender, text, TagEditTaskName, Name);
      } else if i == 5 {
        r := HandleEditTask(sender, text, TagEditTaskMessage, MessageText);
      } else if i == 6 {
        r := HandleEditTask(sender, text, TagEditTaskMediaUrl, MediaUrl);
      } else if i == 7 {
        r := HandleAddAdmin(sender, text);
      } else if i == 8 {
        r := HandleChannel(sender, text, env);
      } else {
        r := HandleSocial(sender, text);
      }
    }

    /**
     * One inbound message: the Cancel and Back buttons, then each handler in
     * turn until one consumes the message. It keeps the outstanding-query cap.
     */
    method OnMessage(sender: UserId, text: Option<string>, env: Env) returns (r: Dispatched)
      requires Valid()
      modifies this
      ensures Step(Snapshot(), r) == Receive(admins, old(Snapshot()), sender, text, env)
      ensures Valid()
    {
      ReceiveKeepsPendingBounded(admins, Snapshot(), sender, text, env);
      if text == Some(CancelButton) || text == Some(BackButton) {
        DeleteResponse(sender);
        return Handled(Dismissed);
      }
      r := PassThrough;
      var i := 0;
      while i < |Chain|
        invariant 0 <= i <= |Chain|
        invariant r == PassThrough && Snapshot() == old(Snapshot())
        invariant DispatchFrom(i, admins, Snapshot(), sender, text, env) == DispatchMessage(admins, old(Snapshot()), sender, text, env)
      {
        r := Handle(i, sender, text, env);
        if r.Handled? {
          return;
        }
        i := i + 1;
      }
    }
  }
}
