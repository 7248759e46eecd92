/**
 * The bot's manager object: it owns the user database in memory and runs the
 * redemption handler against it, calling the two retry loops and the server
 * console on the way. Each outside party is a parameter: a reply world for
 * the account lookup, one for the refund endpoint, and the console's answer
 * to each directive.
 */
module Manager {
  import opened NameRules
  import opened Console
  import opened Retry
  import opened Pipeline

  datatype Option<T> = None | Some(value: T)

  /** What loading the database file finds on start-up. */
  datatype StoredFile = Missing | Unreadable | Parsed(entries: Registry)

  /** A channel-points redemption as the event transport delivers it. */
  datatype RedemptionEvent = RedemptionEvent(user: string, input: string, id: string, reward: string)

  class WhitelistManager {
    var userDb: Registry

    /** Start-up: the stored entries, or an empty database when the file is missing or cannot be read. */
    constructor (file: StoredFile)
      ensures userDb == if file.Parsed? then file.entries else map[]
    {
      match file
      case Parsed(entries) => userDb := entries;
      case _ => userDb := map[];
    }

    /** The scan over the database for a viewer other than `user` registered under `name`. */
    method FindOtherOwner(name: string, user: string) returns (owner: Option<string>)
      ensures owner.Some? ==> owner.value in userDb && userDb[owner.value] == name && owner.value != user
      ensures owner.None? <==> !OwnedByOther(userDb, user, name)
    {
      var unseen := userDb.Keys;
      while unseen != {}
        invariant unseen <= userDb.Keys
        invariant forall u :: u in userDb && u !in unseen ==> !(userDb[u] == name && u != user)
        decreases unseen
      {
        var u :| u in unseen;
        if userDb[u] == name && u != user {
          return Some(u);
        }
        unseen := unseen - {u};
      }
      return None;
    }

    /**
     * The redemption handler. The new database, the effects and the verdict
     * are those of the reference decision, fed with what the lookup loop
     * returns for `mojang` and what the console answers to the add. The refund
     * loop runs against `twitch` exactly on the refunded verdicts, and its run
     * is returned; whether it went through, like what the console answers to
     * a removal, is only logged by the handler and changes nothing else.
     */
    method HandleRedemption(ev: RedemptionEvent, mojang: nat -> Attempt, twitch: nat -> Attempt, console: Command -> bool)
      returns (verdict: Verdict, effects: seq<Effect>, refundRun: Option<Retried<bool>>)
      modifies this
      ensures var s := Reconcile(old(userDb), ev.user, ev.input, ev.id, MojangRetry(mojang, 0).value,
                                 console(WhitelistAdd(Strip(ev.input))));
              userDb == s.db && effects == s.effects && verdict == s.verdict
      ensures refundRun == if verdict.Refunded() then Some(RefundRetry(twitch, 0)) else None
    {
      var user := ev.user;
      var name := Strip(ev.input);
      var id := ev.id;
      ghost var db := userDb;
      ghost var addOk := console(WhitelistAdd(name));

      if !ValidFormat(name) {
        var refunded, n, slept := RefundPoints(twitch);
        assert Reconcile(db, user, ev.input, id, MojangRetry(mojang, 0).value, addOk) == Step(db, [Refund(id)], InvalidFormat);
        return InvalidFormat, [Refund(id)], Some(Retried(refunded, n, slept));
      }

      var lookup, _, _ := ExistsMojang(mojang);
      if lookup.Uncaught? {
        assert Reconcile(db, user, ev.input, id, lookup, addOk) == Step(db, [], LookupRaised);
        return LookupRaised, [], None;
      }
      if !lookup.found {
        var refunded, n, slept := RefundPoints(twitch);
        assert Reconcile(db, user, ev.input, id, lookup, addOk) == Step(db, [Refund(id)], AccountNotFound);
        return AccountNotFound, [Refund(id)], Some(Retried(refunded, n, slept));
      }

      var owner := FindOtherOwner(name, user);
      if owner.Some? {
        var refunded, n, slept := RefundPoints(twitch);
        assert Reconcile(db, user, ev.input, id, lookup, addOk) == Step(db, [Refund(id)], NameTaken);
        return NameTaken, [Refund(id)], Some(Retried(refunded, n, slept));
      }

      effects := [];
      if user in userDb && userDb[user] != "" && userDb[user] != name {
        var removal := WhitelistRemove(userDb[user]);
        var removed := console(removal);
        effects := effects + [Directive(removal)];
      }
      assert effects == Supersede(db, user, name);

      var addition := WhitelistAdd(name);
      effects := effects + [Directive(addition)];
      if !console(addition) {
        var refunded, n, slept := RefundPoints(twitch);
        assert Reconcile(db, user, ev.input, id, lookup, addOk) == Step(db, effects + [Refund(id)], AddFailed);
        return AddFailed, effects + [Refund(id)], Some(Retried(refunded, n, slept));
      }

      userDb := userDb[user := name];
      effects := effects + [Save];
      verdict, refundRun := Whitelisted, None;
      assert Reconcile(db, user, ev.input, id, lookup, addOk) == Step(userDb, effects, Whitelisted);
    }
  }

  /**
   * The event callback: redemptions of any other reward are ignored; those of
   * the configured reward go to the handler.
   */
  method OnRedemption(manager: WhitelistManager, rewardId: string, ev: RedemptionEvent,
                      mojang: nat -> Attempt, twitch: nat -> Attempt, console: Command -> bool)
    returns (verdict: Verdict, effects: seq<Effect>, refundRun: Option<Retried<bool>>)
    modifies manager
    ensures ev.reward != rewardId ==>
              verdict == OtherReward && effects == [] && refundRun == None && manager.userDb == old(manager.userDb)
    ensures ev.reward == rewardId ==>
              var s := Reconcile(old(manager.userDb), ev.user, ev.input, ev.id, MojangRetry(mojang, 0).value,
                                 console(WhitelistAdd(Strip(ev.input))));
              manager.userDb == s.db && effects == s.effects && verdict == s.verdict
    ensures ev.reward == rewardId ==> refundRun == if verdict.Refunded() then Some(RefundRetry(twitch, 0)) else None
  {
    if ev.reward != rewardId {
      return OtherReward, [], None;
    }
    verdict, effects, refundRun := manager.HandleRedemption(ev, mojang, twitch, console);
  }
}
