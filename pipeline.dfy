/**
 * The redemption decision as a pure function of the registry (viewer login to
 * account name), the redemption and the answers of the outside world, with
 * the external effects it causes logged in order. The steps run in this
 * order and stop at the first failure: strip the input, check its format,
 * check that the account exists, check that no other viewer owns the name,
 * remove the viewer's previous name from the whitelist (whatever the console
 * answers), add the new name (refund and stop if the console refuses), and
 * write the new entry.
 */
module Pipeline {
  import opened NameRules
  import opened Console
  import opened Retry

  /** The user database: viewer login to registered account name. */
  type Registry = map<string, string>

  /** How one redemption ended. */
  datatype Verdict =
    | Whitelisted       // entry written, whitelist add issued
    | InvalidFormat     // the stripped name does not match the name pattern
    | AccountNotFound   // the lookup said 'no', or never got an answer
    | NameTaken         // another viewer already owns the name
    | AddFailed         // the console refused the add directive
    | LookupRaised      // the lookup raised an exception it does not catch; the handler stops there
    | OtherReward       // the event is for a different channel-points reward
  {
    /** The endings after which the redemption is refunded. */
    predicate Refunded() {
      InvalidFormat? || AccountNotFound? || NameTaken? || AddFailed?
    }
  }

  /** An effect on the outside world, in the order the handler causes it. */
  datatype Effect =
    | Directive(cmd: Command)      // a line typed into the server console
    | Refund(redemption: string)   // a refund request for the redemption (with its own retries)
    | Save                         // the user database written to its file

  datatype Step = Step(db: Registry, effects: seq<Effect>, verdict: Verdict)

  /** Some viewer other than `user` is registered under `name`. */
  predicate OwnedByOther(db: Registry, user: string, name: string) {
    exists u :: u in db && db[u] == name && u != user
  }

  /** No account name is registered for two viewers. */
  ghost predicate UniqueNames(db: Registry) {
    forall u, v :: u in db && v in db && u != v ==> db[u] != db[v]
  }

  /** Every registered name has the account-name format. */
  ghost predicate WellFormedNames(db: Registry) {
    forall u :: u in db ==> ValidFormat(db[u])
  }

  /**
   * The removal of the viewer's previous name: issued when the viewer has an
   * entry whose name is non-empty and differs from the new one.
   */
  function Supersede(db: Registry, user: string, name: string): seq<Effect> {
    if user in db && db[user] != "" && db[user] != name then [Directive(WhitelistRemove(db[user]))] else []
  }

  /**
   * One redemption by `user` with free-text `input` and redemption id `id`,
   * given the lookup's outcome and whether the console accepts the add
   * directive. The console's answer to a removal only ever reaches the log,
   * so it is not an input here.
   */
  function Reconcile(db: Registry, user: string, input: string, id: string, lookup: Lookup, addOk: bool): Step {
    var name := Strip(input);
    if !ValidFormat(name) then Step(db, [Refund(id)], InvalidFormat)
    else if lookup.Uncaught? then Step(db, [], LookupRaised)
    else if !lookup.found then Step(db, [Refund(id)], AccountNotFound)
    else if OwnedByOther(db, user, name) then Step(db, [Refund(id)], NameTaken)
    else
      var adding := Supersede(db, user, name) + [Directive(WhitelistAdd(name))];
      if !addOk then Step(db, adding + [Refund(id)], AddFailed)
      else Step(db[user := name], adding + [Save], Whitelisted)
  }

  /** Whitespace around the input never decides anything: the padded input is handled exactly like the bare one. */
  lemma PaddingIsIgnored(db: Registry, user: string, before: string, input: string, after: string,
                         id: string, lookup: Lookup, addOk: bool)
    requires AllSpace(before) && AllSpace(after)
    ensures Reconcile(db, user, before + input + after, id, lookup, addOk) == Reconcile(db, user, input, id, lookup, addOk)
  {
    StripIgnoresPadding(before, input, after);
  }

  /**
   * A format failure, a negative lookup and a name conflict each issue exactly
   * one refund and nothing else, and leave the registry as it was.
   */
  lemma EarlyRejectionsChangeNothing(db: Registry, user: string, input: string, id: string, lookup: Lookup, addOk: bool)
    ensures var r := Reconcile(db, user, input, id, lookup, addOk);
            (r.verdict.InvalidFormat? || r.verdict.AccountNotFound? || r.verdict.NameTaken?) ==>
              r.db == db && r.effects == [Refund(id)]
    ensures var r := Reconcile(db, user, input, id, lookup, addOk);
            r.verdict.LookupRaised? ==> r.db == db && r.effects == []
  {
    var name := Strip(input);
    if !ValidFormat(name) {
    } else if lookup.Uncaught? {
    } else if !lookup.found {
    } else if OwnedByOther(db, user, name) {
    } else {
    }
  }

  /** The verdict in terms of the inputs: which check fails first decides it. */
  lemma VerdictCases(db: Registry, user: string, input: string, id: string, lookup: Lookup, addOk: bool)
    ensures var r := Reconcile(db, user, input, id, lookup, addOk);
            var name := Strip(input);
            && (r.verdict.InvalidFormat? <==> !ValidFormat(name))
            && (r.verdict.LookupRaised? <==> ValidFormat(name) && lookup.Uncaught?)
            && (r.verdict.AccountNotFound? <==> ValidFormat(name) && lookup == Answer(false))
            && (r.verdict.NameTaken? <==> ValidFormat(name) && lookup == Answer(true) && OwnedByOther(db, user, name))
            && (r.verdict.AddFailed? <==> ValidFormat(name) && lookup == Answer(true) && !OwnedByOther(db, user, name) && !addOk)
            && (r.verdict.Whitelisted? <==> ValidFormat(name) && lookup == Answer(true) && !OwnedByOther(db, user, name) && addOk)
            && !r.verdict.OtherReward?
  {
    var name := Strip(input);
    if !ValidFormat(name) {
    } else if lookup.Uncaught? {
    } else if !lookup.found {
    } else if OwnedByOther(db, user, name) {
    } else {
    }
  }

  /**
   * The conflict rule: once format and lookup pass, the redemption is refused
   * exactly when some other viewer maps to the name. The viewer's own entry
   * under that name is never a conflict.
   */
  lemma ConflictRule(db: Registry, user: string, input: string, id: string, addOk: bool)
    requires ValidFormat(Strip(input))
    ensures var r := Reconcile(db, user, input, id, Answer(true), addOk);
            r.verdict == NameTaken <==> exists u :: u in db && u != user && db[u] == Strip(input)
    ensures user in db && db[user] == Strip(input) && UniqueNames(db) ==>
              Reconcile(db, user, input, id, Answer(true), addOk).verdict != NameTaken
  {
    var name := Strip(input);
    if user in db && db[user] == name && UniqueNames(db) {
      assert !OwnedByOther(db, user, name);
    }
  }

  /**
   * On success the viewer's entry holds the new name and every other entry
   * keeps its value; the log ends with the add and the database write. On an
   * add failure the registry is entirely unchanged, including the viewer's
   * old entry, and the log ends with the add and the refund.
   */
  lemma CommitOrKeep(db: Registry, user: string, input: string, id: string, lookup: Lookup, addOk: bool)
    ensures var r := Reconcile(db, user, input, id, lookup, addOk);
            r.verdict == Whitelisted ==>
              && r.db.Keys == db.Keys + {user}
              && r.db[user] == Strip(input)
              && (forall u :: u in db && u != user ==> r.db[u] == db[u])
              && |r.effects| >= 2
              && r.effects[|r.effects| - 2] == Directive(WhitelistAdd(Strip(input)))
              && r.effects[|r.effects| - 1] == Save
    ensures var r := Reconcile(db, user, input, id, lookup, addOk);
            r.verdict == AddFailed ==>
              && r.db == db
              && |r.effects| >= 2
              && r.effects[|r.effects| - 2] == Directive(WhitelistAdd(Strip(input)))
              && r.effects[|r.effects| - 1] == Refund(id)
    ensures var r := Reconcile(db, user, input, id, lookup, addOk);
            r.verdict != Whitelisted ==> r.db == db
  {
    var name := Strip(input);
    if ValidFormat(name) && lookup == Answer(true) && !OwnedByOther(db, user, name) {
      var adding := Supersede(db, user, name) + [Directive(WhitelistAdd(name))];
      if addOk {
        var r := Reconcile(db, user, input, id, lookup, addOk);
        assert r.effects == adding + [Save];
        forall u | u in db && u != user ensures r.db[u] == db[u] {
        }
      }
    }
  }

  /**
   * Supersession: when a viewer with a different, non-empty old name passes
   * the checks, the old name's removal is issued first, then the new name's
   * add, and the outcome does not depend on how the console took the removal.
   */
  lemma SupersessionOrder(db: Registry, user: string, input: string, id: string, addOk: bool)
    requires ValidFormat(Strip(input)) && !OwnedByOther(db, user, Strip(input))
    requires user in db && db[user] != "" && db[user] != Strip(input)
    ensures var r := Reconcile(db, user, input, id, Answer(true), addOk);
            && |r.effects| == 3
            && r.effects[0] == Directive(WhitelistRemove(db[user]))
            && r.effects[1] == Directive(WhitelistAdd(Strip(input)))
            && r.verdict == (if addOk then Whitelisted else AddFailed)
  {
  }

  /** The refund requests in a log, in order. */
  function Refunds(effects: seq<Effect>): (rs: seq<Effect>)
    decreases |effects|
    ensures forall i :: 0 <= i < |rs| ==> rs[i].Refund?
  {
    if effects == [] then []
    else (if effects[0].Refund? then [effects[0]] else []) + Refunds(effects[1..])
  }

  lemma {:induction false} RefundsConcat(a: seq<Effect>, b: seq<Effect>)
    decreases |a|
    ensures Refunds(a + b) == Refunds(a) + Refunds(b)
  {
    if a != [] {
      var head := if a[0].Refund? then [a[0]] else [];
      assert (a + b)[0] == a[0];
      assert (a + b)[1..] == a[1..] + b;
      RefundsConcat(a[1..], b);
      assert head + (Refunds(a[1..]) + Refunds(b)) == (head + Refunds(a[1..])) + Refunds(b);
    } else {
      assert a + b == b;
    }
  }

  /**
   * A refused redemption issues exactly one refund, the refund of that
   * redemption; a redemption that is not refused issues none.
   */
  lemma RefundExactlyWhenRefused(db: Registry, user: string, input: string, id: string, lookup: Lookup, addOk: bool)
    ensures var r := Reconcile(db, user, input, id, lookup, addOk);
            Refunds(r.effects) == if r.verdict.Refunded() then [Refund(id)] else []
  {
    var r := Reconcile(db, user, input, id, lookup, addOk);
    var name := Strip(input);
    if !ValidFormat(name) || (lookup.Answer? && (!lookup.found || OwnedByOther(db, user, name))) {
      assert r.effects == [Refund(id)] && r.verdict.Refunded();
      RefundsOfOne(Refund(id));
    } else if lookup.Uncaught? {
      assert r.effects == [] && !r.verdict.Refunded();
    } else {
      var removal := Supersede(db, user, name);
      var add := Directive(WhitelistAdd(name));
      var last := if addOk then Save else Refund(id);
      assert r.effects == removal + [add] + [last];
      assert r.verdict.Refunded() <==> !addOk;
      if removal != [] {
        RefundsOfOne(removal[0]);
      }
      RefundsOfOne(add);
      RefundsOfOne(last);
      RefundsConcat(removal, [add]);
      RefundsConcat(removal + [add], [last]);
    }
  }

  lemma RefundsOfOne(e: Effect)
    ensures Refunds([e]) == if e.Refund? then [e] else []
  {
    assert [e][1..] == [];
  }

  /** Registering keeps every account name with at most one viewer. */
  lemma KeepsNamesUnique(db: Registry, user: string, input: string, id: string, lookup: Lookup, addOk: bool)
    requires UniqueNames(db)
    ensures UniqueNames(Reconcile(db, user, input, id, lookup, addOk).db)
  {
    var r := Reconcile(db, user, input, id, lookup, addOk);
    if r.verdict == Whitelisted {
      var name := Strip(input);
      forall u, v | u in r.db && v in r.db && u != v ensures r.db[u] != r.db[v] {
        if u == user {
          assert !(v in db && db[v] == name && v != user);
        } else if v == user {
          assert !(u in db && db[u] == name && u != user);
        }
      }
    }
  }

  /**
   * Only well-formed names are ever written, and every console directive
   * names a well-formed account, so each one types a single console line.
   */
  lemma KeepsNamesWellFormed(db: Registry, user: string, input: string, id: string, lookup: Lookup, addOk: bool)
    requires WellFormedNames(db)
    ensures var r := Reconcile(db, user, input, id, lookup, addOk);
            && WellFormedNames(r.db)
            && forall i :: 0 <= i < |r.effects| && r.effects[i].Directive? ==> ValidFormat(r.effects[i].cmd.name)
  {
    var name := Strip(input);
    var r := Reconcile(db, user, input, id, lookup, addOk);
    if ValidFormat(name) && lookup == Answer(true) && !OwnedByOther(db, user, name) {
      var removal := Supersede(db, user, name);
      assert forall i :: 0 <= i < |removal| ==> removal[i].Directive? && ValidFormat(removal[i].cmd.name);
      var adding := removal + [Directive(WhitelistAdd(name))];
      assert forall i :: 0 <= i < |adding| ==> adding[i].Directive? && ValidFormat(adding[i].cmd.name);
      assert r.effects == adding + [if addOk then Save else Refund(id)];
      if addOk {
        forall u | u in r.db ensures ValidFormat(r.db[u]) {
          if u != user { assert r.db[u] == db[u]; }
        }
      }
    }
  }

  /**
   * Re-redeeming the name the viewer already owns issues no removal, issues
   * the add again, and leaves the registry as it was, whether or not the
   * console accepts the add; a refused add is refunded.
   */
  lemma ReRedeemOwnName(db: Registry, user: string, input: string, id: string, addOk: bool)
    requires user in db && db[user] == Strip(input) && ValidFormat(Strip(input))
    requires UniqueNames(db)
    ensures Reconcile(db, user, input, id, Answer(true), addOk)
            == Step(db, [Directive(WhitelistAdd(Strip(input)))] + [if addOk then Save else Refund(id)],
                    if addOk then Whitelisted else AddFailed)
  {
    ConflictRule(db, user, input, id, addOk);
    assert db[user := Strip(input)] == db;
  }

  /**
   * A successful redemption delivered twice: the second run finds the viewer's
   * own entry, issues only the add, and changes nothing.
   */
  lemma RedeemTwice(db: Registry, user: string, input: string, id: string, id2: string)
    requires Reconcile(db, user, input, id, Answer(true), true).verdict == Whitelisted
    ensures var first := Reconcile(db, user, input, id, Answer(true), true);
            Reconcile(first.db, user, input, id2, Answer(true), true)
            == Step(first.db, [Directive(WhitelistAdd(Strip(input))), Save], Whitelisted)
  {
    var first := Reconcile(db, user, input, id, Answer(true), true);
    var name := Strip(input);
    assert !OwnedByOther(first.db, user, name) by {
      forall u | u in first.db && u != user ensures first.db[u] != name {
        assert u in db && first.db[u] == db[u];
      }
    }
    assert first.db[user := name] == first.db;
  }

  /** One redemption of a sequence, with the lookup's outcome and the console's answer to the add. */
  datatype Redemption = Redemption(user: string, input: string, id: string, lookup: Lookup, addOk: bool)

  /** The registry after handling a sequence of redemptions one after the other. */
  function Replay(db: Registry, rs: seq<Redemption>): Registry
    decreases |rs|
  {
    if rs == [] then db
    else
      var r := rs[0];
      Replay(Reconcile(db, r.user, r.input, r.id, r.lookup, r.addOk).db, rs[1..])
  }

  /** After any sequence of redemptions no account name belongs to two viewers. */
  lemma {:induction false} ReplayKeepsNamesUnique(db: Registry, rs: seq<Redemption>)
    requires UniqueNames(db)
    decreases |rs|
    ensures UniqueNames(Replay(db, rs))
  {
    if rs != [] {
      var r := rs[0];
      KeepsNamesUnique(db, r.user, r.input, r.id, r.lookup, r.addOk);
      ReplayKeepsNamesUnique(Reconcile(db, r.user, r.input, r.id, r.lookup, r.addOk).db, rs[1..]);
    }
  }
  /** Viewer A, registered as "Alice", redeems "Bob": "Alice" is removed, "Bob" added, and A maps to "Bob". */
  lemma SupersessionExample()
    ensures Reconcile(map["viewer_a" := "Alice"], "viewer_a", "Bob", "r1", Answer(true), true)
            == Step(map["viewer_a" := "Bob"],
                    [Directive(WhitelistRemove("Alice")), Directive(WhitelistAdd("Bob")), Save], Whitelisted)
  {
    var db := map["viewer_a" := "Alice"];
    assert Strip("Bob") == "Bob" && ValidFormat("Bob");
    assert !OwnedByOther(db, "viewer_a", "Bob");
    assert db["viewer_a" := "Bob"] == map["viewer_a" := "Bob"];
  }

  /** Viewer B redeems "Bob", which viewer A owns: refunded, no directive, registry untouched. */
  lemma ConflictExample()
    ensures Reconcile(map["viewer_a" := "Bob"], "viewer_b", "Bob", "r2", Answer(true), true)
            == Step(map["viewer_a" := "Bob"], [Refund("r2")], NameTaken)
  {
    var db := map["viewer_a" := "Bob"];
    assert Strip("Bob") == "Bob" && ValidFormat("Bob");
    assert db["viewer_a"] == "Bob";
    assert OwnedByOther(db, "viewer_b", "Bob");
    var r := Reconcile(db, "viewer_b", "Bob", "r2", Answer(true), true);
    assert r == Step(db, [Refund("r2")], NameTaken);
  }
}
