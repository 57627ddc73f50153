/** The sweep of DeactivateUnauthorizedUsers#execute: every active human user in
    turn, with the user's oauth2_basic credentials looked up, possibly rewritten
    by a refresh, and the user deactivated when the decision says so. An
    exception while examining one user ends the whole run. */
module Sweep {
  import opened RubyValues
  import opened Authorization

  /** A row of the users table, as far as the job reads and writes it. */
  class User {
    const id: int
    const username: string
    const human: bool
    var active: bool

    constructor (id: int, username: string, human: bool, active: bool)
      ensures this.id == id && this.username == username && this.human == human && this.active == active
    {
      this.id := id;
      this.username := username;
      this.human := human;
      this.active := active;
    }

    /** `user.deactivate(...)`: the user is no longer active. */
    method Deactivate()
      modifies this
      ensures !active
    {
      active := false;
    }
  }

  /** A row of the user_associated_accounts table. */
  class AssociatedAccount {
    const providerName: string
    const userId: int
    var credentials: Value

    constructor (providerName: string, userId: int, credentials: Value)
      ensures this.providerName == providerName && this.userId == userId && this.credentials == credentials
    {
      this.providerName := providerName;
      this.userId := userId;
      this.credentials := credentials;
    }

    /** `update!(credentials: record)`. */
    method UpdateCredentials(record: Value)
      modifies this
      ensures credentials == record
    {
      credentials := record;
    }
  }

  /** Whether the run has raised so far, and at which user with which exception. */
  datatype Status = NoException | Raised(userId: int, error: Error)

  /** The job's state as values: the users' active flags and the accounts'
      credentials, both in store order, and the run's status. */
  datatype State = State(active: seq<bool>, credentials: seq<Value>, status: Status)

  ghost function Actives(users: seq<User>): (r: seq<bool>)
    reads users
    ensures |r| == |users| && forall j {:trigger r[j]} :: 0 <= j < |users| ==> r[j] == users[j].active
  {
    seq(|users|, j requires 0 <= j < |users| reads users => users[j].active)
  }

  ghost function Credentials(accounts: seq<AssociatedAccount>): (r: seq<Value>)
    reads accounts
    ensures |r| == |accounts| && forall a {:trigger r[a]} :: 0 <= a < |accounts| ==> r[a] == accounts[a].credentials
  {
    seq(|accounts|, a requires 0 <= a < |accounts| reads accounts => accounts[a].credentials)
  }

  predicate Matches(account: AssociatedAccount, userId: int) {
    account.providerName == Provider && account.userId == userId
  }

  function FindAccountFrom(accounts: seq<AssociatedAccount>, userId: int, start: nat): (r: Option<nat>)
    requires start <= |accounts|
    ensures r.Some? ==> start <= r.value < |accounts| && Matches(accounts[r.value], userId)
    decreases |accounts| - start
  {
    if start == |accounts| then None
    else if Matches(accounts[start], userId) then Some(start)
    else FindAccountFrom(accounts, userId, start + 1)
  }

  /** `UserAssociatedAccount.find_by(provider_name: 'oauth2_basic', user_id: userId)`:
      the index of a matching account in store order, None when there is none
      (`FindAccountIsFirst`: the first one). */
  function FindAccount(accounts: seq<AssociatedAccount>, userId: int): (r: Option<nat>)
    ensures r.Some? ==> r.value < |accounts| && Matches(accounts[r.value], userId)
  {
    FindAccountFrom(accounts, userId, 0)
  }

  lemma {:induction false} FindAccountFromIsFirst(accounts: seq<AssociatedAccount>, userId: int, start: nat)
    requires start <= |accounts|
    ensures var r := FindAccountFrom(accounts, userId, start);
            && (r.Some? ==> forall a :: start <= a < r.value ==> !Matches(accounts[a], userId))
            && (r.None? <==> forall a :: start <= a < |accounts| ==> !Matches(accounts[a], userId))
    decreases |accounts| - start
  {
    if start < |accounts| && !Matches(accounts[start], userId) {
      FindAccountFromIsFirst(accounts, userId, start + 1);
    }
  }

  /** find_by finds the first matching account, and finds none exactly when no account matches. */
  lemma FindAccountIsFirst(accounts: seq<AssociatedAccount>, userId: int)
    ensures var r := FindAccount(accounts, userId);
            && (r.Some? ==> forall a :: 0 <= a < r.value ==> !Matches(accounts[a], userId))
            && (r.None? <==> forall a :: 0 <= a < |accounts| ==> !Matches(accounts[a], userId))
  {
    FindAccountFromIsFirst(accounts, userId, 0);
  }

  /** The query selects users[j]: a human user whose flag is set. */
  predicate Examined(users: seq<User>, active: seq<bool>, j: int)
    requires 0 <= j < |users| == |active|
  {
    users[j].human && active[j]
  }

  /** The per-user decision the sweep applies, given the credentials of the
      user's oauth2_basic account (None when there is no such account). */
  type Rule = Option<Value> -> UserCheck

  /** The job's rule at time `now` against the two endpoints. */
  function JobRule(now: int, tokenEndpoint: Value -> Response, userInfo: Value -> Response): Rule
  {
    c => CheckUser(c, now, tokenEndpoint, userInfo)
  }

  /** The decision for users[j] against the given account credentials. */
  function Decision(users: seq<User>, accounts: seq<AssociatedAccount>, credentials: seq<Value>, j: int,
                    rule: Rule): UserCheck
    requires 0 <= j < |users| && |credentials| == |accounts|
  {
    var found := FindAccount(accounts, users[j].id);
    rule(if found.Some? then Some(credentials[found.value]) else None)
  }

  predicate Shaped(users: seq<User>, accounts: seq<AssociatedAccount>, s: State) {
    |s.active| == |users| && |s.credentials| == |accounts|
  }

  /** The loop body for users[k], applied to the state `s`. */
  function Step(users: seq<User>, accounts: seq<AssociatedAccount>, s: State, k: int, rule: Rule): (r: State)
    requires 0 <= k < |users| && Shaped(users, accounts, s)
    ensures Shaped(users, accounts, r)
    ensures s.status.Raised? ==> r == s
    ensures r.active[k] ==> s.active[k]
  {
    if s.status.Raised? || !Examined(users, s.active, k) then s
    else
      var found := FindAccount(accounts, users[k].id);
      var check := Decision(users, accounts, s.credentials, k, rule);
      var credentials := if found.Some? && check.rewrite.Some?
                         then s.credentials[found.value := check.rewrite.value]
                         else s.credentials;
      match check.verdict
      case Raise(e) => State(s.active, credentials, Raised(users[k].id, e))
      case Ok(verdict) => State(if verdict == Keep then s.active else s.active[k := false], credentials, NoException)
  }

  /** The state after the loop has gone through users[..k]. */
  function Run(users: seq<User>, accounts: seq<AssociatedAccount>, initial: State, k: int, rule: Rule): (r: State)
    requires 0 <= k <= |users| && Shaped(users, accounts, initial)
    ensures Shaped(users, accounts, r)
    ensures initial.status.Raised? ==> r == initial
    decreases k
  {
    if k == 0 then initial
    else Step(users, accounts, Run(users, accounts, initial, k - 1, rule), k - 1, rule)
  }

  /** The loop body for users[k] changes no other user's flag and no account
      but the one found for users[k]. */
  lemma StepFrame(users: seq<User>, accounts: seq<AssociatedAccount>, s: State, k: int, rule: Rule)
    requires 0 <= k < |users| && Shaped(users, accounts, s)
    ensures var r := Step(users, accounts, s, k, rule);
            && (forall j :: 0 <= j < |users| && j != k ==> r.active[j] == s.active[j])
            && (forall a :: 0 <= a < |accounts| && FindAccount(accounts, users[k].id) != Some(a)
                  ==> r.credentials[a] == s.credentials[a])
  {
  }

  /** One execution of the job from the given flags and credentials. */
  function RunAll(users: seq<User>, accounts: seq<AssociatedAccount>, active: seq<bool>, credentials: seq<Value>,
                 rule: Rule): (r: State)
    requires |active| == |users| && |credentials| == |accounts|
    ensures Shaped(users, accounts, r)
  {
    Run(users, accounts, State(active, credentials, NoException), |users|, rule)
  }

  /** The part of the loop body that follows the account lookup: token
      selection, the credential rewrite, and the account check. `account` is
      null when the user has no oauth2_basic account. Returns whether to
      deactivate, or the exception that ends the run. */
  method Authorize(account: AssociatedAccount?, now: int, tokenEndpoint: Value -> Response,
                   userInfo: Value -> Response) returns (deactivate: bool, raised: Option<Error>)
    modifies account
    ensures var check := CheckUser(if account == null then None else Some(old(account.credentials)),
                                   now, tokenEndpoint, userInfo);
            && (account != null ==> account.credentials == if check.rewrite.Some? then check.rewrite.value
                                                           else old(account.credentials))
            && (raised.Some? <==> check.verdict.Raise?)
            && (raised.Some? ==> raised.value == check.verdict.error)
            && (raised.None? ==> deactivate == (check.verdict.value != Keep))
  {
    deactivate, raised := false, None;
    if account != null && Truthy(account.credentials) {
      var selection := SelectToken(account.credentials, now, tokenEndpoint);
      if selection.Raise? {
        return false, Some(selection.error);
      }
      var token := selection.value.token;
      if selection.value.rewrite.Some? {
        account.UpdateCredentials(selection.value.rewrite.value);
      }
      if Truthy(token) {
        var verified := AccountVerified(ProcessResponse(userInfo(token)));
        if verified.Raise? {
          return false, Some(verified.error);
        }
        if !verified.value {
          deactivate := true;
        }
      } else {
        deactivate := true;
      }
    } else {
      deactivate := true;
    }
  }

  /** The loop body of execute for users[i]. */
  method Examine(users: seq<User>, accounts: seq<AssociatedAccount>, i: int, now: int,
                 tokenEndpoint: Value -> Response, userInfo: Value -> Response) returns (outcome: Status)
    requires 0 <= i < |users|
    requires forall j :: 0 <= j < |users| && j != i ==> users[j] != users[i]
    requires forall a, b :: 0 <= a < b < |accounts| ==> accounts[a] != accounts[b]
    modifies users[i], accounts
    ensures var s := Step(users, accounts, State(old(Actives(users)), old(Credentials(accounts)), NoException), i,
                          JobRule(now, tokenEndpoint, userInfo));
            Actives(users) == s.active && Credentials(accounts) == s.credentials && outcome == s.status
  {
    outcome := NoException;
    var user := users[i];
    if !(user.human && user.active) {
      return;
    }
    var found := FindAccount(accounts, user.id);
    var account: AssociatedAccount? := if found.Some? then accounts[found.value] else null;
    var deactivate, raised := Authorize(account, now, tokenEndpoint, userInfo);
    if raised.Some? {
      return Raised(user.id, raised.value);
    }
    if deactivate {
      user.Deactivate();
    }
  }

  /** One iteration of execute's loop, on a state the run from `initial` has
      reached after users[..i]: it takes the run one user further. */
  method Advance(users: seq<User>, accounts: seq<AssociatedAccount>, i: int, now: int,
                 tokenEndpoint: Value -> Response, userInfo: Value -> Response, ghost initial: State)
    returns (outcome: Status)
    requires 0 <= i < |users| && Shaped(users, accounts, initial)
    requires forall j :: 0 <= j < |users| && j != i ==> users[j] != users[i]
    requires forall a, b :: 0 <= a < b < |accounts| ==> accounts[a] != accounts[b]
    requires Run(users, accounts, initial, i, JobRule(now, tokenEndpoint, userInfo))
             == State(Actives(users), Credentials(accounts), NoException)
    modifies users[i], accounts
    ensures Run(users, accounts, initial, i + 1, JobRule(now, tokenEndpoint, userInfo))
            == State(Actives(users), Credentials(accounts), outcome)
  {
    ghost var rule := JobRule(now, tokenEndpoint, userInfo);
    ghost var before := Run(users, accounts, initial, i, rule);
    outcome := Examine(users, accounts, i, now, tokenEndpoint, userInfo);
    assert Run(users, accounts, initial, i + 1, rule) == Step(users, accounts, before, i, rule);
  }

  /** DeactivateUnauthorizedUsers#execute, proved against `RunAll` under `JobRule`. */
  method Execute(users: seq<User>, accounts: seq<AssociatedAccount>, now: int,
                 tokenEndpoint: Value -> Response, userInfo: Value -> Response) returns (outcome: Status)
    requires forall i, j :: 0 <= i < j < |users| ==> users[i] != users[j]
    requires forall a, b :: 0 <= a < b < |accounts| ==> accounts[a] != accounts[b]
    modifies users, accounts
    ensures var r := RunAll(users, accounts, old(Actives(users)), old(Credentials(accounts)),
                           JobRule(now, tokenEndpoint, userInfo));
            Actives(users) == r.active && Credentials(accounts) == r.credentials && outcome == r.status
  {
    ghost var initial := State(Actives(users), Credentials(accounts), NoException);
    ghost var rule := JobRule(now, tokenEndpoint, userInfo);
    var i := 0;
    while i < |users|
      invariant 0 <= i <= |users|
      invariant Run(users, accounts, initial, i, rule) == State(Actives(users), Credentials(accounts), NoException)
    {
      outcome := Advance(users, accounts, i, now, tokenEndpoint, userInfo, initial);
      if outcome.Raised? {
        RaisedRunIsFinal(users, accounts, initial, i + 1, |users|, rule);
        return;
      }
      i := i + 1;
    }
    outcome := NoException;
  }

  // ---------------------------------------------------------------------
  // Properties of a run

  /** After users[..k], the users not yet reached keep their flags, and a run
      that has raised did so on a user the query selected. */
  lemma {:induction false} RunFrame(users: seq<User>, accounts: seq<AssociatedAccount>, initial: State, k: int,
                                    rule: Rule)
    requires 0 <= k <= |users| && Shaped(users, accounts, initial) && initial.status == NoException
    ensures var r := Run(users, accounts, initial, k, rule);
            && (forall j :: k <= j < |users| ==> r.active[j] == initial.active[j])
            && (r.status.Raised? ==>
                  exists j :: 0 <= j < k && Examined(users, initial.active, j) && users[j].id == r.status.userId)
  {
    if k > 0 {
      RunFrame(users, accounts, initial, k - 1, rule);
      var prev := Run(users, accounts, initial, k - 1, rule);
      StepFrame(users, accounts, prev, k - 1, rule);
      if prev.status == NoException && Run(users, accounts, initial, k, rule).status.Raised? {
        assert Examined(users, initial.active, k - 1);
      }
    }
  }

  /** A run aborts only on a user the query selected. */
  lemma RunAllRaisesOnExamined(users: seq<User>, accounts: seq<AssociatedAccount>, active: seq<bool>,
                               credentials: seq<Value>, rule: Rule)
    requires |active| == |users| && |credentials| == |accounts|
    ensures var r := RunAll(users, accounts, active, credentials, rule);
            r.status.Raised? ==> exists j :: 0 <= j < |users| && Examined(users, active, j) && users[j].id == r.status.userId
  {
    RunFrame(users, accounts, State(active, credentials, NoException), |users|, rule);
  }

  /** An exception ends the run: nothing after the user that raised is examined or changed. */
  lemma {:induction false} RaisedRunIsFinal(users: seq<User>, accounts: seq<AssociatedAccount>, initial: State,
                                            k: int, n: int, rule: Rule)
    requires 0 <= k <= n <= |users| && Shaped(users, accounts, initial)
    requires Run(users, accounts, initial, k, rule).status.Raised?
    ensures Run(users, accounts, initial, n, rule) == Run(users, accounts, initial, k, rule)
    decreases n - k
  {
    if k < n {
      RaisedRunIsFinal(users, accounts, initial, k, n - 1, rule);
    }
  }

  /** The job never activates anyone, and a user the query does not select
      (not human, or already inactive) keeps its flag. */
  lemma {:induction false} RunOnlyDeactivatesExamined(users: seq<User>, accounts: seq<AssociatedAccount>,
                                                      initial: State, k: int, rule: Rule)
    requires 0 <= k <= |users| && Shaped(users, accounts, initial)
    ensures var r := Run(users, accounts, initial, k, rule);
            forall j :: 0 <= j < |users| ==>
              && (r.active[j] ==> initial.active[j])
              && (!Examined(users, initial.active, j) ==> r.active[j] == initial.active[j])
  {
    if k > 0 {
      RunOnlyDeactivatesExamined(users, accounts, initial, k - 1, rule);
    }
  }

  /** Distinct users have distinct ids (the users table's primary key). */
  predicate DistinctIds(users: seq<User>) {
    forall i, j :: 0 <= i < j < |users| ==> users[i].id != users[j].id
  }

  /** users[j] is examined and its decision rewrites the credentials of account `a`. */
  predicate RewritesAccount(users: seq<User>, accounts: seq<AssociatedAccount>, initial: State, j: int, a: int,
                            rule: Rule)
    requires 0 <= j < |users| && Shaped(users, accounts, initial)
  {
    Examined(users, initial.active, j)
    && Decision(users, accounts, initial.credentials, j, rule).rewrite.Some?
    && FindAccount(accounts, users[j].id) == Some(a)
  }

  /** What the loop has established after users[..k], when no exception was
      raised: each examined user's decision is taken on the initial
      credentials, its verdict decides its flag, its rewrite is stored, and
      everything else is as it was. */
  predicate Decided(users: seq<User>, accounts: seq<AssociatedAccount>, initial: State, r: State, k: int, rule: Rule)
    requires 0 <= k <= |users| && Shaped(users, accounts, initial) && Shaped(users, accounts, r)
  {
    && (forall j :: 0 <= j < k && Examined(users, initial.active, j)
         ==> Decision(users, accounts, initial.credentials, j, rule).verdict.Ok?)
    && (forall j :: 0 <= j < k ==>
         r.active[j] == (initial.active[j]
                         && (!users[j].human || Decision(users, accounts, initial.credentials, j, rule).verdict == Ok(Keep))))
    && (forall j :: k <= j < |users| ==> r.active[j] == initial.active[j])
    && (forall j, a :: 0 <= j < k && 0 <= a < |accounts| && RewritesAccount(users, accounts, initial, j, a, rule)
         ==> r.credentials[a] == Decision(users, accounts, initial.credentials, j, rule).rewrite.value)
    && (forall a :: 0 <= a < |accounts| && (forall j :: 0 <= j < k ==> !RewritesAccount(users, accounts, initial, j, a, rule))
         ==> r.credentials[a] == initial.credentials[a])
  }

  /** What `Run` establishes after users[..k]: the run has not raised exactly
      when no examined user so far raises, and then the state is as `Decided` describes. */
  lemma {:induction false} RunDecides(users: seq<User>, accounts: seq<AssociatedAccount>, initial: State, k: int,
                                      rule: Rule)
    requires 0 <= k <= |users| && Shaped(users, accounts, initial) && initial.status == NoException
    requires DistinctIds(users)
    ensures var r := Run(users, accounts, initial, k, rule);
            && (r.status == NoException
                <==> forall j :: 0 <= j < k && Examined(users, initial.active, j)
                      ==> Decision(users, accounts, initial.credentials, j, rule).verdict.Ok?)
            && (r.status == NoException ==> Decided(users, accounts, initial, r, k, rule))
  {
    if k > 0 {
      RunDecides(users, accounts, initial, k - 1, rule);
      var prev := Run(users, accounts, initial, k - 1, rule);
      if prev.status == NoException {
        StepDecides(users, accounts, initial, prev, k - 1, rule);
      }
    }
  }

  /** One step of the induction in `RunDecides`. */
  lemma StepDecides(users: seq<User>, accounts: seq<AssociatedAccount>, initial: State, prev: State, k: int,
                    rule: Rule)
    requires 0 <= k < |users| && Shaped(users, accounts, initial) && Shaped(users, accounts, prev)
    requires DistinctIds(users) && prev.status == NoException
    requires Decided(users, accounts, initial, prev, k, rule)
    ensures var r := Step(users, accounts, prev, k, rule);
            var d := Decision(users, accounts, initial.credentials, k, rule);
            && (r.status == NoException <==> !Examined(users, initial.active, k) || d.verdict.Ok?)
            && (r.status == NoException ==> Decided(users, accounts, initial, r, k + 1, rule))
  {
    var r := Step(users, accounts, prev, k, rule);
    var d := Decision(users, accounts, initial.credentials, k, rule);
    assert prev.active[k] == initial.active[k];
    if !Examined(users, initial.active, k) {
      assert r == prev;
      forall a | 0 <= a < |accounts| ensures !RewritesAccount(users, accounts, initial, k, a, rule) { }
      return;
    }
    var found := FindAccount(accounts, users[k].id);
    if found.Some? {
      UntouchedBeforeStep(users, accounts, initial, prev, k, found.value, rule);
    }
    assert Decision(users, accounts, prev.credentials, k, rule) == d;
    if d.verdict.Raise? {
      return;
    }
    assert r.active == if d.verdict.value == Keep then prev.active else prev.active[k := false];
    var written := if found.Some? && d.rewrite.Some? then prev.credentials[found.value := d.rewrite.value]
                   else prev.credentials;
    assert r.credentials == written;
    StepCredentials(users, accounts, initial, prev, r, k, rule);
  }

  /** Before users[k] is examined, its account still holds its initial credentials. */
  lemma UntouchedBeforeStep(users: seq<User>, accounts: seq<AssociatedAccount>, initial: State, prev: State,
                            k: int, a: int, rule: Rule)
    requires 0 <= k < |users| && Shaped(users, accounts, initial) && Shaped(users, accounts, prev)
    requires DistinctIds(users) && Decided(users, accounts, initial, prev, k, rule)
    requires FindAccount(accounts, users[k].id) == Some(a)
    ensures prev.credentials[a] == initial.credentials[a]
  {
    forall j | 0 <= j < k
      ensures !RewritesAccount(users, accounts, initial, j, a, rule)
    {
      assert users[j].id != users[k].id;
    }
  }

  /** The credential clauses of `Decided` survive the step for users[k]. */
  lemma StepCredentials(users: seq<User>, accounts: seq<AssociatedAccount>, initial: State, prev: State, r: State,
                        k: int, rule: Rule)
    requires 0 <= k < |users| && Shaped(users, accounts, initial) && Shaped(users, accounts, prev)
    requires Shaped(users, accounts, r)
    requires DistinctIds(users) && Decided(users, accounts, initial, prev, k, rule)
    requires Examined(users, initial.active, k)
    requires var found := FindAccount(accounts, users[k].id);
             var d := Decision(users, accounts, initial.credentials, k, rule);
             r.credentials == if found.Some? && d.rewrite.Some? then prev.credentials[found.value := d.rewrite.value]
                              else prev.credentials
    ensures forall j, b :: 0 <= j < k + 1 && 0 <= b < |accounts| && RewritesAccount(users, accounts, initial, j, b, rule)
              ==> r.credentials[b] == Decision(users, accounts, initial.credentials, j, rule).rewrite.value
    ensures forall b :: 0 <= b < |accounts|
              && (forall j :: 0 <= j < k + 1 ==> !RewritesAccount(users, accounts, initial, j, b, rule))
              ==> r.credentials[b] == initial.credentials[b]
  {
    var found := FindAccount(accounts, users[k].id);
    var d := Decision(users, accounts, initial.credentials, k, rule);
    forall j, b | 0 <= j < k && 0 <= b < |accounts| && RewritesAccount(users, accounts, initial, j, b, rule)
      ensures r.credentials[b] == prev.credentials[b]
    {
      assert users[j].id != users[k].id;
    }
    forall b | 0 <= b < |accounts| && RewritesAccount(users, accounts, initial, k, b, rule)
      ensures r.credentials[b] == d.rewrite.value
    {
      assert found == Some(b) && d.rewrite.Some?;
    }
    forall b | 0 <= b < |accounts| && (forall j :: 0 <= j < k + 1 ==> !RewritesAccount(users, accounts, initial, j, b, rule))
      ensures r.credentials[b] == initial.credentials[b]
    {
      assert !RewritesAccount(users, accounts, initial, k, b, rule);
      assert r.credentials[b] == prev.credentials[b];
    }
  }

  /** A run that raises nowhere deactivates exactly the examined users the
      decision flags, stores every rewrite a refresh produced (deactivated or
      not), and leaves every other flag and every other account as it was. */
  lemma SweepDeactivatesExactlyFlagged(users: seq<User>, accounts: seq<AssociatedAccount>, active: seq<bool>,
                                       credentials: seq<Value>, rule: Rule)
    requires |active| == |users| && |credentials| == |accounts| && DistinctIds(users)
    ensures var r := RunAll(users, accounts, active, credentials, rule);
            && (r.status == NoException
                <==> forall j :: 0 <= j < |users| && Examined(users, active, j)
                      ==> Decision(users, accounts, credentials, j, rule).verdict.Ok?)
            && (r.status == NoException ==> Decided(users, accounts, State(active, credentials, NoException), r, |users|, rule))
  {
    RunDecides(users, accounts, State(active, credentials, NoException), |users|, rule);
  }

  /** The credentials users[j]'s decision is taken on: those of its account, if it has one. */
  function CredentialsOf(users: seq<User>, accounts: seq<AssociatedAccount>, credentials: seq<Value>, j: int)
    : (r: Option<Value>)
    requires 0 <= j < |users| && |credentials| == |accounts|
    ensures r.Some? <==> FindAccount(accounts, users[j].id).Some?
  {
    var found := FindAccount(accounts, users[j].id);
    if found.Some? then Some(credentials[found.value]) else None
  }

  /** Running the job a second time at the same `now` against the same
      provider changes nothing: the users the first run kept are kept again
      without a refresh, and nobody else is examined. This needs each record
      the first run wrote to expire after `now` (a positive `expires_in`). */
  lemma SweepTwiceChangesNothing(users: seq<User>, accounts: seq<AssociatedAccount>, active: seq<bool>,
                                 credentials: seq<Value>, now: int, tokenEndpoint: Value -> Response,
                                 userInfo: Value -> Response)
    requires |active| == |users| && |credentials| == |accounts| && DistinctIds(users)
    requires RunAll(users, accounts, active, credentials, JobRule(now, tokenEndpoint, userInfo)).status == NoException
    requires forall j :: 0 <= j < |users| && Examined(users, active, j)
               && CheckUser(CredentialsOf(users, accounts, credentials, j), now, tokenEndpoint, userInfo).rewrite.Some?
               ==> UnexpiredAt(CheckUser(CredentialsOf(users, accounts, credentials, j), now, tokenEndpoint, userInfo).rewrite.value, now)
    ensures var rule := JobRule(now, tokenEndpoint, userInfo);
            var first := RunAll(users, accounts, active, credentials, rule);
            RunAll(users, accounts, first.active, first.credentials, rule) == first
  {
    var rule := JobRule(now, tokenEndpoint, userInfo);
    var initial := State(active, credentials, NoException);
    var first := RunAll(users, accounts, active, credentials, rule);
    RunDecides(users, accounts, initial, |users|, rule);
    var again := State(first.active, first.credentials, NoException);
    forall j | 0 <= j < |users| && Examined(users, first.active, j)
      ensures Decision(users, accounts, first.credentials, j, rule) == UserCheck(None, Ok(Keep))
    {
      var c := CredentialsOf(users, accounts, credentials, j);
      assert Decision(users, accounts, credentials, j, rule) == CheckUser(c, now, tokenEndpoint, userInfo);
      var a := FindAccount(accounts, users[j].id).value;
      var check := CheckUser(c, now, tokenEndpoint, userInfo);
      if check.rewrite.Some? {
        assert RewritesAccount(users, accounts, initial, j, a, rule);
      }
      RecheckKeeps(c.value, now, tokenEndpoint, userInfo);
    }
    RunDecides(users, accounts, again, |users|, rule);
    var second := RunAll(users, accounts, first.active, first.credentials, rule);
    forall a | 0 <= a < |accounts|
      ensures second.credentials[a] == first.credentials[a]
    {
      forall j | 0 <= j < |users|
        ensures !RewritesAccount(users, accounts, again, j, a, rule)
      {
      }
    }
    assert second.active == first.active;
    assert second.credentials == first.credentials;
  }

  /** In a run that raises nowhere, an examined user without an oauth2_basic
      account, or whose account has no credentials, ends up inactive. */
  lemma SweepDeactivatesUnlinked(users: seq<User>, accounts: seq<AssociatedAccount>, active: seq<bool>,
                                 credentials: seq<Value>, j: int, now: int, tokenEndpoint: Value -> Response,
                                 userInfo: Value -> Response)
    requires |active| == |users| && |credentials| == |accounts| && DistinctIds(users)
    requires 0 <= j < |users| && Examined(users, active, j)
    requires var c := CredentialsOf(users, accounts, credentials, j); c.None? || !Truthy(c.value)
    requires RunAll(users, accounts, active, credentials, JobRule(now, tokenEndpoint, userInfo)).status == NoException
    ensures !RunAll(users, accounts, active, credentials, JobRule(now, tokenEndpoint, userInfo)).active[j]
  {
    var rule := JobRule(now, tokenEndpoint, userInfo);
    RunDecides(users, accounts, State(active, credentials, NoException), |users|, rule);
    assert Decision(users, accounts, credentials, j, rule)
           == CheckUser(CredentialsOf(users, accounts, credentials, j), now, tokenEndpoint, userInfo);
  }
}
