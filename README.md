# DeactivateUnauthorizedUsers, modelled in Dafny

This project models the scheduled job `Jobs::DeactivateUnauthorizedUsers` of the
discourse-oauth2-digitalocean plugin, in `jobs/scheduled/deactivate_unauthorised_users.rb`.
Every five minutes the job goes through the active human users. For each one it looks up
the `oauth2_basic` associated account and picks an OAuth2 access token: the stored one
while it is unexpired, otherwise one obtained from the provider's token endpoint with the
stored refresh token. A successful refresh is written back to the account's credentials.
The job then asks the provider's user-info endpoint whether the account is verified and
`active`. A user who has no usable token, or whose account fails that check, is deactivated.

The model has three modules:

- `RubyValues` (`ruby_values.dfy`) covers the Ruby semantics the job depends on. It works
  over the values `JSON.parse` yields and a jsonb column holds:
  - truthiness: everything except `nil` and `false` counts as true, `""` included;
  - `[]` with a String key on a Hash, on a String (substring or `nil`), and on values
    that raise;
  - `to_i` (`nil.to_i` is 0; a String is parsed from its leading digits);
  - Integer `+`.

  Each operation that raises in Ruby yields an explicit `Raise`.
- `Authorization` (`authorization.dfy`) holds the per-user decision as pure functions:
  - `ProcessResponse`;
  - token selection (`SelectToken`, with `Refresh` and the written record
    `RefreshedCredentials`);
  - the account check (`AccountVerified`);
  - the whole loop body for one user (`CheckUser`).

  The two HTTP endpoints are oracles. Each is a function from the one value its request
  carries (the refresh token posted, or the bearer token) to a `Response`, which holds the
  status plus the parse result of the body, or `None` when parsing fails.
- `Sweep` (`sweep.dfy`) holds the records the job changes in place, as classes:
  - `User` has `active`, cleared by `Deactivate`;
  - `AssociatedAccount` has `credentials`, rewritten by `UpdateCredentials`.

  The imperative `Execute` loops over the users. It calls `Examine` for each one and
  `Authorize` for the part after the account lookup. `Execute` is proved to leave the
  users' flags, the accounts' credentials and its outcome exactly as the value-level
  specification `RunAll` (built from `Run` and `Step`) prescribes. The theorems about a run
  are stated on `RunAll` for any per-user rule, and `JobRule` instantiates the rule with
  `CheckUser`.

An exception raised while examining a user ends the whole run. The job has no per-user
rescue. The cases are:
- `now + expires_in` with a refresh response that lacks an Integer `expires_in`;
- a `[]` or `to_i` on a JSON value of the wrong type.

Such a run ends with `Raised(userId, error)`. Earlier users' changes, and a refresh already
written for that user, stay in place. Later users are not examined.

The model keeps these details of the code:
- the code treats `email_verified` as a Ruby truthy value, not `== true`;
- a stored token must itself be truthy before its expiry is compared;
- a missing `expires_at` counts as 0;
- a successful refresh response without `expires_in` is not treated as a failed refresh. It
  raises and aborts the run (`MissingExpiresInRaises`);
- the refresh token stored after a refresh is whatever the response carries, `nil` when it
  carries none. The consequence is proved in `RefreshTokenDropped`: once the new token
  expires, the user is deactivated without any refresh attempt.

## Model

| member | source | states |
|---|---|---|
| `RubyValues.Index` | jobs/scheduled/deactivate_unauthorised_users.rb:56-59 | `v[key]` succeeds exactly on a Hash or a String. On a Hash it is the value at the key, nil when absent. On a String it is the key itself exactly when the key occurs in the String, nil otherwise. nil and booleans raise NoMethodError; Integers and Arrays raise TypeError |
| `RubyValues.StrToI` | jobs/scheduled/deactivate_unauthorised_users.rb:20 | String#to_i: a String with no digit at all (e.g. `""`) reads as 0 |
| `RubyValues.ToI` | jobs/scheduled/deactivate_unauthorised_users.rb:20 | `expires_at.to_i` raises only on booleans, Arrays and Hashes; a missing (nil) expiry reads as 0; an Integer reads as itself |
| `RubyValues.ToIOfToS` | jobs/scheduled/deactivate_unauthorised_users.rb:20 | an expiry stored as the decimal String of an Integer reads back as that Integer (`i.to_s.to_i == i`) |
| `RubyValues.AddInt` | jobs/scheduled/deactivate_unauthorised_users.rb:39 | `now + expires_in` succeeds exactly when `expires_in` is an Integer, and then is `now` plus it |
| `Authorization.ProcessResponse` | jobs/scheduled/deactivate_unauthorised_users.rb:89-95 | a truthy result only comes from a 200 whose body parses to it; a non-200 response or an unparseable body gives nil |
| `Authorization.RefreshedCredentials` | jobs/scheduled/deactivate_unauthorised_users.rb:35-42 | the written record has exactly the keys token, expires, expires_at, refresh_token, holding the access token, true, the new expiry and the response's refresh token |
| `Authorization.StoredTokenUnexpired` | jobs/scheduled/deactivate_unauthorised_users.rb:20 | the stored token counts as unexpired only when it is truthy. For a Hash of credentials, the check raises exactly when the token is truthy and `expires_at.to_i` raises; otherwise it holds exactly when the token is truthy and the expiry is after `now` |
| `Authorization.Refresh` | jobs/scheduled/deactivate_unauthorised_users.rb:22-43 | the posted refresh token is recorded. No token means no rewrite. A token comes only from an object response with an Integer `expires_in`: it is the response's `access_token`, and the rewrite is exactly the record of :36-41. On an object response, the refresh raises exactly when `access_token` is truthy and `expires_in` is not an Integer |
| `Authorization.SelectToken` | jobs/scheduled/deactivate_unauthorised_users.rb:18-44 | a credential rewrite only happens together with a truthy token and a posted refresh request, and a posted refresh token is truthy |
| `Authorization.AccountVerified` | jobs/scheduled/deactivate_unauthorised_users.rb:56-59 | the condition holds exactly when the body is an object whose `account` is an object with a truthy `email_verified` and `status` "active". It raises exactly when a lookup hits a truthy value that is neither an object nor a String |
| `Authorization.AccountVerdict` | jobs/scheduled/deactivate_unauthorised_users.rb:46-65 | a user holding a token is kept exactly when the user-info response is a 200 that parses to a body showing a verified, active account; any other non-raising verdict is deactivation as not verified/active |
| `Authorization.CheckUser` | jobs/scheduled/deactivate_unauthorised_users.rb:12-17 | a user with no oauth2_basic account, or whose credentials are nil or false, is deactivated as not authorized, and nothing is written |
| `Authorization.StoredTokenUsedIffUnexpired` | jobs/scheduled/deactivate_unauthorised_users.rb:20-21 | a truthy stored token is used as it is, with no refresh and no rewrite, if and only if its expiry (missing counts as 0) is strictly after `now` |
| `Authorization.UnexpiredTokenIgnoresTokenEndpoint` | jobs/scheduled/deactivate_unauthorised_users.rb:20-30 | with an unexpired stored token the outcome is the same whatever the token endpoint would answer, and no refresh token is posted |
| `Authorization.NoRefreshTokenDeactivates` | jobs/scheduled/deactivate_unauthorised_users.rb:20-22 | stored token absent or expired and no refresh token: no token, nothing posted, nothing written, deactivated as no longer authorized |
| `Authorization.RefreshSucceedsIff` | jobs/scheduled/deactivate_unauthorised_users.rb:22-42 | a refresh yields a token iff the response is a 200 parsing to an object with a truthy access_token and an Integer expires_in; the record is then exactly {token: access_token, expires: true, expires_at: now + expires_in, refresh_token: the response's (nil if absent)} |
| `Authorization.FailedRefreshWritesNothing` | jobs/scheduled/deactivate_unauthorised_users.rb:32-43 | a refresh response that is non-200, unparseable, parses to null or false, or is an object or String without a truthy access_token leaves the credentials unchanged and deactivates the user as no longer authorized |
| `Authorization.MissingExpiresInRaises` | jobs/scheduled/deactivate_unauthorised_users.rb:39 | a 200 refresh response with an access_token but no Integer expires_in raises TypeError before anything is written |
| `Authorization.AccountVerifiedIff` | jobs/scheduled/deactivate_unauthorised_users.rb:56-59 | the user is kept iff the user-info response is a 200 parsing to an object whose account is an object with a truthy email_verified and status "active" |
| `Authorization.UnverifiedDeactivates` | jobs/scheduled/deactivate_unauthorised_users.rb:56-62 | a user holding a token whose user-info response is anything else is deactivated as not verified/active, or the lookup raises |
| `Authorization.RewriteSurvivesVerdict` | jobs/scheduled/deactivate_unauthorised_users.rb:35-62 | the record written by a refresh is kept whatever the account check then decides, deactivation included |
| `Authorization.RecheckKeeps` | jobs/scheduled/deactivate_unauthorised_users.rb:18-65 | re-examining a kept user at the same time against the same provider keeps them again with no rewrite, when a written record expires after `now` |
| `Authorization.RefreshTokenDropped` | jobs/scheduled/deactivate_unauthorised_users.rb:40 | after a refresh whose response has no refresh_token, once the new token expires the user is deactivated with no refresh attempt, whatever the endpoint would answer |
| `Sweep.User.Deactivate` | jobs/scheduled/deactivate_unauthorised_users.rb:79 | the user is no longer active |
| `Sweep.AssociatedAccount.UpdateCredentials` | jobs/scheduled/deactivate_unauthorised_users.rb:35-42 | the account's credentials become the given record |
| `Sweep.FindAccount` | jobs/scheduled/deactivate_unauthorised_users.rb:12-15 | an account it finds has provider oauth2_basic and the user's id |
| `Sweep.FindAccountIsFirst` | jobs/scheduled/deactivate_unauthorised_users.rb:12-15 | the account found is the first matching one in store order, and none is found exactly when no account matches |
| `Sweep.Step` | jobs/scheduled/deactivate_unauthorised_users.rb:10-81 | the loop body on a state value: once the run has raised nothing changes, and it never sets the user's flag |
| `Sweep.StepFrame` | jobs/scheduled/deactivate_unauthorised_users.rb:10-81 | one iteration changes no other user's flag and no account except the one found for its user |
| `Sweep.Run` | jobs/scheduled/deactivate_unauthorised_users.rb:8-82 | the loop over users[..k] as a value: a run started in a raised state stays that state |
| `Sweep.RunFrame` | jobs/scheduled/deactivate_unauthorised_users.rb:8-82 | after users[..k], users not yet reached keep their flags, and a raised run names a user the query selected |
| `Sweep.RunAll` | jobs/scheduled/deactivate_unauthorised_users.rb:7-83 | the whole job as a value: one flag per user and one credential record per account in the final state |
| `Sweep.RunAllRaisesOnExamined` | jobs/scheduled/deactivate_unauthorised_users.rb:8-82 | a run aborts only on a user the query selected (human and active) |
| `Sweep.Authorize` | jobs/scheduled/deactivate_unauthorised_users.rb:17-73 | the imperative branches rewrite the account's credentials and set `deactivate` or raise exactly as `CheckUser` prescribes on the old credentials |
| `Sweep.Examine` | jobs/scheduled/deactivate_unauthorised_users.rb:11-81 | one loop iteration changes the flags, the credentials and the status exactly as `Step` does, touching only this user and the accounts |
| `Sweep.Advance` | jobs/scheduled/deactivate_unauthorised_users.rb:10-81 | one loop iteration takes the real flags and credentials from the run's state after users[..i] to its state after users[..i+1] |
| `Sweep.Execute` | jobs/scheduled/deactivate_unauthorised_users.rb:7-83 | the final flags, credentials and outcome are exactly those of `RunAll` from the initial ones under the job's rule |
| `Sweep.RaisedRunIsFinal` | jobs/scheduled/deactivate_unauthorised_users.rb:7-83 | after an exception no later user is examined and nothing more changes |
| `Sweep.RunOnlyDeactivatesExamined` | jobs/scheduled/deactivate_unauthorised_users.rb:8-10 | the job never sets a user active, and a user that is not human or not active keeps its flag |
| `Sweep.RunDecides` | jobs/scheduled/deactivate_unauthorised_users.rb:8-81 | what the run establishes after users[..k]: it has not raised iff no examined user raised so far, and then every processed user's flag, and every account's credentials, are what that user's own decision on the initial credentials says |
| `Sweep.SweepDeactivatesExactlyFlagged` | jobs/scheduled/deactivate_unauthorised_users.rb:75-81 | a run completes iff no examined user raises; it then deactivates exactly the examined users whose verdict is not Keep, stores every refresh rewrite, and leaves every other flag and account as it was |
| `Sweep.SweepTwiceChangesNothing` | jobs/scheduled/deactivate_unauthorised_users.rb:7-83 | a second run at the same time against the same provider changes no flag and no credential, provided the refreshed records expire after `now` |
| `Sweep.SweepDeactivatesUnlinked` | jobs/scheduled/deactivate_unauthorised_users.rb:70-72 | in a completed run an examined user with no oauth2_basic account, or with nil/false credentials, ends up inactive |

## Left out

- HTTP transport (`Excon.post`, `Excon.get`, headers, `URI.encode_www_form`, the `SiteSetting` URLs): the two endpoints are oracles from the refresh token, or the bearer token, to a `Response`. Network exceptions raised by Excon (timeouts, socket errors) are not modelled: the oracles always answer.
- `JSON.parse`: its result is given in the response, `None` for `JSON::ParserError`. JSON numbers with a fraction or an exponent (Ruby Floats) are not represented, so Float `to_i` and Integer-plus-Float are not modelled.
- String#to_i: the `0d` radix prefix it also accepts is not modelled.
- `Time.now`: a single integer `now` for the whole run. The source reads the clock at line 20 and again at line 39, and may see two different seconds.
- `log` / `Rails.logger`: the three deactivating log messages survive only as the `Reason` carried by a `Deactivate` verdict.
- `User.transaction`, `Discourse.system_user` attribution and the rest of Discourse's `user.deactivate`: modelled as clearing `active`. ActiveRecord persistence of `update!` is modelled as assigning the `credentials` field, and validation failures of `update!` are not modelled. The written record is stored with String keys, as the jsonb column returns it.
- `User.human_users.where(active: true)`: the users are a sequence of distinct records, and "human" is a flag on each. The query result is fixed before the loop. The model tests the flag on reaching each user, which is equivalent because an iteration changes only its own user.
- `find_by` without an order: modelled as the first matching account in store order. In practice the (provider, user) pair is unique.
- Sweep.SweepDeactivatesExactlyFlagged, Sweep.RunDecides, Sweep.SweepTwiceChangesNothing and Sweep.SweepDeactivatesUnlinked assume distinct user ids, as the users table's primary key guarantees. Without it, a later user sharing an id could read credentials an earlier one rewrote. `Sweep.Execute` itself does not assume it.
- The `every 5.minutes` schedule and overlapping runs: scheduler and concurrency concerns outside the job's code.
