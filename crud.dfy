/**
 * The older data-access layer (app/database/crud.py): owner-optional task
 * queries and writes, and the login-time token retention: purge the user's
 * expired tokens, trim the user's list to the newest `limit - 1` by id, then
 * add a fresh token. Clock readings and the random token value are
 * parameters; times are whole seconds.
 */
module LegacyCrud {
  import opened Common

  /** A row of `task`; `user_id` is nullable. */
  datatype LegacyTask = LegacyTask(id: int, title: string, description: Option<string>, completed: bool, userId: Option<int>)

  /**
   * The supplied fields of a `TaskUpdate` payload (`exclude_unset`): `None`
   * for an absent field, `Some(None)` for an explicit `null`.
   */
  datatype LegacyUpdate = LegacyUpdate(title: Option<Option<string>>, description: Option<Option<string>>)

  /** The commit raises: `task.title` is `NOT NULL`, the only such column an update can set. */
  datatype CommitError = NotNullViolation(column: string)

  /** The payload sets `title` to `null`. */
  predicate ClearsTitle(u: LegacyUpdate) {
    u.title == Some(None)
  }

  /** A row of `auth_token`. */
  datatype AuthToken = AuthToken(id: int, value: string, userId: int, expiresAt: Option<int>)

  // ---------------------------------------------------------------------------
  // Tasks

  /** The statement's filter: the id, and the owner when a user is given (`NULL = x` never holds). */
  predicate Selected(t: LegacyTask, taskId: int, user: Option<int>) {
    t.id == taskId && (user.None? || t.userId == user)
  }

  /** `.first()` of the task statement: the first matching row. */
  function FindTask(rows: seq<LegacyTask>, taskId: int, user: Option<int>): (r: Option<nat>)
    ensures r.Some? ==> r.value < |rows| && Selected(rows[r.value], taskId, user)
    ensures r.Some? ==> forall j :: 0 <= j < r.value ==> !Selected(rows[j], taskId, user)
    ensures r.None? ==> forall j :: 0 <= j < |rows| ==> !Selected(rows[j], taskId, user)
  {
    if |rows| == 0 then None
    else if Selected(rows[0], taskId, user) then Some(0)
    else
      match FindTask(rows[1..], taskId, user)
      case None =>
        assert forall j :: 0 < j < |rows| ==> rows[j] == rows[1..][j - 1];
        None
      case Some(k) =>
        assert forall j :: 0 < j <= k ==> rows[j] == rows[1..][j - 1];
        Some(k + 1)
  }

  /** `get_tasks`: every row, or only the rows of the given user, in table order. */
  function OwnedBy(rows: seq<LegacyTask>, user: Option<int>): (r: seq<LegacyTask>)
    ensures forall t :: t in r <==> t in rows && (user.None? || t.userId == user)
    ensures user.None? ==> r == rows
    ensures |r| <= |rows|
  {
    if |rows| == 0 then []
    else
      var init := OwnedBy(rows[..|rows| - 1], user);
      assert rows == rows[..|rows| - 1] + [rows[|rows| - 1]];
      if user.None? || rows[|rows| - 1].userId == user then init + [rows[|rows| - 1]] else init
  }

  /**
   * `setattr` of each supplied field; the rest of the row stays. The nullable
   * `description` takes an explicit `null` as `None`.
   */
  function ApplyLegacyUpdate(t: LegacyTask, u: LegacyUpdate): (r: LegacyTask)
    requires !ClearsTitle(u)
    ensures r.id == t.id && r.completed == t.completed && r.userId == t.userId
    ensures r.title == (if u.title.Some? then u.title.value.value else t.title)
    ensures u.description == Some(None) ==> r.description.None?
    ensures u.description.Some? && u.description.value.Some? ==> r.description == u.description.value
    ensures u.description.None? ==> r.description == t.description
  {
    t.(title := if u.title.Some? then u.title.value.value else t.title,
       description := if u.description.Some? then u.description.value else t.description)
  }

  // ---------------------------------------------------------------------------
  // Token filters

  predicate DistinctTokenIds(ts: seq<AuthToken>) {
    forall i, j :: 0 <= i < |ts| && 0 <= j < |ts| && ts[i].id == ts[j].id ==> i == j
  }

  /** The tokens satisfying `keep`, in table order. */
  function Filter(ts: seq<AuthToken>, keep: AuthToken -> bool): (r: seq<AuthToken>)
    ensures forall t :: t in r <==> t in ts && keep(t)
    ensures |r| <= |ts|
    ensures DistinctTokenIds(ts) ==> DistinctTokenIds(r)
  {
    if |ts| == 0 then []
    else
      var init := Filter(ts[..|ts| - 1], keep);
      assert ts == ts[..|ts| - 1] + [ts[|ts| - 1]];
      if keep(ts[|ts| - 1]) then
        assert DistinctTokenIds(ts) ==> forall t :: t in init ==> t.id != ts[|ts| - 1].id;
        init + [ts[|ts| - 1]]
      else init
  }

  /** `expires_at IS NOT NULL AND expires_at < now`. */
  predicate Expired(t: AuthToken, now: int) {
    t.expiresAt.Some? && t.expiresAt.value < now
  }

  /** What `cleanup_expired_tokens` leaves: every token but the expired ones of the given user (or of anyone). */
  function Purge(ts: seq<AuthToken>, now: int, userId: Option<int>): seq<AuthToken> {
    Filter(ts, (t: AuthToken) => !(Expired(t, now) && (userId.None? || t.userId == userId.value)))
  }

  /** `WHERE user_id = :user`, in table order. */
  function UserTokens(ts: seq<AuthToken>, user: int): seq<AuthToken> {
    Filter(ts, (t: AuthToken) => t.userId == user)
  }

  /** The tokens whose ids are not in `gone`. */
  function Without(ts: seq<AuthToken>, gone: set<int>): seq<AuthToken> {
    Filter(ts, (t: AuthToken) => t.id !in gone)
  }

  function IdsOf(ts: seq<AuthToken>): set<int> {
    set t | t in ts :: t.id
  }

  lemma FilterConcat(a: seq<AuthToken>, b: seq<AuthToken>, keep: AuthToken -> bool)
    ensures Filter(a + b, keep) == Filter(a, keep) + Filter(b, keep)
  {
    if |b| == 0 {
      assert a + b == a;
    } else {
      var b0 := b[..|b| - 1];
      assert (a + b)[..|a + b| - 1] == a + b0;
      FilterConcat(a, b0, keep);
    }
  }

  /** Filtering with `f` first changes nothing when every token `g` keeps is one `f` keeps. */
  lemma {:induction false} FilterSubsumed(s: seq<AuthToken>, f: AuthToken -> bool, g: AuthToken -> bool)
    requires forall t :: t in s && g(t) ==> f(t)
    ensures Filter(Filter(s, f), g) == Filter(s, g)
  {
    if |s| > 0 {
      var init := s[..|s| - 1];
      assert s == init + [s[|s| - 1]];
      FilterSubsumed(init, f, g);
      FilterConcat(Filter(init, f), [s[|s| - 1]], g);
    }
  }

  /** Deleting the ids of `g` and then those of `h` deletes the ids of both. */
  lemma {:induction false} WithoutWithout(s: seq<AuthToken>, g: set<int>, h: set<int>)
    ensures Without(Without(s, g), h) == Without(s, g + h)
  {
    if |s| > 0 {
      var init := s[..|s| - 1];
      assert s == init + [s[|s| - 1]];
      WithoutWithout(init, g, h);
      FilterConcat(Without(init, g), [s[|s| - 1]], (t: AuthToken) => t.id !in h);
    }
  }

  /** Deleting no ids keeps every token. */
  lemma {:induction false} WithoutNothing(s: seq<AuthToken>)
    ensures Without(s, {}) == s
  {
    if |s| > 0 {
      var init := s[..|s| - 1];
      assert s == init + [s[|s| - 1]];
      WithoutNothing(init);
    }
  }

  /** Deleting one more victim is deleting the victims up to and including it. */
  lemma DeleteOneMore(start: seq<AuthToken>, victims: seq<AuthToken>, i: nat)
    requires i < |victims|
    ensures Without(Without(start, IdsOf(victims[..i])), {victims[i].id}) == Without(start, IdsOf(victims[..i + 1]))
  {
    WithoutWithout(start, IdsOf(victims[..i]), {victims[i].id});
    assert victims[..i + 1] == victims[..i] + [victims[i]];
    assert IdsOf(victims[..i + 1]) == IdsOf(victims[..i]) + {victims[i].id};
  }

  // ---------------------------------------------------------------------------
  // `ORDER BY auth_token.id DESC`

  predicate ByIdDesc(s: seq<AuthToken>) {
    forall i, j :: 0 <= i < j < |s| ==> s[i].id >= s[j].id
  }

  lemma PrependByIdDesc(h: AuthToken, s: seq<AuthToken>)
    requires ByIdDesc(s)
    requires forall x :: x in s ==> x.id <= h.id
    ensures ByIdDesc([h] + s)
  {
    var r := [h] + s;
    forall i, j | 0 <= i < j < |r| ensures r[i].id >= r[j].id {
      if i == 0 { assert r[j] == s[j - 1]; } else { assert r[i] == s[i - 1] && r[j] == s[j - 1]; }
    }
  }

  function InsertByIdDesc(s: seq<AuthToken>, t: AuthToken): (r: seq<AuthToken>)
    requires ByIdDesc(s)
    ensures forall x :: x in r ==> x in s || x == t
    ensures ByIdDesc(r)
    ensures multiset(r) == multiset(s) + multiset{t}
  {
    if |s| == 0 then [t]
    else if t.id > s[0].id then
      PrependByIdDesc(t, s);
      [t] + s
    else
      var rest := InsertByIdDesc(s[1..], t);
      assert s == [s[0]] + s[1..];
      assert forall x :: x in s[1..] ==> x.id <= s[0].id;
      assert forall x :: x in rest ==> x.id <= s[0].id;
      PrependByIdDesc(s[0], rest);
      [s[0]] + rest
  }

  /** The user's tokens newest first. */
  function OrderByIdDesc(s: seq<AuthToken>): (r: seq<AuthToken>)
    ensures ByIdDesc(r)
    ensures multiset(r) == multiset(s)
  {
    if |s| == 0 then []
    else
      assert s == s[..|s| - 1] + [s[|s| - 1]];
      InsertByIdDesc(OrderByIdDesc(s[..|s| - 1]), s[|s| - 1])
  }

  /** Python's `s[k:]`: empty once `k` passes the end. */
  function Drop(s: seq<AuthToken>, k: nat): (r: seq<AuthToken>)
    ensures forall t :: t in r <==> exists j :: k <= j < |s| && s[j] == t
  {
    if k < |s| then s[k..] else []
  }

  // ---------------------------------------------------------------------------
  // `create_token`

  /**
   * The tokens `create_token` deletes after the purge: with a limit of one all
   * of the user's tokens, otherwise the user's tokens past the `limit - 1`
   * newest.
   */
  function Victims(purged: seq<AuthToken>, user: int, limit: int): seq<AuthToken> {
    var mine := UserTokens(purged, user);
    if limit == 1 then mine else Drop(OrderByIdDesc(mine), if limit > 1 then limit - 1 else 0)
  }

  /** The token table after `create_token` has purged, trimmed and added `token`. */
  function AfterCreateToken(ts: seq<AuthToken>, user: int, now: int, limit: int, token: AuthToken): seq<AuthToken> {
    var purged := Purge(ts, now, Some(user));
    Without(purged, IdsOf(Victims(purged, user, limit))) + [token]
  }

  /** `max(1, max_tokens_per_user)` is never below one. */
  lemma EffectiveLimitAtLeastOne(setting: int)
    ensures Max(1, setting) >= 1
    ensures setting >= 1 ==> Max(1, setting) == setting
  {
  }

  /** The only tokens of the user left are unexpired ones, provided the new token is not already expired. */
  lemma CreateTokenLeavesNoExpired(ts: seq<AuthToken>, user: int, now: int, limit: int, token: AuthToken)
    requires !Expired(token, now)
    ensures forall t :: t in AfterCreateToken(ts, user, now, limit, token) && t.userId == user ==> !Expired(t, now)
  {
    var purged := Purge(ts, now, Some(user));
    var kept := Without(purged, IdsOf(Victims(purged, user, limit)));
    forall t | t in kept + [token] && t.userId == user ensures !Expired(t, now) {
      if t != token {
        assert t in kept && t in purged;
      }
    }
  }

  /** The user's tokens among the kept ones: the user's tokens the trim did not delete. */
  lemma UserTokensWithout(purged: seq<AuthToken>, user: int, gone: set<int>)
    ensures UserTokens(Without(purged, gone), user) == Without(UserTokens(purged, user), gone)
    ensures forall t :: t in UserTokens(Without(purged, gone), user) <==> t in purged && t.userId == user && t.id !in gone
  {
    FilterOrder(purged, (t: AuthToken) => t.id !in gone, (t: AuthToken) => t.userId == user);
  }

  /** Two filters in either order keep the same tokens. */
  lemma {:induction false} FilterOrder(s: seq<AuthToken>, f: AuthToken -> bool, g: AuthToken -> bool)
    ensures Filter(Filter(s, f), g) == Filter(Filter(s, g), f)
  {
    if |s| > 0 {
      var init := s[..|s| - 1];
      var x := s[|s| - 1];
      assert s == init + [x];
      FilterOrder(init, f, g);
      FilterConcat(Filter(init, f), [x], g);
      FilterConcat(Filter(init, g), [x], f);
    }
  }

  /** With a limit of one, the new token is the user's only token. */
  lemma LimitOneLeavesOnlyNew(ts: seq<AuthToken>, user: int, now: int, token: AuthToken)
    requires token.userId == user
    ensures UserTokens(AfterCreateToken(ts, user, now, 1, token), user) == [token]
  {
    var purged := Purge(ts, now, Some(user));
    var gone := IdsOf(Victims(purged, user, 1));
    var kept := Without(purged, gone);
    FilterConcat(kept, [token], (t: AuthToken) => t.userId == user);
    forall t | t in kept ensures t.userId != user {
      assert t in purged && t.id !in gone;
      assert t.userId == user ==> t in UserTokens(purged, user);
    }
    FilterNone(kept, (t: AuthToken) => t.userId == user);
  }

  /** A filter no token passes leaves nothing. */
  lemma FilterNone(s: seq<AuthToken>, keep: AuthToken -> bool)
    requires forall t :: t in s ==> !keep(t)
    ensures Filter(s, keep) == []
  {
    if |s| > 0 {
      assert s[..|s| - 1] + [s[|s| - 1]] == s;
      FilterNone(s[..|s| - 1], keep);
    }
  }

  /** `|set(s)| <= |s|`. */
  lemma {:induction false} CardOfElements(s: seq<AuthToken>)
    ensures |set t | t in s| <= |s|
  {
    if |s| > 0 {
      var init := s[..|s| - 1];
      assert s == init + [s[|s| - 1]];
      CardOfElements(init);
      assert (set t | t in s) == (set t | t in init) + {s[|s| - 1]};
    }
  }

  /** A list of tokens with distinct ids has as many elements as its set. */
  lemma {:induction false} CardOfDistinct(s: seq<AuthToken>)
    requires DistinctTokenIds(s)
    ensures |set t | t in s| == |s|
  {
    if |s| > 0 {
      var init := s[..|s| - 1];
      var x := s[|s| - 1];
      assert s == init + [x];
      assert DistinctTokenIds(init);
      CardOfDistinct(init);
      assert x !in init;
      assert (set t | t in s) == (set t | t in init) + {x};
    }
  }

  /** A token of a newest-first list that `tokens[keep:]` did not delete sits among the first `keep`. */
  lemma KeptIsInHead(sorted: seq<AuthToken>, keep: nat, t: AuthToken)
    requires t in sorted && t.id !in IdsOf(Drop(sorted, keep))
    ensures keep <= |sorted| ==> t in sorted[..keep]
    ensures keep > |sorted| || exists j :: 0 <= j < keep && sorted[j] == t
  {
    var j :| 0 <= j < |sorted| && sorted[j] == t;
    assert j < keep;
  }

  /** A subset is no larger than its superset. */
  lemma SubsetCard(a: set<AuthToken>, b: set<AuthToken>)
    requires a <= b
    ensures |a| <= |b|
  {
    assert b == a + (b - a);
    assert a * (b - a) == {};
  }

  /** At most `keep` distinct tokens of a newest-first list survive `tokens[keep:]` being deleted. */
  lemma KeptAtMostKeep(sorted: seq<AuthToken>, keep: nat, kept: seq<AuthToken>)
    requires forall t :: t in kept ==> t in sorted && t.id !in IdsOf(Drop(sorted, keep))
    requires DistinctTokenIds(kept)
    ensures |kept| <= keep
  {
    CardOfDistinct(kept);
    var head := if keep <= |sorted| then sorted[..keep] else sorted;
    forall t | t in kept ensures t in head {
      KeptIsInHead(sorted, keep, t);
    }
    SubsetCard(set t | t in kept, set t | t in head);
    CardOfElements(head);
  }

  /** A surviving token of a newest-first list has a higher id than every deleted one. */
  lemma KeptIsNewer(sorted: seq<AuthToken>, keep: nat, s: AuthToken, d: AuthToken)
    requires ByIdDesc(sorted)
    requires s in sorted && s.id !in IdsOf(Drop(sorted, keep)) && d in Drop(sorted, keep)
    ensures s.id > d.id
  {
    var j :| 0 <= j < |sorted| && sorted[j] == s;
    var k :| keep <= k < |sorted| && sorted[k] == d;
    assert d.id in IdsOf(Drop(sorted, keep));
    assert j < keep;
  }

  /** The user's tokens the trim keeps are the user's purged tokens whose ids it did not delete. */
  lemma TrimmedUserTokens(ts: seq<AuthToken>, user: int, now: int, limit: int)
    requires DistinctTokenIds(ts)
    ensures var purged := Purge(ts, now, Some(user));
            var kept := UserTokens(Without(purged, IdsOf(Victims(purged, user, limit))), user);
            && DistinctTokenIds(kept)
            && forall t :: t in kept ==> t in OrderByIdDesc(UserTokens(purged, user)) && t.id !in IdsOf(Victims(purged, user, limit))
  {
    var purged := Purge(ts, now, Some(user));
    var gone := IdsOf(Victims(purged, user, limit));
    UserTokensWithout(purged, user, gone);
    var sorted := OrderByIdDesc(UserTokens(purged, user));
    forall t | t in UserTokens(Without(purged, gone), user) ensures t in sorted {
      assert t in multiset(UserTokens(purged, user));
    }
  }

  /**
   * Only the `limit - 1` tokens of the user with the highest ids survive the
   * trim, so after the new token is added the user holds at most `limit`.
   */
  lemma CreateTokenBound(ts: seq<AuthToken>, user: int, now: int, limit: int, token: AuthToken)
    requires DistinctTokenIds(ts) && limit >= 1 && token.userId == user
    ensures |UserTokens(AfterCreateToken(ts, user, now, limit, token), user)| <= limit
  {
    if limit == 1 {
      LimitOneLeavesOnlyNew(ts, user, now, token);
    } else {
      var purged := Purge(ts, now, Some(user));
      var kept := Without(purged, IdsOf(Victims(purged, user, limit)));
      FilterConcat(kept, [token], (t: AuthToken) => t.userId == user);
      TrimmedUserTokens(ts, user, now, limit);
      KeptAtMostKeep(OrderByIdDesc(UserTokens(purged, user)), limit - 1, UserTokens(kept, user));
    }
  }

  /** Every token of the user the trim keeps has a higher id than every token it deletes. */
  lemma SurvivorsAreNewest(ts: seq<AuthToken>, user: int, now: int, limit: int)
    requires DistinctTokenIds(ts) && limit > 1
    ensures var purged := Purge(ts, now, Some(user));
            var victims := Victims(purged, user, limit);
            forall s, d :: s in UserTokens(Without(purged, IdsOf(victims)), user) && d in victims ==> s.id > d.id
  {
    var purged := Purge(ts, now, Some(user));
    var sorted := OrderByIdDesc(UserTokens(purged, user));
    var victims := Victims(purged, user, limit);
    TrimmedUserTokens(ts, user, now, limit);
    forall s, d | s in UserTokens(Without(purged, IdsOf(victims)), user) && d in victims ensures s.id > d.id {
      KeptIsNewer(sorted, limit - 1, s, d);
    }
  }

  /** Another user's tokens are untouched by `create_token`. */
  lemma OtherUsersUntouched(ts: seq<AuthToken>, user: int, now: int, limit: int, token: AuthToken, other: int)
    requires DistinctTokenIds(ts) && token.userId == user && other != user
    ensures UserTokens(AfterCreateToken(ts, user, now, limit, token), other) == UserTokens(ts, other)
  {
    var isOther := (t: AuthToken) => t.userId == other;
    var purged := Purge(ts, now, Some(user));
    var victims := Victims(purged, user, limit);
    var gone := IdsOf(victims);
    var kept := Without(purged, gone);
    FilterConcat(kept, [token], isOther);
    assert Filter([token], isOther) == [];
    forall v | v in victims ensures v in purged && v.userId == user {
      if limit != 1 {
        assert v in multiset(OrderByIdDesc(UserTokens(purged, user)));
      }
    }
    assert forall t :: t in purged && t.userId == other ==> t.id !in gone;
    FilterSubsumed(purged, (t: AuthToken) => t.id !in gone, isOther);
    FilterSubsumed(ts, (t: AuthToken) => !(Expired(t, now) && (Some(user).None? || t.userId == Some(user).value)), isOther);
  }

  // ---------------------------------------------------------------------------
  // The store

  /**
   * The `task` and `auth_token` tables, in table order; ids are keys.
   * `nextTokenId` is some id above every current token's, all that the trim
   * relies on: SQLite hands out the highest rowid plus one, so the model's
   * counter never reusing an id is a simplification.
   */
  class LegacyDb {
    var tasks: seq<LegacyTask>
    var tokens: seq<AuthToken>
    var nextTokenId: int

    ghost predicate Valid()
      reads this
    {
      && (forall i, j :: 0 <= i < |tasks| && 0 <= j < |tasks| && tasks[i].id == tasks[j].id ==> i == j)
      && DistinctTokenIds(tokens)
      && (forall t :: t in tokens ==> t.id < nextTokenId)
    }

    constructor ()
      ensures Valid() && tasks == [] && tokens == []
    {
      tasks := [];
      tokens := [];
      nextTokenId := 1;
    }

    /** `get_tasks`: every task when no user is given, else exactly the user's tasks. */
    function GetTasks(user: Option<int>): (r: seq<LegacyTask>)
      reads this
      ensures forall t :: t in r <==> t in tasks && (user.None? || t.userId == user)
      ensures user.None? ==> r == tasks
    {
      OwnedBy(tasks, user)
    }

    /**
     * `update_task`: `Ok(None)` when no row matches; the commit's error, with
     * the table as it was, when the payload sets `title` to `null`; otherwise
     * only the supplied fields change.
     */
    method UpdateTask(u: LegacyUpdate, taskId: int, user: Option<int>) returns (r: Result<Option<LegacyTask>, CommitError>)
      requires Valid()
      modifies this
      ensures Valid()
      ensures r == Ok(None) <==> old(FindTask(tasks, taskId, user)).None?
      ensures r.Err? <==> old(FindTask(tasks, taskId, user)).Some? && ClearsTitle(u)
      ensures r.Err? ==> r.error == NotNullViolation("title")
      ensures !(r.Ok? && r.value.Some?) ==> tasks == old(tasks)
      ensures r.Ok? && r.value.Some? ==>
                && !ClearsTitle(u)
                && var i := old(FindTask(tasks, taskId, user)).value;
                && r.value.value == ApplyLegacyUpdate(old(tasks)[i], u) && tasks == old(tasks)[i := r.value.value]
      ensures tokens == old(tokens) && nextTokenId == old(nextTokenId)
    {
      var found := FindTask(tasks, taskId, user);
      if found.None? {
        return Ok(None);
      }
      if ClearsTitle(u) {
        return Err(NotNullViolation("title"));
      }
      var i := found.value;
      var t := ApplyLegacyUpdate(tasks[i], u);
      tasks := tasks[i := t];
      assert forall j :: 0 <= j < |tasks| ==> tasks[j].id == old(tasks)[j].id;
      r := Ok(Some(t));
    }

    /** `complete_task`: `None` when no row matches; otherwise `completed` is negated. */
    method CompleteTask(taskId: int, user: Option<int>) returns (r: Option<LegacyTask>)
      requires Valid()
      modifies this
      ensures Valid()
      ensures r.Some? <==> old(FindTask(tasks, taskId, user)).Some?
      ensures r.None? ==> tasks == old(tasks)
      ensures r.Some? ==>
                && var i := old(FindTask(tasks, taskId, user)).value;
                && r.value == old(tasks)[i].(completed := !old(tasks)[i].completed) && tasks == old(tasks)[i := r.value]
      ensures tokens == old(tokens) && nextTokenId == old(nextTokenId)
    {
      var found := FindTask(tasks, taskId, user);
      if found.None? {
        return None;
      }
      var i := found.value;
      var t := tasks[i];
      if !t.completed {
        t := t.(completed := true);
      } else {
        t := t.(completed := false);
      }
      tasks := tasks[i := t];
      assert forall j :: 0 <= j < |tasks| ==> tasks[j].id == old(tasks)[j].id;
      r := Some(t);
    }

    /** `delete_task`: `None` when no row matches; otherwise that row, and only it, is removed and returned. */
    method DeleteTask(taskId: int, user: Option<int>) returns (r: Option<LegacyTask>)
      requires Valid()
      modifies this
      ensures Valid()
      ensures r.Some? <==> old(FindTask(tasks, taskId, user)).Some?
      ensures r.None? ==> tasks == old(tasks)
      ensures r.Some? ==>
                && var i := old(FindTask(tasks, taskId, user)).value;
                && r.value == old(tasks)[i] && tasks == RemoveAt(old(tasks), i)
      ensures tokens == old(tokens) && nextTokenId == old(nextTokenId)
    {
      var found := FindTask(tasks, taskId, user);
      if found.None? {
        return None;
      }
      var i := found.value;
      r := Some(tasks[i]);
      ghost var before := tasks;
      tasks := RemoveAt(tasks, i);
      forall a, b | 0 <= a < |tasks| && 0 <= b < |tasks| && tasks[a].id == tasks[b].id
        ensures a == b
      {
        var a0 := if a < i then a else a + 1;
        var b0 := if b < i then b else b + 1;
        assert tasks[a] == before[a0] && tasks[b] == before[b0];
      }
    }

    /** `cleanup_expired_tokens`: one bulk delete of the expired tokens (of the given user, if any). */
    method CleanupExpiredTokens(now: int, userId: Option<int>)
      requires Valid()
      modifies this
      ensures Valid()
      ensures tokens == Purge(old(tokens), now, userId)
      ensures tasks == old(tasks) && nextTokenId == old(nextTokenId)
    {
      tokens := Purge(tokens, now, userId);
    }

    /** `await db.delete(t)` for each token of `victims`, one at a time. */
    method DeleteTokens(victims: seq<AuthToken>)
      requires Valid()
      modifies this
      ensures Valid()
      ensures tokens == Without(old(tokens), IdsOf(victims))
      ensures tasks == old(tasks) && nextTokenId == old(nextTokenId)
    {
      ghost var start := tokens;
      WithoutNothing(start);
      assert IdsOf(victims[..0]) == {};
      for i := 0 to |victims|
        invariant tokens == Without(start, IdsOf(victims[..i]))
        invariant tasks == old(tasks) && nextTokenId == old(nextTokenId)
      {
        DeleteOneMore(start, victims, i);
        tokens := Without(tokens, {victims[i].id});
      }
      assert victims[..|victims|] == victims;
    }

    /**
     * The trim of `create_token`: with a limit of one, delete every token of
     * the user; otherwise list them newest first and delete `tokens[keep:]`.
     */
    method TrimTokens(user: int, limit: int)
      requires Valid() && limit >= 1
      modifies this
      ensures Valid()
      ensures tokens == Without(old(tokens), IdsOf(Victims(old(tokens), user, limit)))
      ensures tasks == old(tasks) && nextTokenId == old(nextTokenId)
    {
      if limit == 1 {
        var existing := UserTokens(tokens, user);
        assert existing == Victims(tokens, user, limit);
        DeleteTokens(existing);
      } else {
        var newestFirst := OrderByIdDesc(UserTokens(tokens, user));
        var keep := limit - 1;
        assert Drop(newestFirst, keep) == Victims(tokens, user, limit);
        DeleteTokens(Drop(newestFirst, keep));
      }
    }

  /**
     * `create_token`: purge the user's tokens expired at `now`, delete all of
     * the user's tokens (limit one) or those past the `limit - 1` newest, then
     * add a token with an id above every current token's, `value`, and
     * `expires_at = issuedAt + ttl`.
     */
    method CreateToken(user: int, now: int, issuedAt: int, maxTokensSetting: int, ttlMinutes: int, value: string)
      returns (token: AuthToken)
      requires Valid()
      modifies this
      ensures Valid()
      ensures token == AuthToken(old(nextTokenId), value, user, Some(issuedAt + ttlMinutes * 60))
      ensures tokens == AfterCreateToken(old(tokens), user, now, Max(1, maxTokensSetting), token)
      ensures tasks == old(tasks)
    {
      CleanupExpiredTokens(now, Some(user));
      var limit := Max(1, maxTokensSetting);
      TrimTokens(user, limit);
      token := AuthToken(nextTokenId, value, user, Some(issuedAt + ttlMinutes * 60));
      ghost var kept := tokens;
      tokens := tokens + [token];
      forall i, j | 0 <= i < |tokens| && 0 <= j < |tokens| && tokens[i].id == tokens[j].id ensures i == j {
        if i < |kept| && j < |kept| {
          assert tokens[i] == kept[i] && tokens[j] == kept[j];
        }
      }
      nextTokenId := nextTokenId + 1;
    }
  }
}
