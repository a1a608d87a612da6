/** What the store's operations promise about one another: a created user can
    be found, a deleted one cannot, every setter is read back by its getter,
    logins, claims and role memberships added are seen by the queries and
    removed again by their removers. Each lemma speaks about the tables after
    the change a repository method makes (see the method's postcondition). */
module Properties {
  import opened Entities
  import opened Tables

  // ---------------------------------------------------------------------------
  // Lookups

  /** A row appended to the table is found only when no earlier row matches. */
  lemma {:induction false} FindAfterAppend(users: seq<UserRow>, row: UserRow, key: UserKey)
    ensures Find(users + [row], key) ==
      if Find(users, key).Some? then Find(users, key)
      else if Selects(key, row) then Some(row) else None
  {
    var s := users + [row];
    if |users| > 0 && !Selects(key, users[0]) {
      assert s[1..] == users[1..] + [row];
      FindAfterAppend(users[1..], row, key);
    }
  }

  // ---------------------------------------------------------------------------
  // Create and Delete

  /** After Create, the new row is what its fresh id finds, with every stored
      field of the caller's object; every other id finds what it found before. */
  lemma CreatedUserIsFound(users: seq<UserRow>, nextId: int, row: UserRow)
    requires IdsBelow(users, nextId)
    ensures Find(users + [row.(id := nextId)], IdIs(nextId)) == Some(row.(id := nextId))
    ensures forall id :: id != nextId ==> Find(users + [row.(id := nextId)], IdIs(id)) == Find(users, IdIs(id))
  {
    FindAfterAppend(users, row.(id := nextId), IdIs(nextId));
    forall id | id != nextId
      ensures Find(users + [row.(id := nextId)], IdIs(id)) == Find(users, IdIs(id))
    {
      FindAfterAppend(users, row.(id := nextId), IdIs(id));
    }
  }

  /** After Delete, the deleted user's id finds nothing. */
  lemma DeletedUserIsGone(users: seq<UserRow>, i: nat)
    requires DistinctIds(users) && i < |users|
    ensures Find(RemoveAt(users, i), IdIs(users[i].id)) == None
  {
  }

  // ---------------------------------------------------------------------------
  // Field setters and getters

  /** A setter changes the stored user it targets by exactly its edit, and no
      other user: what each getter reads back afterwards. Update is the edit
      `CopyEmailAndLockout`, so it changes the email and the lockout flag only. */
  lemma EditThenFind(users: seq<UserRow>, id: int, e: Edit)
    requires DistinctIds(users)
    ensures DistinctIds(EditUser(users, id, e))
    ensures Find(EditUser(users, id, e), IdIs(id)) ==
      match Find(users, IdIs(id))
      case None => None
      case Some(u) => Some(Apply(u, e))
    ensures forall x :: x != id ==> Find(EditUser(users, id, e), IdIs(x)) == Find(users, IdIs(x))
  {
  }

  /** The stored row after an update holds the caller's email and lockout flag
      and the old values of every other field. */
  lemma UpdateCopiesTwoFields(users: seq<UserRow>, caller: UserRow)
    requires DistinctIds(users)
    requires Find(users, IdIs(caller.id)).Some?
    ensures
      var u := Find(users, IdIs(caller.id)).value;
      Find(EditUser(users, caller.id, CopyEmailAndLockout(caller.email, caller.lockoutEnabled)), IdIs(caller.id))
        == Some(u.(email := caller.email, lockoutEnabled := caller.lockoutEnabled))
  {
  }

  // ---------------------------------------------------------------------------
  // Access-failed counter

  /** The Users table after `n` calls of IncrementAccessFailedCount for `id`. */
  function Increments(users: seq<UserRow>, id: int, n: nat): seq<UserRow>
  {
    if n == 0 then users else EditUser(Increments(users, id, n - 1), id, IncrementAccessFailed)
  }

  /** Reset, then `n` increments (no more than the largest C# int): the stored
      counter reads `n`, and the rest of the row is as before. */
  lemma {:induction false} CountAfterIncrements(users: seq<UserRow>, id: int, n: nat)
    requires DistinctIds(users)
    requires Find(users, IdIs(id)).Some?
    requires n <= Int32Max as int
    ensures DistinctIds(Increments(EditUser(users, id, ResetAccessFailed), id, n))
    ensures Find(Increments(EditUser(users, id, ResetAccessFailed), id, n), IdIs(id))
         == Some(Find(users, IdIs(id)).value.(accessFailedCount := n as int32))
  {
    var start := EditUser(users, id, ResetAccessFailed);
    EditThenFind(users, id, ResetAccessFailed);
    if n > 0 {
      CountAfterIncrements(users, id, n - 1);
      EditThenFind(Increments(start, id, n - 1), id, IncrementAccessFailed);
    }
  }

  /** One more failure at the largest C# int wraps the counter to the smallest. */
  lemma IncrementWrapsAtMax(users: seq<UserRow>, id: int)
    requires DistinctIds(users)
    requires Find(users, IdIs(id)).Some? && Find(users, IdIs(id)).value.accessFailedCount == Int32Max
    ensures Find(EditUser(users, id, IncrementAccessFailed), IdIs(id)).value.accessFailedCount == Int32Min
  {
  }

  // ---------------------------------------------------------------------------
  // Logins

  /** Removing the first occurrence of what was just appended gives back the
      same rows (as a multiset: an earlier equal row may be the one removed). */
  lemma RemoveAfterAppend<T>(s: seq<T>, x: T)
    ensures multiset(RemoveFirst(s + [x], x)) == multiset(s)
  {
  }

  /** A login added for a stored user, with a provider and key nobody holds
      yet, makes FindAsync return that user. */
  lemma AddLoginThenFind(users: seq<UserRow>, logins: seq<LoginRow>, p: int32, k: string, uid: int)
    requires Find(users, IdIs(uid)).Some?
    requires LoginOwners(logins, p, k) == {}
    ensures Find(users, IdAmong(LoginOwners(logins + [LoginRow(p, k, uid)], p, k))) == Find(users, IdIs(uid))
  {
  }

  /** Removing the only row of a provider and key makes FindAsync find nobody. */
  lemma RemoveLoginThenFind(users: seq<UserRow>, logins: seq<LoginRow>, p: int32, k: string, uid: int)
    requires LoginOwners(logins, p, k) == {uid}
    requires multiset(logins)[LoginRow(p, k, uid)] == 1
    ensures Find(users, IdAmong(LoginOwners(RemoveFirst(logins, LoginRow(p, k, uid)), p, k))) == None
  {
  }

  /** GetLoginsAsync after AddLoginAsync: the user's logins gain the new one
      (last, in the model's table order), and every other user's are unchanged. */
  lemma AddLoginThenGetLogins(logins: seq<LoginRow>, p: int32, k: string, uid: int, other: int)
    requires other != uid
    ensures multiset(LoginsOf(logins + [LoginRow(p, k, uid)], uid))
         == multiset(LoginsOf(logins, uid)) + multiset{LoginInfo(Numeric(p), k)}
    ensures LoginsOf(logins + [LoginRow(p, k, uid)], uid) == LoginsOf(logins, uid) + [LoginInfo(Numeric(p), k)]
    ensures LoginsOf(logins + [LoginRow(p, k, uid)], other) == LoginsOf(logins, other)
  {
  }

  // ---------------------------------------------------------------------------
  // Claims

  /** GetClaimsAsync after AddClaimAsync: one more claim comes back (last, in
      the model's table order), carrying the added claim's value type as its
      value and the plain string value type. */
  lemma AddClaimThenGetClaims(claims: seq<ClaimRow>, uid: int, c: Claim)
    ensures multiset(ClaimsOf(claims + [ClaimRow(uid, c.claimType, c.valueType)], uid))
         == multiset(ClaimsOf(claims, uid)) + multiset{Claim(c.claimType, c.valueType, XmlSchemaString)}
    ensures ClaimsOf(claims + [ClaimRow(uid, c.claimType, c.valueType)], uid)
         == ClaimsOf(claims, uid) + [Claim(c.claimType, c.valueType, XmlSchemaString)]
  {
  }

  /** RemoveClaimAsync removes one row only: with two equal rows, one stays. */
  lemma RemoveClaimLeavesDuplicate(claims: seq<ClaimRow>, row: ClaimRow)
    requires multiset(claims)[row] >= 2
    ensures row in RemoveFirst(claims, row)
    ensures |RemoveFirst(claims, row)| == |claims| - 1
  {
    assert row in claims;
    var after := RemoveFirst(claims, row);
    assert multiset(after)[row] >= 1;
    assert |multiset(after)| == |multiset(claims)| - 1;
  }

  /** A claim read back by GetClaimsAsync cannot be removed by RemoveClaimAsync
      when the added claim's value type was not the plain string type and the
      user has no row stored under that type: the row RemoveClaimAsync looks for
      has the plain string type as its value. */
  lemma ReadBackClaimIsNotRemovable(claims: seq<ClaimRow>, uid: int, c: Claim)
    requires c.valueType != XmlSchemaString
    requires ClaimRow(uid, c.claimType, XmlSchemaString) !in claims
    ensures
      var after := claims + [ClaimRow(uid, c.claimType, c.valueType)];
      var readBack := ClaimsOf(after, uid)[|ClaimsOf(after, uid)| - 1];
      ClaimRow(uid, readBack.claimType, readBack.valueType) !in after
  {
  }

  // ---------------------------------------------------------------------------
  // Roles

  /** IsInRoleAsync after AddToRoleAsync: the user is in the role. */
  lemma AddToRoleThenIsInRole(memberships: seq<Membership>, uid: int, roleName: string)
    ensures
      var m := Membership(roleName, uid);
      roleName in RolesOf(if m in memberships then memberships else memberships + [m], uid)
  {
  }

  /** After RemoveFromRoleAsync the user is in no role of that name, still in
      every other role, and other users' memberships are untouched. */
  lemma RemoveFromRoleThenIsInRole(memberships: seq<Membership>, uid: int, roleName: string, other: int)
    requires other != uid
    ensures roleName !in RolesOf(WithoutRole(memberships, uid, roleName), uid)
    ensures forall n :: n != roleName ==>
      (n in RolesOf(WithoutRole(memberships, uid, roleName), uid) <==> n in RolesOf(memberships, uid))
    ensures forall n :: n in RolesOf(WithoutRole(memberships, uid, roleName), other) <==> n in RolesOf(memberships, other)
  {
  }
}
