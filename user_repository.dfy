/** The user repository: the ASP.NET Identity user store over an in-memory
    picture of its database context. Every save is an immediate commit, so the
    fields below are the committed tables. */
module Repositories {
  import opened Entities
  import opened Tables

  /** Everything the repository holds, as one value. */
  datatype Db = Db(
    users: seq<UserRow>,
    logins: seq<LoginRow>,
    claims: seq<ClaimRow>,
    roles: seq<string>,
    memberships: seq<Membership>,
    nextId: int,
    disposed: bool)

  class UserRepository {
    /** context.Users */
    var users: seq<UserRow>
    /** context.UserLogins */
    var logins: seq<LoginRow>
    /** context.UserClaims */
    var claims: seq<ClaimRow>
    /** The names in context.Roles; the store reads them but never changes them. */
    var roles: seq<string>
    /** The user-role join table behind `role.Users` and `user.Roles`. */
    var memberships: seq<Membership>
    /** The value the Users table's identity column hands out next. */
    var nextId: int
    /** Dispose has run: the context is gone, and the field holding it is null. */
    var disposed: bool

    ghost function State(): Db
      reads this
    {
      Db(users, logins, claims, roles, memberships, nextId, disposed)
    }

    /** The database's own constraints: positive, distinct, identity-assigned user
        ids, and no membership recorded twice. */
    ghost predicate Valid()
      reads this
    {
      && nextId > 0
      && IdsBelow(users, nextId)
      && DistinctIds(users)
      && NoDuplicates(memberships)
    }

    /** A repository over a context holding these tables, whose identity column
        hands out `nextId` next. The identity never steps back, so `nextId` is
        above every stored id but need not follow the largest one. */
    constructor (users: seq<UserRow>, logins: seq<LoginRow>, claims: seq<ClaimRow>,
                 roles: seq<string>, memberships: seq<Membership>, nextId: int)
      requires forall i :: 0 <= i < |users| ==> users[i].id > 0
      requires DistinctIds(users)
      requires NoDuplicates(memberships)
      requires nextId > MaxId(users)
      ensures Valid()
      ensures State() == Db(users, logins, claims, roles, memberships, nextId, false)
    {
      this.users := users;
      this.logins := logins;
      this.claims := claims;
      this.roles := roles;
      this.memberships := memberships;
      this.nextId := nextId;
      this.disposed := false;
    }

    // -------------------------------------------------------------------------
    // IUserStore

    /** CreateAsync: a user whose id is still 0 is inserted and receives the next
        identity value, written back to the caller's object; any other user is
        ignored. */
    method Create(user: User?) returns (s: Status)
      requires Valid()
      modifies this, user
      ensures Valid()
      ensures user == null ==> s == Faulted(NullReferenceException) && State() == old(State())
      ensures user != null && old(user.id) != 0 ==>
        s == Completed && State() == old(State()) && user.Row() == old(user.Row())
      ensures user != null && old(user.id) == 0 && old(disposed) ==>
        s == Faulted(NullReferenceException) && State() == old(State()) && user.Row() == old(user.Row())
      ensures user != null && old(user.id) == 0 && !old(disposed) ==>
        && s == Completed
        && user.Row() == old(user.Row()).(id := old(nextId))
        && State() == old(State()).(users := old(users) + [user.Row()], nextId := old(nextId) + 1)
    {
      if user == null {
        return Faulted(NullReferenceException);
      }
      if user.id == 0 {
        if disposed {
          return Faulted(NullReferenceException);
        }
        user.id := nextId;
        users := users + [user.Row()];
        nextId := nextId + 1;
      }
      return Completed;
    }

    /** DeleteAsync: removes the stored row with the user's id; removing an
        entity the context does not hold is an invalid operation. */
    method Delete(user: User?) returns (s: Status)
      requires Valid()
      modifies this
      ensures Valid()
      ensures old(disposed) ==> s == Faulted(NullReferenceException) && State() == old(State())
      ensures !old(disposed) && user == null ==>
        s == Faulted(ArgumentNullException("entity")) && State() == old(State())
      ensures !old(disposed) && user != null ==>
        match IndexWhere(old(users), IdIs(user.id))
        case None => s == Faulted(InvalidOperationException) && State() == old(State())
        case Some(i) => s == Completed && State() == old(State()).(users := RemoveAt(old(users), i))
    {
      if disposed {
        return Faulted(NullReferenceException);
      }
      if user == null {
        return Faulted(ArgumentNullException("entity"));
      }
      match IndexWhere(users, IdIs(user.id)) {
        case None =>
          return Faulted(InvalidOperationException);
        case Some(i) =>
          users := users[..i] + users[i + 1..];
          return Completed;
      }
    }

    /** FindByIdAsync: the first stored user with this id, or none. */
    method FindById(userId: int) returns (r: Result<Option<UserRow>>)
      ensures disposed ==> r == Err(NullReferenceException)
      ensures !disposed ==> r == Ok(Find(users, IdIs(userId)))
    {
      if disposed {
        return Err(NullReferenceException);
      }
      return Ok(Find(users, IdIs(userId)));
    }

    /** FindByNameAsync: the first stored user with this email, or none. */
    method FindByName(email: Option<string>) returns (r: Result<Option<UserRow>>)
      ensures disposed ==> r == Err(NullReferenceException)
      ensures !disposed ==> r == Ok(Find(users, EmailIs(email)))
    {
      if disposed {
        return Err(NullReferenceException);
      }
      return Ok(Find(users, EmailIs(email)));
    }

    /** UpdateAsync: copies the email and the lockout flag of the caller's object
        onto the stored row with its id, and nothing else; no-op when there is
        no such row. */
    method Update(user: User?) returns (s: Status)
      requires Valid()
      modifies this
      ensures Valid()
      ensures old(disposed) || user == null ==>
        s == Faulted(NullReferenceException) && State() == old(State())
      ensures !old(disposed) && user != null ==>
        && s == Completed
        && State() == old(State()).(users :=
             EditUser(old(users), user.id, CopyEmailAndLockout(user.email, user.lockoutEnabled)))
    {
      if disposed || user == null {
        return Faulted(NullReferenceException);
      }
      match IndexWhere(users, IdIs(user.id)) {
        case None =>
        case Some(i) =>
          users := users[i := users[i].(email := user.email, lockoutEnabled := user.lockoutEnabled)];
      }
      return Completed;
    }

    /** The shape of every single-field setter: find the stored row by id and
        change it with `e`, or change nothing when the row is absent. */
    method EditStored(id: int, e: Edit)
      requires Valid()
      modifies this
      ensures Valid()
      ensures State() == old(State()).(users := EditUser(old(users), id, e))
    {
      match IndexWhere(users, IdIs(id)) {
        case None =>
        case Some(i) =>
          users := users[i := Apply(users[i], e)];
      }
    }

    // -------------------------------------------------------------------------
    // IUserLoginStore

    /** AddLoginAsync: appends one login row for the user, with no check for an
        existing row with the same provider and key. */
    method AddLogin(user: User?, loginInfo: Option<LoginInfo>) returns (s: Status)
      requires Valid()
      modifies this
      ensures Valid()
      ensures user == null || loginInfo.None? ==>
        s == Faulted(ArgumentNullException("User of LoginInfo does not exists"))
        && State() == old(State())
      ensures user != null && loginInfo.Some? && loginInfo.value.loginProvider.Malformed? ==>
        s == Faulted(FormatException) && State() == old(State())
      ensures user != null && loginInfo.Some? && loginInfo.value.loginProvider.Numeric? && old(disposed) ==>
        s == Faulted(NullReferenceException) && State() == old(State())
      ensures user != null && loginInfo.Some? && loginInfo.value.loginProvider.Numeric? && !old(disposed) ==>
        && s == Completed
        && State() == old(State()).(logins := old(logins) +
             [LoginRow(loginInfo.value.loginProvider.number, loginInfo.value.providerKey, user.id)])
    {
      if user == null || loginInfo.None? {
        return Faulted(ArgumentNullException("User of LoginInfo does not exists"));
      }
      var info := loginInfo.value;
      if info.loginProvider.Malformed? {
        return Faulted(FormatException);
      }
      if disposed {
        return Faulted(NullReferenceException);
      }
      logins := logins + [LoginRow(info.loginProvider.number, info.providerKey, user.id)];
      return Completed;
    }

    /** FindAsync: the first stored user that some login row with this provider
        and key points to, or none. */
    method FindByLogin(login: Option<LoginInfo>) returns (r: Result<Option<UserRow>>)
      ensures disposed || login.None? ==> r == Err(NullReferenceException)
      ensures !disposed && login.Some? && login.value.loginProvider.Malformed? ==> r == Err(FormatException)
      ensures !disposed && login.Some? && login.value.loginProvider.Numeric? ==>
        r == Ok(Find(users, IdAmong(LoginOwners(logins, login.value.loginProvider.number, login.value.providerKey))))
    {
      if disposed || login.None? {
        return Err(NullReferenceException);
      }
      if login.value.loginProvider.Malformed? {
        return Err(FormatException);
      }
      var owners := LoginOwners(logins, login.value.loginProvider.number, login.value.providerKey);
      return Ok(Find(users, IdAmong(owners)));
    }

    /** GetLoginsAsync: every login row of the user, in table order, as the
        provider and key the identity framework sees. */
    method GetLogins(user: User?) returns (r: Result<seq<LoginInfo>>)
      ensures user == null ==> r == Err(ArgumentException("User"))
      ensures user != null && disposed ==> r == Err(NullReferenceException)
      ensures user != null && !disposed ==> r == Ok(LoginsOf(logins, user.id))
    {
      if user == null {
        return Err(ArgumentException("User"));
      }
      if disposed {
        return Err(NullReferenceException);
      }
      var result: seq<LoginInfo> := [];
      var i := 0;
      while i < |logins|
        invariant 0 <= i <= |logins|
        invariant result == LoginsOf(logins[..i], user.id)
      {
        var row := logins[i];
        if row.userId == user.id {
          result := result + [LoginInfo(Numeric(row.loginProvider), row.providerKey)];
        }
        assert logins[..i + 1][..i] == logins[..i];
        i := i + 1;
      }
      assert logins[..i] == logins;
      return Ok(result);
    }

    /** RemoveLoginAsync: deletes the first login row with this provider, key and
        user, if there is one. */
    method RemoveLogin(user: User?, loginInfo: Option<LoginInfo>) returns (s: Status)
      requires Valid()
      modifies this
      ensures Valid()
      ensures old(disposed) || loginInfo.None? ==>
        s == Faulted(NullReferenceException) && State() == old(State())
      ensures !old(disposed) && loginInfo.Some? && loginInfo.value.loginProvider.Malformed? ==>
        s == Faulted(FormatException) && State() == old(State())
      ensures !old(disposed) && loginInfo.Some? && loginInfo.value.loginProvider.Numeric? && user == null ==>
        s == Faulted(NullReferenceException) && State() == old(State())
      ensures !old(disposed) && loginInfo.Some? && loginInfo.value.loginProvider.Numeric? && user != null ==>
        && s == Completed
        && State() == old(State()).(logins := RemoveFirst(old(logins),
             LoginRow(loginInfo.value.loginProvider.number, loginInfo.value.providerKey, user.id)))
    {
      if disposed || loginInfo.None? {
        return Faulted(NullReferenceException);
      }
      var info := loginInfo.value;
      if info.loginProvider.Malformed? {
        return Faulted(FormatException);
      }
      if user == null {
        return Faulted(NullReferenceException);
      }
      match IndexOf(logins, LoginRow(info.loginProvider.number, info.providerKey, user.id)) {
        case None =>
        case Some(i) =>
          logins := logins[..i] + logins[i + 1..];
      }
      return Completed;
    }

    // -------------------------------------------------------------------------
    // IUserClaimStore

    /** AddClaimAsync: appends one claim row holding the claim's type and, as its
        value, the claim's value type. */
    method AddClaim(user: User?, claim: Option<Claim>) returns (s: Status)
      requires Valid()
      modifies this
      ensures Valid()
      ensures user == null || claim.None? || old(disposed) ==>
        s == Faulted(NullReferenceException) && State() == old(State())
      ensures user != null && claim.Some? && !old(disposed) ==>
        && s == Completed
        && State() == old(State()).(claims := old(claims) +
             [ClaimRow(user.id, claim.value.claimType, claim.value.valueType)])
    {
      if user == null || claim.None? || disposed {
        return Faulted(NullReferenceException);
      }
      claims := claims + [ClaimRow(user.id, claim.value.claimType, claim.value.valueType)];
      return Completed;
    }

    /** GetClaimsAsync: the user's claim rows, in table order, each rebuilt as a
        claim of that type and stored value. */
    method GetClaims(user: User?) returns (r: Result<seq<Claim>>)
      ensures user == null ==> r == Err(ArgumentException("User"))
      ensures user != null && disposed ==> r == Err(NullReferenceException)
      ensures user != null && !disposed ==> r == Ok(ClaimsOf(claims, user.id))
    {
      if user == null {
        return Err(ArgumentException("User"));
      }
      if disposed {
        return Err(NullReferenceException);
      }
      var result: seq<Claim> := [];
      var i := 0;
      while i < |claims|
        invariant 0 <= i <= |claims|
        invariant result == ClaimsOf(claims[..i], user.id)
      {
        var row := claims[i];
        if row.userId == user.id {
          result := result + [Claim(row.claimType, row.claimValue, XmlSchemaString)];
        }
        assert claims[..i + 1][..i] == claims[..i];
        i := i + 1;
      }
      assert claims[..i] == claims;
      return Ok(result);
    }

    /** RemoveClaimAsync: deletes the first claim row with this user, type and
        value type; fails when there is none. */
    method RemoveClaim(user: User?, claim: Option<Claim>) returns (s: Status)
      requires Valid()
      modifies this
      ensures Valid()
      ensures old(disposed) || user == null || claim.None? ==>
        s == Faulted(NullReferenceException) && State() == old(State())
      ensures !old(disposed) && user != null && claim.Some? ==>
        var row := ClaimRow(user.id, claim.value.claimType, claim.value.valueType);
        if row in old(claims) then
          s == Completed && State() == old(State()).(claims := RemoveFirst(old(claims), row))
        else
          s == Faulted(GeneralException("Cannot find requested claim")) && State() == old(State())
    {
      if disposed || user == null || claim.None? {
        return Faulted(NullReferenceException);
      }
      var row := ClaimRow(user.id, claim.value.claimType, claim.value.valueType);
      match IndexOf(claims, row) {
        case None =>
          return Faulted(GeneralException("Cannot find requested claim"));
        case Some(i) =>
          claims := claims[..i] + claims[i + 1..];
          return Completed;
      }
    }

    // -------------------------------------------------------------------------
    // IUserPasswordStore and IUserSecurityStampStore

    /** GetPasswordHashAsync: the stored row's password, or none when the row is
        absent or its password is null or empty. */
    method GetPasswordHash(user: User?) returns (r: Result<Option<string>>)
      ensures disposed || user == null ==> r == Err(NullReferenceException)
      ensures !disposed && user != null ==>
        var found := Find(users, IdIs(user.id));
        && r.Ok?
        && (r.value.Some? <==> found.Some? && !IsNullOrEmpty(found.value.password))
        && (r.value.Some? ==> r.value == found.value.password)
    {
      if disposed || user == null {
        return Err(NullReferenceException);
      }
      match Find(users, IdIs(user.id)) {
        case Some(u) =>
          if !IsNullOrEmpty(u.password) {
            return Ok(u.password);
          }
        case None =>
      }
      return Ok(None);
    }

    /** HasPasswordAsync: whether the caller's object (not the store) holds a
        non-empty password. */
    method HasPassword(user: User?) returns (r: Result<bool>)
      ensures user == null ==> r == Err(NullReferenceException)
      ensures user != null ==> r == Ok(user.password.Some? && user.password.value != "")
    {
      if user == null {
        return Err(NullReferenceException);
      }
      return Ok(!IsNullOrEmpty(user.password));
    }

    /** SetPasswordHashAsync: writes the password to the caller's object only;
        the store is outside the frame and so stays as it is. */
    method SetPasswordHash(user: User?, passwordHash: Option<string>) returns (s: Status)
      modifies user
      ensures user == null ==> s == Faulted(ArgumentException("user"))
      ensures user != null ==> s == Completed && user.Row() == old(user.Row()).(password := passwordHash)
    {
      if user == null {
        return Faulted(ArgumentException("user"));
      }
      user.password := passwordHash;
      return Completed;
    }

    /** GetSecurityStampAsync: the caller's object's stamp. */
    method GetSecurityStamp(user: User?) returns (r: Result<Option<string>>)
      ensures user == null ==> r == Err(NullReferenceException)
      ensures user != null ==> r == Ok(user.securityStamp)
    {
      if user == null {
        return Err(NullReferenceException);
      }
      return Ok(user.securityStamp);
    }

    /** SetSecurityStampAsync: writes the stamp to the caller's object only. */
    method SetSecurityStamp(user: User?, stamp: Option<string>) returns (s: Status)
      modifies user
      ensures user == null ==> s == Faulted(NullReferenceException)
      ensures user != null ==> s == Completed && user.Row() == old(user.Row()).(securityStamp := stamp)
    {
      if user == null {
        return Faulted(NullReferenceException);
      }
      user.securityStamp := stamp;
      return Completed;
    }

    // -------------------------------------------------------------------------
    // IUserRoleStore

    /** AddToRoleAsync: records the membership when both the named role and the
        stored user exist (a membership already recorded stays single), and
        fails otherwise. */
    method AddToRole(user: User?, roleName: string) returns (s: Status)
      requires Valid()
      modifies this
      ensures Valid()
      ensures old(disposed) || user == null ==>
        s == Faulted(NullReferenceException) && State() == old(State())
      ensures !old(disposed) && user != null && (roleName !in old(roles) || Find(old(users), IdIs(user.id)).None?) ==>
        s == Faulted(GeneralException("Cannot find user of role")) && State() == old(State())
      ensures !old(disposed) && user != null && roleName in old(roles) && Find(old(users), IdIs(user.id)).Some? ==>
        && s == Completed
        && State() == old(State()).(memberships :=
             if Membership(roleName, user.id) in old(memberships) then old(memberships)
             else old(memberships) + [Membership(roleName, user.id)])
    {
      if disposed || user == null {
        return Faulted(NullReferenceException);
      }
      if roleName !in roles || Find(users, IdIs(user.id)).None? {
        return Faulted(GeneralException("Cannot find user of role"));
      }
      var m := Membership(roleName, user.id);
      if m !in memberships {
        AppendFresh(memberships, m);
        memberships := memberships + [m];
      }
      return Completed;
    }

    /** GetRolesAsync: the names of the stored user's roles, or an empty list
        when the user is not stored. */
    method GetRoles(user: User?) returns (r: Result<seq<string>>)
      ensures disposed || user == null ==> r == Err(NullReferenceException)
      ensures !disposed && user != null ==>
        r == Ok(if Find(users, IdIs(user.id)).Some? then RolesOf(memberships, user.id) else [])
    {
      if disposed || user == null {
        return Err(NullReferenceException);
      }
      var names: seq<string> := [];
      if Find(users, IdIs(user.id)).Some? {
        var i := 0;
        while i < |memberships|
          invariant 0 <= i <= |memberships|
          invariant names == RolesOf(memberships[..i], user.id)
        {
          var m := memberships[i];
          if m.userId == user.id {
            names := names + [m.roleName];
          }
          assert memberships[..i + 1][..i] == memberships[..i];
          i := i + 1;
        }
        assert memberships[..i] == memberships;
      }
      return Ok(names);
    }

    /** IsInRoleAsync: whether the user is stored and one of its roles is named
        exactly `roleName` (ordinal, case-sensitive comparison). */
    method IsInRole(user: User?, roleName: string) returns (r: Result<bool>)
      ensures disposed || user == null ==> r == Err(NullReferenceException)
      ensures !disposed && user != null ==>
        r == Ok(Find(users, IdIs(user.id)).Some? && roleName in RolesOf(memberships, user.id))
    {
      if disposed || user == null {
        return Err(NullReferenceException);
      }
      if Find(users, IdIs(user.id)).Some? {
        var i := 0;
        while i < |memberships|
          invariant 0 <= i <= |memberships|
          invariant Membership(roleName, user.id) !in memberships[..i]
        {
          var m := memberships[i];
          if m.userId == user.id && m.roleName == roleName {
            return Ok(true);
          }
          assert memberships[..i + 1] == memberships[..i] + [m];
          i := i + 1;
        }
        assert memberships[..i] == memberships;
      }
      return Ok(false);
    }

    /** RemoveFromRoleAsync: the stored user is no longer a member of any role
        with this name; no-op when the user is not stored. */
    method RemoveFromRole(user: User?, roleName: string) returns (s: Status)
      requires Valid()
      modifies this
      ensures Valid()
      ensures old(disposed) || user == null ==>
        s == Faulted(NullReferenceException) && State() == old(State())
      ensures !old(disposed) && user != null && Find(old(users), IdIs(user.id)).None? ==>
        s == Completed && State() == old(State())
      ensures !old(disposed) && user != null && Find(old(users), IdIs(user.id)).Some? ==>
        && s == Completed
        && State() == old(State()).(memberships := WithoutRole(old(memberships), user.id, roleName))
    {
      if disposed || user == null {
        return Faulted(NullReferenceException);
      }
      if Find(users, IdIs(user.id)).Some? {
        var kept: seq<Membership> := [];
        var i := 0;
        while i < |memberships|
          invariant 0 <= i <= |memberships|
          invariant kept == WithoutRole(memberships[..i], user.id, roleName)
        {
          var m := memberships[i];
          if m != Membership(roleName, user.id) {
            kept := kept + [m];
          }
          assert memberships[..i + 1][..i] == memberships[..i];
          i := i + 1;
        }
        assert memberships[..i] == memberships;
        memberships := kept;
      }
      return Completed;
    }

    // -------------------------------------------------------------------------
    // IUserLockoutStore

    /** GetLockoutEndDateAsync: the stored lockout end, or the default instant
        when the user is absent or has none. */
    method GetLockoutEndDate(user: User?) returns (r: Result<Instant>)
      ensures disposed || user == null ==> r == Err(NullReferenceException)
      ensures !disposed && user != null ==>
        var found := Find(users, IdIs(user.id));
        r == Ok(if found.Some? && found.value.lockoutEndDateUtc.Some?
                then found.value.lockoutEndDateUtc.value else DefaultInstant)
    {
      if disposed || user == null {
        return Err(NullReferenceException);
      }
      match Find(users, IdIs(user.id)) {
        case Some(u) =>
          if u.lockoutEndDateUtc.Some? {
            return Ok(u.lockoutEndDateUtc.value);
          }
        case None =>
      }
      return Ok(DefaultInstant);
    }

    /** SetLockoutEndDateAsync: stores the date part of `lockoutEnd`; no-op when
        the user is absent. */
    method SetLockoutEndDate(user: User?, lockoutEnd: Instant) returns (s: Status)
      requires Valid()
      modifies this
      ensures Valid()
      ensures old(disposed) || user == null ==>
        s == Faulted(NullReferenceException) && State() == old(State())
      ensures !old(disposed) && user != null ==>
        s == Completed && State() == old(State()).(users := EditUser(old(users), user.id, Edit.SetLockoutEndDate(lockoutEnd)))
    {
      if disposed || user == null {
        return Faulted(NullReferenceException);
      }
      EditStored(user.id, Edit.SetLockoutEndDate(lockoutEnd));
      return Completed;
    }

    /** IncrementAccessFailedCountAsync: raises the stored counter by one (with
        C# int wrap-around) and returns the new value; an absent user ends in the
        null dereference of the final read. */
    method IncrementAccessFailedCount(user: User?) returns (r: Result<int32>)
      requires Valid()
      modifies this
      ensures Valid()
      ensures old(disposed) || user == null ==>
        r == Err(NullReferenceException) && State() == old(State())
      ensures !old(disposed) && user != null ==>
        match Find(old(users), IdIs(user.id))
        case None => r == Err(NullReferenceException) && State() == old(State())
        case Some(u) =>
          && r == Ok(WrappingIncrement(u.accessFailedCount))
          && State() == old(State()).(users := EditUser(old(users), user.id, IncrementAccessFailed))
    {
      if disposed || user == null {
        return Err(NullReferenceException);
      }
      match IndexWhere(users, IdIs(user.id)) {
        case None =>
          return Err(NullReferenceException);
        case Some(i) =>
          var count := WrappingIncrement(users[i].accessFailedCount);
          users := users[i := users[i].(accessFailedCount := count)];
          return Ok(count);
      }
    }

    /** ResetAccessFailedCountAsync: sets the stored counter to 0; no-op when the
        user is absent. */
    method ResetAccessFailedCount(user: User?) returns (s: Status)
      requires Valid()
      modifies this
      ensures Valid()
      ensures old(disposed) || user == null ==>
        s == Faulted(NullReferenceException) && State() == old(State())
      ensures !old(disposed) && user != null ==>
        s == Completed && State() == old(State()).(users := EditUser(old(users), user.id, ResetAccessFailed))
    {
      if disposed || user == null {
        return Faulted(NullReferenceException);
      }
      EditStored(user.id, ResetAccessFailed);
      return Completed;
    }

    /** GetAccessFailedCountAsync: the stored counter, or 0 for an absent user. */
    method GetAccessFailedCount(user: User?) returns (r: Result<int32>)
      ensures disposed || user == null ==> r == Err(NullReferenceException)
      ensures !disposed && user != null ==>
        var found := Find(users, IdIs(user.id));
        r == Ok(if found.Some? then found.value.accessFailedCount else 0)
    {
      if disposed || user == null {
        return Err(NullReferenceException);
      }
      match Find(users, IdIs(user.id)) {
        case Some(u) => return Ok(u.accessFailedCount);
        case None => return Ok(0);
      }
    }

    /** GetLockoutEnabledAsync: the stored flag, or true for an absent user. */
    method GetLockoutEnabled(user: User?) returns (r: Result<bool>)
      ensures disposed || user == null ==> r == Err(NullReferenceException)
      ensures !disposed && user != null ==>
        var found := Find(users, IdIs(user.id));
        r == Ok(found.None? || found.value.lockoutEnabled)
    {
      if disposed || user == null {
        return Err(NullReferenceException);
      }
      match Find(users, IdIs(user.id)) {
        case Some(u) => return Ok(u.lockoutEnabled);
        case None => return Ok(true);
      }
    }

    /** SetLockoutEnabledAsync: stores the flag; no-op when the user is absent. */
    method SetLockoutEnabled(user: User?, enabled: bool) returns (s: Status)
      requires Valid()
      modifies this
      ensures Valid()
      ensures old(disposed) || user == null ==>
        s == Faulted(NullReferenceException) && State() == old(State())
      ensures !old(disposed) && user != null ==>
        s == Completed && State() == old(State()).(users := EditUser(old(users), user.id, Edit.SetLockoutEnabled(enabled)))
    {
      if disposed || user == null {
        return Faulted(NullReferenceException);
      }
      EditStored(user.id, Edit.SetLockoutEnabled(enabled));
      return Completed;
    }

    /** Dispose: lets go of the context, once. */
    method Dispose()
      modifies this
      ensures State() == old(State()).(disposed := true)
    {
      if !disposed {
        disposed := true;
      }
    }

    // -------------------------------------------------------------------------
    // IUserTwoFactorStore

    /** SetTwoFactorEnabledAsync: stores the flag; no-op when the user is absent. */
    method SetTwoFactorEnabled(user: User?, enabled: bool) returns (s: Status)
      requires Valid()
      modifies this
      ensures Valid()
      ensures old(disposed) || user == null ==>
        s == Faulted(NullReferenceException) && State() == old(State())
      ensures !old(disposed) && user != null ==>
        s == Completed && State() == old(State()).(users := EditUser(old(users), user.id, Edit.SetTwoFactorEnabled(enabled)))
    {
      if disposed || user == null {
        return Faulted(NullReferenceException);
      }
      EditStored(user.id, Edit.SetTwoFactorEnabled(enabled));
      return Completed;
    }

    /** GetTwoFactorEnabledAsync: the stored flag; an absent user is an error. */
    method GetTwoFactorEnabled(user: User?) returns (r: Result<bool>)
      ensures disposed || user == null ==> r == Err(NullReferenceException)
      ensures !disposed && user != null ==>
        var found := Find(users, IdIs(user.id));
        r == if found.Some? then Ok(found.value.twoFactorEnabled)
             else Err(ArgumentException("User does not exists."))
    {
      if disposed || user == null {
        return Err(NullReferenceException);
      }
      match Find(users, IdIs(user.id)) {
        case Some(u) => return Ok(u.twoFactorEnabled);
        case None => return Err(ArgumentException("User does not exists."));
      }
    }

    // -------------------------------------------------------------------------
    // IUserPhoneNumberStore

    /** SetPhoneNumberAsync: stores the number; no-op when the user is absent. */
    method SetPhoneNumber(user: User?, phoneNumber: Option<string>) returns (s: Status)
      requires Valid()
      modifies this
      ensures Valid()
      ensures old(disposed) || user == null ==>
        s == Faulted(NullReferenceException) && State() == old(State())
      ensures !old(disposed) && user != null ==>
        s == Completed && State() == old(State()).(users := EditUser(old(users), user.id, Edit.SetPhoneNumber(phoneNumber)))
    {
      if disposed || user == null {
        return Faulted(NullReferenceException);
      }
      EditStored(user.id, Edit.SetPhoneNumber(phoneNumber));
      return Completed;
    }

    /** GetPhoneNumberAsync: the stored number; an absent user is an error. */
    method GetPhoneNumber(user: User?) returns (r: Result<Option<string>>)
      ensures disposed || user == null ==> r == Err(NullReferenceException)
      ensures !disposed && user != null ==>
        var found := Find(users, IdIs(user.id));
        r == if found.Some? then Ok(found.value.phoneNumber)
             else Err(ArgumentException("User does not exists."))
    {
      if disposed || user == null {
        return Err(NullReferenceException);
      }
      match Find(users, IdIs(user.id)) {
        case Some(u) => return Ok(u.phoneNumber);
        case None => return Err(ArgumentException("User does not exists."));
      }
    }

    /** GetPhoneNumberConfirmedAsync: the stored flag; an absent user is an error. */
    method GetPhoneNumberConfirmed(user: User?) returns (r: Result<bool>)
      ensures disposed || user == null ==> r == Err(NullReferenceException)
      ensures !disposed && user != null ==>
        var found := Find(users, IdIs(user.id));
        r == if found.Some? then Ok(found.value.phoneNumberConfirmed)
             else Err(ArgumentException("User does not exists."))
    {
      if disposed || user == null {
        return Err(NullReferenceException);
      }
      match Find(users, IdIs(user.id)) {
        case Some(u) => return Ok(u.phoneNumberConfirmed);
        case None => return Err(ArgumentException("User does not exists."));
      }
    }

    /** SetPhoneNumberConfirmedAsync: stores the flag; no-op when the user is absent. */
    method SetPhoneNumberConfirmed(user: User?, confirmed: bool) returns (s: Status)
      requires Valid()
      modifies this
      ensures Valid()
      ensures old(disposed) || user == null ==>
        s == Faulted(NullReferenceException) && State() == old(State())
      ensures !old(disposed) && user != null ==>
        s == Completed && State() == old(State()).(users := EditUser(old(users), user.id, Edit.SetPhoneNumberConfirmed(confirmed)))
    {
      if disposed || user == null {
        return Faulted(NullReferenceException);
      }
      EditStored(user.id, Edit.SetPhoneNumberConfirmed(confirmed));
      return Completed;
    }
  }
}
