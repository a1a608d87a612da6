/** The tables of the store as plain sequences, and the queries and row edits
    the repository performs on them: first-match lookups, per-user filters,
    single-row removal and the field edits of the user setters. */
module Tables {
  import opened Entities

  // ---------------------------------------------------------------------------
  // Users: lookups

  /** What a query on the Users table selects a row by. */
  datatype UserKey =
    | IdIs(id: int)                    // u => u.Id == id
    | EmailIs(email: Option<string>)   // u => u.Email == email
    | IdAmong(ids: set<int>)           // the users a join with UserLogins keeps

  predicate Selects(key: UserKey, u: UserRow)
  {
    match key
    case IdIs(id) => u.id == id
    case EmailIs(email) => u.email == email
    case IdAmong(ids) => u.id in ids
  }

  /** Position of the first row `key` selects (`FirstOrDefault`), if any. */
  function IndexWhere(users: seq<UserRow>, key: UserKey): (r: Option<nat>)
    ensures r.Some? ==> r.value < |users| && Selects(key, users[r.value])
    ensures r.Some? ==> forall j :: 0 <= j < r.value ==> !Selects(key, users[j])
    ensures r.None? ==> forall j :: 0 <= j < |users| ==> !Selects(key, users[j])
  {
    if |users| == 0 then None
    else if Selects(key, users[0]) then Some(0)
    else match IndexWhere(users[1..], key)
      case None => None
      case Some(i) => Some(i + 1)
  }

  /** The first row `key` selects, or `None` where the source has `null`. */
  function Find(users: seq<UserRow>, key: UserKey): (r: Option<UserRow>)
    ensures r.Some? <==> exists j :: 0 <= j < |users| && Selects(key, users[j])
    ensures r.Some? ==> r.value in users && Selects(key, r.value)
  {
    match IndexWhere(users, key)
    case None => None
    case Some(i) => Some(users[i])
  }

  /** The primary key of the Users table: no two rows share an id. */
  ghost predicate DistinctIds(users: seq<UserRow>)
  {
    forall i, j :: 0 <= i < j < |users| ==> users[i].id != users[j].id
  }

  /** Every stored id was assigned by the identity column: positive and below `bound`. */
  ghost predicate IdsBelow(users: seq<UserRow>, bound: int)
  {
    forall i :: 0 <= i < |users| ==> 0 < users[i].id < bound
  }

  /** With distinct ids, looking a row's own id up finds that very row. */
  lemma FindOwnId(users: seq<UserRow>, i: nat)
    requires DistinctIds(users) && i < |users|
    ensures IndexWhere(users, IdIs(users[i].id)) == Some(i)
    ensures Find(users, IdIs(users[i].id)) == Some(users[i])
  {
  }

  /** The largest id in the table, or 0 for an empty table. */
  function MaxId(users: seq<UserRow>): (r: int)
    ensures forall i :: 0 <= i < |users| ==> users[i].id <= r
    ensures r == 0 || exists i :: 0 <= i < |users| && users[i].id == r
  {
    if |users| == 0 then 0
    else
      var m := MaxId(users[..|users| - 1]);
      var last := users[|users| - 1].id;
      if last > m then last else m
  }

  // ---------------------------------------------------------------------------
  // Users: field edits

  /** The field changes the store's setters make to a stored user row. */
  datatype Edit =
    | CopyEmailAndLockout(email: Option<string>, lockoutEnabled: bool)
    | SetLockoutEndDate(lockoutEnd: Instant)
    | IncrementAccessFailed
    | ResetAccessFailed
    | SetLockoutEnabled(enabled: bool)
    | SetTwoFactorEnabled(enabled: bool)
    | SetPhoneNumber(phoneNumber: Option<string>)
    | SetPhoneNumberConfirmed(confirmed: bool)

  /** `u` with the fields `e` names changed; the stored end of a lockout is its date only. */
  function Apply(u: UserRow, e: Edit): (r: UserRow)
    ensures r.id == u.id
  {
    match e
    case CopyEmailAndLockout(email, lockout) => u.(email := email, lockoutEnabled := lockout)
    case SetLockoutEndDate(lockoutEnd) => u.(lockoutEndDateUtc := Some(DateOf(lockoutEnd)))
    case IncrementAccessFailed => u.(accessFailedCount := WrappingIncrement(u.accessFailedCount))
    case ResetAccessFailed => u.(accessFailedCount := 0)
    case SetLockoutEnabled(enabled) => u.(lockoutEnabled := enabled)
    case SetTwoFactorEnabled(enabled) => u.(twoFactorEnabled := enabled)
    case SetPhoneNumber(phoneNumber) => u.(phoneNumber := phoneNumber)
    case SetPhoneNumberConfirmed(confirmed) => u.(phoneNumberConfirmed := confirmed)
  }

  /** The Users table after the row with id `id` is changed by `e`; a table
      with no such row is left as it is. */
  function EditUser(users: seq<UserRow>, id: int, e: Edit): (r: seq<UserRow>)
    ensures |r| == |users|
    ensures forall j :: 0 <= j < |users| ==> r[j].id == users[j].id
    ensures forall j :: 0 <= j < |users| && users[j].id != id ==> r[j] == users[j]
    ensures DistinctIds(users) ==>
      forall j :: 0 <= j < |users| && users[j].id == id ==> r[j] == Apply(users[j], e)
  {
    match IndexWhere(users, IdIs(id))
    case None => users
    case Some(i) => users[i := Apply(users[i], e)]
  }

  // ---------------------------------------------------------------------------
  // Generic row removal

  /** Position of the first occurrence of `x` in `s`, if any. */
  function IndexOf<T(==)>(s: seq<T>, x: T): (r: Option<nat>)
    ensures r.Some? ==> r.value < |s| && s[r.value] == x && x !in s[..r.value]
    ensures r.None? <==> x !in s
  {
    if |s| == 0 then None
    else if s[0] == x then Some(0)
    else match IndexOf(s[1..], x)
      case None => None
      case Some(i) =>
        assert s[1..][..i] == s[1..i + 1];
        Some(i + 1)
  }

  /** `s` without its element at position `i`; the others keep their order. */
  function RemoveAt<T>(s: seq<T>, i: nat): (r: seq<T>)
    requires i < |s|
    ensures |r| == |s| - 1
    ensures forall j :: 0 <= j < i ==> r[j] == s[j]
    ensures forall j :: i <= j < |r| ==> r[j] == s[j + 1]
    ensures multiset(r) == multiset(s) - multiset{s[i]}
  {
    assert s == s[..i] + [s[i]] + s[i + 1..];
    s[..i] + s[i + 1..]
  }

  /** `s` without the first occurrence of `x` (`Remove` of the first matching
      row); `s` itself when `x` does not occur. */
  function RemoveFirst<T(==)>(s: seq<T>, x: T): (r: seq<T>)
    ensures x in s ==> multiset(r) == multiset(s) - multiset{x}
    ensures x !in s ==> r == s
  {
    match IndexOf(s, x)
    case None => s
    case Some(i) => RemoveAt(s, i)
  }

  /** No row occurs twice. */
  ghost predicate NoDuplicates<T>(s: seq<T>)
  {
    forall i, j :: 0 <= i < j < |s| ==> s[i] != s[j]
  }

  // ---------------------------------------------------------------------------
  // Logins

  /** The ids of the users a login row with this provider and key points to. */
  function LoginOwners(logins: seq<LoginRow>, provider: int32, key: string): (r: set<int>)
    ensures forall uid :: uid in r <==> LoginRow(provider, key, uid) in logins
  {
    set j | 0 <= j < |logins| && logins[j].loginProvider == provider && logins[j].providerKey == key
      :: logins[j].userId
  }

  /** The user's logins in table order, each as the `UserLoginInfo` the store
      hands out (the provider number printed back as text). */
  function LoginsOf(logins: seq<LoginRow>, userId: int): (r: seq<LoginInfo>)
    ensures |r| <= |logins|
    ensures forall p, k :: LoginInfo(Numeric(p), k) in r <==> LoginRow(p, k, userId) in logins
    ensures forall info :: info in r ==> info.loginProvider.Numeric?
  {
    if |logins| == 0 then []
    else
      var prefix := logins[..|logins| - 1];
      var last := logins[|logins| - 1];
      assert logins == prefix + [last];
      LoginsOf(prefix, userId)
        + (if last.userId == userId then [LoginInfo(Numeric(last.loginProvider), last.providerKey)] else [])
  }

  // ---------------------------------------------------------------------------
  // Claims

  /** The user's claims in table order, each rebuilt as `new Claim(type, value)`,
      which gives it the plain string value type. */
  function ClaimsOf(claims: seq<ClaimRow>, userId: int): (r: seq<Claim>)
    ensures |r| <= |claims|
    ensures forall t, v :: Claim(t, v, XmlSchemaString) in r <==> ClaimRow(userId, t, v) in claims
    ensures forall c :: c in r ==> c.valueType == XmlSchemaString
  {
    if |claims| == 0 then []
    else
      var prefix := claims[..|claims| - 1];
      var last := claims[|claims| - 1];
      assert claims == prefix + [last];
      ClaimsOf(prefix, userId)
        + (if last.userId == userId then [Claim(last.claimType, last.claimValue, XmlSchemaString)] else [])
  }

  // ---------------------------------------------------------------------------
  // Role memberships

  /** The names of the roles the user is a member of, in table order. */
  function RolesOf(memberships: seq<Membership>, userId: int): (r: seq<string>)
    ensures |r| <= |memberships|
    ensures forall name :: name in r <==> Membership(name, userId) in memberships
  {
    if |memberships| == 0 then []
    else
      var prefix := memberships[..|memberships| - 1];
      var last := memberships[|memberships| - 1];
      assert memberships == prefix + [last];
      RolesOf(prefix, userId) + (if last.userId == userId then [last.roleName] else [])
  }

  /** The memberships left once the user's membership of `roleName` is gone. */
  function WithoutRole(memberships: seq<Membership>, userId: int, roleName: string): (r: seq<Membership>)
    ensures |r| <= |memberships|
    ensures forall m :: m in r <==> m in memberships && m != Membership(roleName, userId)
    ensures NoDuplicates(memberships) ==> NoDuplicates(r)
  {
    if |memberships| == 0 then []
    else
      var prefix := memberships[..|memberships| - 1];
      var last := memberships[|memberships| - 1];
      assert memberships == prefix + [last];
      var rest := WithoutRole(prefix, userId, roleName);
      if last != Membership(roleName, userId) then
        SplitLast(memberships);
        AppendFresh(rest, last);
        rest + [last]
      else
        assert NoDuplicates(memberships) ==> NoDuplicates(prefix);
        rest
  }

  /** A duplicate-free sequence splits into a duplicate-free prefix and a last
      element that does not occur in it. */
  lemma SplitLast<T>(s: seq<T>)
    requires |s| > 0
    ensures NoDuplicates(s) ==> NoDuplicates(s[..|s| - 1]) && s[|s| - 1] !in s[..|s| - 1]
  {
  }

  /** Appending an element that does not occur keeps a sequence duplicate-free. */
  lemma AppendFresh<T>(s: seq<T>, x: T)
    ensures NoDuplicates(s) && x !in s ==> NoDuplicates(s + [x])
  {
  }
}
