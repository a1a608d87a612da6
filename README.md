# User repository: a verified model of an ASP.NET Identity user store

`UserRepository<TUser>` is the store that the ASP.NET Identity framework calls
to keep users, logins, claims, role memberships, passwords, security stamps,
lockout counters, two-factor flags and phone numbers. It does this over an
Entity Framework database context. This project models what each of its
methods does to the data. The context's tables are sequences held by a class,
`Repositories.UserRepository`:

- `users` holds the user rows, with the fields Id, Email, Password,
  SecurityStamp, LockoutEnabled, LockoutEndDateUtc, AccessFailedCount,
  TwoFactorEnabled, PhoneNumber and PhoneNumberConfirmed.
- `logins` holds (provider number, key, user id) rows.
- `claims` holds (user id, type, value) rows.
- `roles` holds role names. The store only reads them.
- `memberships` holds (role name, user id) pairs.

Every save is an immediate, complete commit, so the fields are the committed
tables. The caller's user object (`Entities.User`) is a separate object.
The password and security-stamp setters write to it and never to the store.

The model is organised in four modules:

- `Entities` (entities.dfy) holds the row types, the caller's object, the
  arguments the framework passes in, and the outcome of an operation.
  An outcome is a value or a .NET exception (`Result`, `Status`).
- `Tables` (tables.dfy) holds the queries the store runs, as functions over
  the tables: the first-match lookups, the per-user lists, single-row
  removal, and the field edits of the setters. Each has a contract that
  characterises its result.
- `Repositories` (user_repository.dfy) holds the class. It has one method per
  store method, and `Valid()` states the database's constraints: positive,
  distinct ids handed out by the identity column, and no duplicate
  membership. Every method that changes state keeps `Valid()`. Its
  postcondition gives the whole new state as a function of the old one.
- `Properties` (properties.dfy) holds lemmas that relate operations to one
  another: create and find, delete and find, each setter and its getter,
  reset and increment, add and remove of logins and claims, and role
  membership.

The store is deliberately inconsistent about a missing user, and the model
keeps that:

- `GetLockoutEnabled` answers true and `GetAccessFailedCount` answers 0.
- `GetTwoFactorEnabled`, `GetPhoneNumber` and `GetPhoneNumberConfirmed` fail
  with an `ArgumentException`.
- `IncrementAccessFailedCount` fails with a `NullReferenceException`. It
  checks for the missing row, but then reads the counter anyway.
- The setters do nothing.

Claims are stored with `claim.ValueType` as their value, in both AddClaim and
RemoveClaim. GetClaims rebuilds each claim as `new Claim(type, value)`, which
gives it the plain string value type. A claim read back can therefore not be
removed again, unless the added claim's value type was the plain string
type, or a row for the plain string type also exists
(`Properties.ReadBackClaimIsNotRemovable`).

## Model

| member | source | states |
|---|---|---|
| `Repositories.UserRepository.constructor` | IdentityDbFirstWebTest/Entities/Repositories/UserRepository.cs:27-30 | the store holds the context's tables; the identity column's next value is given, above every stored id (it need not follow the largest one, since deleted rows do not give their values back) |
| `Repositories.UserRepository.Create` | IdentityDbFirstWebTest/Entities/Repositories/UserRepository.cs:32-40 | a user with id 0 is appended with the next identity value, which is also written to the caller's object; a user with any other id leaves every table and the object unchanged; a null user fails |
| `Repositories.UserRepository.Delete` | IdentityDbFirstWebTest/Entities/Repositories/UserRepository.cs:42-46 | the row with the user's id is removed and nothing else changes; an unknown user is an InvalidOperationException and a null one an ArgumentNullException |
| `Repositories.UserRepository.FindById` | IdentityDbFirstWebTest/Entities/Repositories/UserRepository.cs:49-62 | returns the first stored user with the id, or none |
| `Repositories.UserRepository.FindByName` | IdentityDbFirstWebTest/Entities/Repositories/UserRepository.cs:64-77 | returns the first stored user with the email, or none |
| `Repositories.UserRepository.Update` | IdentityDbFirstWebTest/Entities/Repositories/UserRepository.cs:79-91 | only Email and LockoutEnabled of the stored row with the caller's id change; every other table and row stays; no-op when no row has the id |
| `Repositories.UserRepository.AddLogin` | IdentityDbFirstWebTest/Entities/Repositories/UserRepository.cs:94-111 | a null user or login info fails with ArgumentNullException, a non-numeric provider with FormatException; otherwise exactly one row (provider, key, user id) is appended, with no duplicate check |
| `Repositories.UserRepository.FindByLogin` | IdentityDbFirstWebTest/Entities/Repositories/UserRepository.cs:113-140 | returns the first stored user whose id some login row with this provider and key points to, or none |
| `Repositories.UserRepository.GetLogins` | IdentityDbFirstWebTest/Entities/Repositories/UserRepository.cs:142-160 | the loop returns exactly the user's login rows as (provider, key), in the model's table order; a null user is an ArgumentException |
| `Repositories.UserRepository.RemoveLogin` | IdentityDbFirstWebTest/Entities/Repositories/UserRepository.cs:162-175 | deletes the first row matching (provider, key, user id), at most one, and changes nothing when none matches |
| `Repositories.UserRepository.AddClaim` | IdentityDbFirstWebTest/Entities/Repositories/UserRepository.cs:177-191 | appends exactly one row (user id, claim type, claim value type) |
| `Repositories.UserRepository.GetClaims` | IdentityDbFirstWebTest/Entities/Repositories/UserRepository.cs:193-209 | returns the user's claim rows as claims of that type and stored value, in the model's table order; a null user is an ArgumentException |
| `Repositories.UserRepository.RemoveClaim` | IdentityDbFirstWebTest/Entities/Repositories/UserRepository.cs:211-227 | removes one row matching (user id, type, value type) and keeps any duplicate; fails when no row matches |
| `Repositories.UserRepository.GetPasswordHash` | IdentityDbFirstWebTest/Entities/Repositories/UserRepository.cs:229-240 | reads the stored row, not the caller's object; none when the row is absent or its password is null or empty |
| `Repositories.UserRepository.HasPassword` | IdentityDbFirstWebTest/Entities/Repositories/UserRepository.cs:242-247 | reads the caller's object: true exactly when its password is non-null and non-empty |
| `Repositories.UserRepository.SetPasswordHash` | IdentityDbFirstWebTest/Entities/Repositories/UserRepository.cs:250-260 | a null user is an ArgumentException; otherwise only the caller's Password changes, and the store is outside the frame |
| `Repositories.UserRepository.GetSecurityStamp` | IdentityDbFirstWebTest/Entities/Repositories/UserRepository.cs:262-265 | returns the caller's object's stamp |
| `Repositories.UserRepository.SetSecurityStamp` | IdentityDbFirstWebTest/Entities/Repositories/UserRepository.cs:267-272 | only the caller's SecurityStamp changes; the store is outside the frame |
| `Repositories.UserRepository.AddToRole` | IdentityDbFirstWebTest/Entities/Repositories/UserRepository.cs:274-291 | fails unless the named role and the stored user both exist; otherwise the membership is recorded once |
| `Repositories.UserRepository.GetRoles` | IdentityDbFirstWebTest/Entities/Repositories/UserRepository.cs:293-307 | the loop returns the names of the stored user's roles, or the empty list for an absent user |
| `Repositories.UserRepository.IsInRole` | IdentityDbFirstWebTest/Entities/Repositories/UserRepository.cs:309-325 | true exactly when the user is stored and roleName is, by exact comparison, one of the names GetRoles lists |
| `Repositories.UserRepository.RemoveFromRole` | IdentityDbFirstWebTest/Entities/Repositories/UserRepository.cs:327-343 | the loop leaves no membership of the stored user with that name and keeps all others; no-op for an absent user |
| `Repositories.UserRepository.GetLockoutEndDate` | IdentityDbFirstWebTest/Entities/Repositories/UserRepository.cs:346-357 | the stored lockout end, or the default instant when the user is absent or has none |
| `Repositories.UserRepository.SetLockoutEndDate` | IdentityDbFirstWebTest/Entities/Repositories/UserRepository.cs:359-368 | stores the date part of the given instant on the stored row; no-op for an absent user |
| `Repositories.UserRepository.IncrementAccessFailedCount` | IdentityDbFirstWebTest/Entities/Repositories/UserRepository.cs:370-380 | raises the stored count by one, with C# int wrap-around, and returns the new value; an absent user fails with NullReferenceException and changes nothing |
| `Repositories.UserRepository.ResetAccessFailedCount` | IdentityDbFirstWebTest/Entities/Repositories/UserRepository.cs:382-391 | sets the stored count to 0; no-op for an absent user |
| `Repositories.UserRepository.GetAccessFailedCount` | IdentityDbFirstWebTest/Entities/Repositories/UserRepository.cs:393-403 | the stored count, or 0 for an absent user |
| `Repositories.UserRepository.GetLockoutEnabled` | IdentityDbFirstWebTest/Entities/Repositories/UserRepository.cs:405-415 | the stored flag, or true for an absent user |
| `Repositories.UserRepository.SetLockoutEnabled` | IdentityDbFirstWebTest/Entities/Repositories/UserRepository.cs:417-426 | sets the stored flag; silent no-op for an absent user |
| `Repositories.UserRepository.Dispose` | IdentityDbFirstWebTest/Entities/Repositories/UserRepository.cs:428-435 | marks the context gone and changes nothing else; after it every context access fails with NullReferenceException |
| `Repositories.UserRepository.SetTwoFactorEnabled` | IdentityDbFirstWebTest/Entities/Repositories/UserRepository.cs:437-447 | sets the stored flag; silent no-op for an absent user |
| `Repositories.UserRepository.GetTwoFactorEnabled` | IdentityDbFirstWebTest/Entities/Repositories/UserRepository.cs:449-462 | the stored flag; an absent user is an ArgumentException |
| `Repositories.UserRepository.SetPhoneNumber` | IdentityDbFirstWebTest/Entities/Repositories/UserRepository.cs:465-474 | sets the stored number; silent no-op for an absent user |
| `Repositories.UserRepository.GetPhoneNumber` | IdentityDbFirstWebTest/Entities/Repositories/UserRepository.cs:476-488 | the stored number; an absent user is an ArgumentException |
| `Repositories.UserRepository.GetPhoneNumberConfirmed` | IdentityDbFirstWebTest/Entities/Repositories/UserRepository.cs:490-502 | the stored flag; an absent user is an ArgumentException |
| `Repositories.UserRepository.SetPhoneNumberConfirmed` | IdentityDbFirstWebTest/Entities/Repositories/UserRepository.cs:504-513 | sets the stored flag; silent no-op for an absent user |
| `Repositories.UserRepository.EditStored` | IdentityDbFirstWebTest/Entities/Repositories/UserRepository.cs:419-425 | the find-by-id-then-set pattern of every setter: the stored row changes by the edit, or nothing changes |
| `Tables.IndexWhere` | IdentityDbFirstWebTest/Entities/Repositories/UserRepository.cs:51 | `FirstOrDefault`: the position of a matching row with no matching row before it, or none when no row matches |
| `Tables.Find` | IdentityDbFirstWebTest/Entities/Repositories/UserRepository.cs:67 | a row is found exactly when some row matches, and the row found matches |
| `Tables.FindOwnId` | IdentityDbFirstWebTest/Entities/Repositories/UserRepository.cs:81 | with distinct ids, a row's id finds that row, so the `SingleOrDefault` of Update and the `FirstOrDefault` lookups agree |
| `Tables.EditUser` | IdentityDbFirstWebTest/Entities/Repositories/UserRepository.cs:417-426 | a setter changes only the row with the id, and by its edit; ids and every other row stay |
| `Tables.LoginOwners` | IdentityDbFirstWebTest/Entities/Repositories/UserRepository.cs:116-120 | the user ids the join keeps: exactly those of login rows with this provider and key |
| `Tables.LoginsOf` | IdentityDbFirstWebTest/Entities/Repositories/UserRepository.cs:149-156 | (provider, key) is listed exactly when the user has that login row |
| `Tables.ClaimsOf` | IdentityDbFirstWebTest/Entities/Repositories/UserRepository.cs:200-206 | (type, value) is listed exactly when the user has that claim row, always with the plain string value type |
| `Tables.RolesOf` | IdentityDbFirstWebTest/Entities/Repositories/UserRepository.cs:298-304 | a name is listed exactly when the user has a membership of that role |
| `Tables.WithoutRole` | IdentityDbFirstWebTest/Entities/Repositories/UserRepository.cs:331-339 | keeps exactly the memberships other than (roleName, user), without creating duplicates |
| `Tables.IndexOf` | IdentityDbFirstWebTest/Entities/Repositories/UserRepository.cs:164-165 | the first row equal to the one sought, or none when no row is |
| `Tables.RemoveAt` | IdentityDbFirstWebTest/Entities/Repositories/UserRepository.cs:169 | `Remove` of one row: one fewer row, the others in order, one copy of that row gone |
| `Tables.RemoveFirst` | IdentityDbFirstWebTest/Entities/Repositories/UserRepository.cs:213-219 | exactly one copy of a present row is removed, and an absent row changes nothing |
| `Entities.WrappingIncrement` | IdentityDbFirstWebTest/Entities/Repositories/UserRepository.cs:376 | `AccessFailedCount++` is x + 1 modulo 2^32, and exactly x + 1 below the largest int |
| `Properties.CreatedUserIsFound` | IdentityDbFirstWebTest/Entities/Repositories/UserRepository.cs:32-62 | after Create, FindById of the new id returns a row equal to the caller's object in every stored field, and no other id's result changes |
| `Properties.DeletedUserIsGone` | IdentityDbFirstWebTest/Entities/Repositories/UserRepository.cs:42-62 | after Delete, FindById of the deleted id returns none |
| `Properties.EditThenFind` | IdentityDbFirstWebTest/Entities/Repositories/UserRepository.cs:405-513 | each getter reads back what its setter stored for that user, and no other user changes |
| `Properties.UpdateCopiesTwoFields` | IdentityDbFirstWebTest/Entities/Repositories/UserRepository.cs:79-91 | after Update, the stored row equals the old one with the caller's Email and LockoutEnabled |
| `Properties.CountAfterIncrements` | IdentityDbFirstWebTest/Entities/Repositories/UserRepository.cs:370-403 | reset, then n increments (n at most the largest int), makes GetAccessFailedCount return n |
| `Properties.IncrementWrapsAtMax` | IdentityDbFirstWebTest/Entities/Repositories/UserRepository.cs:376 | an increment at the largest int stores the smallest int |
| `Properties.RemoveAfterAppend` | IdentityDbFirstWebTest/Entities/Repositories/UserRepository.cs:177-227 | RemoveLogin or RemoveClaim with the arguments just added restores the same rows, as a multiset |
| `Properties.AddLoginThenFind` | IdentityDbFirstWebTest/Entities/Repositories/UserRepository.cs:94-140 | AddLogin with a provider and key no row holds makes FindAsync return that stored user |
| `Properties.RemoveLoginThenFind` | IdentityDbFirstWebTest/Entities/Repositories/UserRepository.cs:113-175 | removing the only row of a provider and key makes FindAsync return none |
| `Properties.AddLoginThenGetLogins` | IdentityDbFirstWebTest/Entities/Repositories/UserRepository.cs:94-160 | after AddLogin, the user's login list gains the new login (as a multiset; at the end in the model's table order), and other users' lists stay |
| `Properties.AddClaimThenGetClaims` | IdentityDbFirstWebTest/Entities/Repositories/UserRepository.cs:177-209 | after AddClaim, GetClaims lists one more claim (as a multiset; at the end in the model's table order), with the added claim's value type as its value |
| `Properties.RemoveClaimLeavesDuplicate` | IdentityDbFirstWebTest/Entities/Repositories/UserRepository.cs:211-227 | with two equal claim rows, RemoveClaim leaves one of them |
| `Properties.ReadBackClaimIsNotRemovable` | IdentityDbFirstWebTest/Entities/Repositories/UserRepository.cs:177-227 | a claim read back by GetClaims misses the row RemoveClaim would need, unless the plain string value type was used |
| `Properties.AddToRoleThenIsInRole` | IdentityDbFirstWebTest/Entities/Repositories/UserRepository.cs:274-325 | after AddToRole succeeds, IsInRole answers true |
| `Properties.RemoveFromRoleThenIsInRole` | IdentityDbFirstWebTest/Entities/Repositories/UserRepository.cs:309-343 | after RemoveFromRole, IsInRole answers false for that name, and all other memberships stay |

## Left out

- Tasks and `async`: each method returns its outcome directly. A faulted task is the `Faulted` or `Err` value carrying the exception.
- Saves: every `SaveChangesAsync` is an immediate, complete commit. That includes the un-awaited saves in AddLogin, RemoveLogin and AddClaim, whose failures the source would lose.
- Entity Framework change tracking and identity resolution are not modelled. Update and the field setters write to the stored row and never through the caller's object, so a change to a tracked caller object does not reach the store through some later save. Delete and AddLogin go the other way: they treat the caller's object as the stored row with the same id. That is the usual flow, where the object came from FindById or FindByName and is tracked. Two outcomes for an untracked object are not modelled: `Users.Remove` of an instance the context does not track raises InvalidOperationException even when a row with that id exists, and AddLogin's `login.User = user` inserts an untracked user as a new row.
- LINQ translation is not modelled. FindByLogin and RemoveLogin call `Int32.Parse` inside the query expression (UserRepository.cs:119 and :165). LINQ to Entities most likely refuses that method call with NotSupportedException on every input, so neither method may ever reach the behaviour modelled here. The model evaluates the parse before the query.
- String equality inside queries runs in the database, under its collation, which on SQL Server is case-insensitive by default. That covers Email in FindByName, role Name in AddToRole, ClaimType and ClaimValue in RemoveClaim, and ProviderKey in FindByLogin and RemoveLogin. The model compares these strings exactly, as IsInRole's in-memory `Equals` does. So the source's `AddToRole("admin")` against a role "Admin", which succeeds while IsInRole("admin") still answers false, is not modelled.
- Roles are identified by name: a membership records the role name, while the source links a user to the role entity. Role names are taken to be unique, so two roles that share a name, and a user belonging to both, are not modelled.
- Foreign keys: the model enforces none. Delete removes only the user row, and AddLogin and AddClaim accept any user id. What the database would do with orphaned or dangling rows is not modelled.
- The identity column: ids are unbounded integers, and exhausting a 32-bit identity is not modelled.
- `Int32.Parse` and `Int32.ToString` of the login provider are not modelled. Provider text is either `Numeric(n)`, standing for text that parses to n, or `Malformed`, standing for text that raises `FormatException`.
- RemoveFromRole: the membership collection is modified inside its own `foreach`. The enumerator exception this raises at run time is not modelled; only the intended effect is.
- Result order: SQL gives these queries no order unless asked. FindByName's `FirstOrDefault` over users sharing an email, FindByLogin's join, the unordered `Where` of GetLogins and GetClaims, and GetRoles's lazily loaded `Roles` all take the model's table order here. Which row comes first, or where in the list a new login or claim appears, is a choice of the model. AddLoginThenGetLogins and AddClaimThenGetClaims also state their results as multisets, which do not depend on that choice.
- Lockout end: `DateTimeOffset` and time zones are not modelled. An instant is a day plus a time of day, and `.Date` keeps the day.
- Null arguments are modelled for the user, the login info and the claim. A null role name or claim type is not; a null email is an `Option` and compares as C# null equality does.
- The generic `TUser` parameter and the `as TUser` casts are not modelled: every stored user is a `TUser`.
- Concurrency, lost updates and the disposal of a context that is still in use are not modelled; the source has no synchronisation.
