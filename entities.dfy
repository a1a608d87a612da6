/** The values the user store works with: the rows of its four tables and of
    its role list, the caller's user object, the arguments the identity
    framework passes in, and the outcome of every store operation. */
module Entities {

  datatype Option<+T> = None | Some(value: T)

  /** The .NET exceptions a store operation can end in. */
  datatype Exception =
    | ArgumentNullException(message: string)
    | ArgumentException(message: string)
    | NullReferenceException
    | FormatException
    | InvalidOperationException
    | GeneralException(message: string)

  /** The outcome of an operation that yields a value (a `Task<T>`). */
  datatype Result<+T> = Ok(value: T) | Err(error: Exception)

  /** The outcome of an operation that yields nothing (a plain `Task`). */
  datatype Status = Completed | Faulted(error: Exception)

  /** A C# `int`. */
  newtype int32 = x: int | -0x8000_0000 <= x < 0x8000_0000

  const Int32Max: int32 := 0x7fff_ffff
  const Int32Min: int32 := -0x8000_0000

  /** `x++` on a C# `int` in an unchecked context. */
  function WrappingIncrement(x: int32): (r: int32)
    ensures (r as int - x as int - 1) % 0x1_0000_0000 == 0
    ensures x < Int32Max ==> r as int == x as int + 1
  {
    if x == Int32Max then Int32Min else x + 1
  }

  /** `String.IsNullOrEmpty`, with a null string written `None`. */
  predicate IsNullOrEmpty(s: Option<string>)
  {
    s.None? || s.value == ""
  }

  /** A point in time: a calendar day and a position within that day. */
  datatype Instant = Instant(day: int, timeOfDay: nat)

  /** `default(DateTimeOffset)`, returned when no lockout end is stored. */
  const DefaultInstant := Instant(0, 0)

  /** `DateTimeOffset.Date`: the same day at midnight. */
  function DateOf(t: Instant): Instant
  {
    Instant(t.day, 0)
  }

  /** One row of the Users table. An `id` of 0 means "not yet stored". */
  datatype UserRow = UserRow(
    id: int,
    email: Option<string>,
    password: Option<string>,
    securityStamp: Option<string>,
    lockoutEnabled: bool,
    lockoutEndDateUtc: Option<Instant>,
    accessFailedCount: int32,
    twoFactorEnabled: bool,
    phoneNumber: Option<string>,
    phoneNumberConfirmed: bool)

  /** One row of the UserLogins table; the provider is stored as an integer. */
  datatype LoginRow = LoginRow(loginProvider: int32, providerKey: string, userId: int)

  /** One row of the UserClaims table. */
  datatype ClaimRow = ClaimRow(userId: int, claimType: string, claimValue: string)

  /** One row of the user-role join table, naming the role by its name. */
  datatype Membership = Membership(roleName: string, userId: int)

  /** The text of a login provider: either text `Int32.Parse` accepts, standing
      for the number it reads, or text it rejects with a `FormatException`. */
  datatype ProviderText = Numeric(number: int32) | Malformed(text: string)

  /** `UserLoginInfo`: a login provider and the key that provider knows the user by. */
  datatype LoginInfo = LoginInfo(loginProvider: ProviderText, providerKey: string)

  /** `System.Security.Claims.Claim`, reduced to its type, value and value type. */
  datatype Claim = Claim(claimType: string, value: string, valueType: string)

  /** The value type `new Claim(type, value)` gives a claim (`ClaimValueTypes.String`). */
  const XmlSchemaString := "http://www.w3.org/2001/XMLSchema#string"

  /** The user object a caller hands to the store. The store reads its id and
      some of its fields; the password and security-stamp setters write to it. */
  class User {
    var id: int
    var email: Option<string>
    var password: Option<string>
    var securityStamp: Option<string>
    var lockoutEnabled: bool
    var lockoutEndDateUtc: Option<Instant>
    var accessFailedCount: int32
    var twoFactorEnabled: bool
    var phoneNumber: Option<string>
    var phoneNumberConfirmed: bool

    /** A user object holding the values of `row`. */
    constructor (row: UserRow)
      ensures Row() == row
    {
      id := row.id;
      email := row.email;
      password := row.password;
      securityStamp := row.securityStamp;
      lockoutEnabled := row.lockoutEnabled;
      lockoutEndDateUtc := row.lockoutEndDateUtc;
      accessFailedCount := row.accessFailedCount;
      twoFactorEnabled := row.twoFactorEnabled;
      phoneNumber := row.phoneNumber;
      phoneNumberConfirmed := row.phoneNumberConfirmed;
    }

    /** The row this object would be stored as. */
    function Row(): UserRow
      reads this
    {
      UserRow(id, email, password, securityStamp, lockoutEnabled, lockoutEndDateUtc,
              accessFailedCount, twoFactorEnabled, phoneNumber, phoneNumberConfirmed)
    }
  }
}
