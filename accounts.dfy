/**
 * `AccountService`: the decisions the account service takes around ASP.NET Identity. The
 * Identity store is a map from user id to user; what `SignInManager` and `UserManager` decide
 * (a password check, a validation) arrives as an outcome parameter.
 */
module AccountService {
  import opened Primitives
  import opened Text
  import opened Results
  import opened Models
  import opened MappingProfiles

  const InvalidCredentials := "Неверный Email или пароль."
  const LockedOutMessage := "Аккаунт заблокирован из-за большого количества неудачных попыток входа."
  const NotAllowedMessage := "Вход не разрешен. Проверьте подтверждение Email."
  const LoginServerError := "Произошла ошибка при попытке входа."
  const EmailTaken := "Пользователь с таким Email уже зарегистрирован."
  const RegisterErrorPrefix := "Ошибка при регистрации: "
  const RegisterServerError := "Произошла ошибка сервера при регистрации."
  const UserNotFound := "Пользователь не найден."
  const UserNotFoundForUpdate := "Пользователь для обновления не найден."
  const UpdateErrorPrefix := "Ошибка при обновлении профиля: "
  const WrongCurrentPassword := "Неверный текущий пароль."
  const ChangePasswordErrorPrefix := "Ошибка при смене пароля: "
  const IncorrectPasswordMarker := "Incorrect password"
  const SoftDeleteErrorPrefix := "Ошибка при мягком удалении пользователя: "

  /** A new user's `PreferredLanguage` and `Description` before anything is assigned. */
  const DefaultLanguage := "ru"

  /** What `PasswordSignInAsync` reports. */
  datatype SignInResult = SignInResult(succeeded: bool, isLockedOut: bool, isNotAllowed: bool)

  /** What `CreateAsync`, `UpdateAsync` and `ChangePasswordAsync` report: success, or error descriptions. */
  datatype IdentityResult = IdentitySucceeded | IdentityFailed(errors: seq<string>)

  /**
   * `FindByEmailAsync` compares upper-case normalised addresses; a lookup that matches more
   * than one user throws, which the services turn into their server error.
   */
  datatype EmailLookup = NoUser | OneUser | SeveralUsers

  predicate EmailMatches(u: ApplicationUser, email: string) {
    u.email.Some? && UpperInvariant(u.email.value) == UpperInvariant(email)
  }

  function MatchingIds(users: map<Guid, ApplicationUser>, email: string): set<Guid> {
    set k | k in users && EmailMatches(users[k], email)
  }

  function FindByEmail(users: map<Guid, ApplicationUser>, email: string): (r: EmailLookup)
    ensures r.NoUser? <==> forall k :: k in users ==> !EmailMatches(users[k], email)
    ensures r.OneUser? ==>
      exists k :: (k in users && EmailMatches(users[k], email)
        && forall k' :: k' in users && EmailMatches(users[k'], email) ==> k' == k)
    ensures r.SeveralUsers? ==>
      exists k1, k2 :: (k1 in users && k2 in users && k1 != k2
        && EmailMatches(users[k1], email) && EmailMatches(users[k2], email))
  {
    var s := MatchingIds(users, email);
    NoMatch(users, email);
    if |s| == 0 then NoUser
    else if |s| == 1 then
      OneMatch(users, email);
      OneUser
    else
      TwoMatches(users, email);
      SeveralUsers
  }

  lemma OneMatch(users: map<Guid, ApplicationUser>, email: string)
    requires |MatchingIds(users, email)| == 1
    ensures exists k :: (k in users && EmailMatches(users[k], email)
      && forall k' :: k' in users && EmailMatches(users[k'], email) ==> k' == k)
  {
    var s := MatchingIds(users, email);
    var k :| k in s;
    assert |s - {k}| == 0;
    forall k' | k' in users && EmailMatches(users[k'], email)
      ensures k' == k
    {
      assert k' in s;
    }
  }

  lemma NoMatch(users: map<Guid, ApplicationUser>, email: string)
    ensures |MatchingIds(users, email)| == 0 <==> forall k :: k in users ==> !EmailMatches(users[k], email)
  {
    var s := MatchingIds(users, email);
    if |s| != 0 {
      var k :| k in s;
    } else {
      assert forall k :: k in users && EmailMatches(users[k], email) ==> k in s;
    }
  }

  lemma TwoMatches(users: map<Guid, ApplicationUser>, email: string)
    requires |MatchingIds(users, email)| >= 2
    ensures exists k1, k2 :: (k1 in users && k2 in users && k1 != k2
      && EmailMatches(users[k1], email) && EmailMatches(users[k2], email))
  {
    var s := MatchingIds(users, email);
    var k1 :| k1 in s;
    assert |s - {k1}| >= 1;
    var k2 :| k2 in s - {k1};
  }

  // ---------------------------------------------------------------- login

  /** The message table after a password check, first matching flag wins. */
  function SignInMessage(o: SignInResult): (r: EmptyResult)
    ensures r.IsSuccess() <==> o.succeeded
    ensures !o.succeeded && o.isLockedOut ==> r == EmptyFailure(LockedOutMessage)
    ensures !o.succeeded && !o.isLockedOut && o.isNotAllowed ==> r == EmptyFailure(NotAllowedMessage)
    ensures !o.succeeded && !o.isLockedOut && !o.isNotAllowed ==> r == EmptyFailure(InvalidCredentials)
  {
    if o.succeeded then EmptySuccess()
    else if o.isLockedOut then EmptyFailure(LockedOutMessage)
    else if o.isNotAllowed then EmptyFailure(NotAllowedMessage)
    else EmptyFailure(InvalidCredentials)
  }

  /** `LoginAsync`: `outcome` is what the password check reports for the user found. */
  function Login(users: map<Guid, ApplicationUser>, dto: LoginFormDto, outcome: SignInResult): (r: EmptyResult)
    ensures r.IsSuccess() <==> FindByEmail(users, dto.email).OneUser? && outcome.succeeded
    ensures FindByEmail(users, dto.email).NoUser? ==> r == EmptyFailure(InvalidCredentials)
    ensures FindByEmail(users, dto.email).SeveralUsers? ==> r == EmptyFailure(LoginServerError)
    ensures FindByEmail(users, dto.email).OneUser? ==> r == SignInMessage(outcome)
  {
    match FindByEmail(users, dto.email)
    case NoUser => EmptyFailure(InvalidCredentials)
    case SeveralUsers => EmptyFailure(LoginServerError)
    case OneUser => SignInMessage(outcome)
  }

  /**
   * Login does not tell an unknown address from a wrong password: both give the same failure,
   * so the response does not reveal which addresses are registered.
   */
  lemma LoginHidesUnknownEmail(known: map<Guid, ApplicationUser>, unknown: map<Guid, ApplicationUser>,
                               dto: LoginFormDto, outcome: SignInResult)
    requires FindByEmail(known, dto.email).OneUser? && FindByEmail(unknown, dto.email).NoUser?
    requires !outcome.succeeded && !outcome.isLockedOut && !outcome.isNotAllowed
    ensures Login(known, dto, outcome) == Login(unknown, dto, outcome) == EmptyFailure(InvalidCredentials)
  {
  }

  // ---------------------------------------------------------------- lookups and edits

  /** `GetByIdAsync`. */
  function GetById(users: map<Guid, ApplicationUser>, id: Guid): (r: Result<ApplicationUserDto, string>)
    ensures r.IsSuccess() <==> id in users
    ensures id in users ==> r.Value() == UserToDto(users[id]) && r.Value().id == users[id].id
    ensures id !in users ==> r == Failure(UserNotFound)
  {
    if id in users then Success(UserToDto(users[id])) else Failure(UserNotFound)
  }

  /** The user after the soft-delete flags are set at instant `now`. */
  function SoftDeleted(u: ApplicationUser, now: Timestamp): (d: ApplicationUser)
    ensures d.isDeleted && d.deletedAt == Some(now)
    ensures !d.emailConfirmed && d.lockoutEnd == Some(MaxTimestamp) && d.accessFailedCount == 0
    ensures d == u.(isDeleted := true, deletedAt := Some(now), emailConfirmed := false,
                    lockoutEnd := Some(MaxTimestamp), accessFailedCount := 0)
  {
    u.(isDeleted := true, deletedAt := Some(now), emailConfirmed := false,
       lockoutEnd := Some(MaxTimestamp), accessFailedCount := 0)
  }

  /**
   * There is no "already deleted" guard: a second delete re-stamps `DeletedAt` with the later
   * instant, and is otherwise the same as deleting once.
   */
  lemma SoftDeleteRestamps(u: ApplicationUser, first: Timestamp, second: Timestamp)
    ensures SoftDeleted(SoftDeleted(u, first), second) == SoftDeleted(u, second)
    ensures first != second ==> SoftDeleted(SoftDeleted(u, first), second).deletedAt != SoftDeleted(u, first).deletedAt
  {
  }

  /** `ChangePasswordAsync`'s text for a failed change: the error descriptions joined by "; ". */
  function ChangePasswordFailure(errors: seq<string>): (r: EmptyResult)
    ensures r.IsFailure()
  {
    var joined := Join(errors, "; ");
    if Contains(joined, IncorrectPasswordMarker) then EmptyFailure(WrongCurrentPassword)
    else EmptyFailure(ChangePasswordErrorPrefix + joined)
  }

  /**
   * The wrong-current-password message is given exactly when one of the error descriptions
   * contains "Incorrect password"; the joining "; " can neither create nor hide a match.
   */
  lemma {:induction false} ChangePasswordClassifies(errors: seq<string>)
    ensures ChangePasswordFailure(errors) == EmptyFailure(WrongCurrentPassword)
      <==> exists k :: 0 <= k < |errors| && Contains(errors[k], IncorrectPasswordMarker)
    ensures ChangePasswordFailure(errors) != EmptyFailure(WrongCurrentPassword) ==>
      ChangePasswordFailure(errors) == EmptyFailure(ChangePasswordErrorPrefix + Join(errors, "; "))
  {
    var joined := Join(errors, "; ");
    var sep, t := "; ", IncorrectPasswordMarker;
    assert sep[0] == ';' && sep[1..] == " " && t[0] == 'I';
    if Contains(joined, t) {
      JoinContainsOnlyParts(errors, sep, t);
    } else {
      var prefixed := ChangePasswordErrorPrefix + joined;
      assert prefixed[0] != WrongCurrentPassword[0];
      forall k | 0 <= k < |errors| && Contains(errors[k], t)
        ensures false
      {
        JoinContainsParts(errors, sep, t, k);
      }
    }
  }

  /**
   * `ChangePasswordAsync`. Both passwords must be present: a null one throws before the
   * service's error handling. `outcome` is what Identity reports for the change.
   */
  function ChangePassword(users: map<Guid, ApplicationUser>, id: Guid, dto: ChangePasswordDto,
                          outcome: IdentityResult): (r: EmptyResult)
    requires dto.currentPassword.Some? && dto.newPassword.Some?
    ensures r.IsSuccess() <==> id in users && outcome.IdentitySucceeded?
    ensures id !in users ==> r == EmptyFailure(UserNotFound)
    ensures id in users && outcome.IdentityFailed? ==> r == ChangePasswordFailure(outcome.errors)
  {
    if id !in users then EmptyFailure(UserNotFound)
    else if outcome.IdentitySucceeded? then EmptySuccess()
    else ChangePasswordFailure(outcome.errors)
  }

  // ---------------------------------------------------------------- registration

  /**
   * `RegisterAsync` as written. No map from `RegisterFormDTO` to `ApplicationUser` is
   * configured, so `mapper.Map<ApplicationUser>(dto)` throws for every address that is not
   * yet taken, and the exception becomes the server error.
   */
  function RegisterAsWritten(users: map<Guid, ApplicationUser>, dto: RegisterFormDto): (r: Result<ApplicationUserDto, string>)
    ensures FindByEmail(users, dto.email).OneUser? ==> r == Failure(EmailTaken)
    ensures !FindByEmail(users, dto.email).OneUser? ==> r == Failure(RegisterServerError)
  {
    match FindByEmail(users, dto.email)
    case OneUser => Failure(EmailTaken)
    case _ => Failure(RegisterServerError)
  }

  /** As written, no registration can succeed: a new address always gets the server error. */
  lemma RegisterAsWrittenNeverSucceeds(users: map<Guid, ApplicationUser>, dto: RegisterFormDto)
    requires FindByEmail(users, dto.email).NoUser?
    ensures RegisterAsWritten(users, dto) == Failure(RegisterServerError)
    ensures !RegisterAsWritten(users, dto).IsSuccess()
  {
  }

  /**
   * The user a registration should create: first name and e-mail from the form, the e-mail
   * also as user name (as the seeding code does), everything else at its initial value.
   */
  function NewUser(dto: RegisterFormDto, id: Guid, now: Timestamp): (u: ApplicationUser)
    ensures u.id == id && u.email == Some(dto.email) && u.userName == Some(dto.email)
    ensures u.firstName == dto.firstName && u.createdAt == now
    ensures !u.isDeleted && u.deletedAt.None? && u.updatedAt.None?
    ensures EmailMatches(u, dto.email)
  {
    ApplicationUser(id, Some(dto.email), Some(dto.email), Option.None, false, Option.None, 0,
      dto.firstName, Option.None, Option.None, DefaultTimestamp, Some(DefaultLanguage), Some(""),
      false, now, Option.None, Option.None)
  }

  /** The Identity store. */
  class UserStore {
    var users: map<Guid, ApplicationUser>

    /** Every user is stored under its own id. */
    ghost predicate Valid()
      reads this
    {
      forall k :: k in users ==> users[k].id == k
    }

    constructor ()
      ensures users == map[] && Valid()
    {
      users := map[];
    }

    /**
     * `RegisterAsync` with the missing map supplied. A taken address fails and creates nothing;
     * `creation` is what `CreateAsync` reports (password rules, user-name uniqueness).
     */
    method Register(dto: RegisterFormDto, freshId: Guid, now: Timestamp, creation: IdentityResult)
      returns (r: Result<ApplicationUserDto, string>)
      requires Valid() && freshId !in users
      modifies this
      ensures Valid()
      ensures FindByEmail(old(users), dto.email).OneUser? ==> r == Failure(EmailTaken) && users == old(users)
      ensures FindByEmail(old(users), dto.email).SeveralUsers? ==> r == Failure(RegisterServerError) && users == old(users)
      ensures FindByEmail(old(users), dto.email).NoUser? && creation.IdentityFailed? ==>
        r == Failure(RegisterErrorPrefix + Join(creation.errors, ", ")) && users == old(users)
      ensures FindByEmail(old(users), dto.email).NoUser? && creation.IdentitySucceeded? ==>
        r == Success(UserToDto(NewUser(dto, freshId, now))) && users == old(users)[freshId := NewUser(dto, freshId, now)]
    {
      var lookup := FindByEmail(users, dto.email);
      if lookup.OneUser? {
        return Failure(EmailTaken);
      } else if lookup.SeveralUsers? {
        return Failure(RegisterServerError);
      }
      var user := NewUser(dto, freshId, now);
      if creation.IdentityFailed? {
        return Failure(RegisterErrorPrefix + Join(creation.errors, ", "));
      }
      users := users[freshId := user];
      return Success(UserToDto(user));
    }

    /**
     * `UpdateAsync`. An absent user fails and nothing changes; otherwise the edit is mapped
     * onto the user, and stored when `outcome` reports success.
     */
    method Update(id: Guid, dto: ApplicationUserEditDto, now: Timestamp, outcome: IdentityResult)
      returns (r: Result<ApplicationUserDto, string>)
      requires Valid()
      modifies this
      ensures Valid()
      ensures id !in old(users) ==> r == Failure(UserNotFoundForUpdate) && users == old(users)
      ensures id in old(users) && outcome.IdentityFailed? ==>
        r == Failure(UpdateErrorPrefix + Join(outcome.errors, ", ")) && users == old(users)
      ensures id in old(users) && outcome.IdentitySucceeded? ==>
        var u := EditDtoToUser(dto, old(users)[id], now);
        r == Success(UserToDto(u)) && users == old(users)[id := u]
    {
      if id !in users {
        return Failure(UserNotFoundForUpdate);
      }
      var user := EditDtoToUser(dto, users[id], now);
      if outcome.IdentityFailed? {
        return Failure(UpdateErrorPrefix + Join(outcome.errors, ", "));
      }
      users := users[id := user];
      return Success(UserToDto(user));
    }

    /**
     * `DeleteAsync`: a soft delete. An absent user counts as deleted; otherwise the flags are
     * set and stored when `outcome` reports success.
     */
    method Delete(id: Guid, now: Timestamp, outcome: IdentityResult) returns (r: EmptyResult)
      requires Valid()
      modifies this
      ensures Valid()
      ensures id !in old(users) ==> r == EmptySuccess() && users == old(users)
      ensures id in old(users) && outcome.IdentityFailed? ==>
        r == EmptyFailure(SoftDeleteErrorPrefix + Join(outcome.errors, ", ")) && users == old(users)
      ensures id in old(users) && outcome.IdentitySucceeded? ==>
        r == EmptySuccess() && users == old(users)[id := SoftDeleted(old(users)[id], now)]
    {
      if id !in users {
        return EmptySuccess();
      }
      var user := SoftDeleted(users[id], now);
      if outcome.IdentityFailed? {
        return EmptyFailure(SoftDeleteErrorPrefix + Join(outcome.errors, ", "));
      }
      users := users[id := user];
      return EmptySuccess();
    }
  }

  /** Once registered, an address is taken: registering it again fails, and the new user can be fetched. */
  lemma {:induction false} RegisteredEmailTaken(users: map<Guid, ApplicationUser>, dto: RegisterFormDto,
                                                freshId: Guid, now: Timestamp)
    requires FindByEmail(users, dto.email).NoUser? && freshId !in users
    ensures var after := users[freshId := NewUser(dto, freshId, now)];
      FindByEmail(after, dto.email).OneUser?
      && GetById(after, freshId) == Success(UserToDto(NewUser(dto, freshId, now)))
  {
    var after := users[freshId := NewUser(dto, freshId, now)];
    assert MatchingIds(after, dto.email) == {freshId};
  }

  /** A profile fetched after a successful edit shows the edit. */
  lemma UpdateThenGet(users: map<Guid, ApplicationUser>, id: Guid, dto: ApplicationUserEditDto, now: Timestamp)
    requires id in users
    ensures var u := EditDtoToUser(dto, users[id], now);
      GetById(users[id := u], id).IsSuccess()
      && GetById(users[id := u], id).Value() == UserToDto(u)
      && GetById(users[id := u], id).Value().updatedAt == now
  {
  }

  /** A soft-deleted user is still stored and still found by id, flagged as deleted. */
  lemma DeletedUserStillFound(users: map<Guid, ApplicationUser>, id: Guid, now: Timestamp)
    requires id in users
    ensures var after := users[id := SoftDeleted(users[id], now)];
      GetById(after, id).IsSuccess() && GetById(after, id).Value().isDeleted
      && GetById(after, id).Value().deletedAt == now
  {
  }
}
