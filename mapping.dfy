/**
 * The AutoMapper profile as explicit functions. A map onto an existing entity takes the old
 * entity and returns the new one, so every member the profile ignores or guards by a condition
 * is visibly kept.
 */
module MappingProfiles {
  import opened Primitives
  import opened Models

  /** A nullable source member guarded by `Condition(src => src.M != null)`. */
  function OverwriteIfPresent<T>(incoming: Option<T>, current: T): (r: T)
    ensures incoming.Some? ==> r == incoming.value
    ensures incoming.None? ==> r == current
  {
    incoming.GetOr(current)
  }

  // ---------------------------------------------------------------- users

  /** `ApplicationUser -> ApplicationUserDto`; a missing `UpdatedAt`/`DeletedAt` becomes the default instant. */
  function UserToDto(u: ApplicationUser): (d: ApplicationUserDto)
    ensures d.id == u.id && d.userName == u.userName && d.email == u.email
    ensures d.firstName == u.firstName && d.lastName == u.lastName && d.patronymic == u.patronymic
    ensures d.dateOfBirth == u.dateOfBirth && d.preferredLanguage == u.preferredLanguage
    ensures d.description == u.description && d.isDeleted == u.isDeleted && d.createdAt == u.createdAt
    ensures d.updatedAt == u.updatedAt.GetOr(DefaultTimestamp)
    ensures d.deletedAt == u.deletedAt.GetOr(DefaultTimestamp)
  {
    ApplicationUserDto(u.id, u.userName, u.email, u.firstName, u.lastName, u.patronymic,
      u.dateOfBirth, u.preferredLanguage, u.description, u.isDeleted, u.createdAt,
      u.updatedAt.GetOr(DefaultTimestamp), u.deletedAt.GetOr(DefaultTimestamp))
  }

  /**
   * The reverse map `ApplicationUserDto -> ApplicationUser` onto an existing user: `Id` only
   * when it is not empty, `CreatedAt` never, and the Identity members the DTO lacks are kept.
   */
  function UserFromDto(d: ApplicationUserDto, current: ApplicationUser): (u: ApplicationUser)
    ensures u.id == (if d.id != EmptyGuid then d.id else current.id)
    ensures u.createdAt == current.createdAt
    ensures u.phoneNumber == current.phoneNumber && u.emailConfirmed == current.emailConfirmed
    ensures u.lockoutEnd == current.lockoutEnd && u.accessFailedCount == current.accessFailedCount
    ensures u.userName == d.userName && u.email == d.email && u.firstName == d.firstName
    ensures u.lastName == d.lastName && u.patronymic == d.patronymic && u.dateOfBirth == d.dateOfBirth
    ensures u.preferredLanguage == d.preferredLanguage && u.description == d.description
    ensures u.isDeleted == d.isDeleted
    ensures u.updatedAt == Some(d.updatedAt) && u.deletedAt == Some(d.deletedAt)
  {
    current.(
      id := if d.id != EmptyGuid then d.id else current.id,
      userName := d.userName, email := d.email, firstName := d.firstName,
      lastName := d.lastName, patronymic := d.patronymic, dateOfBirth := d.dateOfBirth,
      preferredLanguage := d.preferredLanguage, description := d.description,
      isDeleted := d.isDeleted, updatedAt := Some(d.updatedAt), deletedAt := Some(d.deletedAt))
  }

  /**
   * Mapping a user to its DTO and back onto itself gives the same user exactly when both
   * nullable instants are set: a null `UpdatedAt` or `DeletedAt` comes back as the default instant.
   */
  lemma UserRoundTrip(u: ApplicationUser)
    ensures UserFromDto(UserToDto(u), u) == u <==> (u.updatedAt.Some? && u.deletedAt.Some?)
  {
    var r := UserFromDto(UserToDto(u), u);
    if u.updatedAt.None? {
      assert r.updatedAt != u.updatedAt;
    } else if u.deletedAt.None? {
      assert r.deletedAt != u.deletedAt;
    }
  }

  /**
   * `ApplicationUserEditDto -> ApplicationUser` onto an existing user: each nullable member
   * overwrites only when present, the birth date becomes midnight UTC of its day, `UpdatedAt`
   * is always stamped, and no other member changes.
   */
  function EditDtoToUser(d: ApplicationUserEditDto, current: ApplicationUser, now: Timestamp): (u: ApplicationUser)
    ensures u.firstName == OverwriteIfPresent(d.firstName, current.firstName)
    ensures d.lastName.Some? ==> u.lastName == d.lastName
    ensures d.lastName.None? ==> u.lastName == current.lastName
    ensures d.patronymic.Some? ==> u.patronymic == d.patronymic
    ensures d.patronymic.None? ==> u.patronymic == current.patronymic
    ensures d.description.Some? ==> u.description == d.description
    ensures d.description.None? ==> u.description == current.description
    ensures d.preferredLanguage.Some? ==> u.preferredLanguage == d.preferredLanguage
    ensures d.preferredLanguage.None? ==> u.preferredLanguage == current.preferredLanguage
    ensures d.dateOfBirth.Some? ==>
      u.dateOfBirth % TicksPerDay == 0 && u.dateOfBirth <= d.dateOfBirth.value < u.dateOfBirth + TicksPerDay
    ensures d.dateOfBirth.None? ==> u.dateOfBirth == current.dateOfBirth
    ensures u.updatedAt == Some(now)
    ensures u == current.(firstName := u.firstName, lastName := u.lastName, patronymic := u.patronymic,
      description := u.description, preferredLanguage := u.preferredLanguage,
      dateOfBirth := u.dateOfBirth, updatedAt := u.updatedAt)
  {
    current.(
      updatedAt := Some(now),
      firstName := OverwriteIfPresent(d.firstName, current.firstName),
      lastName := if d.lastName.Some? then d.lastName else current.lastName,
      patronymic := if d.patronymic.Some? then d.patronymic else current.patronymic,
      dateOfBirth := if d.dateOfBirth.Some? then DatePart(d.dateOfBirth.value) else current.dateOfBirth,
      description := if d.description.Some? then d.description else current.description,
      preferredLanguage := if d.preferredLanguage.Some? then d.preferredLanguage else current.preferredLanguage)
  }

  /** Applying the same edit twice at the same instant is the same as applying it once. */
  lemma EditIdempotent(d: ApplicationUserEditDto, u: ApplicationUser, now: Timestamp)
    ensures EditDtoToUser(d, EditDtoToUser(d, u, now), now) == EditDtoToUser(d, u, now)
  {
    if d.dateOfBirth.Some? {
      var b := DatePart(d.dateOfBirth.value);
      assert DatePart(b) == b;
    }
  }

  /** An edit with every member null only stamps `UpdatedAt`. */
  lemma EmptyEditOnlyStamps(u: ApplicationUser, now: Timestamp)
    ensures EditDtoToUser(ApplicationUserEditDto(Option.None, Option.None, Option.None, Option.None, Option.None, Option.None), u, now)
      == u.(updatedAt := Some(now))
  {
  }

  // ---------------------------------------------------------------- contacts

  function ContactToDto(c: Contact): (d: ContactDto)
    ensures d.id == c.id && d.userId == c.userId && d.contactType == c.contactType
    ensures d.value == c.value && d.description == c.description && d.isPrimary == c.isPrimary
  {
    ContactDto(c.id, c.userId, c.contactType, c.value, c.description, c.isPrimary)
  }

  /** `ContactDto -> Contact` onto an existing contact: `Id` only when not empty, `UserId` never. */
  function ContactFromDto(d: ContactDto, current: Contact): (c: Contact)
    ensures c.id == (if d.id != EmptyGuid then d.id else current.id)
    ensures c.userId == current.userId
    ensures c.contactType == d.contactType && c.value == d.value
    ensures c.description == d.description && c.isPrimary == d.isPrimary
  {
    Contact(if d.id != EmptyGuid then d.id else current.id, current.userId,
      d.contactType, d.value, d.description, d.isPrimary)
  }

  /** A contact mapped to its DTO and back onto itself is unchanged. */
  lemma ContactRoundTrip(c: Contact)
    ensures ContactFromDto(ContactToDto(c), c) == c
  {
  }

  /** Whatever the DTO says, the owner of the target contact survives the map. */
  lemma ContactOwnerKept(d: ContactDto, current: Contact)
    ensures ContactFromDto(d, current).userId == current.userId
    ensures ContactToDto(ContactFromDto(d, current)).userId == current.userId
  {
  }

  // ---------------------------------------------------------------- files

  function FileToDto(f: Files): (d: FileDto)
    ensures d.id == f.id && d.userId == f.userId && d.name == f.name && d.fileType == f.fileType
    ensures d.storagePath == f.storagePath && d.description == f.description
    ensures d.isDeleted == f.isDeleted && d.deletedAt == f.deletedAt
    ensures d.updatedAt == f.updatedAt && d.uploadedAt == f.uploadedAt
  {
    FileDto(f.id, f.userId, f.name, f.fileType, f.storagePath, f.description,
      f.isDeleted, f.deletedAt, f.updatedAt, f.uploadedAt)
  }

  /**
   * `FileDto -> Files` onto an existing row: `Id` only when not empty; `UserId`, `StoragePath`,
   * `IsDeleted`, `DeletedAt` and `UploadedAt` never.
   */
  function FileFromDto(d: FileDto, current: Files): (f: Files)
    ensures f.id == (if d.id != EmptyGuid then d.id else current.id)
    ensures f.userId == current.userId && f.storagePath == current.storagePath
    ensures f.isDeleted == current.isDeleted && f.deletedAt == current.deletedAt
    ensures f.uploadedAt == current.uploadedAt
    ensures f.name == d.name && f.fileType == d.fileType && f.description == d.description
    ensures f.updatedAt == d.updatedAt
  {
    current.(id := if d.id != EmptyGuid then d.id else current.id,
      name := d.name, fileType := d.fileType, description := d.description, updatedAt := d.updatedAt)
  }

  /** A row mapped to its DTO and back onto itself is unchanged. */
  lemma FileRoundTrip(f: Files)
    ensures FileFromDto(FileToDto(f), f) == f
  {
  }

  /** Mapping any DTO onto a row keeps its owner, its storage path and its deletion state. */
  lemma FileProtectedMembersKept(d: FileDto, current: Files)
    ensures var f := FileFromDto(d, current);
      f.userId == current.userId && f.storagePath == current.storagePath
      && f.isDeleted == current.isDeleted && f.deletedAt == current.deletedAt
      && f.uploadedAt == current.uploadedAt
  {
  }

  // ---------------------------------------------------------------- news

  function NewsToDto(p: NewsPost): (d: NewsPostDto)
    ensures d.id == p.id && d.author == p.author && d.text == p.text && d.title == p.title
    ensures d.level == p.level && d.createdAt == p.createdAt
  {
    NewsPostDto(p.id, p.author, p.text, p.title, p.level, p.createdAt)
  }

  /** The reverse map: every member of the post comes from the DTO. */
  function NewsFromDto(d: NewsPostDto): (p: NewsPost)
    ensures p.id == d.id && p.author == d.author && p.text == d.text && p.title == d.title
    ensures p.level == d.level && p.createdAt == d.createdAt
  {
    NewsPost(d.id, d.author, d.createdAt, d.title, d.text, d.level)
  }

  /** The news map is a bijection: each direction undoes the other. */
  lemma NewsRoundTrip(p: NewsPost, d: NewsPostDto)
    ensures NewsFromDto(NewsToDto(p)) == p
    ensures NewsToDto(NewsFromDto(d)) == d
  {
  }
}
