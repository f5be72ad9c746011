/**
 * The persisted entities, the transfer objects and the enumerations the services use.
 * Navigation properties (a user's contacts and files, profiles) are not part of these records.
 */
module Models {
  import opened Primitives

  datatype ContactType = None | Phone | Email | Telegram | WhatsApp | LinkedIn | Github | Portfolio | Other

  datatype FileType = None | ProfileAvatar | Resume | CoverLetter | Certificate | PortfolioWork | Other

  datatype NewsLevel = HotFix | Release | Update | Announcement

  /** `ApplicationUser`, with the `IdentityUser` fields the services read or write. */
  datatype ApplicationUser = ApplicationUser(
    id: Guid,
    userName: Option<string>,
    email: Option<string>,
    phoneNumber: Option<string>,
    emailConfirmed: bool,
    lockoutEnd: Option<Timestamp>,
    accessFailedCount: int,
    firstName: string,
    lastName: Option<string>,
    patronymic: Option<string>,
    dateOfBirth: Timestamp,
    preferredLanguage: Option<string>,
    description: Option<string>,
    isDeleted: bool,
    createdAt: Timestamp,
    updatedAt: Option<Timestamp>,
    deletedAt: Option<Timestamp>)

  datatype Contact = Contact(
    id: Guid,
    userId: Guid,
    contactType: ContactType,
    value: string,
    description: Option<string>,
    isPrimary: bool)

  /** A freshly constructed `Contact` before any field is assigned. */
  const NewContact := Contact(EmptyGuid, EmptyGuid, ContactType.None, "", Option.None, false)

  /** The `Files` entity: metadata of one uploaded file. */
  datatype Files = Files(
    id: Guid,
    userId: Guid,
    name: string,
    fileType: FileType,
    storagePath: string,
    description: Option<string>,
    isDeleted: bool,
    deletedAt: Option<Timestamp>,
    updatedAt: Timestamp,
    uploadedAt: Timestamp)

  datatype NewsPost = NewsPost(
    id: Guid,
    author: string,
    createdAt: Timestamp,
    title: string,
    text: string,
    level: NewsLevel)

  /** The editable part of a profile; an absent field means "leave unchanged". */
  datatype ApplicationUserEditDto = ApplicationUserEditDto(
    firstName: Option<string>,
    lastName: Option<string>,
    patronymic: Option<string>,
    description: Option<string>,
    dateOfBirth: Option<Timestamp>,
    preferredLanguage: Option<string>)

  datatype ChangePasswordDto = ChangePasswordDto(
    currentPassword: Option<string>,
    newPassword: Option<string>,
    confirmPassword: Option<string>)

  datatype LoginFormDto = LoginFormDto(email: string, password: string, rememberMe: bool)

  datatype RegisterFormDto = RegisterFormDto(
    firstName: string,
    email: string,
    password: string,
    confirmPassword: string)

  datatype ApplicationUserDto = ApplicationUserDto(
    id: Guid,
    userName: Option<string>,
    email: Option<string>,
    firstName: string,
    lastName: Option<string>,
    patronymic: Option<string>,
    dateOfBirth: Timestamp,
    preferredLanguage: Option<string>,
    description: Option<string>,
    isDeleted: bool,
    createdAt: Timestamp,
    updatedAt: Timestamp,
    deletedAt: Timestamp)

  datatype ContactDto = ContactDto(
    id: Guid,
    userId: Guid,
    contactType: ContactType,
    value: string,
    description: Option<string>,
    isPrimary: bool)

  datatype FileDto = FileDto(
    id: Guid,
    userId: Guid,
    name: string,
    fileType: FileType,
    storagePath: string,
    description: Option<string>,
    isDeleted: bool,
    deletedAt: Option<Timestamp>,
    updatedAt: Timestamp,
    uploadedAt: Timestamp)

  /** The metadata a client sends with an upload. */
  datatype FileCreationDto = FileCreationDto(fileType: FileType, description: Option<string>)

  datatype NewsPostDto = NewsPostDto(
    id: Guid,
    author: string,
    text: string,
    title: string,
    level: NewsLevel,
    createdAt: Timestamp)
}
