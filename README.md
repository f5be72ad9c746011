# CandidateSearchSystem services in Dafny

This project models the service layer of CandidateSearchSystem, an ASP.NET Core web
application for candidates and recruiters. Each service turns a request into a `Result`: a
success value or an error message. The service layer is:

- `Result` / `EmptyResult`: the success-or-error value every service returns instead of
  throwing (module `Results`).
- `AppMappingProfile`: the AutoMapper maps between entities and DTOs, including what each map
  copies, ignores or copies only when present (module `MappingProfiles`).
- `NewsService`: the news feed, ordered newest first with ties broken by the larger id. The
  service adds, updates and deletes posts, fetches one post, fetches a page and computes the
  page that holds a post (module `NewsService`).
- `FileUploadService`: upload validation (size limit, then an extension allow-list that
  ignores case), the storage path, and the metadata rows. Delete and update are scoped to the
  owner; delete is a soft delete. Listings return the owner's live files, optionally of one
  type (module `FileUploadService`).
- `ContactService`: a user's contacts. New keys come from the server, and every lookup is
  scoped to the caller (module `ContactService`).
- `AccountService`: login, registration, profile fetch and edit, password change and soft
  delete, over the ASP.NET Identity store (module `AccountService`).
- `InitialsSvgGenerator`: an SVG avatar with up to three initials, on a background colour
  taken from a SHA-1 digest of the name, with black or white text by luminance (module
  `InitialsSvgGenerator`).

Shared modules:

- `Primitives`: `Option`, `Guid`, tick timestamps, and C# `int` with truncating division and
  wrap-around.
- `Text`: case mapping, `Contains`, `Join`, `Replace`, hexadecimal and decimal text.
- `Models`: the entities and DTOs.

A database table is a `seq` field of a class (`NewsTable`, `FileStore`, `ContactTable`). The
Identity store is a `map` from id to user (`UserStore`). Every state-changing method states its
result and the whole new state through pure functions of the old state. Lemmas prove the
properties of those functions.

These are inputs to the model rather than behaviour it computes:
- the clock (`now`);
- new GUIDs (`freshId`, `fileId`);
- the SHA-1 function (`sha1`);
- the culture-formatted floating-point texts (`FloatTexts`);
- what ASP.NET Identity decides: the password check (`SignInResult`) and validation
  (`IdentityResult`);
- whether writing or removing a file on disk worked (`DiskOutcome`);
- the message `IBrowserFile.OpenReadStream` throws for a file above its size bound
  (`readLimitError`).

Where the code decides a behaviour, the model follows the code:
- Pages are numbered from 1. A page index below 1 is treated as 1.
- The upload size check applies only to a positive limit, but the file is read with the
  configured limit as its bound. Under a limit of zero or less, every file larger than the limit
  fails with the upload error.
- `NewsService.DeleteAsync` looks the post up by its `userId` argument, not by `dto.Id`. An
  absent post still counts as success.
- A news post inserted with a key the table already has makes `SaveChanges` throw. The service
  reports this as its server error.
- The database is PostgreSQL. It rejects a negative `OFFSET` or `LIMIT`, so a negative page
  offset (including one produced by 32-bit wrap-around) or a negative page size is a query
  server error.

## Model

| member | source | states |
|---|---|---|
| Results.Result.IsFailure | CandidateSearchSystem/Contracts/Utils/Result.cs:19-22 | a result is a failure exactly when it is not a success |
| Results.Result.Value | CandidateSearchSystem/Contracts/Utils/Result.cs:28-38 | the value can be read only from a success, and it is the value that success was built from |
| Results.Result.Error | CandidateSearchSystem/Contracts/Utils/Result.cs:44-54 | the error can be read only from a failure, and it is the error that failure was built from |
| Results.Result.Match | CandidateSearchSystem/Contracts/Utils/Result.cs:83-86 | a success gets the success handler applied to its value, a failure gets the failure handler applied to its error |
| Results.EmptySuccess | CandidateSearchSystem/Contracts/Utils/Result.cs:101-106 | `EmptyResult.Success()` is a success carrying `Unit` |
| Results.EmptyFailure | CandidateSearchSystem/Contracts/Utils/Result.cs:101-107 | `EmptyResult.Failure(e)` is a failure whose error is `e` |
| Results.SuccessAccessors | CandidateSearchSystem/Contracts/Utils/Result.cs:57-62 | a success reports success, not failure, and gives its value back |
| Results.FailureAccessors | CandidateSearchSystem/Contracts/Utils/Result.cs:64-70 | a failure reports failure, not success, and gives its error back |
| MappingProfiles.OverwriteIfPresent | CandidateSearchSystem/Data/MappingProfiles.cs:50-52 | a conditional member takes the source value when it is present and keeps the destination value otherwise |
| MappingProfiles.UserToDto | CandidateSearchSystem/Data/MappingProfiles.cs:25-37 | every mapped member of the user is copied to the DTO; a null `UpdatedAt` or `DeletedAt` becomes the default instant |
| MappingProfiles.UserFromDto | CandidateSearchSystem/Data/MappingProfiles.cs:38-45 | the reverse map takes `Id` only when it is not empty and never takes `CreatedAt`; the Identity members the DTO lacks are kept; the others come from the DTO |
| MappingProfiles.UserRoundTrip | CandidateSearchSystem/Data/MappingProfiles.cs:25-45 | mapping a user to its DTO and back onto itself gives the same user exactly when both nullable instants are set |
| MappingProfiles.EditDtoToUser | CandidateSearchSystem/Data/MappingProfiles.cs:48-79 | each nullable member overwrites only when present; the birth date becomes midnight of its day; `UpdatedAt` is stamped; every ignored member is kept |
| MappingProfiles.EditIdempotent | CandidateSearchSystem/Data/MappingProfiles.cs:48-79 | applying the same edit twice at the same instant equals applying it once |
| MappingProfiles.EmptyEditOnlyStamps | CandidateSearchSystem/Data/MappingProfiles.cs:48-67 | an edit whose members are all null changes only `UpdatedAt` |
| MappingProfiles.ContactToDto | CandidateSearchSystem/Data/MappingProfiles.cs:88 | every member of the contact is copied to the DTO |
| MappingProfiles.ContactFromDto | CandidateSearchSystem/Data/MappingProfiles.cs:89-92 | the reverse map takes `Id` only when it is not empty, never takes `UserId`, and copies the data members |
| MappingProfiles.ContactRoundTrip | CandidateSearchSystem/Data/MappingProfiles.cs:88-92 | a contact mapped to its DTO and back onto itself is unchanged |
| MappingProfiles.ContactOwnerKept | CandidateSearchSystem/Data/MappingProfiles.cs:91 | whatever the DTO says, the target contact keeps its owner |
| MappingProfiles.FileToDto | CandidateSearchSystem/Data/MappingProfiles.cs:98 | every member of the file row is copied to the DTO |
| MappingProfiles.FileFromDto | CandidateSearchSystem/Data/MappingProfiles.cs:101-108 | the reverse map takes `Id` only when it is not empty and never takes owner, path, deletion state or upload instant |
| MappingProfiles.FileRoundTrip | CandidateSearchSystem/Data/MappingProfiles.cs:98-108 | a file row mapped to its DTO and back onto itself is unchanged |
| MappingProfiles.FileProtectedMembersKept | CandidateSearchSystem/Data/MappingProfiles.cs:103-108 | mapping any DTO onto a row keeps its owner, path, deletion flag, deletion instant and upload instant |
| MappingProfiles.NewsToDto | CandidateSearchSystem/Data/MappingProfiles.cs:113 | every member of the post is copied to the DTO |
| MappingProfiles.NewsFromDto | CandidateSearchSystem/Data/MappingProfiles.cs:113 | every member of the post comes from the DTO |
| MappingProfiles.NewsRoundTrip | CandidateSearchSystem/Data/MappingProfiles.cs:113 | the news map is a bijection: each direction undoes the other |
| NewsService.FindById | CandidateSearchSystem/Contracts/Service/NewsService.cs:115-116 | a found post is in the table and has the key; nothing is found exactly when the key is absent |
| NewsService.RemoveById | CandidateSearchSystem/Contracts/Service/NewsService.cs:59-62 | the remaining rows are exactly those with another key; an absent key leaves the table as it is |
| NewsService.PrecedesTotal | CandidateSearchSystem/Contracts/Service/NewsService.cs:150 | the feed order compares any two posts, and two posts that precede each other share both instant and id |
| NewsService.Insert | CandidateSearchSystem/Contracts/Service/NewsService.cs:150 | inserting a post adds exactly that post to the rows |
| NewsService.InsertOrdered | CandidateSearchSystem/Contracts/Service/NewsService.cs:150 | inserting into an ordered list keeps it ordered |
| NewsService.InsertDistinct | CandidateSearchSystem/Contracts/Service/NewsService.cs:150 | inserting a post with a new key keeps the keys distinct |
| NewsService.Feed | CandidateSearchSystem/Contracts/Service/NewsService.cs:150 | the feed is ordered newest first with ties broken by the larger id, and it is a permutation of the table |
| NewsService.FeedUnique | CandidateSearchSystem/Contracts/Service/NewsService.cs:150 | two ordered arrangements of the same rows with distinct keys are equal |
| NewsService.OrderedArrangementIsFeed | CandidateSearchSystem/Contracts/Service/NewsService.cs:150 | on distinct keys, any ordered arrangement of the table is the feed, so the order the database returns is determined |
| NewsService.Page | CandidateSearchSystem/Contracts/Service/NewsService.cs:156-159 | `Skip(skip).Take(take)` returns the existing elements at positions `skip` to `skip + take`, in order |
| NewsService.EffectivePageIndex | CandidateSearchSystem/Contracts/Service/NewsService.cs:144 | a page index below 1 becomes 1; any other index is kept |
| NewsService.GetNewsPage | CandidateSearchSystem/Contracts/Service/NewsService.cs:136-184 | succeeds exactly when the wrapped 32-bit offset and the page size are not negative, and otherwise gives the query server error; a success lists the feed's slice at the offset with at most page-size items, the total count, the effective page index and the page size |
| NewsService.FlattenPages | CandidateSearchSystem/Contracts/Service/NewsService.cs:156-159 | cutting a sequence into pages loses and repeats nothing |
| NewsService.PagesCount | CandidateSearchSystem/Contracts/Service/NewsService.cs:153-159 | the number of pages is the fewest pages of the size that hold every row |
| NewsService.PagesAreSlices | CandidateSearchSystem/Contracts/Service/NewsService.cs:156-159 | page `k` counted from 0 is the slice at offset `k * size` |
| NewsService.PagesCoverFeed | CandidateSearchSystem/Contracts/Service/NewsService.cs:143-172 | for a positive page size, requesting pages 1, 2, … succeeds, and together the pages list every post once, in feed order |
| NewsService.NumberedPage | CandidateSearchSystem/Contracts/Service/NewsService.cs:143-172 | page `p` counted from 1 succeeds and lists page `p - 1` of the cut feed |
| NewsService.IndexOf | CandidateSearchSystem/Contracts/Service/NewsService.cs:202 | the first position of the key, or -1 exactly when it is absent |
| NewsService.FeedPosition | CandidateSearchSystem/Contracts/Service/NewsService.cs:198-202 | the key's position in the feed is in range, or -1 exactly when no post has the key |
| NewsService.FeedKeepsIds | CandidateSearchSystem/Contracts/Service/NewsService.cs:198-201 | ordering the feed neither adds nor loses a key |
| NewsService.FeedPositionHolds | CandidateSearchSystem/Contracts/Service/NewsService.cs:198-202 | a present post sits at its computed position in the feed |
| NewsService.GetNewsPageIndex | CandidateSearchSystem/Contracts/Service/NewsService.cs:186-223 | an absent post gives the not-found failure; a zero page size gives the index server error; a positive page size gives one plus the truncated quotient of the position by the page size |
| NewsService.PageIndexNamesContainingPage | CandidateSearchSystem/Contracts/Service/NewsService.cs:136-223 | for a positive page size, the page number the lookup gives is at least 1, and fetching that page succeeds and lists the post |
| NewsService.PageOfPosition | CandidateSearchSystem/Contracts/Service/NewsService.cs:145-159 | the page numbered by the position over the page size, plus one, fits an `int` and holds the post |
| NewsService.PageIndexValue | CandidateSearchSystem/Contracts/Service/NewsService.cs:208 | within `int` range the wrapped page number is the plain one |
| NewsService.SkipAt | CandidateSearchSystem/Contracts/Service/NewsService.cs:145 | the offset of page `q + 1` is `q * pageSize` when it fits an `int` |
| NewsService.GetById | CandidateSearchSystem/Contracts/Service/NewsService.cs:108-134 | succeeds exactly when the key is present, with a DTO of that post; otherwise gives the not-found message |
| NewsService.NewsTable.Add | CandidateSearchSystem/Contracts/Service/NewsService.cs:13-40 | the post takes the DTO's id, or a new one when that is empty; a key already present gives the server error and nothing changes; otherwise the post is appended |
| NewsService.NewsTable.Delete | CandidateSearchSystem/Contracts/Service/NewsService.cs:42-73 | always succeeds and removes the post whose key is the `userId` argument, if there is one |
| NewsService.NewsTable.Update | CandidateSearchSystem/Contracts/Service/NewsService.cs:75-106 | an absent key gives the not-found message and nothing changes; otherwise the post is overwritten from the DTO |
| NewsService.RemovePreservesDistinct | CandidateSearchSystem/Contracts/Service/NewsService.cs:59-62 | removing a row keeps the keys distinct |
| NewsService.DeleteRemovesOnlyTheMatch | CandidateSearchSystem/Contracts/Service/NewsService.cs:50-62 | on a table with distinct keys, deleting a key it holds removes exactly one post |
| NewsService.UpdateOverwrites | CandidateSearchSystem/Contracts/Service/NewsService.cs:75-134 | after an update the keys are the same and fetching the post returns the DTO |
| NewsService.FindInReplaced | CandidateSearchSystem/Contracts/Service/NewsService.cs:82-94 | after overwriting, looking the key up finds the new post |
| FileUploadService.GetExtension | CandidateSearchSystem/Contracts/Service/FileUploadService.cs:94 | `Path.GetExtension`: the name has an extension exactly when its last segment holds a '.' that is not the last character, and then the extension runs from the last such '.' to the end; otherwise it is empty |
| FileUploadService.ExtensionExamples | CandidateSearchSystem/Contracts/Service/FileUploadService.cs:94 | the extension of "cv.PDF" is ".PDF", and of "archive.tar.gz" it is ".gz" |
| FileUploadService.NoExtensionExamples | CandidateSearchSystem/Contracts/Service/FileUploadService.cs:94 | "README", "name." and "dir.d/file" have no extension |
| FileUploadService.NormalizeExtension | CandidateSearchSystem/Contracts/Service/FileUploadService.cs:65-71 | the normalised extension is lower case and starts with '.': it is the lowered input when that starts with '.', and the lowered input behind an added '.' otherwise |
| FileUploadService.AllowedIgnoresCase | CandidateSearchSystem/Contracts/Service/FileUploadService.cs:62-82 | an extension is allowed exactly when its lower-case form is |
| FileUploadService.AllowedWithOrWithoutDot | CandidateSearchSystem/Contracts/Service/FileUploadService.cs:67-71 | `png` is allowed exactly when `.png` is |
| FileUploadService.DefaultSettingsRejectAll | CandidateSearchSystem/Contracts/Service/FileUploadService.cs:14-19 | the default settings, whose allow-list is empty, reject every extension |
| FileUploadService.StoragePathShape | CandidateSearchSystem/Contracts/Service/FileUploadService.cs:109-112 | the stored path is `Uploads/<user>/<file id><extension>` and holds no back-slash |
| FileUploadService.FindOwned | CandidateSearchSystem/Contracts/Service/FileUploadService.cs:178-187 | finds a row with the key owned by the caller, or nothing exactly when there is no such row |
| FileUploadService.SoftDelete | CandidateSearchSystem/Contracts/Service/FileUploadService.cs:190-193 | the row is flagged deleted at the instant, and nothing else changes |
| FileUploadService.DeleteStep | CandidateSearchSystem/Contracts/Service/FileUploadService.cs:173-220 | a key the caller does not own gives the not-found-or-denied failure and changes nothing; an owned row succeeds; an already deleted row is left as it is; other keys are untouched |
| FileUploadService.FirstDeleteMarks | CandidateSearchSystem/Contracts/Service/FileUploadService.cs:173-220 | the first delete of an owned live row succeeds and flags that row deleted at the instant |
| FileUploadService.DeleteIdempotent | CandidateSearchSystem/Contracts/Service/FileUploadService.cs:173-220 | deleting again at any later instant changes nothing and gives the same result |
| FileUploadService.FindOwnedUnique | CandidateSearchSystem/Contracts/Service/FileUploadService.cs:178-187 | on distinct keys the owned row with a key is the one at its position |
| FileUploadService.ApplyMetadata | CandidateSearchSystem/Contracts/Service/FileUploadService.cs:277-291 | name and description change only to a non-empty value; type always changes; `UpdatedAt` is stamped; nothing else changes |
| FileUploadService.FindActiveOwned | CandidateSearchSystem/Contracts/Service/FileUploadService.cs:262-272 | finds a live row with the key owned by the caller, or nothing exactly when there is none |
| FileUploadService.UpdateStep | CandidateSearchSystem/Contracts/Service/FileUploadService.cs:247-308 | an empty key gives the missing-key failure; a key not owned or deleted gives not-found-or-denied, and nothing changes; a key of the caller's live row always succeeds, returning the row with the metadata applied, which replaces the old one |
| FileUploadService.UpdateKeepsProtectedMembers | CandidateSearchSystem/Contracts/Service/FileUploadService.cs:247-308 | every row keeps its key, owner, path, deletion state and upload instant through an update |
| FileUploadService.ActiveOf | CandidateSearchSystem/Contracts/Service/FileUploadService.cs:229-233 | the rows kept are exactly the caller's live rows |
| FileUploadService.GetByUserId | CandidateSearchSystem/Contracts/Service/FileUploadService.cs:222-243 | always a success, listing exactly the DTOs of the caller's rows that are not soft-deleted |
| FileUploadService.GetByUserIdAndType | CandidateSearchSystem/Contracts/Service/FileUploadService.cs:313-335 | always a success, listing exactly the DTOs of the caller's live rows of the type |
| FileUploadService.OfType | CandidateSearchSystem/Contracts/Service/FileUploadService.cs:320-325 | the rows kept are exactly those of the type |
| FileUploadService.ByTypeNarrowsByUser | CandidateSearchSystem/Contracts/Service/FileUploadService.cs:222-335 | the by-type listing is the by-user listing narrowed to one type |
| FileUploadService.FileStore.IsExtensionAllowed | CandidateSearchSystem/Contracts/Service/FileUploadService.cs:62-82 | the loop over the groups answers yes exactly when some group lists the normalised extension, ignoring case |
| FileUploadService.FileStore.Add | CandidateSearchSystem/Contracts/Service/FileUploadService.cs:88-171 | the size check comes first, then the extension check, each with its message; a failed disk write gives the upload-error failure, and so does a size above a limit of zero or less, which the size check skips but `OpenReadStream` enforces; each failure adds nothing; otherwise exactly the new row is appended and its DTO returned |
| FileUploadService.FileStore.Delete | CandidateSearchSystem/Contracts/Service/FileUploadService.cs:173-220 | result and new rows are those of `DeleteStep`, whatever happened on disk |
| FileUploadService.FileStore.Update | CandidateSearchSystem/Contracts/Service/FileUploadService.cs:247-308 | result and new rows are those of `UpdateStep`, so an update of the caller's live row succeeds |
| FileUploadService.UploadedRowListed | CandidateSearchSystem/Contracts/Service/FileUploadService.cs:119-134 | after an accepted upload the caller's listing gains exactly the new row |
| ContactService.FindOwned | CandidateSearchSystem/Contracts/Service/ContactService.cs:80-81 | finds a contact with the key owned by the caller, or nothing exactly when there is none |
| ContactService.RemoveById | CandidateSearchSystem/Contracts/Service/ContactService.cs:92 | the remaining rows are exactly those with another key |
| ContactService.RemovePreservesDistinct | CandidateSearchSystem/Contracts/Service/ContactService.cs:92 | removing a row keeps the keys distinct |
| ContactService.NewContactFrom | CandidateSearchSystem/Contracts/Service/ContactService.cs:31-35 | a new contact takes the DTO's data, the caller as owner and a new key |
| ContactService.UpdateCopiesData | CandidateSearchSystem/Contracts/Service/ContactService.cs:189-191 | an update of an owned contact copies type, value, description and primary flag, and keeps the key and the owner |
| ContactService.OwnedBy | CandidateSearchSystem/Contracts/Service/ContactService.cs:124-127 | the rows kept are exactly the caller's |
| ContactService.GetByUserId | CandidateSearchSystem/Contracts/Service/ContactService.cs:114-141 | always a success listing exactly the DTOs of the caller's contacts; empty when there are none |
| ContactService.ContactTable.Add | CandidateSearchSystem/Contracts/Service/ContactService.cs:24-47 | a null DTO fails and adds nothing; otherwise the contact with a new key and the caller as owner is appended and returned |
| ContactService.ContactTable.Delete | CandidateSearchSystem/Contracts/Service/ContactService.cs:62-99 | an empty key fails; a missing or foreign key gives not-found; in both cases nothing changes; otherwise that one row is removed |
| ContactService.ContactTable.Update | CandidateSearchSystem/Contracts/Service/ContactService.cs:157-201 | a null DTO or empty key fails; a contact the caller does not own gives not-found; in both cases nothing changes; otherwise the owned row is overwritten, keeping the caller as owner |
| ContactService.DeleteRemovesExactlyOne | CandidateSearchSystem/Contracts/Service/ContactService.cs:92 | on a table with distinct keys, deleting a key it holds removes exactly one row |
| ContactService.UpdateNeverReassignsOwner | CandidateSearchSystem/Contracts/Service/ContactService.cs:175-194 | on distinct keys every row keeps its owner, and only the row with the DTO's key changes |
| ContactService.AddedContactListed | CandidateSearchSystem/Contracts/Service/ContactService.cs:24-141 | an added contact appears in its owner's listing, and no other user's listing changes |
| AccountService.FindByEmail | CandidateSearchSystem/Contracts/Service/AccountService.cs:19 | no user, exactly one user, or several users have the address, compared in normalised upper case |
| AccountService.SignInMessage | CandidateSearchSystem/Contracts/Service/AccountService.cs:32-42 | success exactly when the check succeeded; otherwise the locked-out, then not-allowed, then invalid-credentials message, first flag wins |
| AccountService.Login | CandidateSearchSystem/Contracts/Service/AccountService.cs:12-53 | succeeds exactly when one user has the address and the password check succeeds; an unknown address gives invalid credentials; an ambiguous one gives the server error |
| AccountService.LoginHidesUnknownEmail | CandidateSearchSystem/Contracts/Service/AccountService.cs:21-42 | an unknown address and a wrong password give the same failure |
| AccountService.GetById | CandidateSearchSystem/Contracts/Service/AccountService.cs:107-131 | succeeds exactly when the user exists, with the user's DTO; otherwise gives user-not-found |
| AccountService.SoftDeleted | CandidateSearchSystem/Contracts/Service/AccountService.cs:229-237 | the user is flagged deleted at the instant, the e-mail is unconfirmed, the account is locked out for ever and the failed-access count is zero; nothing else changes |
| AccountService.SoftDeleteRestamps | CandidateSearchSystem/Contracts/Service/AccountService.cs:222-237 | a second delete re-stamps the deletion instant and is otherwise the same as one |
| AccountService.ChangePasswordFailure | CandidateSearchSystem/Contracts/Service/AccountService.cs:189-199 | a failed change always gives a failure |
| AccountService.ChangePasswordClassifies | CandidateSearchSystem/Contracts/Service/AccountService.cs:192-199 | the wrong-current-password message comes exactly when one error description contains "Incorrect password"; otherwise the message is the prefix and the descriptions joined by "; " |
| AccountService.ChangePassword | CandidateSearchSystem/Contracts/Service/AccountService.cs:171-214 | succeeds exactly when the user exists and Identity accepts the change; an absent user gives user-not-found; a rejected change is classified as above |
| AccountService.RegisterAsWritten | CandidateSearchSystem/Contracts/Service/AccountService.cs:55-91 | a taken address gives email-taken; any other address gives the server error |
| AccountService.RegisterAsWrittenNeverSucceeds | CandidateSearchSystem/Contracts/Service/AccountService.cs:62-89 | as written, registering a new address never succeeds |
| AccountService.NewUser | CandidateSearchSystem/Contracts/Service/AccountService.cs:68 | the registered user has the new id, the form's first name and address, the address as user name, and is live |
| AccountService.UserStore.Register | CandidateSearchSystem/Contracts/Service/AccountService.cs:55-91 | a taken address gives email-taken; an ambiguous one the server error; a rejected creation the joined errors; in those cases nothing changes; otherwise exactly the new user is stored and returned |
| AccountService.UserStore.Update | CandidateSearchSystem/Contracts/Service/AccountService.cs:133-169 | an absent user fails; a rejected update gives the joined errors; in both cases nothing changes; otherwise the edited user is stored and returned |
| AccountService.UserStore.Delete | CandidateSearchSystem/Contracts/Service/AccountService.cs:216-262 | an absent user counts as deleted; a rejected update gives the joined errors and changes nothing; otherwise the soft-deleted user is stored |
| AccountService.RegisteredEmailTaken | CandidateSearchSystem/Contracts/Service/AccountService.cs:55-131 | once registered, the address matches exactly one user and the new user can be fetched by id |
| AccountService.UpdateThenGet | CandidateSearchSystem/Contracts/Service/AccountService.cs:107-169 | a profile fetched after a successful edit is the edited one, stamped with the edit instant |
| AccountService.DeletedUserStillFound | CandidateSearchSystem/Contracts/Service/AccountService.cs:107-251 | a soft-deleted user is still found by id, flagged deleted at the instant |
| InitialsSvgGenerator.EffectiveName | CandidateSearchSystem/Contracts/Utils/InitialsSvgGenerator.cs:17-20 | a null or blank name becomes "?"; any other name is kept |
| InitialsSvgGenerator.Tokens | CandidateSearchSystem/Contracts/Utils/InitialsSvgGenerator.cs:23-26 | the split yields non-empty words without separators; a name starting with a letter has a first word starting with it |
| InitialsSvgGenerator.TokensCover | CandidateSearchSystem/Contracts/Utils/InitialsSvgGenerator.cs:23-26 | the words hold every non-separator character in order and nothing else; there are none exactly when the name is separators only |
| InitialsSvgGenerator.TokensOfWord | CandidateSearchSystem/Contracts/Utils/InitialsSvgGenerator.cs:23-26 | a single word is its own only token |
| InitialsSvgGenerator.TokensSplitAt | CandidateSearchSystem/Contracts/Utils/InitialsSvgGenerator.cs:23-26 | a separator cuts the name, and the words are those of either side |
| InitialsSvgGenerator.Initials | CandidateSearchSystem/Contracts/Utils/InitialsSvgGenerator.cs:31-38 | no words give "?"; otherwise the upper-cased first letters of the first three words |
| InitialsSvgGenerator.InitialsOf | CandidateSearchSystem/Contracts/Utils/InitialsSvgGenerator.cs:17-38 | the initials have one to three characters |
| InitialsSvgGenerator.QuestionMarkFallback | CandidateSearchSystem/Contracts/Utils/InitialsSvgGenerator.cs:17-38 | a null, blank or separators-only name is drawn as "?" |
| InitialsSvgGenerator.SeparatorsOnlyExample | CandidateSearchSystem/Contracts/Utils/InitialsSvgGenerator.cs:23-34 | "-_-" is drawn as "?" |
| InitialsSvgGenerator.EscapeXml | CandidateSearchSystem/Contracts/Utils/InitialsSvgGenerator.cs:130-134 | null stays null; any other text goes through the five chained replacements |
| InitialsSvgGenerator.EscapedConcat | CandidateSearchSystem/Contracts/Utils/InitialsSvgGenerator.cs:133 | escaping a concatenation is concatenating the escapes |
| InitialsSvgGenerator.EscapedChar | CandidateSearchSystem/Contracts/Utils/InitialsSvgGenerator.cs:133 | one character escapes to its entity, or to itself when it is not special |
| InitialsSvgGenerator.EscapeIsPerChar | CandidateSearchSystem/Contracts/Utils/InitialsSvgGenerator.cs:133 | because "&" is replaced first, the chained replacements equal a one-pass, per-character escape |
| InitialsSvgGenerator.EscapedHasNoMarkup | CandidateSearchSystem/Contracts/Utils/InitialsSvgGenerator.cs:133 | the escaped text holds no raw `<`, `>`, `"` or `'` |
| InitialsSvgGenerator.PlainTextUnchanged | CandidateSearchSystem/Contracts/Utils/InitialsSvgGenerator.cs:130-134 | text without the five special characters is left as it is |
| InitialsSvgGenerator.UnescapeStep | CandidateSearchSystem/Contracts/Utils/InitialsSvgGenerator.cs:133 | decoding an escaped character followed by anything gives that character followed by the decoded rest |
| InitialsSvgGenerator.EscapeRoundTrip | CandidateSearchSystem/Contracts/Utils/InitialsSvgGenerator.cs:130-134 | decoding the escaped text gives the original back |
| InitialsSvgGenerator.ByteHex | CandidateSearchSystem/Contracts/Utils/InitialsSvgGenerator.cs:99 | `{b:X2}` is two upper-case hexadecimal digits whose value is the byte |
| InitialsSvgGenerator.ColorFromString | CandidateSearchSystem/Contracts/Utils/InitialsSvgGenerator.cs:89-100 | the colour is "#" and six upper-case hexadecimal digits, whose three pairs encode the first three bytes of the digest, in order |
| InitialsSvgGenerator.PairValue | CandidateSearchSystem/Contracts/Utils/InitialsSvgGenerator.cs:112-121 | two hexadecimal digits parse to their value below 256, and a '+' sign before one digit to that digit's value; any other pair is the exception |
| InitialsSvgGenerator.GetContrastColor | CandidateSearchSystem/Contracts/Utils/InitialsSvgGenerator.cs:104-127 | malformed input gives black text; a long form parses exactly when its three pairs do, giving black exactly on a light background; a shorthand parses exactly when its three digits do |
| InitialsSvgGenerator.ContrastOfGeneratedColor | CandidateSearchSystem/Contracts/Utils/InitialsSvgGenerator.cs:41-44 | every generated colour parses, and the text is black exactly when the digest's first three bytes are light |
| InitialsSvgGenerator.ShorthandMatchesLongForm | CandidateSearchSystem/Contracts/Utils/InitialsSvgGenerator.cs:110-122 | the shorthand "#RGB" gives the same answer as "#RRGGBB" |
| InitialsSvgGenerator.CircleInAnyCase | CandidateSearchSystem/Contracts/Utils/InitialsSvgGenerator.cs:54 | the circle is drawn exactly when the shape is "circle" in any mix of cases |
| InitialsSvgGenerator.FontSize | CandidateSearchSystem/Contracts/Utils/InitialsSvgGenerator.cs:47 | half the size, and for an odd size the even neighbour of the half |
| InitialsSvgGenerator.AvatarOf | CandidateSearchSystem/Contracts/Utils/InitialsSvgGenerator.cs:17-44 | the picture's initials, the background derived from the effective name, and black text exactly on a light background |
| InitialsSvgGenerator.SvgLines | CandidateSearchSystem/Contracts/Utils/InitialsSvgGenerator.cs:50-72 | six lines: the opening tag, the circle or rectangle, two text attribute lines, the text with the escaped initials, and the closing tag |
| InitialsSvgGenerator.ShapeChoice | CandidateSearchSystem/Contracts/Utils/InitialsSvgGenerator.cs:54-64 | the shape element is a circle exactly when the shape names one, and a rectangle otherwise |
| InitialsSvgGenerator.InitialsEscapedInText | CandidateSearchSystem/Contracts/Utils/InitialsSvgGenerator.cs:66-70 | the text element holds the escaped initials, which contain no markup and decode back to the initials |
| InitialsSvgGenerator.StringBuilder.AppendLine | CandidateSearchSystem/Contracts/Utils/InitialsSvgGenerator.cs:51-72 | each call adds the line and a line end at the end of the text |
| InitialsSvgGenerator.RenderSix | CandidateSearchSystem/Contracts/Utils/InitialsSvgGenerator.cs:50-74 | six lines render as each line followed by a line end |
| InitialsSvgGenerator.GenerateSvg | CandidateSearchSystem/Contracts/Utils/InitialsSvgGenerator.cs:15-75 | the returned text is the rendering of the six lines of the name's avatar |
| InitialsSvgGenerator.WriteSvg | CandidateSearchSystem/Contracts/Utils/InitialsSvgGenerator.cs:50-74 | the `AppendLine` sequence produces the rendering of the six lines |

## Left out

- Cancellation: `CancellationToken` checks and the "operation cancelled" failures are not modelled. Cancellation comes from outside the services.
- The `Match` overload taking two `Action`s (CandidateSearchSystem/Contracts/Utils/Result.cs:88-98) is not modelled. It only runs side effects, and the `Func` overload covers its choice of handler.
- Logging is not modelled. It does not affect any result.
- Unexpected exceptions from the database or Identity (connection loss and the like) are not modelled. Of the causes the catch-all server-error failures cover, the model names a duplicate news key, a negative page offset or size, a zero page size, and an ambiguous e-mail lookup.
- Database constraints other than the primary keys are not modelled. The column lengths in CandidateSearchSystem/Migrations/20251124112531_InitialSetup.cs are not checked: `Files.Name` at 255 characters (line 248), `Contacts.Value` at 200 (line 227), both `Description` columns at 500 (lines 228 and 251), and the `AspNetUsers` names and addresses at 50 and 256 (lines 34-46). Neither are the foreign keys from `Files` and `Contacts` to `AspNetUsers` (lines 235 and 260). A save that breaks one of these fails in the source, and the service returns its upload or server-error failure; the model's `FileStore.Add`, `FileStore.Update`, `ContactTable.Add`, `ContactTable.Update` and the user store succeed there. `FileStore.Update` is affected because `ApplyMetadata` accepts a name or description of any length.
- Instants are kept as 100 ns ticks everywhere. PostgreSQL's `timestamp with time zone` (CandidateSearchSystem/Migrations/20251124112531_InitialSetup.cs, lines 40-42, 54, 69 and 253-254) stores whole microseconds, so an instant read back from the database is cut to a multiple of 10 ticks. This cut is not modelled in `NewsTable.Add`, `NewsTable.Update`, `FileStore.Add`, `FileStore.Update`, `UserStore` or the feed order. Two posts whose instants differ by less than a microsecond can therefore come out of `Precedes` in the opposite order to the database's, which then compares them by id alone.
- NewsService.UpdateOverwrites: fetching returns exactly the DTO, where the source returns it with `CreatedAt` cut to whole microseconds. The two agree when `dto.createdAt` is a multiple of 10 ticks.
- AccountService.ChangePassword: its requires stands for `ArgumentNullException.ThrowIfNull` on both passwords (CandidateSearchSystem/Contracts/Service/AccountService.cs:173-174). That guard sits outside the service's try, so a null password throws out of the service. The model does not return a result for that case.
- Disk I/O in `FileUploadService` is not modelled: `CheckUserUploadDirectory`, `SaveFileAsync`, the file removal in `DeleteAsync`, `GetUploadDirectoryName`. Each write or removal is a `DiskOutcome` parameter. The message of the `IOException` that `IBrowserFile.OpenReadStream` throws for a file above its size bound is the `readLimitError` parameter. The empty file that `SaveFileAsync` leaves on disk in that case is not modelled.
- `AccountService.LogoutAsync` and the sign-out after a soft delete are not modelled. Both change only the sign-in cookie, which is outside the store.
- ASP.NET Identity itself is not modelled: password hashing, lockout counting, validation rules. Its verdicts are the `SignInResult` and `IdentityResult` parameters.
- `Guid.NewGuid` and `DateTime.UtcNow` are not modelled. They are the `freshId`/`fileId` and `now` parameters.
- NewsService.NewsTable.Add: requires the new id to be fresh and non-empty, which is the collision-freedom of `Guid.NewGuid`.
- FileUploadService.FileStore.Add: requires the new file id to be fresh, which is the collision-freedom of `Guid.NewGuid`.
- ContactService.ContactTable.Add: requires the new id to be fresh, which is the collision-freedom of `Guid.NewGuid`.
- AccountService.UserStore.Register: requires the new id to be fresh, which is the collision-freedom of `Guid.NewGuid`.
- SHA-1 and UTF-8 encoding are the `sha1` parameter. `GenerateSvgBytes`, the UTF-8 encoding of the picture, is not modelled.
- InitialsSvgGenerator.GetContrastColor: the luminance test is exact integer arithmetic (`299 R + 587 G + 114 B > 153000`). Floating-point rounding at the boundary is not modelled.
- InitialsSvgGenerator.GetContrastColor: its own contract states the shorthand case only as when it parses. `ShorthandMatchesLongForm` gives that case's value.
- InitialsSvgGenerator.SvgLines: the culture-formatted texts of `size / 2.0` and `Math.Round(size * 0.08)` are the `FloatTexts` parameter. The model does not format floating-point numbers.
- InitialsSvgGenerator.InitialsOf: its own contract states only the length. `Initials`, `TokensCover` and `QuestionMarkFallback` state the content.
- InitialsSvgGenerator.Initials: strings are sequences of Unicode scalar values, not UTF-16 code units. For a word that starts outside the Basic Multilingual Plane, `Substring(0, 1)` takes a lone high surrogate, and the model takes the whole character. The same holds for `InitialsOf`, `AvatarOf` and `GenerateSvg`, which use it.
- Case mapping covers ASCII for `ToLowerInvariant`, `ToUpperInvariant` and `OrdinalIgnoreCase`. The ru-RU `ToUpper` covers ASCII and basic Cyrillic. Other scripts and special cases such as U+0130 are not modelled. Neither is the Unicode NFC normalisation that Identity applies before it upper-cases an address: in `AccountService.EmailMatches`, a decomposed "é" does not match its precomposed form, where it does in the source.
- `Environment.NewLine` is taken as "\n", the line end on the Linux host the service runs on.
- `Path.GetExtension` and `Path.Combine` follow their Linux behaviour, where '/' is the only directory separator.
- NewsService.GetNewsPageIndex: for a negative page size its contract states nothing beyond the body's truncating division.
- The EF change tracker is not modelled. A failed `SaveChanges` leaves the table unchanged, as a fresh context would see it.
- The mapping groups for candidates, recruiters and interactions are not modelled. Neither is `UserSummaryDto`. No service in this model uses them.

## Findings

| source | as written | input that shows it | evidently intended | confidence | as-written member | corrected member |
|---|---|---|---|---|---|---|
| CandidateSearchSystem/Contracts/Service/AccountService.cs:68 | `mapper.Map<ApplicationUser>(dto)` maps a `RegisterFormDTO`. `AppMappingProfile` (CandidateSearchSystem/Data/MappingProfiles.cs:9-20) configures no map from that type, so AutoMapper throws. The catch at lines 86-90 turns this into the server error. | registering any address no user has yet | the form's first name and address become a new user, with the address as user name; when Identity accepts it, the user is stored and its DTO returned | not executed | AccountService.RegisterAsWritten, AccountService.RegisterAsWrittenNeverSucceeds | AccountService.UserStore.Register |
