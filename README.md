# movieflix core in Dafny

A model of the two stateful cores of the movieflix Spring Boot service, with
proofs about them.

**Movie catalog and poster directory.** `MovieServiceImpl` keeps a movie
table and a directory of poster files in step. `FileServiceImpl` writes to
and reads from that directory. `MovieController` guards the uploaded file
before it calls the service.

- `addMovie` refuses a poster name that is already taken. Otherwise it
  uploads the file and inserts the row.
- `updateMovie` keeps the poster when no file comes. When a file comes, it
  deletes the old poster, uploads the new one and overwrites the row.
- `deleteMovie` deletes the poster file and then the row.
- Every view a client receives carries `posterUrl = baseUrl + "/file/" + poster`.
- The paged listings map each row on the page to a view. They sort ascending
  exactly when the direction equals `"asc"` ignoring case.

**Password-reset ledger.** `ForgotPasswordController` handles one-time codes.

- `verifyMail` mails a random code in `[100000, 999999)` to a registered
  address. It records the code with an expiry of `now + 70000` ms.
- `verifyOtp` looks the code up for that user. A code whose expiry is
  strictly before `now` is deleted and answered with 417. A live code is
  answered with 200 and stays.
- `changePasswordHandler` only checks that the two typed passwords are
  equal, then stores the encoded password. It does not look at the codes.

Layout, one module per file:

- `common.dfy`, module `Common`: `Option`, `Result`, the HTTP answer, the
  exceptions, and Java's decimal rendering of integers with its round trip.
- `movie.dfy`, module `Entities`: the `Movie` entity and its column and
  `@NotBlank` constraints.
- `file_service.dfy`, module `FileService`: the disk as directories plus
  files, a `FileSystem` class for the java.nio calls, `uploadFile` and
  `getResourceFile`.
- `movie_repository.dfy`, module `Repository`: the table behind the
  Spring Data repository (find, save, delete, paged and sorted reads). This
  is a model of framework behaviour, not of the repository's own code.
- `movie_service.dfy`, module `MovieService`: each operation as a function
  from the state before to the answer and the state after. The class
  `MovieServiceImpl` runs those steps on the live objects and is proved to
  match the functions.
- `movie_properties.dfy`, module `MovieProperties`: which map changes on
  each path, consistency between rows and files, and the dangling-poster
  states.
- `movie_api.dfy`, module `MovieApi`: `MovieController`.
- `password_reset.dfy`, module `PasswordReset`: the ledger, its step
  functions, the collaborator classes and `ForgotPasswordController`.
- `password_reset_properties.dfy`, module `PasswordResetProperties`: the
  life of a code, expiry, duplicate codes, and password change without a code.

## Model

| member | source | states |
|---|---|---|
| Entities.NotBlankIff | src/main/java/com/movieflix/entities/Movie.java:21 | `@NotBlank` (trim leaves something) holds exactly when some character is above U+0020 |
| Entities.Trim | src/main/java/com/movieflix/entities/Movie.java:21 | `String.trim()`; `TrimStartDrops` and `TrimEndDrops` prove it drops exactly the runs of characters up to U+0020 at both ends |
| Entities.TrimStartDrops | src/main/java/com/movieflix/entities/Movie.java:21 | trimming the front removes a run of characters up to U+0020 and stops at the first other character |
| Entities.TrimEndDrops | src/main/java/com/movieflix/entities/Movie.java:21 | trimming the back removes a run of characters up to U+0020 and stops at the last other character |
| Entities.SatisfiesConstraints | src/main/java/com/movieflix/entities/Movie.java:20-41 | the entity's declared constraints: title, director, studio and poster `@NotBlank`, title at most 200 characters, director, studio, poster and each cast member at most JPA's default 255, release year not null; `SaveKeepsInvariant` proves every stored row meets them |
| Repository.RowWithId | src/main/java/com/movieflix/service/MovieServiceImpl.java:82-83 | `findById` finds a row exactly when some row has that id, and what it finds is a stored row with that id |
| Repository.SaveRow | src/main/java/com/movieflix/service/MovieServiceImpl.java:63 | `save`: refuses a row breaking the constraints, inserts a new entity with the next identity value, overwrites a stored id; `SaveKeepsInvariant` and `SaveThenFind` state its effect |
| Repository.DeleteRow | src/main/java/com/movieflix/service/MovieServiceImpl.java:174 | `delete`: removes the entity's row; `DeleteThenFind` and `DeleteKeepsInvariant` state its effect |
| Repository.SaveKeepsInvariant | src/main/java/com/movieflix/entities/Movie.java:16-18 | ids are handed out by the store: every stored row has a distinct id below the next identity value and satisfies the entity constraints, and `save` keeps this |
| Repository.SaveThenFind | src/main/java/com/movieflix/service/MovieServiceImpl.java:63 | after a successful `save` the saved entity is found under its id and every other id finds what it found before |
| Repository.DeleteThenFind | src/main/java/com/movieflix/service/MovieServiceImpl.java:174 | after `delete` the id is gone and every other id finds what it found before |
| Repository.DeleteKeepsInvariant | src/main/java/com/movieflix/service/MovieServiceImpl.java:174 | `delete` keeps ids distinct and below the next identity value and every row within the constraints |
| Repository.HasText | src/main/java/com/movieflix/service/MovieServiceImpl.java:212-213 | `StringUtils.hasText`, which `Sort.by` applies: some character is not `Character.isWhitespace` (assumed framework behaviour) |
| Repository.TotalPages | src/main/java/com/movieflix/service/MovieServiceImpl.java:205 | `getTotalPages`: the number of pages of size `pageSize` the table fills, the last possibly partial; `TotalPagesEnough` and `PagesCoverTable` show they cover the table (assumed framework behaviour) |
| Repository.SortRows | src/main/java/com/movieflix/service/MovieServiceImpl.java:212-216 | the table in the order the sort asks for, equal keys in storage order; `SortRowsCorrect` states it is sorted and a permutation (assumed framework behaviour) |
| Repository.MovieRepository.Save | src/main/java/com/movieflix/service/MovieServiceImpl.java:63 | `save` of a new entity appends it with the next id; `save` of a stored id overwrites that row; a row breaking the constraints is refused and nothing changes; the table invariant holds after |
| Repository.MovieRepository.Delete | src/main/java/com/movieflix/service/MovieServiceImpl.java:174 | `delete` removes the row with the entity's id and keeps the invariant |
| Repository.MovieRepository.FindAll | src/main/java/com/movieflix/service/MovieServiceImpl.java:102 | `findAll` returns the table in storage order |
| Repository.SortBy | src/main/java/com/movieflix/service/MovieServiceImpl.java:212-213 | `Sort.by` succeeds exactly for a property name with text (assumed framework behaviour) |
| Repository.PageRequestOf | src/main/java/com/movieflix/service/MovieServiceImpl.java:182 | `PageRequest.of` succeeds exactly for a page index of at least 0 and a size of at least 1 (assumed framework behaviour) |
| Repository.Slice | src/main/java/com/movieflix/service/MovieServiceImpl.java:184 | page `n` of size `s` is the rows from `n*s` up to `(n+1)*s`, cut at the end of the table (assumed framework behaviour) |
| Repository.PageOf | src/main/java/com/movieflix/service/MovieServiceImpl.java:184-185 | a page holds at most `pageSize` rows and reports the whole table's size (assumed framework behaviour) |
| Repository.FindAllPage | src/main/java/com/movieflix/service/MovieServiceImpl.java:216 | a sorted query fails exactly when the sort property is not a sortable property of `Movie` (assumed framework behaviour) |
| Repository.SortRowsCorrect | src/main/java/com/movieflix/service/MovieServiceImpl.java:212-216 | the sorted query's rows are in the requested order and are a permutation of the table |
| Repository.PagesCoverTable | src/main/java/com/movieflix/service/MovieServiceImpl.java:184-206 | reading pages `0 .. totalPages-1` one after another gives back the whole table in query order |
| Repository.MovieRepository.FindAllPaged | src/main/java/com/movieflix/service/MovieServiceImpl.java:184 | `findAll(pageable)` answers the page the request selects |
| FileService.CopyInto | src/main/java/com/movieflix/service/FileServiceImpl.java:28 | `Files.copy` without `REPLACE_EXISTING` succeeds exactly when the directory exists and nothing is at the target; it then adds exactly that entry, and otherwise changes nothing |
| FileService.FileSystem.Copy | src/main/java/com/movieflix/service/FileServiceImpl.java:28 | the disk after the copy is the one `CopyInto` gives |
| FileService.FileSystem.Mkdirs | src/main/java/com/movieflix/service/FileServiceImpl.java:23-26 | `mkdirs` adds the directory and touches no file |
| FileService.FilePathInjective | src/main/java/com/movieflix/service/FileServiceImpl.java:20 | within one directory, the path of `path + separator + name` determines the name, the empty name included (it denotes the directory itself) |
| FileService.FilePath | src/main/java/com/movieflix/service/FileServiceImpl.java:20 | the path `path + File.separator + name` denotes; an empty name denotes the directory itself, as `Paths.get` drops the trailing separator |
| FileService.Upload | src/main/java/com/movieflix/service/FileServiceImpl.java:15-30 | the directory exists afterwards (created only when nothing was there); the upload fails exactly when there is no directory to copy into, the name is taken, or the name is empty (the target is then the directory itself), and then no file changes; on success exactly one entry `name -> content` is added and the original name is returned |
| FileService.UploadFile | src/main/java/com/movieflix/service/FileServiceImpl.java:15-30 | `uploadFile` on the live disk does what `Upload` states |
| FileService.WithoutFile | src/main/java/com/movieflix/service/MovieServiceImpl.java:172 | `Files.deleteIfExists` leaves the path absent, every other file and every directory as it was, and does not fail on an absent file |
| FileService.FileSystem.DeleteIfExists | src/main/java/com/movieflix/service/MovieServiceImpl.java:132 | the disk after the delete is the one `WithoutFile` gives, and the answer says whether the file was there |
| FileService.GetResourceFile | src/main/java/com/movieflix/service/FileServiceImpl.java:33-37 | `getResourceFile` fails with `FileNotFoundException` exactly when no file is at `path/fileName`, returns that file's content otherwise, and changes nothing |
| MovieService.PosterUrl | src/main/java/com/movieflix/service/MovieServiceImpl.java:65 | the URL is the base URL, then `/file/`, then the poster name, which can be read back off its end |
| MovieService.ToDto | src/main/java/com/movieflix/service/MovieServiceImpl.java:85-96 | a view carries the row's fields unchanged plus the URL derived from its poster |
| MovieService.MovieFrom | src/main/java/com/movieflix/service/MovieServiceImpl.java:53-61 | the entity built from the DTO's fields, a given id and the poster name |
| MovieService.NotFoundMessage | src/main/java/com/movieflix/service/MovieServiceImpl.java:169 | `"Không tìm thấy phim có id = " + id`; `DeleteMovieOutcome` and `GetMovie` report it for an absent id |
| MovieService.DeleteConfirmation | src/main/java/com/movieflix/service/MovieServiceImpl.java:177 | `"Đã xóa phim có id = " + id`; `DeleteConfirmationNamesId` proves the id reads back from it |
| MovieService.DirectionOf | src/main/java/com/movieflix/service/MovieServiceImpl.java:212-213 | ascending exactly for a three-character string `a/A`, `s/S/ſ`, `c/C` (Java's `equalsIgnoreCase("asc")`), descending for every other string |
| MovieService.EqualsIgnoreCase | src/main/java/com/movieflix/service/MovieServiceImpl.java:212 | `String.equalsIgnoreCase`: equal length and every position equal after upper- or lower-casing; `DirectionOf` states which strings equal `"asc"` |
| MovieService.AddMovieStep | src/main/java/com/movieflix/service/MovieServiceImpl.java:43-77 | `addMovie` as a function of the catalog: refuse a taken name, upload, insert, view; its outcomes are stated by the `MovieProperties.AddMovie*` lemmas |
| MovieService.GetMovieView | src/main/java/com/movieflix/service/MovieServiceImpl.java:80-97 | `getMovie`: not found with the id in the message, or the stored row's view; `GetMovieFindsStoredRow` states it |
| MovieService.ReplacePoster | src/main/java/com/movieflix/service/MovieServiceImpl.java:130-134 | the poster step of `updateMovie`: no file keeps the name and the disk, a file deletes the old poster and uploads; `UpdateUploadFailureLeavesDanglingRow` states its failure path |
| MovieService.UpdateMovieStep | src/main/java/com/movieflix/service/MovieServiceImpl.java:124-163 | `updateMovie` as a function of the catalog; its outcomes on every path (absent id, no file, upload failure, save refused after upload, success) are stated by the `MovieProperties.Update*` lemmas |
| MovieService.DeleteMovieStep | src/main/java/com/movieflix/service/MovieServiceImpl.java:166-178 | `deleteMovie` as a function of the catalog; `DeleteMovieOutcome` and `DeleteMovieKeepsConsistent` state its outcomes |
| MovieService.MovieServiceImpl.constructor | src/main/java/com/movieflix/service/MovieServiceImpl.java:37-40 | the service is wired with the given repository, disk, poster path and base URL |
| MovieService.MovieServiceImpl.AddMovie | src/main/java/com/movieflix/service/MovieServiceImpl.java:43-77 | the answer and the new table and disk are those of `AddMovieStep`: existence check, upload, insert with a null id, view with the derived URL; the table invariant holds after |
| MovieService.MovieServiceImpl.GetMovie | src/main/java/com/movieflix/service/MovieServiceImpl.java:80-97 | fails with `MovieNotFoundException("Không tìm thấy phim có id = " + id)` exactly when no row has the id; otherwise returns that row's view with its derived URL; changes nothing |
| MovieService.MovieServiceImpl.ToDtos | src/main/java/com/movieflix/service/MovieServiceImpl.java:104-120 | the mapping loop yields exactly one view per row, in order, each with its own URL |
| MovieService.MovieServiceImpl.GetAllMovies | src/main/java/com/movieflix/service/MovieServiceImpl.java:100-121 | one view per stored row, in repository order, each carrying its row's fields and its own URL |
| MovieService.MovieServiceImpl.UpdateMovie | src/main/java/com/movieflix/service/MovieServiceImpl.java:124-163 | the answer and the new table and disk are those of `UpdateMovieStep`: find, optional delete-then-upload, save under the same id, view of the new row |
| MovieService.MovieServiceImpl.DeleteMovie | src/main/java/com/movieflix/service/MovieServiceImpl.java:166-178 | the answer and the new table and disk are those of `DeleteMovieStep`: find, delete the poster file, delete the row, confirmation text |
| MovieService.MovieServiceImpl.GetAllMoviesWithPagination | src/main/java/com/movieflix/service/MovieServiceImpl.java:181-207 | succeeds exactly for a valid page request; echoes the page number and size; one view per row of the selected page, in order; reports the table size, page count and whether this is the last page |
| MovieService.MovieServiceImpl.GetAllMoviesWithPaginationAndSorting | src/main/java/com/movieflix/service/MovieServiceImpl.java:210-239 | as the unsorted listing, over the table sorted by the field in the direction `DirectionOf` picks; fails exactly for a blank or unknown field or an invalid page request |
| MovieProperties.AddMovieRefusesTakenName | src/main/java/com/movieflix/service/MovieServiceImpl.java:46-48 | a poster name already on disk is refused with `FileExistsException` and neither the table nor the disk changes |
| MovieProperties.AddMovieEmptyNameFails | src/main/java/com/movieflix/service/MovieServiceImpl.java:46-49 | a file with an empty name is never added: the target is the poster directory itself, so the add fails (with `FileExistsException` exactly when the directory already exists) and no row or file changes |
| MovieProperties.AddMovieSuccess | src/main/java/com/movieflix/service/MovieServiceImpl.java:49-76 | a successful add appends exactly one row with the next id, the client's fields and the uploaded name; the disk gains exactly that file; the answer's URL is `baseUrl + "/file/" + name`; looking up the new id returns the same view |
| MovieProperties.AddMovieFailure | src/main/java/com/movieflix/service/MovieServiceImpl.java:46-63 | a failed add never changes the table; no file changes either, except when the row is refused after the upload, which leaves the uploaded file with no row; the poster directory may have been created, and no other directory appears |
| MovieProperties.AddMovieKeepsConsistent | src/main/java/com/movieflix/service/MovieServiceImpl.java:43-77 | every outcome of an add keeps each row's poster file on disk and poster names distinct |
| MovieProperties.GetMovieFindsStoredRow | src/main/java/com/movieflix/service/MovieServiceImpl.java:82-96 | looking up a stored row's id returns exactly that row's view |
| MovieProperties.UpdateWithoutFile | src/main/java/com/movieflix/service/MovieServiceImpl.java:130-146 | with no file the disk is untouched and the poster name and id are kept; the client's fields replace the rest when they satisfy the constraints, otherwise nothing changes; other ids are unaffected |
| MovieProperties.UpdateWithFileSuccess | src/main/java/com/movieflix/service/MovieServiceImpl.java:131-162 | a successful update with a file removes the old poster file, adds the new one, and the row keeps its id and names the new file; every other id finds what it found before |
| MovieProperties.UpdateMovieNotFound | src/main/java/com/movieflix/service/MovieServiceImpl.java:126-127 | an absent id fails with `MovieNotFoundException` naming it, whatever file came, and nothing changes |
| MovieProperties.UpdateUploadFailureLeavesDanglingRow | src/main/java/com/movieflix/service/MovieServiceImpl.java:131-134 | when the new upload fails, the table is unchanged but the old poster file is already gone, so the row names a file that is not on disk |
| MovieProperties.UpdateWithFileSaveRefused | src/main/java/com/movieflix/service/MovieServiceImpl.java:131-152 | when the new poster uploads but the row is refused (a blank field, say), the update fails with a constraint violation, the table is unchanged, the old poster file is gone and the new one stays with no row; unless the names agree, the row names a missing file |
| MovieProperties.UpdateOntoTakenNameLosesPoster | src/main/java/com/movieflix/service/MovieServiceImpl.java:132-133 | in a consistent catalog, updating a movie with a file named like another existing file deletes the movie's poster and then fails with `FileAlreadyExistsException`, leaving the catalog inconsistent |
| MovieProperties.UpdateSuccessKeepsConsistent | src/main/java/com/movieflix/service/MovieServiceImpl.java:124-163 | a successful update, with or without a file, keeps each row's poster file on disk and poster names distinct |
| MovieProperties.DeleteMovieOutcome | src/main/java/com/movieflix/service/MovieServiceImpl.java:168-177 | an absent id fails with `MovieNotFoundException` and changes nothing; a stored id loses exactly its poster file and its row, the answer is `"Đã xóa phim có id = " + id`, and the id is not found afterwards |
| MovieProperties.DeleteMovieKeepsConsistent | src/main/java/com/movieflix/service/MovieServiceImpl.java:172-174 | deleting keeps every remaining row's poster file on disk and poster names distinct |
| MovieProperties.DeleteConfirmationNamesId | src/main/java/com/movieflix/service/MovieServiceImpl.java:177 | the confirmation is the fixed text followed by the id's decimal digits, which read back as the id |
| Common.IntToString | src/main/java/com/movieflix/service/MovieServiceImpl.java:177 | Java's `Integer.toString`, used by string concatenation: a minus sign exactly for negative numbers, then digits; `IntToStringRoundTrip` reads it back |
| Common.IntToStringRoundTrip | src/main/java/com/movieflix/service/MovieServiceImpl.java:177 | the text `Integer.toString` gives reads back as the number |
| Common.IntToStringInjective | src/main/java/com/movieflix/service/MovieServiceImpl.java:177 | distinct numbers give distinct texts |
| MovieApi.UploadedOrNone | src/main/java/com/movieflix/controllers/MovieController.java:54-56 | an empty upload becomes `null`, any other upload is passed on as it is |
| MovieApi.WithStatus | src/main/java/com/movieflix/controllers/MovieController.java:40 | a service answer wrapped with a status; an exception passes through unchanged |
| MovieApi.AddMovieHandlerStep | src/main/java/com/movieflix/controllers/MovieController.java:34-41 | `addMovieHandler` as a function of the catalog; `AddMovieHandlerGuard` states its outcomes |
| MovieApi.AddMovieHandlerGuard | src/main/java/com/movieflix/controllers/MovieController.java:36-40 | an empty file fails with `EmptyFileException` before the service runs, so nothing changes; any other file gets the service's result with 201 CREATED |
| MovieApi.UpdateMovieHandlerEmptyFileKeepsPoster | src/main/java/com/movieflix/controllers/MovieController.java:54-58 | with an empty file the update leaves the disk alone and the stored row keeps its poster |
| MovieApi.MovieController.constructor | src/main/java/com/movieflix/controllers/MovieController.java:28-30 | the controller is wired with the given service |
| MovieApi.MovieController.AddMovieHandler | src/main/java/com/movieflix/controllers/MovieController.java:34-41 | the answer and the new state are those of the guard followed by `addMovie` with status 201 |
| MovieApi.MovieController.GetMovieHandler | src/main/java/com/movieflix/controllers/MovieController.java:42-45 | the service's lookup with status 200 |
| MovieApi.MovieController.GetAllMovieHandler | src/main/java/com/movieflix/controllers/MovieController.java:46-49 | status 200 and one view per stored row, in order, each the row's fields plus its derived poster URL |
| MovieApi.MovieController.UpdateMovieHandler | src/main/java/com/movieflix/controllers/MovieController.java:50-59 | `updateMovie` runs with the same id and DTO and with the file or, when it is empty, none; its answer comes back with 200 |
| MovieApi.MovieController.DeleteMovieHandler | src/main/java/com/movieflix/controllers/MovieController.java:60-63 | the service's confirmation string, unchanged, with 200 |
| MovieApi.MovieController.GetMoviesWithPagination | src/main/java/com/movieflix/controllers/MovieController.java:69-75 | succeeds exactly for a valid page request; status 200, the page number and size echoed, one view per row of the selected page in order, the table size, the page count and whether this is the last page |
| MovieApi.MovieController.GetMoviesWithPaginationAndSorting | src/main/java/com/movieflix/controllers/MovieController.java:76-84 | succeeds exactly for a valid page request and sort field; status 200, the page number and size echoed, one view per row of the selected page of the sorted table in order, the table size, the page count and whether this is the last page |
| PasswordReset.OtpMailText | src/main/java/com/movieflix/controllers/ForgotPasswordController.java:49 | the mail text is the fixed sentence followed by the code's decimal digits |
| PasswordReset.Matching | src/main/java/com/movieflix/controllers/ForgotPasswordController.java:68 | the records found are exactly those with this code for this user |
| PasswordReset.WithoutFpid | src/main/java/com/movieflix/controllers/ForgotPasswordController.java:71 | `deleteById` keeps exactly the records with another key |
| PasswordReset.WithPassword | src/main/java/com/movieflix/controllers/ForgotPasswordController.java:83 | `updatePassword(email, hash)` on the user table; `ChangePasswordOutcome` states that only that address's hash changes |
| PasswordReset.VerifyMailStep | src/main/java/com/movieflix/controllers/ForgotPasswordController.java:40-61 | `verifyMail` as a function of the ledger for a drawn code and the clock; `VerifyMailOutcome` and `VerifyMailKeepsInvariant` state its outcomes |
| PasswordReset.VerifyOtpStep | src/main/java/com/movieflix/controllers/ForgotPasswordController.java:62-75 | `verifyOtp` as a function of the ledger and the clock; `VerifyOtpOutcome` and the lifecycle lemmas state its outcomes |
| PasswordReset.ChangePasswordStep | src/main/java/com/movieflix/controllers/ForgotPasswordController.java:76-86 | `changePasswordHandler` as a function of the ledger; `ChangePasswordOutcome` and `ChangePasswordIgnoresLedger` state its outcomes |
| PasswordReset.ForgotPasswordController.constructor | src/main/java/com/movieflix/controllers/ForgotPasswordController.java:33-38 | the controller is wired with the given user repository, mail service, code repository and password encoder |
| PasswordReset.UserRepository.FindByEmail | src/main/java/com/movieflix/controllers/ForgotPasswordController.java:43-44 | a user is found exactly when one is filed under the address |
| PasswordReset.UserRepository.UpdatePassword | src/main/java/com/movieflix/controllers/ForgotPasswordController.java:83 | the hash of the user with that address is replaced; an unknown address changes nothing |
| PasswordReset.ForgotPasswordRepository.Save | src/main/java/com/movieflix/controllers/ForgotPasswordController.java:53-59 | the new record gets the next key and is appended after all earlier records |
| PasswordReset.ForgotPasswordRepository.FindByOtpAndUser | src/main/java/com/movieflix/controllers/ForgotPasswordController.java:68-69 | nothing found when no record matches, the record when one matches, an error when several match |
| PasswordReset.ForgotPasswordRepository.DeleteById | src/main/java/com/movieflix/controllers/ForgotPasswordController.java:71 | the records become those without the key |
| PasswordReset.EmailService.SendSimpleMail | src/main/java/com/movieflix/controllers/ForgotPasswordController.java:58 | the mail is appended to what was sent |
| PasswordReset.ForgotPasswordController.OtpGenerator | src/main/java/com/movieflix/controllers/ForgotPasswordController.java:87-90 | every code is in `[100000, 999999)` |
| PasswordReset.ForgotPasswordController.VerifyMail | src/main/java/com/movieflix/controllers/ForgotPasswordController.java:40-61 | for some code in range, the answer and the new ledger are those of `VerifyMailStep` at `now` |
| PasswordReset.ForgotPasswordController.VerifyOtp | src/main/java/com/movieflix/controllers/ForgotPasswordController.java:62-75 | the answer and the new ledger are those of `VerifyOtpStep` at `now` |
| PasswordReset.ForgotPasswordController.ChangePasswordHandler | src/main/java/com/movieflix/controllers/ForgotPasswordController.java:76-86 | the answer and the new user table are those of `ChangePasswordStep` with the configured encoder |
| PasswordResetProperties.VerifyMailOutcome | src/main/java/com/movieflix/controllers/ForgotPasswordController.java:43-60 | an unknown address fails with `UsernameNotFoundException` and nothing is recorded or sent; a known one appends exactly one record (code, user, `now + 70000`) after the earlier ones and sends exactly one mail to that address with the fixed subject and the text ending in the code |
| PasswordResetProperties.OtpMailCarriesOtp | src/main/java/com/movieflix/controllers/ForgotPasswordController.java:46-49 | the mail text ends with exactly six digits that read back as the code |
| PasswordResetProperties.VerifyMailKeepsInvariant | src/main/java/com/movieflix/controllers/ForgotPasswordController.java:53-59 | record keys stay distinct and below the next key after a mail |
| PasswordResetProperties.VerifyOtpOutcome | src/main/java/com/movieflix/controllers/ForgotPasswordController.java:65-74 | unknown address, no matching record or several matching records fail and change nothing; an expired match is the only record removed, with 417; a live match answers 200 and changes nothing; users and mail are never touched |
| PasswordResetProperties.VerifyOtpKeepsInvariant | src/main/java/com/movieflix/controllers/ForgotPasswordController.java:70-72 | record keys stay distinct and below the next key after a check |
| PasswordResetProperties.LiveOtpVerifiesAgain | src/main/java/com/movieflix/controllers/ForgotPasswordController.java:74 | a code that verified changes nothing and verifies again at every later time up to and including its expiry |
| PasswordResetProperties.ExpiredOtpThenInvalid | src/main/java/com/movieflix/controllers/ForgotPasswordController.java:68-72 | once a code is reported expired, every later check of it fails with "OTP không hợp lệ " |
| PasswordResetProperties.OtpLifecycle | src/main/java/com/movieflix/controllers/ForgotPasswordController.java:53-74 | a fresh code mailed at `t` verifies with 200 and no change up to `t + 70000` inclusive; after that it is reported expired and the records return to what they were before the mail |
| PasswordResetProperties.DuplicateOtpBlocksVerification | src/main/java/com/movieflix/controllers/ForgotPasswordController.java:68-69 | two mails drawing the same code for the same user make every later check of that code fail, since the lookup finds two records |
| PasswordResetProperties.ChangePasswordOutcome | src/main/java/com/movieflix/controllers/ForgotPasswordController.java:79-85 | different passwords answer 417 and change nothing; equal ones answer 200 and set that address's hash to `encode(password)`, leave every other user alone, and never touch the codes or the mail |
| PasswordResetProperties.ChangePasswordIgnoresLedger | src/main/java/com/movieflix/controllers/ForgotPasswordController.java:76-86 | the answer and the new user table depend only on the user table, so no code is needed to change a password |
| PasswordResetProperties.ChangePasswordKeepsInvariant | src/main/java/com/movieflix/controllers/ForgotPasswordController.java:82-83 | changing a password keeps users filed under their own address and the record keys intact |

## Left out

- Spring wiring, dependency injection, `@PreAuthorize` and `@Value`. The poster path and base URL are constructor parameters.
- JSON parsing of the DTO (`convertToMovieDto`). The handlers take the parsed `MovieDto`. A parse failure is not modelled.
- Spring Data's paging, sorting and persistence are framework code, not movieflix's own. `Repository` states them as a model: storage order, identity ids from 1, refusal of rows that break the entity constraints, lexicographic string order, nulls first, page arithmetic and the set of sortable properties.
- `Repository.FindAllPage`: Spring Data resolves a sort property after lower-casing its first letter, so `Title` sorts by title in the program. The model accepts only the property names exactly as declared.
- Database collation, locale-dependent string order and the null ordering of the real database.
- `MovieService.DirectionOf`: the case mapping covers ASCII letters and U+017F only, which is exact for comparisons with `"asc"`.
- `MovieService.EqualsIgnoreCase`: not general Java case folding. It is exact only against `"asc"`, its only caller's argument.
- The DTO setter calls (`movieDto.setPoster`) change the caller's object. The model passes the poster name along instead.
- Mail delivery. Sent mail is recorded in an outbox and nothing more.
- `PasswordEncoder.encode` is any function given at construction. BCrypt salting, which makes it non-deterministic, is not modelled.
- `java.util.Random` is a choice of any value in range. The wall clock is the `now` parameter in milliseconds.
- File content is a byte sequence. Streams, partial writes and I/O errors other than a missing directory, a taken name or a missing file are not modelled.
- `mkdirs` records only the directory itself, not its ancestors. `deleteIfExists` on a directory and file names containing separators are not modelled.
- `FileService.FilePath`: of the normalisation `Paths.get` and `java.io.File` apply, only the dropped trailing separator of an empty name is modelled. Repeated separators, a poster path ending in a separator, and `.` or `..` segments are not normalised.
- Concurrent requests. Every operation runs alone, so the check-then-act race in `addMovie` and the unlocked ledger appends are not modelled.
- Java `null`: strings, ids and page arguments are never null here. A `null` release year is `None` and is refused by the store.
- 32-bit integer widths of ids, years, codes and page numbers. Integers are unbounded.
- The `ForgotPassword` and `User` entities are not part of this model. Several records per user are allowed, and `findByOtpAndUser` fails when two match.
- `FileService.GetResourceFile` returns the content instead of an open stream.
- `MovieService.java` holds only the interface of `MovieServiceImpl`. `RegisterRequest.java` is a plain DTO.
- The controller's default page arguments (`AppConstants`) are not part of this model. The handlers take the arguments as given.
