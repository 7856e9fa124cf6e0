# AquiTemODS back end — a Dafny model

AquiTemODS is the back end of a catalogue of local sustainability projects, each tagged with one of
the UN Sustainable Development Goals (ODS). This project models its core:

- **Project moderation.** A submitted project waits in PENDENTE_APROVACAO. Public requests can
  move it to PENDENTE_ATUALIZACAO, which carries a change envelope, or to PENDENTE_EXCLUSAO. An
  administrator approves or rejects each request. Only ATIVO projects are public.
- **Threaded reviews.** A root review carries a rating; replies answer a root review.
- **Upload paths and data URLs.** Uploaded files are placed in sanitised directories, and base64
  data URLs are parsed into images.
- **User accounts.** Registration, login gating, account and email confirmation, password reset,
  profile and password updates, and deletion.
- **Card catalogues.** Two catalogues of cards with an image each: the newsletter "SustentAí"
  boxes and the courses. Their directories are named by a slug of the title.
- **Legacy establishment service.** An older registration that checks a CNPJ (a Brazilian
  company number) before creating a project.

Every table is a finite map from an auto-incremented id to an immutable record (`Tables`). The
uploads area is a set of path strings (`FileSystem`). A request is a pure function from the state
to a new state and a reply. A database transaction is one all-or-nothing step.

Modules and files:

| file | module | models |
|---|---|---|
| wrappers.dfy | Wrappers | Option, Result, an HTTP reply, JavaScript truthiness of an optional string |
| json.dfy | Json | JSON request bodies and column values |
| text.dfy | Text | case mapping, `indexOf`/`includes`, `replace` with a string pattern, decimal rendering |
| tables.dfy | Tables | id-keyed tables: insert, update, delete, `findOne`, ordered `findAll` |
| file_system.dfy | FileSystem | paths, unlink (best effort), recursive remove, rename, move |
| slug.dfy | Slug | `toSlug` of the two card controllers |
| upload_paths.dfy | UploadPaths | `sanitize` and file relocation in the project controller |
| file_storage.dfy | FileStorage | `saveBase64` and `save` |
| project_entity.dfy | ProjectEntity | the status enum, the columns and their length bounds, defaults |
| project_service.dfy | ProjectService | creation, update/deletion requests, visibility, the public queries |
| project_controller.dfy | ProjectController | the HTTP handlers for projects: guards, error mapping, file cleanup |
| admin.dfy | Admin | approval and rejection of requests |
| lifecycle.dfy | Lifecycle | every project-changing request of the project service, the admin and the establishment service, the invariant they keep, traces |
| reviews.dfy | Reviews | submission, edit, removal and listing of reviews |
| accounts.dfy | Accounts | the user account lifecycle |
| cards.dfy | Cards | both card catalogues |
| legacy_establishments.dfy | LegacyEstablishments | the CNPJ-checked registration and the by-CNPJ requests |

Parameters stand in for what the code gets from outside:

- Hashes, tokens, uuids and `Date.now()` values are arguments.
- The password check and the profanity and emoji filters are function parameters.
- The CNPJ lookup arrives as a `Result` record.
- `fails` is the set of paths whose best-effort unlink fails.

## Model

| member | source | states |
|---|---|---|
| ProjectEntity.StatusEnum | src/entities/Projeto.entity.ts:4-10 | the status enum has exactly five values, and each stored name reads back as its own status |
| ProjectEntity.StatusNamesReadBack | src/entities/Projeto.entity.ts:90-94 | the status column reads back only the five enum names, each to the status that stores it |
| ProjectEntity.NewProject | src/entities/Projeto.entity.ts:86-94 | a new row keeps every given column, adds `ativo` false, and starts in PENDENTE_APROVACAO with no envelope |
| ProjectService.ImagesOfRowsFor | src/services/ProjetoService.ts:46-52 | a bulk insert gives its project exactly the given URLs, in order, and no other project any |
| ProjectService.WithoutImagesOfSpec | src/controllers/AdminController.ts:134-137 | destroying a project's image rows leaves it none and every other project its own, in order |
| ProjectService.ImagesOfAppend | src/controllers/AdminController.ts:113-147 | appending rows appends each project's URL list |
| ProjectService.CreationColumns | src/services/ProjetoService.ts:26-39 | each submitted key that is a declared column is copied; `logo` is stored as `logoUrl`; no undeclared column and no `ativo` is set |
| ProjectService.Create | src/services/ProjetoService.ts:12-60 | it fails with the duplicate-email message exactly when another project has the contact email; past that check an over-long column fails, then a non-empty string `imagens`, and otherwise it succeeds; a failure stores nothing; on success a new PENDENTE_APROVACAO row exists with `ativo` false |
| ProjectService.CreateImages | src/services/ProjetoService.ts:46-52 | a created project's images are exactly the submitted `imagens`, in order (none when absent), and other projects' images are unchanged |
| ProjectService.RequestUpdate | src/services/ProjetoService.ts:62-77 | an unknown id fails with "Projeto não encontrado." and changes nothing; otherwise, from any status, the payload becomes the envelope, the status PENDENTE_ATUALIZACAO, and no column changes |
| ProjectService.RequestDeletion | src/services/ProjetoService.ts:79-88 | an unknown id fails and changes nothing; otherwise the status becomes PENDENTE_EXCLUSAO and the envelope and columns stay as they were |
| ProjectService.SetVisible | src/services/ProjetoService.ts:144-155 | an unknown id fails; otherwise only the `ativo` column changes and the status never does |
| ProjectService.ListActive | src/services/ProjetoService.ts:90-103 | an id is listed exactly when its project is ATIVO, whatever its `ativo` flag |
| ProjectService.SearchByName | src/services/ProjetoService.ts:105-121 | an id is listed exactly when its project is ATIVO and its name contains the text |
| ProjectService.FindActive | src/services/ProjetoService.ts:123-142 | a project is found exactly when it exists and is ATIVO, and then it is that row |
| ProjectService.ListPending | src/services/ProjetoService.ts:157-187 | each group holds exactly the projects of its pending status |
| ProjectService.PendingGroupsPartition | src/controllers/AdminController.ts:32-60 | the three groups are pairwise disjoint, and a project is in one of them exactly when it is pending |
| UploadPaths.SanitizeChars | src/controllers/ProjetoController.ts:50-51 | the sanitised name has the input's length, uses only [a-z0-9_], keeps lowered alphanumerics and turns every other character into '_' |
| UploadPaths.SanitizeIdempotent | src/controllers/ProjetoController.ts:50-51 | sanitising a sanitised name changes nothing |
| UploadPaths.TargetFor | src/controllers/ProjetoController.ts:46-56 | the existing project's ods and name win over the form's; an empty value falls back to `geral` / `projeto_sem_nome`; the result is sanitised |
| UploadPaths.ExistingInfoDecides | src/controllers/ProjetoController.ts:46-48 | with an existing project, the form cannot change where files go |
| UploadPaths.StoredPathShape | src/controllers/ProjetoController.ts:55-67 | a stored path is `uploads/{ods}/{name}/{filename}` and lies in the target directory |
| UploadPaths.MoveAll | src/controllers/ProjetoController.ts:58-68 | the i-th returned path is the i-th upload's path in the target directory; each moved file is there afterwards; files not moved are untouched and nothing else appears |
| UploadPaths.Prepare | src/controllers/ProjetoController.ts:37-85 | `logo` is replaced only when a logo was uploaded and `imagens` only when an image was, in upload order; every other form key is carried over unchanged |
| UploadPaths.MovedUploadsPresent | src/controllers/ProjetoController.ts:56-78 | when no temporary path lies in the target directory, moving the first logo and then the images leaves the directory and every moved file present |
| ProjectController.HandleError | src/controllers/ProjetoController.ts:25-35 | a message with "já cadastrado" is a 400 (checked first), one with "não encontrado" a 404, anything else a generic 500 |
| ProjectController.DuplicateIs400 | src/controllers/ProjetoController.ts:25-35 | the service's duplicate-email error reaches the client as a 400 with its message |
| ProjectController.NotFoundIs404 | src/controllers/ProjetoController.ts:25-35 | the service's not-found error reaches the client as a 404 with its message |
| ProjectController.StorageErrorsAre500 | src/controllers/ProjetoController.ts:25-35 | an over-long value or a string `imagens` is reported only as a generic 500 |
| ProjectController.DeleteTemps | src/controllers/ProjetoController.ts:8-23 | every uploaded temporary file whose unlink does not fail is gone, and nothing else is removed |
| ProjectController.Cadastrar | src/controllers/ProjetoController.ts:87-99 | files are moved and the prepared data handed to the service; success is a 201 and the new row is the one the service creates; a failure is mapped by the error handler and the database is unchanged |
| ProjectController.CreationFails | src/services/ProjetoService.ts:16-22 | a contact email another project already has makes the submission fail with the duplicate-email message, whatever files come with it |
| ProjectController.CadastrarLeavesMovedFiles | src/controllers/ProjetoController.ts:87-99 | when the submission fails on a taken contact email, every image already moved into the project directory is still there afterwards |
| ProjectController.CadastrarCleaningLeavesNothing | src/controllers/ProjetoController.ts:87-99 | with the corrected cleanup, a failed submission leaves none of its files at the temporary or the moved path, except those whose unlink fails |
| ProjectController.SolicitarAtualizacao | src/controllers/ProjetoController.ts:101-141 | a zero or NaN id is a 400 and nothing changes; an unknown project is a 404 after the uploads are deleted, with the database unchanged; otherwise the envelope is stored with the moved files' URLs |
| ProjectController.SolicitarExclusao | src/controllers/ProjetoController.ts:143-161 | a zero or NaN id is a 400, an unknown project a 404, both with nothing changed; otherwise the deletion request is recorded |
| ProjectController.StoredIdsPassGuard | src/controllers/ProjetoController.ts:101-161 | ids start at 1, so the `!id` guard of both requests lets every stored project through and each gets its 200 |
| ProjectController.BuscarPorId | src/controllers/ProjetoController.ts:188-228 | a 200 with the project exactly when it exists and is ATIVO; a NaN id reaches the query and is a generic 500; any other miss is a 404 with no project |
| ProjectController.BuscarPorNome | src/controllers/ProjetoController.ts:175-186 | the ATIVO projects whose name contains the query; a missing query searches for the text "undefined" |
| ProjectController.AlterarStatus | src/controllers/ProjetoController.ts:230-251 | a non-boolean `ativo` is a 400 and changes nothing; a NaN id reaches `findByPk` and is a generic 500; an unknown id is a 404; both change nothing; otherwise only the visibility changes |
| Admin.Merge | src/controllers/AdminController.ts:149-152 | every declared column in the values is written, every other column keeps its value, and no undeclared key is added |
| Admin.Approve | src/controllers/AdminController.ts:62-180 | unknown id: 404 and nothing changes; PENDENTE_APROVACAO becomes ATIVO with `ativo` true; PENDENTE_ATUALIZACAO becomes ATIVO with the envelope merged (or, with no envelope, just cleared), or rolls back with a 500; with an envelope, the old logo file (for a truthy `logo`) and the old image files (for an `imagens` array) are unlinked unless the unlink fails, even on the rollback, and without an `imagens` array the image table is untouched; PENDENTE_EXCLUSAO is destroyed; ATIVO and REJEITADO are left unchanged and still reported as approved |
| Admin.ApproveReplacesImages | src/controllers/AdminController.ts:113-147 | an approved envelope with an `imagens` array makes the project's images exactly those URLs in order, a full replacement; other projects keep theirs |
| Admin.ApproveReplacesLogo | src/controllers/AdminController.ts:91-111 | an approved envelope with a truthy `logo` sets `logoUrl` to it, whether or not the old file could be unlinked |
| Admin.RollbackKeepsStaleImages | src/controllers/AdminController.ts:113-179 | when the row update of an approved image envelope fails, the image rows roll back to the old URLs while their files are already unlinked, so the project is left pointing at missing files |
| Admin.ApproveCopiesEnvelope | src/controllers/AdminController.ts:84-152 | every declared column in the envelope is copied onto the project verbatim; there is no allow-list |
| Admin.Reject | src/controllers/AdminController.ts:182-222 | unknown id: 404 and nothing changes; PENDENTE_APROVACAO has its logo and image files unlinked (best effort) and its row destroyed; any other status, ATIVO included, becomes ATIVO with the envelope cleared and nothing else changed |
| Lifecycle.CreateKeepsInv | src/services/ProjetoService.ts:12-60 | creation keeps the store invariant: no REJEITADO, values fit their columns, and the envelope is present exactly as the status requires |
| Lifecycle.ApproveKeepsInv | src/controllers/AdminController.ts:62-180 | approval keeps the store invariant |
| Lifecycle.RegisterKeepsInv | src/services/EstabelecimentoService.ts:58-114 | the establishment service's registration keeps the store invariant: the new row is pending with no envelope and its values fit their columns |
| Lifecycle.StepKeepsInv | src/controllers/AdminController.ts:62-222 | every project-changing request keeps the store invariant: creation, update and deletion requests by id, approval, rejection, the status toggle, and the establishment service's registration and requests by CNPJ |
| Lifecycle.RunKeepsInv | src/controllers/AdminController.ts:62-222 | every sequence of those requests keeps the store invariant |
| Lifecycle.NeverRejected | src/entities/Projeto.entity.ts:4-10 | from an empty store no sequence of requests ever produces a REJEITADO project |
| Lifecycle.SubmitThenApprove | src/controllers/AdminController.ts:78-82 | an approved submission is ATIVO, visible and publicly listed |
| Lifecycle.UnapprovedBecomesListed | src/controllers/AdminController.ts:206-211 | a submission that was never approved becomes public once its deletion request is rejected, while its `ativo` flag stays false |
| Lifecycle.UpdateThenApprove | src/controllers/AdminController.ts:84-158 | approving an update request gives a 200 and applies exactly the requested text and image list |
| Lifecycle.ApproveTextAndImages | src/controllers/AdminController.ts:84-158 | a pending update carrying a description and an image array is approved with a 200, sets the project ATIVO with that description, and leaves exactly those images |
| Lifecycle.FitsWithAtivo | src/entities/Projeto.entity.ts:86-89 | setting the boolean `ativo` never breaks a length bound |
| Reviews.Stored | src/services/AvaliacaoService.ts:64-71 | a rating is stored exactly when one was given, as that value; absent and null become NULL |
| Reviews.Submit | src/services/AvaliacaoService.ts:6-72 | the checks run in order, each with its own message (project id, profanity, emoji, project, parent, reply to a reply, rating range, one root review per user and project); a failure stores nothing; a reply answers an existing root review and is stored unrated; a root review is stored with its rating |
| Reviews.SubmitAcceptsAdmissible | src/services/AvaliacaoService.ts:6-72 | a submission is stored exactly when every check lets it through |
| Reviews.NotFoundIsItsOwnMessage | src/services/AvaliacaoService.ts:74-116 | the review-not-found message is none of the other messages an edit or a removal can give |
| Reviews.Update | src/services/AvaliacaoService.ts:74-105 | an unknown id and a non-author fail and change nothing; for the author, a profane comment fails, then a truthy rating out of range, and otherwise the edit succeeds; a success changes only the comment and rating of that review, keeping each absent field |
| Reviews.Remove | src/services/AvaliacaoService.ts:107-116 | an unknown id fails; the review is removed exactly when the user is its author, and no other review is |
| Reviews.Detach | src/services/AuthService.ts:222-223 | every review of the user loses its author and nothing else changes; no review is removed |
| Reviews.RepliesOf | src/entities/Avaliacao.entity.ts:61-70 | the replies of a review are exactly the reviews naming it as parent, in ascending id order |
| Reviews.ListForProject | src/services/AvaliacaoService.ts:118-163 | exactly the project's root reviews, by descending id, each with its replies |
| Reviews.SubmitKeepsThreaded | src/services/AvaliacaoService.ts:34-61 | a submission keeps threads one level deep and one root review per user and project |
| Reviews.UpdateKeepsThreaded | src/services/AvaliacaoService.ts:74-105 | an edit keeps the threading invariant |
| Reviews.RemoveKeepsThreaded | src/services/AvaliacaoService.ts:107-116 | a removal keeps the threading invariant |
| Reviews.DetachKeepsThreaded | src/services/AuthService.ts:222-223 | detaching a deleted user's reviews keeps the threading invariant |
| Reviews.SubmitStoresUnratedRoot | src/services/AvaliacaoService.ts:46-48 | a root review sent without a rating passes the range check and is stored unrated |
| Reviews.UpdateStoresZeroRating | src/services/AvaliacaoService.ts:94-102 | an edit with rating 0 passes the truthiness guard and stores 0 |
| Reviews.UpdateRatesReply | src/services/AvaliacaoService.ts:94-102 | an edit can give a reply a rating |
| Reviews.SubmitRated | src/services/AvaliacaoService.ts:42-48 | a root review without a rating is refused with the range message; every other submission behaves as the original |
| Reviews.UpdateRated | src/services/AvaliacaoService.ts:94-102 | a successful edit is the original's, and a rating it stores is in 1..5 on a root review |
| Reviews.SubmitRatedKeepsRatingsSound | src/services/AvaliacaoService.ts:26-66 | with the corrected submission every root review stays rated 1 to 5 and no reply is rated |
| Reviews.UpdateRatedKeepsRatingsSound | src/services/AvaliacaoService.ts:94-102 | with the corrected edit every root review stays rated 1 to 5 and no reply is rated |
| Reviews.RemoveKeepsRatingsSound | src/services/AvaliacaoService.ts:107-116 | a removal keeps the ratings sound |
| Reviews.DetachKeepsRatingsSound | src/services/AuthService.ts:222-223 | detaching keeps the ratings sound |
| Accounts.Safe | src/services/AuthService.ts:60-61 | the returned user keeps the username, email and enabled flag |
| Accounts.SafeHidesPassword | src/services/AuthService.ts:92-93 | the returned user does not depend on the password hash |
| Accounts.Register | src/services/AuthService.ts:15-62 | a profane or emoji username fails; a username held by an enabled user fails; past those checks it succeeds exactly when the email's first holder is absent or disabled; that holder is deleted first; the new user is disabled with the fresh token; a failure changes nothing |
| Accounts.Enroll | src/services/AuthService.ts:32-61 | an enabled first holder of the email refuses the registration, and otherwise it succeeds: a disabled holder is deleted and the new user inserted disabled with its token |
| Accounts.RegisterRespectsEnabledEmail | src/services/AuthService.ts:32-41 | when emails are unique, a registration never succeeds over an enabled holder of its email |
| Accounts.Login | src/services/AuthService.ts:64-94 | an unknown name fails with the generic message; the first account with that username or email decides: unverified fails with its own message, a wrong password with the generic one, and a matching password succeeds with that user |
| Accounts.LoginChecksVerificationFirst | src/services/AuthService.ts:75-84 | an unverified account is refused whatever the password |
| Accounts.ConfirmAccount | src/services/AuthService.ts:96-108 | it fails exactly when no user holds the token, changing nothing; otherwise that user is enabled and the token cleared |
| Accounts.ConfirmEmailChange | src/services/AuthService.ts:110-125 | a success copies the staged address of the token's holder into the email and clears both pending fields; an unknown token fails and changes nothing |
| Accounts.ForgotPassword | src/services/AuthService.ts:127-140 | an unknown email changes nothing; otherwise a holder of it gets the token with expiry now plus one hour |
| Accounts.ResetPassword | src/services/AuthService.ts:142-160 | it fails exactly when no user holds the token unexpired; otherwise that user gets the new hash and loses the token and expiry |
| Accounts.ForgotThenReset | src/services/AuthService.ts:127-160 | a freshly sent token resets the password exactly when used within the hour, and only once |
| Accounts.UpdateProfileWith | src/services/AuthService.ts:162-197 | an unknown user fails; a new username fails if profane, then if taken; a changed email fails if taken; otherwise it succeeds and replies with the saved row itself, password hash included; a new email is only staged with a token while the email stays; name and username are copied when given, and no other field (password, verification, confirmation and reset tokens) changes; a failure changes nothing |
| Accounts.ProfileReplyCarriesHash | src/services/AuthService.ts:196 | a successful profile update replies with the user's stored password hash |
| Accounts.UpdateProfileSafe | src/services/AuthService.ts:60-61 | the corrected update: the same table and outcome as the update, but a success replies with the saved user stripped of the password, as registration and login do |
| Accounts.UpdateProfileSafeHidesPassword | src/services/AuthService.ts:92-93 | the corrected reply is the same whatever the stored password hash is |
| Accounts.ResubmittedEmailRejected | src/services/AuthService.ts:182-188 | resubmitting one's own email that holds an upper-case letter fails as already in use |
| Accounts.OwnEmailAccepted | src/services/AuthService.ts:182-188 | with both sides lower-cased, resubmitting one's own email in any case succeeds and stages nothing |
| Accounts.StageThenConfirm | src/services/AuthService.ts:110-125 | a staged email change is completed by its token: the staged address becomes the email |
| Accounts.UpdatePassword | src/services/AuthService.ts:199-216 | an unknown user fails; it succeeds exactly when the current password matches, and then only the hash changes |
| Accounts.DeleteUser | src/services/AuthService.ts:218-226 | an unknown user fails and changes nothing; otherwise the user is removed and their reviews are detached, not deleted: each of them loses only its author, and every other review is untouched |
| Accounts.RegisterKeepsConsistent | src/services/AuthService.ts:43-61 | registration keeps every account consistent: an enabled account has no confirmation token, and each pending token comes with its data |
| Accounts.ConfirmationsKeepConsistent | src/services/AuthService.ts:96-125 | both confirmations keep every account consistent |
| Accounts.ResetKeepsConsistent | src/services/AuthService.ts:127-160 | the reset request and the reset keep every account consistent |
| Accounts.ProfileKeepsConsistent | src/services/AuthService.ts:162-197 | a profile edit keeps every account consistent |
| Slug.StripMarks | src/controllers/SustentAiController.ts:15 | no combining mark is left, nothing new appears, and a text without marks is unchanged |
| Slug.Hyphenate | src/controllers/SustentAiController.ts:16 | every character outside [a-z0-9] becomes '-', position by position |
| Text.SqueezeNoRun | src/controllers/SustentAiController.ts:17 | after collapsing runs of a character, no two of it are adjacent |
| Text.SqueezeFixes | src/controllers/SustentAiController.ts:17 | a text without a run is unchanged by the collapse |
| Text.SqueezeChars | src/controllers/SustentAiController.ts:17 | the collapse introduces no character the input lacks |
| Slug.TrimHyphens | src/controllers/SustentAiController.ts:18 | no '-' is left at either end, and a text without one is unchanged |
| Slug.ToSlugIsSlug | src/controllers/SustentAiController.ts:11-19 | a slug uses only [a-z0-9-], with no leading, trailing or repeated '-' |
| Slug.SlugShapeIsFixed | src/controllers/CursoController.ts:6-14 | a text that already has the slug shape is its own slug |
| Slug.ToSlugIdempotent | src/controllers/CursoController.ts:6-14 | the slug of a slug is itself |
| FileStorage.ParseRender | src/utils/FileStorageService.ts:23-25 | every well-formed data URL is accepted and parses back to its own extension and payload |
| FileStorage.RenderParse | src/utils/FileStorageService.ts:23-25 | every accepted string is exactly the rendering of the well-formed parts it yields |
| FileStorage.SaveBase64 | src/utils/FileStorageService.ts:16-38 | a missing or blank input gives no URL and writes nothing; a malformed one fails; a well-formed one is written as `uploads/{name}.{ext}` and its URL returned |
| FileStorage.SavedExtension | src/utils/FileStorageService.ts:30-37 | the stored extension is exactly the letters after `image/` |
| FileStorage.Save | src/utils/FileStorageService.ts:40-44 | the uploads directory is made and nothing else is written; the URL is exactly `/uploads/` followed by the file name |
| Text.ReplaceFirst | src/controllers/CursoController.ts:109 | with a string pattern only the first occurrence is replaced; without one the text is unchanged |
| FileSystem.Resolve | src/controllers/SustentAiController.ts:132-135 | a resolved path has no empty segment and no trailing '/', and a path already in that form is unchanged |
| FileSystem.ResolveNested | src/controllers/SustentAiController.ts:35-40 | resolving `top/slug/name` drops the empty segment of an empty slug and is otherwise the path itself |
| Cards.Dir | src/controllers/SustentAiController.ts:35-40 | a card's directory is `uploads/{folder}/{slug}`, and the catalogue folder itself for an empty slug |
| Cards.UrlNamesFile | src/controllers/SustentAiController.ts:47-52 | a stored URL, with its leading '/' removed and resolved, names the file in its card's directory, also when an empty slug leaves "//" in the URL |
| Cards.RewriteUrl | src/controllers/SustentAiController.ts:110-113 | replacing the old slug segment in a card URL gives the URL under the new slug |
| Cards.RenameCarriesFile | src/controllers/SustentAiController.ts:104-107 | renaming a card directory carries each file to the same name under the new slug |
| Cards.Create | src/controllers/CursoController.ts:44-87 | no file, or a missing title or link, is a 400 and nothing changes; a title, link or image URL longer than its VARCHAR(255) column is a 500, and a taken title a 400, both with the card table unchanged and the moved file left in the directory; otherwise a 201 and a new card under `/uploads/{folder}/{slug}/{now}-{name}`, with the file moved there and the temporary path gone; in every case no other file is lost and only the card's directories and file appear |
| Cards.CourseReplyOverridesAtivo | src/controllers/CursoController.ts:70-76 | with the `ativo` column the controller assumes, a course created with `ativo` "false" is stored inactive while the reply says it is active |
| Cards.RenameDir | src/controllers/CursoController.ts:104-108 | the directory is renamed only when the old one exists and the new one does not; it throws exactly when the new one would lie inside the old one |
| Cards.NestedOnlyUnderEmpty | src/controllers/SustentAiController.ts:91-107 | of two different slugs' directories, one lies inside the other exactly when the outer slug is empty |
| Cards.PlaceImage | src/controllers/SustentAiController.ts:117-141 | a new image is in place after the directory is made, the old image (if any) unlinked and the upload moved; the upload's temporary path and the old image are gone unless they are the new path, and nothing else is lost or added but the directories |
| Cards.Update | src/controllers/SustentAiController.ts:77-156 | unknown id: 404; a rename into the old directory's own subtree, a taken title, or an edited title, link or URL longer than its VARCHAR(255) column is a 500 that leaves the table unchanged, the first with only the temporary upload removed, the others after the rename, unlink and move have happened; otherwise a 200 where falsy inputs keep the old title and link, the URL follows the title, and a new image is in place and named by the URL while the file the stored URL names is gone; after the rename, no file but the upload and that stored image is lost, and only the card's directories and the new image appear |
| Cards.CreateKeepsFit | src/entities/Curso.entity.ts:20-30 | `create` keeps every stored card within its VARCHAR(255) columns |
| Cards.UpdateKeepsFit | src/entities/SustentAi.entity.ts:18-32 | `update` keeps every stored card within its VARCHAR(255) columns |
| Cards.RenameKeepsImage | src/controllers/CursoController.ts:103-111 | after a title change alone, the rewritten URL names the image, which the rename carried along |
| Cards.TitleAndImageLeaveOldImage | src/controllers/SustentAiController.ts:117-141 | a title and image change leaves the old image in the renamed directory |
| Cards.UpdateRemovingCarried | src/controllers/SustentAiController.ts:117-141 | the corrected update: unknown id is a 404, and without a new file it is the original update |
| Cards.TitleAndImageRemoveOldImage | src/controllers/SustentAiController.ts:117-141 | with the corrected removal, a title and image change leaves no old image |
| Cards.Destroy | src/controllers/CursoController.ts:186-195 | the row is removed and so is every file under the card's resolved slug directory, and nothing else |
| Cards.SharedSlugShareFate | src/controllers/SustentAiController.ts:214-226 | two titles with one slug share a directory, so removing one card removes the other's image |
| Cards.EmptySlugDestroyWipesFolder | src/controllers/SustentAiController.ts:214-224 | removing a card whose title has the empty slug removes every card's files from the catalogue folder |
| Cards.DestroyOwn | src/controllers/SustentAiController.ts:214-224 | the corrected removal: the row goes; a card with a slug loses its directory as before, one with the empty slug only the file its URL names |
| Cards.DestroyOwnSparesOthers | src/controllers/SustentAiController.ts:214-224 | with the corrected removal, a card with a slug of its own keeps its files when another card is removed |
| Cards.DeleteByTitle | src/controllers/SustentAiController.ts:205-232 | a 404 exactly when no box has the title, with nothing changed; otherwise the box and its directory are gone |
| Cards.ForceDelete | src/controllers/CursoController.ts:180-201 | an unknown id is a 404 with nothing changed; otherwise the course and its directory are gone |
| Cards.SetAtivo | src/controllers/CursoController.ts:144-177 | an unknown id is a 404; otherwise only the course's `ativo` changes and the record is kept |
| Cards.ReactivateUndoesArchive | src/controllers/CursoController.ts:144-177 | reactivating an archived course restores the table it was archived from |
| Cards.RegisterClick | src/controllers/CursoController.ts:204-215 | an unknown id is a 404; otherwise the course's views go up by exactly one and nothing else changes |
| Cards.ClicksCount | src/controllers/CursoController.ts:204-215 | n clicks add exactly n to the views and keep the set of courses |
| Cards.ListCourses | src/controllers/CursoController.ts:19-41 | "ativo" lists exactly the active courses, "inativo" exactly the inactive ones, anything else all, newest first |
| Cards.ListingsPartition | src/controllers/CursoController.ts:21-34 | the active and inactive listings split the full listing between them |
| Cards.ListBoxes | src/controllers/SustentAiController.ts:159-202 | every box exactly once, newest first, as stored; with both dates each carries its clicks in the window, or 0; otherwise none |
| Cards.NavClick | src/controllers/SustentAiController.ts:235-251 | the navbar counter is created at 1 or incremented, no other counter changes, and one history entry is recorded |
| Cards.NavClicksCount | src/controllers/SustentAiController.ts:235-251 | n navbar clicks add n to the counter and n history entries |
| LegacyEstablishments.StatusLabel | src/services/EstabelecimentoService.ts:28-39 | a code is replaced by a label exactly when it is one of the eight spelled-out codes |
| LegacyEstablishments.PaddedCodesAgree | src/services/EstabelecimentoService.ts:28-39 | for every one-character code, it and its zero-padded spelling are both known or both unknown, and a known pair has one label |
| LegacyEstablishments.Eligibility | src/services/EstabelecimentoService.ts:14-52 | eligible exactly when a CNPJ is given, the lookup succeeds and the record is a MEI, registered and in Saquarema; otherwise the first failing check's message |
| LegacyEstablishments.CityCaseIgnored | src/services/EstabelecimentoService.ts:45-52 | any two spellings of the municipality that agree up to ASCII case pass or fail the city check together |
| LegacyEstablishments.RegistrationColumns | src/services/EstabelecimentoService.ts:76-94 | each column is read from its request key, and `ativo` is left to its default |
| LegacyEstablishments.Register | src/services/EstabelecimentoService.ts:58-114 | an ineligible CNPJ, a taken `emailProjeto`, a taken `cnpj` or a value too long for its column fails in that order and stores nothing; a success adds a pending project under the next id with one image row per URL in `Projetos` |
| LegacyEstablishments.FirstFailureReported | src/services/EstabelecimentoService.ts:19-52 | a record failing every check is reported as not a MEI |
| LegacyEstablishments.FindByCnpj | src/services/EstabelecimentoService.ts:122 | the lowest-id project with that CNPJ, and none exactly when no project has it |
| LegacyEstablishments.RequestUpdateByCnpj | src/services/EstabelecimentoService.ts:117-133 | an unknown CNPJ fails and changes nothing; otherwise the payload becomes the envelope and the status PENDENTE_ATUALIZACAO |
| LegacyEstablishments.RequestDeletionByCnpj | src/services/EstabelecimentoService.ts:135-149 | an unknown CNPJ fails and changes nothing; otherwise PENDENTE_EXCLUSAO with the envelope `{ motivo }` |
| LegacyEstablishments.ByCnpjIsById | src/services/EstabelecimentoService.ts:117-133 | an update request by CNPJ is the update request by id of the project that CNPJ finds |
| LegacyEstablishments.RegisterThenFind | src/services/EstabelecimentoService.ts:58-119 | a registered CNPJ finds the row just created |
| LegacyEstablishments.RegisterTwiceRefused | src/services/EstabelecimentoService.ts:68-74 | registering a registered CNPJ again fails and changes nothing |
| LegacyEstablishments.RegisterImages | src/services/EstabelecimentoService.ts:101-107 | the registered project's images are the `Projetos` URLs, in order |

## Left out

- ProjectController.CadastrarCleaningLeavesNothing: stated for a failure on a taken contact email;
  an over-long column or a string `imagens` fails through the same branch, which the lemma does
  not cover.
- Express routing, multer storage, size limits and mime filters, and compression are framework
  wiring.
- Route handlers without a body in the code are not modelled: `editAndApproveRequest`,
  `adminUpdateProjeto`, `adminDeleteProjeto`, `getAllActiveProjetos`, `buscarPorNomeUnico` and
  `buscarPorOds`.
- The admin login (src/controllers/AdminController.ts:17-30) compares environment credentials and
  signs a JWT; there is no state to model.
- bcrypt, JWT signing, email delivery, uuids and `Date.now()` are parameters.
- The CNPJ HTTP lookup is a `Result` parameter. CnpjService is not part of this model.
- The profanity and emoji filters are function parameters. ProfanityFilter, ValidationEmoji and
  EmailService are not part of this model.
- The rating average in src/controllers/ProjetoController.ts:205-217 uses floating point and
  `toFixed`. It is not modelled.
- SQL `LIKE` wildcards and collation are left out. `buscarPorNome` is modelled as a case-sensitive
  substring test.
- Transaction isolation and concurrent requests are left out: requests run one after another.
- Unicode NFD normalisation in `toSlug` is taken as already applied to its input, and case mapping
  covers ASCII letters only.
- `sanitize` treats a UTF-16 astral character as one character, where JavaScript writes two '_'.
- Filesystem operations never fail, except the modelled best-effort unlink and the card
  directory rename into its own subtree (EINVAL): moves and directory creation always succeed.
- The uploads area is a plain set of paths: a file can be present without its parent directory,
  and no operation demands one. The code's moves and renames assume the directories they create.
- Paths are resolved by dropping empty segments and a trailing '/'. Uploaded file names are taken
  as single segments without '/'; `.` and `..` segments are not resolved.
- ProjectService.Create: a form without `emailContato` is compared as `Null`. Sequelize 6 throws
  on an `undefined` value in a `where`, so such a request is a 500 in the code.
- LegacyEstablishments.Register: a request without `emailProjeto` is compared as `Null`, where
  Sequelize 6 throws on the `undefined` `where` value, and the request fails with a 500.
- ProjectController.Cadastrar: the 201 reply carries the created project as JSON in the code. The
  model's reply has an empty body; the created row is stated through the database.
- ProjectService.Create: an `imagens` value that is an object with a truthy `length` makes `map`
  throw in the code. The model treats every non-array, non-string value as no images.
- LegacyEstablishments.Register: the same holds for an object-valued `Projetos`.
- Text.ReplaceFirst: `$` patterns in the replacement (`$&`, `$1`, `$$`) are not interpreted. The
  card URL rewrite inserts a slug, which never contains `$`.
- Cards.SetAtivo: Curso declares no `ativo` attribute, and Sequelize's `set` skips keys that are
  not attributes, so in the code archiving and reactivating leave the row as it was while still
  replying 200. The model follows the controller's evident intent and changes `ativo`.
- Cards.UrlNamesFile: stated for a stored URL of the form the controllers write; a stored URL
  edited to name a directory or another file is not covered.
- `nota` is a real number. JavaScript's coercion of non-numeric strings is not modelled.
- JSON `null` and `undefined` are both the value `Null`.
- The `Usuario` entity is not part of this model. The unique constraints of its columns are not
  visible, so `Accounts.RegisterRespectsEnabledEmail` takes unique emails as a precondition.
- `ListBoxes` receives the click counts already grouped and filtered by the date window. Parsing
  the date bounds is not modelled.
- The navbar counters are a map from key to count, standing in for the ContadorODS rows, and the
  history is a sequence of keys.
- `registerCardClick` (src/controllers/SustentAiController.ts:254-267) increments a
  `visualizacoes` column that the SustentAi entity does not declare. It is not modelled.
- The Curso entity declares no `ativo` column, but the course controller reads and writes one.
  The model follows the controller: `create`, the listings filtered by status and `SetAtivo` use
  a stored `ativo`. As the code stands, Sequelize's `set` drops the undeclared field, so the `ativo`
  that `create` computes is not stored either; the model states the behaviour the controller
  evidently intends.
- The legacy establishment service writes columns (`cnpj`, `emailProjeto`, and others) that the
  current project entity does not declare. The model takes them as the columns it writes.
- The legacy service's copies of `listarTodos`, `buscarPorNome`, `buscarPorId`,
  `alterarStatusAtivo` and `listarPendentes` (src/services/EstabelecimentoService.ts:151-250)
  duplicate the project service's. The `ProjectService` members model both.
- Reviews.Submit: a reply's parent is not checked to belong to the same project. The code does not
  check it either.
- Reviews.Remove: removing a root review leaves its replies' `parent_id` naming the removed id.
  The `parent_id` foreign key's on-delete action depends on how the table was created: Sequelize's
  default for the association is SET NULL, while a key without an action makes MySQL refuse the
  delete (a 500). The schema is not visible in the code, so neither outcome is modelled; the
  threading invariant allows a reply whose parent no longer exists for this reason.
- Reviews.Detach: the foreign key's own on-delete behaviour is not modelled. Only the explicit
  update in `deleteUser` is.
- Admin.Reject: rejecting a new submission leaves its image rows in place. No destroy or cascade
  for them is visible in the code.
- Accounts.ConfirmEmailChange: only one direction of the failure case is stated. A token whose
  holder has no staged address also fails, and the contract does not say so.
- Cards.Update: when the new directory already exists, the rename is skipped but the URL is still
  rewritten. The contract does not state that the file is still there in that case.

## Findings

| source | as written | input that shows it | evidently intended | confidence | as-written member | corrected member |
|---|---|---|---|---|---|---|
| src/controllers/ProjetoController.ts:87-99 | a failed `cadastrar` deletes the uploads' temporary paths, but the files were already moved into the project directory | a submission with images whose contact email is taken | the moved files are removed when creation fails | not executed | ProjectController.CadastrarLeavesMovedFiles | ProjectController.CadastrarCleaningLeavesNothing |
| src/services/AvaliacaoService.ts:46-48 | `nota < 1 \|\| nota > 5` is false for an absent rating | a root review with no `nota` | a root review must carry a rating from 1 to 5 | not executed | Reviews.SubmitStoresUnratedRoot | Reviews.SubmitRatedKeepsRatingsSound |
| src/services/AvaliacaoService.ts:94-102 | the range check runs only for a truthy `nota`, but a `nota` that is not undefined is assigned | an edit with `nota` 0 | a stored rating is always from 1 to 5 | not executed | Reviews.UpdateStoresZeroRating | Reviews.UpdateRatedKeepsRatingsSound |
| src/services/AvaliacaoService.ts:94-102 | an edit assigns `nota` without checking whether the review is a reply | an edit with `nota` 4 on a reply | replies never carry a rating | not executed | Reviews.UpdateRatesReply | Reviews.UpdateRatedKeepsRatingsSound |
| src/services/AuthService.ts:182-188 | only the submitted email is lower-cased before the comparison with the stored one | user "Ana@x.com" resubmits "Ana@x.com" | resubmitting one's own email is not a change | not executed | Accounts.ResubmittedEmailRejected | Accounts.OwnEmailAccepted |
| src/controllers/SustentAiController.ts:117-141 | with a title change and a new image, the old image is unlinked at its pre-rename path, after the rename has moved it | a card whose title and image change in one update | the replaced image is deleted | not executed | Cards.TitleAndImageLeaveOldImage | Cards.TitleAndImageRemoveOldImage |
| src/services/AuthService.ts:196 | a profile update replies with `usuario.save()`, the whole row including the password hash, where registration and login strip it | any successful profile edit | the reply omits the password like the other account replies | not executed | Accounts.ProfileReplyCarriesHash | Accounts.UpdateProfileSafeHidesPassword |
| src/controllers/SustentAiController.ts:214-224 | `path.resolve` drops the empty segment of an empty slug, so the directory removed is the whole catalogue folder | deleting a box titled "!!!" | only that box's own files are removed | not executed | Cards.EmptySlugDestroyWipesFolder | Cards.DestroyOwnSparesOthers |
