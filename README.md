# Identity and classroom layer of UnityPlatform, in Dafny

This project models the identity and classroom layer of a Unity learning
platform built on Firebase. It covers:

- **Login and registration** (`AuthManager`, module `LoginPage`). A login
  identifier is either an email or a username. A username is normalised to a
  key (trimmed, lower-cased) and looked up in `usernames/{key}` to find the
  account's email. The user then signs in, their role is read from
  `users/{uid}`, and they are routed to the teacher's or the student's scene.
  Registration validates the form, checks that the username is free and
  creates the account. It then writes the profile and the username mapping. A student
  gets the synthetic email `{key}@students.example`.
- **The teacher's class list** (`TeacherClassManager`, module `ClassList`).
  It generates unique six-character join codes from a 32-letter alphabet and
  creates classes as a pair of documents (`classes/{id}` and
  `users/{uid}/classes/{id}`). It loads and sorts the classes newest first,
  shows them in pages, keeps the selection across reloads, and renames or
  deletes the selected class.
- **The class editor** (`TeacherClassEditor`, module `ClassEditor`). It
  renames and deletes the class that was handed over through
  `ClassSelection`.
- **The student's character slots** (`StudentCharacterSelect`, module
  `CharacterSelect`). The number of classrooms decides which slots are
  active.
- **The test-side login reference** `TestableAuthManager.LoginFlow` and its
  in-memory doubles `FakeFirestore` and `FakeAuth` (module `AuthFlowTests`).
- **`EmailValidator.IsValid`** (module `EmailValidation`), with the anchored
  regular expression `^[^@\s]+@[^@\s]+\.[^@\s]+$` stated as a language.

Shared modules:

- `Wrappers` holds `Option`, which stands for nullable references.
- `Text` holds .NET's white-space set, `Trim`, `ToLowerInvariant` and
  integer formatting.
- `Firestore` models the back end. It is a document store keyed by path,
  plus the auth provider. Every awaited call appends to a `log` and takes its
  success or failure as a parameter.
- `Selection` holds the static `ClassSelection` hand-over.
- `ClassDocs` holds the paired rename and delete writes. The class list and
  the editor both issue them.

The code is followed wherever the documentation and the code differ. Three
such places:

- The login page sends a teacher to `TeacherClassSelect`, while the test
  reference sends a teacher to `TeacherHome`. `RouteNamesDiffer` states
  this.
- The fake auth compares its composite key ignoring case, so a password in
  any letter case signs in. `FakeSignInIgnoresCase` states this.
- The page label reads `1/1`, which is what `RenderPage` builds. The class
  list's play-mode test expects "Page 1 of 1".

## Model

| member | source | states |
|---|---|---|
| LoginPage.Key | Assets/Scripts/LoginPage/AuthManager.cs:51 | the key is empty exactly for null or blank input, and it never starts or ends with white space |
| LoginPage.KeyIdempotent | Assets/Scripts/LoginPage/AuthManager.cs:51 | normalising a key again gives the same key |
| LoginPage.KeyIgnoresCase | Assets/Scripts/LoginPage/AuthManager.cs:51 | a lower-cased input has the same key as the input |
| LoginPage.KeyIgnoresPadding | Assets/Scripts/LoginPage/AuthManager.cs:51 | a trimmed input has the same key as the input |
| LoginPage.PaddedKey | Assets/Scripts/LoginPage/AuthManager.cs:51 | a word padded with white space on both sides has the lower-cased word as its key |
| LoginPage.KeyExampleBlank | Assets/Tests/EditMode/AuthManagerTests.cs:18-20 | "", "   " and null all have the empty key |
| LoginPage.KeyExamplePadded | Assets/Tests/EditMode/AuthManagerTests.cs:15 | " Alice " has the key "alice" |
| LoginPage.KeyExampleUpper | Assets/Tests/EditMode/AuthManagerTests.cs:16 | "ALICE" has the key "alice" |
| LoginPage.KeyExampleDotted | Assets/Tests/EditMode/AuthManagerTests.cs:17 | "  Alice.Bob  " has the key "alice.bob" |
| LoginPage.LoginErrorMessage | Assets/Scripts/LoginPage/AuthManager.cs:128-145 | a failed sign-in shows "Login Failed!" exactly when the error is not one of the five listed Firebase codes |
| LoginPage.LoginMessagesDistinct | Assets/Scripts/LoginPage/AuthManager.cs:136-143 | the five listed login codes get five different texts |
| LoginPage.RegisterErrorMessage | Assets/Scripts/LoginPage/AuthManager.cs:346-365 | a non-Firebase exception shows "Register failed"; an unlisted code shows its own enum name |
| LoginPage.RegisterMessageCases | Assets/Tests/EditMode/AuthManagerTests.cs:38-89 | the five listed registration codes and the non-Firebase fallback give the texts the unit tests expect |
| LoginPage.ErrorFallbacksDiffer | Assets/Scripts/LoginPage/AuthManager.cs:346-365 | login and registration fall back differently ("Login Failed!" against "Register failed" or the code's name); they agree on the codes both switches list |
| LoginPage.EmailPathSkipsLookup | Assets/Scripts/LoginPage/AuthManager.cs:96-100 | a trimmed identifier containing '@' is used as the email, whatever the store holds, and no lookup is made |
| LoginPage.ResolveIdentifier | Assets/Scripts/LoginPage/AuthManager.cs:96-121 | a trimmed identifier with an '@' is the email itself; the only warnings are "Network or permissions error." and "Username not found."; the read throws only for a username whose mapping exists after a completed read |
| LoginPage.UsernamePathUsesMapping | Assets/Scripts/LoginPage/AuthManager.cs:100-121 | a username resolves to the email stored at usernames/{Key}; a faulted read warns "Network or permissions error." and a missing mapping warns "Username not found." |
| LoginPage.ResolutionIgnoresCaseAndPadding | Assets/Scripts/LoginPage/AuthManager.cs:96-105 | a username and its lower-cased form resolve alike |
| LoginPage.SceneForRole | Assets/Scripts/LoginPage/AuthManager.cs:173-176 | the scene is TeacherClassSelect exactly for the role "teacher", and StudentCharacterSelect otherwise |
| LoginPage.ProfileScene | Assets/Scripts/LoginPage/AuthManager.cs:156-182 | a scene is chosen exactly when the profile read went through and the profile holds a string role, and the scene is that role's |
| LoginPage.ValidationError | Assets/Scripts/LoginPage/AuthManager.cs:203-207 | a form passes exactly when the key is non-empty, a teacher's email is non-blank, and the password is non-empty and matches its confirmation; otherwise the first failing check names it, in the code's order: "Missing Username", then (teacher only) "Missing Email", then "Missing Password", then "Passwords do not match"; a student never gets "Missing Email" |
| LoginPage.SyntheticEmailInjective | Assets/Scripts/LoginPage/AuthManager.cs:296 | two students get the same synthetic email exactly when their keys are equal |
| LoginPage.MappingEmail | Assets/Scripts/LoginPage/AuthManager.cs:239-260 | the mapping document carries the account email, and the profile document carries the role |
| LoginPage.RegisteredUsernameResolves | Assets/Scripts/LoginPage/AuthManager.cs:255-260 | after the mapping is written, any identifier with the same key logs in to the account's email |
| LoginPage.AuthManager.LookUp | Assets/Scripts/LoginPage/AuthManager.cs:96-121 | the identifier step returns the resolution; the store is unchanged; the log gains one lookup for a username and none for an email |
| LoginPage.AuthManager.SignInAndRoute | Assets/Scripts/LoginPage/AuthManager.cs:124-182 | a failed sign-in shows the login message and stops; a successful one sets User, clears the warning, shows "Logged In", reads users/{uid}, and loads the role's scene if the read finds one |
| LoginPage.AuthManager.Login | Assets/Scripts/LoginPage/AuthManager.cs:94-183 | the whole login coroutine: each resolution and sign-in outcome fixes the labels, the user, the scene and the exact sequence of back-end calls; the store is never written |
| LoginPage.AuthManager.CreateAccount | Assets/Scripts/LoginPage/AuthManager.cs:221-264 | a failed account creation shows the registration message and writes nothing; a successful one sets the display name, writes the profile and then the mapping, and clears the form's warning |
| LoginPage.AuthManager.Register | Assets/Scripts/LoginPage/AuthManager.cs:186-343 | validation errors, a faulted or taken username check, and account creation each leave the stated label, documents and call log; only the submitted form's label changes |
| ClassList.CodeOf | Assets/Scripts/Teacher/ClassSelect/TeacherClassManager.cs:154-161 | the code has one character per draw, and each character is the alphabet letter at that draw |
| ClassList.CodeAvoidsLookalikes | Assets/Scripts/Teacher/ClassSelect/TeacherClassManager.cs:156 | the alphabet has 32 letters, every code character is in it, and no code contains I, O, 0 or 1 |
| ClassList.TeacherClassManager.GenerateCode | Assets/Scripts/Teacher/ClassSelect/TeacherClassManager.cs:154-161 | the loop builds the code the draws spell |
| ClassList.SearchCode | Assets/Scripts/Teacher/ClassSelect/TeacherClassManager.cs:117-127 | a code the search returns is in use by no class and has the requested length |
| ClassList.Tries | Assets/Scripts/Teacher/ClassSelect/TeacherClassManager.cs:117-127 | the loop issues at most one query per attempt |
| ClassList.Queries | Assets/Scripts/Teacher/ClassSelect/TeacherClassManager.cs:123 | the first n attempts issue exactly n code queries |
| ClassList.SearchSkipsUsedCodes | Assets/Scripts/Teacher/ClassSelect/TeacherClassManager.cs:120-127 | attempts whose query went through but whose code was in use are skipped: the search and the query count go on as from the next attempt |
| ClassList.SearchTakesFirstFreeCode | Assets/Scripts/Teacher/ClassSelect/TeacherClassManager.cs:120-127 | the first drawn code not in use is chosen, after exactly that many queries |
| ClassList.SearchStep | Assets/Scripts/Teacher/ClassSelect/TeacherClassManager.cs:125-126 | after a run of used codes, a faulted query ends the search as faulted and a free code ends it with that code |
| ClassList.TeacherClassManager.TryAttempt | Assets/Scripts/Teacher/ClassSelect/TeacherClassManager.cs:122-126 | one pass draws the code and asks whether a class holds it, with no write |
| ClassList.TeacherClassManager.SearchPass | Assets/Scripts/Teacher/ClassSelect/TeacherClassManager.cs:120-127 | one loop pass either decides the search as SearchCode does, or records another code in use |
| ClassList.TeacherClassManager.FindUniqueCode | Assets/Scripts/Teacher/ClassSelect/TeacherClassManager.cs:117-127 | the while loop returns SearchCode's answer, writes nothing, and logs exactly the queries it made |
| ClassList.CreatedPairAgrees | Assets/Scripts/Teacher/ClassSelect/TeacherClassManager.cs:130-147 | the index document agrees with the global one on every field it has; the global one records the owner and equal times; the index reads back as the new row; the written code is then in use |
| ClassList.TeacherClassManager.WriteClass | Assets/Scripts/Teacher/ClassSelect/TeacherClassManager.cs:129-147 | the index is written only after the global write went through, and success means both went through |
| ClassList.TeacherClassManager.CreateClassRoutine | Assets/Scripts/Teacher/ClassSelect/TeacherClassManager.cs:109-152 | no user or a blank name changes nothing; a faulted code search writes nothing; otherwise the pair is written and, when both writes went through, the input is cleared and the list reloaded from the new store |
| ClassList.StrOr | Assets/Scripts/Teacher/ClassSelect/TeacherClassManager.cs:177-179 | an absent field gives the default; a present field is read only when it is a string |
| ClassList.RowOf | Assets/Scripts/Teacher/ClassSelect/TeacherClassManager.cs:177-188 | a document gives a row exactly when id, name and code are absent or strings and createdAt is absent or a timestamp |
| ClassList.RowDefaults | Assets/Scripts/Teacher/ClassSelect/TeacherClassManager.cs:177-181 | absent fields default to the document id, "(Unnamed)", "—" and time 0 |
| ClassList.RowFromFields | Assets/Scripts/Teacher/ClassSelect/TeacherClassManager.cs:177-186 | present fields win over the defaults |
| ClassList.RowsOf | Assets/Scripts/Teacher/ClassSelect/TeacherClassManager.cs:174-189 | a listing gives at most one row per document |
| ClassList.RowsOfReadsInOrder | Assets/Scripts/Teacher/ClassSelect/TeacherClassManager.cs:175-189 | row k is read from document k, and reading stops only at a document whose row cannot be read |
| ClassList.ReadRows | Assets/Scripts/Teacher/ClassSelect/TeacherClassManager.cs:174-189 | the foreach loop builds exactly RowsOf of the listing |
| ClassList.Insert | Assets/Scripts/Teacher/ClassSelect/TeacherClassManager.cs:192 | inserting a row keeps the list newest first and adds exactly that row |
| ClassList.SortNewestFirst | Assets/Scripts/Teacher/ClassSelect/TeacherClassManager.cs:192 | the sorted list is newest first and a permutation of the rows |
| ClassList.CeilDiv | Assets/Scripts/Teacher/ClassSelect/TeacherClassManager.cs:224 | the ceiling of n / size: enough pages to hold n rows, and one fewer would not |
| ClassList.PageCount | Assets/Scripts/Teacher/ClassSelect/TeacherClassManager.cs:224 | there is at least one page, exactly one for an empty list, and just enough pages for the rows |
| ClassList.ClampPage | Assets/Scripts/Teacher/ClassSelect/TeacherClassManager.cs:225 | the clamped index is a valid page; an index already in range is kept; an out-of-range one goes to the nearest end |
| ClassList.PageWindow | Assets/Scripts/Teacher/ClassSelect/TeacherClassManager.cs:227-228 | a page in range covers at most pageSize rows inside the list, and it is empty only when the list is |
| ClassList.RowOnExactlyOnePage | Assets/Scripts/Teacher/ClassSelect/TeacherClassManager.cs:227-230 | pages partition the list: row i is on page i / size and on no other page |
| ClassList.PageShowsItsRows | Assets/Scripts/Teacher/ClassSelect/TeacherClassManager.cs:227-253 | a page's tiles show exactly the rows of its window, in order, with their list indices, each tinted exactly when its id is the selected one |
| ClassList.PagerState | Assets/Scripts/Teacher/ClassSelect/TeacherClassManager.cs:221-280 | Prev is enabled exactly off the first page and Next exactly before the last; the empty graphic shows exactly for an empty list, which renders "1/1" with both buttons disabled |
| ClassList.TeacherClassManager.RenderPage | Assets/Scripts/Teacher/ClassSelect/TeacherClassManager.cs:217-281 | the page index is clamped and the view becomes the page's view; nothing else changes |
| ClassList.TeacherClassManager.NextPage | Assets/Scripts/Teacher/ClassSelect/TeacherClassManager.cs:67 | the page index moves one forward, clamped, and the page is rendered |
| ClassList.TeacherClassManager.PrevPage | Assets/Scripts/Teacher/ClassSelect/TeacherClassManager.cs:68 | the page index moves one back, never below 0, and the page is rendered |
| ClassList.TeacherClassManager.SortAndKeepSelection | Assets/Scripts/Teacher/ClassSelect/TeacherClassManager.cs:191-211 | the rows are sorted; the selection is kept exactly when a row still has its id; Create is shown exactly when nothing is selected and Edit exactly when something is |
| ClassList.TeacherClassManager.ApplyRows | Assets/Scripts/Teacher/ClassSelect/TeacherClassManager.cs:191-214 | the state after a complete read is the sorted rows with the kept selection, the clamped page and the page's view |
| ClassList.LoadKeepsSelectionValid | Assets/Scripts/Teacher/ClassSelect/TeacherClassManager.cs:194-199 | after a complete load, every listed class is in the list once, and a surviving selection names a listed row |
| ClassList.TeacherClassManager.LoadClasses | Assets/Scripts/Teacher/ClassSelect/TeacherClassManager.cs:164-215 | no user or a faulted query changes no state; otherwise the list state is loaded from some listing of users/{uid}/classes, and the store is never written |
| ClassList.FindRow | Assets/Scripts/Teacher/ClassSelect/TeacherClassManager.cs:334 | a row is found exactly when some row has the id, and it is the first such row |
| ClassList.TeacherClassManager.SelectedRow | Assets/Scripts/Teacher/ClassSelect/TeacherClassManager.cs:331-335 | there is a selected row exactly when a selection exists and a row has its id; that row is in the list and has the id |
| ClassList.TeacherClassManager.ClickTile | Assets/Scripts/Teacher/ClassSelect/TeacherClassManager.cs:262-275 | a click selects the tile's row, publishes its id, name and code to ClassSelection, shows Edit instead of Create, and re-renders |
| ClassList.TeacherClassManager.JoinSelected | Assets/Scripts/Teacher/ClassSelect/TeacherClassManager.cs:71-85 | without a selection nothing happens; with one, the selected row (or nulls) is published and TeacherClass is loaded |
| ClassList.TeacherClassManager.RenameRoutine | Assets/Scripts/Teacher/ClassSelect/TeacherClassManager.cs:284-308 | no user or a blank name changes nothing; otherwise both updates are issued, and the list is reloaded only when neither faulted |
| ClassList.TeacherClassManager.RenameSelected | Assets/Scripts/Teacher/ClassSelect/TeacherClassManager.cs:88-99 | without a selection nothing happens; otherwise, for the selected id: no user or a blank name changes nothing; else both updates are logged and applied, and only when neither faulted is the listing logged and the state reloaded |
| ClassList.TeacherClassManager.DeleteRoutine | Assets/Scripts/Teacher/ClassSelect/TeacherClassManager.cs:310-328 | no user changes nothing; otherwise both deletes are issued, and when neither faulted the selection is cleared and the list reloaded |
| ClassList.TeacherClassManager.DeleteSelected | Assets/Scripts/Teacher/ClassSelect/TeacherClassManager.cs:102-106 | without a selection or a user nothing happens; otherwise both deletes are logged and applied; a faulted delete keeps the selection and state, and a successful one clears the selection and reloads the list |
| ClassDocs.RenameTouchesOnlyThePair | Assets/Scripts/Teacher/ClassSelect/TeacherClassManager.cs:292-301 | a rename creates no document and touches none but the pair; it changes only name and updatedAt on the global document and only name on the index |
| ClassDocs.RenameCanSplitThePair | Assets/Scripts/Teacher/ClassSelect/TeacherClassManager.cs:295-305 | a faulted global update beside a successful index update leaves the two names apart |
| ClassDocs.DeleteRemovesExactlyThePair | Assets/Scripts/Teacher/ClassSelect/TeacherClassManager.cs:315-323 | a delete removes exactly the documents whose delete went through, and leaves the others unchanged |
| ClassDocs.RenamePair | Assets/Scripts/Teacher/ClassSelect/TeacherClassEditor.cs:70-89 | both updates are issued, and failure means either one faulted or its document was missing |
| ClassDocs.DeletePair | Assets/Scripts/Teacher/ClassSelect/TeacherClassEditor.cs:97-111 | both deletes are issued, and failure means either one faulted |
| ClassEditor.Title | Assets/Scripts/Teacher/ClassSelect/TeacherClassEditor.cs:42 | the title is "Edit class: " followed by the name |
| ClassEditor.TitleInjective | Assets/Scripts/Teacher/ClassSelect/TeacherClassEditor.cs:42 | two titles are equal exactly when the names are |
| ClassEditor.TeacherClassEditor.Start | Assets/Scripts/Teacher/ClassSelect/TeacherClassEditor.cs:29-48 | without a selected class or a signed-in user nothing is wired; otherwise the title and input show the current name, and the buttons that exist are wired |
| ClassEditor.TeacherClassEditor.OnClickEdit | Assets/Scripts/Teacher/ClassSelect/TeacherClassEditor.cs:51-61 | an empty trimmed name does nothing; otherwise both documents are renamed and logged, and only when both writes went through do the selection and the title take the new name; the selection's id and code stay |
| ClassEditor.TeacherClassEditor.RenameRoutine | Assets/Scripts/Teacher/ClassSelect/TeacherClassEditor.cs:70-95 | both updates are issued; only when neither faulted do the selection and the title take the new name |
| ClassEditor.TeacherClassEditor.OnClickDelete | Assets/Scripts/Teacher/ClassSelect/TeacherClassEditor.cs:64-67 | deletes the class's two documents |
| ClassEditor.TeacherClassEditor.DeleteRoutine | Assets/Scripts/Teacher/ClassSelect/TeacherClassEditor.cs:97-117 | both deletes are issued and the selection is left as it was |
| ClassEditor.TeacherClassEditor.PressEdit | Assets/Scripts/Teacher/ClassSelect/TeacherClassEditor.cs:46 | an unwired button does nothing; a wired one acts on the class captured at `Start`, even after the class list has published another selection: a blank name does nothing, otherwise both updates are logged and applied, and only when neither faulted do the selection name and the title take the new name; the captured ids, the input and the selection's id and code stay |
| ClassEditor.TeacherClassEditor.PressDelete | Assets/Scripts/Teacher/ClassSelect/TeacherClassEditor.cs:47 | an unwired button does nothing; a wired one logs and applies both deletes for the class captured at `Start`, even after the selection changed |
| CharacterSelect.ColourRuleIsActiveRule | Assets/Scripts/Student/CharacterSelect/StudentCharacterSelect.cs:71-100 | the colour loop's brightness rule and the listener loop's active-slot rule pick the same slots |
| CharacterSelect.ActiveSlotsArePrefix | Assets/Scripts/Student/CharacterSelect/StudentCharacterSelect.cs:100 | the active slots form a prefix of the list, and the first slot is always active |
| CharacterSelect.ActiveCountIs | Assets/Scripts/Student/CharacterSelect/StudentCharacterSelect.cs:100 | of n slots, one is active before any classroom exists; otherwise min(classrooms, n) are active |
| CharacterSelect.EveryActiveWhenCountCovers | Assets/Scripts/Student/CharacterSelect/StudentCharacterSelect.cs:65-79 | with at least as many classrooms as slots, every slot is active |
| CharacterSelect.StudentCharacterSelect.Start | Assets/Scripts/Student/CharacterSelect/StudentCharacterSelect.cs:23-32 | both panels are hidden and the store is unchanged; with a user whose classrooms load, the count is the size of users/{uid}/classrooms and the slots are painted and wired from it, otherwise the slots are untouched |
| CharacterSelect.StudentCharacterSelect.CheckStudentClassrooms | Assets/Scripts/Student/CharacterSelect/StudentCharacterSelect.cs:34-61 | with a signed-in student whose query went through, the count becomes the number of users/{uid}/classrooms and the slots are painted and wired from it; otherwise nothing changes |
| CharacterSelect.StudentCharacterSelect.ApplySlotColors | Assets/Scripts/Student/CharacterSelect/StudentCharacterSelect.cs:63-82 | every slot with an image is bright exactly when active and dim otherwise; slots without an image keep their colour |
| CharacterSelect.StudentCharacterSelect.AssignSlotListeners | Assets/Scripts/Student/CharacterSelect/StudentCharacterSelect.cs:84-107 | every button loses its old listeners; an active slot's button selects that slot; an inactive slot's button is disabled |
| CharacterSelect.StudentCharacterSelect.OnSlotSelected | Assets/Scripts/Student/CharacterSelect/StudentCharacterSelect.cs:109-127 | an active slot opens the class info once a classroom exists and the join panel before; other indices change nothing; the join panel opens only from slot 0 with no classroom |
| CharacterSelect.StudentCharacterSelect.PressSlot | Assets/Scripts/Student/CharacterSelect/StudentCharacterSelect.cs:100-105 | a slot without a button or with a disabled one does nothing; an enabled slot wired to itself and active opens the join panel exactly when there is no classroom and the class information exactly when there is one; the join panel never newly opens once a classroom exists |
| CharacterSelect.StudentCharacterSelect.Update | Assets/Scripts/Student/CharacterSelect/StudentCharacterSelect.cs:129-145 | a mouse press outside the open join panel closes it; nothing else changes |
| AuthFlowTests.Route | Assets/Tests/PlayMode/PlayModeTests/AuthManagerFlowTests.cs:165 | the reference routes to TeacherHome exactly for the role "teacher", and to StudentCharacterSelect otherwise |
| AuthFlowTests.RouteNamesDiffer | Assets/Tests/PlayMode/PlayModeTests/AuthManagerFlowTests.cs:165 | the reference and the login page send a teacher to scenes of different names, and agree for every other role |
| AuthFlowTests.UsernameAnswer | Assets/Tests/PlayMode/PlayModeTests/AuthManagerFlowTests.cs:49-56 | the fake's read always goes through; it finds the key exactly when its folded form is stored, and then returns that mapping |
| AuthFlowTests.UsernameLookupIgnoresCase | Assets/Tests/PlayMode/PlayModeTests/AuthManagerFlowTests.cs:38-39 | the fake answers a lower-cased key as it answers the key |
| AuthFlowTests.UserDocAnswer | Assets/Tests/PlayMode/PlayModeTests/AuthManagerFlowTests.cs:72-79 | a user counts as existing exactly when the document holds "role"; a role that is not a string reads as null |
| AuthFlowTests.FakeFirestore.WriteUsernameMap | Assets/Tests/PlayMode/PlayModeTests/AuthManagerFlowTests.cs:58-63 | the write overwrites the entry and always succeeds, and the key then reads back as that mapping |
| AuthFlowTests.FakeFirestore.WriteUserDoc | Assets/Tests/PlayMode/PlayModeTests/AuthManagerFlowTests.cs:65-70 | the write overwrites the document and always succeeds; a document with a role then counts as existing |
| AuthFlowTests.FakeFirestore.SeedUsername | Assets/Tests/PlayMode/PlayModeTests/AuthManagerFlowTests.cs:43-44 | the entry under the key, in any casing, is replaced by the seeded mapping; the user documents stay |
| AuthFlowTests.FakeFirestore.SeedUser | Assets/Tests/PlayMode/PlayModeTests/AuthManagerFlowTests.cs:46-47 | the document under the uid is replaced; the username map stays |
| AuthFlowTests.SignInAnswer | Assets/Tests/PlayMode/PlayModeTests/AuthManagerFlowTests.cs:95-102 | sign-in succeeds exactly when the folded composite key is seeded as successful, and then returns the seeded uid; otherwise the error is "Wrong Password" |
| AuthFlowTests.SignInKey | Assets/Tests/PlayMode/PlayModeTests/AuthManagerFlowTests.cs:89-90 | the key is the trimmed email lower-cased, then a newline, then the password: its length is the sum of the parts, the email part is `ToLower(Trim(email))`, a newline comes right after it, and the password follows |
| AuthFlowTests.SignInKeyInjective | Assets/Tests/PlayMode/PlayModeTests/AuthManagerFlowTests.cs:89-90 | for emails with no inner newline, two pairs share a composite key exactly when their lower-cased trimmed emails and their passwords are equal |
| AuthFlowTests.FakeAuth.SeedSignIn | Assets/Tests/PlayMode/PlayModeTests/AuthManagerFlowTests.cs:92-93 | the outcome under the folded composite key is replaced by the seeded success flag and uid |
| AuthFlowTests.FakeSignInIgnoresCase | Assets/Tests/PlayMode/PlayModeTests/AuthManagerFlowTests.cs:86-90 | because the comparer ignores case, the fake accepts the password in any letter case and the email with any padding or casing |
| AuthFlowTests.FakeAuth.CreateUser | Assets/Tests/PlayMode/PlayModeTests/AuthManagerFlowTests.cs:104-108 | account creation always succeeds, with the generated uid and the given email |
| AuthFlowTests.FakeAuth.UpdateDisplayName | Assets/Tests/PlayMode/PlayModeTests/AuthManagerFlowTests.cs:110-114 | updating the display name always succeeds |
| AuthFlowTests.TestableAuthManager.ResolveInput | Assets/Tests/PlayMode/PlayModeTests/AuthManagerFlowTests.cs:135-150 | an input with '@' is the email; otherwise the key is looked up, and a faulted or missing mapping stops with its warning |
| AuthFlowTests.TestableAuthManager.SignInAndRoute | Assets/Tests/PlayMode/PlayModeTests/AuthManagerFlowTests.cs:152-165 | a failed sign-in shows its error (or "Login Failed!"); a successful one shows "Logged In" and routes by the role of the mapped uid, or else the signed-in uid |
| AuthFlowTests.TestableAuthManager.LoginFlow | Assets/Tests/PlayMode/PlayModeTests/AuthManagerFlowTests.cs:132-166 | for every service, each outcome of lookup, sign-in and role read fixes the warning, the confirmation and the scene handed to done; a scene is only ever handed over after "Logged In" |
| AuthFlowTests.NoAtInKeyedInput | Assets/Tests/PlayMode/PlayModeTests/AuthManagerFlowTests.cs:139-141 | an identifier whose key has no '@' takes the username path |
| AuthFlowTests.FoldOfKey | Assets/Tests/PlayMode/PlayModeTests/AuthManagerFlowTests.cs:130 | a normalised key is already folded |
| AuthFlowTests.UsernameNotFoundShowsWarning | Assets/Tests/PlayMode/PlayModeTests/AuthManagerFlowTests.cs:204-213 | with nothing seeded, any username login warns "Username not found." and routes nowhere |
| AuthFlowTests.SeededUsernameLogin | Assets/Tests/PlayMode/PlayModeTests/AuthManagerFlowTests.cs:215-242 | an identifier that normalises to the seeded key signs in, shows "Logged In" and is routed by the seeded role |
| AuthFlowTests.SeededAnswers | Assets/Tests/PlayMode/PlayModeTests/AuthManagerFlowTests.cs:219-221 | the seeded fakes answer the lookup, the sign-in and the role read with the seeded values |
| AuthFlowTests.WrongPasswordShowsWrongPasswordMessage | Assets/Tests/PlayMode/PlayModeTests/AuthManagerFlowTests.cs:244-256 | with a mapping but no sign-in seeded, the login shows "Wrong Password" and routes nowhere |
| AuthFlowTests.TeacherInput | Assets/Tests/PlayMode/PlayModeTests/AuthManagerFlowTests.cs:224 | "MrSmith" normalises to the seeded key "mrsmith" |
| AuthFlowTests.StudentInput | Assets/Tests/PlayMode/PlayModeTests/AuthManagerFlowTests.cs:238 | "  ALICE " normalises to the seeded key "alice" |
| AuthFlowTests.LowerInput | Assets/Tests/PlayMode/PlayModeTests/AuthManagerFlowTests.cs:252 | "alice" normalises to the seeded key "alice" |
| AuthFlowTests.UsernameNotFoundTest | Assets/Tests/PlayMode/PlayModeTests/AuthManagerFlowTests.cs:209-211 | "missingUser" with no seed shows "Username not found." |
| AuthFlowTests.TeacherRoutingTest | Assets/Tests/PlayMode/PlayModeTests/AuthManagerFlowTests.cs:216-228 | the teacher test's seed and input route to TeacherHome and confirm "Logged In" |
| AuthFlowTests.StudentRoutingTest | Assets/Tests/PlayMode/PlayModeTests/AuthManagerFlowTests.cs:231-242 | the student test's seed and input route to StudentCharacterSelect and confirm "Logged In" |
| AuthFlowTests.WrongPasswordTest | Assets/Tests/PlayMode/PlayModeTests/AuthManagerFlowTests.cs:245-255 | the wrong-password test's seed and input show "Wrong Password" |
| EmailValidation.IndexOf | Assets/Tests/EditMode/EditModeTests/EmailValidatorTests.cs:7 | the first position of the character, or its absence |
| EmailValidation.IsValid | Assets/Tests/EditMode/EditModeTests/EmailValidatorTests.cs:10-11 | valid exactly when the string is in the anchored expression's language; a null or blank string is never valid |
| EmailValidation.SplitMatches | Assets/Tests/EditMode/EditModeTests/EmailValidatorTests.cs:7 | every string of the form local@domain.suffix is accepted by the matcher |
| EmailValidation.MatchSplits | Assets/Tests/EditMode/EditModeTests/EmailValidatorTests.cs:7 | everything the matcher accepts splits into local part, '@', domain, '.', suffix |
| EmailValidation.BodyIsLanguage | Assets/Tests/EditMode/EditModeTests/EmailValidatorTests.cs:7 | the matcher decides the language, in both directions |
| EmailValidation.MatchesIsLanguage | Assets/Tests/EditMode/EditModeTests/EmailValidatorTests.cs:7 | with the allowance `$` makes for a final newline, the matcher decides the anchored language |
| EmailValidation.LanguageNotBlank | Assets/Tests/EditMode/EditModeTests/EmailValidatorTests.cs:7 | a string of the language is never blank, and has its '@' after the local part |
| EmailValidation.BlankNotInLanguage | Assets/Tests/EditMode/EditModeTests/EmailValidatorTests.cs:11 | a blank string is not in the language, so the blank check never rejects a match |
| EmailValidation.AcceptedShape | Assets/Tests/EditMode/EditModeTests/EmailValidatorTests.cs:7-11 | an accepted address has exactly one '@', a non-empty local part, a dot inside the domain, and no white space, for an address without a final newline (one trailing newline is accepted, see TrailingNewline) |
| EmailValidation.Complete | Assets/Tests/EditMode/EditModeTests/EmailValidatorTests.cs:7-11 | any L@A.B with non-empty parts free of '@' and white space is accepted |
| EmailValidation.TrailingNewline | Assets/Tests/EditMode/EditModeTests/EmailValidatorTests.cs:7 | an accepted address followed by one newline is still accepted, but not followed by two |
| EmailValidation.NoNewlineEnd | Assets/Tests/EditMode/EditModeTests/EmailValidatorTests.cs:7 | no string of the language ends with a newline |
| EmailValidation.ValidCases | Assets/Tests/EditMode/EditModeTests/EmailValidatorTests.cs:16-17 | "a@b.com" and "user.name+tag@domain.io" are valid |
| EmailValidation.InvalidCases | Assets/Tests/EditMode/EditModeTests/EmailValidatorTests.cs:18-20 | "bad@", "@bad.com", "" and null are invalid |
| Text.TrimIsInfix | Assets/Scripts/LoginPage/AuthManager.cs:96 | Trim returns a contiguous part of the string with only white space cut from either end |
| Text.TrimEmptyIff | Assets/Scripts/LoginPage/AuthManager.cs:51 | the trimmed string is empty exactly when the string is all white space |
| Text.ToLowerIdempotent | Assets/Scripts/LoginPage/AuthManager.cs:51 | lower-casing twice is lower-casing once |
| Firestore.Backend.FindByCode | Assets/Scripts/Teacher/ClassSelect/TeacherClassManager.cs:123-126 | a completed code query reports exactly whether some class document holds the code |
| Firestore.Backend.ListClasses | Assets/Scripts/Teacher/ClassSelect/TeacherClassManager.cs:169-172 | a completed listing names every document of users/{uid}/classes exactly once, with its contents |
| Firestore.ListingOf | Assets/Scripts/Teacher/ClassSelect/TeacherClassManager.cs:175 | the enumeration lists every document of users/{uid}/classes exactly once, with its contents |
| Firestore.Backend.CountClassrooms | Assets/Scripts/Student/CharacterSelect/StudentCharacterSelect.cs:44-55 | a completed query returns the number of documents under users/{uid}/classrooms |
| Firestore.Backend.Update | Assets/Scripts/Teacher/ClassSelect/TeacherClassEditor.cs:75-81 | an update merges the fields into an existing document, and faults on a missing one |

## Left out

- Unity itself is not modelled: scenes, game objects, prefabs, colours as RGB values, and the
  optional scene references. A scene load is the name recorded in `loadedScene`, and a colour
  is `Normal` or `Dim`. In the class editor and the character slots a reference that may
  be missing is a flag (`hasTitle`, `hasInput`, `hasEditButton`, `hasDeleteButton`,
  `hasImage`, `hasButton`). In the class list the seven null-checked references
  (`createBtn`, `editBtn`, `classNameInput`, `emptyListGraphic`, `prevPageBtn`,
  `nextPageBtn`, `pageLabel`) are taken as present: `createShown`, `editShown`,
  `classNameInput` and the `PageView` record what they would show, whether or not the
  object exists.
- Coroutines and concurrency are not modelled. Each awaited call is one atomic step. Paired
  writes that the source issues side by side (the two rename updates, the two deletes, the
  profile and mapping writes) are applied in issue order.
- Which outcome the back end gives (a faulted or cancelled task, the auth provider's answer)
  is a parameter of each operation. So are generated class ids, GUIDs, the current time and
  the random draws. An outcome is completed or not; a cancelled task is not told apart from a
  faulted one. That matches the places that test `IsFaulted || IsCanceled` (the username and
  profile reads at AuthManager.cs:109 and :160, the class queries and writes at
  TeacherClassManager.cs:125, :138, :147 and :172, the classroom count at
  StudentCharacterSelect.cs:48), but not the others, where the model does not capture what a
  cancellation does:
  - the renames and deletes at TeacherClassManager.cs:305 and :323 and TeacherClassEditor.cs:85
    and :107 test only `IsFaulted`, so a cancelled update or delete takes the success path in
    the source (reload, cleared or renamed selection, new title), while the model treats every
    incomplete write as failed;
  - the sign-in and account creation at AuthManager.cs:128, :226 and :302 test
    `Exception != null`, which is null for a cancelled task, so the source then reads `Result`,
    throws and ends the coroutine with no label change, while the model shows the login or
    registration error message.
- Timestamps are whole seconds. The `DateTime` conversion and its floating-point
  `TotalSeconds` are not modelled.
- `Mathf.CeilToInt(n / (float)pageSize)` is modelled as exact integer ceiling division. This
  is exact for any list size a float holds exactly.
- The page size and the code length are Inspector fields with default 6. They are
  constructor parameters. A page size of 0 or less is excluded, because the source then
  divides by zero or renders no rows.
- `ToLowerInvariant` lower-cases ASCII letters only; other Unicode case mappings are not
  modelled. `Char.IsWhiteSpace` and the regular expression's `\s` use .NET's list of
  white-space characters.
- GetValue throws on a field of the wrong type. This is modelled as the coroutine ending
  (`Threw`, or `None`): for the mapping email, the profile role, the listing fields, and the
  faulted username check in registration, where `Task.Result` throws.
- ClassList.SearchCode: the source's `while (!unique)` loop has no bound. The model's random
  draws are a finite sequence of attempts, so running out of attempts ends the search
  (`OutOfAttempts`) with nothing written. That case does not exist in the source.
- ClassList.SortNewestFirst: `List.Sort` is unstable. The model fixes one order for equal
  creation times, and the contract states only what the source promises for any order:
  newest first, and a permutation.
- The source file of `ClassSelection` is not part of this model. Its three static nullable
  strings are the fields of `Selection.ClassSelection`.
- `RenameSelected_FromInput`, `CreateClass_FromInput` and `RefreshClassList` only read an
  input field or start a coroutine. The input text is the `Option<string>` parameter of
  `RenameSelected` and `CreateClassRoutine`, and a refresh is `LoadClasses`.
- AuthFlowTests.FakeAuth.SeedSignIn: its email and password are never null in the tests, so
  they are strings (a null read as the empty string is not modelled for seeding).
- AuthFlowTests.TestableAuthManager.SignInAndRoute: a null uid passed to the fake's user-doc
  read throws in .NET. It is modelled as no scene handed over.
- The service interfaces `IAuthService` and `IFirestoreService` are modelled as functions from
  a request to its answer, so `LoginFlow` is proved for every service. The fakes supply those
  functions from their dictionaries.
- Debug logging, the Firebase dependency check in `Awake`, the UI navigation buttons
  (`LoginButton`, `RegisterButton`) and the presentation scripts are not modelled; they hold
  no logic of the core.
