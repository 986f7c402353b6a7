# Grupo Mess ERP client: screen logic in Dafny

The Grupo Mess ERP Android client has three screens with decisions in
them. This project models each one as pure functions over immutable data
and proves what those screens promise.

- **Login** (`login.dfy`, module `Login`). The entered email is trimmed
  with Java's `String.trim()`. The password is used as typed. Both are
  compared with one fixed pair, `admin@mess.com.mx` / `1234`. A failed
  attempt leaves no trace: there is no counter and no lockout.
- **Change password** (`change_password.dfy`, module `ChangePassword`).
  This is a three-way decision over the current, new and confirmation
  fields: missing fields, changed, or mismatch. Nothing is stored.
- **Folio capture** (`folio.dfy`, module `Folio`). The screen keeps a list
  of captured photos, a multi-capture flag, the folio text field and the
  "photos captured" counter. Its operations are:
  - camera results: in multi-capture mode the picture is appended to the
    list, in scan mode it is sent to text recognition;
  - text-recognition results, which set the folio text only on success;
  - deleting a thumbnail;
  - saving. Saving checks the list first and the trimmed folio second. It
    then issues one named storage write per photo and clears the screen.
  `Run` replays a sequence of these events in the order the main thread
  handles them.
- **Java text helpers** (`java_text.dfy`, module `JavaText`). `Trim`
  follows `String.trim()`'s two index loops: it skips chars with code at
  most U+0020 at the front, then at the back. `NatToString` is the decimal
  text Java produces when an `int` is concatenated onto a string.
  `ParseDecimal` is its inverse.

Photos are an opaque type. Platform calls are abstracted in two ways:

- A storage write is a `WriteRequest` value. Its outcome comes from a
  `device` parameter, which may return any outcome at any position.
- Text recognition arrives as an `Ocr` event carrying `Recognized(text)` or
  `OcrFailed`.

Three facts of the code shape the model:

- `DeletePhoto` requires a valid index, because `ArrayList.remove(int)`
  (FolioFragment.java:132) throws on any other; `Run` yields `None` (the
  screen crashes) for one.
- The storage folder is `Download/<folio>`, because
  `Environment.DIRECTORY_DOWNLOADS` is `"Download"` (FolioFragment.java:226).
- The login email is trimmed before the comparison (LoginActivity.java:35);
  the password is not (LoginActivity.java:36).

## Model

| member | source | states |
|---|---|---|
| JavaText.Trim | app/src/main/java/com/grupomess/erp/LoginActivity.java:35 | A trimmed string is no longer than the input and has no char of code at most U+0020 at either end |
| JavaText.TrimDecomposes | app/src/main/java/com/grupomess/erp/ui/gallery/FolioFragment.java:215 | Every string is leading spaces, then its trimmed text, then trailing spaces: trim only removes spaces, and only from the ends |
| JavaText.TrimUnique | app/src/main/java/com/grupomess/erp/LoginActivity.java:35 | Conversely, a string with no edge spaces, wrapped in any spaces, trims back to itself; with TrimDecomposes this characterises trim completely |
| JavaText.TrimIgnoresPadding | app/src/main/java/com/grupomess/erp/LoginActivity.java:35 | Adding spaces around any string never changes its trimmed value |
| JavaText.TrimIdempotent | app/src/main/java/com/grupomess/erp/ui/gallery/FolioFragment.java:215 | Trimming an already trimmed string changes nothing |
| JavaText.NatToString | app/src/main/java/com/grupomess/erp/ui/gallery/FolioFragment.java:221 | The decimal text of a number is non-empty, all digits, and starts with 0 only when it is "0" |
| JavaText.ParseNatToString | app/src/main/java/com/grupomess/erp/ui/gallery/FolioFragment.java:221 | Reading the decimal text back gives the number: the text round-trips |
| JavaText.NatToStringInjective | app/src/main/java/com/grupomess/erp/ui/gallery/FolioFragment.java:221 | Different numbers have different decimal texts |
| Login.AttemptLogin | app/src/main/java/com/grupomess/erp/LoginActivity.java:35-38 | The credential check. Its own contract only says a wrong password is always refused and an accepted email is at least as long as the fixed one; AcceptedShape and PaddedEmailAccepted characterise it in both directions |
| Login.AcceptedShape | app/src/main/java/com/grupomess/erp/LoginActivity.java:35-38 | An accepted login has exactly the fixed email with only spaces around it, and exactly the fixed password |
| Login.PaddedEmailAccepted | app/src/main/java/com/grupomess/erp/LoginActivity.java:35-38 | Conversely, the fixed email with any spaces around it plus the fixed password is accepted |
| Login.EmailPaddingIrrelevant | app/src/main/java/com/grupomess/erp/LoginActivity.java:35 | Spaces around the email never change the outcome, for any email and password |
| Login.PaddedPasswordRefused | app/src/main/java/com/grupomess/erp/LoginActivity.java:36-38 | The password is not trimmed: "1234" with a space before or after it is refused, whatever the email |
| Login.LoginRun | app/src/main/java/com/grupomess/erp/LoginActivity.java:34-47 | Over repeated presses, each answer is the plain credential check of that attempt. Every answer before the last is a refusal, and the run stops only at a success |
| Login.NoLockout | app/src/main/java/com/grupomess/erp/LoginActivity.java:44-46 | Any number of failed attempts followed by the right credentials gives refusals, then a login on that attempt |
| ChangePassword.SubmitChange | app/src/main/java/com/grupomess/erp/ChangePasswordActivity.java:25-40 | The answer is MissingFields exactly when some field is empty. Changed implies the new and confirmation entries are equal, and Mismatch implies they differ |
| ChangePassword.EmptyFieldFirst | app/src/main/java/com/grupomess/erp/ChangePasswordActivity.java:30-33 | An empty field gives MissingFields before any comparison, even when the entries agree |
| ChangePassword.FilledSucceedsIffEqual | app/src/main/java/com/grupomess/erp/ChangePasswordActivity.java:34-39 | With all fields filled, Changed iff confirmation equals new exactly, Mismatch iff it does not |
| ChangePassword.CurrentIrrelevant | app/src/main/java/com/grupomess/erp/ChangePasswordActivity.java:26-34 | Replacing one non-empty current password by another never changes the answer |
| ChangePassword.NewConfirmSymmetric | app/src/main/java/com/grupomess/erp/ChangePasswordActivity.java:34 | Swapping the new and confirmation entries never changes the answer |
| Folio.UpdatePhotosCount | app/src/main/java/com/grupomess/erp/ui/gallery/FolioFragment.java:202-204 | After a refresh the counter shows the list length, and the list, folio text and mode are untouched |
| Folio.Initial | app/src/main/java/com/grupomess/erp/ui/gallery/FolioFragment.java:154 | A freshly built screen has an empty list and a counter that agrees with it |
| Folio.SetMode | app/src/main/java/com/grupomess/erp/ui/gallery/FolioFragment.java:140-149 | The scan and multi-capture buttons set the mode and change nothing else |
| Folio.OnCameraResult | app/src/main/java/com/grupomess/erp/ui/gallery/FolioFragment.java:97-110 | A result that is not OK, or has no data, changes nothing. In multi-capture mode the list grows by one, earlier photos are unchanged, the new one is last and the counter follows. In scan mode the state is unchanged and the picture goes to recognition |
| Folio.OnOcrResult | app/src/main/java/com/grupomess/erp/ui/gallery/FolioFragment.java:191-196 | Recognised text replaces the folio text, a failure leaves it as it was, and nothing else changes |
| Folio.DeletePhoto | app/src/main/java/com/grupomess/erp/ui/gallery/FolioFragment.java:131-135 | Deleting at a valid index shortens the list by one. Photos before the index keep their places, those after move down one, exactly that photo leaves the multiset, and the counter follows |
| Folio.SavePhotos | app/src/main/java/com/grupomess/erp/ui/gallery/FolioFragment.java:210-250 | An empty list gives NoPhotos and changes nothing. Then a blank trimmed folio gives NoFolio and changes nothing. Otherwise there is one JPEG write per photo, in list order, named folio_foto_(i+1).jpg in Download/folio, every write attempted. The list and folio text are then emptied and the counter shows 0 |
| Folio.FileNameInjective | app/src/main/java/com/grupomess/erp/ui/gallery/FolioFragment.java:221 | Two positions of the same folio never get the same file name |
| Folio.SavedNamesDistinct | app/src/main/java/com/grupomess/erp/ui/gallery/FolioFragment.java:220-224 | A successful save never asks for the same display name twice |
| Folio.SaveOutcomesIrrelevant | app/src/main/java/com/grupomess/erp/ui/gallery/FolioFragment.java:228-242 | The state after a save is the same whatever the individual writes did |
| Folio.SaveTwice | app/src/main/java/com/grupomess/erp/ui/gallery/FolioFragment.java:211-242 | Saving straight after a successful save gives NoPhotos, writes nothing and changes nothing |
| Folio.Step | app/src/main/java/com/grupomess/erp/ui/gallery/FolioFragment.java:97-152 | Dispatches one button press or callback. It throws exactly on a delete outside the list. Only the scan and multi-capture buttons change the mode. Buttons and recognition results never touch the list, and the counter keeps agreeing with the list |
| Folio.Run | app/src/main/java/com/grupomess/erp/ui/gallery/FolioFragment.java:97-152 | Replays events in main-thread order. The empty run changes nothing, and a run can only crash on a delete |
| Folio.RunKeepsCountShown | app/src/main/java/com/grupomess/erp/ui/gallery/FolioFragment.java:202-204 | Along any event sequence that does not throw, the counter always shows the list length |
| Folio.CapturesAppend | app/src/main/java/com/grupomess/erp/ui/gallery/FolioFragment.java:101-105 | In multi-capture mode a run of captures appends the pictures in the order they arrive |
| Folio.CaptureThenDelete | app/src/main/java/com/grupomess/erp/ui/gallery/FolioFragment.java:131-134 | Switch to multi-capture, take n photos, delete index k: the list is the photos without the k-th, in order |
| Folio.ExampleNames | app/src/main/java/com/grupomess/erp/ui/gallery/FolioFragment.java:221 | The first two names of folio F123 are F123_foto_1.jpg and F123_foto_2.jpg |
| Folio.SaveExample | app/src/main/java/com/grupomess/erp/ui/gallery/FolioFragment.java:220-226 | Saving two photos under F123 asks for F123_foto_1.jpg and F123_foto_2.jpg in Download/F123 |

## Left out

- Camera intent, permission request and camera-availability check (FolioFragment.java:83-92, 162-181): asynchronous platform plumbing. The model starts from the camera result it delivers.
- Text recognition itself (FolioFragment.java:187-197): a foreign asynchronous SDK. Only its outcome is modelled, as an `Ocr` event. `Run` accepts that event at any point, even with no scan before it. This loses no property, because `Recognized(t)` can set any text at any time.
- Typing into the folio field (FolioFragment.java:61, read at 215) has no event of its own. An `Ocr(Recognized(t))` event has the same effect on the state.
- Storage insertion and JPEG compression (FolioFragment.java:223-236): platform I/O. Each write is a request value, and its outcome is an arbitrary parameter that the post-save state does not depend on.
- Exceptions the save loop does not catch, such as a security exception from the insertion: they would end the screen, and the model assumes they do not occur.
- A camera result whose extras hold no picture: the code would append a null bitmap or crash on missing extras. The model has only "data present" or "data absent".
- The counter label's text, toasts and the confirmation dialog: UI text. Outcomes are datatype variants instead, and the counter is the number it shows.
- Adapter refreshes (`notifyDataSetChanged`) and PhotosAdapter.java: rendering glue. The delete position it forwards is covered by `DeletePhoto`'s precondition.
- Navigation after login and after a successful password change (starting the main screen, `finish()`): represented by the LoggedIn and Changed outcomes.
- MainActivity.java (drawer navigation, logout clearing preferences and the cache directory), FolioViewModel.java (an unused constant) and build.gradle.kts: I/O, navigation and build configuration.
- Fragment lifecycle: the photo list outlives view re-creation. The model covers one screen session, starting from `Initial`, whose folio text is assumed empty because the layout file is not part of this model.
- 32-bit `int`: the 1-based index in file names is unbounded here. A list of more than 2^31 - 1 bitmaps cannot exist in memory.
- Java `char` is a UTF-16 unit and Dafny's is a Unicode scalar value. Trim only looks at codes up to U+0020, so both give the same result.
- Login.AttemptLogin: its own contract is partial (wrong password refused, accepted email long enough), because the full statement would only repeat its body; the exact acceptance condition is proved in both directions by `Login.AcceptedShape` and `Login.PaddedEmailAccepted`.
