# Item catalogue service — a verified model

The catalogue keeps two pieces of shared state in step: a table of items
(id → name, description, price, image URL) and an upload directory of
image files. Two implementations of the service are modelled:

- `ItemManager` (module `Items`, `items.dfy`) works on an SQLite table. It
  is modelled as a class whose fields are the table (`map<int, Row>`), the
  names of the files in the upload directory (`set<string>`) and the
  AUTOINCREMENT sequence. `getAllItems`, `addItem`, `updateItem` and
  `deleteItem` are methods.
- The front controller's flat-file backend (module `FlatFileApi`,
  `flat_file_api.dfy`) keeps the items as a JSON list in one file. Every
  request reads, changes and writes back the whole list. It is modelled as
  a class whose fields are the data file and the upload directory.
  `get_items`, `save_items` and the list, add, delete and update endpoints
  are methods with the source's loops: the in-place id cast, the filtering
  pass of delete and the first-match-then-break pass of update. The admin
  authentication branch is modelled too.
- `Auth` models the shared-secret gate and `Config` the constants and path
  builders. `Media` holds the image rules that both backends share: the
  allow-list, the 5 MiB limit, the stored name `md5.ext`, the stored URL
  `/uploads/` + name, and the file that a URL points to. `Php` models the
  PHP built-ins the code relies on: `empty`, truthiness, `strtolower`,
  `basename`, `pathinfo`'s extension, `end(explode('.', …))` and the `(int)`
  cast of a string.

Every state-changing method is specified by a function of the old state:
`Step(reply, State()) == XOutcome(old(State()), …)`. The properties of the
operations are proved about those outcome functions:

- which checks run, in which order, and with which status;
- that nothing changes on any error path;
- which rows or list items change;
- for `ItemManager`, an ordering invariant: every row's image file exists
  and belongs to that row alone. A file is stored before a row points at
  it, and an old file is deleted only once no row does.

Inputs of the operations stand for what is outside the model:

- the database outcome: an exception, or the row count an UPDATE or
  DELETE reports;
- whether `move_uploaded_file` succeeds, and whether the data file could
  be written;
- the md5 digest of the new upload's name, which is 32 lower-case hex
  digits;
- the clock, `microtime` in milliseconds.

The code differs from the documented design in a few places. The model
follows the code:

- The flat-file add endpoint defaults a missing price to `0`. Its
  `!isset($price)` test therefore never fires, and a missing price is
  stored as 0.
- The flat-file add endpoint answers 200 on success. `ItemManager`
  answers 201.
- The flat-file add endpoint takes the extension with `explode`/`end`,
  while `ItemManager` and the update endpoint use `pathinfo`. For a name
  without a dot, the first gives the whole name, so "png" is accepted;
  `pathinfo` gives "".
- The flat-file update endpoint clears the image URL before it tests it,
  so the old image file is never deleted (see Findings). The endpoint and
  the edit take the removal branch as a parameter: `AsWritten` models the
  code, `Intended` the evident intent.
- Neither update path validates the name or the price. Posted fields
  replace the stored ones as they are.
- `ItemManager` preserves the invariant only when the generated file name
  is new. Two uploads of the same name in the same second get the same
  name, and the second overwrites the first.

## Model

| member | source | states |
|---|---|---|
| Config.UploadDirPath | public/app/Config/Config.php:21-24 | the upload directory is the document root followed by "/uploads/", so it has the root as prefix and ends in a slash |
| Config.DbFilePath | public/app/Config/Config.php:31-34 | the database path is the document root followed by "/data/items.sqlite" |
| Config.UploadPathNamesEntry | public/app/Config/Config.php:13 | the basename of the upload directory joined with a slash-free name is that name, so a file in the directory is identified by its name |
| Config.DbFileName | public/app/Config/Config.php:14 | whatever the root, the database file's basename is "items.sqlite" |
| Auth.Authenticate | public/app/Managers/AuthManager.php:15-23 | authenticated exactly when the password equals the secret "1234"; the message is "Authentication successful" or "Invalid password" accordingly |
| Auth.NearMissesRejected | public/app/Managers/AuthManager.php:18 | the comparison is strict: "1234 ", " 1234", "" and "123" are refused |
| Php.ToLower | public/app/Managers/ItemManager.php:85 | `strtolower` keeps the length |
| Php.ToLowerPointwise | public/app/Managers/ItemManager.php:85 | `strtolower` maps each character on its own, lowering ASCII letters only |
| Php.AfterLast | public/index.php:104-105 | the part after the last separator contains no separator and is no longer than the input |
| Php.AfterLastIsSuffix | public/index.php:104-105 | that part is a suffix of the input |
| Php.AfterLastWithout | public/index.php:104-105 | without a separator the whole input is returned |
| Php.AfterLastFollowsC | public/index.php:104-105 | with a separator the part is shorter and is preceded by the separator |
| Php.TrimTrailingSlashes | public/app/Managers/ItemManager.php:193 | trimming leaves no trailing slash and does not grow the path |
| Php.TrimTrailingSlashesIsPrefix | public/app/Managers/ItemManager.php:193 | trimming keeps a prefix and removes only slashes |
| Php.Basename | public/app/Managers/ItemManager.php:193-194 | a basename contains no slash |
| Php.PathInfoExtension | public/app/Managers/ItemManager.php:85 | `pathinfo`'s extension contains no dot |
| Php.PathInfoExtensionSpec | public/app/Managers/ItemManager.php:85 | the extension is what follows the basename's last dot, and "" when the basename has no dot |
| Php.LastDotSegment | public/index.php:104-105 | `end(explode('.', …))` contains no dot |
| Php.AfterLastOfJoin | public/app/Managers/ItemManager.php:273-274 | after a directory ending in the separator, the part after the last separator is the appended name |
| Php.BasenameOfJoin | public/app/Managers/ItemManager.php:273-274 | the basename of a directory ending in "/" joined with a slash-free name is that name |
| Php.ExtensionRulesAgree | public/index.php:104-105 | for a slash-free name with a dot, the two extension rules agree |
| Php.ExtensionRulesDifferWithoutDot | public/index.php:104-105 | for "png" the add endpoint's rule gives "png" and `pathinfo` gives "" |
| Php.DigitPrefixSpec | public/index.php:26 | the digit run read by `(int)` is a prefix of the input, holds only digits and is the longest such prefix |
| Php.DigitPrefixStops | public/index.php:26 | a digit run followed by a non-digit is read as exactly that run |
| Php.ExponentForm | public/index.php:26 | an `e` or `E` followed by digits is an exponent of that value, whatever follows the digits |
| Php.SignedExponentForm | public/index.php:26 | a sign after the `e` applies to the exponent |
| Php.IntegerForm | public/index.php:26 | digits followed by neither a digit nor a point are the whole mantissa, scaled by the exponent that follows |
| Php.PointStartsFraction | public/index.php:26 | a point starts a fraction after integer digits, or before a digit when there are none |
| Php.FractionDigits | public/index.php:26 | fraction digits join the mantissa and each lowers the scale by one |
| Php.FractionForm | public/index.php:26 | a number with a point reads as the mantissa of the digits on both sides, scaled by the exponent less the fraction length |
| Php.Saturate | public/index.php:26 | a value is kept inside the 64-bit range and clamped to `PHP_INT_MAX` or `PHP_INT_MIN` outside it |
| Php.NumeralToInt | public/index.php:26 | the cast of a leading number lies in the 64-bit range, and is 0 when there is no number |
| Php.StringToInt | public/index.php:26 | `(int)` of a string lies in the 64-bit range, and is 0 when the string, after white space, does not start with a number |
| Php.StringToIntOfDigits | public/index.php:26 | a string of digits casts to its value, saturated at `PHP_INT_MAX`, and to 0 once it is too large for a double |
| Php.StringToIntReadsDigits | public/index.php:26 | "42" casts to 42 |
| Php.StringToIntWithoutNumber | public/index.php:26 | "abc", "" and ".e1" cast to 0 |
| Php.StringToIntSkipsAndStops | public/index.php:26 | `(int)` skips white space, reads a sign and stops at the first non-digit: " -7px" is -7 |
| Php.StringToIntReadsExponent | public/index.php:26 | an exponent scales the number: "1e3" is 1000 |
| Php.StringToIntReadsFraction | public/index.php:26 | a fraction joins the mantissa before the exponent scales it: "1.5e3" is 1500 |
| Php.StringToIntTruncatesTowardZero | public/index.php:26 | the fraction is cut toward zero: "-2.5" is -2 |
| Php.StringToIntSaturates | public/index.php:26 | beyond the 64-bit range the cast saturates: "1e19" is `PHP_INT_MAX` and "-1e19" is `PHP_INT_MIN` |
| Media.CheckImage | public/app/Managers/ItemManager.php:92-99 | accepted exactly for an allowed extension and a size of at most 5 MiB; the type is reported before the size |
| Media.SizeLimitBoundary | public/app/Managers/ItemManager.php:97 | exactly 5 MiB is accepted, one byte more is too large, "bmp" is a bad type |
| Media.StoredFileName | public/app/Managers/ItemManager.php:88 | the stored name is the digest, a dot, then the extension |
| Media.StoredUrl | public/app/Managers/ItemManager.php:103 | the stored URL starts with "/uploads/" |
| Media.ImageFile | public/app/Managers/ItemManager.php:273 | a URL names a file exactly when it is truthy, and the file is its basename |
| Media.StoredFileNameHasNoSlash | public/app/Managers/ItemManager.php:88 | a generated name never contains a slash |
| Media.StoredUrlRoundTrip | public/app/Managers/ItemManager.php:103 | the file a stored URL points to is the file that was stored for it |
| Items.AddRejection | public/app/Managers/ItemManager.php:65-111 | a create passes exactly when name and description are non-empty, the price is present and numeric, an upload arrived and the image is accepted; the fields, price, missing-image, bad-type and too-large replies, all 400 |
| Items.UpdateImageRejection | public/app/Managers/ItemManager.php:172-188 | a replacement upload is refused with 400 exactly when it fails the image check, with the bad-type reply before the too-large one |
| Items.ChooseImage | public/app/Managers/ItemManager.php:172-209 | the image policy: replace exactly for a valid upload, remove exactly for an explicit empty `existingImageUrl`, otherwise keep |
| Items.MarkedFile | public/app/Managers/ItemManager.php:193-195 | a replace or remove marks the current image's file when it exists, and nothing else is ever marked |
| Items.MergeRowKeepsAbsentFields | public/app/Managers/ItemManager.php:164-166 | an absent field keeps its stored value, a present one replaces it |
| Items.ListedFromRows | public/app/Managers/ItemManager.php:40 | the listing holds rows of the table in strictly descending id order |
| Items.ListedFromCovers | public/app/Managers/ItemManager.php:40 | every row is listed |
| Items.ListedFromIgnoresAbove | public/app/Managers/ItemManager.php:40 | rows above the bound do not affect the listing |
| Items.ListedFromLength | public/app/Managers/ItemManager.php:40 | the listing has one item per row |
| Items.WriteRowKeepsConsistent | public/app/Managers/ItemManager.php:190-227 | writing a row whose file was stored first, then deleting only the row's previous file, keeps every image present and owned by one row |
| Items.DeleteRowKeepsConsistent | public/app/Managers/ItemManager.php:265-275 | removing a row, with or without its file, keeps the invariant |
| Items.GrowKeepsConsistent | public/app/Managers/ItemManager.php:102 | an orphan file does not break the invariant |
| Items.KeepLeavesImageAlone | public/app/Managers/ItemManager.php:206-209 | without an upload or removal request the URL is unchanged and nothing is stored or marked |
| Items.AddOutcome | public/app/Managers/ItemManager.php:62-142 | a create succeeds exactly when validation passes, the move succeeds and the insert does not throw; ids stay in range |
| Items.AddInsertsOneRow | public/app/Managers/ItemManager.php:102-141 | validation failures change nothing; a failed move answers 500 and changes nothing; a throwing insert answers 500 and removes the stored file again; success inserts the form's row with the stored URL under the next id and answers 201 with it; a failure leaves no new row and no new file |
| Items.AddKeepsConsistent | public/app/Managers/ItemManager.php:102-141 | with a fresh file name a create keeps the invariant and inserts under a new id, and a failed create leaves the store unchanged |
| Items.ImageStepOf | public/app/Managers/ItemManager.php:168-209 | the image step is refused exactly for a rejected or unmovable upload, with the image check's 400 reply or the failed move's 500, and otherwise yields the chosen URL, the stored file and the marked file |
| Items.UpdateOutcome | public/app/Managers/ItemManager.php:151-245 | an update succeeds exactly when the row exists, the image step passes, and the UPDATE reports a changed row or the URL changed; a throwing UPDATE answers 500 and keeps the rows; an UPDATE reporting no row with the URL unchanged answers 200 without success, with the merged row written; ids and sequence are preserved |
| Items.UpdateUploadsExactly | public/app/Managers/ItemManager.php:190-227 | past the image checks, a successful update leaves the old files plus the moved one less the marked file; a throwing or unchanging write leaves the old files plus the moved one; a kept image leaves the directory and the URL as they were |
| Items.UpdateTouchesOnlyItsRow | public/app/Managers/ItemManager.php:155-243 | only row `id` changes and is written as the merged row; a missing id gives 404 and a throwing SELECT 500, with no change; image failures change nothing; the only files added or removed are the new upload and the row's current file |
| Items.UpdateKeepsConsistent | public/app/Managers/ItemManager.php:190-227 | with a fresh file name an update keeps the invariant |
| Items.ReplaceSwapsImageFile | public/app/Managers/ItemManager.php:190-227 | a successful replacement points the row at the new file, which exists, and the previous file is gone |
| Items.RemoveDeletesImageFile | public/app/Managers/ItemManager.php:199-227 | a successful removal clears the URL and deletes the previous file |
| Items.DeleteOutcome | public/app/Managers/ItemManager.php:252-286 | a delete succeeds exactly when the row exists and the DELETE reports a row; on success exactly that row and then its file are removed; a DELETE reporting no row answers 404 with the row gone and the files kept; a missing id gives 404 with no change; a throwing SELECT or DELETE gives 500 with no change; a failure leaves the files alone |
| Items.DeleteKeepsConsistent | public/app/Managers/ItemManager.php:252-286 | a delete keeps the invariant |
| Items.ItemManager.constructor | public/app/Managers/ItemManager.php:20-30 | the service starts on a given table, upload directory and sequence |
| Items.ItemManager.GetAllItems | public/app/Managers/ItemManager.php:36-54 | a throwing query gives the 500 error; otherwise every row exactly once, as items, in strictly descending id order |
| Items.ItemManager.AddItem | public/app/Managers/ItemManager.php:62-142 | the reply and new state are those of `AddOutcome`, and ids stay in range |
| Items.ItemManager.ApplyImagePolicy | public/app/Managers/ItemManager.php:168-209 | the step is `ImageStepOf`'s, and the upload directory gains exactly the stored file |
| Items.ItemManager.UpdateItem | public/app/Managers/ItemManager.php:151-245 | the reply and new state are those of `UpdateOutcome` |
| Items.ItemManager.DeleteItem | public/app/Managers/ItemManager.php:252-286 | the reply and new state are those of `DeleteOutcome` |
| FlatFileApi.CastInt | public/index.php:173 | `(int)` of an absent value (the `?? 0` default) is 0, of an integer is that integer, and of a string is the string's cast, inside the 64-bit range |
| FlatFileApi.CastIds | public/index.php:24-28 | the read casts only ids: each present id becomes its integer value, an absent one stays absent, every other field is unchanged |
| FlatFileApi.LoadOf | public/index.php:14-36 | a missing file reads as an empty list with 200; an unreadable file and invalid JSON are the two errors with 500; a decoded list reads as the list with its ids cast, so it keeps its length and has integer ids |
| FlatFileApi.SavedListReloads | public/index.php:14-46 | a list with integer ids that is written reads back unchanged |
| FlatFileApi.CastIdsIdempotent | public/index.php:24-28 | casting the ids of a read list again changes nothing |
| FlatFileApi.AdminAuthEndpoint | public/index.php:58-73 | a POST authenticates exactly for the string "1234", with 200 or 401 and the manager's messages; other methods get 405 |
| FlatFileApi.AdminAuthAgreesWithManager | public/index.php:61-69 | for a string password the endpoint decides as `Auth.Authenticate`; the number 1234 and a missing password are refused |
| FlatFileApi.ListReply | public/index.php:159-168 | a GET answers the read list with 200 or the read error with 500; other methods get 405 |
| FlatFileApi.AddRejection | public/index.php:78-135 | an add passes exactly when name and description are non-empty, the price is numeric, an upload arrived and the image is accepted; the fields, non-numeric price, missing-image, bad-type and too-large replies, all 400; a missing price is never reported |
| FlatFileApi.NewItem | public/index.php:78-84 | the new item takes the posted name and description, the posted price or 0, and the stored URL; its id is the posted id cast by `(int)`, in the 64-bit range and 0 for a non-number, or the clock when no id is posted |
| FlatFileApi.NewItemIdNotNumeric | public/index.php:82 | a posted id "abc" gives the new item the id 0 |
| FlatFileApi.AddMayDuplicateId | public/index.php:82-151 | ids are not kept unique: a successful add with the posted id "42" to a list holding id 42 leaves two items with id 42 |
| FlatFileApi.AddOutcome | public/index.php:76-157 | an add succeeds exactly when validation passes, the move succeeds, the list is read and written; only a success changes the list; the upload directory gains at most the stored file |
| FlatFileApi.AddFailureReplies | public/index.php:76-155 | a method other than POST gets 405; after validation a failed move answers 500 and changes nothing; an unreadable list answers 500 with the read error and a failed write 500, both leaving the list as it was and the moved upload in the directory |
| FlatFileApi.AddAppendsAtEnd | public/index.php:137-151 | validation failures change nothing; success appends exactly the new item after the read items, which keep their values and order, and answers 200 with it; otherwise the list is unchanged |
| FlatFileApi.HasIdSpec | public/index.php:192-194 | `HasId` holds exactly when some item has the target id |
| FlatFileApi.Without | public/index.php:192-203 | filtering never grows the list |
| FlatFileApi.WithoutKeepsExactlyOthers | public/index.php:192-203 | the kept items are exactly the items without the target id |
| FlatFileApi.WithoutOfConcat | public/index.php:192-203 | filtering distributes over concatenation, so kept items keep their order |
| FlatFileApi.WithoutNoMatch | public/index.php:192-203 | without a match the list is unchanged |
| FlatFileApi.WithoutShrinks | public/index.php:192-209 | with a match the list gets shorter |
| FlatFileApi.LastImage | public/index.php:194-199 | an image is noted only when some item has the target id |
| FlatFileApi.LastImageOfMatch | public/index.php:194-199 | the noted image belongs to an item with the target id |
| FlatFileApi.DeleteOutcome | public/index.php:170-226 | a delete succeeds exactly for a non-zero id present in a readable list that is written; id 0 gives 400, an absent id 404, another method 405, an unreadable list 500 with the read error and a failed write 500; any failure changes nothing; success writes the filtered list and then unlinks only the noted image |
| FlatFileApi.DeleteRemovesEveryMatch | public/index.php:192-215 | after a delete, the list holds exactly the items without the id and is shorter; the only file removed is the image of a deleted item |
| FlatFileApi.FirstIndex | public/index.php:248-249 | the position found is the first item with the target id, or the end of the list when there is none |
| FlatFileApi.RemovalMark | public/index.php:295-301 | the corrected removal branch marks a file exactly when the item's URL is truthy, and the file is the URL's basename |
| FlatFileApi.RemovalMarkAsWritten | public/index.php:295-301 | as written, the removal branch never marks a file |
| FlatFileApi.RemovalMarkIn | public/index.php:295-301 | the removal branch as written marks nothing; the intended one marks the file of the URL being cleared |
| FlatFileApi.RemovalMarkAsWrittenMissesImage | public/index.php:295-301 | for an item with "/uploads/a.png", the written branch marks nothing while the intended one marks "a.png" |
| FlatFileApi.EditOf | public/index.php:253-301 | the edit is refused exactly for an upload that fails the image check or cannot be moved, with 400 or 500 |
| FlatFileApi.EditRejections | public/index.php:266-291 | an upload is refused with 400 for a bad type, then with 400 for a size over the limit, then with 500 for a failed move |
| FlatFileApi.EditMergesFields | public/index.php:253-301 | the edit keeps the id, takes posted fields and keeps absent ones; an upload replaces the URL and marks the old file; a posted `existingImageUrl` is taken verbatim; otherwise the URL is cleared, and the old file is marked by the intended removal branch but not by the branch as written |
| FlatFileApi.UpdateOutcome | public/index.php:228-331 | in either removal branch, an update succeeds exactly for a non-zero id present in a readable list, an accepted edit and a successful write; only a success changes the list |
| FlatFileApi.UpdateTouchesOnlyFirstMatch | public/index.php:230-315 | id 0 gives 400 and an absent id 404, with no change; success rewrites only the first item with the id, keeps every other item in place, answers 200 with the edited item, and leaves the upload directory with the stored upload added and then the marked old image removed |
| FlatFileApi.UpdateFailureReplies | public/index.php:228-331 | another method gets 405, an unreadable list 500 with the read error, a refused edit its own reply, and a failed write 500; none changes the list, and after a failed write the moved upload stays |
| FlatFileApi.UpdateReplaceSwapsImageFile | public/index.php:259-326 | a successful update with a new image points the item at the stored upload, keeps that file unless it reuses the old name, and deletes the previous image file |
| FlatFileApi.UpdateUnlinksOnlyAfterSave | public/index.php:317-326 | without a successful write no file is unlinked; the only file an update adds is the new upload |
| FlatFileApi.UpdateRemovalDeletesOldImage | public/index.php:295-322 | with the corrected removal branch, clearing the image also deletes its old file |
| FlatFileApi.UpdateRemovalAsWrittenKeepsOldImage | public/index.php:295-322 | with the removal branch as written, clearing the image leaves the upload directory exactly as it was, so the old file stays |
| FlatFileApi.FlatFileBackend.constructor | public/index.php:5-6 | the backend starts on a given data file and upload directory |
| FlatFileApi.FlatFileBackend.GetItems | public/index.php:14-36 | the in-place cast loop returns what `LoadOf` describes |
| FlatFileApi.FlatFileBackend.SaveItems | public/index.php:39-46 | a successful write replaces the file with the list, and a failed one leaves it |
| FlatFileApi.FlatFileBackend.ListEndpoint | public/index.php:159-168 | the reply is `ListReply`'s |
| FlatFileApi.FlatFileBackend.AddEndpoint | public/index.php:76-157 | the reply and new files are those of `AddOutcome` |
| FlatFileApi.FlatFileBackend.ScanForDelete | public/index.php:188-203 | the pass keeps exactly the filtered list, notes whether the id occurs, and keeps the image of the last match that has one |
| FlatFileApi.FlatFileBackend.DeleteEndpoint | public/index.php:170-226 | the reply and new files are those of `DeleteOutcome` |
| FlatFileApi.FlatFileBackend.EditItem | public/index.php:253-301 | in the removal branch chosen, the edit is `EditOf`'s, and the upload directory gains exactly the stored file |
| FlatFileApi.FlatFileBackend.UpdateEndpoint | public/index.php:228-331 | the first-match-then-break loop gives the reply and new files of `UpdateOutcome`, in the removal branch chosen |
| FlatFileApi.FlatFileBackend.SaveEditedList | public/index.php:317-326 | the list is written first; only then is the marked file unlinked, and a failed write answers 500 |

## Left out

- Database connection, schema creation and directory creation
  (`public/app/Database/Database.php` and the `mkdir` calls). These are I/O
  plumbing. The schema appears only as a `Row` type and an
  AUTOINCREMENT sequence.
- SQL execution and JSON encoding and decoding. The table is a map and
  the data file is a decoded list. A PDOException, a row count and a
  failed read or write are inputs. A write either succeeds completely or
  leaves the file as it was; partial writes are not modelled. A failing
  `json_encode` is not modelled either: with a name that is not valid
  UTF-8, `save_items` (public/index.php:39-46) writes an empty file and
  still reports success, and every later read answers 500 with "Invalid JSON data in items file."
- `md5(time() . $fileName)` and `microtime`. The digest and the clock are
  inputs. Freshness of a generated name is a precondition of the
  consistency lemmas only, not of the operations.
- `file_exists` on the data file and on uploads, `move_uploaded_file` and
  `unlink`. The upload directory is a set of names, and a move either
  succeeds or is reported as failed by an input.
- Floating point. A posted price is a `NumericField` that carries
  PHP's `is_numeric` verdict and its `(float)` value. Neither is computed
  here.
- Stored JSON items are modelled with all five fields present. An id of
  JSON type float or boolean is not modelled; an id is absent, null, an
  integer or a string. List elements that are not objects and files whose
  top level is an object are not modelled.
- `created_at`/`updated_at` timestamps and the `/api/data` test endpoint
  (index.php:54-56). Routing on the URL is not modelled. The request
  method is an input of each endpoint.
- The `password` of the authentication endpoint is modelled as absent, an
  integer or a string. Other JSON types are not modelled; `===` refuses
  them all.
- The TypeScript frontend and the build scripts.
- Php.StringToInt: reads the leading number exactly. PHP first rounds a
  number with a fraction or an exponent, or one beyond 64 bits, to the
  nearest double, so a mantissa longer than about 15 significant digits can
  cast differently ("0.99999999999999999999" is 1 in PHP and 0 here). The
  overflow to an infinite double is modelled.

## Findings

| source | as written | input that shows it | evidently intended | confidence | as-written member | corrected member |
|---|---|---|---|---|---|---|
| public/index.php:295-301 | the removal branch sets `imageUrl` to null and only then tests `isset($item['imageUrl'])`, so the old image file is never marked and never unlinked | an update of an item whose URL is "/uploads/a.png", with no upload and no `existingImageUrl`: the item is saved without an image and "a.png" stays in the upload directory | read the old URL before clearing it and mark its file, as the comment on line 298 says | high, not executed | FlatFileApi.RemovalMarkAsWritten, FlatFileApi.UpdateRemovalAsWrittenKeepsOldImage | FlatFileApi.RemovalMark, FlatFileApi.UpdateRemovalDeletesOldImage |
