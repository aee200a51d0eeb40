# Document locker — a Dafny model

The document locker is a small web application for storing files in an
Amazon S3 bucket. It has three parts, and this project models the logic of
each of them:

- **The Flask back end** (`document-locker-backend/app.py`), module
  `StorageApi` in `storage_api.dfy`. The bucket is a `Bucket` object: a map
  from key to stored object (size, content type, user metadata) and its
  keys in the ascending order in which S3 lists them. A server started
  without AWS credentials has no client, which is a null `Bucket?`. The
  routes are the login check, the upload checks and write, the filtered
  file listing, the delete, the PIN check in front of the lock stub and
  the storage total. The metadata merge `set_s3_metadata` (`app.py:63-80`)
  is a helper that no route calls; it is modelled on its own. Upload,
  delete and the metadata merge change the bucket through its methods.
  The listing is a loop that builds the reply.
- **The dashboard** (`document-locker-backend/frontend/dashboard-script.js`),
  module `DashboardView` in `dashboard.dfy`. The `Dashboard` class holds the
  records on screen, the set of selected ids, the folder path, the contents
  of folders made in the browser and the search query. Its methods are the
  selection handlers, search, folder creation, rename, single and batch
  delete, upload, loading the listing and navigation. Every answer the
  page waits for is an input: the confirmation dialog, the prompt, the
  server's answers, the fresh ids.
- **The sign-in page** (`document-locker-frontend/script.js`), module
  `AuthForm` in `auth_form.dfy`. It holds the field rules, the e-mail
  pattern, the password-strength test, the form-level rule and the
  `currentForm`/`isLoading` state that guards a submission.

`text.dfy` (module `Text`) defines the string built-ins the three programs
use: JavaScript's `trim()` and `\s`, `toLowerCase()`, `includes()`,
`startsWith()`, and the last `/`-separated segment that Python's
`split('/')[-1]` gives. `wrappers.dfy` holds the `Option` type.

The model follows the code in three places where it does something that
its own messages or other code suggest it does not mean to do:

- A batch delete in which at least one item succeeded removes **every**
  selected record from the screen, including those whose server delete
  failed (`dashboard-script.js:511-512`), although the notifications at
  `dashboard-script.js:516` and `dashboard-script.js:519` report only the
  successes as deleted and the rest as failed.
- The selection is not cleared when the view changes. After navigation
  it can hold ids that are no longer on screen.
- A registration password that begins or ends with white space can never
  be confirmed. The confirmation is trimmed but the password it is
  compared with is not (`script.js:111`, `script.js:143-144`).
  `AuthForm.PaddedPasswordNeverConfirms` states this.

## Model

| member | source | states |
|---|---|---|
| Text.TrimStart | document-locker-frontend/script.js:111 | the result is the suffix of the input that starts at its first non-white-space character; everything dropped is white space |
| Text.TrimEnd | document-locker-frontend/script.js:111 | the result is the prefix of the input that ends at its last non-white-space character; everything dropped is white space |
| Text.TrimEmptyIffBlank | document-locker-backend/frontend/dashboard-script.js:441 | a string trims to the empty string exactly when it is all white space, which is what `x && x.trim()` tests |
| Text.TrimIdempotent | document-locker-backend/frontend/dashboard-script.js:482 | trimming an already trimmed string changes nothing, so a renamed record's name is trimmed |
| Text.TrimIgnoresPadding | document-locker-frontend/script.js:111 | white space around a string does not change its trimmed value |
| Text.ContainsEmpty | document-locker-backend/frontend/dashboard-script.js:839 | every name includes the empty query |
| Text.LastSegment | document-locker-backend/app.py:175 | the result is the suffix of the key after its last `/` (all of it when there is none), and it holds no `/` |
| Text.LastSegmentAfterSlash | document-locker-backend/app.py:175 | the last segment of `p + "/" + name` is `name` when `name` holds no `/` |
| StorageApi.Without | document-locker-backend/app.py:219 | deleting a key from the listing order keeps every other key, in order, and keeps keys distinct |
| StorageApi.KeyLessIrreflexive | document-locker-backend/app.py:158 | no key lists before itself |
| StorageApi.KeyLessTransitive | document-locker-backend/app.py:158 | the listing order of keys is transitive |
| StorageApi.KeyLessTotal | document-locker-backend/app.py:158 | of two different keys, one lists before the other |
| StorageApi.SortedDistinct | document-locker-backend/app.py:158 | keys in strictly ascending order are distinct |
| StorageApi.Insert | document-locker-backend/app.py:125-128 | inserting a key adds exactly that key to the bucket's keys |
| StorageApi.InsertSorted | document-locker-backend/app.py:125-128 | a new key is inserted at its place in ascending key order, so the keys stay sorted |
| StorageApi.WithoutInsert | document-locker-backend/app.py:125-128 | taking a newly inserted key out again gives the old keys back, so only that key was added |
| StorageApi.WithoutSorted | document-locker-backend/app.py:219 | deleting a key keeps the other keys in ascending order |
| StorageApi.ListingInKeyOrder | document-locker-backend/app.py:158-161 | over a sorted bucket, the listing's entries come out in strictly ascending key order |
| StorageApi.Bucket.Put | document-locker-backend/app.py:125-128 | storing an object under a new key adds it to the map and inserts its key at its place in ascending key order, and the stored bytes grow by its size |
| StorageApi.Bucket.Remove | document-locker-backend/app.py:219 | deleting a stored key removes it from map and order, and the stored bytes drop by its size |
| StorageApi.Bucket.ReplaceMetadata | document-locker-backend/app.py:71-79 | copying an object onto itself replaces only its metadata |
| StorageApi.SumSizesFrame | document-locker-backend/app.py:268 | the total depends only on the sizes stored under the listed keys |
| StorageApi.SumSizesAfterPut | document-locker-backend/app.py:268 | a new object adds exactly its size to the total |
| StorageApi.SumSizesAfterRemove | document-locker-backend/app.py:268 | a deleted object takes exactly its size off the total |
| StorageApi.Login | document-locker-backend/app.py:82-88 | 200 with the demo token exactly when both e-mail and password are present and non-empty; otherwise 401 "Invalid credentials" |
| StorageApi.IsDigits | document-locker-backend/app.py:244 | `isdigit()`: true exactly for a non-empty string of digits |
| StorageApi.LockFile | document-locker-backend/app.py:239-247 | the PIN passes exactly when it is present, has length 4 or 6 and is all digits; anything else is 400 "PIN must be 4 or 6 digits" |
| StorageApi.UploadKeyNamesFile | document-locker-backend/app.py:119 | the key is `folder/filename` under a non-empty folder and `filename` otherwise, and its last segment is the file name |
| StorageApi.CheckUpload | document-locker-backend/app.py:109-123 | refused with 400 exactly when the file part is missing, the file name is empty or the key exists; an accepted object has a free key, the file's size and type, and metadata that the root listing and its folder's listing both show |
| StorageApi.UploadFile | document-locker-backend/app.py:105-149 | 503 without a client; a refused upload leaves the bucket unchanged; an accepted one adds exactly the checked object under its key, placed in ascending key order |
| StorageApi.ListingContents | document-locker-backend/app.py:159-187 | the listing holds exactly the objects whose `is_trashed` equals the requested value (default "false") and, when a folder is asked for, whose `folder` equals it; each entry carries the full key and is named by its last segment |
| StorageApi.ListFiles | document-locker-backend/app.py:151-189 | without a client an empty list and the notice; otherwise the filtered entries in ascending key order, as S3 lists them |
| StorageApi.UploadedFileIsListed | document-locker-backend/app.py:119-149 | after an accepted upload, the root listing and the listing of its folder show the new key under the sanitised file name |
| StorageApi.DeleteFile | document-locker-backend/app.py:211-222 | 503 without a client; 404 with nothing changed for a missing key; otherwise exactly that key is removed |
| StorageApi.GetStorageUsage | document-locker-backend/app.py:257-271 | the total is the sum of the sizes of all objects, 0 for an empty bucket and 0 with the notice without a client |
| StorageApi.SetS3Metadata | document-locker-backend/app.py:63-80 | false with nothing changed without a client or for a missing key; otherwise the new keys overwrite, the other old keys stay, and nothing else changes |
| AuthForm.EmailShape | document-locker-frontend/script.js:161-164 | an address is valid exactly when it is a non-empty run without white space or `@`, then `@`, then a run without white space or `@` that has a `.` that is neither its first nor its last character |
| AuthForm.EmailHasOneAt | document-locker-frontend/script.js:161-164 | a valid address has exactly one `@`; one with none or with several is invalid |
| AuthForm.CountSplit | document-locker-frontend/script.js:162 | the `@` count of a string is the sum over the two parts of any split |
| AuthForm.CountAbsent | document-locker-frontend/script.js:162 | a string without `@` has `@` count 0 |
| AuthForm.HasLetter | document-locker-frontend/script.js:168 | true exactly when some character is an ASCII letter |
| AuthForm.HasDigit | document-locker-frontend/script.js:169 | true exactly when some character is a digit |
| AuthForm.StrongPasswordExtends | document-locker-frontend/script.js:167-171 | a strong password stays strong whatever is added before or after it |
| AuthForm.FieldRules | document-locker-frontend/script.js:110-158 | name: valid exactly when the trimmed value has at least 2 characters; e-mail: exactly when the trimmed value matches the pattern, so it has one `@`; password: exactly when the trimmed value has at least 6 characters; confirmation: exactly when its trimmed value equals the raw password; any other input is valid |
| AuthForm.ValidateFieldIgnoresPadding | document-locker-frontend/script.js:111 | white space around a value never changes a field's verdict |
| AuthForm.PaddedPasswordNeverConfirms | document-locker-frontend/script.js:142-148 | when the registration password begins or ends with white space, no confirmation passes |
| AuthForm.ValidateForm | document-locker-frontend/script.js:205-230 | the form is valid exactly when every input passes its rule and, on the registration form, the terms box is checked |
| AuthForm.AuthScreen.constructor | document-locker-frontend/script.js:5-6 | the screen starts on the login form with nothing loading |
| AuthForm.AuthScreen.ShowForm | document-locker-frontend/script.js:48-52 | the form shown becomes the current form |
| AuthForm.AuthScreen.SetLoading | document-locker-frontend/script.js:343-344 | the loading flag takes the given value |
| AuthForm.AuthScreen.HandleLogin | document-locker-frontend/script.js:235-258 | while loading, the submission is ignored; otherwise an invalid login form is rejected with nothing changed, and a valid one sets loading and is sent |
| AuthForm.AuthScreen.HandleRegister | document-locker-frontend/script.js:302-322 | the same guard for the registration form, which also needs the terms box |
| AuthForm.AuthScreen.Submit | document-locker-frontend/script.js:238-257 | the guard and validation both handlers share |
| AuthForm.AuthScreen.FinishRequest | document-locker-frontend/script.js:295-297 | once the request settles, loading is off |
| DashboardView.FindIndex | document-locker-backend/frontend/dashboard-script.js:477 | `find` by id: nothing exactly when no record has the id, otherwise the first record with it |
| DashboardView.FindFolder | document-locker-backend/frontend/dashboard-script.js:556 | `find` of a folder by name: the first folder record with that name, or nothing when there is none |
| DashboardView.SearchFilter | document-locker-backend/frontend/dashboard-script.js:838-840 | the records shown are exactly those whose lower-cased name includes the lower-cased query, each as often as in the list at most |
| DashboardView.SearchFilterAppend | document-locker-backend/frontend/dashboard-script.js:838-840 | the filter keeps the original order |
| DashboardView.EmptyQueryKeepsAll | document-locker-backend/frontend/dashboard-script.js:838-840 | an empty query shows every record |
| DashboardView.MatchesOwnName | document-locker-backend/frontend/dashboard-script.js:839 | a query equal to a name up to case finds that record |
| DashboardView.RemoveIdsContents | document-locker-backend/frontend/dashboard-script.js:512 | the records kept are exactly those whose id is not removed, each at most as often as before |
| DashboardView.RemoveIdsIds | document-locker-backend/frontend/dashboard-script.js:512 | the ids left are the old ones minus the removed ones |
| DashboardView.RemoveIdsUniqueIds | document-locker-backend/frontend/dashboard-script.js:512 | removing records keeps the ids of the rest unique |
| DashboardView.AppendUniqueIds | document-locker-backend/frontend/dashboard-script.js:153 | two lists with unique ids and no id in common have unique ids once joined |
| DashboardView.RemoveIdsAppend | document-locker-backend/frontend/dashboard-script.js:512 | removal keeps the order of what remains |
| DashboardView.RemoveAbsentIds | document-locker-backend/frontend/dashboard-script.js:974 | removing ids no record carries changes nothing |
| DashboardView.Succeeding | document-locker-backend/frontend/dashboard-script.js:501-509 | the successful deletions are among the selected ids |
| DashboardView.SucceedingStep | document-locker-backend/frontend/dashboard-script.js:509 | counting one more answer adds one success exactly when it succeeded |
| DashboardView.CountOutcomes | document-locker-backend/frontend/dashboard-script.js:498-510 | the results of the deletions, counted as successes and failures, one per selected id |
| DashboardView.LocalSelectionSucceeds | document-locker-backend/frontend/dashboard-script.js:502-506 | a selection of folders, local records or unknown ids succeeds entirely without a server call |
| DashboardView.Renamed | document-locker-backend/frontend/dashboard-script.js:477-485 | unless the record is found and the answer is present, non-blank and different from the old name, nothing changes; otherwise only that record changes, its name becoming the trimmed answer, which is not blank |
| DashboardView.RenameKeepsIds | document-locker-backend/frontend/dashboard-script.js:482 | a rename keeps the set of ids |
| DashboardView.RenamedUniqueIds | document-locker-backend/frontend/dashboard-script.js:482 | a rename keeps ids unique |
| DashboardView.FromServer | document-locker-backend/frontend/dashboard-script.js:95-107 | one record per listed file, with its name and size, the fresh id, and the key (or the name when there is no key) as its server file |
| DashboardView.LoadedNamesAreLastSegments | document-locker-backend/frontend/dashboard-script.js:95-107 | each record loaded from the listing is named by the last segment of its server file |
| DashboardView.FromServerUniqueIds | document-locker-backend/frontend/dashboard-script.js:97 | distinct fresh ids give records with distinct ids |
| DashboardView.Loaded | document-locker-backend/frontend/dashboard-script.js:80-121 | a failed load leaves no records; a successful one one record per listed file |
| DashboardView.UploadedRecords | document-locker-backend/frontend/dashboard-script.js:124-164 | at most one record per chosen file, each a file record whose server file is its own name |
| DashboardView.UploadedRecordsContents | document-locker-backend/frontend/dashboard-script.js:139-153 | every successful upload has its record, named after the local file, among those appended |
| DashboardView.UploadStep | document-locker-backend/frontend/dashboard-script.js:153 | one more chosen file appends its record and counts one success exactly when its upload succeeded |
| DashboardView.CountOk | document-locker-backend/frontend/dashboard-script.js:416-417 | the number of successful uploads, all of them exactly when every upload succeeded |
| DashboardView.UploadedRecordsCount | document-locker-backend/frontend/dashboard-script.js:153 | one record is appended per successful upload |
| DashboardView.UploadedRecordsIds | document-locker-backend/frontend/dashboard-script.js:153 | every uploaded record carries the fresh id generated for one of the chosen files |
| DashboardView.UploadedRecordsUniqueIds | document-locker-backend/frontend/dashboard-script.js:153 | distinct generated ids give the uploaded records distinct ids |
| DashboardView.UploadKeepsUniqueIds | document-locker-backend/frontend/dashboard-script.js:153 | appending the uploaded records keeps ids unique when the generated ids are distinct and none is already on screen |
| DashboardView.TotalSizeAppend | document-locker-backend/frontend/dashboard-script.js:1153-1156 | the total of two lists together is the sum of their totals |
| DashboardView.RemoveIdsShrinksTotal | document-locker-backend/frontend/dashboard-script.js:1153-1156 | deleting records never increases the total |
| DashboardView.IconColor | document-locker-backend/frontend/dashboard-script.js:1001-1010 | gray without a type, green for images, red only for some `pdf` type, purple only for a non-`pdf` `text/` type, and always one of the five colours |
| DashboardView.Toggled | document-locker-backend/frontend/dashboard-script.js:693-699 | the id's membership flips and every other id keeps its membership |
| DashboardView.ToggleTwice | document-locker-backend/frontend/dashboard-script.js:693-699 | toggling twice restores the selection |
| DashboardView.OnlyMember | document-locker-backend/frontend/dashboard-script.js:476 | the first element of a one-element selection is its only element |
| DashboardView.Dashboard.constructor | document-locker-backend/frontend/dashboard-script.js:3-13 | nothing on screen, nothing selected, at the root, no folders, no query |
| DashboardView.Dashboard.ToggleFileSelection | document-locker-backend/frontend/dashboard-script.js:693-699 | the selection becomes the toggled selection |
| DashboardView.Dashboard.SelectSingleFile | document-locker-backend/frontend/dashboard-script.js:701-704 | the selection becomes exactly that id |
| DashboardView.Dashboard.SelectAll | document-locker-backend/frontend/dashboard-script.js:1384-1392 | Ctrl+A adds the id of every record on screen to the selection |
| DashboardView.Dashboard.ClearSelection | document-locker-backend/frontend/dashboard-script.js:1403-1408 | Escape empties the selection |
| DashboardView.Dashboard.Search | document-locker-backend/frontend/dashboard-script.js:647-654 | the query is stored, and the records shown are `SearchFilter` of those on screen: the matching ones, in their original order, each no more often than on screen, and every record for an empty query |
| DashboardView.Dashboard.CreateFolder | document-locker-backend/frontend/dashboard-script.js:446-459 | exactly one folder record of size 0 is appended, its contents are set to empty, and fresh ids stay unique |
| DashboardView.Dashboard.HandleNewFolder | document-locker-backend/frontend/dashboard-script.js:439-444 | a cancelled or blank answer changes nothing; any other answer creates a folder under its trimmed name |
| DashboardView.Dashboard.HandleRename | document-locker-backend/frontend/dashboard-script.js:470-487 | nothing changes unless exactly one id is selected; then the records are renamed as `Renamed` states; unique ids stay unique |
| DashboardView.Dashboard.DeleteFileById | document-locker-backend/frontend/dashboard-script.js:961-986 | deleted exactly when the id has a record, the user confirmed, and the record has no server file or the server deleted it; then every record with that id goes and the id is deselected; otherwise nothing changes; unique ids stay unique and the total never grows |
| DashboardView.Dashboard.HandleDelete | document-locker-backend/frontend/dashboard-script.js:489-527 | no selection or no confirmation changes nothing; otherwise one answer per selected id is counted, and if any succeeded all selected records go and the selection is cleared, while if none did nothing changes; unique ids stay unique, the total never grows, and a selection with no id on screen removes no record |
| DashboardView.Dashboard.LoadFilesFromServer | document-locker-backend/frontend/dashboard-script.js:80-121 | the records become those built from the listing, or none when the request failed |
| DashboardView.Dashboard.UploadFiles | document-locker-backend/frontend/dashboard-script.js:408-437 | the records of the successful uploads are appended in order, the counts of successes and failures are returned, the total never shrinks, and unique ids stay unique when the generated ids are distinct and fresh |
| DashboardView.Dashboard.StorageUsage | document-locker-backend/frontend/dashboard-script.js:1153-1156 | the sum of the sizes on screen, 0 with nothing on screen |
| DashboardView.Dashboard.NavigateToRoot | document-locker-backend/frontend/dashboard-script.js:565-569 | the path is emptied and the listing reloaded |
| DashboardView.Dashboard.NavigateBack | document-locker-backend/frontend/dashboard-script.js:571-577 | at the root nothing changes; otherwise the last folder is popped and the listing reloaded |
| DashboardView.Dashboard.OpenFolder | document-locker-backend/frontend/dashboard-script.js:579-583 | the folder's name is pushed on the path and its stored contents, or nothing, are shown |
| DashboardView.Dashboard.JumpToBreadcrumb | document-locker-backend/frontend/dashboard-script.js:613-620 | the path keeps its first `index + 1` names (all of them if it is shorter), and the listing is reloaded |
| DashboardView.Dashboard.HandleNavigation | document-locker-backend/frontend/dashboard-script.js:538-563 | "All Files" goes to the root, "Back" goes back, and any other text opens the first folder of that name on screen, or changes nothing when there is none |

## Left out

- Presentation: HTML templating, class toggles, the loading overlay, modals, notifications, the breadcrumb markup, the right panel and the error messages shown next to fields.
- I/O: `fetch`, `FormData`, blobs, `localStorage`, redirects and `send_file`. Server answers, dialog and prompt answers and the terms box are inputs of the methods that use them.
- Timers: the search debounce, notification dismissal, the delayed redirects and the simulated registration call.
- Concurrency: `Promise.all` in uploads and deletes is a sequential pass. Uploaded records are appended in the order the files were chosen, not in the order the uploads finished.
- DashboardView.CountOutcomes: the server's answer for a file is a function of its server name. Two selected ids with the same server file therefore get the same answer.
- `generateFileId`, which uses the clock and a random number: fresh ids are inputs, and `UniqueIds` holds only when they are distinct.
- `secure_filename` is a foreign library function and is a parameter. `dotenv`, Flask routing, static serving, the status route and the download route are not part of this model.
- boto3 errors: the 500 replies for exceptions are not modelled, and neither are `list_objects_v2`'s 1000-key page limit, `last_modified` and the `unit` and `file_count` fields of the storage reply without a client. Keys are ordered by code point, which is the UTF-8 binary order S3 uses on Unicode scalar values.
- The stub routes `trash`, `restore`, `permanent-delete`, `unlock` and `me` return fixed messages. They are left out, as are social sign-in, forgot-password, password visibility and logout.
- `formatFileSize`, `formatDate`, the GB and percentage figures of the storage bar and thumbnails are float or locale formatting.
- Text.LowerChar: `toLowerCase` is modelled for ASCII letters only.
- StorageApi.IsDigits: Python's `isdigit` is modelled for ASCII digits only.
- String lengths count code points, not UTF-16 code units.
- StorageApi.Login and StorageApi.LockFile: JSON values are modelled as optional strings. A missing JSON body, and non-string values such as numbers, are not modelled.
- DashboardView.Dashboard.OpenFolder: `files` is a value here. In the source it becomes the very array stored in `folders`, so later pushes change both; that aliasing is not modelled.
- DashboardView.FileRecord: an absent size is 0, and an absent server file name or type is the empty string. The source reads these fields only through truthiness tests and `size || 0`, so nothing it does depends on the difference.
- `isStrongPassword` is defined but no field rule calls it in the source. It is modelled on its own.
- `handleShare`, `previewFile` and `downloadFileById` are not modelled: they only read state and notify.
