# AgendaSegura, modelled in Dafny

AgendaSegura is a "secure agenda" made of two apps. The Expo/React-Native app
hides photos, videos and address-book contacts in a vault folder,
`CofreSeguro/`, under the app's document directory. It lists, restores and
deletes what the vault holds, and it resets the app password through a
security question. The Android (Kotlin) app holds the password gate: first-run
registration, the login check, password recovery by SMS, the contact list
with masked numbers, and the add-contact form.

This project models the handlers that carry that logic and proves what they
promise. The device is an abstract state (`Platform.Device`):

- a file system (`Platform.Disk`): whether the vault directory exists, the
  vault's files by name, and every other file by path;
- the address book (id to record);
- the secure store (key to value).

The Android preferences file is `Preferences.SharedPreferences`. Each library
call is a method on that state. A call that can throw takes a `fault` flag, so
the proofs cover every pattern of failures. Things the code cannot control
are parameters: the order `readDirectoryAsync` lists files in, the id the
address book assigns, the user's answer to a confirmation dialog, the
timestamp and the unique part of a temporary file name, and
`JSON.stringify`/`JSON.parse` (an abstract `Platform.Codec`).

Modules, one per source file, plus three shared ones:

- `Wrappers`: `Option`.
- `Text`: `trim`, `toLowerCase`, `endsWith` and `split('/').pop()`.
- `Platform`: the device state and the library calls.
- `CofreScreen`: app/screens/CofreScreen.js.
- `ContatosScreen`: ContatosScreen.js.
- `ContatosCofreScreen`: app/screens/ContatosCofreScreen.js.
- `CofreGalleryScreen`: app/screens/CofreGalleryScreen.js.
- `RecoveryScreen`: app/screens/RecoveryScreen.js.
- `RecuperacaoScreen`: app/screens/RecuperacaoScreen.js.
- `Preferences`: the SharedPreferences file and its editor.
- `MainActivity`, `CadastroActivity`, `ContatosAdapter` (with the `Contato`
  record of Contato.kt) and `AdicionarContatoActivity`: the Kotlin files of the
  same names.

The bulk contact hide is the centre of the model. `ContatosScreen.VaultAfter`,
`BookAfter`, `HiddenCount` and `FailedIds` say, by recursion on the handled
prefix of the selected ids, what the vault, the address book, the success
counter and the error alerts are after each step. The loop
(`ContatosScreen.HideAll`, called by `EncryptAndRemoveSelected` once the vault
directory exists) keeps these four as its invariants, and its body
(`HideContact`) is proved against one id's `Outcome`.
The lemmas beside it prove the following:

- write-before-delete;
- the count is at most the number of selected ids, and equals the number of
  contacts removed;
- an id that is not found leaves no trace;
- a record hidden this way comes back from the next vault listing
  (`ContatosCofreScreen.HiddenContactReloads`).

A selected id with no loaded contact is skipped silently: no file, no
removal, no count and no alert (ContatosScreen.js:96-101). See
`ItemOutcome.Skipped` and `ContatosScreen.SkippedLeavesNoTrace`.

## Model

| member | source | states |
|---|---|---|
| Platform.VaultDirOf | app/screens/CofreScreen.js:10 | `COFRE_DIR` is the document directory followed by a folder name ending in `/` |
| Platform.Device.MakeVaultDirectory | app/screens/CofreScreen.js:49 | creating the vault directory with intermediates succeeds unless the call faults, also when the directory exists; no file changes |
| Platform.Device.Move | app/screens/CofreScreen.js:56-59 | `moveAsync` succeeds exactly when it does not fault, the source exists and the target's directory exists; then the target holds the source's content and the source is gone; on failure nothing changes |
| Platform.MoveLookups | app/screens/CofreScreen.js:56-59 | after a move, the target reads the old source content, the source reads nothing, and every other path reads as before |
| Platform.MakeDirectoryKeepsFiles | app/screens/CofreScreen.js:49 | creating the vault directory changes what no path reads |
| Platform.Device.WriteText | ContatosScreen.js:107 | `writeAsStringAsync` creates or overwrites exactly one file, when its directory exists |
| Platform.Device.Delete | app/screens/CofreGalleryScreen.js:63 | `deleteAsync` without `idempotent` fails on a missing file; otherwise it removes exactly that file |
| Platform.Device.DeleteVault | app/screens/CofreScreen.js:123 | the idempotent delete of `COFRE_DIR` removes the directory and every vault file and nothing else |
| Platform.Device.RemoveContact | ContatosScreen.js:112 | `removeContactAsync(id)` removes exactly that id from the address book, or fails and changes nothing |
| Platform.Device.AddContact | app/screens/ContatosCofreScreen.js:76-78 | `addContactAsync` takes a record without an id and files it under a new id the address book chooses, or fails and changes nothing |
| Platform.Device.SetSecureItem | app/screens/RecoveryScreen.js:36 | `setItemAsync` overwrites one key of the secure store, or fails and changes nothing |
| Platform.LookupVaultEntry | app/screens/ContatosCofreScreen.js:36-40 | reading `COFRE_DIR + name` yields the vault file of that name |
| Text.Trim | app/screens/RecoveryScreen.js:19 | `trim()` returns a string with no whitespace at either end |
| Text.TrimDecompose | app/screens/RecoveryScreen.js:19 | the input is the trimmed result padded with whitespace on both sides |
| Text.TrimOfPadded | app/screens/RecoveryScreen.js:19 | a trimmed string padded with whitespace trims back to itself, so trim is characterised by the two properties above |
| Text.TrimIgnoresPadding | app/src/main/java/com/exemplo/agendasegura/CadastroActivity.kt:47-48 | adding whitespace around the input never changes what trim returns |
| Text.TrimIdempotent | app/src/main/java/com/exemplo/agendasegura/AdicionarContatoActivity.kt:222-223 | trimming twice is trimming once |
| Text.ToLower | app/screens/RecoveryScreen.js:19 | `toLowerCase()` keeps the length and lowers each letter in place |
| Text.ToLowerAppend | app/screens/RecoveryScreen.js:19 | lowering distributes over concatenation |
| Text.ToLowerIdempotent | app/screens/CofreGalleryScreen.js:34 | lowering twice is lowering once |
| Text.EndsWith | app/screens/ContatosCofreScreen.js:31 | a string ending with a suffix is some prefix followed by that suffix |
| Text.LastSegment | app/screens/CofreScreen.js:52 | `split('/').pop()` is the longest suffix without `/`, preceded by `/` when shorter than the input |
| Text.LastSegmentOfJoin | app/screens/CofreScreen.js:52-53 | the last segment of a directory ending in `/` joined with a name is that name |
| CofreScreen.HiddenPath | app/screens/CofreScreen.js:52-53 | a hidden file lands in the vault under the last `/`-segment of its URI (on the vault root when that segment is empty) |
| CofreScreen.HiddenPathOfVaultFile | app/screens/CofreScreen.js:52-53 | a file already in the vault is hidden under its own name |
| CofreScreen.SaveMediaToCofre | app/screens/CofreScreen.js:46-67 | ensure the directory, then move: success exactly when both calls succeed, the source exists and its name is non-empty; on success the vault gains the file and the source loses it, and nothing else changes; a failed directory call changes nothing; a failure reports the lower-cased media type and is never rethrown |
| CofreScreen.DeleteCofreContent | app/screens/CofreScreen.js:118-132 | an existing vault is removed with all its files and nothing else; an absent vault gives "already empty" and no change; any failure changes nothing |
| CofreScreen.BackupPath | app/screens/CofreScreen.js:147-148 | the artifact path is the cache directory followed by `AgendaSegura_Backup_Seguro.txt` |
| CofreScreen.ExportCofreContent | app/screens/CofreScreen.js:145-174 | the fixed placeholder is written to the cache before sharing is checked, so it exists when sharing is unavailable and when the availability check throws; the export fails iff the write or that check throws; the vault is never read or changed; no other path changes |
| CofreScreen.ImportCofreContent | app/screens/CofreScreen.js:176-178 | import only answers "pending" and touches no state |
| ContatosScreen.Toggle | ContatosScreen.js:53-58 | toggling flips exactly the toggled id's selection; a new id is appended to the keys and an existing one keeps its place |
| ContatosScreen.SelectedIds | ContatosScreen.js:76 | the ids to hide are only keys, and, when keys are distinct, exactly the keys whose flag is on, each once |
| ContatosScreen.ToggleTwice | ContatosScreen.js:53-58 | with distinct keys, toggling an id twice restores the selected ids |
| ContatosScreen.BackupName | ContatosScreen.js:104 | a backup name is `contato_`, the id, then `.json` |
| ContatosScreen.BackupNameInjective | ContatosScreen.js:104 | different ids never share a `contato_<id>.json` file |
| ContatosScreen.BackupNameLocation | ContatosScreen.js:104 | the backup path is a vault entry unless the id holds `/` |
| ContatosScreen.Find | ContatosScreen.js:96 | the found contact is the first in the loaded list with the id; no result means no loaded contact has it |
| ContatosScreen.HideEnv.Outcome | ContatosScreen.js:96-112 | an id is skipped iff no loaded contact has it; it is written only with a non-empty payload, a slash-free id and a write that does not fail; it is hidden iff it is written and its removal does not fail |
| ContatosScreen.VaultAfterKeepsFiles | ContatosScreen.js:94-119 | the loop only adds vault files: every file that existed before it is still there after it |
| ContatosScreen.Step | ContatosScreen.js:94-119 | one more handled id changes the vault, the address book, the count and the alerts exactly as its outcome says |
| ContatosScreen.CountBound | ContatosScreen.js:113 | successes plus reported failures never exceed the selected ids |
| ContatosScreen.FailedIdsMembers | ContatosScreen.js:115-118 | an error alert is shown exactly for the selected ids whose write or removal failed |
| ContatosScreen.BookAfterRemovesHidden | ContatosScreen.js:112 | the address book loses exactly the ids that were both written and removed |
| ContatosScreen.HiddenCountIsSize | ContatosScreen.js:113 | with each id selected once, the count is the number of hidden ids |
| ContatosScreen.CountEqualsRemoved | ContatosScreen.js:112-122 | the reported count equals the number of contacts that left the address book |
| ContatosScreen.VaultAfterBackup | ContatosScreen.js:103-107 | a contact's vault file exists afterwards iff it existed before or the contact was written, and then it holds the serialised record |
| ContatosScreen.VaultAfterKeeps | ContatosScreen.js:104-107 | vault files that no handled id writes to are left as they were |
| ContatosScreen.WriteBeforeDelete | ContatosScreen.js:104-112 | a contact that left the address book has its whole record, id included, in its vault file |
| ContatosScreen.SkippedLeavesNoTrace | ContatosScreen.js:96-101 | an id missing from the loaded contacts gets no file, no removal, no count and no alert |
| ContatosScreen.PartialFailure | ContatosScreen.js:94-119 | three selected contacts with a failing second write: the first and third are hidden, counted and backed up; the second stays in the address book, gets no file and is reported |
| ContatosScreen.HideContact | ContatosScreen.js:95-118 | one pass of the loop body: its outcome is the id's `Outcome`; the vault gains the backup file exactly when the outcome is a written one, and the address book loses the id exactly when it is hidden |
| ContatosScreen.HideAll | ContatosScreen.js:94-119 | the loop over the selected ids leaves the vault, the address book, the count and the alerts as `VaultAfter`, `BookAfter`, `HiddenCount` and `FailedIds` say for the whole list |
| ContatosScreen.EncryptAndRemoveSelected | ContatosScreen.js:75-127 | no selection or a dismissed confirmation changes nothing; a failed directory call before the loop changes nothing; otherwise the vault, address book, count and alerts are those of handling the selected ids in order, each failure caught per id |
| ContatosCofreScreen.ContactFiles | app/screens/ContatosCofreScreen.js:31 | exactly the names ending in `.json` are kept, in order |
| ContatosCofreScreen.ContactFilesAppend | app/screens/ContatosCofreScreen.js:31 | filtering keeps directory order: filtering a listing is filtering its two halves and joining the results |
| ContatosCofreScreen.ContactFilesCaseSensitive | app/screens/ContatosCofreScreen.js:31 | `.JSON` is not kept: the test is case-sensitive |
| ContatosCofreScreen.LoadOne | app/screens/ContatosCofreScreen.js:36-49 | a file yields a record only when it reads and parses, and the record carries `cofrePath` = `COFRE_DIR` + its name |
| ContatosCofreScreen.LoadAll | app/screens/ContatosCofreScreen.js:35-50 | every collected record's `cofrePath` lies under `COFRE_DIR` |
| ContatosCofreScreen.LoadAllBound | app/screens/ContatosCofreScreen.js:35-50 | no more records are loaded than there are `.json` files |
| ContatosCofreScreen.LoadAllAppend | app/screens/ContatosCofreScreen.js:35-50 | loading follows directory order: a bad file never disturbs the records before or after it |
| ContatosCofreScreen.LoadAllMembers | app/screens/ContatosCofreScreen.js:38-49 | a record is loaded iff some listed file reads and parses to it |
| ContatosCofreScreen.LoadCofreContacts | app/screens/ContatosCofreScreen.js:18-60 | with the listing naming each vault file once, an absent vault gives an empty list; a failing directory call gives the error alert; otherwise the list is the filtered, skipping load, in directory order |
| ContatosCofreScreen.HiddenContactReloads | app/screens/ContatosCofreScreen.js:30-45 | a contact the bulk hide wrote is listed again as the same record, when the codec round-trips |
| ContatosCofreScreen.HandleRestoreContact | app/screens/ContatosCofreScreen.js:65-95 | the old id is dropped before the record is handed to the address book, which files it under a new one; the vault file is deleted only after creation succeeds; a failed creation leaves the vault file |
| CofreGalleryScreen.IsVideoName | app/screens/CofreGalleryScreen.js:34 | only a name of at least four characters can be a video |
| CofreGalleryScreen.MediaList | app/screens/CofreGalleryScreen.js:33-41 | one item per listed name, in the same order, with id and name the file name, uri `COFRE_DIR` + name, and video iff the name is a video name |
| CofreGalleryScreen.LoadCofreMedia | app/screens/CofreGalleryScreen.js:21-49 | with the listing naming each vault file once, an absent vault shows nothing; a failing directory call keeps the old list; otherwise every listed file is shown |
| CofreGalleryScreen.ClassificationIgnoresCase | app/screens/CofreGalleryScreen.js:34 | classification looks only at the lower-cased name |
| CofreGalleryScreen.ExtensionDecides | app/screens/CofreGalleryScreen.js:34 | a name is a video iff its last four characters, lowered, are `.mov` or `.mp4` |
| CofreGalleryScreen.UpperCaseVideo | app/screens/CofreGalleryScreen.js:34 | `clip.MP4` is a video and `foto.jpg` a photo |
| CofreGalleryScreen.ContactBackupShownAsPhoto | app/screens/CofreGalleryScreen.js:33-41 | contact backups are not filtered out and show as photos |
| CofreGalleryScreen.EachVaultFileShownOnce | app/screens/CofreGalleryScreen.js:31-41 | every vault file appears exactly once in the gallery |
| CofreGalleryScreen.DeleteMedia | app/screens/CofreGalleryScreen.js:52-74 | a confirmed, successful delete removes exactly `item.uri` and then reloads; a failure or cancellation changes nothing and does not reload |
| CofreGalleryScreen.DeletedItemNotShown | app/screens/CofreGalleryScreen.js:63-65 | the reloaded gallery no longer shows the deleted file |
| RecoveryScreen.AnswerAccepted | app/screens/RecoveryScreen.js:19 | an accepted answer is at least as long as the security answer |
| RecoveryScreen.AcceptedAnswerShape | app/screens/RecoveryScreen.js:19 | an accepted answer, lowered, is the security answer padded with whitespace |
| RecoveryScreen.AnswerIgnoresCaseAndPadding | app/screens/RecoveryScreen.js:19 | case and surrounding whitespace in the typed answer do not change the verdict |
| RecoveryScreen.PaddedAnswerAccepted | app/screens/RecoveryScreen.js:19 | any padding of any spelling that lowers to the security answer is accepted |
| RecoveryScreen.SecurityAnswerLowerCase | app/screens/RecoveryScreen.js:7 | the fixed answer is already lower case, so it is accepted as typed |
| RecoveryScreen.LeadingSpaceAccepted | app/screens/RecoveryScreen.js:19 | a leading space before an accepted spelling is forgiven |
| RecoveryScreen.RecoveryScreen.constructor | app/screens/RecoveryScreen.js:13-15 | the screen starts in stage 1 with empty fields |
| RecoveryScreen.RecoveryScreen.Shown | app/screens/RecoveryScreen.js:51-74 | stage 1 shows the question form, stage 2 the new-password form |
| RecoveryScreen.RecoveryScreen.SetAnswer | app/screens/RecoveryScreen.js:58 | the answer field exists only in stage 1 and changes nothing else |
| RecoveryScreen.RecoveryScreen.SetNewPassword | app/screens/RecoveryScreen.js:69 | the password field exists only in stage 2 and changes nothing else |
| RecoveryScreen.RecoveryScreen.HandleVerify | app/screens/RecoveryScreen.js:18-25 | the stage becomes 2 iff the lowered, trimmed answer is the security answer; a wrong answer leaves the stage |
| RecoveryScreen.RecoveryScreen.HandleResetPassword | app/screens/RecoveryScreen.js:28-45 | a password under 4 characters is rejected and nothing is stored; otherwise it overwrites `userPassword` unless the store fails; only the secure store changes |
| RecuperacaoScreen.VerificarResposta | app/screens/RecuperacaoScreen.js:8-18 | success iff an answer is stored and strictly equals the typed one; no stored answer means no success; the store is only read |
| RecuperacaoScreen.StricterThanRecoveryScreen | app/screens/RecuperacaoScreen.js:12 | no case folding or trimming: a leading space fails here though the security-question screen accepts it |
| Preferences.GetString | app/src/main/java/com/exemplo/agendasegura/MainActivity.kt:79 | `getString(key, default)` is the stored value when the key is present and the default otherwise |
| Preferences.SharedPreferences.Apply | app/src/main/java/com/exemplo/agendasegura/CadastroActivity.kt:89 | `apply()` writes every pending put over its key and keeps the other entries |
| MainActivity.GetSenhaArmazenada | app/src/main/java/com/exemplo/agendasegura/MainActivity.kt:77-80 | the stored password, or "" when none is stored |
| MainActivity.ValidarSenha | app/src/main/java/com/exemplo/agendasegura/MainActivity.kt:72-75 | true iff the input equals the stored password exactly |
| MainActivity.IsFirstTime | app/src/main/java/com/exemplo/agendasegura/MainActivity.kt:108-111 | true iff the stored password is missing or empty, that is iff the empty input would pass the login check |
| MainActivity.OnCreate | app/src/main/java/com/exemplo/agendasegura/MainActivity.kt:37-40 | the first start redirects to registration; startup never opens the agenda |
| MainActivity.MainActivity.OnEntrarClick | app/src/main/java/com/exemplo/agendasegura/MainActivity.kt:52-61 | the right password opens the agenda; a wrong one clears the field and stays |
| MainActivity.RecuperarSenhaViaSms | app/src/main/java/com/exemplo/agendasegura/MainActivity.kt:82-106 | with no stored phone nothing is sent; without permission nothing is sent; otherwise the message is the fixed prefix followed by the stored password, sent to the stored phone |
| CadastroActivity.ValidarCampos | app/src/main/java/com/exemplo/agendasegura/CadastroActivity.kt:46-79 | the first failing check in the order name, phone, phone length, password, password length, confirmation; none fails iff the form is acceptable |
| CadastroActivity.NameAndPhonePaddingIgnored | app/src/main/java/com/exemplo/agendasegura/CadastroActivity.kt:47-48 | whitespace around name or phone never changes the verdict |
| CadastroActivity.PasswordNotTrimmed | app/src/main/java/com/exemplo/agendasegura/CadastroActivity.kt:49-50 | the password is not trimmed: a trailing space on the confirmation makes a valid form fail |
| CadastroActivity.RegistrationEndsFirstTime | app/src/main/java/com/exemplo/agendasegura/CadastroActivity.kt:85-88 | after a valid registration the app is past its first start and exactly the registered password opens the login |
| CadastroActivity.CadastroActivity.SalvarDados | app/src/main/java/com/exemplo/agendasegura/CadastroActivity.kt:81-92 | the trimmed name, the trimmed phone and the raw password are stored, and `primeiro_acesso` becomes false |
| CadastroActivity.CadastroActivity.OnSalvarClick | app/src/main/java/com/exemplo/agendasegura/CadastroActivity.kt:33-38 | data is saved only when validation passes; otherwise the preferences are untouched |
| ContatosAdapter.RowsAreTheList | app/src/main/java/com/exemplo/agendasegura/ContatosAdapter.kt:23-38 | the rows bound at positions below `getItemCount()` hand back exactly the list, in order, and show its names in order: every contact gets exactly one row and no row lacks a contact |
| ContatosAdapter.OnBindViewHolder | app/src/main/java/com/exemplo/agendasegura/ContatosAdapter.kt:23-36 | position p shows `contatos[p]`'s name unchanged, the mask when its number is hidden and the phone otherwise, and its click hands back that contact |
| ContatosAdapter.MaskIndependentOfPhone | app/src/main/java/com/exemplo/agendasegura/ContatosAdapter.kt:27-28 | a hidden number's row is the same whatever the number is |
| ContatosAdapter.HiddenRowShowsNoDigit | app/src/main/java/com/exemplo/agendasegura/ContatosAdapter.kt:28 | a hidden number's row shows no digit |
| ContatosAdapter.RowShowsPhoneIff | app/src/main/java/com/exemplo/agendasegura/ContatosAdapter.kt:27-31 | the row shows the phone iff the number is visible or the phone is the mask text itself |
| AdicionarContatoActivity.CaptureDirectory | app/src/main/java/com/exemplo/agendasegura/AdicionarContatoActivity.kt:166 | the capture folder is the external files directory of the media type followed by `/AgendaSegura` |
| AdicionarContatoActivity.CaptureFileName | app/src/main/java/com/exemplo/agendasegura/AdicionarContatoActivity.kt:164-169 | a capture file name starts with `FOTO_<ts>_` or `VIDEO_<ts>_` and ends with `.jpg` or `.mp4` |
| AdicionarContatoActivity.PhotoAndVideoNamesDiffer | app/src/main/java/com/exemplo/agendasegura/AdicionarContatoActivity.kt:165-185 | a photo name never equals a video name |
| AdicionarContatoActivity.CaptureFileNameInjective | app/src/main/java/com/exemplo/agendasegura/AdicionarContatoActivity.kt:164-169 | with timestamps of one length, the name determines timestamp and unique part |
| AdicionarContatoActivity.NovoContato | app/src/main/java/com/exemplo/agendasegura/AdicionarContatoActivity.kt:221-251 | an empty trimmed name gives "Nome é obrigatório!" first, then an empty trimmed phone gives "Telefone é obrigatório!"; otherwise the record holds the trimmed texts, the switch state and the captured paths |
| AdicionarContatoActivity.NovoContatoIgnoresPadding | app/src/main/java/com/exemplo/agendasegura/AdicionarContatoActivity.kt:222-223 | whitespace around name or phone never changes the outcome |
| AdicionarContatoActivity.NovoContatoIdempotent | app/src/main/java/com/exemplo/agendasegura/AdicionarContatoActivity.kt:243-251 | a saved record is already trimmed: saving its own texts again gives it back |
| AdicionarContatoActivity.AdicionarContatoActivity.CarregarDadosContato | app/src/main/java/com/exemplo/agendasegura/AdicionarContatoActivity.kt:83-91 | a present name or phone extra replaces its field and an absent one leaves it; the switch takes `contato_oculto`, false when absent |
| AdicionarContatoActivity.AdicionarContatoActivity.CriarArquivo | app/src/main/java/com/exemplo/agendasegura/AdicionarContatoActivity.kt:162-192 | the new file is `<external dir>/AgendaSegura/<capture name>`, remembered in the photo or video path; a failure returns nothing and keeps both paths |
| AdicionarContatoActivity.AdicionarContatoActivity.SalvarContato | app/src/main/java/com/exemplo/agendasegura/AdicionarContatoActivity.kt:221-255 | the outcome is that of the checks on the current fields; the preferences it opens are only read, and what it reads is never used |

## Left out

- Text.Trim: whitespace is the ASCII set (space, tab, line feed, vertical tab, form feed, carriage return); the Unicode spaces that JavaScript's `trim()` and Kotlin's `trim()` also strip are not modelled, and neither are the ASCII separators U+001C–U+001F, which Kotlin's `trim()` also strips and JavaScript's keeps.
- Text.ToLower: only `A`-`Z` are lowered; other Unicode case mappings are not modelled.
- String lengths are counted in characters, not UTF-16 code units, for the password and phone length checks.
- ContatosScreen.Toggle: the selection keeps keys in insertion order; JavaScript's reordering of integer-like keys in `Object.keys` is not modelled.
- Platform.Device.Move: when the target name already exists, `moveAsync` either fails (the fault flag) or leaves the moved file at the target; which of the two the library does is not decided.
- JSON syntax is not modelled: stringify and parse are abstract functions, and parse may fail on any text. The Kotlin add-contact form builds an unescaped JSON string and then discards it; the model keeps the record it describes, not the text.
- There is no encryption to model. `hideAndEncryptContacts` (app/screens/CofreScreen.js:135-141) only shows an alert, so it is not a member.
- Permission requests, camera and gallery pickers, bitmaps, video playback, rendering, styles, navigation and the modals are not modelled. A confirmation dialog becomes a `confirmed` parameter.
- LoginScreen.js is not part of this model: its login navigates without any check.
- SMS sending, the SMS permission check and the secure-store, contacts and file-system providers are outside the model. Their effect or failure is a parameter.
- ContatosScreen.EncryptAndRemoveSelected: a failing `makeDirectoryAsync` outside the per-item `try` leaves an unhandled rejection with the loading flag still set; the model only records that nothing changes (`DirectoryFailed`). The list reload at the end is not modelled.
- ContatosCofreScreen.HandleRestoreContact: `delete contact.id` mutates the listed object in place, and `cofrePath` is passed to `addContactAsync` with the record. Neither is modelled. The reload after success is a separate `LoadCofreContacts` call.
- CofreGalleryScreen.LoadCofreMedia: a vault path that exists but is not a directory is not representable in `Platform.Disk`.
- Loading flags and the React state setters other than the stage and the lists are not modelled.
- AdicionarContatoActivity.AdicionarContatoActivity.CriarArquivo: the external files directory is a parameter that always exists. A null `getExternalFilesDir` is not modelled. The ignored result of `mkdirs()` and any failure of `createTempFile` are folded into the fault flag.
- The two apps keep the password in different stores: `senha` in the Android preferences and `userPassword` in the Expo secure store. The model keeps them apart, as the code does.
