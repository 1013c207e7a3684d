# Vault file encryptor — a Dafny model

This project models the core of a browser application that "encrypts" and
"decrypts" files with a password, in batches, and then downloads the results. The
cryptography is a mock. Encryption prepends the ASCII text `encrypted:<password>:`
to the file's bytes. Decryption does three things:

- It checks that the first 50 bytes start with `encrypted:`.
- It reads the password field between the first and second `:` and compares it
  with the password entered.
- It strips every byte up to and including the second `:` in the whole file.

The model covers four parts of the program:

- **`EncryptionService`** (`encryption_service.dfy`) models the two services and
  their helpers:
  - the framing;
  - the 50-byte window;
  - the `split(':')[1]` field;
  - the `findPrefixEnd` scan;
  - the ten progress reports.

  Each service returns a `Report`: the `EncryptionResult` together with the
  progress values it passed to its callback.
- **`FileService`** (`file_service.dfy`) models these parts:
  - the download name: `.vault` is appended, or stripped, or `decrypted_` is
    prefixed;
  - the guard that refuses to save a failed result;
  - the history of recent files. This is a most-recent-first list capped at
    ten, kept in the browser's storage, which is modelled as a value of type
    `Stored`.
- **`PasswordInput`** (`password_input.dfy`) models the password form:
  - the strength score and its three labels;
  - the mismatch flag;
  - the rule for when a password is handed to the page. In encrypt mode a
    password is handed over only when both fields agree. In decrypt mode every
    edit is handed over.
- **`BatchDriver`** (`batch_driver.dfy`) models the page:
  - the file list and its transitions: append the selected files, remove by id,
    and the per-id status updates;
  - the tab switch that resets the page;
  - `processFiles`, which runs the current tab's service over every listed file
    in order. For each file it downloads a success, records it in the history
    and marks the row completed, or marks the row failed.

`Basics` (`basics.dfy`) holds `Option`, `byte`, `Mode` and ASCII strings.

Passwords are ASCII strings (`AsciiString`). For them, one JavaScript character
is one UTF-16 unit and one UTF-8 byte. The decryptor decodes the 50-byte window
to text before it compares. Decoding drops one leading UTF-8 byte order mark,
and the model does the same (`DecodedWindow`). Apart from that mark, decoding
changes nothing the decryptor compares:

- a `:` byte is always the character `:`;
- a byte of 128 or more never decodes to an ASCII character.

The effects the program has are modelled as values:

- a download is a `Download(fileName, data)`;
- storage is a `Stored`;
- progress callbacks are a sequence of values;
- the random ids and clock readings a run consumes are given as parameters
  (`ids`, `stamps`).

The mock framing only works for passwords without `:` and of at most 40 bytes.
The main theorem, `EncryptionService.RoundTrip`, is stated for exactly those
passwords (`Framable`). Separate lemmas show what the program does outside that
range:

- a longer password is refused, yet its first 40 characters open the file;
- a password with a `:` never opens its own file, yet the part before the `:`
  does, and leaks the rest into the output;
- a buffer without a second `:` is "decrypted" to itself.

The source calls itself a simulation. It notes that a real application would
use the Web Crypto API or similar. This model follows the simulation as written.

## Model

| member | source | states |
|---|---|---|
| Basics.AsciiBytesInjective | src/lib/encryptionService.ts:62 | Two ASCII passwords have equal encodings exactly when they are equal, so comparing the decoded window text decides password equality. |
| EncryptionService.MarkerIsEncryptedText | src/lib/encryptionService.ts:53 | The 10-byte marker is the encoding of `encrypted:`. |
| EncryptionService.ProgressTrace | src/lib/encryptionService.ts:20-26 | There are ten progress reports, all in (0, 100]. They never decrease and the last is 100. |
| EncryptionService.EncryptFile | src/lib/encryptionService.ts:12-38 | Encryption always succeeds. The output is exactly the marker, the password bytes, a `:` and then the untouched content, so its length is 11 + password + content. It reports the full progress trace. |
| EncryptionService.SecondField | src/lib/encryptionService.ts:61 | There is no field exactly when the text has no `:`. Otherwise the field holds no `:`, starts right after the first `:`, and ends at the end of the text or at the next `:`. |
| EncryptionService.Window | src/lib/encryptionService.ts:51 | The window is the first min(length, 50) bytes of the file. |
| EncryptionService.DecodedWindow | src/lib/encryptionService.ts:95-105 | Decoding the window drops a leading byte order mark and keeps every other byte. |
| EncryptionService.MarkedWindowIsDecoded | src/lib/encryptionService.ts:100-101 | A buffer that starts with the marker has no byte order mark, so decoding leaves its window unchanged. |
| EncryptionService.ScanForSecondColon | src/lib/encryptionService.ts:110-119 | Continuing the scan from a point with fewer than two colons seen gives 0 when the buffer has fewer than two `:` bytes. Otherwise it gives the position just past the second `:`. |
| EncryptionService.FindPrefixEnd | src/lib/encryptionService.ts:108-120 | The result is 0 exactly when the buffer has fewer than two `:` bytes. Otherwise the byte before it is a `:` with exactly one `:` before it. |
| EncryptionService.FindPrefixEndUnique | src/lib/encryptionService.ts:108-120 | Those properties identify the result: a `:` at k-1 with one `:` before it means the result is k. |
| EncryptionService.DecryptFile | src/lib/encryptionService.ts:40-92 | Without the marker at the start of the decoded window, the result is the "not encrypted" error. With it, decryption succeeds exactly when the window's second field is the password, and fails with "Incorrect password" otherwise. Any failure carries an error, no data and no progress. A success carries the full trace and the buffer from `findPrefixEnd` onward. |
| EncryptionService.FramedField | src/lib/encryptionService.ts:51-61 | In a buffer framed as marker, field, `:` and rest, with a colon-free field of at most 40 bytes, the window starts with the marker and its second field is exactly the field. |
| EncryptionService.FramedPrefixEnd | src/lib/encryptionService.ts:77-82 | In such a buffer the content starts right after the field's closing `:`, whatever the length of the rest. |
| EncryptionService.DecryptAccepts | src/lib/encryptionService.ts:51-91 | When the decoded window holds the marker and the guess's field, decryption succeeds with what follows the buffer's second `:`. |
| EncryptionService.FindPrefixEndShift | src/lib/encryptionService.ts:108-120 | Bytes without `:` placed in front shift a non-zero prefix end by their length. |
| EncryptionService.DecryptFramed | src/lib/encryptionService.ts:40-92 | Decrypting such a buffer with the field's password succeeds and yields the rest, with the full trace. |
| EncryptionService.RoundTrip | src/lib/encryptionService.ts:30-82 | Decrypting an encrypted file with the same password gives back the original content, for a password without `:` and of at most 40 bytes. |
| EncryptionService.WrongPasswordRejected | src/lib/encryptionService.ts:60-67 | Any other password is refused with "Incorrect password", before any progress is reported. |
| EncryptionService.LongFieldWindow | src/lib/encryptionService.ts:51-61 | A field longer than 40 bytes is cut by the window, so only its first 40 bytes are read. |
| EncryptionService.LongPasswordPrefixAccepted | src/lib/encryptionService.ts:51-82 | For a password over 40 bytes, its first 40 characters decrypt the file to the original content. |
| EncryptionService.LongPasswordRejected | src/lib/encryptionService.ts:51-67 | A password over 40 bytes does not decrypt its own file. |
| EncryptionService.AsciiBytesConcat | src/lib/encryptionService.ts:30 | The encoding of concatenated text is the concatenation of the encodings. |
| EncryptionService.ColonPasswordRejected | src/lib/encryptionService.ts:61-67 | A password containing `:` never decrypts its own file. |
| EncryptionService.ColonPasswordPrefixAccepted | src/lib/encryptionService.ts:61-82 | With password `a:b`, the part `a` is accepted, and the output is `b`, then `:`, then the content. |
| EncryptionService.BomFramedField | src/lib/encryptionService.ts:51-61 | Behind a byte order mark, a framed buffer's decoded window still starts with the marker, and its field is the password field when that field fits in 37 bytes. |
| EncryptionService.BomFramedPrefixEnd | src/lib/encryptionService.ts:108-120 | Behind a byte order mark, the content still starts right after the field's closing `:`. |
| EncryptionService.BomFramedRest | src/lib/encryptionService.ts:77-82 | What decryption keeps of a framed buffer behind a byte order mark is exactly the rest. |
| EncryptionService.DecryptBomFramed | src/lib/encryptionService.ts:40-92 | Decrypting a framed buffer behind a byte order mark, with the field's password, yields the rest. |
| EncryptionService.BomFramedAccepted | src/lib/encryptionService.ts:95-105 | An encrypted file with a byte order mark in front still decrypts to its content, for a password without `:` and of at most 37 bytes. |
| EncryptionService.NoSecondColonKeepsWholeInput | src/lib/encryptionService.ts:108-120 | When the buffer has only one `:`, a successful decrypt returns the whole buffer, marker included. |
| FileService.OutputName | src/lib/fileService.ts:11-19 | Encryption appends `.vault`. Decryption removes a trailing `.vault`, or otherwise prefixes `decrypted_` to the whole name. |
| FileService.NameRoundTrip | src/lib/fileService.ts:11-19 | Decrypting the name of an encrypted file restores the original name. |
| FileService.VaultNameRoundTrip | src/lib/fileService.ts:15-18 | Re-encrypting the name of a decrypted `.vault` file restores that name. |
| FileService.SaveFile | src/lib/fileService.ts:4-19 | Nothing is downloaded exactly when the result failed or carries no data. Otherwise its data is offered under the output name. |
| FileService.DownloadRoundTrip | src/lib/fileService.ts:4-19 | Encrypting and downloading a file, then decrypting the download with the same password, downloads the original name and bytes. |
| FileService.GetRecentFiles | src/lib/fileService.ts:62-75 | Gives the stored list, or the empty list when nothing is stored or the stored text does not parse. |
| FileService.PushRecent | src/lib/fileService.ts:53 | The new entry comes first, followed by the old list. The result has at most ten entries and drops the oldest ones. |
| FileService.SaveToRecentFiles | src/lib/fileService.ts:43-59 | After saving, storage holds a readable list of one to ten entries that starts with the new entry, followed by the earlier history cut to nine. |
| FileService.SaveAllNewestFirst | src/lib/fileService.ts:50-55 | After several saves, the history is the saved entries newest first, followed by the earlier history, cut to ten. |
| PasswordInput.CriteriaMet | src/components/PasswordInput.tsx:22-32 | At most six criteria hold. |
| PasswordInput.Strength | src/components/PasswordInput.tsx:19-36 | The score lies in [0, 100] and is 0 for the empty password. |
| PasswordInput.ScoreTable | src/components/PasswordInput.tsx:34-35 | Meeting 0 to 6 criteria scores 0, 16, 33, 50, 66, 83 or 100. |
| PasswordInput.NonEmptyScoresAtLeast16 | src/components/PasswordInput.tsx:19-35 | A password is non-empty exactly when it scores at least 16. |
| PasswordInput.FullStrengthIff | src/components/PasswordInput.tsx:25-35 | The score is 100 exactly when the password has at least 12 characters and an upper-case letter, a lower-case letter, a digit and another character. |
| PasswordInput.StrengthText | src/components/PasswordInput.tsx:69-73 | The label is "Weak" below 40, "Medium" from 40 to below 70, and "Strong" from 70 up. Each holds exactly on its range. |
| PasswordInput.StrengthColor | src/components/PasswordInput.tsx:63-67 | The bar class is weak, medium or strong, each exactly on the same three ranges. |
| PasswordInput.StrengthTextClass | src/components/PasswordInput.tsx:105-109 | The text class is danger, warning or success, each exactly on the same three ranges. |
| PasswordInput.LabelsAgree | src/components/PasswordInput.tsx:63-73 | The text label, the bar class and the text class always show the same level. |
| PasswordInput.LabelOfPassword | src/components/PasswordInput.tsx:69-73 | The label is "Weak" for at most two criteria, "Medium" for three or four, and "Strong" for five or six. |
| PasswordInput.OnPasswordChange | src/components/PasswordInput.tsx:38-51 | Editing the password updates it and its score. In decrypt mode the value is always handed over. In encrypt mode the mismatch flag is raised exactly when a non-empty confirmation differs, and the value is handed over exactly when it equals the confirmation. |
| PasswordInput.OnConfirmChange | src/components/PasswordInput.tsx:53-61 | Editing the confirmation flags a mismatch exactly when it differs from the password, and hands over the password exactly when it equals it. |
| PasswordInput.InitialFormConsistent | src/components/PasswordInput.tsx:13-17 | The form starts with a mismatch flag and score that agree with its fields. |
| PasswordInput.EncryptStepConsistent | src/components/PasswordInput.tsx:38-61 | Every edit in encrypt mode keeps the flag and score in agreement with the fields. |
| PasswordInput.EncryptEmitsOnlyConfirmed | src/components/PasswordInput.tsx:43-60 | In encrypt mode, every value handed to the page equals both the password and the confirmation at that moment. This holds from any form state, including one left by decrypt-mode edits. |
| PasswordInput.EncryptRunConsistent | src/components/PasswordInput.tsx:38-61 | From a consistent form, encrypt-mode edits keep the form consistent, both at the end and after every hand-over. |
| PasswordInput.DecryptEmitsEveryEdit | src/components/PasswordInput.tsx:48-50 | In decrypt mode every password edit is handed over, in order and unchanged. |
| BatchDriver.Mount | src/pages/Index.tsx:21-30 | The page starts on the encrypt tab, with no files, no password, no run and progress 0, and shows the stored history. |
| BatchDriver.AppendSelected | src/pages/Index.tsx:43-53 | The existing rows are kept in front. Each selected file follows as a pending row with its fresh id, name, size, type and content. |
| BatchDriver.RemoveById | src/pages/Index.tsx:61-62 | A row survives exactly when it was present and its id differs from the removed one. |
| BatchDriver.RemoveByIdAppend | src/pages/Index.tsx:62 | Removal distributes over concatenation, so the survivors keep their order. |
| BatchDriver.RemoveAbsentId | src/pages/Index.tsx:62 | Removing an id that no row has changes nothing. |
| BatchDriver.SelectThenRemove | src/pages/Index.tsx:43-62 | Selecting a file and removing it again restores the list, when its fresh id was unused. |
| BatchDriver.SelectFiles | src/pages/Index.tsx:43-53 | Selecting files appends them to the list and changes nothing else on the page. |
| BatchDriver.RemoveFile | src/pages/Index.tsx:61-62 | Removing a file filters it out of the list and changes nothing else on the page. |
| BatchDriver.SelectThenRemoveFile | src/pages/Index.tsx:43-62 | Selecting a file and removing it by its fresh id restores the whole page. |
| BatchDriver.Apply | src/pages/Index.tsx:94-130 | A status change keeps the id, name, size, type and content. It sets the status to processing, completed or error. It replaces the message only for an error and otherwise keeps the old one. |
| BatchDriver.UpdateById | src/pages/Index.tsx:94-96 | A status update keeps the length and every id and name, changes only the rows with the given id, and changes them as described. |
| BatchDriver.UpdateThenRemove | src/pages/Index.tsx:94-96 | Once the updated id is removed, an update leaves no trace. |
| BatchDriver.ReceivePasswords | src/pages/Index.tsx:70-72 | After the form's values arrive, the page holds the last one, or its old password if none arrived. |
| BatchDriver.EncryptPageHoldsConfirmed | src/pages/Index.tsx:256-259 | On the encrypt tab the page holds either its old password or one the form showed in both fields when it was handed over. |
| BatchDriver.ChangeTab | src/pages/Index.tsx:32-41 | Switching tab clears the files, the password and the progress, keeps the history, and leaves the run button disabled. |
| BatchDriver.ClearRecentFiles | src/pages/Index.tsx:160-167 | After clearing, both the shown history and the stored history are empty, and nothing is left in storage. The tab, files, password, run flag and progress are unchanged. |
| BatchDriver.BlockedLifecycle | src/pages/Index.tsx:263 | The run button is disabled on a freshly mounted page. A run started while it is disabled does nothing. A finished run enables it again. |
| BatchDriver.ErrorMessage | src/pages/Index.tsx:128 | A failed row shows the service's message when there is a non-empty one, and the mode's default message otherwise. |
| BatchDriver.ProcessOne | src/pages/Index.tsx:91-137 | One loop pass settles only the rows with the file's id. On success it downloads, records one history entry, re-reads the history and leaves the bar at 100. On failure it changes neither history nor storage, and the bar keeps its value. |
| BatchDriver.ProcessAll | src/pages/Index.tsx:90-154 | The loop keeps the number of rows, the tab and the password, and reports only progress values in (0, 100]. |
| BatchDriver.ProcessFiles | src/pages/Index.tsx:84-158 | When there are no files, no password or a run already going (the button's disabled condition), nothing happens. Otherwise the run ends with processing off and progress 0. |
| BatchDriver.FindId | src/pages/Index.tsx:94-96 | Gives the first position holding the id, or None exactly when no row has it. |
| BatchDriver.FinalRowStep | src/pages/Index.tsx:90-130 | With distinct ids, settling the first queued file and then running the rest gives the same final row as running the whole queue. |
| BatchDriver.ProcessAllSettles | src/pages/Index.tsx:90-130 | With distinct ids, a run settles each row by the result of the queued file with its id, and leaves other rows alone. |
| BatchDriver.RunSettlesEveryFile | src/pages/Index.tsx:103-130 | After a run each row is completed when its service delivered data. Otherwise it is failed with the service's message or the default, in place. |
| BatchDriver.ProcessAllHistory | src/pages/Index.tsx:103-117 | Storage after the loop results from saving the successful files' entries in order. There is one download per success, and the shown history changes only if something succeeded. |
| BatchDriver.RunRecordsOnlySuccesses | src/pages/Index.tsx:103-117 | After a run the history is unchanged when nothing succeeded. Otherwise it lists the successful files newest first, then the older history, cut to ten. |

## Left out

- Asynchrony is left out: promises, the 200 ms delays, `FileReader`, `Blob` and
  `TextDecoder`. The services are pure functions from bytes to a result plus the
  progress values reported.
- Of the DOM download (object URL, anchor click, clean-up timer) only the file
  name and the bytes are modelled, as a `Download`.
- `localStorage` and JSON are modelled as the `Stored` value. A `setItem` that
  throws (for example when the quota is exceeded) is not modelled: a save always
  succeeds.
- `generateId` (randomness) and `Date.now` (the clock) become the `ids` and
  `stamps` parameters.
- `ProgressTrace` uses the integers 10, 20, …, 100. JavaScript computes
  `((i + 1) / 10) * 100` in floating point, which gives values such as
  30.000000000000004. Only the values shown on the bar differ.
- `ProcessFiles` assumes file reads succeed, and leaves out the `catch` branch of
  processFiles. In the source, `file.arrayBuffer()` can reject. A `FileReader`
  error leaves the window read unresolved, and then the run never ends.
- Toasts, `console.error`, `formatDate`, `formatFileSize`, the show/hide toggle
  and the presentational components are left out.
- `ProcessFiles` treats the run as one atomic step. In the source only the run
  button is disabled during a run; the tabs, the drop zones and the remove
  buttons stay active. A selection, removal or tab switch that arrives between
  two files is not modelled.
- `DecryptFile` models the only change decoding makes to ASCII framing, the
  dropped byte order mark. It does not model text decoding in general.
- `Strength` and `CriteriaMet` take ASCII passwords only. JavaScript's
  `pass.length` counts UTF-16 units, so a character outside the Basic
  Multilingual Plane counts twice there.
- `EncryptFile` and `DecryptFile` take ASCII passwords only. For other passwords,
  the UTF-16 length, the UTF-8 encoding and the replacement characters that
  `TextDecoder` inserts at a cut multi-byte sequence are not modelled.
- `RoundTrip` and `DownloadRoundTrip` require a password without `:` and of at
  most 40 bytes. That is a limitation of the program itself, and the lemmas
  listed above show what happens outside it.
- `RunSettlesEveryFile` and `ProcessAllSettles` require distinct ids. With
  colliding random ids, the program's per-id updates also touch every other row
  that has the same id.
- `SaveAllNewestFirst` requires at least one entry. Without one, the stored list
  is returned as is and may hold more than ten entries if something else wrote
  it.
- The properties a real authenticated cipher would give are not claimed, because
  the code does not have them:
  - tamper detection;
  - different output for two encryptions of the same input;
  - one error for both a wrong password and tampering.

  The mock shows the password in clear, and its two errors differ.
- `EncryptPageHoldsConfirmed` models the page's password as a plain setter. The
  page itself does not check passwords.
