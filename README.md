# Notas core: a verified Dafny model

Notas is a local, password-protected note store. All notes live in one
encrypted file. A master password unlocks the file, and every change
re-encrypts the whole collection and overwrites the file. This project models
the store's core in Dafny and proves properties of that model. The core is:

- **the encrypted container** (`src/core/crypto.rs`). The file layout is
  `salt (16) ‖ nonce (12) ‖ tag (16) ‖ ciphertext`. Around it sit the wrappers
  over AES-256-GCM and Argon2id: `encrypt`, `decrypt`, `derive_key` and
  `generate_test_key`.
- **the note collection** (`src/core/data.rs`). This covers `Note::new`,
  `NoteList` with `add_note`, `delete_note` and `update_note`, and
  `MasterPassword::from`.
- **the store manager** (`src/core/manager.rs`). `CoreManager` is a
  Locked/Unlocked state machine. It owns the note list and the session key and
  salt, and runs unlock, create, update, delete, export and import against the
  file system.

Modules:

| file | module | what it holds |
|---|---|---|
| `common.dfy` | `Common` | bytes, `u64`, paths, `Option`, `Result`, the error taxonomy |
| `crypto.dfy` | `Crypto` | the container codec, the GCM shape, the crypto wrappers |
| `utf8.dfy` | `Utf8` | UTF-8 encoding of a string and its decoder |
| `data.dfy` | `Data` | `Note`, the ordering and filtering functions, the `NoteList` class, `MasterPassword` |
| `storage.dfy` | `Storage` | the file system, as a class holding a path-to-bytes map |
| `manager.dfy` | `Manager` | the `CoreManager` class and the container images it reads and writes |

How the source's foreign pieces enter the model:

- **Crypto primitives.** AES-256-GCM and Argon2id are function-valued fields of
  `Crypto.Primitives`:
  - the counter-mode keystream byte for a key, a nonce and a position;
  - the GCM tag of a ciphertext;
  - the Argon2id output for a password and a salt.

  Every result holds for every choice of these functions. The model keeps the
  structure GCM gives them (section 7 of NIST SP 800-38D):
  - the ciphertext is the plaintext XOR-ed with the keystream;
  - the tag is computed over the ciphertext;
  - decryption checks the tag before it releases any plaintext.

  From that structure the encrypt/decrypt round trip is proved, not assumed.
- **bincode.** It is `Manager.Codec`, a pair of functions. Its round trip is
  the predicate `Codec.Lossless()`, which the lemmas that need it take as a
  precondition.
- **Randomness and time.** The operating system's random generator supplies
  the 12-byte nonce of each encryption and the fresh salt of the first unlock.
  Here both are method parameters. `Utc::now()` is a parameter `now` of type
  `Data.Instant`, in nanoseconds since the epoch.
- **The file system.** `Storage.FileSystem` has a map from paths to contents
  and the faults each path can show:
  - paths whose reads fail for a reason other than absence. `fs::read`
    distinguishes "not found" from every other error, which the first-run
    branch of `unlock` relies on;
  - paths where `File::create` fails, so that a write changes nothing;
  - paths with a capacity in bytes. `fs::write` creates (truncates) the file
    and then writes; once the capacity is reached the write stops with an
    error, and the file holds only the prefix that was written. A failed save
    can therefore destroy the previous contents of the store.
- **The session cells.** `CRYPTO_KEY` and `CRYPTO_SALT` are global set-once
  cells in the source. Here they are the `Option` fields `sessionKey` and
  `sessionSalt` of `CoreManager`, and `Valid()` states that both are set or
  neither is.

In several places the code does not do what a reader of the interface might
expect, such as unique note ids or every operation failing while locked. The
model follows the code:

- One might expect every data operation to fail while the store is locked.
  In the code, `get_notes` and `export_note_text` work while locked.
  `create_note`, and `update_note` or `delete_note` on a present id, change the
  in-memory list first and only then fail at the save with "Application is
  locked". The model keeps the change in memory, as the code does.
- The first unlock installs the session key and salt before it writes the
  new store file. So when that write fails, the session is unlocked but the
  empty list is not installed, and the store file is left absent (when it
  could not be created), empty, or partly written.
  `Manager.CoreManager.Unlock` states exactly this.
- A note's `updated_at` is not guaranteed to be at least its `created_at`:
  `update_note` stamps whatever the clock says, and the wall clock can go
  backwards. The model does not claim it.
- Note ids are not unique. An id is the creation millisecond. Import adds
  notes without checking ids, and `delete_note` removes every note with the
  id. The model keeps duplicates: `Data.AddAllContents` counts them and
  `Data.WithoutId` removes them all.
- The list read from the store file is installed in the order it was stored.
  The code does not re-sort it, so the list is newest first only after a
  create, an update of a present id, or a non-empty import, and a delete
  keeps it newest first if it already was.

## Model

| member | source | states |
|---|---|---|
| Crypto.ToBytes | src/core/crypto.rs:33-40 | the container is salt, then nonce, then tag, then ciphertext, each at its fixed offset, and is 44 bytes longer than the ciphertext |
| Crypto.FromBytes | src/core/crypto.rs:42-64 | decoding succeeds exactly when the buffer holds at least the 44-byte header, fails with "too short" otherwise whatever the content, and re-encoding a decoded buffer gives the same buffer back |
| Crypto.FromBytesToBytes | src/core/crypto.rs:33-64 | decoding an encoded container gives back the same salt, nonce, tag and ciphertext |
| Crypto.FromBytesFields | src/core/crypto.rs:47-63 | a buffer of 44 bytes or more splits into salt = bytes 0..16, nonce = 16..28, tag = 28..44, ciphertext = the rest |
| Crypto.GctrInvolution | src/core/crypto.rs:111-113 | applying the keystream twice under the same key and nonce restores the input |
| Crypto.Seal | src/core/crypto.rs:85-103 | encryption fails only for a plaintext over the GCM limit; otherwise the header carries the caller's salt unchanged and the fresh nonce, and the ciphertext has the plaintext's length |
| Crypto.Open | src/core/crypto.rs:106-117 | decryption releases output only when the stored tag matches the ciphertext, and then the whole buffer; every failure is the one decryption error |
| Crypto.OpenSeal | src/core/crypto.rs:85-117 | what encryption produces under a key, decryption under that key turns back into the plaintext |
| Crypto.OpenIgnoresSalt | src/core/crypto.rs:106-117 | the salt in the header plays no part in decryption |
| Crypto.ApplyKeystream | src/core/crypto.rs:92-93 | the in-place pass over the buffer leaves it equal to the keystream XOR of its old contents |
| Crypto.Encrypt | src/core/crypto.rs:85-103 | the buffer-copying, in-place encryption returns exactly the container `Seal` describes |
| Crypto.Decrypt | src/core/crypto.rs:106-117 | the in-place decryption of a copy, after the tag check, returns exactly what `Open` describes |
| Crypto.DeriveKey | src/core/crypto.rs:68-82 | key derivation is Argon2id of password and salt, deterministic, and fails only for a password over Argon2's length limit |
| Crypto.GenerateTestKey | src/core/crypto.rs:119-131 | the returned salt is the freshly drawn one and the returned key is the one derived from the password and that salt |
| Utf8.DecodeEncode | src/core/data.rs:66-75 | the bytes a password string turns into decode back to that string |
| Utf8.EncodeInjective | src/core/data.rs:66-75 | two different password strings never give the same bytes |
| Utf8.EncodeLength | src/core/data.rs:66-75 | a string's bytes number between one and four per character |
| Utf8.EncodeDecodeChar | src/core/data.rs:66-75 | whatever the decoder reads as one character is exactly that character's encoding, so no overlong or other alternative form is accepted |
| Utf8.EncodeDecode | src/core/data.rs:66-75 | any byte string that decodes to a string is that string's encoding |
| Utf8.DecodeUnique | src/core/data.rs:66-75 | a string has exactly one UTF-8 form |
| Utf8.OverlongRejected | src/core/data.rs:66-75 | the overlong two-byte form of U+0000 is not UTF-8, alone or followed by anything |
| Data.MasterPasswordFrom | src/core/data.rs:66-75 | the password holds the one byte string that is the UTF-8 form of the text: it decodes to the text, and no other bytes do |
| Data.NewNoteFields | src/core/data.rs:15-24 | a new note has the given title and content, was created and updated at `now`, and its id is the millisecond containing `now` |
| Data.NewNoteBeforeEpoch | src/core/data.rs:18 | before the epoch the negative millisecond count wraps to a large id under `as u64` |
| Data.SortByRecencySorted | src/core/data.rs:39 | the sort leaves the notes newest first and is a permutation of its input |
| Data.SortByRecencyOfSorted | src/core/data.rs:39 | a list already newest first is left exactly as it is |
| Data.SortByRecencyStable | src/core/data.rs:39 | the sort is stable: notes updated at the same instant keep their relative order |
| Data.InsertByRecencySorted | src/core/data.rs:37-40 | adding a note to a newest-first list keeps it newest first and adds exactly that note |
| Data.AddAllContents | src/core/manager.rs:139-141 | adding notes one by one grows the list by exactly their number, keeps every note (duplicates included) and leaves the list newest first |
| Data.WithoutId | src/core/data.rs:44 | after removal no note has the id, and every note with another id is still there |
| Data.WithoutIdShrinks | src/core/data.rs:42-46 | the list gets shorter exactly when some note had the id |
| Data.WithoutIdConcat | src/core/data.rs:44 | the surviving notes keep their relative order |
| Data.WithoutIdKeepsOthers | src/core/data.rs:44 | each note with another id keeps its number of copies |
| Data.WithoutIdSorted | src/core/data.rs:44 | removal keeps a newest-first list newest first |
| Data.IndexOfId | src/core/data.rs:49 | the lookup finds the first note with the id, or reports that none has it |
| Data.UpdatedContents | src/core/data.rs:48-58 | updating an absent id changes nothing; updating a present id replaces the first such note with a copy with the new title, content and instant, the same id and creation time, and leaves the list newest first and otherwise the same notes |
| Data.GroceriesWalkThrough | src/core/data.rs:37-58 | creating one note gives a list of that note; updating it keeps its id and carries the new content and instant; deleting it leaves no note with that id |
| Data.NoteList.constructor | src/core/data.rs:33-35 | a new list is empty |
| Data.NoteList.AddNote | src/core/data.rs:37-40 | after `add_note` the list is the old list plus the note, sorted newest first |
| Data.NoteList.DeleteNote | src/core/data.rs:42-46 | `delete_note` reports true exactly when some note had the id, and the list becomes the old one without the notes with that id |
| Data.NoteList.UpdateNote | src/core/data.rs:48-58 | `update_note` reports true exactly when some note had the id, and the list becomes the updated list of `Updated` |
| Storage.FileSystem.Read | src/core/manager.rs:45-60 | a read returns the whole file, "not found" for an absent file, and another I/O error for an unreadable one |
| Storage.FileSystem.Write | src/core/manager.rs:80 | a write touches no other path; it replaces the whole file, or fails before creating it and changes nothing, or truncates the file and fails part-way, leaving only a strict prefix of the data |
| Storage.FileSystem.FailedWrite | src/core/manager.rs:80 | after a failed write every other path is as it was, and the target holds either its old contents (creation failed) or a strict prefix of the data |
| Manager.SealedImage | src/core/manager.rs:78-80 | the image written for a list carries the session salt in its first 16 bytes and is 44 bytes longer than the serialized list; its only failure is the encryption error |
| Manager.Load | src/core/manager.rs:63-67 | opening a container with a password rejects a buffer under 44 bytes as too short; on success the salt is the container's and the key is the one derived from the password and that salt |
| Manager.LoadSealedImage | src/core/manager.rs:74-83 | a container sealed under the key a password derives opens with that password to the same key, salt and notes |
| Manager.InitialImage | src/core/manager.rs:47-51 | the first run's session salt is the fresh one, its key is derived from the password and that salt, and its image is the empty list sealed under them |
| Manager.FirstRunReopensEmpty | src/core/manager.rs:47-58 | the store created on first run opens again with the same password to the same key and salt and no notes |
| Manager.NoteText | src/core/manager.rs:115 | the text is "Title: ", the title, a blank line, "Content:" and a newline, then the content, each recoverable at its offset |
| Manager.CoreManager.constructor | src/core/manager.rs:21-32 | a new manager is locked and holds an empty list |
| Manager.CoreManager.SealTo | src/core/manager.rs:74-83 | when locked, the save fails with "locked" and writes nothing; otherwise the whole list, sealed under the session key and salt, replaces the target file; a write error is returned with the target as `Storage.FileSystem.Write` leaves it |
| Manager.CoreManager.SaveNotes | src/core/manager.rs:74-83 | `save_notes` seals the list to the store file, with the effects of `SealTo` |
| Manager.CoreManager.IsUnlocked | src/core/manager.rs:34-36 | `is_unlocked` is true exactly when a session key is installed, and then a session salt is installed too |
| Manager.CoreManager.Unlock | src/core/manager.rs:38-72 | already unlocked: success and nothing changes. Read error other than absence: returned as it is, nothing installed or written. No file: a fresh salt and its derived key are installed, the empty store is written (a failed write leaves the file absent if it could not be created, otherwise empty or partial), and the list becomes empty only if the write succeeds. A file exists: it is never rewritten; a decode, derivation, decryption or deserialization failure installs nothing and leaves the list alone, and decryption failures become "invalid password or corrupted data"; on success the container's salt, the derived key and the stored notes are installed, and the store is unlocked |
| Manager.CoreManager.GetNotes | src/core/manager.rs:85-87 | `get_notes` returns the current list, in its current order (newest first after the mutations below, as stored after an unlock) |
| Manager.CoreManager.CreateNote | src/core/manager.rs:89-93 | the new note joins the list before the save, so it stays even when the save fails; the list is newest first afterwards; the save has the effects of `SealTo` |
| Manager.CoreManager.UpdateNote | src/core/manager.rs:95-101 | an absent id fails with "not found" and writes nothing; a present id is updated in memory, leaving the list newest first, and then saved |
| Manager.CoreManager.DeleteNote | src/core/manager.rs:103-109 | an absent id fails with "not found" and writes nothing; a present id is removed in memory and then saved; a newest-first list stays newest first |
| Manager.CoreManager.ExportNoteText | src/core/manager.rs:111-116 | the text export succeeds exactly when some note has the id, locked or not, and formats the first such note; otherwise it fails with "note not found" |
| Manager.CoreManager.ExportAllEncrypted | src/core/manager.rs:118-127 | fails with "locked" when locked; otherwise writes the list sealed under the session key and salt to the export path only, carrying the session salt, and leaves the list untouched |
| Manager.CoreManager.ImportEncrypted | src/core/manager.rs:129-145 | a read, decode, derivation, decryption or deserialization failure leaves the list and all files unchanged; otherwise every imported note is added, the list grows by exactly their number, is newest first if anything was imported, and the merged list is saved |
| Manager.CoreManager.ExportImportsBack | src/core/manager.rs:118-145 | a container the session exports imports back, with the password that unlocked the session, to the very notes it was written from |

## Left out

- `CoreManager::new`: the data-directory lookup and `create_dir_all` (src/core/manager.rs:22-26) are file-system set-up. The constructor takes the store path as a parameter.
- The global cells are process-wide statics that outlive any manager. The model ties them to one manager object, so a second manager in the same process, which would find the store already unlocked, is not modelled.
- The "Failed to set crypto salt/key" branches of `unlock` and the "Application salt not set" branches of `save_notes` and `export_all_encrypted` cannot be reached: `unlock` sets both cells only when neither is set, and `Valid()` keeps them set together. The model has no such error.
- Zeroization of the derived key buffer and of the password, and the no-op `Drop` of `CoreManager`. Wiping memory has no observable effect in this model.
- The internals of AES-256-GCM and Argon2id, and `OsRng`. They are uninterpreted functions and parameters. The probabilistic claims that a wrong key or a tampered container fails to decrypt are outside what can be proved.
- The GCM keystream here runs over the plaintext from position 0. The real counter block layout and the GHASH computation inside the tag are not modelled.
- Crypto.Seal: the aes-gcm crate is not part of this model, so the one length bound of section 5.2.1.1 of NIST SP 800-38D (2^36 - 32 bytes) stands in for the crate's own checks, which may differ by a few bytes near 64 GiB; `Crypto.Open`, `Crypto.Encrypt` and `Crypto.Decrypt` use the same bound.
- Crypto.DeriveKey: the argon2 crate's other parameter checks (salt and output length, memory and time costs) always pass with a 16-byte salt, a 32-byte output and default parameters, so the only failure modelled is an over-long password.
- Manager.SealedImage: bincode serialization of a note list is treated as total. Its failure branch, the `?` after `bincode::serialize`, is not modelled.
- `generate_salt` (src/core/crypto.rs:120-124) is only randomness. The fresh salt is a parameter of `Manager.CoreManager.Unlock`.
- Concurrency: the UI wraps the manager in a mutex and runs calls off the UI thread. Each call here is one sequential step.
- The GTK user interface in `src/main.rs` is not part of this model.
