/** The store manager (src/core/manager.rs): a Locked/Unlocked state
    machine that owns the note list and, around every change, serializes
    the whole list, encrypts it under the session key and salt and
    overwrites the store file.

    The session key and salt, process-wide set-once cells in the source,
    are `Option` fields here. The operating system's random generator
    enters as the `freshSalt` and `nonce` parameters, the clock as `now`. */
module Manager {
  import opened Common
  import opened Crypto
  import opened Data
  import opened Storage

  /** bincode, left abstract: a note list to bytes and back. */
  datatype Codec = Codec(serialize: seq<Note> -> Bytes, deserialize: Bytes -> Option<seq<Note>>) {
    /** bincode decodes what it encoded. */
    ghost predicate Lossless() {
      forall notes :: deserialize(serialize(notes)) == Some(notes)
    }
  }

  /** The container written for `notes` under the key and salt of a
      session: serialize, encrypt, lay out. */
  function SealedImage(prims: Primitives, codec: Codec, key: Key, salt: Salt, nonce: Nonce, notes: seq<Note>): (r: Result<Bytes>)
    ensures r.Err? ==> r.error == EncryptionFailed
    ensures r.Ok? ==> |r.value| == HEADER_LEN + |codec.serialize(notes)|
    ensures r.Ok? ==> r.value[..SALT_LEN] == salt
  {
    match Seal(prims, key, salt, nonce, codec.serialize(notes))
    case Err(e) => Err(e)
    case Ok(d) => Ok(ToBytes(d))
  }

  /** What a container opened with a password yields. */
  datatype Opened = Opened(key: Key, salt: Salt, notes: seq<Note>)

  /** Reading a container with a password, as unlock and import do:
      split it, derive the key from the password and the container's own
      salt, decrypt, deserialize. */
  function Load(prims: Primitives, codec: Codec, password: Bytes, bytes: Bytes): (r: Result<Opened>)
    ensures |bytes| < HEADER_LEN ==> r == Err(TooShort)
    ensures r.Ok? ==> r.value.salt == bytes[..SALT_LEN]
    ensures r.Ok? ==> DeriveKey(prims, password, r.value.salt) == Ok(r.value.key)
  {
    match FromBytes(bytes)
    case Err(e) => Err(e)
    case Ok(d) =>
      FromBytesFields(bytes);
      match DeriveKey(prims, password, d.header.salt)
      case Err(e) => Err(e)
      case Ok(key) =>
        match Open(prims, key, d)
        case Err(e) => Err(e)
        case Ok(plaintext) =>
          match codec.deserialize(plaintext)
          case None => Err(DeserializeFailed)
          case Some(notes) => Ok(Opened(key, d.header.salt, notes))
  }

  /** A container sealed for some notes under the key a password derives
      from a salt opens with that password to the same key, salt and notes. */
  lemma {:induction false} LoadSealedImage(prims: Primitives, codec: Codec, password: Bytes, salt: Salt, nonce: Nonce, notes: seq<Note>)
    requires codec.Lossless()
    requires |password| <= MAX_PASSWORD_LEN
    requires SealedImage(prims, codec, prims.argon2id(password, salt), salt, nonce, notes).Ok?
    ensures Load(prims, codec, password, SealedImage(prims, codec, prims.argon2id(password, salt), salt, nonce, notes).value)
         == Ok(Opened(prims.argon2id(password, salt), salt, notes))
  {
    var key := prims.argon2id(password, salt);
    var plaintext := codec.serialize(notes);
    var d := Seal(prims, key, salt, nonce, plaintext).value;
    FromBytesToBytes(d);
    OpenSeal(prims, key, salt, nonce, plaintext);
  }

  /** What the first unlock creates: the session pair and the file image. */
  datatype Initialized = Initialized(key: Key, salt: Salt, image: Bytes)

  /** The first-run branch of `unlock` up to the writes: a key for a fresh
      salt, and an empty list sealed under it. */
  function InitialImage(prims: Primitives, codec: Codec, password: Bytes, freshSalt: Salt, nonce: Nonce): (r: Result<Initialized>)
    ensures r.Ok? ==> r.value.salt == freshSalt && DeriveKey(prims, password, freshSalt) == Ok(r.value.key)
    ensures r.Ok? ==> SealedImage(prims, codec, r.value.key, freshSalt, nonce, []) == Ok(r.value.image)
  {
    match GenerateTestKey(prims, password, freshSalt)
    case Err(e) => Err(e)
    case Ok((key, salt)) =>
      match SealedImage(prims, codec, key, salt, nonce, [])
      case Err(e) => Err(e)
      case Ok(image) => Ok(Initialized(key, salt, image))
  }

  /** A store created by the first unlock opens with the same password to
      the same session pair and no notes. */
  lemma FirstRunReopensEmpty(prims: Primitives, codec: Codec, password: Bytes, freshSalt: Salt, nonce: Nonce)
    requires codec.Lossless()
    requires InitialImage(prims, codec, password, freshSalt, nonce).Ok?
    ensures var init := InitialImage(prims, codec, password, freshSalt, nonce).value;
      Load(prims, codec, password, init.image) == Ok(Opened(init.key, freshSalt, []))
  {
    LoadSealedImage(prims, codec, password, freshSalt, nonce, []);
  }

  /** `unlock` reports every decryption failure as one opaque condition. */
  function UnlockError(e: Error): Error {
    if e == DecryptionFailed then InvalidPasswordOrCorruptedData else e
  }

  /** `format!("Title: {}\n\nContent:\n{}", title, content)`. */
  function NoteText(n: Note): (text: string)
    ensures |text| == 7 + |n.title| + 11 + |n.content|
    ensures text[..7] == "Title: " && text[7..7 + |n.title|] == n.title
    ensures text[7 + |n.title|..7 + |n.title| + 11] == "\n\nContent:\n"
    ensures text[7 + |n.title| + 11..] == n.content
  {
    "Title: " + n.title + "\n\nContent:\n" + n.content
  }

  class CoreManager {
    const fs: FileSystem
    const dataPath: Path
    const prims: Primitives
    const codec: Codec
    const noteList: NoteList
    /** `CRYPTO_KEY` */
    var sessionKey: Option<Key>
    /** `CRYPTO_SALT` */
    var sessionSalt: Option<Salt>

    /** Both cells are set together, salt first, and only by `unlock`. */
    ghost predicate Valid()
      reads this
    {
      sessionKey.Some? <==> sessionSalt.Some?
    }

    /** `CoreManager::new`, given the store path (the directory lookup and
        creation are not modelled). */
    constructor (fs: FileSystem, dataPath: Path, prims: Primitives, codec: Codec)
      ensures this.fs == fs && this.dataPath == dataPath && this.prims == prims && this.codec == codec
      ensures fresh(noteList) && noteList.notes == []
      ensures sessionKey == None && sessionSalt == None
      ensures Valid()
    {
      this.fs := fs;
      this.dataPath := dataPath;
      this.prims := prims;
      this.codec := codec;
      noteList := new NoteList();
      sessionKey := None;
      sessionSalt := None;
    }

    /** The session pair is the one `password` yields: the key Argon2id
        derives from it and the session salt. */
    ghost predicate KeyedBy(password: Bytes)
      reads this
    {
      sessionKey.Some? && sessionSalt.Some? && DeriveKey(prims, password, sessionSalt.value) == Ok(sessionKey.value)
    }

    /** `is_unlocked`: whether a session key is installed, and so, under
        `Valid()`, a session salt too. */
    function IsUnlocked(): (unlocked: bool)
      reads this
      ensures unlocked <==> sessionKey.Some?
      ensures Valid() ==> (unlocked <==> sessionSalt.Some?)
    {
      sessionKey.Some?
    }

    /** The container a save or export of the current list would write, or
        why there is none. */
    function CurrentImage(nonce: Nonce): Result<Bytes>
      reads this, noteList
      requires Valid()
    {
      if sessionKey.None? then Err(Locked)
      else SealedImage(prims, codec, sessionKey.value, sessionSalt.value, nonce, noteList.notes)
    }

    /** The effect of sealing the current list to `path`, from the file
        contents `before`. */
    ghost predicate SealedTo(before: map<Path, Bytes>, path: Path, nonce: Nonce, r: Result<()>)
      reads this, noteList, fs
      requires Valid()
    {
      match CurrentImage(nonce)
      case Err(e) => r == Err(e) && fs.files == before
      case Ok(image) => fs.Wrote(before, path, image, r)
    }

    /** The body shared by `save_notes` and `export_all_encrypted`. */
    method SealTo(path: Path, nonce: Nonce) returns (r: Result<()>)
      requires Valid()
      modifies fs
      ensures SealedTo(old(fs.files), path, nonce, r)
    {
      if sessionKey.None? {
        return Err(Locked);
      }
      var key, salt := sessionKey.value, sessionSalt.value;
      var serialized := codec.serialize(noteList.notes);
      var encrypted := Encrypt(prims, key, salt, nonce, serialized);
      if encrypted.Err? {
        return Err(encrypted.error);
      }
      r := fs.Write(path, ToBytes(encrypted.value));
    }

    /** `save_notes`: overwrite the store file with the current list. */
    method SaveNotes(nonce: Nonce) returns (r: Result<()>)
      requires Valid()
      modifies fs
      ensures SealedTo(old(fs.files), dataPath, nonce, r)
    {
      r := SealTo(dataPath, nonce);
    }

    /** `unlock`. */
    method Unlock(password: MasterPassword, freshSalt: Salt, nonce: Nonce) returns (r: Result<()>)
      requires Valid()
      modifies this, noteList, fs
      ensures Valid()
      // Whoever unlocks installs the pair their password yields.
      ensures r.Ok? ==> IsUnlocked()
      ensures !old(IsUnlocked()) && r.Ok? ==> KeyedBy(password.bytes)
      // Already unlocked: success, and nothing changes.
      ensures old(IsUnlocked()) ==> r == Ok(()) && unchanged(this, noteList, fs)
      // A read error other than absence is returned as it is; nothing is
      // installed, changed or written.
      ensures !old(IsUnlocked()) && old(fs.Read(dataPath)) == Err(Io(Other)) ==>
        r == Err(Io(Other)) && unchanged(this, noteList, fs)
      // No store yet: install a fresh session pair, write an empty store and
      // start from an empty list; if the write fails the pair stays
      // installed and the list is left alone.
      ensures !old(IsUnlocked()) && old(fs.Read(dataPath)) == Err(Io(NotFound)) ==>
        var init := InitialImage(prims, codec, password.bytes, freshSalt, nonce);
        if init.Err? then
          r == Err(init.error) && unchanged(this, noteList, fs)
        else
          && sessionKey == Some(init.value.key) && sessionSalt == Some(freshSalt)
          && fs.Wrote(old(fs.files), dataPath, init.value.image, r)
          && noteList.notes == (if r.Ok? then [] else old(noteList.notes))
      // A store exists: it is never written; on success the session pair is
      // the derived key and the container's salt and the list is the stored
      // one, on failure nothing is installed or changed.
      ensures !old(IsUnlocked()) && old(fs.Read(dataPath)).Ok? ==>
        var loaded := Load(prims, codec, password.bytes, old(fs.Read(dataPath)).value);
        && fs.files == old(fs.files)
        && (loaded.Err? ==> r == Err(UnlockError(loaded.error)) && unchanged(this, noteList))
        && (loaded.Ok? ==>
              && r == Ok(())
              && sessionKey == Some(loaded.value.key) && sessionSalt == Some(loaded.value.salt)
              && noteList.notes == loaded.value.notes)
    {
      if sessionKey.Some? {
        return Ok(());
      }
      var passwordBytes := password.bytes;
      var read := fs.Read(dataPath);
      if read == Err(Io(NotFound)) {
        var generated := GenerateTestKey(prims, passwordBytes, freshSalt);
        if generated.Err? {
          return Err(generated.error);
        }
        var (key, salt) := generated.value;
        var testNotes: seq<Note> := [];
        var serialized := codec.serialize(testNotes);
        var encrypted := Encrypt(prims, key, salt, nonce, serialized);
        if encrypted.Err? {
          return Err(encrypted.error);
        }
        sessionSalt := Some(salt);
        sessionKey := Some(key);
        r := fs.Write(dataPath, ToBytes(encrypted.value));
        if r.Err? {
          return;
        }
        noteList.notes := testNotes;
        return Ok(());
      }
      if read.Err? {
        return Err(read.error);
      }
      var decoded := FromBytes(read.value);
      if decoded.Err? {
        return Err(decoded.error);
      }
      var encryptedData := decoded.value;
      var derived := DeriveKey(prims, passwordBytes, encryptedData.header.salt);
      if derived.Err? {
        return Err(derived.error);
      }
      var key := derived.value;
      var decrypted := Decrypt(prims, key, encryptedData);
      if decrypted.Err? {
        return Err(InvalidPasswordOrCorruptedData);
      }
      var deserialized := codec.deserialize(decrypted.value);
      if deserialized.None? {
        return Err(DeserializeFailed);
      }
      noteList.notes := deserialized.value;
      sessionSalt := Some(encryptedData.header.salt);
      sessionKey := Some(key);
      r := Ok(());
    }

    /** `get_notes`: a copy of the list, in its current order. */
    method GetNotes() returns (notes: seq<Note>)
      ensures notes == noteList.notes
    {
      notes := noteList.notes;
    }

    /** `create_note`: the note joins the list before the save, so it stays
        even when the save fails (for one, while locked). */
    method CreateNote(title: string, content: string, now: Instant, nonce: Nonce) returns (r: Result<()>)
      requires Valid()
      modifies noteList, fs
      ensures noteList.notes == SortByRecency(old(noteList.notes) + [NewNote(title, content, now)])
      ensures SortedByRecency(noteList.notes)
      ensures SealedTo(old(fs.files), dataPath, nonce, r)
    {
      var note := NewNote(title, content, now);
      SortByRecencySorted(noteList.notes + [note]);
      noteList.AddNote(note);
      r := SaveNotes(nonce);
    }

    /** `update_note`: an absent id is an error and nothing is written. */
    method UpdateNote(id: u64, title: string, content: string, now: Instant, nonce: Nonce) returns (r: Result<()>)
      requires Valid()
      modifies noteList, fs
      ensures noteList.notes == Updated(old(noteList.notes), id, title, content, now)
      ensures !HasId(old(noteList.notes), id) ==> r == Err(NoteNotFound(id)) && fs.files == old(fs.files)
      ensures HasId(old(noteList.notes), id) ==> SortedByRecency(noteList.notes)
      ensures HasId(old(noteList.notes), id) ==> SealedTo(old(fs.files), dataPath, nonce, r)
    {
      UpdatedContents(noteList.notes, id, title, content, now);
      var found := noteList.UpdateNote(id, title, content, now);
      if found {
        r := SaveNotes(nonce);
      } else {
        r := Err(NoteNotFound(id));
      }
    }

    /** `delete_note`: an absent id is an error and nothing is written. */
    method DeleteNote(id: u64, nonce: Nonce) returns (r: Result<()>)
      requires Valid()
      modifies noteList, fs
      ensures noteList.notes == WithoutId(old(noteList.notes), id)
      ensures !HasId(old(noteList.notes), id) ==> r == Err(NoteNotFound(id)) && fs.files == old(fs.files)
      ensures old(SortedByRecency(noteList.notes)) ==> SortedByRecency(noteList.notes)
      ensures HasId(old(noteList.notes), id) ==> SealedTo(old(fs.files), dataPath, nonce, r)
    {
      if SortedByRecency(noteList.notes) {
        WithoutIdSorted(noteList.notes, id);
      }
      var removed := noteList.DeleteNote(id);
      if removed {
        r := SaveNotes(nonce);
      } else {
        r := Err(NoteNotFound(id));
      }
    }

    /** `export_note_text`: the first note with that id as plain text;
        works whether or not the store is unlocked. */
    function ExportNoteText(id: u64): (r: Result<string>)
      reads this, noteList
      ensures r.Ok? <==> HasId(noteList.notes, id)
      ensures r.Err? ==> r.error == NoteTextNotFound
      ensures r.Ok? ==> r.value == NoteText(noteList.notes[IndexOfId(noteList.notes, id).value])
    {
      match IndexOfId(noteList.notes, id)
      case None => Err(NoteTextNotFound)
      case Some(i) => Ok(NoteText(noteList.notes[i]))
    }

    /** `export_all_encrypted`: the current list, sealed under the session
        key and salt, written to `exportPath` and nowhere else. */
    method ExportAllEncrypted(exportPath: Path, nonce: Nonce) returns (r: Result<()>)
      requires Valid()
      modifies fs
      ensures SealedTo(old(fs.files), exportPath, nonce, r)
      ensures r.Ok? ==> exportPath in fs.files && fs.files[exportPath][..SALT_LEN] == sessionSalt.value
    {
      r := SealTo(exportPath, nonce);
    }

    /** Reading, decoding, decrypting and deserializing an import file;
        unlike `unlock`, a decryption failure keeps its own message. */
    function ImportedFrom(read: Result<Bytes>, password: Bytes): Result<Opened> {
      match read
      case Err(_) => Err(ImportReadFailed)
      case Ok(bytes) => Load(prims, codec, password, bytes)
    }

    /** `import_encrypted`: any failure before the merge leaves the list and
        the files alone; otherwise every imported note is added, duplicates
        included, and the merged list is saved. */
    method ImportEncrypted(importPath: Path, password: MasterPassword, nonce: Nonce) returns (r: Result<()>)
      requires Valid()
      modifies noteList, fs
      ensures ImportedFrom(old(fs.Read(importPath)), password.bytes).Err? ==>
        && r == Err(ImportedFrom(old(fs.Read(importPath)), password.bytes).error)
        && noteList.notes == old(noteList.notes) && fs.files == old(fs.files)
      ensures ImportedFrom(old(fs.Read(importPath)), password.bytes).Ok? ==>
        && noteList.notes == AddAll(old(noteList.notes), ImportedFrom(old(fs.Read(importPath)), password.bytes).value.notes)
        && |noteList.notes| == |old(noteList.notes)| + |ImportedFrom(old(fs.Read(importPath)), password.bytes).value.notes|
        && (ImportedFrom(old(fs.Read(importPath)), password.bytes).value.notes != [] || old(SortedByRecency(noteList.notes)) ==>
              SortedByRecency(noteList.notes))
        && SealedTo(old(fs.files), dataPath, nonce, r)
    {
      var passwordBytes := password.bytes;
      var read := fs.Read(importPath);
      if read.Err? {
        return Err(ImportReadFailed);
      }
      var decoded := FromBytes(read.value);
      if decoded.Err? {
        return Err(decoded.error);
      }
      var encryptedData := decoded.value;
      var derived := DeriveKey(prims, passwordBytes, encryptedData.header.salt);
      if derived.Err? {
        return Err(derived.error);
      }
      var decrypted := Decrypt(prims, derived.value, encryptedData);
      if decrypted.Err? {
        return Err(decrypted.error);
      }
      var deserialized := codec.deserialize(decrypted.value);
      if deserialized.None? {
        return Err(DeserializeFailed);
      }
      var imported := deserialized.value;
      for i := 0 to |imported|
        invariant noteList.notes == AddAll(old(noteList.notes), imported[..i])
        invariant fs.files == old(fs.files)
      {
        noteList.AddNote(imported[i]);
        assert imported[..i + 1][..i] == imported[..i];
      }
      assert imported[..|imported|] == imported;
      AddAllContents(old(noteList.notes), imported);
      r := SaveNotes(nonce);
    }

    /** A container the session writes opens, with the password that
        unlocked the session, to the list it was written from: an export
        imports back to the same notes. */
    lemma ExportImportsBack(password: Bytes, nonce: Nonce)
      requires Valid() && codec.Lossless() && KeyedBy(password)
      requires CurrentImage(nonce).Ok?
      ensures ImportedFrom(Ok(CurrentImage(nonce).value), password)
           == Ok(Opened(sessionKey.value, sessionSalt.value, noteList.notes))
    {
      LoadSealedImage(prims, codec, password, sessionSalt.value, nonce, noteList.notes);
    }
  }
}
