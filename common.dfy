/** Types shared by every part of the note store: bytes, fixed-width
    integers, file paths, and the error taxonomy of the core. */
module Common {

  /** Rust's `u8`. */
  type byte = x: int | 0 <= x < 0x100
  type Bytes = seq<byte>

  /** Rust's `u64`. */
  type u64 = x: int | 0 <= x < 0x1_0000_0000_0000_0000

  const U64_MODULUS: int := 0x1_0000_0000_0000_0000

  /** A file-system path; only equality matters to the model. */
  type Path = string

  datatype Option<T> = None | Some(value: T)

  /** What `std::io::Error::kind()` distinguishes for this core: absence of
      the file, and everything else (permissions, device errors, ...). */
  datatype IoErrorKind = NotFound | Other

  /** The error messages of the core, one constructor per distinct cause. */
  datatype Error =
    | TooShort                        // "Encrypted data is too short"
    | KeyDerivationFailed             // "Key derivation failed: ..."
    | EncryptionFailed                // "Encryption failed: ..."
    | DecryptionFailed                // "Decryption failed: ..."
    | InvalidPasswordOrCorruptedData  // "Invalid password or corrupted data."
    | DeserializeFailed               // a bincode decoding error
    | Io(kind: IoErrorKind)           // an error of `fs::read` or `fs::write`
    | ImportReadFailed                // "Failed to read import file: ..."
    | Locked                          // "Application is locked"
    | NoteNotFound(id: u64)           // "Note with ID {} not found"
    | NoteTextNotFound                // "Note not found"

  datatype Result<T> = Ok(value: T) | Err(error: Error)
}
