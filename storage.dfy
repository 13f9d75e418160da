/** The file system as the store manager sees it through `fs::read` and
    `fs::write`: a map from paths to contents, plus the faults a path can
    show. A read fails for a reason other than absence on `unreadable`
    paths (permissions, devices). A write is `File::create`, which
    truncates, followed by `write_all`: creation fails on `uncreatable`
    paths, and on a path with a `capacity` the write stops with an error
    once that many bytes are on disk (a full disk or quota), leaving the
    truncated file holding only what was written. */
module Storage {
  import opened Common

  class FileSystem {
    var files: map<Path, Bytes>
    const unreadable: set<Path>
    const uncreatable: set<Path>
    const capacity: map<Path, nat>

    constructor (files: map<Path, Bytes>, unreadable: set<Path>, uncreatable: set<Path>, capacity: map<Path, nat>)
      ensures this.files == files && this.unreadable == unreadable
      ensures this.uncreatable == uncreatable && this.capacity == capacity
    {
      this.files := files;
      this.unreadable := unreadable;
      this.uncreatable := uncreatable;
      this.capacity := capacity;
    }

    /** `fs::read`: the whole file, or the kind of error. */
    function Read(path: Path): (r: Result<Bytes>)
      reads this
      ensures r.Ok? <==> path in files && path !in unreadable
      ensures r.Ok? ==> r.value == files[path]
      ensures r.Err? ==> r.error == Io(if path in unreadable then Other else NotFound)
    {
      if path in unreadable then Err(Io(Other))
      else if path !in files then Err(Io(NotFound))
      else Ok(files[path])
    }

    /** The number of bytes of `data` that reach `path` before the write stops. */
    function Room(path: Path, data: Bytes): (n: nat)
      reads this
      ensures n <= |data|
      ensures n < |data| <==> path in capacity && capacity[path] < |data|
    {
      if path in capacity && capacity[path] < |data| then capacity[path] else |data|
    }

    /** What a write of `data` to `path` leaves behind, starting from the
        contents `before`: nothing changed when the file cannot be created,
        the truncated file holding a prefix when the write stops part-way,
        and the whole file replaced on success. No other path is touched. */
    ghost predicate Wrote(before: map<Path, Bytes>, path: Path, data: Bytes, r: Result<()>)
      reads this
    {
      if path in uncreatable then
        r == Err(Io(Other)) && files == before
      else if Room(path, data) < |data| then
        r == Err(Io(Other)) && files == before[path := data[..Room(path, data)]]
      else
        r == Ok(()) && files == before[path := data]
    }

    /** A failed write leaves the other paths alone, and `path` either as it
        was or holding a strict prefix of `data`: the old contents survive
        only when the file could not be created. */
    lemma FailedWrite(before: map<Path, Bytes>, path: Path, data: Bytes, r: Result<()>)
      requires Wrote(before, path, data, r) && r.Err?
      ensures forall p :: p != path ==> (p in files <==> p in before)
      ensures forall p :: p != path && p in files ==> files[p] == before[p]
      ensures files == before || (path in files && |files[path]| < |data| && files[path] == data[..|files[path]|])
      ensures path !in uncreatable ==> path in files && files[path] < data
    {
    }

    /** `fs::write`: `File::create` (which truncates) then `write_all`. */
    method Write(path: Path, data: Bytes) returns (r: Result<()>)
      modifies this
      ensures Wrote(old(files), path, data, r)
    {
      if path in uncreatable {
        return Err(Io(Other));
      }
      files := files[path := []];
      var room := Room(path, data);
      if room < |data| {
        files := files[path := data[..room]];
        return Err(Io(Other));
      }
      files := files[path := data];
      r := Ok(());
    }
  }
}
