/** Notes, the in-memory note collection and the master password
    (src/core/data.rs).

    `NoteList` keeps its notes in a vector that its methods change in place;
    here it is a class whose `notes` field the methods reassign. The
    collection's orderings and filters are specified by functions on
    sequences, and the lemmas below state what the source's library calls
    (`sort_by`, `retain`, `find`) guarantee of them. */
module Data {
  import opened Common
  import Utf8

  /** A UTC instant (chrono's `DateTime<Utc>`), in nanoseconds since the
      Unix epoch. */
  type Instant = int

  const NANOS_PER_MILLI: int := 1_000_000

  datatype Note = Note(id: u64, title: string, content: string, createdAt: Instant, updatedAt: Instant)

  /** chrono's `timestamp_millis`: whole milliseconds since the epoch,
      rounded towards negative infinity (Dafny's `/` with a positive divisor
      rounds the same way). */
  function TimestampMillis(t: Instant): int {
    t / NANOS_PER_MILLI
  }

  /** Rust's `as u64` on a signed value: wraps modulo 2^64. */
  function AsU64(x: int): u64 {
    x % U64_MODULUS
  }

  /** `Note::new`, with `now` standing for `Utc::now()`. */
  function NewNote(title: string, content: string, now: Instant): Note {
    Note(AsU64(TimestampMillis(now)), title, content, now, now)
  }

  /** A new note carries the given text, was created and updated at `now`,
      and its id is the millisecond of `now`. */
  lemma NewNoteFields(title: string, content: string, now: Instant)
    requires 0 <= now < U64_MODULUS * NANOS_PER_MILLI
    ensures NewNote(title, content, now).title == title
    ensures NewNote(title, content, now).content == content
    ensures NewNote(title, content, now).createdAt == now == NewNote(title, content, now).updatedAt
    ensures NewNote(title, content, now).id * NANOS_PER_MILLI <= now < (NewNote(title, content, now).id + 1) * NANOS_PER_MILLI
  {
  }

  /** Before the epoch the millisecond count is negative and the cast to
      `u64` wraps it to a large id. */
  lemma NewNoteBeforeEpoch(title: string, content: string, now: Instant)
    requires -U64_MODULUS * NANOS_PER_MILLI <= now < 0
    ensures NewNote(title, content, now).id == U64_MODULUS + TimestampMillis(now)
  {
  }

  // ---------------------------------------------------------------------
  // Ordering: most recently updated first

  ghost predicate SortedByRecency(s: seq<Note>) {
    forall i, j :: 0 <= i < j < |s| ==> s[i].updatedAt >= s[j].updatedAt
  }

  /** Puts `n` after every note at least as recent as it and before the
      rest: where a stable sort puts the last element of its input. */
  function InsertByRecency(s: seq<Note>, n: Note): seq<Note> {
    if s == [] then [n]
    else if s[0].updatedAt >= n.updatedAt then [s[0]] + InsertByRecency(s[1..], n)
    else [n] + s
  }

  /** `sort_by(|a, b| b.updated_at.cmp(&a.updated_at))`: the standard
      library's stable sort, newest first. Insertion sort is stable too, so
      it computes the same sequence. */
  function SortByRecency(s: seq<Note>): seq<Note> {
    if s == [] then [] else InsertByRecency(SortByRecency(s[..|s| - 1]), s[|s| - 1])
  }

  lemma SortedCons(x: Note, s: seq<Note>)
    requires SortedByRecency(s)
    requires forall j :: 0 <= j < |s| ==> x.updatedAt >= s[j].updatedAt
    ensures SortedByRecency([x] + s)
  {
    var r := [x] + s;
    forall i, j | 0 <= i < j < |r|
      ensures r[i].updatedAt >= r[j].updatedAt
    {
      if i > 0 {
        assert r[i] == s[i - 1] && r[j] == s[j - 1];
      }
    }
  }

  lemma {:induction false} InsertByRecencySorted(s: seq<Note>, n: Note)
    requires SortedByRecency(s)
    ensures SortedByRecency(InsertByRecency(s, n))
    ensures multiset(InsertByRecency(s, n)) == multiset(s) + multiset{n}
  {
    if s == [] {
    } else if s[0].updatedAt >= n.updatedAt {
      var tail := InsertByRecency(s[1..], n);
      assert SortedByRecency(s[1..]) by {
        forall i, j | 0 <= i < j < |s| - 1
          ensures s[1..][i].updatedAt >= s[1..][j].updatedAt
        {
          assert s[1..][i] == s[i + 1] && s[1..][j] == s[j + 1];
        }
      }
      InsertByRecencySorted(s[1..], n);
      assert s == [s[0]] + s[1..];
      forall j | 0 <= j < |tail|
        ensures s[0].updatedAt >= tail[j].updatedAt
      {
        assert tail[j] in multiset(s[1..]) + multiset{n};
        if tail[j] != n {
          assert tail[j] in s[1..];
        }
      }
      SortedCons(s[0], tail);
    } else {
      SortedCons(n, s);
    }
  }

  /** Sorting orders the notes newest first and neither drops nor adds one. */
  lemma {:induction false} SortByRecencySorted(s: seq<Note>)
    ensures SortedByRecency(SortByRecency(s))
    ensures multiset(SortByRecency(s)) == multiset(s)
    ensures |SortByRecency(s)| == |s|
  {
    if s != [] {
      var init, last := s[..|s| - 1], s[|s| - 1];
      var sortedInit := SortByRecency(init);
      SortByRecencySorted(init);
      InsertByRecencySorted(sortedInit, last);
      assert SortByRecency(s) == InsertByRecency(sortedInit, last);
      assert s == init + [last];
      assert multiset(s) == multiset(init) + multiset{last};
      assert |SortByRecency(s)| == |multiset(SortByRecency(s))| == |multiset(s)| == |s|;
    }
  }

  lemma {:induction false} InsertByRecencyAtEnd(s: seq<Note>, n: Note)
    requires forall i :: 0 <= i < |s| ==> s[i].updatedAt >= n.updatedAt
    ensures InsertByRecency(s, n) == s + [n]
  {
    if s != [] {
      InsertByRecencyAtEnd(s[1..], n);
    }
  }

  /** A list already newest first is left exactly as it is: equal
      timestamps are never swapped. */
  lemma {:induction false} SortByRecencyOfSorted(s: seq<Note>)
    requires SortedByRecency(s)
    ensures SortByRecency(s) == s
  {
    if s != [] {
      var init := s[..|s| - 1];
      SortByRecencyOfSorted(init);
      InsertByRecencyAtEnd(init, s[|s| - 1]);
    }
  }

  /** The notes of `s` updated at instant `t`, in their order in `s`. */
  function UpdatedAtInstant(s: seq<Note>, t: Instant): seq<Note> {
    if s == [] then []
    else (if s[0].updatedAt == t then [s[0]] else []) + UpdatedAtInstant(s[1..], t)
  }

  lemma {:induction false} UpdatedAtInstantConcat(a: seq<Note>, b: seq<Note>, t: Instant)
    ensures UpdatedAtInstant(a + b, t) == UpdatedAtInstant(a, t) + UpdatedAtInstant(b, t)
  {
    if a != [] {
      assert (a + b)[1..] == a[1..] + b;
      UpdatedAtInstantConcat(a[1..], b, t);
    } else {
      assert a + b == b;
    }
  }

  lemma {:induction false} UpdatedAtInstantOlder(s: seq<Note>, t: Instant)
    requires SortedByRecency(s)
    requires s != [] && s[0].updatedAt < t
    ensures UpdatedAtInstant(s, t) == []
  {
    if |s| > 1 {
      UpdatedAtInstantOlder(s[1..], t);
    }
  }

  lemma {:induction false} InsertByRecencyStable(s: seq<Note>, n: Note, t: Instant)
    requires SortedByRecency(s)
    ensures UpdatedAtInstant(InsertByRecency(s, n), t) == UpdatedAtInstant(s, t) + UpdatedAtInstant([n], t)
  {
    if s == [] {
    } else if s[0].updatedAt >= n.updatedAt {
      InsertByRecencyStable(s[1..], n, t);
      assert ([s[0]] + InsertByRecency(s[1..], n))[1..] == InsertByRecency(s[1..], n);
    } else {
      UpdatedAtInstantConcat([n], s, t);
      if n.updatedAt == t {
        UpdatedAtInstantOlder(s, t);
      }
    }
  }

  /** The sort is stable: notes updated at the same instant keep the order
      they had. */
  lemma {:induction false} SortByRecencyStable(s: seq<Note>, t: Instant)
    ensures UpdatedAtInstant(SortByRecency(s), t) == UpdatedAtInstant(s, t)
  {
    if s != [] {
      var init, last := s[..|s| - 1], s[|s| - 1];
      SortByRecencyStable(init, t);
      SortByRecencySorted(init);
      InsertByRecencyStable(SortByRecency(init), last, t);
      assert s == init + [last];
      UpdatedAtInstantConcat(init, [last], t);
    }
  }

  // ---------------------------------------------------------------------
  // Adding, deleting and updating

  /** The list after `add_note(note)` for each note of `added` in turn. */
  function AddAll(s: seq<Note>, added: seq<Note>): seq<Note> {
    if added == [] then s
    else SortByRecency(AddAll(s, added[..|added| - 1]) + [added[|added| - 1]])
  }

  /** Adding notes one by one keeps every note, old and new (duplicates
      included), and leaves the list newest first. */
  lemma {:induction false} AddAllContents(s: seq<Note>, added: seq<Note>)
    ensures |AddAll(s, added)| == |s| + |added|
    ensures multiset(AddAll(s, added)) == multiset(s) + multiset(added)
    ensures added != [] || SortedByRecency(s) ==> SortedByRecency(AddAll(s, added))
  {
    if added != [] {
      var init, last := added[..|added| - 1], added[|added| - 1];
      AddAllContents(s, init);
      SortByRecencySorted(AddAll(s, init) + [last]);
      assert added == init + [last];
    }
  }

  /** Some note of `s` has that id. */
  predicate HasId(s: seq<Note>, id: u64) {
    exists i :: 0 <= i < |s| && s[i].id == id
  }

  /** `retain(|note| note.id != id)`: every note with that id goes, the
      others stay, in their order. */
  function WithoutId(s: seq<Note>, id: u64): (r: seq<Note>)
    ensures forall n :: n in r ==> n in s && n.id != id
    ensures forall n :: n in s && n.id != id ==> n in r
    ensures |r| <= |s|
  {
    if s == [] then []
    else (if s[0].id == id then [] else [s[0]]) + WithoutId(s[1..], id)
  }

  /** The list gets shorter exactly when some note had that id. */
  lemma {:induction false} WithoutIdShrinks(s: seq<Note>, id: u64)
    ensures |WithoutId(s, id)| < |s| <==> HasId(s, id)
  {
    if s != [] {
      WithoutIdShrinks(s[1..], id);
      if s[0].id != id && HasId(s, id) {
        var i :| 0 <= i < |s| && s[i].id == id;
        assert s[1..][i - 1].id == id;
      }
    }
  }

  /** Deleting from a concatenation deletes from each part: the survivors
      keep their relative order. */
  lemma {:induction false} WithoutIdConcat(a: seq<Note>, b: seq<Note>, id: u64)
    ensures WithoutId(a + b, id) == WithoutId(a, id) + WithoutId(b, id)
  {
    if a != [] {
      assert (a + b)[1..] == a[1..] + b;
      WithoutIdConcat(a[1..], b, id);
    } else {
      assert a + b == b;
    }
  }

  /** Notes with another id keep their number of copies. */
  lemma {:induction false} WithoutIdKeepsOthers(s: seq<Note>, id: u64, n: Note)
    requires n.id != id
    ensures multiset(WithoutId(s, id))[n] == multiset(s)[n]
  {
    if s != [] {
      WithoutIdKeepsOthers(s[1..], id, n);
      assert s == [s[0]] + s[1..];
    }
  }

  /** Deleting keeps a newest-first list newest first. */
  lemma {:induction false} WithoutIdSorted(s: seq<Note>, id: u64)
    requires SortedByRecency(s)
    ensures SortedByRecency(WithoutId(s, id))
  {
    if s != [] {
      WithoutIdSorted(s[1..], id);
      var rest := WithoutId(s[1..], id);
      forall j | 0 <= j < |rest|
        ensures s[0].updatedAt >= rest[j].updatedAt
      {
        assert rest[j] in s[1..];
      }
    }
  }

  /** `iter().find(|n| n.id == id)`: the first position holding that id. */
  function IndexOfId(s: seq<Note>, id: u64): (r: Option<nat>)
    ensures r.Some? ==> r.value < |s| && s[r.value].id == id
    ensures r.Some? ==> forall j :: 0 <= j < r.value ==> s[j].id != id
    ensures r.None? ==> forall j :: 0 <= j < |s| ==> s[j].id != id
  {
    if s == [] then None
    else if s[0].id == id then Some(0)
    else match IndexOfId(s[1..], id)
      case None => None
      case Some(k) => Some(k + 1)
  }

  /** The edit `update_note` makes to the note it found. */
  function Edited(n: Note, title: string, content: string, now: Instant): Note {
    n.(title := title, content := content, updatedAt := now)
  }

  /** The list after `update_note(id, title, content)` at instant `now`. */
  function Updated(s: seq<Note>, id: u64, title: string, content: string, now: Instant): seq<Note> {
    match IndexOfId(s, id)
    case None => s
    case Some(i) => SortByRecency(s[i := Edited(s[i], title, content, now)])
  }

  /** An update of a present id replaces the first note with that id by its
      edited copy (same id and creation time) and re-sorts; an update of an
      absent id changes nothing. */
  lemma UpdatedContents(s: seq<Note>, id: u64, title: string, content: string, now: Instant)
    ensures IndexOfId(s, id).None? ==> Updated(s, id, title, content, now) == s
    ensures IndexOfId(s, id).Some? ==>
      var i := IndexOfId(s, id).value;
      var e := Edited(s[i], title, content, now);
      && e.id == id && e.createdAt == s[i].createdAt
      && e.title == title && e.content == content && e.updatedAt == now
      && SortedByRecency(Updated(s, id, title, content, now))
      && multiset(Updated(s, id, title, content, now)) == multiset(s) - multiset{s[i]} + multiset{e}
  {
    if IndexOfId(s, id).Some? {
      var i := IndexOfId(s, id).value;
      var e := Edited(s[i], title, content, now);
      SortByRecencySorted(s[i := e]);
      MultisetReplace(s, i, e);
    }
  }

  lemma MultisetReplace(s: seq<Note>, i: nat, e: Note)
    requires i < |s|
    ensures multiset(s[i := e]) == multiset(s) - multiset{s[i]} + multiset{e}
  {
    assert s == s[..i] + [s[i]] + s[i + 1..];
    assert s[i := e] == s[..i] + [e] + s[i + 1..];
  }

  /** `NoteList`: the notes, in the order the application shows them. */
  class NoteList {
    var notes: seq<Note>

    /** `NoteList::new`. */
    constructor ()
      ensures notes == []
    {
      notes := [];
    }

    /** `add_note`: push, then sort newest first. */
    method AddNote(note: Note)
      modifies this
      ensures notes == SortByRecency(old(notes) + [note])
    {
      notes := notes + [note];
      notes := SortByRecency(notes);
    }

    /** `delete_note`: reports whether anything was removed. */
    method DeleteNote(id: u64) returns (removed: bool)
      modifies this
      ensures notes == WithoutId(old(notes), id)
      ensures removed <==> HasId(old(notes), id)
    {
      var initialLen := |notes|;
      WithoutIdShrinks(notes, id);
      notes := WithoutId(notes, id);
      removed := |notes| < initialLen;
    }

    /** `update_note`, with `now` standing for `Utc::now()`. */
    method UpdateNote(id: u64, title: string, content: string, now: Instant) returns (found: bool)
      modifies this
      ensures found <==> HasId(old(notes), id)
      ensures notes == Updated(old(notes), id, title, content, now)
    {
      match IndexOfId(notes, id)
      case None =>
        found := false;
      case Some(i) =>
        notes := notes[i := Edited(notes[i], title, content, now)];
        notes := SortByRecency(notes);
        found := true;
    }
  }

  /** The create/update/delete walk-through of a single note: created, it
      is the only note; edited, it keeps its id and carries the new content
      and instant; deleted, it is gone, and a second delete finds nothing. */
  lemma GroceriesWalkThrough(created: Instant, edited: Instant)
    ensures var n := NewNote("Groceries", "milk", created);
      var afterCreate := SortByRecency([] + [n]);
      var afterUpdate := Updated(afterCreate, n.id, "Groceries", "milk, eggs", edited);
      && afterCreate == [n]
      && afterUpdate == [n.(content := "milk, eggs", updatedAt := edited)]
      && WithoutId(afterUpdate, n.id) == []
      && !HasId(WithoutId(afterUpdate, n.id), n.id)
  {
    var n := NewNote("Groceries", "milk", created);
    assert [] + [n] == [n];
    assert SortByRecency([n]) == InsertByRecency(SortByRecency([]), n);
    var e := n.(content := "milk, eggs", updatedAt := edited);
    assert IndexOfId([n], n.id) == Some(0);
    assert SortByRecency([e]) == InsertByRecency(SortByRecency([]), e);
  }

  // ---------------------------------------------------------------------
  // The master password

  /** `MasterPassword`: the password's bytes. */
  datatype MasterPassword = MasterPassword(bytes: Bytes)

  /** `MasterPassword::from` (for `String` and `&str` alike): the UTF-8
      bytes of the text, the one byte string that decodes to it. */
  function MasterPasswordFrom(s: string): (p: MasterPassword)
    ensures Utf8.Decode(p.bytes) == Some(s)
    ensures forall b :: Utf8.Decode(b) == Some(s) ==> b == p.bytes
    ensures |s| <= |p.bytes| <= 4 * |s|
  {
    Utf8.DecodeEncode(s);
    Utf8.DecodeUnique(s);
    Utf8.EncodeLength(s);
    MasterPassword(Utf8.Encode(s))
  }
}
