/**
 The five CRUD handlers of the notes controller, over an in-memory document
 store. The store keeps its notes in insertion order; ids and timestamps come
 from counters the store owns. A request either fails with 400 or 404 (the
 store unchanged) or performs one insert, one update or one delete.

 Notes are addressed by title through the title matcher: a note "matches" a
 raw title when the regex built from the raw title accepts the note's title,
 which `TitleMatches` shows is the same as their keys being equal.
 */
module NotesController {
  import opened Wrappers
  import opened TitleMatcher

  /** A stored document: the schema's `id`, `title` and `content`, and the two timestamps. */
  datatype Note = Note(id: nat, title: string, content: string, createdAt: nat, updatedAt: nat)

  /** A field of a request body as JavaScript sees it: absent, a string, or some other value. */
  datatype BodyField = Missing | Str(value: string) | NotString

  /** The update object `updateNote` builds: the fields it will overwrite. */
  datatype Update = Update(title: Option<string>, content: Option<string>)

  datatype Body = NoteBody(note: Note) | NoteList(notes: seq<Note>) | Message(message: string)

  /** An HTTP response: a status and the JSON body. */
  datatype Response = Response(status: nat, body: Body)

  const OK: nat := 200
  const CREATED: nat := 201
  const BAD_REQUEST: nat := 400
  const NOT_FOUND: nat := 404

  /* ------------------------------ Title lookup ----------------------------- */

  /** The note's title is the raw title up to whitespace and case. */
  predicate Matches(n: Note, raw: string) {
    TitleKey(n.title) == TitleKey(raw)
  }

  predicate AnyMatch(notes: seq<Note>, raw: string) {
    exists i :: 0 <= i < |notes| && Matches(notes[i], raw)
  }

  /** The store's find-one by title regex: a scan in insertion order. */
  function FindMatch(notes: seq<Note>, re: Regex, from: nat): (k: Option<nat>)
    requires Compile(re.source).Some?
    requires from <= |notes|
    ensures k.Some? ==> from <= k.value < |notes| && Test(re, notes[k.value].title)
    ensures k.Some? ==> forall j :: from <= j < k.value ==> !Test(re, notes[j].title)
    ensures k.None? ==> forall j :: from <= j < |notes| ==> !Test(re, notes[j].title)
    decreases |notes| - from
  {
    if from == |notes| then None
    else if Test(re, notes[from].title) then Some(from)
    else FindMatch(notes, re, from + 1)
  }

  /** The regex the controller builds from `raw` accepts a stored title exactly when the note matches `raw`. */
  lemma RegexSelectsMatches(notes: seq<Note>, raw: string)
    ensures Compile(MakeSpaceInsensitiveRegex(raw).source).Some?
    ensures forall i :: 0 <= i < |notes| ==>
              (Test(MakeSpaceInsensitiveRegex(raw), notes[i].title) <==> Matches(notes[i], raw))
  {
    TitleMatches(raw, "");
    forall i | 0 <= i < |notes|
      ensures Test(MakeSpaceInsensitiveRegex(raw), notes[i].title) <==> Matches(notes[i], raw)
    {
      TitleMatches(raw, notes[i].title);
    }
  }

  /** The lookup the handlers make finds the first note that matches `raw`, or nothing when none does. */
  lemma FindMatchFindsMatch(notes: seq<Note>, raw: string)
    ensures Compile(MakeSpaceInsensitiveRegex(raw).source).Some?
    ensures var k := FindMatch(notes, MakeSpaceInsensitiveRegex(raw), 0);
            (k.None? <==> !AnyMatch(notes, raw))
            && (k.Some? ==> k.value < |notes| && Matches(notes[k.value], raw))
            && (k.Some? ==> forall j :: 0 <= j < k.value ==> !Matches(notes[j], raw))
  {
    RegexSelectsMatches(notes, raw);
  }

  /* ------------------------------- Ordering -------------------------------- */

  predicate OldestFirst(ns: seq<Note>) {
    forall i, j :: 0 <= i < j < |ns| ==> ns[i].createdAt < ns[j].createdAt
  }

  predicate NewestFirst(ns: seq<Note>) {
    forall i, j :: 0 <= i < j < |ns| ==> ns[i].createdAt > ns[j].createdAt
  }

  predicate DistinctIds(ns: seq<Note>) {
    forall i, j :: 0 <= i < j < |ns| ==> ns[i].id != ns[j].id
  }

  function Reverse(s: seq<Note>): seq<Note> {
    if s == [] then [] else Reverse(s[1..]) + [s[0]]
  }

  lemma {:induction false} ReverseAt(s: seq<Note>, k: nat)
    requires k < |s|
    ensures |Reverse(s)| == |s| && Reverse(s)[k] == s[|s| - 1 - k]
  {
    if |s| > 1 {
      ReverseAt(s[1..], if k < |s| - 1 then k else 0);
    }
  }

  lemma {:induction false} ReverseMultiset(s: seq<Note>)
    ensures multiset(Reverse(s)) == multiset(s)
  {
    if s != [] {
      ReverseMultiset(s[1..]);
      assert s == [s[0]] + s[1..];
    }
  }

  /** Notes kept oldest first, read backwards, are newest first: `sort({ createdAt: -1 })`. */
  lemma SortedByCreatedDesc(s: seq<Note>)
    requires OldestFirst(s)
    ensures multiset(Reverse(s)) == multiset(s)
    ensures NewestFirst(Reverse(s))
  {
    ReverseMultiset(s);
    if s != [] { ReverseAt(s, 0); }
    forall i, j | 0 <= i < j < |Reverse(s)|
      ensures Reverse(s)[i].createdAt > Reverse(s)[j].createdAt
    {
      ReverseAt(s, i);
      ReverseAt(s, j);
    }
  }

  /* ------------------------------- Updating -------------------------------- */

  /** `after` is `before` with the supplied string fields written and the update time set. */
  predicate IsUpdateOf(after: Note, before: Note, newTitle: BodyField, newContent: BodyField, now: nat) {
    after.id == before.id
    && after.title == (if newTitle.Str? then newTitle.value else before.title)
    && after.content == (if newContent.Str? then newContent.value else before.content)
    && after.createdAt == before.createdAt
    && after.updatedAt == now
  }

  function ApplyUpdate(n: Note, u: Update, now: nat): Note {
    n.(title := if u.title.Some? then u.title.value else n.title,
       content := if u.content.Some? then u.content.value else n.content,
       updatedAt := now)
  }

  /** Rewriting one note without touching its id or creation time keeps the order and the distinct ids. */
  lemma ReplacePreservesOrder(s: seq<Note>, i: nat, n: Note)
    requires i < |s|
    requires OldestFirst(s) && DistinctIds(s)
    requires n.id == s[i].id && n.createdAt == s[i].createdAt
    ensures OldestFirst(s[i := n]) && DistinctIds(s[i := n])
  {
  }

  /** Removing one note keeps the others in creation order with distinct ids. */
  lemma RemovePreservesOrder(s: seq<Note>, i: nat)
    requires i < |s|
    requires OldestFirst(s) && DistinctIds(s)
    ensures OldestFirst(s[..i] + s[i+1..]) && DistinctIds(s[..i] + s[i+1..])
  {
  }

  /* -------------------------------- The store ------------------------------ */

  class NoteStore {
    /** The collection, in insertion order. */
    var notes: seq<Note>
    /** The next timestamp to hand out. */
    var clock: nat
    /** The next fresh id. */
    var nextId: nat

    /** Ids are fresh and distinct; timestamps lie in the past and increase with insertion. */
    ghost predicate Valid()
      reads this
    {
      (forall i :: 0 <= i < |notes| ==>
         notes[i].id < nextId && notes[i].createdAt <= notes[i].updatedAt < clock)
      && OldestFirst(notes)
      && DistinctIds(notes)
    }

    constructor ()
      ensures Valid() && notes == []
    {
      notes := [];
      clock := 0;
      nextId := 0;
    }

    /** GET /api/notes: every note and nothing else, newest first. */
    method GetAllNotes() returns (r: Response)
      requires Valid()
      ensures r.status == OK && r.body.NoteList?
      ensures multiset(r.body.notes) == multiset(notes)
      ensures NewestFirst(r.body.notes)
    {
      SortedByCreatedDesc(notes);
      r := Response(OK, NoteList(Reverse(notes)));
    }

    /** POST /api/notes: a missing or empty title is refused; otherwise one new note is appended. */
    method CreateNote(title: Option<string>, content: string) returns (r: Response)
      requires Valid()
      modifies this
      ensures Valid()
      ensures title.None? || title.value == "" ==>
                r == Response(BAD_REQUEST, Message("Title is required")) && unchanged(this)
      ensures title.Some? && title.value != "" ==>
                r.status == CREATED && r.body.NoteBody?
                && notes == old(notes) + [r.body.note]
                && r.body.note.title == title.value && r.body.note.content == content
                && (forall n :: n in old(notes) ==> n.id != r.body.note.id)
    {
      if title.None? || title.value == "" {
        return Response(BAD_REQUEST, Message("Title is required"));
      }
      var note := Note(nextId, title.value, content, clock, clock);
      notes := notes + [note];
      nextId := nextId + 1;
      clock := clock + 1;
      r := Response(CREATED, NoteBody(note));
    }

    /** GET /api/notes/:title: a note whose title matches, or 404. */
    method GetNoteByTitle(raw: string) returns (r: Response)
      ensures !AnyMatch(notes, raw) ==> r == Response(NOT_FOUND, Message("Note not found"))
      ensures AnyMatch(notes, raw) ==>
                r.status == OK && r.body.NoteBody? && r.body.note in notes && Matches(r.body.note, raw)
    {
      var re := MakeSpaceInsensitiveRegex(raw);
      FindMatchFindsMatch(notes, raw);
      var k := FindMatch(notes, re, 0);
      if k.None? {
        return Response(NOT_FOUND, Message("Note not found"));
      }
      r := Response(OK, NoteBody(notes[k.value]));
    }

    /**
     PUT /api/notes/:title: only string fields go into the update; with none,
     400; with no matching note, 404; otherwise one matching note is updated
     and returned as it is after the update.
     */
    method UpdateNote(raw: string, newTitle: BodyField, newContent: BodyField) returns (r: Response)
      requires Valid()
      modifies this
      ensures Valid()
      ensures !newTitle.Str? && !newContent.Str? ==>
                r == Response(BAD_REQUEST, Message("Nothing to update")) && unchanged(this)
      ensures (newTitle.Str? || newContent.Str?) && !AnyMatch(old(notes), raw) ==>
                r == Response(NOT_FOUND, Message("Note not found")) && unchanged(this)
      ensures (newTitle.Str? || newContent.Str?) && AnyMatch(old(notes), raw) ==>
                |notes| == |old(notes)| && nextId == old(nextId)
                && (exists i :: 0 <= i < |notes| && Matches(old(notes)[i], raw)
                      && notes == old(notes)[i := notes[i]]
                      && IsUpdateOf(notes[i], old(notes)[i], newTitle, newContent, old(clock))
                      && r == Response(OK, NoteBody(notes[i])))
    {
      var re := MakeSpaceInsensitiveRegex(raw);
      var update := Update(None, None);
      if newTitle.Str? {
        update := update.(title := Some(newTitle.value));
      }
      if newContent.Str? {
        update := update.(content := Some(newContent.value));
      }
      if update == Update(None, None) {
        return Response(BAD_REQUEST, Message("Nothing to update"));
      }
      FindMatchFindsMatch(notes, raw);
      var k := FindMatch(notes, re, 0);
      if k.None? {
        return Response(NOT_FOUND, Message("Note not found"));
      }
      var i := k.value;
      var updated := ApplyUpdate(notes[i], update, clock);
      assert IsUpdateOf(updated, notes[i], newTitle, newContent, clock);
      ReplacePreservesOrder(notes, i, updated);
      notes := notes[i := updated];
      clock := clock + 1;
      assert notes[i] == updated && Matches(old(notes)[i], raw);
      r := Response(OK, NoteBody(updated));
    }

    /** DELETE /api/notes/:title: removes one matching note, or 404. */
    method DeleteNote(raw: string) returns (r: Response)
      requires Valid()
      modifies this
      ensures Valid()
      ensures !AnyMatch(old(notes), raw) ==>
                r == Response(NOT_FOUND, Message("Note not found")) && unchanged(this)
      ensures AnyMatch(old(notes), raw) ==>
                r == Response(OK, Message("Note deleted successfully"))
                && clock == old(clock) && nextId == old(nextId)
                && (exists i :: 0 <= i < |old(notes)| && Matches(old(notes)[i], raw)
                      && notes == old(notes)[..i] + old(notes)[i + 1..])
    {
      var re := MakeSpaceInsensitiveRegex(raw);
      FindMatchFindsMatch(notes, raw);
      var k := FindMatch(notes, re, 0);
      if k.None? {
        return Response(NOT_FOUND, Message("Note not found"));
      }
      var i := k.value;
      RemovePreservesOrder(notes, i);
      notes := notes[..i] + notes[i + 1..];
      r := Response(OK, Message("Note deleted successfully"));
    }
  }
}

/**
 The walk-through of a note's life: create it, then read, update and delete it
 under other spellings of its title, and find it gone.
 */
module NotesScenario {
  import opened Wrappers
  import opened TitleMatcher
  import opened NotesController

  /**
   On an empty store: the created note is found, updated (content only) and
   deleted under any spelling with the same key, after which it is not found.
   */
  method NoteLifecycle(title: string, content: string, newContent: string,
                       getAs: string, updateAs: string, deleteAs: string, refetchAs: string)
    returns (created: Response, found: Response, updated: Response, deleted: Response, missing: Response)
    requires title != ""
    requires TitleKey(getAs) == TitleKey(title) && TitleKey(updateAs) == TitleKey(title)
    requires TitleKey(deleteAs) == TitleKey(title) && TitleKey(refetchAs) == TitleKey(title)
    ensures created.status == CREATED && created.body.NoteBody?
    ensures created.body.note.title == title && created.body.note.content == content
    ensures found == Response(OK, NoteBody(created.body.note))
    ensures updated.status == OK && updated.body.NoteBody?
    ensures updated.body.note.id == created.body.note.id && updated.body.note.createdAt == created.body.note.createdAt
    ensures updated.body.note.title == title && updated.body.note.content == newContent
    ensures deleted == Response(OK, Message("Note deleted successfully"))
    ensures missing == Response(NOT_FOUND, Message("Note not found"))
  {
    var store := new NoteStore();
    created := store.CreateNote(Some(title), content);
    assert store.notes == [created.body.note];
    assert Matches(store.notes[0], getAs);
    found := store.GetNoteByTitle(getAs);
    assert Matches(store.notes[0], updateAs);
    updated := store.UpdateNote(updateAs, Missing, Str(newContent));
    assert store.notes == [updated.body.note];
    assert Matches(store.notes[0], deleteAs);
    deleted := store.DeleteNote(deleteAs);
    assert store.notes == [];
    missing := store.GetNoteByTitle(refetchAs);
  }
}
