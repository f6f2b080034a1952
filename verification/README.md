# Notes service: title matcher and note store

A model of the back end of a small note-taking application
(`backend/controllers/notesController.js`). Notes are addressed by title:
a raw title from the URL is turned into a regular expression that ignores
case and whitespace, and the five REST handlers list, create, read, update
and delete notes in a document store through it.

- `wrappers.dfy`: the `Option` datatype.
- `title_matcher.dfy` (module `TitleMatcher`): `esc` and
  `makeSpaceInsensitiveRegex` as functions. The regex is a value
  `Regex(source, ignoreCase)` whose `source` is the very pattern text the
  controller builds (`^\s*` then, per character, the escaped character and
  `\s*`, then `$`). No regex engine is modelled in general: `Compile` reads a
  pattern of exactly this shape back into the literal characters it requires,
  and `Test` matches a title against them with the regex's meaning (optional
  whitespace, each literal followed by optional whitespace, end of input,
  case folded when the `i` flag is set). The central result, `TitleMatches`,
  says the regex built from `raw` accepts `title` exactly when the two have
  the same non-whitespace characters in the same order up to case.
- `notes_controller.dfy` (module `NotesController`): the document store as
  the class `NoteStore`, holding the notes in insertion order and the
  counters that stand for id generation and the clock; each handler is a
  method returning a `Response(status, body)`. Module `NotesScenario`
  walks one note through its whole life on a fresh store.

Request bodies are modelled as JavaScript sees them: `createNote`'s title is
missing or a string (`Option<string>`); `updateNote`'s `newTitle` and
`newContent` are missing, a string, or some other JSON value (`BodyField`),
because only `typeof x === "string"` puts a field into the update.

Where several stored titles match, the store's choice is not pinned down:
the handlers promise "a matching note". The model's `FindMatch` happens to
scan in insertion order and take the first.

## Model

| member | source | states |
|---|---|---|
| `TitleMatcher.Esc` | backend/controllers/notesController.js:10 | the escaped string is at least as long as the input; its meaning is stated by `UnescapeEsc`, `EscPlain`, `EscAppend` and `CompileMakeRegex` |
| `TitleMatcher.UnescapeEsc` | backend/controllers/notesController.js:10 | deleting the backslashes `esc` inserts gives back the input (that every metacharacter is escaped is shown by `CompileMakeRegex`, whose reader refuses an unescaped metacharacter) |
| `TitleMatcher.EscPlain` | backend/controllers/notesController.js:10 | `esc` leaves a string without metacharacters unchanged |
| `TitleMatcher.EscAppend` | backend/controllers/notesController.js:10 | `esc` works character by character: it distributes over concatenation |
| `TitleMatcher.Compact` | backend/controllers/notesController.js:15 | the compact form contains no whitespace and is no longer than the input |
| `TitleMatcher.CompactAppend` | backend/controllers/notesController.js:15 | compacting distributes over concatenation, so it keeps the order of characters |
| `TitleMatcher.CompactNoWhitespace` | backend/controllers/notesController.js:15 | a string without whitespace is its own compact form (compacting is idempotent) |
| `TitleMatcher.CompactAllWhitespace` | backend/controllers/notesController.js:15 | a run of whitespace compacts to nothing |
| `TitleMatcher.CompactCounts` | backend/controllers/notesController.js:15 | every non-whitespace character occurs in the compact form as often as in the input |
| `TitleMatcher.MakeSpaceInsensitiveRegex` | backend/controllers/notesController.js:14-18 | the pattern is case-insensitive, starts with `^\s*` and ends with `$` |
| `TitleMatcher.CompileMakeRegex` | backend/controllers/notesController.js:15-17 | the pattern text, read back, requires exactly the compact raw title, character by character; the reader accepts a metacharacter only behind a backslash, so every metacharacter in it was escaped |
| `TitleMatcher.MatchFromIff` | backend/controllers/notesController.js:16-17 | against literals without whitespace, `\s* l1 \s* ... ln \s* $` with case folding accepts exactly the strings whose compact form equals the literals up to case |
| `TitleMatcher.TitleMatches` | backend/controllers/notesController.js:12-17 | the regex built from `raw` matches `title` if and only if their whitespace-free forms are equal ignoring case |
| `TitleMatcher.SameKeySameMatches` | backend/controllers/notesController.js:12-13 | raw titles with the same key ("Shopping List", "shoppinglist", "Sh Op Pi Ng   LiSt") match exactly the same titles |
| `TitleMatcher.BlankRawMatchesBlankTitles` | backend/controllers/notesController.js:15-17 | a raw title that is all whitespace matches exactly the titles that are all whitespace |
| `TitleMatcher.MatchSymmetric` | backend/controllers/notesController.js:12-17 | the regex from `a` matches `b` exactly when the regex from `b` matches `a` |
| `TitleMatcher.WhitespaceInsensitive` | backend/controllers/notesController.js:16-17 | inserting a run of whitespace anywhere in a title does not change whether it matches |
| `TitleMatcher.CaseInsensitive` | backend/controllers/notesController.js:17 | lower-casing a title does not change whether it matches |
| `TitleMatcher.FoldCompact` | backend/controllers/notesController.js:15-17 | case folding and compacting commute |
| `TitleMatcher.RejectsExtraCharacter` | backend/controllers/notesController.js:16-17 | the match is anchored: a non-whitespace character added before, between or after the characters of a matching title makes it fail |
| `NotesController.FindMatch` | backend/controllers/notesController.js:53 | the store's lookup returns the position of a note the regex accepts and none before it, or nothing when no note is accepted |
| `NotesController.FindMatchFindsMatch` | backend/controllers/notesController.js:52-53 | the lookup with the controller's regex finds nothing exactly when no note's title matches the raw title, and otherwise the first matching note |
| `NotesController.SortedByCreatedDesc` | backend/controllers/notesController.js:25 | notes kept in creation order, read backwards, are the same notes ordered by creation time, newest first |
| `NotesController.NoteStore.constructor` | backend/models/noteModel.js:4-8 | a new store is empty and satisfies the store invariant |
| `NotesController.NoteStore.GetAllNotes` | backend/controllers/notesController.js:23-30 | 200 with every stored note and nothing else (as a multiset), newest first; the store is unchanged |
| `NotesController.NoteStore.CreateNote` | backend/controllers/notesController.js:33-47 | missing or empty title: 400 "Title is required" and nothing changes; otherwise 201 and exactly one new note with a fresh id, the given title and content, is appended |
| `NotesController.NoteStore.GetNoteByTitle` | backend/controllers/notesController.js:50-60 | no matching title: 404 "Note not found"; otherwise 200 with a stored note whose title matches; the store is unchanged |
| `NotesController.NoteStore.UpdateNote` | backend/controllers/notesController.js:63-87 | no string field: 400 "Nothing to update", nothing changes; no match: 404, nothing changes; otherwise exactly one matching note gets the supplied string fields and a new update time, keeps its id and creation time, every other note is unchanged, and the updated note is returned with 200 |
| `NotesController.NoteStore.DeleteNote` | backend/controllers/notesController.js:90-100 | no match: 404 "Note not found", nothing changes; otherwise exactly one matching note is removed, all others stay in order, and 200 "Note deleted successfully" is returned |
| `NotesScenario.NoteLifecycle` | backend/controllers/notesController.js:33-100 | on a fresh store a created note is found, updated (content only, title kept) and deleted under any spelling with the same key, and afterwards reading it gives 404 |

## Left out

- Whitespace is JavaScript's `\s` set, listed character by character (`IsWhitespace`); the pattern is in fact evaluated by the document store's own regex engine, whose `\s` may be narrower. The model gives the pattern's `\s` JavaScript's meaning.
- Case-insensitivity is ASCII case folding (`Lower`); the `i` flag's Unicode case mapping of non-ASCII letters is not modelled.
- JavaScript strings are UTF-16 code units and `split("")` splits surrogate pairs; the model works on characters, where the two agree for everything outside the astral planes.
- A general regex engine: `Compile` recognises only the pattern shape the controller builds.
- Mongoose validation: `content` is `required` in the schema (backend/models/noteModel.js:7), so a missing or empty content makes creation fail with 500, and `runValidators` (backend/controllers/notesController.js:79) makes an update to an empty title or content fail with 500. The model's `CreateNote` takes a string content and `UpdateNote` accepts any string title or content.
- A truthy non-string `title` in `createNote` (a number, an object) would be cast or rejected by Mongoose; the model's title is missing or a string.
- Store failures and the 500 responses the `catch` blocks send; async/await; JSON and HTTP encoding.
- `nanoid` ids and wall-clock timestamps: ids come from a counter (fresh and distinct) and `createdAt`/`updatedAt` from a strictly increasing clock, so no two notes share a creation time.
- Which of several matching notes the store returns; the handlers promise only "a matching note".
- The API client (lib/api.js), server bootstrap (backend/server.js), routing table (backend/routes/notesRoutes.js) and UI screens are not part of this model.
