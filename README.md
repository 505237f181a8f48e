# Zettelkasten notes backend — a Dafny model

The repository is a small Zettelkasten backend: notes with a title, a body and
tags, linked to each other. It exists in three variants, and each one is
modelled here.

- **main.py**, a FastAPI service over four SQLite tables: `notes`, `tags`,
  `note_tags` and `links`.
  - On creation it lower-cases and strips the tags, then stores them.
  - It resolves every `[[Title]]` reference in the body to a link to the first
    note with that title.
  - It can list notes filtered by tag or keyword, fetch one note with its tags,
    links and backlinks, add a link by target title, and report the link graph
    keyed by title.
- **app.py**, a FastAPI service over the ORM model of `models/note.py`. It can
  list all notes, and create, fetch, fully replace and delete a note, and link
  two notes by id.
- **routes/notes.py**, the same operations as a Flask blueprint. Its update is
  partial. Every answer is `Note.to_dict()`, except delete_note's empty 204.

Modules:

- `Common`: Option, Result, the HTTP failures, and sequence helpers.
- `Edges`: a table of (source, target) rows keyed by the whole row, with
  `INSERT OR IGNORE` and the forward and backward lookups.
- `Text`: `tag.lower().strip()`, `normalize_tags` and the `resolve_links` regex.
- `TagCodec`: the comma-joined tag column and the way `to_dict` decodes it.
- `SqlStore`: the tables of main.py as sequences in rowid order. Class
  `Database` holds them, and its methods are the endpoints.
- `SqlFindings`: `insert_tags` as written, beside the corrected model.
- `OrmModel`: the `notes` and `note_links` tables, `to_dict`, and class
  `NoteStore` with the session operations.
- `FastApiNotes` and `FlaskNotes`: the endpoints of app.py and routes/notes.py
  over a `NoteStore`.

A 404 is `Err(NotFound)`. The 400 for linking a note to itself is
`Err(SelfLink)`.

Two behaviours of the code worth knowing:

- `[[]]` is no reference at all: the regex group needs at least one character.
- A reference is resolved only when the note holding it is created. A note
  created before the note it names never gets that link.

## Model

| member | source | states |
|---|---|---|
| Common.Dedupe | main.py:49 | the elements of the input, each exactly once, no more of them than in the input |
| Common.IndexOf | main.py:59 | a position at which the value occurs |
| Common.IndexOfFirst | main.py:59 | no earlier position holds the value, so it is the first occurrence, the row id a UNIQUE name is found under |
| Edges.InsertOrIgnore | main.py:228-229 | the row is in the table afterwards, nothing else is added, and a present row changes nothing |
| Edges.InsertOrIgnoreExtends | main.py:228-229 | the old rows stay in place, at most one row is added, and a duplicate-free table stays duplicate-free |
| Edges.InsertOrIgnoreIdempotent | main.py:228-229 | inserting the same row twice leaves the table as inserting it once |
| Edges.Targets | main.py:159-162 | the targets of a source are exactly the second components of its rows |
| Edges.Sources | main.py:163-166 | the sources of a target are exactly the first components of its rows |
| Edges.TargetsAppend | main.py:159-162 | a new row extends only its own source's target list, at the end |
| Edges.SourcesAppend | main.py:163-166 | a new row extends only its own target's source list, at the end |
| Edges.TargetsOfAbsent | main.py:122-124 | a value that starts no row has no targets |
| Edges.TargetsNoDup | main.py:106 | with the (source, target) primary key, no target is listed twice |
| Edges.SourcesNoDup | main.py:106 | with the (source, target) primary key, no source is listed twice |
| Edges.TargetsSourcesInverse | main.py:159-166 | `t` is a link of `s` exactly when `s` is a backlink of `t` |
| Text.TrimStart | main.py:56 | a suffix of the input; every removed character is whitespace, and the result does not start with whitespace |
| Text.TrimEnd | main.py:56 | a prefix of the input; every removed character is whitespace, and the result does not end with whitespace |
| Text.Strip | main.py:56 | the input without leading and trailing whitespace and nothing else, with no whitespace left at either end |
| Text.StripUntrimmed | main.py:56 | stripping a string without whitespace at either end returns it |
| Text.NormalizeTag | main.py:56 | `tag.lower().strip()`; NormalizeTagForm and NormalizeTagIdempotent state what it gives |
| Text.NormalizeTagForm | main.py:56 | a stored tag has no whitespace at either end and no upper-case ASCII letter |
| Text.StripKeepsNoUpper | main.py:56 | stripping adds no upper-case letter to a string that has none |
| Text.SliceNoUpper | main.py:56 | every slice of a string without upper-case letters has none |
| Text.Lower | main.py:56 | ASCII lower-casing, character by character; LowerHasNoUpper and LowerUnchanged state what it gives |
| Text.LowerHasNoUpper | main.py:56 | lower-casing leaves no upper-case ASCII letter |
| Text.LowerUnchanged | main.py:143 | lower-casing a string without upper-case letters returns it |
| Text.NormalizeTagIdempotent | main.py:56 | normalising a normalised tag changes nothing |
| Text.NormalizeEach | main.py:55-56 | each tag is normalised, position by position |
| Text.NormalizeTags | main.py:48-49 | no duplicates; every normalised input tag is present; every element is some input tag normalised |
| Text.RunLength | main.py:52 | the greedy `[^\]]+` run: no `]` inside it, and a `]` right after it |
| Text.MatchAt | main.py:52 | a match at the start is `[[`, a non-empty name without `]`, then `]]` |
| Text.MatchAtComplete | main.py:52 | whenever the pattern matches at the start, MatchAt finds exactly that name |
| Text.ResolveLinks | main.py:51-52 | every reference found is non-empty and holds no `]` |
| Text.ResolveSkipsProse | main.py:52 | text without `[` contributes no reference |
| Text.RefMatches | main.py:52 | the pattern matches `[[name]]` at the start of a text, and scanning resumes right after the closing `]]` |
| Text.ResolveRef | main.py:52 | a `[[name]]` at the start is found first, then the rest is scanned |
| Text.ResolveRendered | main.py:51-52 | a body built from prose and references yields exactly those references, in order |
| Text.EmptyBracketsYieldNothing | main.py:52 | `[[]]` yields no reference |
| TagCodec.Join | app.py:34 | `','.join(tags)`; JoinSplit, SplitJoin and RoundTrip state how it undoes with Split |
| TagCodec.CommaIndex | models/note.py:41 | the position of the first `,`, or the length when there is none |
| TagCodec.Split | models/note.py:41 | `split(',')` gives at least one part, and no part holds `,` |
| TagCodec.JoinSplit | models/note.py:41 | joining the split parts gives the text back |
| TagCodec.SplitJoin | models/note.py:41 | splitting joined parts without `,` gives the parts back |
| TagCodec.CommaIndexPrefix | models/note.py:41 | the first comma of `a + b` is at the end of a comma-free `a` |
| TagCodec.DecodeTags | models/note.py:41 | `self.tags.split(',') if self.tags else []`; RoundTrip and NoTagsDecodeEmpty state what it reads back |
| TagCodec.EncodeOrNull | app.py:34 | `','.join(tags) if tags else None`; RoundTrip and NoTagsDecodeEmpty are its round trip with DecodeTags |
| TagCodec.EncodeJoined | routes/notes.py:17 | `','.join(tags)` with no NULL case; RoundTrip and EmptyTagLost are its round trip with DecodeTags |
| TagCodec.RoundTrip | app.py:34 | tags stored by either variant decode to the same list, when it is non-empty, not `[""]` and comma-free |
| TagCodec.NoTagsDecodeEmpty | app.py:34 | absent or empty tags are stored as NULL by app.py and as `""` by routes/notes.py, and both decode to `[]` |
| TagCodec.EmptyTagLost | routes/notes.py:17 | the single empty tag reads back as no tags |
| SqlStore.FindById | main.py:185 | a found row is in the table with that id; nothing is found exactly when no row has the id |
| SqlStore.FindByIdAppend | main.py:122-123 | after an insert, the new id finds the new row and other ids find what they found before |
| SqlStore.FindByTitle | main.py:219 | a found row is in the table with that title; nothing is found exactly when no row has the title |
| SqlStore.TitlesOf | main.py:159-162 | when every id names a note: one title per id, in order, each the title of that note |
| SqlStore.NamesOf | main.py:189 | a name is listed exactly when one of the ids names a tag with that name |
| SqlStore.TagNamesOf | main.py:152-155 | the tag names of one note through the note_tags join; AddTagsSpec and FreshNoteTagNames state how insert_tags changes them |
| SqlStore.Enrich | main.py:150-178 | the NoteOut of one row: its tags, links and backlinks; NoteLinksAreEdgeTitles and LinkEndsExist state what the links and backlinks are |
| SqlStore.WithTag | main.py:139-142 | a row is selected exactly when it is a note carrying the tag |
| SqlStore.WithKeyword | main.py:144-146 | a row is selected exactly when its title or content contains the keyword, ignoring ASCII case |
| SqlStore.SelectRows | main.py:136-148 | a non-empty tag filters by lower-cased tag; otherwise a non-empty keyword filters by keyword; otherwise every note is selected |
| SqlStore.FindRow | main.py:79 | with unique ids, every row is found by its own id |
| SqlStore.FreshIdHasNoEdges | main.py:122-124 | the next AUTOINCREMENT id starts no row of a table whose rows start at existing notes |
| SqlStore.AddTag | main.py:57-60 | one insert_tags step as intended, the tag id read back by name; AddTagSpec and AddTagNames state its effect |
| SqlStore.AddTags | main.py:54-60 | insert_tags as intended over the whole list; AddTagsSpec states its effect and InsertTagRows computes it |
| SqlStore.AddTagsStep | main.py:55-60 | one more tag of the list is one more AddTag step |
| SqlStore.NamesTagPrefix | main.py:57-59 | appending tag names leaves what an old tag id names unchanged |
| SqlStore.AddTagKeepsNames | main.py:57-60 | after one tag, a note keeps every name it had |
| SqlStore.AddTagAddsName | main.py:57-60 | after one tag, the tagged note carries the new name |
| SqlStore.OldOrNewName | main.py:57-60 | a name a note has after one insert step is one it had before, or the name of the tag id just added to the tagged note |
| SqlStore.AddTagOnlyName | main.py:57-60 | after one tag, a name a note carries is one it had before or the new tag on the tagged note |
| SqlStore.AddTagNames | main.py:57-60 | after one tag, a note carries a name exactly when it did before, or it is the note being tagged and the name is the new tag |
| SqlStore.AddTagExtends | main.py:57-60 | one added tag keeps both tables duplicate-free and the tag ids in range, only appends to the tags table, and adds rows only for its note |
| SqlStore.AddTagSpec | main.py:57-60 | one added tag keeps the tables valid, only appends to the tags table, and gains its name for its note only |
| SqlStore.ExtendedTrans | main.py:55-60 | two table extensions for the same note compose |
| SqlStore.NamesGainedTrans | main.py:55-60 | two tag-name gains for the same note compose |
| SqlStore.AddTagsSpec | main.py:54-60 | insert_tags keeps tag names unique and note_tags rows unique, only appends tag names, and gives the note exactly its old names plus the normalised tags; other notes are unchanged |
| SqlStore.AddLinks | main.py:62-71 | insert_links over the resolved titles; AddLinksSpec states its effect and InsertLinkRows computes it |
| SqlStore.ResolvedIds | main.py:63-65 | an id is present exactly when one of the titles resolves to that note (the first note with that title) |
| SqlStore.AddLinksSpec | main.py:62-71 | the old links stay in place, no duplicate is created, and an edge is present exactly when it was before or it runs from the source to a resolved note other than the source |
| SqlStore.InsertTagRows | main.py:54-60 | the statement-by-statement loop computes the tables AddTags specifies |
| SqlStore.InsertLinkRows | main.py:62-71 | the statement-by-statement loop computes the links AddLinks specifies |
| SqlStore.EnrichAll | main.py:150-178 | one response per row, in order, each with that row's tags, links and backlinks |
| SqlStore.TitlePairs | main.py:244-249 | when both ends of every link exist: one (source title, target title) pair per link, in order |
| SqlStore.AdjacencyOf | main.py:258-260 | the `setdefault(...).append(...)` map over the edge list; AdjacencyOfSpec states its keys and lists |
| SqlStore.AdjacencyStep | main.py:258-260 | one more edge adds its target at the end of its own source's list and changes no other key |
| SqlStore.AdjacencyOfSpec | main.py:258-260 | the keys are exactly the sources of an edge, each mapped to its targets in edge order |
| SqlStore.Adjacency | main.py:258-260 | the loop computes the map AdjacencyOf specifies, whose keys are the edge sources, each mapped to its targets in edge order |
| SqlStore.GraphKeysAreLinkSources | main.py:237-261 | a title is a key of the graph exactly when a note with that title has an outgoing link |
| SqlStore.AppendRowValid | main.py:122-123 | appending a row with the next id keeps ids unique and below the next id, and every tag row and link still names an existing note |
| SqlStore.InsertLinkValid | main.py:228-229 | inserting an edge between two different existing notes keeps the links table valid |
| SqlStore.FreshNoteTagNames | main.py:123-124 | a note without tag rows has, after insert_tags, exactly the normalised tags |
| SqlStore.Database.constructor | main.py:73-113 | four empty tables, next id 1 |
| SqlStore.Database.InsertTags | main.py:54-60 | (as intended; as written see SqlFindings) the tag tables become AddTags of the old ones and stay valid, every tag row naming an existing note |
| SqlStore.Database.InsertLinks | main.py:62-71 | the links become AddLinks of the old ones and stay valid: no duplicate, no self-link, both ends exist |
| SqlStore.Database.CreateNote | main.py:117-130 | (tags as intended; as written see SqlFindings) the note is stored under the next id, its tags are exactly the normalised given tags, and its references become links |
| SqlStore.Database.CreateLink | main.py:214-235 | 404 exactly when the source id or the target title is missing; 400 exactly when both name the same note; otherwise the edge is inserted unless present; an error changes nothing |
| SqlStore.Database.GetNote | main.py:181-212 | 404 exactly when no note has the id; otherwise that note's id, title and content |
| SqlStore.Database.GetNotes | main.py:132-179 | one response per selected row, in order, each equal to get_note of that row |
| SqlStore.Database.GetGraph | main.py:237-261 | the keys are exactly the titles with an outgoing link, each mapped to the titles of its targets in link order |
| SqlStore.LinkEndsExist | main.py:221-224 | every link and backlink of a note names an existing note |
| SqlStore.NoteLinksAreEdgeTitles | main.py:193-200 | a note's links and backlinks are the titles of its link targets and sources, one per edge, in link order |
| SqlStore.LinkedNotesSeeEachOther | main.py:193-200 | after a link from `a` to `b`, `b`'s title is among `a`'s links and `a`'s title among `b`'s backlinks |
| SqlStore.TagFilterFindsTaggedNote | main.py:138-143 | a note carrying a tag is found by the tag filter, whatever the case of the query |
| SqlStore.SeeBeta | main.py:52 | `see [[Beta]]` yields the single reference `Beta` |
| SqlStore.ReferenceBeforeTargetIsDropped | main.py:125-126 | a reference to a note that does not exist yet adds no link, before or after that note is created |
| SqlStore.ReferenceAfterTargetLinks | main.py:62-68 | a reference to an existing note adds the link from the new note to it |
| SqlFindings.ReusedTagLostAsWritten | main.py:57-59 | as written, an existing tag given to a new note is recorded under the note's id instead of the tag's; with tags numbered without gaps and more notes than tags, no tag has that id, so the note ends up with no tag |
| SqlFindings.AddTagAsWritten | main.py:57-60 | one insert_tags step as written, the tag id taken from `lastrowid`; ReusedTagLostAsWritten shows where it goes wrong |
| SqlFindings.AddTagsAsWritten | main.py:54-60 | insert_tags as written over the whole list; ReusedTagLostAsWritten shows a reused tag lost |
| OrmModel.FindNote | app.py:43 | a found note is in the table with that id; nothing is found exactly when no row has the id |
| OrmModel.FindNoteAppend | app.py:36-38 | after an insert, the new id finds the new row and other ids find what they found before |
| OrmModel.NextId | models/note.py:20 | the id SQLite gives an `INTEGER PRIMARY KEY` row without AUTOINCREMENT; NextIdFresh states it is unused and keeps ids increasing |
| OrmModel.FindEach | app.py:43 | with increasing ids, every stored row is the one its own id finds |
| OrmModel.NextIdFresh | models/note.py:20 | the next id names no note, and ids stay increasing after the insert |
| OrmModel.Replace | app.py:54-56 | the row with the id is replaced and every other row is kept, in place |
| OrmModel.Remove | app.py:68 | exactly the rows with other ids remain |
| OrmModel.FindAfterReplace | app.py:54-58 | after an update, the id finds the new row and other ids find what they found before |
| OrmModel.ReplaceKeepsIds | app.py:54-56 | an update keeps the ids increasing |
| OrmModel.FindAfterRemove | app.py:68-69 | after a delete, the id finds nothing and other ids find what they found before |
| OrmModel.BelowLast | models/note.py:20 | with increasing ids, every id before the last is below the last one |
| OrmModel.AppendIncreasing | models/note.py:20 | appending a row whose id is above every stored id keeps the ids increasing |
| OrmModel.RemoveKeepsIds | app.py:68 | a delete keeps the ids increasing |
| OrmModel.LinkedNotes | models/note.py:28-32 | the targets of a note in note_links; LinkedByInverse and LinksListedOnce state how it relates to linked_by |
| OrmModel.LinkedBy | models/note.py:33 | the `linked_by` backref: the sources of a note in note_links; LinkedByInverse states it is the inverse of LinkedNotes |
| OrmModel.LinkedByInverse | models/note.py:28-34 | `b` is among `a`'s linked notes exactly when `a` is among `b`'s linked_by |
| OrmModel.LinkedNoteListed | models/note.py:36-45 | a link from a note to an existing note puts that note's id and title in the note's `linked_notes` |
| OrmModel.LinksListedOnce | models/note.py:12-13 | with the composite key, no note appears twice in linked_notes or linked_by |
| OrmModel.Unlink | app.py:68 | exactly the link rows that do not touch the deleted note remain, without duplicates |
| OrmModel.LinkRefs | models/note.py:44 | when every id names a note: one entry per id, in order, with that note's id and title |
| OrmModel.ToDict | models/note.py:36-45 | `to_dict` of a row; ToDictSpec and LinkedNoteListed state what its fields hold |
| OrmModel.ToDictSpec | models/note.py:36-45 | no tags exactly when the column is NULL or `""`, otherwise tags that join back to the column; one `linked_notes` entry per link, in order, none twice |
| OrmModel.NoteStore.constructor | app.py:11 | both tables empty |
| OrmModel.NoteStore.Add | app.py:36-38 | the row is stored under the next id, which was unused |
| OrmModel.NoteStore.SetFields | app.py:54-58 | only the addressed row changes, and it then holds the new fields |
| OrmModel.NoteStore.Delete | app.py:68-69 | the row goes with every link into or out of it; other notes stay findable |
| OrmModel.NoteStore.Link | app.py:80-82 | the target is appended to the source's linked notes unless already there |
| FastApiNotes.Stored | app.py:31-35 | the stored row has the body's title and content; tags given in an encodable form read back as given, and null or empty tags are NULL and read back as none |
| FastApiNotes.GetNote | app.py:41-46 | 404 exactly when no note has the id, otherwise a stored note with that id |
| FastApiNotes.ListNotes | app.py:24-27 | every stored note, each the one get_note answers for its id, and every note get_note finds is listed (without the 500 of response validation, see "## Left out") |
| FastApiNotes.CreateNote | app.py:29-39 | the body is stored under the next id and is then found under it |
| FastApiNotes.UpdateNote | app.py:48-60 | 404 with no change exactly when the id is absent; otherwise all three fields are replaced and other notes are untouched |
| FastApiNotes.DeleteNote | app.py:62-70 | 404 with no change exactly when the id is absent; otherwise the note and its links go; afterwards the id is not found |
| FastApiNotes.CreateLink | app.py:72-84 | 404 with no change exactly when either note is missing; otherwise the target is linked once, and self-links are allowed |
| FlaskNotes.Patch | routes/notes.py:33-36 | the row after the partial update; PatchFields, PatchIdempotent and EmptyPayloadKeepsNote state what it keeps and changes |
| FlaskNotes.EmptyPayloadKeepsNote | routes/notes.py:33-36 | a body without keys changes nothing |
| FlaskNotes.PatchIdempotent | routes/notes.py:33-36 | applying the same body twice is applying it once |
| FlaskNotes.PatchFields | routes/notes.py:33-36 | each field takes the body's value when its key is present and keeps the old one otherwise; encodable tags read back as sent |
| FlaskNotes.FullPayloadReplaces | routes/notes.py:33-36 | with all keys present it stores what app.py's full replace stores, except that empty tags become `""` instead of NULL, and both read back as none |
| FlaskNotes.GetNote | routes/notes.py:23-26 | 404 exactly when no note has the id, otherwise that note's `to_dict` |
| FlaskNotes.ListNotes | routes/notes.py:6-9 | one `to_dict` per stored note, in table order, each the answer get_note gives for that note's id |
| FlaskNotes.CreateNote | routes/notes.py:11-21 | the note is stored under the next id with its tags always joined (absent tags as `""`), answered with its `to_dict`, which has no links |
| FlaskNotes.UpdateNote | routes/notes.py:28-39 | 404 with no change exactly when the id is absent; otherwise the row is patched, other notes are untouched, and the answer is the new `to_dict` |
| FlaskNotes.DeleteNote | routes/notes.py:41-46 | 404 with no change exactly when the id is absent; otherwise the note and its links go |
| FlaskNotes.CreateLink | routes/notes.py:48-57 | 404 with no change exactly when either note is missing; otherwise the target is linked once and appears in the returned source's `linked_notes` |

## Left out

- HTTP, FastAPI, Flask, CORS and uvicorn are not modelled. Requests and answers
  are parameters and results. The success messages of main.py and app.py
  (`{"message": ...}`) become `Ok(())` or the new id.
- The SQLite connection, commits and transactions are not modelled. Each
  endpoint is one atomic state change. The tables start empty, which models
  `initialize_database` on a new file, and so does `Base.metadata.create_all`.
- The `sqlite3.OperationalError` fallbacks to `from_note_id`/`to_note_id` are
  left out. They apply only to an older schema that this code never creates.
- The 400 "title already exists" of create_note (main.py:128-129) is left out.
  `title` has no UNIQUE constraint, so no IntegrityError can reach it.
- Foreign keys and `ON DELETE CASCADE` are not modelled. SQLite does not enforce
  them by default, and main.py deletes nothing.
- LIKE wildcards (`%` and `_` inside the keyword) are left out. The keyword is
  matched as plain text.
- Case folding of non-ASCII letters is left out. Python's `str.lower()` at
  main.py:56 and main.py:143 folds all of Unicode; the model's `Text.Lower`
  narrows it to ASCII, which is all SQLite's LIKE folds.
- SqlStore.Database.GetGraph: a Python dict keeps its keys in insertion order,
  the order in which source titles first appear among the edges. A Dafny `map`
  has no order, so the model states no key order. Each key's list is still in
  edge order.
- Result order of the SQL queries is modelled as table order. SQL leaves it
  unspecified without ORDER BY.
- Text.NormalizeTags: Python's set order is unspecified, so the model uses
  first-occurrence order. main.py never calls `normalize_tags`; insert_tags
  normalises each tag itself.
- The `created_at` and `updated_at` timestamps are left out. They are clock
  reads.
- FastApiNotes.CreateNote, FastApiNotes.UpdateNote, FastApiNotes.GetNote and
  FastApiNotes.ListNotes: Pydantic's response validation is left out, and with
  it a failure of the source. `NoteResponse` (models/note.py:59-66) declares
  `linked_notes` as a list of dicts (line 63) and inherits `tags` as a list of
  strings from `NoteBase` (line 51), while the
  row holds a joined string and the relationship holds `Note` objects. Read,
  not run: validation of a note with non-NULL tags or with a link fails. So
  create_note and update_note commit and then answer 500, and get_note answers
  500 for such a note. get_notes (`response_model=List[NoteResponse]`,
  app.py:24) answers 500 as soon as any listed note has tags or a link. The
  model answers `Ok` with the stored row, and ListNotes with every stored row.
- Flask's handling of a malformed or missing JSON body is left out. This
  covers the KeyError on a missing `title`/`content` and a non-list `tags`.
  CreateNote takes title and content as given.
- main1.py, `routes/__init__.py`, `models/__init__.py` and
  `models/note_links.py` are not modelled. They wire up the application.
- OrmModel.NextId: `models/database.py` is not part of this model. NextId
  assumes its engine is SQLite, where the `INTEGER PRIMARY KEY` of
  models/note.py:20, without AUTOINCREMENT, gives the largest id + 1. So the id
  of a deleted last note is handed out again. Another engine may number rows
  differently.
- SqlFindings.AddTagsAsWritten, SqlFindings.AddTagAsWritten and
  SqlFindings.ReusedTagLostAsWritten: the tags table is numbered by row
  position, without AUTOINCREMENT gaps, so a new tag gets id `|names|`.
  main.py:87 declares `tags.id` AUTOINCREMENT, and SQLite may leave a gap after
  an insert that fails on a uniqueness constraint, such as the ignored
  `INSERT OR IGNORE` at main.py:57. With gaps, the id of a new tag may be
  larger. That can change which tag a dangling `(note id, note id)` row names:
  the row may then name an unrelated tag whose id equals the note's id. It can
  also give a note that had such a row a later tag. The model predicts neither
  case. What stays true with gaps: an existing tag given to a new note is
  recorded under the note's id instead of the tag's id. The corrected model
  (SqlStore.AddTag) reads ids back by name, so its tag names do not depend on
  the numbering.
- SqlStore.TitlesOf, SqlStore.TitlePairs and OrmModel.LinkRefs: the per-index
  contents are stated only when every id names a note. The validity invariants
  guarantee that in every reachable state.

## Findings

| source | as written | input that shows it | evidently intended | confidence | as-written member | corrected member |
|---|---|---|---|---|---|---|
| main.py:57-59 | insert_tags takes `cursor.lastrowid` of `INSERT OR IGNORE INTO tags` as the tag id. When the insert is ignored because the tag exists, sqlite3 reports the rowid of the connection's last successful insert: the note just created. The `SELECT id` fallback never runs. | Create note 1 with tag `x`, so tag `x` is id 1. Then create note 2 with tag `x`. note_tags gets (2, 2), which names no tag, so note 2 lists no tags. | The existing tag's id, read back by name, so note 2 gets (2, 1) and lists `x`. | medium, not executed | SqlFindings.ReusedTagLostAsWritten | SqlStore.AddTagsSpec |
