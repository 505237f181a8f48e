/** The FastAPI variant of the ORM backend (app.py): create, get, full-replace
    update, delete and link by id, over the notes and note_links tables. */
module FastApiNotes {
  import opened Common
  import opened Edges
  import opened TagCodec
  import opened OrmModel

  /** The NoteCreate and NoteUpdate bodies; `tags` defaults to `[]` and may be null. */
  datatype NoteIn = NoteIn(title: string, content: string, tags: Option<seq<string>>)

  /** The row create_note and update_note store for a body: the tags joined
      with `,`, or NULL when there are none. Tags given in an encodable form
      read back as given; null and empty tags both read back as none. */
  function Stored(id: nat, note: NoteIn): (r: NoteRecord)
    ensures r.id == id && r.title == note.title && r.content == note.content
    ensures r.tags.None? <==> note.tags.None? || note.tags.value == []
    ensures note.tags.Some? && Encodable(note.tags.value) ==> DecodeTags(r.tags) == note.tags.value
    ensures note.tags.None? || note.tags.value == [] ==> DecodeTags(r.tags) == []
  {
    var r := NoteRecord(id, note.title, note.content, EncodeOrNull(note.tags));
    if note.tags.Some? && Encodable(note.tags.value) then
      RoundTrip(note.tags.value);
      r
    else
      r
  }

  /** get_note: 404 unless a note has the id, else that note as stored. */
  function GetNote(db: NoteStore, id: nat): (r: Result<NoteRecord>)
    reads db
    ensures r.Err? <==> FindNote(db.notes, id).None?
    ensures r.Err? ==> r.error == NotFound
    ensures r.Ok? ==> r.value in db.notes && r.value.id == id
  {
    match FindNote(db.notes, id)
    case None => Err(NotFound)
    case Some(note) => Ok(note)
  }

  /** get_notes: every stored note, each the one get_note answers for its id,
      and no other. */
  function ListNotes(db: NoteStore): (r: seq<NoteRecord>)
    reads db
    requires db.Valid()
    ensures |r| == |db.notes|
    ensures forall i :: 0 <= i < |r| ==> GetNote(db, r[i].id) == Ok(r[i])
    ensures forall id :: GetNote(db, id).Ok? ==> GetNote(db, id).value in r
  {
    FindEach(db.notes);
    db.notes
  }

  /** create_note: stores the body under the next id and returns the row. */
  method CreateNote(db: NoteStore, note: NoteIn) returns (created: NoteRecord)
    requires db.Valid()
    modifies db
    ensures db.Valid()
    ensures created == Stored(NextId(old(db.notes)), note)
    ensures db.notes == old(db.notes) + [created] && db.noteLinks == old(db.noteLinks)
    ensures GetNote(db, created.id) == Ok(created)
  {
    created := db.Add(note.title, note.content, EncodeOrNull(note.tags));
    FindNoteAppend(old(db.notes), created, created.id);
  }

  /** update_note: 404 and no change for an absent id; otherwise title, content
      and tags are all replaced, and every other note stays as it was. */
  method UpdateNote(db: NoteStore, id: nat, note: NoteIn) returns (r: Result<NoteRecord>)
    requires db.Valid()
    modifies db
    ensures db.Valid()
    ensures r.Err? <==> FindNote(old(db.notes), id).None?
    ensures r.Err? ==> r.error == NotFound && db.notes == old(db.notes)
    ensures r.Ok? ==> r.value == Stored(id, note) && db.notes == Replace(old(db.notes), Stored(id, note))
    ensures forall k :: FindNote(db.notes, k) == if k == id && r.Ok? then Some(Stored(id, note)) else FindNote(old(db.notes), k)
    ensures db.noteLinks == old(db.noteLinks)
  {
    if FindNote(db.notes, id).None? {
      return Err(NotFound);
    }
    db.SetFields(id, note.title, note.content, EncodeOrNull(note.tags));
    r := Ok(Stored(id, note));
  }

  /** delete_note: 404 and no change for an absent id; otherwise the note and
      its links are gone. Either way the id is then not found. */
  method DeleteNote(db: NoteStore, id: nat) returns (r: Result<()>)
    requires db.Valid()
    modifies db
    ensures db.Valid()
    ensures r.Err? <==> FindNote(old(db.notes), id).None?
    ensures r.Err? ==> r.error == NotFound && db.notes == old(db.notes) && db.noteLinks == old(db.noteLinks)
    ensures r.Ok? ==> db.notes == Remove(old(db.notes), id) && db.noteLinks == Unlink(old(db.noteLinks), id)
    ensures GetNote(db, id) == Err(NotFound)
    ensures forall k :: k != id ==> FindNote(db.notes, k) == FindNote(old(db.notes), k)
  {
    if FindNote(db.notes, id).None? {
      return Err(NotFound);
    }
    db.Delete(id);
    r := Ok(());
  }

  /** create_link: 404 and no change unless both notes exist; otherwise the
      target is appended to the source's linked notes unless already there. A
      note may be linked to itself. */
  method CreateLink(db: NoteStore, noteId: nat, targetNoteId: nat) returns (r: Result<()>)
    requires db.Valid()
    modifies db
    ensures db.Valid()
    ensures r.Err? <==> FindNote(old(db.notes), noteId).None? || FindNote(old(db.notes), targetNoteId).None?
    ensures r.Err? ==> r.error == NotFound && db.noteLinks == old(db.noteLinks)
    ensures r.Ok? ==> db.noteLinks == InsertOrIgnore(old(db.noteLinks), (noteId, targetNoteId))
    ensures r.Ok? ==> targetNoteId in LinkedNotes(db.noteLinks, noteId)
    ensures db.notes == old(db.notes)
    ensures NoDup(LinkedNotes(db.noteLinks, noteId))
  {
    if FindNote(db.notes, noteId).None? || FindNote(db.notes, targetNoteId).None? {
      r := Err(NotFound);
    } else {
      db.Link(noteId, targetNoteId);
      r := Ok(());
    }
    LinksListedOnce(db.noteLinks, noteId);
  }
}
