/** The Flask variant of the ORM backend (routes/notes.py): create, get,
    partial update, delete and link by id, each answered with `Note.to_dict`. */
module FlaskNotes {
  import opened Common
  import opened Edges
  import opened TagCodec
  import opened OrmModel
  import FastApiNotes

  /** The JSON body of update_note: a field is present or absent. */
  datatype Payload = Payload(title: Option<string>, content: Option<string>, tags: Option<seq<string>>)

  /** `data.get(key, default)` */
  function GetOr<T>(field: Option<T>, default: T): T
  {
    match field
    case None => default
    case Some(v) => v
  }

  /** The row after update_note: an absent key keeps the old field, and tags
      are replaced only when the key is present. */
  function Patch(note: NoteRecord, data: Payload): NoteRecord
  {
    NoteRecord(note.id, GetOr(data.title, note.title), GetOr(data.content, note.content),
               if data.tags.Some? then EncodeJoined(data.tags.value) else note.tags)
  }

  /** A body without keys changes nothing. */
  lemma EmptyPayloadKeepsNote(note: NoteRecord)
    ensures Patch(note, Payload(None, None, None)) == note
  {
  }

  /** Sending the same body twice has the effect of sending it once. */
  lemma PatchIdempotent(note: NoteRecord, data: Payload)
    ensures Patch(Patch(note, data), data) == Patch(note, data)
  {
  }

  /** Each field of the patched row: the body's value when its key is present,
      the old value otherwise; tags given in an encodable form read back unchanged. */
  lemma PatchFields(note: NoteRecord, data: Payload)
    ensures var p := Patch(note, data);
      && p.id == note.id
      && (data.title.None? ==> p.title == note.title) && (data.title.Some? ==> p.title == data.title.value)
      && (data.content.None? ==> p.content == note.content) && (data.content.Some? ==> p.content == data.content.value)
      && (data.tags.None? ==> p.tags == note.tags)
      && (data.tags.Some? && Encodable(data.tags.value) ==> DecodeTags(p.tags) == data.tags.value)
  {
    if data.tags.Some? && Encodable(data.tags.value) {
      RoundTrip(data.tags.value);
    }
  }

  /** With every key present, the partial update stores what the FastAPI full
      replace stores, except that no tags are stored as `""` instead of NULL;
      both read back as no tags. */
  lemma FullPayloadReplaces(note: NoteRecord, title: string, content: string, tags: seq<string>)
    ensures tags != [] ==>
      Patch(note, Payload(Some(title), Some(content), Some(tags))) == FastApiNotes.Stored(note.id, FastApiNotes.NoteIn(title, content, Some(tags)))
    ensures tags == [] ==>
      && Patch(note, Payload(Some(title), Some(content), Some(tags))).tags == Some("")
      && FastApiNotes.Stored(note.id, FastApiNotes.NoteIn(title, content, Some(tags))).tags == None
      && DecodeTags(Some("")) == DecodeTags(None) == []
  {
  }

  /** get_note: 404 unless a note has the id, else its `to_dict`. */
  function GetNote(db: NoteStore, id: nat): (r: Result<NoteDict>)
    reads db
    ensures r.Err? <==> FindNote(db.notes, id).None?
    ensures r.Err? ==> r.error == NotFound
    ensures r.Ok? ==> r.value.id == id && FindNote(db.notes, id).value.title == r.value.title
  {
    match FindNote(db.notes, id)
    case None => Err(NotFound)
    case Some(note) => Ok(ToDict(db.notes, db.noteLinks, note))
  }
  /** get_notes: the `to_dict` of every stored note, in table order, each the
      answer get_note gives for that note's id. */
  function ListNotes(db: NoteStore): (r: seq<NoteDict>)
    reads db
    requires db.Valid()
    ensures |r| == |db.notes|
    ensures forall i :: 0 <= i < |r| ==> GetNote(db, db.notes[i].id) == Ok(r[i])
  {
    var notes, links := db.notes, db.noteLinks;
    FindEach(notes);
    seq(|notes|, i requires 0 <= i < |notes| => ToDict(notes, links, notes[i]))
  }


  /** create_note: `title` and `content` are required, `tags` defaults to
      `[]` and is always stored joined, so no tags are stored as `""`. The new
      note has no links yet. */
  method CreateNote(db: NoteStore, title: string, content: string, tags: Option<seq<string>>) returns (d: NoteDict)
    requires db.Valid()
    modifies db
    ensures db.Valid()
    ensures db.notes == old(db.notes) + [NoteRecord(NextId(old(db.notes)), title, content, EncodeJoined(GetOr(tags, [])))]
    ensures db.noteLinks == old(db.noteLinks)
    ensures GetNote(db, NextId(old(db.notes))) == Ok(d)
    ensures d.linkedNotes == []
  {
    var row := db.Add(title, content, EncodeJoined(GetOr(tags, [])));
    FindNoteAppend(old(db.notes), row, row.id);
    TargetsOfAbsent(db.noteLinks, row.id);
    d := ToDict(db.notes, db.noteLinks, row);
  }

  /** update_note: 404 and no change for an absent id; otherwise the row is
      patched with the body and every other note stays as it was. */
  method UpdateNote(db: NoteStore, id: nat, data: Payload) returns (r: Result<NoteDict>)
    requires db.Valid()
    modifies db
    ensures db.Valid()
    ensures r.Err? <==> FindNote(old(db.notes), id).None?
    ensures r.Err? ==> r.error == NotFound && db.notes == old(db.notes)
    ensures r.Ok? ==> db.notes == Replace(old(db.notes), Patch(FindNote(old(db.notes), id).value, data))
    ensures forall k :: k != id ==> FindNote(db.notes, k) == FindNote(old(db.notes), k)
    ensures r.Ok? ==> FindNote(db.notes, id) == Some(Patch(FindNote(old(db.notes), id).value, data))
    ensures r.Ok? ==> r == GetNote(db, id)
    ensures db.noteLinks == old(db.noteLinks)
  {
    var found := FindNote(db.notes, id);
    if found.None? {
      return Err(NotFound);
    }
    var p := Patch(found.value, data);
    db.SetFields(id, p.title, p.content, p.tags);
    r := Ok(ToDict(db.notes, db.noteLinks, p));
  }

  /** delete_note: 404 and no change for an absent id; otherwise exactly the
      addressed note and its links are removed. */
  method DeleteNote(db: NoteStore, id: nat) returns (r: Result<()>)
    requires db.Valid()
    modifies db
    ensures db.Valid()
    ensures r.Err? <==> FindNote(old(db.notes), id).None?
    ensures r.Err? ==> r.error == NotFound && db.notes == old(db.notes) && db.noteLinks == old(db.noteLinks)
    ensures r.Ok? ==> db.notes == Remove(old(db.notes), id) && db.noteLinks == Unlink(old(db.noteLinks), id)
    ensures GetNote(db, id).Err?
    ensures forall k :: k != id ==> FindNote(db.notes, k) == FindNote(old(db.notes), k)
  {
    if FindNote(db.notes, id).None? {
      return Err(NotFound);
    }
    db.Delete(id);
    r := Ok(());
  }

  /** create_link: 404 and no change unless both notes exist; otherwise the
      target is appended to the source's linked notes unless already there, and
      the source's `to_dict` is returned. */
  method CreateLink(db: NoteStore, noteId: nat, targetId: nat) returns (r: Result<NoteDict>)
    requires db.Valid()
    modifies db
    ensures db.Valid()
    ensures r.Err? <==> FindNote(old(db.notes), noteId).None? || FindNote(old(db.notes), targetId).None?
    ensures r.Err? ==> r.error == NotFound && db.noteLinks == old(db.noteLinks)
    ensures r.Ok? ==> db.noteLinks == InsertOrIgnore(old(db.noteLinks), (noteId, targetId))
    ensures r.Ok? ==> r == GetNote(db, noteId)
    ensures r.Ok? ==> LinkRef(targetId, FindNote(db.notes, targetId).value.title) in r.value.linkedNotes
    ensures db.notes == old(db.notes)
  {
    var source := FindNote(db.notes, noteId);
    var target := FindNote(db.notes, targetId);
    if source.None? || target.None? {
      return Err(NotFound);
    }
    db.Link(noteId, targetId);
    LinkedNoteListed(db.notes, db.noteLinks, source.value, targetId);
    r := Ok(ToDict(db.notes, db.noteLinks, source.value));
  }
}
