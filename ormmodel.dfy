/** The ORM model shared by app.py and routes/notes.py (models/note.py): the
    `notes` table, the `note_links` association table keyed by
    (source_note_id, target_note_id), the `linked_notes` relationship with its
    `linked_by` backref, and `Note.to_dict`. Class NoteStore is the database as
    a session sees it after each commit. */
module OrmModel {
  import opened Common
  import opened Edges
  import opened TagCodec

  /** A row of the notes table; `tags` is the nullable joined tag column. */
  datatype NoteRecord = NoteRecord(id: nat, title: string, content: string, tags: Option<string>)

  /** One entry of `linked_notes` in `to_dict`: `{'id': ..., 'title': ...}`. */
  datatype LinkRef = LinkRef(id: nat, title: string)

  /** `Note.to_dict` without the two timestamps. */
  datatype NoteDict = NoteDict(id: nat, title: string, content: string, tags: seq<string>, linkedNotes: seq<LinkRef>)

  // ----- the notes table -----

  /** Ids are positive and increase in row order, as SQLite assigns them. */
  ghost predicate IdsIncreasing(notes: seq<NoteRecord>)
  {
    && (forall i :: 0 <= i < |notes| ==> 0 < notes[i].id)
    && (forall i, j :: 0 <= i < j < |notes| ==> notes[i].id < notes[j].id)
  }

  /** `query.filter(Note.id == id).first()`, also `query.get_or_404(id)`. */
  function FindNote(notes: seq<NoteRecord>, id: nat): (r: Option<NoteRecord>)
    ensures r.Some? ==> r.value in notes && r.value.id == id
    ensures r.None? <==> forall row :: row in notes ==> row.id != id
  {
    if notes == [] then None
    else if notes[|notes| - 1].id == id then Some(notes[|notes| - 1])
    else
      assert notes == notes[..|notes| - 1] + [notes[|notes| - 1]];
      FindNote(notes[..|notes| - 1], id)
  }

  lemma FindNoteAppend(notes: seq<NoteRecord>, row: NoteRecord, k: nat)
    ensures FindNote(notes + [row], k) == if row.id == k then Some(row) else FindNote(notes, k)
  {
    assert (notes + [row])[..|notes|] == notes;
  }

  /** With increasing ids, every stored row is the one its own id finds. */
  lemma FindEach(notes: seq<NoteRecord>)
    requires IdsIncreasing(notes)
    ensures forall i :: 0 <= i < |notes| ==> FindNote(notes, notes[i].id) == Some(notes[i])
  {
    forall i | 0 <= i < |notes| ensures FindNote(notes, notes[i].id) == Some(notes[i]) {
      var found := FindNote(notes, notes[i].id).value;
      var j :| 0 <= j < |notes| && notes[j] == found;
      assert !(i < j) && !(j < i);
    }
  }

  /** The id SQLite gives a new row of a table whose `INTEGER PRIMARY KEY` is
      not AUTOINCREMENT: one more than the largest id, or 1 for an empty table.
      An id freed by deleting the last row is handed out again. */
  function NextId(notes: seq<NoteRecord>): nat
  {
    if notes == [] then 1 else notes[|notes| - 1].id + 1
  }

  /** The next id is fresh and appending its row keeps ids increasing. */
  lemma NextIdFresh(notes: seq<NoteRecord>, row: NoteRecord)
    requires IdsIncreasing(notes) && row.id == NextId(notes)
    ensures FindNote(notes, row.id).None?
    ensures IdsIncreasing(notes + [row])
  {
    forall i | 0 <= i < |notes| ensures notes[i].id < row.id {
      if i < |notes| - 1 {
        assert notes[i].id < notes[|notes| - 1].id;
      }
    }
  }

  /** The rows after assigning title, content and tags of the row with `r`'s id. */
  function Replace(notes: seq<NoteRecord>, r: NoteRecord): (out: seq<NoteRecord>)
    ensures |out| == |notes|
    ensures forall i :: 0 <= i < |notes| ==> out[i] == if notes[i].id == r.id then r else notes[i]
  {
    if notes == [] then []
    else
      var last := notes[|notes| - 1];
      Replace(notes[..|notes| - 1], r) + [if last.id == r.id then r else last]
  }

  /** The rows after `db.delete` of the note with this id. */
  function Remove(notes: seq<NoteRecord>, id: nat): (out: seq<NoteRecord>)
    ensures forall row :: row in out <==> row in notes && row.id != id
  {
    if notes == [] then []
    else
      var last := notes[|notes| - 1];
      assert notes == notes[..|notes| - 1] + [last];
      Remove(notes[..|notes| - 1], id) + (if last.id == id then [] else [last])
  }

  /** Assigning the fields of a note changes what is found under its id, and
      nothing else. */
  lemma {:induction false} FindAfterReplace(notes: seq<NoteRecord>, r: NoteRecord, k: nat)
    ensures FindNote(Replace(notes, r), k) ==
      if k == r.id && FindNote(notes, k).Some? then Some(r) else FindNote(notes, k)
  {
    if notes != [] {
      var init := notes[..|notes| - 1];
      FindAfterReplace(init, r, k);
      var out := Replace(notes, r);
      assert out[..|notes| - 1] == Replace(init, r);
    }
  }

  lemma ReplaceKeepsIds(notes: seq<NoteRecord>, r: NoteRecord)
    requires IdsIncreasing(notes)
    ensures IdsIncreasing(Replace(notes, r))
  {
    var out := Replace(notes, r);
    assert forall i :: 0 <= i < |notes| ==> out[i].id == notes[i].id;
  }

  /** After a delete nothing is found under the deleted id, and every other
      note is found as before. */
  lemma {:induction false} FindAfterRemove(notes: seq<NoteRecord>, id: nat, k: nat)
    ensures FindNote(Remove(notes, id), k) == if k == id then None else FindNote(notes, k)
  {
    if notes != [] {
      var init, last := notes[..|notes| - 1], notes[|notes| - 1];
      assert notes == init + [last];
      FindAfterRemove(init, id, k);
      FindNoteAppend(init, last, k);
      var prior := Remove(init, id);
      if last.id != id {
        assert Remove(notes, id) == prior + [last];
        FindNoteAppend(prior, last, k);
      } else {
        assert Remove(notes, id) == prior + [];
        assert prior + [] == prior;
      }
    }
  }

  /** A row with an id above every id of an increasing table can be appended. */
  lemma AppendIncreasing(notes: seq<NoteRecord>, row: NoteRecord)
    requires IdsIncreasing(notes) && 0 < row.id
    requires forall r :: r in notes ==> r.id < row.id
    ensures IdsIncreasing(notes + [row])
  {
    var t := notes + [row];
    forall i, j | 0 <= i < j < |t| ensures t[i].id < t[j].id {
      assert t[i] == notes[i] && notes[i] in notes;
    }
  }

  /** In an increasing table every row before the last has a smaller id. */
  lemma BelowLast(notes: seq<NoteRecord>)
    requires IdsIncreasing(notes) && notes != []
    ensures forall r :: r in notes[..|notes| - 1] ==> r.id < notes[|notes| - 1].id
  {
    forall r | r in notes[..|notes| - 1] ensures r.id < notes[|notes| - 1].id {
      var i :| 0 <= i < |notes| - 1 && notes[..|notes| - 1][i] == r;
      assert notes[i] == r;
    }
  }

  lemma {:induction false} RemoveKeepsIds(notes: seq<NoteRecord>, id: nat)
    requires IdsIncreasing(notes)
    ensures IdsIncreasing(Remove(notes, id))
  {
    if notes != [] {
      var init, last := notes[..|notes| - 1], notes[|notes| - 1];
      assert forall i :: 0 <= i < |init| ==> init[i] == notes[i];
      RemoveKeepsIds(init, id);
      var prior := Remove(init, id);
      if last.id != id {
        assert Remove(notes, id) == prior + [last];
        BelowLast(notes);
        AppendIncreasing(prior, last);
      } else {
        assert Remove(notes, id) == prior;
      }
    }
  }

  // ----- the note_links table -----

  /** `linked_notes` of note `id`: the targets of its note_links rows. */
  function LinkedNotes(noteLinks: seq<Edge>, id: nat): seq<nat>
  {
    Targets(noteLinks, id)
  }

  /** The `linked_by` backref of note `id`: the sources of the rows into it. */
  function LinkedBy(noteLinks: seq<Edge>, id: nat): seq<nat>
  {
    Sources(noteLinks, id)
  }

  /** Both relationships read one table: `b` is among the linked notes of `a`
      exactly when `a` is among the notes `b` is linked by. */
  lemma LinkedByInverse(noteLinks: seq<Edge>, a: nat, b: nat)
    ensures b in LinkedNotes(noteLinks, a) <==> a in LinkedBy(noteLinks, b)
  {
    TargetsSourcesInverse(noteLinks, a, b);
  }

  /** The composite primary key: a directed link is stored once, so no note is
      listed twice among the linked notes, or the linked-by notes, of another. */
  lemma LinksListedOnce(noteLinks: seq<Edge>, id: nat)
    requires NoDup(noteLinks)
    ensures NoDup(LinkedNotes(noteLinks, id)) && NoDup(LinkedBy(noteLinks, id))
  {
    TargetsNoDup(noteLinks, id);
    SourcesNoDup(noteLinks, id);
  }

  /** The note_links rows left when the note with this id is deleted: every row
      from or to it goes with it. */
  function Unlink(noteLinks: seq<Edge>, id: nat): (out: seq<Edge>)
    ensures forall e :: e in out <==> e in noteLinks && e.0 != id && e.1 != id
    ensures NoDup(noteLinks) ==> NoDup(out)
  {
    if noteLinks == [] then []
    else
      var init, last := noteLinks[..|noteLinks| - 1], noteLinks[|noteLinks| - 1];
      assert noteLinks == init + [last];
      Unlink(init, id) + (if last.0 == id || last.1 == id then [] else [last])
  }

  // ----- to_dict -----

  /** `{'id': note.id, 'title': note.title}` for each id that names a note, in order. */
  function LinkRefs(notes: seq<NoteRecord>, ids: seq<nat>): (r: seq<LinkRef>)
    ensures |r| <= |ids|
    ensures (forall id :: id in ids ==> FindNote(notes, id).Some?) ==>
      |r| == |ids| && forall i :: 0 <= i < |ids| ==> r[i] == LinkRef(ids[i], FindNote(notes, ids[i]).value.title)
  {
    if ids == [] then []
    else
      var init := ids[..|ids| - 1];
      assert ids == init + [ids[|ids| - 1]];
      match FindNote(notes, ids[|ids| - 1])
      case Some(row) => LinkRefs(notes, init) + [LinkRef(row.id, row.title)]
      case None => LinkRefs(notes, init)
  }

  /** `Note.to_dict`. */
  function ToDict(notes: seq<NoteRecord>, noteLinks: seq<Edge>, note: NoteRecord): NoteDict
  {
    NoteDict(note.id, note.title, note.content, DecodeTags(note.tags), LinkRefs(notes, LinkedNotes(noteLinks, note.id)))
  }

  /** What `to_dict` reports: no tags exactly when the column is NULL or empty,
      otherwise tags that join back to the column; and one entry per linked
      note, in link order, with that note's id and title, none twice. */
  lemma ToDictSpec(notes: seq<NoteRecord>, noteLinks: seq<Edge>, note: NoteRecord)
    requires NoDup(noteLinks)
    requires forall e :: e in noteLinks ==> FindNote(notes, e.1).Some?
    ensures var d := ToDict(notes, noteLinks, note);
      && (d.tags == [] <==> note.tags == None || note.tags == Some(""))
      && (note.tags.Some? && note.tags.value != "" ==> Join(d.tags) == note.tags.value)
    ensures var d := ToDict(notes, noteLinks, note);
      var ids := LinkedNotes(noteLinks, note.id);
      && |d.linkedNotes| == |ids|
      && NoDup(ids)
      && forall i :: 0 <= i < |ids| ==>
           FindNote(notes, ids[i]).Some? && d.linkedNotes[i] == LinkRef(ids[i], FindNote(notes, ids[i]).value.title)
  {
    if note.tags.Some? && note.tags.value != "" {
      JoinSplit(note.tags.value);
    }
    LinksListedOnce(noteLinks, note.id);
    var ids := LinkedNotes(noteLinks, note.id);
    assert forall id :: id in ids ==> (note.id, id) in noteLinks;
    assert forall i :: 0 <= i < |ids| ==> ids[i] in ids;
  }

  /** Every linked note is listed by `to_dict` with its id and title. */
  lemma LinkedNoteListed(notes: seq<NoteRecord>, noteLinks: seq<Edge>, note: NoteRecord, target: nat)
    requires NoDup(noteLinks)
    requires forall e :: e in noteLinks ==> FindNote(notes, e.1).Some?
    requires (note.id, target) in noteLinks
    ensures FindNote(notes, target).Some?
    ensures LinkRef(target, FindNote(notes, target).value.title) in ToDict(notes, noteLinks, note).linkedNotes
  {
    ToDictSpec(notes, noteLinks, note);
    var ids := LinkedNotes(noteLinks, note.id);
    assert target in ids;
    var i :| 0 <= i < |ids| && ids[i] == target;
    assert ToDict(notes, noteLinks, note).linkedNotes[i] == LinkRef(target, FindNote(notes, target).value.title);
  }

  // ----- the database behind the session -----

  class NoteStore {
    var notes: seq<NoteRecord>
    var noteLinks: seq<Edge>

    ghost predicate Valid()
      reads this
    {
      && IdsIncreasing(notes)
      && NoDup(noteLinks)
      && (forall e :: e in noteLinks ==> FindNote(notes, e.0).Some? && FindNote(notes, e.1).Some?)
    }

    /** `Base.metadata.create_all` on a new database: two empty tables. */
    constructor ()
      ensures Valid() && notes == [] && noteLinks == []
    {
      notes, noteLinks := [], [];
    }

    /** `db.add(note)` and commit: the row is stored under the next id. */
    method Add(title: string, content: string, tags: Option<string>) returns (row: NoteRecord)
      requires Valid()
      modifies this`notes
      ensures Valid()
      ensures row == NoteRecord(NextId(old(notes)), title, content, tags)
      ensures FindNote(old(notes), row.id).None?
      ensures notes == old(notes) + [row]
    {
      row := NoteRecord(NextId(notes), title, content, tags);
      NextIdFresh(notes, row);
      forall k: nat ensures FindNote(notes + [row], k) == if k == row.id then Some(row) else FindNote(notes, k) {
        FindNoteAppend(notes, row, k);
      }
      notes := notes + [row];
    }

    /** Assigning title, content and tags of the loaded note, then commit. */
    method SetFields(id: nat, title: string, content: string, tags: Option<string>)
      requires Valid() && FindNote(notes, id).Some?
      modifies this`notes
      ensures Valid()
      ensures notes == Replace(old(notes), NoteRecord(id, title, content, tags))
      ensures forall k :: FindNote(notes, k) == if k == id then Some(NoteRecord(id, title, content, tags)) else FindNote(old(notes), k)
    {
      var r := NoteRecord(id, title, content, tags);
      ReplaceKeepsIds(notes, r);
      forall k: nat ensures FindNote(Replace(notes, r), k) == if k == id then Some(r) else FindNote(notes, k) {
        FindAfterReplace(notes, r, k);
      }
      notes := Replace(notes, r);
    }

    /** `db.delete(note)` and commit: the row goes, with the note_links rows of
        both relationships. */
    method Delete(id: nat)
      requires Valid()
      modifies this
      ensures Valid()
      ensures notes == Remove(old(notes), id) && noteLinks == Unlink(old(noteLinks), id)
      ensures forall k :: FindNote(notes, k) == if k == id then None else FindNote(old(notes), k)
    {
      RemoveKeepsIds(notes, id);
      forall k: nat ensures FindNote(Remove(notes, id), k) == if k == id then None else FindNote(notes, k) {
        FindAfterRemove(notes, id, k);
      }
      notes, noteLinks := Remove(notes, id), Unlink(noteLinks, id);
    }

    /** `source.linked_notes.append(target)` when the target is not yet linked,
        then commit. */
    method Link(source: nat, target: nat)
      requires Valid() && FindNote(notes, source).Some? && FindNote(notes, target).Some?
      modifies this`noteLinks
      ensures Valid()
      ensures noteLinks == InsertOrIgnore(old(noteLinks), (source, target))
      ensures LinkedNotes(noteLinks, source) ==
        if target in LinkedNotes(old(noteLinks), source) then LinkedNotes(old(noteLinks), source)
        else LinkedNotes(old(noteLinks), source) + [target]
    {
      if target !in LinkedNotes(noteLinks, source) {
        TargetsAppend(noteLinks, (source, target), source);
        noteLinks := noteLinks + [(source, target)];
      }
    }
  }
}
