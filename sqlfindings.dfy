/** insert_tags of main.py as written, beside the corrected model that
    SqlStore uses, and the inputs on which the two differ. */
module SqlFindings {
  import opened Common
  import opened Edges
  import opened Text
  import opened SqlStore

  /** What insert_tags reads and writes: the tags and note_tags tables and the
      connection's last insert rowid. */
  datatype TagState = TagState(tagNames: seq<string>, noteTags: seq<Edge>, lastRowid: nat)

  /** One tag of insert_tags as written: the tag id is `cursor.lastrowid` of the
      `INSERT OR IGNORE INTO tags`. After an ignored insert the sqlite3 module
      reports the rowid of the connection's last successful insert, so the
      `SELECT id` fallback runs only when that is 0. A new note_tags row gets
      rowid `|noteTags| + 1`. */
  function AddTagAsWritten(st: TagState, noteId: nat, name: string): TagState
  {
    var inserted := name !in st.tagNames;
    var names := if inserted then st.tagNames + [name] else st.tagNames;
    var last := if inserted then |names| else st.lastRowid;
    var tagId := if last == 0 then IndexOf(names, name) + 1 else last;
    if (noteId, tagId) in st.noteTags then TagState(names, st.noteTags, last)
    else TagState(names, st.noteTags + [(noteId, tagId)], |st.noteTags| + 1)
  }

  /** insert_tags as written, over a list of tags, each lower-cased and stripped first. */
  function AddTagsAsWritten(st: TagState, noteId: nat, tags: seq<string>): TagState
  {
    if tags == [] then st
    else AddTagAsWritten(AddTagsAsWritten(st, noteId, tags[..|tags| - 1]), noteId, NormalizeTag(tags[|tags| - 1]))
  }

  /** As written, a tag that already exists is recorded for a just-created note
      (create_note has just inserted it, so the last rowid is its id) under the
      note's own id instead of the tag's id. That id names no tag when no tag
      has the note's id. Tag ids here are row positions, numbered without gaps,
      so that is the case when the note's id exceeds the number of tags. Then the
      note ends up without the tag:
      note 2 created with tag "x" after note 1 created tag "x" as tag 1 gets the
      row (2, 2). The corrected model, which reads the id back by name, gives the
      note exactly its normalised tags (SqlStore.AddTagsSpec). */
  lemma ReusedTagLostAsWritten(tagNames: seq<string>, noteTags: seq<Edge>, noteId: nat, tag: string)
    requires NormalizeTag(tag) in tagNames
    requires |tagNames| < noteId
    requires Targets(noteTags, noteId) == []
    ensures var written := AddTagsAsWritten(TagState(tagNames, noteTags, noteId), noteId, [tag]);
      && written.tagNames == tagNames
      && written.noteTags == noteTags + [(noteId, noteId)]
      && forall x :: x !in TagNamesOf(written.tagNames, written.noteTags, noteId)
  {
    var st := TagState(tagNames, noteTags, noteId);
    assert [tag][..0] == [];
    assert (noteId, noteId) !in noteTags;
    var written := AddTagAsWritten(st, noteId, NormalizeTag(tag));
    assert AddTagsAsWritten(st, noteId, [tag]) == written;
    assert written == TagState(tagNames, noteTags + [(noteId, noteId)], |noteTags| + 1);
    TargetsAppend(noteTags, (noteId, noteId), noteId);
    forall x ensures x !in TagNamesOf(written.tagNames, written.noteTags, noteId) {
      assert x in NamesOf(tagNames, [noteId]) ==> exists k :: k in [noteId] && NamesTag(tagNames, k, x);
    }
  }
}
