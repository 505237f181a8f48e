/** The SQL backend (main.py). Its four tables are kept in memory in rowid
    order: `notes(id, title, content)`, `tags(id, name UNIQUE)` (tag id k is
    row k - 1, so tag ids have no AUTOINCREMENT gaps), `note_tags(note_id, tag_id)` and `links(source_id, target_id)`,
    the last two keyed by the whole row. The endpoints are the methods and
    functions of class Database. */
module SqlStore {
  import opened Common
  import opened Edges
  import opened Text

  /** A row of the notes table. */
  datatype NoteRow = NoteRow(id: nat, title: string, content: string)

  /** NoteOut, the response of get_note and get_notes. */
  datatype NoteOut = NoteOut(id: nat, title: string, content: string, tags: seq<string>,
                             backlinks: seq<string>, links: seq<string>)

  // ----- lookups and joins -----

  /** `SELECT * FROM notes WHERE id = ?` */
  function FindById(notes: seq<NoteRow>, id: nat): (r: Option<NoteRow>)
    ensures r.Some? ==> r.value in notes && r.value.id == id
    ensures r.None? <==> forall row :: row in notes ==> row.id != id
  {
    if notes == [] then None
    else if notes[|notes| - 1].id == id then Some(notes[|notes| - 1])
    else
      assert notes == notes[..|notes| - 1] + [notes[|notes| - 1]];
      FindById(notes[..|notes| - 1], id)
  }

  lemma FindByIdAppend(notes: seq<NoteRow>, row: NoteRow, id: nat)
    ensures FindById(notes + [row], id) == if row.id == id then Some(row) else FindById(notes, id)
  {
    assert (notes + [row])[..|notes|] == notes;
  }

  /** `SELECT * FROM notes WHERE title = ?` and `fetchone()`: the first row with
      that title (titles are not unique). */
  function FindByTitle(notes: seq<NoteRow>, title: string): (r: Option<NoteRow>)
    ensures r.Some? ==> r.value in notes && r.value.title == title
    ensures r.None? <==> forall row :: row in notes ==> row.title != title
  {
    if notes == [] then None
    else if notes[0].title == title then Some(notes[0])
    else FindByTitle(notes[1..], title)
  }

  /** `JOIN notes n ON n.id = ...`: the title of each id that names a note, in order. */
  function TitlesOf(notes: seq<NoteRow>, ids: seq<nat>): (r: seq<string>)
    ensures |r| <= |ids|
    ensures (forall id :: id in ids ==> FindById(notes, id).Some?) ==>
      |r| == |ids| && forall i :: 0 <= i < |ids| ==> r[i] == FindById(notes, ids[i]).value.title
  {
    if ids == [] then []
    else
      var init := ids[..|ids| - 1];
      assert ids == init + [ids[|ids| - 1]];
      match FindById(notes, ids[|ids| - 1])
      case Some(row) => TitlesOf(notes, init) + [row.title]
      case None => TitlesOf(notes, init)
  }

  /** Tag id `k` names a tag, and that tag is `x`. */
  ghost predicate NamesTag(tagNames: seq<string>, k: nat, x: string)
  {
    1 <= k <= |tagNames| && tagNames[k - 1] == x
  }

  /** `JOIN tags t ON t.id = nt.tag_id`: the names of the tag ids that exist. */
  function NamesOf(tagNames: seq<string>, tagIds: seq<nat>): (r: seq<string>)
    ensures forall x :: x in r <==> exists k :: k in tagIds && NamesTag(tagNames, k, x)
  {
    if tagIds == [] then []
    else
      var init, k := tagIds[..|tagIds| - 1], tagIds[|tagIds| - 1];
      var prior := NamesOf(tagNames, init);
      var r := prior + (if 1 <= k <= |tagNames| then [tagNames[k - 1]] else []);
      assert tagIds == init + [k];
      assert forall x :: x in r <==> exists j :: j in tagIds && NamesTag(tagNames, j, x) by {
        forall x ensures x in r <==> exists j :: j in tagIds && NamesTag(tagNames, j, x) {
          if x in prior {
            var j :| j in init && NamesTag(tagNames, j, x);
            assert j in tagIds;
          } else if x in r {
            assert NamesTag(tagNames, k, x);
          }
          if exists j :: j in tagIds && NamesTag(tagNames, j, x) {
            var j :| j in tagIds && NamesTag(tagNames, j, x);
            if j != k {
              assert j in init;
            }
          }
        }
      }
      r
  }

  /** The tag names of a note, as get_note and get_notes list them. */
  function TagNamesOf(tagNames: seq<string>, noteTags: seq<Edge>, id: nat): seq<string>
  {
    NamesOf(tagNames, Targets(noteTags, id))
  }

  /** The NoteOut built for a row: its tags, the titles of the notes linking to
      it (backlinks) and the titles of the notes it links to (links). */
  function Enrich(notes: seq<NoteRow>, tagNames: seq<string>, noteTags: seq<Edge>, links: seq<Edge>,
                  row: NoteRow): NoteOut
  {
    NoteOut(row.id, row.title, row.content, TagNamesOf(tagNames, noteTags, row.id),
            TitlesOf(notes, Sources(links, row.id)), TitlesOf(notes, Targets(links, row.id)))
  }

  // ----- the filters of get_notes -----

  /** `needle` occurs in `hay` at position `i`. */
  predicate OccursAt(hay: string, needle: string, i: nat)
  {
    i + |needle| <= |hay| && hay[i..i + |needle|] == needle
  }

  /** `hay LIKE '%needle%'` without wildcards in `needle`: a substring test. */
  predicate Contains(hay: string, needle: string)
  {
    exists i: nat :: i <= |hay| && OccursAt(hay, needle, i)
  }

  /** SQLite's LIKE folds ASCII case, so the keyword matches either case. */
  predicate MatchesKeyword(row: NoteRow, keyword: string)
  {
    Contains(Lower(row.title), Lower(keyword)) || Contains(Lower(row.content), Lower(keyword))
  }

  /** The rows joined with a tag of the given name, in table order. */
  function WithTag(notes: seq<NoteRow>, tagNames: seq<string>, noteTags: seq<Edge>, name: string): (r: seq<NoteRow>)
    ensures forall row :: row in r <==> row in notes && name in TagNamesOf(tagNames, noteTags, row.id)
  {
    if notes == [] then []
    else
      var last := notes[|notes| - 1];
      assert notes == notes[..|notes| - 1] + [last];
      WithTag(notes[..|notes| - 1], tagNames, noteTags, name)
        + (if name in TagNamesOf(tagNames, noteTags, last.id) then [last] else [])
  }

  /** `WHERE title LIKE ? OR content LIKE ?` with `%keyword%`, in table order. */
  function WithKeyword(notes: seq<NoteRow>, keyword: string): (r: seq<NoteRow>)
    ensures forall row :: row in r <==> row in notes && MatchesKeyword(row, keyword)
  {
    if notes == [] then []
    else
      var last := notes[|notes| - 1];
      assert notes == notes[..|notes| - 1] + [last];
      WithKeyword(notes[..|notes| - 1], keyword) + (if MatchesKeyword(last, keyword) then [last] else [])
  }

  /** The rows get_notes reports: filtered by tag when a non-empty tag is given
      (the keyword is then ignored), else by keyword when a non-empty keyword is
      given, else every row. */
  function SelectRows(notes: seq<NoteRow>, tagNames: seq<string>, noteTags: seq<Edge>,
                      tag: Option<string>, keyword: Option<string>): (r: seq<NoteRow>)
    ensures forall row :: row in r ==> row in notes
    ensures tag.Some? && tag.value != "" ==>
      forall row :: row in r <==> row in notes && Lower(tag.value) in TagNamesOf(tagNames, noteTags, row.id)
    ensures !(tag.Some? && tag.value != "") && keyword.Some? && keyword.value != "" ==>
      forall row :: row in r <==> row in notes && MatchesKeyword(row, keyword.value)
    ensures !(tag.Some? && tag.value != "") && !(keyword.Some? && keyword.value != "") ==> r == notes
  {
    if tag.Some? && tag.value != "" then WithTag(notes, tagNames, noteTags, Lower(tag.value))
    else if keyword.Some? && keyword.value != "" then WithKeyword(notes, keyword.value)
    else notes
  }


  // ----- invariants of the tables -----

  /** AUTOINCREMENT ids: positive, increasing in row order and below the next id. */
  ghost predicate RowsValid(notes: seq<NoteRow>, nextId: nat)
  {
    && 0 < nextId
    && (forall i :: 0 <= i < |notes| ==> 0 < notes[i].id < nextId)
    && (forall i, j :: 0 <= i < j < |notes| ==> notes[i].id < notes[j].id)
  }

  /** Unique tag names (the UNIQUE constraint), unique note_tags rows (the
      primary key) and tag ids that name a tag. */
  ghost predicate TagTablesValid(tagNames: seq<string>, noteTags: seq<Edge>)
  {
    && NoDup(tagNames)
    && NoDup(noteTags)
    && (forall e :: e in noteTags ==> 1 <= e.1 <= |tagNames|)
  }

  /** The links table is a set of edges between existing notes, none from a note
      to itself. */
  ghost predicate LinksValid(notes: seq<NoteRow>, links: seq<Edge>)
  {
    && NoDup(links)
    && (forall e :: e in links ==> e.0 != e.1 && FindById(notes, e.0).Some? && FindById(notes, e.1).Some?)
  }

  /** With unique ids, a row is found by its own id. */
  lemma FindRow(notes: seq<NoteRow>, nextId: nat, row: NoteRow)
    requires RowsValid(notes, nextId) && row in notes
    ensures FindById(notes, row.id) == Some(row)
  {
    var found := FindById(notes, row.id).value;
    var i :| 0 <= i < |notes| && notes[i] == row;
    var j :| 0 <= j < |notes| && notes[j] == found;
    assert !(i < j) && !(j < i);
  }

  /** No row of a table whose first column names existing notes starts at the
      next id. */
  lemma FreshIdHasNoEdges(notes: seq<NoteRow>, nextId: nat, table: seq<Edge>)
    requires RowsValid(notes, nextId)
    requires forall e :: e in table ==> FindById(notes, e.0).Some?
    ensures Targets(table, nextId) == []
  {
    forall e | e in table ensures e.0 < nextId {
      var row := FindById(notes, e.0).value;
      var i :| 0 <= i < |notes| && notes[i] == row;
    }
    TargetsOfAbsent(table, nextId);
  }

  // ----- insert_tags -----

  /** One tag of insert_tags, with the tag id read back by name: the name is
      added to tags unless present, then (note, tag id) to note_tags unless present. */
  function AddTag(tagNames: seq<string>, noteTags: seq<Edge>, noteId: nat, name: string): (seq<string>, seq<Edge>)
  {
    var names := InsertOrIgnore(tagNames, name);
    (names, InsertOrIgnore(noteTags, (noteId, IndexOf(names, name) + 1)))
  }

  /** insert_tags over a list of tags, each lower-cased and stripped first. */
  function AddTags(tagNames: seq<string>, noteTags: seq<Edge>, noteId: nat, tags: seq<string>): (seq<string>, seq<Edge>)
  {
    if tags == [] then (tagNames, noteTags)
    else
      var prior := AddTags(tagNames, noteTags, noteId, tags[..|tags| - 1]);
      AddTag(prior.0, prior.1, noteId, NormalizeTag(tags[|tags| - 1]))
  }

  /** One more tag of the list is added by AddTag. */
  lemma AddTagsStep(tagNames: seq<string>, noteTags: seq<Edge>, noteId: nat, tags: seq<string>, i: nat)
    requires i < |tags|
    ensures var prior := AddTags(tagNames, noteTags, noteId, tags[..i]);
      AddTags(tagNames, noteTags, noteId, tags[..i + 1]) == AddTag(prior.0, prior.1, noteId, NormalizeTag(tags[i]))
  {
    assert tags[..i + 1][..i] == tags[..i];
  }

  /** The tag tables `after` extend `before`: they are valid, the tags table was
      only appended to, and new note_tags rows belong to `noteId`. */
  ghost predicate TagTablesExtended(before: (seq<string>, seq<Edge>), after: (seq<string>, seq<Edge>), noteId: nat)
  {
    && TagTablesValid(after.0, after.1)
    && |before.0| <= |after.0| && after.0[..|before.0|] == before.0
    && (forall e :: e in after.1 ==> e in before.1 || e.0 == noteId)
  }

  /** In `after` every note has the tag names it had in `before`, plus those in
      `added` for `noteId`, and no others. */
  ghost predicate NamesGained(before: (seq<string>, seq<Edge>), after: (seq<string>, seq<Edge>),
                              noteId: nat, added: seq<string>)
  {
    forall n: nat :: forall x: string :: x in TagNamesOf(after.0, after.1, n) <==>
      x in TagNamesOf(before.0, before.1, n) || (n == noteId && x in added)
  }

  /** An added tag takes no tag name away from any note. */
  lemma AddTagKeepsNames(tagNames: seq<string>, noteTags: seq<Edge>, noteId: nat, name: string, n: nat, x: string)
    requires x in TagNamesOf(tagNames, noteTags, n)
    ensures x in TagNamesOf(AddTag(tagNames, noteTags, noteId, name).0, AddTag(tagNames, noteTags, noteId, name).1, n)
  {
    var names := InsertOrIgnore(tagNames, name);
    var assoc := InsertOrIgnore(noteTags, (noteId, IndexOf(names, name) + 1));
    var j :| j in Targets(noteTags, n) && NamesTag(tagNames, j, x);
    NamesTagPrefix(tagNames, names, j, x);
    assert (n, j) in assoc;
    assert j in Targets(assoc, n) && NamesTag(names, j, x);
  }

  /** The tagged note carries the added name afterwards. */
  lemma AddTagAddsName(tagNames: seq<string>, noteTags: seq<Edge>, noteId: nat, name: string)
    ensures name in TagNamesOf(AddTag(tagNames, noteTags, noteId, name).0, AddTag(tagNames, noteTags, noteId, name).1, noteId)
  {
    var names := InsertOrIgnore(tagNames, name);
    var k := IndexOf(names, name) + 1;
    var assoc := InsertOrIgnore(noteTags, (noteId, k));
    assert (noteId, k) in assoc;
    assert k in Targets(assoc, noteId) && NamesTag(names, k, name);
  }

  /** An added tag gives no note any name but the added one, and that only to
      the tagged note. */
  lemma AddTagOnlyName(tagNames: seq<string>, noteTags: seq<Edge>, noteId: nat, name: string, n: nat, x: string)
    requires forall e :: e in noteTags ==> 1 <= e.1 <= |tagNames|
    requires x in TagNamesOf(AddTag(tagNames, noteTags, noteId, name).0, AddTag(tagNames, noteTags, noteId, name).1, n)
    ensures x in TagNamesOf(tagNames, noteTags, n) || (n == noteId && x == name)
  {
    var names := InsertOrIgnore(tagNames, name);
    var k := IndexOf(names, name) + 1;
    var assoc := InsertOrIgnore(noteTags, (noteId, k));
    InsertOrIgnoreExtends(tagNames, name);
    assert forall e :: e in assoc ==> e in noteTags || e == (noteId, k);
    OldOrNewName(tagNames, noteTags, names, assoc, noteId, k, n, x);
  }

  /** A tag name a note has after one insert_tags step is one it had before or
      the name of the tag id just added. */
  lemma OldOrNewName(tagNames: seq<string>, noteTags: seq<Edge>, names: seq<string>, assoc: seq<Edge>,
                     noteId: nat, k: nat, n: nat, x: string)
    requires forall e :: e in noteTags ==> 1 <= e.1 <= |tagNames|
    requires |tagNames| <= |names| && names[..|tagNames|] == tagNames
    requires forall e :: e in assoc ==> e in noteTags || e == (noteId, k)
    requires x in TagNamesOf(names, assoc, n)
    ensures x in TagNamesOf(tagNames, noteTags, n) || (n == noteId && NamesTag(names, k, x))
  {
    var j :| j in Targets(assoc, n) && NamesTag(names, j, x);
    assert (n, j) in assoc;
    if (n, j) in noteTags {
      NamesTagPrefix(tagNames, names, j, x);
      assert j in Targets(noteTags, n);
    }
  }

  /** A tag id of the old tags table names the same tag after names were appended. */
  lemma NamesTagPrefix(tagNames: seq<string>, names: seq<string>, j: nat, x: string)
    requires |tagNames| <= |names| && names[..|tagNames|] == tagNames && 1 <= j <= |tagNames|
    ensures NamesTag(names, j, x) <==> NamesTag(tagNames, j, x)
  {
    assert names[..|tagNames|][j - 1] == names[j - 1];
  }

  /** After one added tag, note `n` has tag name `x` exactly when it had it
      before or it is the added tag's note and name. */
  lemma AddTagNames(tagNames: seq<string>, noteTags: seq<Edge>, noteId: nat, name: string, n: nat, x: string)
    requires TagTablesValid(tagNames, noteTags)
    ensures x in TagNamesOf(AddTag(tagNames, noteTags, noteId, name).0, AddTag(tagNames, noteTags, noteId, name).1, n)
      <==> x in TagNamesOf(tagNames, noteTags, n) || (n == noteId && x == name)
  {
    if x in TagNamesOf(AddTag(tagNames, noteTags, noteId, name).0, AddTag(tagNames, noteTags, noteId, name).1, n) {
      AddTagOnlyName(tagNames, noteTags, noteId, name, n, x);
    }
    if x in TagNamesOf(tagNames, noteTags, n) {
      AddTagKeepsNames(tagNames, noteTags, noteId, name, n, x);
    }
    if n == noteId && x == name {
      AddTagAddsName(tagNames, noteTags, noteId, name);
    }
  }

  /** One insert_tags step keeps both tables duplicate-free, keeps the tag
      names in place and adds rows only for `noteId`. */
  lemma AddTagExtends(tagNames: seq<string>, noteTags: seq<Edge>, noteId: nat, name: string)
    requires TagTablesValid(tagNames, noteTags)
    ensures TagTablesExtended((tagNames, noteTags), AddTag(tagNames, noteTags, noteId, name), noteId)
  {
    var names := InsertOrIgnore(tagNames, name);
    var k := IndexOf(names, name) + 1;
    InsertOrIgnoreExtends(tagNames, name);
    InsertOrIgnoreExtends(noteTags, (noteId, k));
    assert forall e :: e in InsertOrIgnore(noteTags, (noteId, k)) ==> e in noteTags || e == (noteId, k);
  }

  /** One added tag extends the tables by its name for its note. */
  lemma AddTagSpec(tagNames: seq<string>, noteTags: seq<Edge>, noteId: nat, name: string)
    requires TagTablesValid(tagNames, noteTags)
    ensures TagTablesExtended((tagNames, noteTags), AddTag(tagNames, noteTags, noteId, name), noteId)
    ensures NamesGained((tagNames, noteTags), AddTag(tagNames, noteTags, noteId, name), noteId, [name])
  {
    AddTagExtends(tagNames, noteTags, noteId, name);
    var after := AddTag(tagNames, noteTags, noteId, name);
    forall n: nat, x: string
      ensures x in TagNamesOf(after.0, after.1, n) <==> x in TagNamesOf(tagNames, noteTags, n) || (n == noteId && x in [name])
    {
      AddTagNames(tagNames, noteTags, noteId, name, n, x);
    }
  }

  /** Two extensions for the same note compose. */
  lemma ExtendedTrans(a: (seq<string>, seq<Edge>), b: (seq<string>, seq<Edge>), c: (seq<string>, seq<Edge>), noteId: nat)
    requires TagTablesExtended(a, b, noteId) && TagTablesExtended(b, c, noteId)
    ensures TagTablesExtended(a, c, noteId)
  {
    assert c.0[..|a.0|] == c.0[..|b.0|][..|a.0|];
  }

  lemma NamesGainedTrans(a: (seq<string>, seq<Edge>), b: (seq<string>, seq<Edge>), c: (seq<string>, seq<Edge>),
                         noteId: nat, added1: seq<string>, added2: seq<string>)
    requires NamesGained(a, b, noteId, added1) && NamesGained(b, c, noteId, added2)
    ensures NamesGained(a, c, noteId, added1 + added2)
  {
    forall n: nat, x: string
      ensures x in TagNamesOf(c.0, c.1, n) <==> x in TagNamesOf(a.0, a.1, n) || (n == noteId && x in added1 + added2)
    {
      assert x in TagNamesOf(c.0, c.1, n) <==> x in TagNamesOf(b.0, b.1, n) || (n == noteId && x in added2);
      assert x in TagNamesOf(b.0, b.1, n) <==> x in TagNamesOf(a.0, a.1, n) || (n == noteId && x in added1);
    }
  }

  /** insert_tags keeps the tables valid, only appends tag names, and gives the
      note the normalised form of every listed tag while every other note keeps
      its names. */
  lemma {:induction false} AddTagsSpec(tagNames: seq<string>, noteTags: seq<Edge>, noteId: nat, tags: seq<string>)
    requires TagTablesValid(tagNames, noteTags)
    ensures TagTablesExtended((tagNames, noteTags), AddTags(tagNames, noteTags, noteId, tags), noteId)
    ensures NamesGained((tagNames, noteTags), AddTags(tagNames, noteTags, noteId, tags), noteId, NormalizeEach(tags))
  {
    if tags == [] {
      assert tagNames[..|tagNames|] == tagNames;
    } else {
      var init := tags[..|tags| - 1];
      var prior := AddTags(tagNames, noteTags, noteId, init);
      var name := NormalizeTag(tags[|tags| - 1]);
      var after := AddTag(prior.0, prior.1, noteId, name);
      AddTagsSpec(tagNames, noteTags, noteId, init);
      AddTagSpec(prior.0, prior.1, noteId, name);
      ExtendedTrans((tagNames, noteTags), prior, after, noteId);
      NamesGainedTrans((tagNames, noteTags), prior, after, noteId, NormalizeEach(init), [name]);
    }
  }

  // ----- insert_links -----

  /** `title` resolves to the note with id `id`. */
  ghost predicate ResolvesTo(notes: seq<NoteRow>, title: string, id: nat)
  {
    FindByTitle(notes, title).Some? && FindByTitle(notes, title).value.id == id
  }

  /** Ids of the notes the titles resolve to, in order; titles that resolve to no
      note contribute nothing. */
  function ResolvedIds(notes: seq<NoteRow>, titles: seq<string>): (r: seq<nat>)
    ensures forall id :: id in r <==> exists t :: t in titles && ResolvesTo(notes, t, id)
  {
    if titles == [] then []
    else
      var init, t := titles[..|titles| - 1], titles[|titles| - 1];
      var prior := ResolvedIds(notes, init);
      var r := prior + (match FindByTitle(notes, t) case Some(row) => [row.id] case None => []);
      assert titles == init + [t];
      assert forall id :: id in r <==> exists u :: u in titles && ResolvesTo(notes, u, id) by {
        forall id ensures id in r <==> exists u :: u in titles && ResolvesTo(notes, u, id) {
          if id in prior {
            var u :| u in init && ResolvesTo(notes, u, id);
            assert u in titles;
          } else if id in r {
            assert ResolvesTo(notes, t, id);
          }
          if exists u :: u in titles && ResolvesTo(notes, u, id) {
            var u :| u in titles && ResolvesTo(notes, u, id);
            if u != t {
              assert u in init;
            }
          }
        }
      }
      r
  }

  /** insert_links: for each title, the first note with that title, unless it is
      the source itself or there is none, becomes a target of the source. */
  function AddLinks(notes: seq<NoteRow>, links: seq<Edge>, source: nat, titles: seq<string>): seq<Edge>
  {
    if titles == [] then links
    else
      var prior := AddLinks(notes, links, source, titles[..|titles| - 1]);
      match FindByTitle(notes, titles[|titles| - 1])
      case Some(row) => if row.id != source then InsertOrIgnore(prior, (source, row.id)) else prior
      case None => prior
  }

  /** insert_links only appends, creates no duplicate, and the links afterwards
      are the old ones plus one from the source to every resolved note other than
      the source; unresolved titles add nothing. */
  lemma {:induction false} AddLinksSpec(notes: seq<NoteRow>, links: seq<Edge>, source: nat, titles: seq<string>)
    ensures var after := AddLinks(notes, links, source, titles);
      && |links| <= |after| && after[..|links|] == links
      && (NoDup(links) ==> NoDup(after))
      && (forall e :: e in after <==>
            e in links || (e.0 == source && e.1 != source && e.1 in ResolvedIds(notes, titles)))
  {
    if titles != [] {
      var init := titles[..|titles| - 1];
      AddLinksSpec(notes, links, source, init);
      var prior := AddLinks(notes, links, source, init);
      assert prior[..|links|] == links;
    }
  }

  /** The statements of insert_tags, tag by tag: `INSERT OR IGNORE INTO tags`,
      the tag id read back by name, then `INSERT OR IGNORE INTO note_tags`. */
  method InsertTagRows(tagNames: seq<string>, noteTags: seq<Edge>, noteId: nat, tags: seq<string>)
    returns (names: seq<string>, assoc: seq<Edge>)
    ensures (names, assoc) == AddTags(tagNames, noteTags, noteId, tags)
  {
    names, assoc := tagNames, noteTags;
    var i := 0;
    while i < |tags|
      invariant 0 <= i <= |tags|
      invariant (names, assoc) == AddTags(tagNames, noteTags, noteId, tags[..i])
    {
      var name := NormalizeTag(tags[i]);
      AddTagsStep(tagNames, noteTags, noteId, tags, i);
      ghost var prior := (names, assoc);
      names := InsertOrIgnore(names, name);
      var tagId: nat := IndexOf(names, name) + 1;
      assoc := InsertOrIgnore(assoc, (noteId, tagId));
      assert (names, assoc) == AddTag(prior.0, prior.1, noteId, name);
      i := i + 1;
    }
    assert tags[..i] == tags;
  }

  /** The statements of insert_links, title by title: `SELECT id FROM notes WHERE
      title = ?`, then `INSERT OR IGNORE INTO links` unless there is no such note
      or it is the source. */
  method InsertLinkRows(notes: seq<NoteRow>, links: seq<Edge>, sourceId: nat, titles: seq<string>)
    returns (edges: seq<Edge>)
    ensures edges == AddLinks(notes, links, sourceId, titles)
  {
    edges := links;
    var i := 0;
    while i < |titles|
      invariant 0 <= i <= |titles|
      invariant edges == AddLinks(notes, links, sourceId, titles[..i])
    {
      var row := FindByTitle(notes, titles[i]);
      if row.Some? && row.value.id != sourceId {
        edges := InsertOrIgnore(edges, (sourceId, row.value.id));
      }
      assert titles[..i + 1][..i] == titles[..i];
      i := i + 1;
    }
    assert titles[..i] == titles;
  }

  /** The loop of get_notes: each row, in order, with its tags, links and backlinks. */
  method EnrichAll(notes: seq<NoteRow>, tagNames: seq<string>, noteTags: seq<Edge>, links: seq<Edge>,
                   rows: seq<NoteRow>) returns (result: seq<NoteOut>)
    ensures |result| == |rows|
    ensures forall i :: 0 <= i < |rows| ==> result[i] == Enrich(notes, tagNames, noteTags, links, rows[i])
  {
    result := [];
    var i := 0;
    while i < |rows|
      invariant 0 <= i <= |rows|
      invariant |result| == i
      invariant forall j :: 0 <= j < i ==> result[j] == Enrich(notes, tagNames, noteTags, links, rows[j])
    {
      result := result + [Enrich(notes, tagNames, noteTags, links, rows[i])];
      i := i + 1;
    }
  }

  // ----- get_graph -----

  /** The edges get_graph reads: (source title, target title) of each link whose
      two notes exist, in link order. */
  function TitlePairs(notes: seq<NoteRow>, links: seq<Edge>): (r: seq<(string, string)>)
    ensures |r| <= |links|
    ensures (forall e :: e in links ==> FindById(notes, e.0).Some? && FindById(notes, e.1).Some?) ==>
      && |r| == |links|
      && forall i :: 0 <= i < |links| ==>
           r[i] == (FindById(notes, links[i].0).value.title, FindById(notes, links[i].1).value.title)
  {
    if links == [] then []
    else
      var e := links[|links| - 1];
      assert links == links[..|links| - 1] + [e];
      var prior := TitlePairs(notes, links[..|links| - 1]);
      match (FindById(notes, e.0), FindById(notes, e.1))
      case (Some(s), Some(t)) => prior + [(s.title, t.title)]
      case _ => prior
  }

  /** One `setdefault(source, []).append(target)` turns the adjacency of
      `edges` into the adjacency of `edges + [edge]`. */
  lemma AdjacencyStep(edges: seq<(string, string)>, graph: map<string, seq<string>>, edge: (string, string))
    requires forall k :: k in graph <==> Targets(edges, k) != []
    requires forall k :: k in graph ==> graph[k] == Targets(edges, k)
    ensures var g := graph[edge.0 := (if edge.0 in graph then graph[edge.0] else []) + [edge.1]];
      && (forall k :: k in g <==> Targets(edges + [edge], k) != [])
      && (forall k :: k in g ==> g[k] == Targets(edges + [edge], k))
  {
    forall k ensures Targets(edges + [edge], k) == Targets(edges, k) + (if edge.0 == k then [edge.1] else []) {
      TargetsAppend(edges, edge, k);
    }
  }

  /** The map get_graph builds from `edges`, one edge at a time. */
  function AdjacencyOf(edges: seq<(string, string)>): map<string, seq<string>>
  {
    if edges == [] then map[]
    else
      var graph := AdjacencyOf(edges[..|edges| - 1]);
      var edge := edges[|edges| - 1];
      graph[edge.0 := (if edge.0 in graph then graph[edge.0] else []) + [edge.1]]
  }

  /** The keys of the map are exactly the sources that have an edge, and each
      value lists that source's targets in edge order. */
  lemma {:induction false} AdjacencyOfSpec(edges: seq<(string, string)>)
    ensures forall k :: k in AdjacencyOf(edges) <==> Targets(edges, k) != []
    ensures forall k :: k in AdjacencyOf(edges) ==> AdjacencyOf(edges)[k] == Targets(edges, k)
  {
    if edges != [] {
      var init := edges[..|edges| - 1];
      assert edges == init + [edges[|edges| - 1]];
      AdjacencyOfSpec(init);
      AdjacencyStep(init, AdjacencyOf(init), edges[|edges| - 1]);
    }
  }

  /** The loop of get_graph: `graph.setdefault(source, []).append(target)` for
      each edge in order. */
  method Adjacency(edges: seq<(string, string)>) returns (graph: map<string, seq<string>>)
    ensures graph == AdjacencyOf(edges)
    ensures forall k :: k in graph <==> Targets(edges, k) != []
    ensures forall k :: k in graph ==> graph[k] == Targets(edges, k)
  {
    graph := map[];
    var i := 0;
    while i < |edges|
      invariant 0 <= i <= |edges|
      invariant graph == AdjacencyOf(edges[..i])
    {
      var edge := edges[i];
      var existing := if edge.0 in graph then graph[edge.0] else [];
      graph := graph[edge.0 := existing + [edge.1]];
      assert edges[..i + 1][..i] == edges[..i];
      i := i + 1;
    }
    assert edges[..i] == edges;
    AdjacencyOfSpec(edges);
  }

  /** Some link starts at a note with this title. */
  ghost predicate HasOutgoingLink(notes: seq<NoteRow>, links: seq<Edge>, title: string)
  {
    exists i :: 0 <= i < |links| && FindById(notes, links[i].0).Some? && FindById(notes, links[i].0).value.title == title
  }

  /** The graph's keys are exactly the titles of notes with an outgoing link. */
  lemma GraphKeysAreLinkSources(notes: seq<NoteRow>, links: seq<Edge>, title: string)
    requires LinksValid(notes, links)
    ensures Targets(TitlePairs(notes, links), title) != [] <==> HasOutgoingLink(notes, links, title)
  {
    var pairs := TitlePairs(notes, links);
    if HasOutgoingLink(notes, links, title) {
      var i :| 0 <= i < |links| && FindById(notes, links[i].0).Some? && FindById(notes, links[i].0).value.title == title;
      assert links[i] in links;
      assert pairs[i] in pairs;
      assert pairs[i].1 in Targets(pairs, title);
    }
    if Targets(pairs, title) != [] {
      var t := Targets(pairs, title)[0];
      assert (title, t) in pairs;
      var i :| 0 <= i < |pairs| && pairs[i] == (title, t);
      assert links[i] in links;
    }
  }

  // ----- the database and its endpoints -----

  /** Appending a row under the next id keeps the ids valid, and every edge
      still joins existing notes. */
  lemma AppendRowValid(notes: seq<NoteRow>, nextId: nat, noteTags: seq<Edge>, links: seq<Edge>, row: NoteRow)
    requires RowsValid(notes, nextId) && row.id == nextId
    requires forall e :: e in noteTags ==> FindById(notes, e.0).Some?
    requires LinksValid(notes, links)
    ensures RowsValid(notes + [row], nextId + 1)
    ensures forall e :: e in noteTags ==> FindById(notes + [row], e.0).Some?
    ensures LinksValid(notes + [row], links)
  {
    forall k: nat ensures FindById(notes + [row], k) == if row.id == k then Some(row) else FindById(notes, k) {
      FindByIdAppend(notes, row, k);
    }
  }

  /** Inserting an edge between two different existing notes keeps the links valid. */
  lemma InsertLinkValid(notes: seq<NoteRow>, links: seq<Edge>, e: Edge)
    requires LinksValid(notes, links)
    requires e.0 != e.1 && FindById(notes, e.0).Some? && FindById(notes, e.1).Some?
    ensures LinksValid(notes, InsertOrIgnore(links, e))
  {
  }

  /** A note that had no tags has, after insert_tags, exactly the normalised tags. */
  lemma FreshNoteTagNames(tagNames: seq<string>, noteTags: seq<Edge>, id: nat, tags: seq<string>)
    requires TagTablesValid(tagNames, noteTags)
    requires Targets(noteTags, id) == []
    ensures var after := AddTags(tagNames, noteTags, id, tags);
      forall x :: x in TagNamesOf(after.0, after.1, id) <==> x in NormalizeTags(tags)
  {
    AddTagsSpec(tagNames, noteTags, id, tags);
    var after := AddTags(tagNames, noteTags, id, tags);
    forall x ensures x in TagNamesOf(after.0, after.1, id) <==> x in NormalizeTags(tags) {
      assert x in TagNamesOf(after.0, after.1, id) <==> x in TagNamesOf(tagNames, noteTags, id) || x in NormalizeEach(tags);
      assert x !in TagNamesOf(tagNames, noteTags, id);
    }
  }

  class Database {
    var notes: seq<NoteRow>
    /** The next AUTOINCREMENT id. */
    var nextId: nat
    var tagNames: seq<string>
    var noteTags: seq<Edge>
    var links: seq<Edge>

    ghost predicate Valid()
      reads this
    {
      && RowsValid(notes, nextId)
      && TagTablesValid(tagNames, noteTags)
      && (forall e :: e in noteTags ==> FindById(notes, e.0).Some?)
      && LinksValid(notes, links)
    }

    /** initialize_database on a new file: four empty tables. */
    constructor ()
      ensures Valid()
      ensures notes == [] && nextId == 1 && tagNames == [] && noteTags == [] && links == []
    {
      notes, nextId, tagNames, noteTags, links := [], 1, [], [], [];
    }

    /** insert_tags, with the tag id read back by name. */
    method InsertTags(noteId: nat, tags: seq<string>)
      requires Valid() && FindById(notes, noteId).Some?
      modifies this`tagNames, this`noteTags
      ensures Valid()
      ensures (tagNames, noteTags) == AddTags(old(tagNames), old(noteTags), noteId, tags)
    {
      var names, assoc := InsertTagRows(tagNames, noteTags, noteId, tags);
      AddTagsSpec(tagNames, noteTags, noteId, tags);
      tagNames, noteTags := names, assoc;
    }

    /** insert_links: adds an edge for every title that names a note other than
        the source, and silently skips every other title. */
    method InsertLinks(sourceId: nat, titles: seq<string>)
      requires Valid() && FindById(notes, sourceId).Some?
      modifies this`links
      ensures Valid()
      ensures links == AddLinks(notes, old(links), sourceId, titles)
    {
      var edges := InsertLinkRows(notes, links, sourceId, titles);
      AddLinksSpec(notes, links, sourceId, titles);
      forall e | e in edges && e !in links
        ensures e.0 != e.1 && FindById(notes, e.0).Some? && FindById(notes, e.1).Some?
      {
        var t :| t in titles && ResolvesTo(notes, t, e.1);
        assert FindByTitle(notes, t).value in notes;
      }
      links := edges;
    }

    /** create_note: inserts the row under the next id, then its tags, then the
        links named by the `[[Title]]` references of its content. */
    method CreateNote(title: string, content: string, tags: seq<string>) returns (id: nat)
      requires Valid()
      modifies this
      ensures Valid()
      ensures id == old(nextId) && nextId == id + 1
      ensures notes == old(notes) + [NoteRow(id, title, content)]
      ensures (tagNames, noteTags) == AddTags(old(tagNames), old(noteTags), id, tags)
      ensures links == AddLinks(notes, old(links), id, ResolveLinks(content))
      ensures forall x :: x in TagNamesOf(tagNames, noteTags, id) <==> x in NormalizeTags(tags)
    {
      id := nextId;
      var row := NoteRow(id, title, content);
      AppendRowValid(notes, nextId, noteTags, links, row);
      FreshIdHasNoEdges(notes, nextId, noteTags);
      FreshNoteTagNames(tagNames, noteTags, id, tags);
      notes := notes + [row];
      nextId := nextId + 1;
      InsertTags(id, tags);
      InsertLinks(id, ResolveLinks(content));
    }

    /** create_link: the source is found by id and the target by title; a missing
        note is a 404, the same note a 400, and otherwise the edge is inserted
        unless present. */
    method CreateLink(noteId: nat, targetTitle: string) returns (r: Result<()>)
      requires Valid()
      modifies this`links
      ensures Valid()
      ensures r == Err(NotFound) <==> FindById(notes, noteId).None? || FindByTitle(notes, targetTitle).None?
      ensures r == Err(SelfLink) <==>
        FindById(notes, noteId).Some? && FindByTitle(notes, targetTitle).Some? && FindByTitle(notes, targetTitle).value.id == noteId
      ensures r.Err? ==> links == old(links)
      ensures r.Ok? ==> links == InsertOrIgnore(old(links), (noteId, FindByTitle(notes, targetTitle).value.id))
    {
      var source := FindById(notes, noteId);
      var target := FindByTitle(notes, targetTitle);
      if source.None? || target.None? {
        return Err(NotFound);
      }
      if source.value.id == target.value.id {
        return Err(SelfLink);
      }
      FindRow(notes, nextId, target.value);
      InsertLinkValid(notes, links, (noteId, target.value.id));
      links := InsertOrIgnore(links, (noteId, target.value.id));
      r := Ok(());
    }

    /** get_note: 404 for an absent id, else the note with its tags, backlinks and links. */
    function GetNote(id: nat): (r: Result<NoteOut>)
      reads this
      ensures r.Err? <==> FindById(notes, id).None?
      ensures r.Err? ==> r.error == NotFound
      ensures r.Ok? ==> r.value.id == id && FindById(notes, id) == Some(NoteRow(id, r.value.title, r.value.content))
    {
      match FindById(notes, id)
      case None => Err(NotFound)
      case Some(row) => Ok(Enrich(notes, tagNames, noteTags, links, row))
    }

    /** get_notes: the selected rows in table order, each as get_note reports it. */
    method GetNotes(tag: Option<string>, keyword: Option<string>) returns (result: seq<NoteOut>)
      requires Valid()
      ensures |result| == |SelectRows(notes, tagNames, noteTags, tag, keyword)|
      ensures forall i :: 0 <= i < |result| ==>
        GetNote(SelectRows(notes, tagNames, noteTags, tag, keyword)[i].id) == Ok(result[i])
    {
      var rows := SelectRows(notes, tagNames, noteTags, tag, keyword);
      result := EnrichAll(notes, tagNames, noteTags, links, rows);
      forall i | 0 <= i < |rows| ensures GetNote(rows[i].id) == Ok(result[i]) {
        FindRow(notes, nextId, rows[i]);
      }
    }

    /** get_graph over the pairs of titles its join reads. */
    method GetGraph() returns (graph: map<string, seq<string>>)
      requires Valid()
      ensures forall k :: k in graph <==> Targets(TitlePairs(notes, links), k) != []
      ensures forall k :: k in graph ==> graph[k] == Targets(TitlePairs(notes, links), k)
    {
      graph := Adjacency(TitlePairs(notes, links));
    }
  }

  // ----- what the endpoints report -----

  /** Both ends of every link exist. */
  lemma LinkEndsExist(notes: seq<NoteRow>, links: seq<Edge>, a: nat)
    requires LinksValid(notes, links)
    ensures forall id :: id in Targets(links, a) ==> FindById(notes, id).Some?
    ensures forall id :: id in Sources(links, a) ==> FindById(notes, id).Some?
  {
  }

  /** The links of a note list, in link order, the title of every target of a
      link from it, and its backlinks the title of every source of a link into it. */
  lemma NoteLinksAreEdgeTitles(notes: seq<NoteRow>, tagNames: seq<string>, noteTags: seq<Edge>,
                               links: seq<Edge>, row: NoteRow)
    requires LinksValid(notes, links)
    ensures var out := Enrich(notes, tagNames, noteTags, links, row);
      && |out.links| == |Targets(links, row.id)|
      && (forall i :: 0 <= i < |out.links| ==>
            FindById(notes, Targets(links, row.id)[i]).Some? &&
            out.links[i] == FindById(notes, Targets(links, row.id)[i]).value.title)
    ensures var out := Enrich(notes, tagNames, noteTags, links, row);
      && |out.backlinks| == |Sources(links, row.id)|
      && (forall i :: 0 <= i < |out.backlinks| ==>
            FindById(notes, Sources(links, row.id)[i]).Some? &&
            out.backlinks[i] == FindById(notes, Sources(links, row.id)[i]).value.title)
  {
    LinkEndsExist(notes, links, row.id);
  }

  /** After a link from `a` to `b`, `b`'s title is among the links of `a` and
      `a`'s title among the backlinks of `b`. */
  lemma LinkedNotesSeeEachOther(db: Database, a: nat, b: nat)
    requires db.Valid() && (a, b) in db.links
    ensures db.GetNote(a).Ok? && db.GetNote(b).Ok?
    ensures db.GetNote(b).value.title in db.GetNote(a).value.links
    ensures db.GetNote(a).value.title in db.GetNote(b).value.backlinks
  {
    var rowA, rowB := FindById(db.notes, a).value, FindById(db.notes, b).value;
    NoteLinksAreEdgeTitles(db.notes, db.tagNames, db.noteTags, db.links, rowA);
    NoteLinksAreEdgeTitles(db.notes, db.tagNames, db.noteTags, db.links, rowB);
    var ts, ss := Targets(db.links, a), Sources(db.links, b);
    assert b in ts && a in ss;
    var i :| 0 <= i < |ts| && ts[i] == b;
    var j :| 0 <= j < |ss| && ss[j] == a;
    assert db.GetNote(a).value.links[i] == rowB.title;
    assert db.GetNote(b).value.backlinks[j] == rowA.title;
  }

  /** A note carrying a tag is found by the tag filter whatever the case of the query. */
  lemma TagFilterFindsTaggedNote(db: Database, row: NoteRow, tag: string, query: string, keyword: Option<string>)
    requires db.Valid() && row in db.notes
    requires NormalizeTag(tag) in TagNamesOf(db.tagNames, db.noteTags, row.id)
    requires query != "" && Lower(query) == NormalizeTag(tag)
    ensures row in SelectRows(db.notes, db.tagNames, db.noteTags, Some(query), keyword)
  {
  }

  // ----- references resolve at creation -----

  lemma SeeBeta()
    ensures ResolveLinks("see [[Beta]]") == ["Beta"]
  {
    var segments := [Segment("see ", "Beta")];
    assert Render(segments[1..], "") == "";
    assert Render(segments, "") == "see [[Beta]]";
    ResolveRendered(segments, "");
    assert Refs(segments[1..]) == [];
  }

  /** A `[[Title]]` reference is resolved once, when the note holding it is
      created: Alpha, created first as note 1, gets no link to Beta, and creating
      Beta afterwards adds none. */
  lemma ReferenceBeforeTargetIsDropped()
    ensures AddLinks([NoteRow(1, "Alpha", "see [[Beta]]")], [], 1, ResolveLinks("see [[Beta]]")) == []
    ensures AddLinks([NoteRow(1, "Alpha", "see [[Beta]]"), NoteRow(2, "Beta", "")], [], 2, ResolveLinks("")) == []
  {
    SeeBeta();
    assert ["Beta"][..0] == [];
    assert FindByTitle([NoteRow(1, "Alpha", "see [[Beta]]")], "Beta") == None;
  }

  /** Created after Beta (note 1), Alpha (note 2) links to it. */
  lemma ReferenceAfterTargetLinks()
    ensures AddLinks([NoteRow(1, "Beta", ""), NoteRow(2, "Alpha", "see [[Beta]]")], [], 2, ResolveLinks("see [[Beta]]"))
         == [(2, 1)]
  {
    SeeBeta();
    assert ["Beta"][..0] == [];
    assert FindByTitle([NoteRow(1, "Beta", ""), NoteRow(2, "Alpha", "see [[Beta]]")], "Beta") == Some(NoteRow(1, "Beta", ""));
  }
}
