/** The ORM backends keep a note's tags in one text column: the list is joined
    with `,` on the way in (app.py, routes/notes.py) and split on `,` on the way
    out (`Note.to_dict` in models/note.py). */
module TagCodec {
  import opened Common

  /** `','.join(parts)` */
  function Join(parts: seq<string>): string
  {
    if parts == [] then ""
    else if |parts| == 1 then parts[0]
    else parts[0] + "," + Join(parts[1..])
  }

  /** Position of the first `,` in `s`, or `|s|` when there is none. */
  function CommaIndex(s: string): (i: nat)
    ensures i <= |s|
    ensures forall k :: 0 <= k < i ==> s[k] != ','
    ensures i < |s| ==> s[i] == ','
  {
    if s == [] || s[0] == ',' then 0 else 1 + CommaIndex(s[1..])
  }

  /** `s.split(',')`: at least one part, and no part contains `,`. */
  function Split(s: string): (parts: seq<string>)
    ensures |parts| >= 1
    ensures forall p :: p in parts ==> ',' !in p
    decreases |s|
  {
    var i := CommaIndex(s);
    if i == |s| then [s] else [s[..i]] + Split(s[i + 1..])
  }

  /** Splitting, then joining again, gives back the text. */
  lemma {:induction false} JoinSplit(s: string)
    ensures Join(Split(s)) == s
    decreases |s|
  {
    var i := CommaIndex(s);
    if i < |s| {
      JoinSplit(s[i + 1..]);
      assert s == s[..i] + "," + s[i + 1..];
    }
  }

  /** Joining parts without `,`, then splitting, gives back the parts. */
  lemma {:induction false} SplitJoin(parts: seq<string>)
    requires |parts| >= 1
    requires forall p :: p in parts ==> ',' !in p
    ensures Split(Join(parts)) == parts
  {
    var head := parts[0];
    assert head in parts && ',' !in head;
    assert CommaIndex(head) == |head|;
    if |parts| > 1 {
      var s := head + "," + Join(parts[1..]);
      assert s == head + ("," + Join(parts[1..]));
      CommaIndexPrefix(head, "," + Join(parts[1..]));
      assert s[..|head|] == head;
      assert s[|head| + 1..] == Join(parts[1..]);
      assert forall p :: p in parts[1..] ==> p in parts;
      SplitJoin(parts[1..]);
      assert Join(parts) == s;
      assert Split(s) == [head] + Split(Join(parts[1..]));
      assert parts == [head] + parts[1..];
    }
  }

  /** The first comma of `a + b`, when `a` has none and `b` starts with one. */
  lemma {:induction false} CommaIndexPrefix(a: string, b: string)
    requires ',' !in a
    requires b != [] && b[0] == ','
    ensures CommaIndex(a + b) == |a|
    decreases |a|
  {
    if a != [] {
      assert (a + b)[1..] == a[1..] + b;
      CommaIndexPrefix(a[1..], b);
    } else {
      assert a + b == b;
    }
  }

  /** The tag column of `Note.to_dict`: `self.tags.split(',') if self.tags else []`. */
  function DecodeTags(stored: Option<string>): seq<string>
  {
    match stored
    case None => []
    case Some(s) => if s == "" then [] else Split(s)
  }

  /** How app.py stores a tag list: `','.join(tags) if tags else None`; the list
      itself may be absent. */
  function EncodeOrNull(tags: Option<seq<string>>): Option<string>
  {
    if tags.Some? && tags.value != [] then Some(Join(tags.value)) else None
  }

  /** How routes/notes.py stores a tag list: always `','.join(tags)`. */
  function EncodeJoined(tags: seq<string>): Option<string>
  {
    Some(Join(tags))
  }

  /** A tag list that survives the round trip: not empty, not the single empty
      tag, and no tag containing the separator. */
  predicate Encodable(tags: seq<string>)
  {
    tags != [] && tags != [""] && forall t :: t in tags ==> ',' !in t
  }

  /** Decoding what either variant stores gives back an encodable tag list. */
  lemma RoundTrip(tags: seq<string>)
    requires Encodable(tags)
    ensures DecodeTags(EncodeOrNull(Some(tags))) == tags
    ensures DecodeTags(EncodeJoined(tags)) == tags
  {
    if |tags| > 1 {
      assert Join(tags)[|tags[0]|] == ',';
    }
    assert Join(tags) != "";
    SplitJoin(tags);
  }

  /** An absent or empty tag list is stored as NULL by app.py and as `""` by
      routes/notes.py; both decode to no tags. */
  lemma NoTagsDecodeEmpty()
    ensures EncodeOrNull(None) == None && EncodeOrNull(Some([])) == None
    ensures DecodeTags(EncodeOrNull(None)) == [] && DecodeTags(EncodeJoined([])) == []
  {
  }

  /** The single empty tag is lost: it is stored as `""`, which decodes to `[]`. */
  lemma EmptyTagLost()
    ensures DecodeTags(EncodeOrNull(Some([""]))) == []
    ensures DecodeTags(EncodeJoined([""])) == []
  {
  }
}
