/** The text helpers of the SQL backend (main.py): tag normalisation and the
    `[[Title]]` reference scanner. */
module Text {
  import opened Common

  // ----- case and whitespace -----

  /** An upper-case ASCII letter. */
  predicate IsUpper(c: char)
  {
    'A' <= c <= 'Z'
  }

  /** No character of `s` is an upper-case ASCII letter. */
  predicate NoUpper(s: string)
  {
    forall i :: 0 <= i < |s| ==> !IsUpper(s[i])
  }

  /** `str.lower()` on one character; only ASCII letters are folded. */
  function LowerChar(c: char): char
  {
    if IsUpper(c) then (c as int - 'A' as int + 'a' as int) as char else c
  }

  function Lower(s: string): string
  {
    seq(|s|, i requires 0 <= i < |s| => LowerChar(s[i]))
  }

  /** The characters `str.isspace()` accepts, which `str.strip()` removes. */
  predicate IsSpace(c: char)
  {
    || ('\t' <= c <= '\r')
    || ('\U{1C}' <= c <= ' ')
    || c == '\U{85}' || c == '\U{A0}' || c == '\U{1680}'
    || ('\U{2000}' <= c <= '\U{200A}')
    || c == '\U{2028}' || c == '\U{2029}' || c == '\U{202F}' || c == '\U{205F}' || c == '\U{3000}'
  }

  function TrimStart(s: string): (r: string)
    ensures |r| <= |s| && r == s[|s| - |r|..]
    ensures forall i :: 0 <= i < |s| - |r| ==> IsSpace(s[i])
    ensures r != [] ==> !IsSpace(r[0])
  {
    if s != [] && IsSpace(s[0]) then TrimStart(s[1..]) else s
  }

  function TrimEnd(s: string): (r: string)
    ensures |r| <= |s| && r == s[..|r|]
    ensures forall i :: |r| <= i < |s| ==> IsSpace(s[i])
    ensures r != [] ==> !IsSpace(r[|r| - 1])
  {
    if s != [] && IsSpace(s[|s| - 1]) then TrimEnd(s[..|s| - 1]) else s
  }

  /** `r` is `s` without its first `lo` characters and the characters after
      `r`, and everything removed is whitespace. */
  ghost predicate TrimmedAt(s: string, lo: nat, r: string)
  {
    && lo + |r| <= |s|
    && r == s[lo..lo + |r|]
    && (forall i :: 0 <= i < lo ==> IsSpace(s[i]))
    && (forall i :: lo + |r| <= i < |s| ==> IsSpace(s[i]))
  }

  /** `str.strip()`: removes leading and trailing whitespace and nothing else. */
  function Strip(s: string): (r: string)
    ensures exists lo :: TrimmedAt(s, lo, r)
    ensures r != [] ==> !IsSpace(r[0]) && !IsSpace(r[|r| - 1])
  {
    var head := TrimStart(s);
    var r := TrimEnd(head);
    assert TrimmedAt(s, |s| - |head|, r);
    r
  }

  /** A string with no whitespace at either end is its own strip. */
  lemma StripUntrimmed(s: string)
    requires s != [] ==> !IsSpace(s[0]) && !IsSpace(s[|s| - 1])
    ensures Strip(s) == s
  {
  }

  // ----- tags -----

  /** One tag as stored: `tag.lower().strip()`. */
  function NormalizeTag(tag: string): string
  {
    Strip(Lower(tag))
  }

  /** A stored tag has no whitespace at either end and no upper-case letter. */
  lemma NormalizeTagForm(tag: string)
    ensures var r := NormalizeTag(tag);
      && (r != [] ==> !IsSpace(r[0]) && !IsSpace(r[|r| - 1]))
      && NoUpper(r)
  {
    LowerHasNoUpper(tag);
    StripKeepsNoUpper(Lower(tag));
  }

  /** Stripping removes characters only, so it adds no upper-case letter. */
  lemma StripKeepsNoUpper(s: string)
    requires NoUpper(s)
    ensures NoUpper(Strip(s))
  {
    var head := TrimStart(s);
    SliceNoUpper(s, |s| - |head|, |s|);
    SliceNoUpper(head, 0, |TrimEnd(head)|);
  }

  /** A slice of a string without upper-case letters has none either. */
  lemma SliceNoUpper(s: string, lo: nat, hi: nat)
    requires NoUpper(s) && lo <= hi <= |s|
    ensures NoUpper(s[lo..hi])
  {
    forall i | 0 <= i < hi - lo ensures !IsUpper(s[lo..hi][i]) {
      assert s[lo..hi][i] == s[lo + i];
    }
  }

  lemma LowerHasNoUpper(s: string)
    ensures NoUpper(Lower(s))
  {
    forall i | 0 <= i < |s| ensures !IsUpper(Lower(s)[i]) {
      var c := s[i];
      if IsUpper(c) {
        assert LowerChar(c) as int == c as int + 32;
      }
    }
  }

  /** A string without upper-case ASCII letters is its own lower-casing. */
  lemma LowerUnchanged(s: string)
    requires NoUpper(s)
    ensures Lower(s) == s
  {
    assert forall i :: 0 <= i < |s| ==> Lower(s)[i] == s[i];
  }

  /** Normalising a normalised tag changes nothing. */
  lemma NormalizeTagIdempotent(tag: string)
    ensures NormalizeTag(NormalizeTag(tag)) == NormalizeTag(tag)
  {
    var t := NormalizeTag(tag);
    NormalizeTagForm(tag);
    LowerUnchanged(t);
    StripUntrimmed(t);
  }

  /** Every tag normalised, position by position. */
  function NormalizeEach(tags: seq<string>): (r: seq<string>)
    ensures |r| == |tags|
    ensures forall i :: 0 <= i < |tags| ==> r[i] == NormalizeTag(tags[i])
  {
    if tags == [] then [] else NormalizeEach(tags[..|tags| - 1]) + [NormalizeTag(tags[|tags| - 1])]
  }

  /** `normalize_tags`: `list(set(tag.lower().strip() for tag in tags))`. The
      order of a Python set is not specified; the model keeps first occurrences. */
  function NormalizeTags(tags: seq<string>): (r: seq<string>)
    ensures NoDup(r)
    ensures forall i :: 0 <= i < |tags| ==> NormalizeTag(tags[i]) in r
    ensures forall x :: x in r ==> exists i :: 0 <= i < |tags| && x == NormalizeTag(tags[i])
    ensures |r| <= |tags|
  {
    Dedupe(NormalizeEach(tags))
  }

  // ----- [[Title]] references -----

  /** Length of the longest prefix of `s` without `]`: what `[^\]]+` consumes greedily. */
  function RunLength(s: string): (n: nat)
    ensures n <= |s|
    ensures forall i :: 0 <= i < n ==> s[i] != ']'
    ensures n < |s| ==> s[n] == ']'
  {
    if s == [] || s[0] == ']' then 0 else 1 + RunLength(s[1..])
  }

  /** `s` starts with `[[`, then `name`, then `]]`, where `name` is a non-empty
      text without `]`: one match of `\[\[([^\]]+)\]\]` with group `name`. */
  ghost predicate MatchesRef(s: string, name: string)
  {
    && |name| > 0
    && ']' !in name
    && |name| + 4 <= |s|
    && s[0] == '[' && s[1] == '['
    && s[2..2 + |name|] == name
    && s[2 + |name|] == ']' && s[3 + |name|] == ']'
  }

  /** The regex tried at the start of `s`: the length of the group, if it matches. */
  function MatchAt(s: string): (m: Option<nat>)
    ensures m.Some? ==> m.value + 4 <= |s| && MatchesRef(s, s[2..2 + m.value])
  {
    if |s| >= 2 && s[0] == '[' && s[1] == '[' then
      var n := RunLength(s[2..]);
      if n > 0 && n + 4 <= |s| && s[n + 3] == ']' then Some(n) else None
    else
      None
  }

  /** Conversely, whenever the pattern matches at the start of `s`, MatchAt
      finds that match: the group is the whole run up to the first `]`. */
  lemma MatchAtComplete(s: string, name: string)
    requires MatchesRef(s, name)
    ensures MatchAt(s) == Some(|name|)
  {
    var run := s[2..];
    assert forall i :: 0 <= i < |name| ==> run[i] == name[i];
    assert run[|name|] == ']';
    assert RunLength(run) == |name|;
  }

  /** `resolve_links`, i.e. `re.findall(r"\[\[([^\]]+)\]\]", content)`: scans left
      to right, records the group of each match and resumes after it. */
  function ResolveLinks(content: string): (refs: seq<string>)
    ensures forall r :: r in refs ==> |r| > 0 && ']' !in r
    decreases |content|
  {
    if content == [] then []
    else
      match MatchAt(content)
      case Some(n) => [content[2..2 + n]] + ResolveLinks(content[n + 4..])
      case None => ResolveLinks(content[1..])
  }

  /** Text between references: a prose part, then one `[[ref]]`. */
  datatype Segment = Segment(prose: string, ref: string)

  /** The content made of the segments in order, then `tail`. */
  function Render(segments: seq<Segment>, tail: string): string
  {
    if segments == [] then tail
    else segments[0].prose + "[[" + segments[0].ref + "]]" + Render(segments[1..], tail)
  }

  function Refs(segments: seq<Segment>): seq<string>
  {
    if segments == [] then [] else [segments[0].ref] + Refs(segments[1..])
  }

  /** No match starts inside prose without `[`. */
  lemma {:induction false} ResolveSkipsProse(prose: string, rest: string)
    requires '[' !in prose
    ensures ResolveLinks(prose + rest) == ResolveLinks(rest)
    decreases |prose|
  {
    if prose != [] {
      var s := prose + rest;
      assert s[0] == prose[0] && s[0] != '[';
      assert MatchAt(s).None?;
      assert ResolveLinks(s) == ResolveLinks(s[1..]);
      assert s[1..] == prose[1..] + rest;
      ResolveSkipsProse(prose[1..], rest);
    } else {
      assert prose + rest == rest;
    }
  }

  /** `[[name]]` followed by anything is one match of the pattern. */
  lemma RefMatches(name: string, rest: string)
    requires |name| > 0 && ']' !in name
    ensures MatchesRef("[[" + name + "]]" + rest, name)
    ensures ("[[" + name + "]]" + rest)[|name| + 4..] == rest
  {
    var s := "[[" + name + "]]" + rest;
    assert s == ("[[" + name) + ("]]" + rest);
    assert s[2..2 + |name|] == name;
  }

  /** A reference followed by anything is matched as a whole. */
  lemma ResolveRef(name: string, rest: string)
    requires |name| > 0 && ']' !in name
    ensures ResolveLinks("[[" + name + "]]" + rest) == [name] + ResolveLinks(rest)
  {
    var s := "[[" + name + "]]" + rest;
    RefMatches(name, rest);
    MatchAtComplete(s, name);
  }

  /** The scanner recovers exactly the references of a content assembled from
      prose without `[` and references that are non-empty and have no `]`. */
  lemma {:induction false} ResolveRendered(segments: seq<Segment>, tail: string)
    requires forall g :: g in segments ==> '[' !in g.prose && |g.ref| > 0 && ']' !in g.ref
    requires '[' !in tail
    ensures ResolveLinks(Render(segments, tail)) == Refs(segments)
  {
    if segments == [] {
      assert ResolveLinks(tail + []) == ResolveLinks([]) by { ResolveSkipsProse(tail, []); }
      assert tail + [] == tail;
    } else {
      var g := segments[0];
      var rest := Render(segments[1..], tail);
      assert Render(segments, tail) == g.prose + (("[[" + g.ref + "]]") + rest);
      ResolveSkipsProse(g.prose, ("[[" + g.ref + "]]") + rest);
      ResolveRef(g.ref, rest);
      ResolveRendered(segments[1..], tail);
    }
  }

  /** `[[]]` is no reference at all: the group needs one character. */
  lemma EmptyBracketsYieldNothing()
    ensures ResolveLinks("[[]]") == []
  {
    assert "[[]]"[1..] == "[]]";
    assert "[]]"[1..] == "]]";
    assert "]]"[1..] == "]";
    assert "]"[1..] == "";
  }
}
