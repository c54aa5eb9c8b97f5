/** The note list of `src/App.jsx`: `parseTags`, the state of the `App` component
    (`notes`, `input`, `editingIndex`, `filterTag`) with its transitions `handleAdd`
    and `handleEdit` and the tag buttons' toggle, and the derived `filteredNotes` and
    `allTags`. React's `useState` setters become assignments to the fields of an
    `App` object. */
module App {
  import opened Text

  // ===========================================================================
  // parseTags: `/#([\w\/]+)/g`

  /** `[\w\/]`: a character of the captured run. */
  predicate IsRunChar(c: char) { IsWordChar(c) || c == '/' }

  /** The expression matches at `p`: a `#` followed by at least one run character. */
  predicate RunStartsAt(s: string, p: nat) {
    p + 1 < |s| && s[p] == '#' && IsRunChar(s[p + 1])
  }

  /** The captured groups of the matches that `regex.exec` finds from `lastIndex` `p`
      on, left to right: at the first position where `#` is followed by a run
      character, the greedy run after the `#`; the search resumes where the run ends. */
  function RunsFrom(s: string, p: nat): seq<string>
    requires p <= |s|
    decreases |s| - p
  {
    if p == |s| then []
    else if RunStartsAt(s, p) then [s[p + 1..Skip(s, p + 1, IsRunChar)]] + RunsFrom(s, Skip(s, p + 1, IsRunChar))
    else RunsFrom(s, p + 1)
  }

  /** The `/`-pieces of the runs, run by run: what `forEach(t => tags.add(t))` is given. */
  function Pieces(runs: seq<string>): seq<string> {
    if runs == [] then [] else Split(runs[0], '/') + Pieces(runs[1..])
  }

  /** The result of `parseTags(text)`. */
  function ParsedTags(text: string): seq<string> {
    Dedup(Pieces(RunsFrom(text, 0)))
  }

  /** `parseTags`: the `while (regex.exec(text))` loop. `pos` is the regular
      expression's `lastIndex`; the search for the next match advances it one
      position at a time until a `#` followed by a run character is found. */
  method ParseTags(text: string) returns (tags: seq<string>)
    ensures tags == ParsedTags(text)
  {
    tags := [];
    ghost var seen: seq<string> := [];
    var pos := 0;
    while pos < |text|
      invariant pos <= |text|
      invariant seen + Pieces(RunsFrom(text, pos)) == Pieces(RunsFrom(text, 0))
      invariant tags == Dedup(seen)
      decreases |text| - pos
    {
      if pos + 1 < |text| && text[pos] == '#' && IsRunChar(text[pos + 1]) {
        var end := Skip(text, pos + 1, IsRunChar);
        var parts := Split(text[pos + 1..end], '/');
        RunStep(text, pos, seen);
        tags := AddEach(tags, parts, seen);
        seen := seen + parts;
        pos := end;
      } else {
        NoRunStep(text, pos, seen);
        pos := pos + 1;
      }
    }
    assert seen == Pieces(RunsFrom(text, 0));
  }

  /** A match at `pos`: its pieces are added and the search resumes after the run. */
  lemma RunStep(s: string, pos: nat, seen: seq<string>)
    requires RunStartsAt(s, pos)
    requires seen + Pieces(RunsFrom(s, pos)) == Pieces(RunsFrom(s, 0))
    ensures (seen + Split(s[pos + 1..Skip(s, pos + 1, IsRunChar)], '/')) + Pieces(RunsFrom(s, Skip(s, pos + 1, IsRunChar)))
      == Pieces(RunsFrom(s, 0))
  {
    var run, later := s[pos + 1..Skip(s, pos + 1, IsRunChar)], RunsFrom(s, Skip(s, pos + 1, IsRunChar));
    assert RunsFrom(s, pos) == [run] + later;
    assert ([run] + later)[1..] == later;
    Assoc(seen, Split(run, '/'), Pieces(later));
  }

  /** No match at `pos`: the search moves on. */
  lemma NoRunStep(s: string, pos: nat, seen: seq<string>)
    requires pos < |s| && !RunStartsAt(s, pos)
    requires seen + Pieces(RunsFrom(s, pos)) == Pieces(RunsFrom(s, 0))
    ensures seen + Pieces(RunsFrom(s, pos + 1)) == Pieces(RunsFrom(s, 0))
  {
  }

  /** `run` is the run captured by a match at `q`. */
  predicate RunAt(s: string, q: nat, run: string) {
    RunStartsAt(s, q) && run == s[q + 1..Skip(s, q + 1, IsRunChar)]
  }

  /** The positions of the `#` of the matches `RunsFrom(s, p)` captures. */
  function MatchesFrom(s: string, p: nat): seq<nat>
    requires p <= |s|
    decreases |s| - p
  {
    if p == |s| then []
    else if RunStartsAt(s, p) then [p] + MatchesFrom(s, Skip(s, p + 1, IsRunChar))
    else MatchesFrom(s, p + 1)
  }

  /** `at` holds, in increasing order and at or after `p`, the positions of matches
      whose runs are `runs`; each match starts after the previous run has ended. */
  predicate Located(s: string, p: nat, runs: seq<string>, at: seq<nat>) {
    && |at| == |runs|
    && (forall i :: 0 <= i < |runs| ==> p <= at[i] && RunAt(s, at[i], runs[i]))
    && (forall i :: 0 <= i < |runs| - 1 ==> at[i] + 1 + |runs[i]| <= at[i + 1])
  }

  /** The `i`-th captured run is the run of the `i`-th match the scan finds. */
  lemma {:induction false} RunsFromSound(s: string, p: nat)
    requires p <= |s|
    ensures Located(s, p, RunsFrom(s, p), MatchesFrom(s, p))
    decreases |s| - p
  {
    if p < |s| {
      if RunStartsAt(s, p) {
        var e := Skip(s, p + 1, IsRunChar);
        RunsFromSound(s, e);
        LocatedCons(s, p, s[p + 1..e], RunsFrom(s, e), MatchesFrom(s, e));
      } else {
        RunsFromSound(s, p + 1);
      }
    }
  }

  lemma LocatedCons(s: string, p: nat, run: string, runs: seq<string>, at: seq<nat>)
    requires RunAt(s, p, run)
    requires Located(s, p + 1 + |run|, runs, at)
    ensures Located(s, p, [run] + runs, [p] + at)
  {
    forall i | 1 <= i < |runs| + 1
      ensures ([run] + runs)[i] == runs[i - 1] && ([p] + at)[i] == at[i - 1]
    {
      ConsIndex(run, runs, i);
      ConsIndex(p, at, i);
    }
  }

  /** The run of a match is non-empty, made of run characters, and maximal: it ends at
      the end of the text or before a character that is not a run character. */
  lemma RunShape(s: string, q: nat, run: string)
    requires RunAt(s, q, run)
    ensures |run| > 0 && All(run, IsRunChar)
    ensures q + 1 + |run| < |s| ==> !IsRunChar(s[q + 1 + |run|])
  {
    SkipSpec(s, q + 1, IsRunChar);
  }

  /** The scan from `p` finds nothing exactly when no `#` at or after `p` is followed
      by a run character. */
  lemma {:induction false} RunsFromEmpty(s: string, p: nat)
    requires p <= |s|
    ensures RunsFrom(s, p) == [] <==> forall q :: p <= q < |s| ==> !RunStartsAt(s, q)
    decreases |s| - p
  {
    if p < |s| && !RunStartsAt(s, p) {
      RunsFromEmpty(s, p + 1);
    }
  }

  lemma {:induction false} PiecesIn(runs: seq<string>, x: string)
    ensures x in Pieces(runs) <==> exists i :: 0 <= i < |runs| && x in Split(runs[i], '/')
  {
    if runs != [] {
      PiecesIn(runs[1..], x);
      if x in Pieces(runs[1..]) {
        var i :| 0 <= i < |runs| - 1 && x in Split(runs[1..][i], '/');
        assert x in Split(runs[i + 1], '/');
      }
      if exists i :: 1 <= i < |runs| && x in Split(runs[i], '/') {
        var i :| 1 <= i < |runs| && x in Split(runs[i], '/');
        assert x in Split(runs[1..][i - 1], '/');
      }
    }
  }

  lemma {:induction false} PiecesEmpty(runs: seq<string>)
    ensures Pieces(runs) == [] <==> runs == []
  {
    if runs != [] {
      assert |Split(runs[0], '/')| >= 1;
    }
  }

  /** `parseTags` returns each `/`-piece of each run once, in the order the pieces
      first appear, and nothing else; it returns nothing exactly when no `#` is
      followed by a word character or a `/`. */
  lemma ParsedTagsSpec(text: string)
    ensures NoDup(ParsedTags(text))
    ensures forall x :: x in ParsedTags(text) <==>
      exists i :: 0 <= i < |RunsFrom(text, 0)| && x in Split(RunsFrom(text, 0)[i], '/')
    ensures forall i, j :: 0 <= i < j < |ParsedTags(text)| ==>
      && ParsedTags(text)[i] in Pieces(RunsFrom(text, 0))
      && ParsedTags(text)[j] in Pieces(RunsFrom(text, 0))
      && FirstIndex(Pieces(RunsFrom(text, 0)), ParsedTags(text)[i])
         < FirstIndex(Pieces(RunsFrom(text, 0)), ParsedTags(text)[j])
    ensures ParsedTags(text) == [] <==> forall q :: 0 <= q < |text| ==> !RunStartsAt(text, q)
  {
    var runs := RunsFrom(text, 0);
    var pieces := Pieces(runs);
    DedupSpec(pieces);
    forall x ensures x in ParsedTags(text) <==> exists i :: 0 <= i < |runs| && x in Split(runs[i], '/') {
      PiecesIn(runs, x);
    }
    PiecesEmpty(runs);
    RunsFromEmpty(text, 0);
    if pieces != [] {
      assert pieces[0] in pieces;
    }
  }

  /** The scan from `p` finds every match at or after `p`: a `#` is not a run
      character, so no run ends past a later `#`. */
  lemma {:induction false} MatchesFromComplete(s: string, p: nat, q: nat)
    requires p <= q && RunStartsAt(s, q)
    ensures q in MatchesFrom(s, p)
    decreases |s| - p
  {
    if RunStartsAt(s, p) {
      if q != p {
        var e := Skip(s, p + 1, IsRunChar);
        SkipSpec(s, p + 1, IsRunChar);
        assert !IsRunChar(s[q]);
        MatchesFromComplete(s, e, q);
      }
    } else {
      MatchesFromComplete(s, p + 1, q);
    }
  }

  /** A run with a leading, a trailing or a doubled slash puts the empty tag into the
      result of `parseTags`. */
  lemma EmptyTagFromSlash(text: string, q: nat, a: string, b: string)
    requires RunAt(text, q, a + ['/'] + b)
    requires a == [] || b == [] || a[|a| - 1] == '/'
    ensures "" in ParsedTags(text)
  {
    var runs := RunsFrom(text, 0);
    MatchesFromComplete(text, 0, q);
    RunsFromSound(text, 0);
    var i :| 0 <= i < |runs| && MatchesFrom(text, 0)[i] == q;
    SplitEmptyPiece(a, '/', b);
    PiecesIn(runs, "");
    DedupSpec(Pieces(runs));
  }

  // ===========================================================================
  // Notes and the derived views

  datatype Note = Note(content: string, tags: seq<string>)

  /** The note `handleAdd` makes of the input. */
  function NoteOf(input: string): Note { Note(input, ParsedTags(input)) }

  /** `notes.filter(note => note.tags.includes(tag))`. */
  function Tagged(notes: seq<Note>, tag: string): seq<Note> {
    if notes == [] then []
    else (if tag in notes[0].tags then [notes[0]] else []) + Tagged(notes[1..], tag)
  }

  /** `filteredNotes`: all notes while `filterTag` is `null` or the empty string (both
      falsy), otherwise the notes carrying that tag. */
  function Filtered(notes: seq<Note>, filterTag: Option<string>): seq<Note> {
    if filterTag.None? || filterTag.value == "" then notes else Tagged(notes, filterTag.value)
  }

  /** The positions, from `lo` on, of the notes carrying `tag`. */
  function TaggedFrom(notes: seq<Note>, tag: string, lo: nat): seq<nat>
    requires lo <= |notes|
    decreases |notes| - lo
  {
    if lo == |notes| then []
    else (if tag in notes[lo].tags then [lo] else []) + TaggedFrom(notes, tag, lo + 1)
  }

  /** `TaggedFrom` lists exactly the positions from `lo` on whose note carries `tag`,
      in increasing order. */
  lemma {:induction false} TaggedFromSpec(notes: seq<Note>, tag: string, lo: nat)
    requires lo <= |notes|
    ensures forall k :: 0 <= k < |TaggedFrom(notes, tag, lo)| ==>
      lo <= TaggedFrom(notes, tag, lo)[k] < |notes| && tag in notes[TaggedFrom(notes, tag, lo)[k]].tags
    ensures forall k, l :: 0 <= k < l < |TaggedFrom(notes, tag, lo)| ==>
      TaggedFrom(notes, tag, lo)[k] < TaggedFrom(notes, tag, lo)[l]
    ensures forall i :: lo <= i < |notes| && tag in notes[i].tags ==> i in TaggedFrom(notes, tag, lo)
    decreases |notes| - lo
  {
    if lo < |notes| {
      TaggedFromSpec(notes, tag, lo + 1);
      var later := TaggedFrom(notes, tag, lo + 1);
      if tag in notes[lo].tags {
        var idx := [lo] + later;
        assert TaggedFrom(notes, tag, lo) == idx;
        forall k | 1 <= k < |idx| ensures idx[k] == later[k - 1] {
          ConsIndex(lo, later, k);
        }
      }
    }
  }

  /** The `k`-th note shown under a tag is the note at the `k`-th position that
      carries the tag. */
  lemma {:induction false} TaggedAt(notes: seq<Note>, tag: string, lo: nat)
    requires lo <= |notes|
    ensures |Tagged(notes[lo..], tag)| == |TaggedFrom(notes, tag, lo)|
    ensures forall k :: 0 <= k < |TaggedFrom(notes, tag, lo)| ==>
      TaggedFrom(notes, tag, lo)[k] < |notes| && Tagged(notes[lo..], tag)[k] == notes[TaggedFrom(notes, tag, lo)[k]]
    decreases |notes| - lo
  {
    if lo < |notes| {
      TaggedAt(notes, tag, lo + 1);
      DropDrop(notes, lo);
      if tag in notes[lo].tags {
        var shown, later := Tagged(notes[lo..], tag), Tagged(notes[lo + 1..], tag);
        var idx, rest := TaggedFrom(notes, tag, lo), TaggedFrom(notes, tag, lo + 1);
        assert shown == [notes[lo]] + later && idx == [lo] + rest;
        forall k | 1 <= k < |idx| ensures shown[k] == later[k - 1] && idx[k] == rest[k - 1] {
          ConsIndex(notes[lo], later, k);
          ConsIndex(lo, rest, k);
        }
      }
    }
  }

  /** `filteredNotes` under a non-empty tag is the order-preserving subsequence of the
      notes that carry it: its `k`-th note is the note at the `k`-th such position,
      the positions increase, and every note carrying the tag is at one of them. */
  lemma FilteredSpec(notes: seq<Note>, filterTag: Option<string>)
    ensures filterTag.None? || filterTag.value == "" ==> Filtered(notes, filterTag) == notes
    ensures filterTag.Some? && filterTag.value != "" ==>
      var tag, idx := filterTag.value, TaggedFrom(notes, filterTag.value, 0);
      && |Filtered(notes, filterTag)| == |idx|
      && (forall k :: 0 <= k < |idx| ==> idx[k] < |notes| && Filtered(notes, filterTag)[k] == notes[idx[k]])
      && (forall k, l :: 0 <= k < l < |idx| ==> idx[k] < idx[l])
      && (forall i :: 0 <= i < |notes| ==> (i in idx <==> tag in notes[i].tags))
  {
    if filterTag.Some? && filterTag.value != "" {
      var tag := filterTag.value;
      assert notes[0..] == notes;
      TaggedAt(notes, tag, 0);
      TaggedFromSpec(notes, tag, 0);
    }
  }

  /** `notes.flatMap(n => n.tags)`. */
  function TagsOf(notes: seq<Note>): seq<string> {
    if notes == [] then [] else notes[0].tags + TagsOf(notes[1..])
  }

  /** `allTags`. */
  function AllTags(notes: seq<Note>): seq<string> { Dedup(TagsOf(notes)) }

  lemma {:induction false} TagsOfIn(notes: seq<Note>, x: string)
    ensures x in TagsOf(notes) <==> exists i :: 0 <= i < |notes| && x in notes[i].tags
  {
    if notes != [] {
      TagsOfIn(notes[1..], x);
      if x in TagsOf(notes[1..]) {
        var i :| 0 <= i < |notes| - 1 && x in notes[1..][i].tags;
        assert x in notes[i + 1].tags;
      }
      if exists i :: 1 <= i < |notes| && x in notes[i].tags {
        var i :| 1 <= i < |notes| && x in notes[i].tags;
        assert x in notes[1..][i - 1].tags;
      }
    }
  }

  /** `allTags` holds every tag of every note once, in the order the tags first appear
      across the notes, and nothing else. */
  lemma AllTagsSpec(notes: seq<Note>)
    ensures NoDup(AllTags(notes))
    ensures forall x :: x in AllTags(notes) <==> exists i :: 0 <= i < |notes| && x in notes[i].tags
    ensures forall i, j :: 0 <= i < j < |AllTags(notes)| ==>
      && AllTags(notes)[i] in TagsOf(notes) && AllTags(notes)[j] in TagsOf(notes)
      && FirstIndex(TagsOf(notes), AllTags(notes)[i]) < FirstIndex(TagsOf(notes), AllTags(notes)[j])
  {
    DedupSpec(TagsOf(notes));
    forall x ensures x in AllTags(notes) <==> exists i :: 0 <= i < |notes| && x in notes[i].tags {
      TagsOfIn(notes, x);
    }
  }

  /** The `filterTag` a tag button's click leaves: `null` when that tag was selected,
      the tag otherwise. */
  function Toggle(filterTag: Option<string>, tag: string): Option<string> {
    if filterTag == Some(tag) then None else Some(tag)
  }

  /** Two clicks on the same tag button leave the filter on that tag when it was on
      that tag before (cleared, then set again), and clear it otherwise: a filter on
      another tag, or none, is not restored. One click selects the tag exactly when it
      was not the filter. */
  lemma ToggleTwice(filterTag: Option<string>, tag: string)
    ensures Toggle(Toggle(filterTag, tag), tag) == (if filterTag == Some(tag) then Some(tag) else None)
    ensures Toggle(filterTag, tag) == Some(tag) <==> filterTag != Some(tag)
  {
  }

  // ===========================================================================
  // The component's state

  class App {
    var notes: seq<Note>
    var input: string
    var editingIndex: Option<nat>
    var filterTag: Option<string>

    /** An edited note is one of the notes. */
    predicate Valid()
      reads this
    {
      editingIndex.Some? ==> editingIndex.value < |notes|
    }

    /** The initial state of lines 28-31. */
    constructor()
      ensures Valid()
      ensures notes == [] && input == "" && editingIndex == None && filterTag == None
    {
      notes, input, editingIndex, filterTag := [], "", None, None;
    }

    /** The text area's `onChange` (line 59). */
    method SetInput(text: string)
      modifies this
      ensures input == text
      ensures notes == old(notes) && editingIndex == old(editingIndex) && filterTag == old(filterTag)
    {
      input := text;
    }

    /** `handleAdd`: while editing, the edited note's content and tags are replaced by
        the input and its tags, and editing ends; otherwise a new note is put in front.
        The input is cleared either way. */
    method HandleAdd()
      requires Valid()
      modifies this
      ensures Valid()
      ensures old(editingIndex).Some? ==>
        notes == old(notes)[old(editingIndex).value := NoteOf(old(input))]
      ensures old(editingIndex).None? ==> notes == [NoteOf(old(input))] + old(notes)
      ensures editingIndex == None && input == "" && filterTag == old(filterTag)
    {
      var tags := ParseTags(input);
      if editingIndex.Some? {
        notes := notes[editingIndex.value := Note(input, tags)];
        editingIndex := None;
      } else {
        notes := [Note(input, tags)] + notes;
      }
      input := "";
    }

    /** `handleEdit(index)`: the note at `index` is loaded into the input. */
    method HandleEdit(index: nat)
      requires index < |notes|
      modifies this
      ensures Valid()
      ensures editingIndex == Some(index) && input == notes[index].content
      ensures notes == old(notes) && filterTag == old(filterTag)
    {
      editingIndex := Some(index);
      input := notes[index].content;
    }

    /** A tag button's click (line 66). */
    method SelectTag(tag: string)
      modifies this
      ensures filterTag == Toggle(old(filterTag), tag)
      ensures notes == old(notes) && input == old(input) && editingIndex == old(editingIndex)
    {
      if filterTag == Some(tag) {
        filterTag := None;
      } else {
        filterTag := Some(tag);
      }
    }

    /** `filteredNotes`. */
    function FilteredNotes(): seq<Note>
      reads this
    {
      Filtered(notes, filterTag)
    }

    /** The tag buttons, `allTags`. */
    function Tags(): seq<string>
      reads this
    {
      AllTags(notes)
    }

    /** A click on the `idx`-th shown note card (line 74) as written: the position in
        `filteredNotes` is handed to `handleEdit`, which reads `notes` at it. */
    method ClickNote(idx: nat)
      requires idx < |FilteredNotes()|
      modifies this
      ensures Valid()
      ensures editingIndex == Some(idx) && input == notes[idx].content
      ensures notes == old(notes) && filterTag == old(filterTag)
    {
      FilteredShorter(notes, filterTag);
      HandleEdit(idx);
    }

    /** A click on the `idx`-th shown note card that loads and edits the note on that
        card. */
    method ClickNoteIntended(idx: nat)
      requires idx < |FilteredNotes()|
      modifies this
      ensures Valid()
      ensures editingIndex.Some? && notes[editingIndex.value] == old(FilteredNotes())[idx]
      ensures input == old(FilteredNotes())[idx].content
      ensures notes == old(notes) && filterTag == old(filterTag)
    {
      var index := idx;
      if filterTag.Some? && filterTag.value != "" {
        FilteredSpec(notes, filterTag);
        index := TaggedFrom(notes, filterTag.value, 0)[idx];
      }
      HandleEdit(index);
    }
  }

  /** No view shows more notes than there are. */
  lemma FilteredShorter(notes: seq<Note>, filterTag: Option<string>)
    ensures |Filtered(notes, filterTag)| <= |notes|
  {
    FilteredSpec(notes, filterTag);
    if filterTag.Some? && filterTag.value != "" {
      var idx := TaggedFrom(notes, filterTag.value, 0);
      TaggedFromSpec(notes, filterTag.value, 0);
      IncreasingBelow(idx, |notes|);
    }
  }

  /** A strictly increasing sequence of positions below `n` has at most `n` elements. */
  lemma {:induction false} IncreasingBelow(idx: seq<nat>, n: nat)
    requires forall k :: 0 <= k < |idx| ==> idx[k] < n
    requires forall k, l :: 0 <= k < l < |idx| ==> idx[k] < idx[l]
    ensures |idx| <= n
    decreases n
  {
    if idx != [] {
      var init := idx[..|idx| - 1];
      assert forall k :: 0 <= k < |init| ==> init[k] < idx[|idx| - 1] <= n - 1;
      IncreasingBelow(init, n - 1);
    }
  }

  /** With a tag selected, the card shown first need not be the first note: `notes`
      holds a note without the tag and then one with it, and the view shows only the
      second. A click on the first card then edits the note that is not shown. */
  lemma ShownFirstIsNotFirst()
    ensures var notes := [Note("x", []), Note("#b", ["b"])];
      Filtered(notes, Some("b")) == [notes[1]] && Filtered(notes, Some("b"))[0] != notes[0]
  {
    var notes := [Note("x", []), Note("#b", ["b"])];
    assert notes[1..][1..] == [];
    assert "b" !in notes[0].tags;
  }
}
