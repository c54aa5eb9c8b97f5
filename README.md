# obsidian-web-memos: note parsing, tags and the note list, in Dafny

This project models the logic core of obsidian-web-memos, a small web front end for
memo-style notes kept in Obsidian daily files (`yyyy-MM-dd.md`, one entry per
`- HH:MM` line). It covers two source files.

- `src/components/MarkdownContent.jsx`
  - **Daily-file segmenter** `parseMdNotes`. It cuts a file into notes at the
    `- HH:MM` marker lines and stamps each note with the file's date part and the
    marker's hour and minute.
  - **Image extraction and stripping.** Every `![alt](url)` reference is collected
    into an ordered list of URLs and then removed from the text.
  - **Tag split of the rendered text.** The text is split on the tag expression
    `#[\w一-龥]+(?:\/[\w一-龥]+)*` into alternating text and tag parts. A tag part is
    recognised by the anchored test, and clicking it reports one event per `/`
    segment.
  - **`extractTags`**, including its second `.slice(1)`.
- `src/App.jsx`
  - **`parseTags`**, which uses `#([\w\/]+)`.
  - **The `App` component's state**: `notes`, `input`, `editingIndex` and
    `filterTag`, with `handleAdd`, `handleEdit`, the input's `onChange`, the tag
    buttons' toggle and the note cards' click.
  - **The derived views** `filteredNotes` and `allTags`.

The project has three modules:

- `Text` (`text.dfy`) holds the helpers both files rely on:
  - the character classes of the regular expressions (`\d`, `\w` without the `u`
    flag, the CJK range U+4E00..U+9FA5, `\s`);
  - JavaScript's one-character `split`, with its inverse `Join`;
  - the insertion-ordered set that a JavaScript `Set` read back with `Array.from`
    amounts to (`Dedup`), with the `forEach(t => set.add(t))` loop as the method
    `AddEach`.
- `MarkdownContent` (`markdown_content.dfy`).
- `App` (`app.dfy`).

Every regular expression is replaced by an explicit scanner. Like the JavaScript
engine, it takes the leftmost match, resumes after it, and makes each repetition
greedy. The loops of the source are methods with loop invariants:

- the image `exec` loop (`CollectImages`);
- the `extractTags` loops (`ExtractTags`);
- the `parseMdNotes` line loop (`ParseMdNotes`);
- the `parseTags` `exec` loop (`ParseTags`).

Each of these methods is proved equal to a recursive specification function. That
function's properties are proved as lemmas. The component's state is the class
`App.App`, whose methods assign the fields that the `useState` setters update.

Behaviour of the code that the model keeps as written:

- Note content is never trimmed.
  - Every non-marker line adds itself and `"\n"`, so a file that ends in `"\n"` gives
    its last note one more `"\n"`.
  - `"- 09:00\nhello\n- 10:30\nworld\n"` gives `"world\n\n"` for the second note
    (`TrailingNewline`).
- There is no invalid-timestamp marker. The hour and minute are any two digits, and
  `createdAt` is modelled as the triple (date part, hour, minute).
- `extractTags` drops the first character of every tag path (`#foo/bar` gives `oo`,
  `bar`).
- `extractTags` scans the raw content, image references included, while the render
  splits the image-stripped text. A tag inside an image's alternative text or URL is
  therefore extracted but gets no button. `TagsMatchButtons` shows that the two
  agree on content without image references.
- Tag sets keep first-appearance order, which a JavaScript `Set` guarantees.
- The filter in `App.jsx` tests `note.tags`, which `parseTags` computed. It does not
  use `extractTags`.
- A `filterTag` of `""` is falsy and shows every note. `parseTags` can produce the
  empty tag, and a button for it.
- A note card's click passes the card's position in `filteredNotes` to `handleEdit`,
  which reads `notes` at that position (see Findings).

## Model

| member | source | states |
|---|---|---|
| MarkdownContent.ImageAt | src/components/MarkdownContent.jsx:11 | a match of the image expression at the start of a string is five characters longer than its alternative text and URL together, and fits in the string |
| MarkdownContent.ImageAtSound | src/components/MarkdownContent.jsx:11 | what the anchored image scan matches is `![alt](url)` with no `]` in the alternative text and a non-empty URL without `)` |
| MarkdownContent.ImageAtComplete | src/components/MarkdownContent.jsx:11 | every such reference is matched at the start of a string whatever follows it, and the scan captures exactly its alternative text and URL |
| MarkdownContent.ChunksSpell | src/components/MarkdownContent.jsx:11-18 | the scan shared by the `exec` loop and `replace` loses nothing: its chunks, image references and plain characters, spell the input back |
| MarkdownContent.ChunksWellFormed | src/components/MarkdownContent.jsx:11 | every image chunk found in a text is a well-formed reference |
| MarkdownContent.ImagesWellFormed | src/components/MarkdownContent.jsx:11-16 | every collected URL is non-empty and contains no `)` |
| MarkdownContent.NoImageMarkup | src/components/MarkdownContent.jsx:11-18 | a text without `![` yields no URL and is left unchanged by the stripping |
| MarkdownContent.SingleImage | src/components/MarkdownContent.test.jsx:28-32 | a content that is one image reference yields exactly its URL and an empty text |
| MarkdownContent.CollectImages | src/components/MarkdownContent.jsx:11-16 | the `exec` loop pushes the URLs of the image references, left to right, that the scan finds (which ones, `ImagesSpec`) |
| MarkdownContent.ImageStartsSpec | src/components/MarkdownContent.jsx:11-16 | the match positions of a global scan from `p` hold image references, do not overlap, and no reference starts before the first, between one's end and the next, or after the last |
| MarkdownContent.ImagesAtStarts | src/components/MarkdownContent.jsx:11-16 | the URLs collected from `p` on are, in order and one for one, the URLs of the references at those positions |
| MarkdownContent.ClearPrefix | src/components/MarkdownContent.jsx:11-18 | a stretch where no image reference starts adds no URL and is kept verbatim by the stripping |
| MarkdownContent.ImagesSpec | src/components/MarkdownContent.jsx:11-18 | the images are exactly the URLs of the leftmost non-overlapping references; none exactly when no reference starts anywhere; stripping keeps the text before the first match, drops it and strips the rest, and keeps a content with no match whole |
| MarkdownContent.ImageAfterText | src/components/MarkdownContent.jsx:11-18 | a reference after text where none starts is found, and only the text is kept |
| MarkdownContent.ImageAfterChar | src/components/MarkdownContent.jsx:11-18 | `x![a](b)` yields the URL `b` and the text `x` |
| MarkdownContent.PathLen | src/components/MarkdownContent.jsx:23 | the greedy tag-path match fits in the string and is empty exactly when the string does not start with a tag character |
| MarkdownContent.PathLenSpec | src/components/MarkdownContent.jsx:23 | a non-empty greedy match is a tag path (runs of `[\w一-龥]` joined by single slashes) and stops where the path cannot continue |
| MarkdownContent.PathMaximal | src/components/MarkdownContent.jsx:23 | no prefix longer than the greedy match is a tag path |
| MarkdownContent.TagAt | src/components/MarkdownContent.jsx:23 | a tag match at the start of a string is at least two characters long and fits in it |
| MarkdownContent.TagAtSpec | src/components/MarkdownContent.jsx:23 | a tag match is a tag token and the longest tag-token prefix; no match means no prefix is a tag token |
| MarkdownContent.SplitFromConcat | src/components/MarkdownContent.jsx:23 | the split parts, joined, are the pending text followed by the rest of the text |
| MarkdownContent.TagSplitConcat | src/components/MarkdownContent.jsx:18-23 | joining the parts of the split gives back the image-stripped text |
| MarkdownContent.SplitFromAlternates | src/components/MarkdownContent.jsx:23 | the split yields text, tag, text, ..., text: tag tokens and non-tags take turns |
| MarkdownContent.AlternatesSpec | src/components/MarkdownContent.jsx:23-24 | alternating parts are odd in number, and a part is a tag token exactly when its index is odd |
| MarkdownContent.SplitFromMaximal | src/components/MarkdownContent.jsx:23 | no text after a tag part could have extended it to a longer tag token |
| MarkdownContent.TagSplitSpec | src/components/MarkdownContent.jsx:23-24 | the parts spell the text, are odd in number, the odd-indexed ones are exactly the tag tokens, each tag part is maximal (`#a/b-c` gives `#a/b`, `-c`), and no text part holds a `#` followed by a tag character, so no tag is missed |
| MarkdownContent.SplitFromTextParts | src/components/MarkdownContent.jsx:23 | the text parts the split accumulates never hold a `#` directly followed by a tag character |
| MarkdownContent.TokensEmpty | src/components/MarkdownContent.jsx:61 | `matchAll` finds no tag exactly when no `#` is directly followed by a tag character |
| MarkdownContent.FullTagTestIff | src/components/MarkdownContent.jsx:24 | the anchored test `/^#...$/` accepts exactly the tag tokens |
| MarkdownContent.ClassifySpec | src/components/MarkdownContent.jsx:23-40 | the `map` renders one segment per part, a button exactly for a tag token and a span otherwise, showing the part's text |
| MarkdownContent.SegmentsSpec | src/components/MarkdownContent.jsx:18-40 | the rendered segments show the stripped text exactly, alternate span and button, every button holds a tag token, and no span holds a `#` followed by a tag character |
| MarkdownContent.SplitPathPieces | src/components/MarkdownContent.jsx:31 | splitting a tag path on `/` gives non-empty pieces |
| MarkdownContent.ClickEventsSpec | src/components/MarkdownContent.jsx:30-33 | clicking a tag button reports its path's segments in order; each is a non-empty run of tag characters, and joined by `/` they give the path back |
| MarkdownContent.ClickNestedTag | src/components/MarkdownContent.test.jsx:19-26 | clicking `#foo/bar` reports `foo`, then `bar` |
| MarkdownContent.ClickCjkTag | src/components/MarkdownContent.test.jsx:34-41 | clicking `#生活/杂谈` reports `生活`, then `杂谈` |
| MarkdownContent.SplitFromTokens | src/components/MarkdownContent.jsx:61 | on one and the same string, the tag parts of a split are the matches the `matchAll` scan finds |
| MarkdownContent.TokensAreTagParts | src/components/MarkdownContent.jsx:61 | on one and the same string, `matchAll` finds exactly the tag parts of the render split, in the same order |
| MarkdownContent.TagsMatchButtons | src/components/MarkdownContent.jsx:18-61 | `extractTags` scans the raw content and the render the image-stripped text; for content without image references these agree, and the matches are the buttons shown |
| MarkdownContent.ExtractTags | src/components/MarkdownContent.jsx:60-68 | the nested `forEach` loops adding to the `Set` return the deduplicated pieces of the matched tags |
| MarkdownContent.ExtractPiecesIn | src/components/MarkdownContent.jsx:61-66 | a string is among the pieces exactly when it is a piece of one of the matches |
| MarkdownContent.ExtractPiecesEmpty | src/components/MarkdownContent.jsx:61-66 | there are no pieces exactly when there is no match |
| MarkdownContent.ExtractedTagsSpec | src/components/MarkdownContent.jsx:60-68 | `extractTags` has no duplicates, holds exactly the pieces, orders them by first appearance, and is empty exactly when no `#` in the content is directly followed by a tag character |
| MarkdownContent.TokenPiecesDropFirstChar | src/components/MarkdownContent.jsx:64 | the pieces of a tag are its click path with the first character of the first segment dropped (`#a/b` gives the empty string and `b`) |
| MarkdownContent.DatePartStrips | src/components/MarkdownContent.jsx:82 | the date part of `d.md` is `d` |
| MarkdownContent.DatePartKeeps | src/components/MarkdownContent.jsx:82 | a file name that does not end in `.md` is its own date part |
| MarkdownContent.Marker | src/components/MarkdownContent.jsx:77 | the captured hour and minute are two digits each |
| MarkdownContent.MarkerSound | src/components/MarkdownContent.jsx:77 | a marker match has spaces, `-`, spaces, `HH:MM` at the positions found, and captures the digits there |
| MarkdownContent.MarkerComplete | src/components/MarkdownContent.jsx:77 | any placement of the marker expression on a line is found and its hour and minute are captured |
| MarkdownContent.IsMarkerIff | src/components/MarkdownContent.jsx:77-78 | a line is a marker line exactly when `^\s*-\s*\d\d:\d\d` matches it |
| MarkdownContent.ParseMdNotes | src/components/MarkdownContent.jsx:71-97 | the line loop with its open note and final push returns the notes of the file's lines |
| MarkdownContent.MarkersFromSpec | src/components/MarkdownContent.jsx:76-78 | the marker positions are exactly the marker lines, in increasing order |
| MarkdownContent.NotesFromMarkers | src/components/MarkdownContent.jsx:76-95 | one note per marker line, in order, each stamped with its marker's time and holding the body that follows it |
| MarkdownContent.BodyUntil | src/components/MarkdownContent.jsx:90-91 | a note's body is the lines up to the next marker, each followed by `"\n"` |
| MarkdownContent.NotesSpec | src/components/MarkdownContent.jsx:76-95 | the `k`-th note keeps the file name, has the `k`-th marker's stamp, and holds exactly the lines strictly between that marker and the next one (or the end), each with `"\n"` |
| MarkdownContent.ParsedNotesSpec | src/components/MarkdownContent.jsx:71-97 | the same for `parseMdNotes` on the lines of `rawContent.split("\n")` |
| MarkdownContent.NotesEmpty | src/components/MarkdownContent.jsx:74-95 | a file gives no note exactly when none of its lines is a marker line |
| MarkdownContent.LeadingLinesDropped | src/components/MarkdownContent.jsx:90-92 | lines before the first marker line change nothing |
| MarkdownContent.BodySnoc | src/components/MarkdownContent.jsx:90-91 | a trailing non-marker line extends a body that has no marker, and is ignored otherwise |
| MarkdownContent.NotesSnoc | src/components/MarkdownContent.jsx:90-95 | a non-marker line added at the end of a file goes to the last note with its `"\n"` |
| MarkdownContent.TrailingNewline | src/components/MarkdownContent.jsx:72-91 | a file ending in `"\n"` gives its last note one more `"\n"` |
| Text.JoinSplit | src/components/MarkdownContent.jsx:31 | joining the pieces of `split(sep)` with `sep` gives the string back |
| Text.SplitJoin | src/components/MarkdownContent.jsx:31 | splitting a join of at least one separator-free piece gives the pieces back |
| Text.SplitPieces | src/components/MarkdownContent.jsx:31 | no piece of a split holds the separator, and every character of a piece is in the string |
| Text.SplitEmptyPiece | src/App.jsx:12 | a separator at the start, at the end or right after another gives an empty piece |
| Text.DedupSpec | src/App.jsx:8-14 | a `Set` read back in insertion order has no duplicates, holds exactly the added elements, and orders them by first addition |
| Text.AddEach | src/App.jsx:12 | `items.forEach(t => set.add(t))` leaves the set of everything added so far |
| App.ParseTags | src/App.jsx:7-15 | the `exec` loop returns the deduplicated `/`-pieces of the captured runs |
| App.RunsFromSound | src/App.jsx:9-11 | the `i`-th captured run is the run after the `#` of the `i`-th match, and each match starts after the previous run ends |
| App.RunShape | src/App.jsx:9 | a captured run is non-empty, made of `[A-Za-z0-9_/]`, and maximal |
| App.MatchesFromComplete | src/App.jsx:9-11 | every `#` followed by a run character starts a match the loop finds |
| App.RunsFromEmpty | src/App.jsx:9-11 | the loop finds nothing exactly when no `#` is followed by a run character |
| App.PiecesIn | src/App.jsx:12 | a string is among the pieces exactly when it is a piece of one of the runs |
| App.PiecesEmpty | src/App.jsx:12 | there are no pieces exactly when there is no run |
| App.ParsedTagsSpec | src/App.jsx:7-15 | `parseTags` has no duplicates, holds exactly the pieces of the runs, orders them by first appearance, and is empty exactly when no `#` is followed by a word character or `/` |
| App.EmptyTagFromSlash | src/App.jsx:9-12 | a leading, trailing or doubled slash in a run puts the empty tag into the result |
| App.TaggedFromSpec | src/App.jsx:52 | the kept positions are exactly the notes carrying the tag, in increasing order |
| App.TaggedAt | src/App.jsx:52 | the `k`-th kept note is the note at the `k`-th kept position |
| App.FilteredSpec | src/App.jsx:51-53 | `filteredNotes` is `notes` when `filterTag` is null or `""`, and otherwise the order-preserving subsequence of exactly the notes whose tags include it |
| App.FilteredShorter | src/App.jsx:51-53 | the filtered view has no more notes than `notes` |
| App.TagsOfIn | src/App.jsx:55 | a tag is in the `flatMap` exactly when some note carries it |
| App.AllTagsSpec | src/App.jsx:55 | `allTags` has no duplicates, holds exactly the tags of all notes, and orders them by first appearance across the notes |
| App.ToggleTwice | src/App.jsx:66 | the button sets its own tag exactly when that tag was not the filter, and two clicks from another filter clear it |
| App.App.constructor | src/App.jsx:28-31 | the initial state: no notes, empty input, not editing, no filter |
| App.App.SetInput | src/App.jsx:59 | typing changes the input and nothing else |
| App.App.HandleAdd | src/App.jsx:33-44 | while editing, only the edited note is replaced by the input and its tags, the length is kept, and editing ends; otherwise the new note is put in front of the unchanged notes; the input is cleared either way |
| App.App.HandleEdit | src/App.jsx:46-49 | the note at the index is loaded into the input and becomes the edited note; nothing else changes |
| App.App.SelectTag | src/App.jsx:66 | a tag button toggles `filterTag` between that tag and null and changes nothing else |
| App.App.ClickNote | src/App.jsx:73-74 | clicking the `idx`-th shown card edits `notes[idx]` |
| App.App.ClickNoteIntended | src/App.jsx:73-74 | clicking the `idx`-th shown card edits the note shown on that card |
| App.ShownFirstIsNotFirst | src/App.jsx:51-53 | with a tag selected, the first card shown need not be the first note |

## Left out

- The JSX rendering, CSS classes, `key` props, `NoteCard` and the components under
  `src/components/ui/` have no logic. A rendered tag split is modelled as a sequence
  of spans and buttons.
- `new Date(...)` at `src/components/MarkdownContent.jsx:83` depends on the host's
  date parsing and time zone. `createdAt` is kept as the triple (date part, hour,
  minute), with no range check, as the code does.
- The `lastModified` parameter of `parseMdNotes` is unused.
- Strings are sequences of characters, each taken as one UTF-16 code unit. A
  character outside the Basic Multilingual Plane, which JavaScript holds as two code
  units, is one character here. This changes only `.slice(1)` on such a first
  character.
- `\s` covers tab, line feed, vertical tab, form feed, carriage return, space,
  U+00A0, U+1680, U+2000..U+200A, U+2028, U+2029, U+202F, U+205F, U+3000 and
  U+FEFF.
- App.App.HandleAdd: `[...notes]` is a shallow copy, and line 36 writes into a note
  object that the previous state shares. The model replaces the note by value, so
  this aliasing of the old state is not captured.
- React's scheduling of state updates (batching, re-rendering) is not modelled. Each
  handler runs to completion on the current state.
- Image stripping is not claimed to be idempotent: removing one reference can create
  another (`!![a](b)[x](y)`).

## Findings

| source | as written | input that shows it | evidently intended | confidence | as-written member | corrected member |
|---|---|---|---|---|---|---|
| src/App.jsx:73-74 | the `idx` handed to `handleEdit` is the card's position in `filteredNotes`, and `handleEdit` reads `notes[idx]` | notes `[{content: "x", tags: []}, {content: "#b", tags: ["b"]}]` with `b` selected: one card, `#b`, is shown, and clicking it loads `x` | clicking a card loads and edits the note on that card | high, by reading the code; not executed | App.App.ClickNote, App.ShownFirstIsNotFirst | App.App.ClickNoteIntended |
