/** The note body renderer and the daily-file segmenter of
    `src/components/MarkdownContent.jsx`, with its regular expressions replaced by
    explicit left-to-right scanners:

    - images: `/!\[[^\]]*\]\(([^\)]+)\)/g`, collected by an `exec` loop and removed
      by `replace`;
    - tags: `#[\w一-龥]+(?:\/[\w一-龥]+)*`, used by `split` with a
      capturing group (render), by `test` anchored at both ends (the button test) and
      by `matchAll` (`extractTags`);
    - entry markers: `/^\s*-\s*(\d{2}):(\d{2})/` (`parseMdNotes`).

    Each global regular expression scans from position 0 and takes, at the leftmost
    position where it matches, its match, then resumes after it; the scanners below
    recurse over the remaining suffix in exactly that way. */
module MarkdownContent {
  import opened Text

  // ===========================================================================
  // Images: `![alt](url)`

  /** A match of the image expression at the start of a string: the alternative
      text, the captured URL and the length of the whole match. */
  datatype ImageMatch = ImageMatch(alt: string, url: string, len: nat)

  /** The text of an image reference. */
  function ImageSyntax(alt: string, url: string): string {
    "![" + alt + "](" + url + ")"
  }

  /** The image expression anchored at the start of `s`. `[^\]]*` cannot go past the
      first `]`, and `[^\)]+` cannot go past the first `)`, so the match, when there is
      one, ends at the first `)` after the first `]`. */
  function ImageAt(s: string): (r: Option<ImageMatch>)
    ensures r.Some? ==> r.value.len == |r.value.alt| + |r.value.url| + 5 <= |s|
  {
    if |s| < 2 || s[0] != '!' || s[1] != '[' then None
    else
      var close := IndexOf(s, ']', 2);
      if close + 1 >= |s| || s[close + 1] != '(' then None
      else
        var paren := IndexOf(s, ')', close + 2);
        if paren == |s| || paren == close + 2 then None
        else Some(ImageMatch(s[2..close], s[close + 2..paren], paren + 1))
  }

  /** A match found by `ImageAt` is an image reference whose alternative text has no
      `]` and whose URL is non-empty and has no `)`. */
  lemma ImageAtSound(s: string)
    requires ImageAt(s).Some?
    ensures var m := ImageAt(s).value;
      s[..m.len] == ImageSyntax(m.alt, m.url) && ']' !in m.alt && ')' !in m.url && m.url != []
  {
    var m := ImageAt(s).value;
    var close := IndexOf(s, ']', 2);
    var paren := IndexOf(s, ')', close + 2);
    IndexOfSpec(s, ']', 2);
    IndexOfSpec(s, ')', close + 2);
    assert m.alt == s[2..close] && m.url == s[close + 2..paren];
    assert s[..m.len] == s[..2] + s[2..close] + s[close..close + 2] + s[close + 2..paren] + [s[paren]];
  }

  /** Every image reference whose alternative text has no `]` and whose URL is
      non-empty without `)` is matched by `ImageAt`, whatever follows it. */
  lemma ImageAtComplete(alt: string, url: string, rest: string)
    requires ']' !in alt && ')' !in url && url != []
    ensures ImageAt(ImageSyntax(alt, url) + rest) == Some(ImageMatch(alt, url, |alt| + |url| + 5))
  {
    var s := ImageSyntax(alt, url) + rest;
    var close := |alt| + 2;
    var paren := close + 2 + |url|;
    assert s == "![" + alt + "](" + url + ")" + rest;
    forall k | 2 <= k < close ensures s[k] != ']' {
      assert s[k] == alt[k - 2] && alt[k - 2] in alt;
    }
    assert s[close] == ']' && s[close + 1] == '(';
    IndexOfFirst(s, ']', 2, close);
    forall k | close + 2 <= k < paren ensures s[k] != ')' {
      assert s[k] == url[k - close - 2] && url[k - close - 2] in url;
    }
    assert s[paren] == ')';
    IndexOfFirst(s, ')', close + 2, paren);
    assert s[2..close] == alt && s[close + 2..paren] == url;
  }

  /** The input cut into image references and the characters between them. */
  datatype Chunk = Char(c: char) | Image(alt: string, url: string)

  /** The scan shared by the `exec` loop and by `replace`: at each position, an image
      reference if one starts there, otherwise one plain character. */
  function Chunks(s: string): seq<Chunk>
    decreases |s|
  {
    if s == [] then []
    else match ImageAt(s)
      case Some(m) => [Image(m.alt, m.url)] + Chunks(s[m.len..])
      case None => [Char(s[0])] + Chunks(s[1..])
  }

  /** The text that a sequence of chunks stands for. */
  function Spell(chunks: seq<Chunk>): string {
    if chunks == [] then []
    else match chunks[0]
      case Char(c) => [c] + Spell(chunks[1..])
      case Image(alt, url) => ImageSyntax(alt, url) + Spell(chunks[1..])
  }

  /** The plain characters of a sequence of chunks: the text with the images removed. */
  function PlainText(chunks: seq<Chunk>): string {
    if chunks == [] then []
    else match chunks[0]
      case Char(c) => [c] + PlainText(chunks[1..])
      case Image(_, _) => PlainText(chunks[1..])
  }

  /** The URLs of the image chunks, in order. */
  function Urls(chunks: seq<Chunk>): seq<string> {
    if chunks == [] then []
    else match chunks[0]
      case Char(_) => Urls(chunks[1..])
      case Image(_, url) => [url] + Urls(chunks[1..])
  }

  /** The URLs that the `exec` loop pushes into `images`. */
  function Images(s: string): seq<string> { Urls(Chunks(s)) }

  /** `content.replace(imgRegex, "")`. */
  function StripImages(s: string): string { PlainText(Chunks(s)) }

  /** The scan loses nothing: the chunks spell the input, so the input is its
      image-stripped text with the image references put back where they were. */
  lemma {:induction false} ChunksSpell(s: string)
    ensures Spell(Chunks(s)) == s
    decreases |s|
  {
    if s != [] {
      match ImageAt(s)
      case Some(m) =>
        ChunksSpell(s[m.len..]);
        SpellAtImage(s, m);
      case None =>
        ChunksSpell(s[1..]);
        SpellCons(Char(s[0]), Chunks(s[1..]));
        HeadTail(s);
    }
  }

  lemma SpellAtImage(s: string, m: ImageMatch)
    requires ImageAt(s) == Some(m)
    requires Spell(Chunks(s[m.len..])) == s[m.len..]
    ensures Spell(Chunks(s)) == s
  {
    ImageAtSound(s);
    SpellCons(Image(m.alt, m.url), Chunks(s[m.len..]));
    TakeDrop(s, m.len);
  }

  lemma SpellCons(c: Chunk, chunks: seq<Chunk>)
    ensures c.Char? ==> Spell([c] + chunks) == [c.c] + Spell(chunks)
    ensures c.Image? ==> Spell([c] + chunks) == ImageSyntax(c.alt, c.url) + Spell(chunks)
  {
    assert ([c] + chunks)[1..] == chunks;
  }

  /** Every image chunk is a well-formed reference: no `]` in its alternative text and
      a non-empty URL without `)`. */
  lemma {:induction false} ChunksWellFormed(s: string)
    ensures forall i :: 0 <= i < |Chunks(s)| && Chunks(s)[i].Image? ==>
      ']' !in Chunks(s)[i].alt && ')' !in Chunks(s)[i].url && Chunks(s)[i].url != []
    decreases |s|
  {
    if s != [] {
      match ImageAt(s)
      case Some(m) =>
        ImageAtSound(s);
        ChunksWellFormed(s[m.len..]);
      case None =>
        ChunksWellFormed(s[1..]);
    }
  }

  lemma {:induction false} UrlsOfWellFormed(chunks: seq<Chunk>)
    requires forall i :: 0 <= i < |chunks| && chunks[i].Image? ==>
      ')' !in chunks[i].url && chunks[i].url != []
    ensures forall j :: 0 <= j < |Urls(chunks)| ==> ')' !in Urls(chunks)[j] && Urls(chunks)[j] != []
  {
    if chunks != [] {
      UrlsOfWellFormed(chunks[1..]);
    }
  }

  /** Every collected URL is non-empty and contains no `)`. */
  lemma ImagesWellFormed(s: string)
    ensures forall j :: 0 <= j < |Images(s)| ==> ')' !in Images(s)[j] && Images(s)[j] != []
  {
    ChunksWellFormed(s);
    UrlsOfWellFormed(Chunks(s));
  }

  /** A text without `![` holds no image: nothing is collected and nothing removed. */
  lemma {:induction false} NoImageMarkup(s: string)
    requires forall k :: 0 <= k < |s| - 1 ==> !(s[k] == '!' && s[k + 1] == '[')
    ensures Images(s) == [] && StripImages(s) == s
    decreases |s|
  {
    if s != [] {
      assert ImageAt(s) == None;
      NoImageMarkup(s[1..]);
      assert s == [s[0]] + s[1..];
    }
  }

  /** A content that is one image reference yields its URL and no text. */
  lemma SingleImage(alt: string, url: string)
    requires ']' !in alt && ')' !in url && url != []
    ensures Images(ImageSyntax(alt, url)) == [url]
    ensures StripImages(ImageSyntax(alt, url)) == ""
  {
    var s := ImageSyntax(alt, url);
    ImageAtComplete(alt, url, "");
    assert s + "" == s;
    assert |s| == |alt| + |url| + 5 && s[|s|..] == [];
    assert ImageAt(s) == Some(ImageMatch(alt, url, |s|));
    assert Chunks(s) == [Image(alt, url)] + Chunks([]) == [Image(alt, url)];
    assert [Image(alt, url)][1..] == [];
    assert Urls([Image(alt, url)]) == [url] + Urls([]);
    assert PlainText([Image(alt, url)]) == PlainText([]);
  }

  /** The `exec` loop of lines 11-16: `lastIndex` walks the content, each match
      pushes its URL and moves past the match. */
  method CollectImages(content: string) returns (images: seq<string>)
    ensures images == Images(content)
  {
    images := [];
    var pos := 0;
    while pos < |content|
      invariant pos <= |content|
      invariant images + Images(content[pos..]) == Images(content)
      decreases |content| - pos
    {
      var found := ImageAt(content[pos..]);
      if found.Some? {
        ImageStep(content, pos, images, found.value);
        images, pos := images + [found.value.url], pos + found.value.len;
      } else {
        PlainStep(content, pos, images);
        pos := pos + 1;
      }
    }
  }

  /** An image found at `pos`: its URL is collected and the scan resumes after it. */
  lemma ImageStep(s: string, pos: nat, images: seq<string>, m: ImageMatch)
    requires pos < |s| && ImageAt(s[pos..]) == Some(m)
    requires images + Images(s[pos..]) == Images(s)
    ensures pos + m.len <= |s|
    ensures (images + [m.url]) + Images(s[pos + m.len..]) == Images(s)
  {
    var rest := s[pos..];
    assert rest[m.len..] == s[pos + m.len..];
    Assoc(images, [m.url], Images(s[pos + m.len..]));
  }

  /** No image at `pos`: the scan moves one character on. */
  lemma PlainStep(s: string, pos: nat, images: seq<string>)
    requires pos < |s| && ImageAt(s[pos..]).None?
    requires images + Images(s[pos..]) == Images(s)
    ensures images + Images(s[pos + 1..]) == Images(s)
  {
    DropDrop(s, pos);
  }

  // ---------------------------------------------------------------------------
  // Where the image scan finds its matches

  /** The positions, from `p` on, at which the `exec` loop finds its matches: the
      first position where an image reference starts, then the first one after the
      end of that match, and so on. */
  function ImageStarts(s: string, p: nat): seq<nat>
    requires p <= |s|
    decreases |s| - p
  {
    if p == |s| then []
    else if ImageAt(s[p..]).Some? then [p] + ImageStarts(s, MatchEnd(s, p))
    else ImageStarts(s, p + 1)
  }

  /** Where the image reference starting at `q` ends. */
  function MatchEnd(s: string, q: nat): nat
    requires q <= |s| && ImageAt(s[q..]).Some?
  {
    q + ImageAt(s[q..]).value.len
  }

  /** `ImageStarts` unfolded once at a position where an image reference starts. */
  lemma StartsUnfoldImage(s: string, p: nat)
    requires p < |s| && ImageAt(s[p..]).Some?
    ensures ImageStarts(s, p) == [p] + ImageStarts(s, MatchEnd(s, p))
  {
  }

  /** `ImageStarts` unfolded once at a position where none starts. */
  lemma StartsUnfoldChar(s: string, p: nat)
    requires p < |s| && ImageAt(s[p..]).None?
    ensures ImageStarts(s, p) == ImageStarts(s, p + 1)
  {
  }

  /** No image reference starts in `[a, b)`. */
  predicate Clear(s: string, a: nat, b: nat) {
    forall k :: a <= k < b && k < |s| ==> ImageAt(s[k..]).None?
  }

  /** `st` lists, from `p` on, image references that do not overlap, and no image
      reference starts before the first of them, or between the end of one and the
      start of the next, or after the end of the last: the leftmost, non-overlapping
      matches of a global scan started at `p`. */
  predicate ScanFrom(s: string, p: nat, st: seq<nat>) {
    Found(s, p, st) && Apart(s, p, st) && Gaps(s, p, st)
  }

  /** Every position in `st` is at or after `p` and starts an image reference. */
  predicate Found(s: string, p: nat, st: seq<nat>) {
    && p <= |s|
    && forall i :: 0 <= i < |st| ==> p <= st[i] < |s| && ImageAt(s[st[i]..]).Some?
  }

  /** Each reference in `st` ends before the next one starts. */
  predicate Apart(s: string, p: nat, st: seq<nat>)
    requires Found(s, p, st)
  {
    forall i :: 0 <= i < |st| - 1 ==> MatchEnd(s, st[i]) <= st[i + 1]
  }

  /** No reference starts between `p` and the first of `st`, between the end of one
      and the start of the next, or after the end of the last. */
  predicate Gaps(s: string, p: nat, st: seq<nat>)
    requires Found(s, p, st)
  {
    && Clear(s, p, if st == [] then |s| else st[0])
    && forall i :: 0 <= i < |st| ==> Clear(s, MatchEnd(s, st[i]), if i + 1 < |st| then st[i + 1] else |s|)
  }

  /** `urls` are the URLs of the image references at the positions `st`. */
  predicate UrlsAt(s: string, urls: seq<string>, st: seq<nat>) {
    && |urls| == |st|
    && forall i :: 0 <= i < |st| ==> st[i] <= |s| && ImageAt(s[st[i]..]).Some? && urls[i] == ImageAt(s[st[i]..]).value.url
  }

  lemma {:induction false} ImageStartsSpec(s: string, p: nat)
    requires p <= |s|
    ensures ScanFrom(s, p, ImageStarts(s, p))
    decreases |s| - p
  {
    if p < |s| {
      if ImageAt(s[p..]).Some? {
        var e := MatchEnd(s, p);
        StartsUnfoldImage(s, p);
        ImageStartsSpec(s, e);
        StartsAtImage(s, p, ImageStarts(s, e));
      } else {
        StartsUnfoldChar(s, p);
        ImageStartsSpec(s, p + 1);
        StartsAtChar(s, p, ImageStarts(s, p + 1));
      }
    }
  }

  /** A match at `p` goes in front of the matches found after it. */
  lemma StartsAtImage(s: string, p: nat, st: seq<nat>)
    requires p < |s| && ImageAt(s[p..]).Some?
    requires ScanFrom(s, MatchEnd(s, p), st)
    ensures ScanFrom(s, p, [p] + st)
  {
    FoundCons(s, p, st);
    ApartCons(s, p, st);
    GapsCons(s, p, st);
  }

  lemma FoundCons(s: string, p: nat, st: seq<nat>)
    requires p < |s| && ImageAt(s[p..]).Some?
    requires Found(s, MatchEnd(s, p), st)
    ensures Found(s, p, [p] + st)
  {
    var all := [p] + st;
    forall i | 1 <= i < |all| ensures all[i] == st[i - 1] {
      ConsIndex(p, st, i);
    }
  }

  lemma ApartCons(s: string, p: nat, st: seq<nat>)
    requires p < |s| && ImageAt(s[p..]).Some?
    requires Found(s, MatchEnd(s, p), st) && Apart(s, MatchEnd(s, p), st)
    ensures Found(s, p, [p] + st) && Apart(s, p, [p] + st)
  {
    FoundCons(s, p, st);
    var all := [p] + st;
    forall i | 0 <= i < |all| - 1 ensures MatchEnd(s, all[i]) <= all[i + 1] {
      ConsIndex(p, st, i + 1);
      if i > 0 { ConsIndex(p, st, i); }
    }
  }

  lemma GapsCons(s: string, p: nat, st: seq<nat>)
    requires p < |s| && ImageAt(s[p..]).Some?
    requires Found(s, MatchEnd(s, p), st) && Gaps(s, MatchEnd(s, p), st)
    ensures Found(s, p, [p] + st) && Gaps(s, p, [p] + st)
  {
    FoundCons(s, p, st);
    var all := [p] + st;
    forall i | 0 <= i < |all|
      ensures Clear(s, MatchEnd(s, all[i]), if i + 1 < |all| then all[i + 1] else |s|)
    {
      var next := if i + 1 < |all| then all[i + 1] else |s|;
      if i == 0 {
        assert next == (if st == [] then |s| else st[0]);
      } else {
        ConsIndex(p, st, i);
        assert next == (if i < |st| then st[i] else |s|);
        assert Clear(s, MatchEnd(s, st[i - 1]), next);
      }
    }
  }

  /** No match at `p`: the scan from `p` finds what the scan from `p + 1` finds. */
  lemma StartsAtChar(s: string, p: nat, st: seq<nat>)
    requires p < |s| && ImageAt(s[p..]).None?
    requires ScanFrom(s, p + 1, st)
    ensures ScanFrom(s, p, st)
  {
  }

  /** The scan unfolded once at a position `p` where an image reference starts. */
  lemma ImagesAtImage(s: string, p: nat)
    requires p < |s| && ImageAt(s[p..]).Some?
    ensures Images(s[p..]) == [ImageAt(s[p..]).value.url] + Images(s[MatchEnd(s, p)..])
    ensures StripImages(s[p..]) == StripImages(s[MatchEnd(s, p)..])
  {
    assert s[p..][ImageAt(s[p..]).value.len..] == s[MatchEnd(s, p)..];
  }

  /** The scan unfolded once at a position `p` where no image reference starts. */
  lemma ImagesAtChar(s: string, p: nat)
    requires p < |s| && ImageAt(s[p..]).None?
    ensures Images(s[p..]) == Images(s[p + 1..])
    ensures StripImages(s[p..]) == [s[p]] + StripImages(s[p + 1..])
  {
    DropDrop(s, p);
  }

  /** The URLs the scan from `p` collects are those at the positions it finds. */
  lemma {:induction false} ImagesAtStarts(s: string, p: nat)
    requires p <= |s|
    ensures UrlsAt(s, Images(s[p..]), ImageStarts(s, p))
    decreases |s| - p
  {
    if p < |s| {
      if ImageAt(s[p..]).Some? {
        var e := MatchEnd(s, p);
        StartsUnfoldImage(s, p);
        ImagesAtImage(s, p);
        ImagesAtStarts(s, e);
        UrlsCons(s, p, Images(s[e..]), ImageStarts(s, e));
      } else {
        StartsUnfoldChar(s, p);
        ImagesAtChar(s, p);
        ImagesAtStarts(s, p + 1);
      }
    }
  }

  lemma UrlsCons(s: string, p: nat, urls: seq<string>, st: seq<nat>)
    requires p < |s| && ImageAt(s[p..]).Some?
    requires UrlsAt(s, urls, st)
    ensures UrlsAt(s, [ImageAt(s[p..]).value.url] + urls, [p] + st)
  {
    var all, found := [p] + st, [ImageAt(s[p..]).value.url] + urls;
    forall i | 1 <= i < |all| ensures all[i] == st[i - 1] && found[i] == urls[i - 1] {
      ConsIndex(p, st, i);
      ConsIndex(ImageAt(s[p..]).value.url, urls, i);
    }
  }

  /** A stretch in which no image reference starts is kept as it is and adds no URL. */
  lemma {:induction false} ClearPrefix(s: string, p: nat, q: nat)
    requires p <= q <= |s| && Clear(s, p, q)
    ensures Images(s[p..]) == Images(s[q..])
    ensures StripImages(s[p..]) == s[p..q] + StripImages(s[q..])
    decreases q - p
  {
    if p < q {
      ImagesAtChar(s, p);
      ClearPrefix(s, p + 1, q);
      assert s[p..q] == [s[p]] + s[p + 1..q];
      Assoc([s[p]], s[p + 1..q], StripImages(s[q..]));
    }
  }

  /** The image scan of lines 11-18, by position. The matches it finds are the
      leftmost non-overlapping image references, and no reference starts anywhere
      else outside them. The URL list holds their URLs in order, and is empty exactly
      when no image reference starts anywhere in the content. The text is kept up to
      the first match, and the rest after that match is stripped in the same way; a
      content with no match is kept whole. */
  lemma ImagesSpec(s: string)
    ensures ScanFrom(s, 0, ImageStarts(s, 0))
    ensures UrlsAt(s, Images(s), ImageStarts(s, 0))
    ensures Images(s) == [] <==> Clear(s, 0, |s|)
    ensures ImageStarts(s, 0) == [] ==> StripImages(s) == s
    ensures ImageStarts(s, 0) != [] ==>
      StripImages(s) == s[..ImageStarts(s, 0)[0]] + StripImages(s[MatchEnd(s, ImageStarts(s, 0)[0])..])
  {
    var st := ImageStarts(s, 0);
    assert s[0..] == s;
    ImageStartsSpec(s, 0);
    ImagesAtStarts(s, 0);
    if st == [] {
      ClearPrefix(s, 0, |s|);
      assert s[|s|..] == [];
    } else {
      assert !Clear(s, 0, |s|) by { assert ImageAt(s[st[0]..]).Some?; }
      ClearPrefix(s, 0, st[0]);
      ImagesAtImage(s, st[0]);
    }
  }

  /** A reference after a text in which none starts is found: `x![a](b)` yields `b`
      and keeps `x`. */
  lemma ImageAfterText(t: string, alt: string, url: string)
    requires ']' !in alt && ')' !in url && url != []
    requires Clear(t + ImageSyntax(alt, url), 0, |t|)
    ensures Images(t + ImageSyntax(alt, url)) == [url]
    ensures StripImages(t + ImageSyntax(alt, url)) == t
  {
    var s := t + ImageSyntax(alt, url);
    assert s[0..] == s && s[|t|..] == ImageSyntax(alt, url) && s[0..|t|] == t;
    ClearPrefix(s, 0, |t|);
    SingleImage(alt, url);
  }

  /** `x![a](b)` yields `b` and keeps `x`. */
  lemma ImageAfterChar()
    ensures Images("x![a](b)") == ["b"] && StripImages("x![a](b)") == "x"
  {
    assert ImageSyntax("a", "b") == "![a](b)";
    assert "x![a](b)" == "x" + ImageSyntax("a", "b");
    assert ImageAt("x![a](b)"[0..]).None?;
    ImageAfterText("x", "a", "b");
  }

  // ===========================================================================
  // Tags: `#[\w一-龥]+(?:\/[\w一-龥]+)*`

  /** `[\w一-龥]`: a character a tag segment is made of. */
  predicate IsTagChar(c: char) { IsWordChar(c) || IsCjk(c) }

  /** The language `[\w一-龥]+(?:\/[\w一-龥]+)*`: non-empty runs of tag characters
      separated by single slashes. */
  predicate IsTagPath(p: string) {
    && |p| > 0 && IsTagChar(p[0]) && IsTagChar(p[|p| - 1])
    && (forall k :: 0 <= k < |p| ==> IsTagChar(p[k]) || p[k] == '/')
    && (forall k :: 0 <= k < |p| - 1 && p[k] == '/' ==> p[k + 1] != '/')
  }

  /** The language of the tag expression: `#` followed by a tag path. */
  predicate IsTagToken(t: string) { |t| > 0 && t[0] == '#' && IsTagPath(t[1..]) }

  /** The greedy match of `[\w一-龥]+(?:\/[\w一-龥]+)*` at the start of `s`: a maximal
      run of tag characters, then, as long as a `/` is followed by a tag character,
      that slash and the next maximal run; 0 when `s` does not start with a tag
      character. */
  function PathLen(s: string): (n: nat)
    ensures n <= |s|
    ensures n == 0 <==> s == [] || !IsTagChar(s[0])
    decreases |s|
  {
    var r := Span(s, IsTagChar);
    if r == 0 then 0
    else if r + 1 < |s| && s[r] == '/' && IsTagChar(s[r + 1]) then r + 1 + PathLen(s[r + 1..])
    else r
  }

  /** Where a greedy tag path of length `n` stops in `s`: at the end, or before a
      character that is neither a tag character nor a slash followed by one. */
  predicate StopsAt(s: string, n: nat)
    requires n <= |s|
  {
    n < |s| ==> !IsTagChar(s[n]) && (s[n] == '/' ==> n + 1 == |s| || !IsTagChar(s[n + 1]))
  }

  lemma {:induction false} PathLenSpec(s: string)
    ensures PathLen(s) > 0 ==> IsTagPath(s[..PathLen(s)]) && StopsAt(s, PathLen(s))
    decreases |s|
  {
    var r := Span(s, IsTagChar);
    if 0 < r && r + 1 < |s| && s[r] == '/' && IsTagChar(s[r + 1]) {
      PathLenSpec(s[r + 1..]);
      PathSlash(s, r);
    } else {
      PathNoSlash(s, r);
    }
  }

  /** `PathLen` when the first run is followed by a slash and a tag character. */
  lemma PathSlash(s: string, r: nat)
    requires r == Span(s, IsTagChar)
    requires 0 < r && r + 1 < |s| && s[r] == '/' && IsTagChar(s[r + 1])
    requires PathLen(s[r + 1..]) > 0 ==>
      IsTagPath(s[r + 1..][..PathLen(s[r + 1..])]) && StopsAt(s[r + 1..], PathLen(s[r + 1..]))
    ensures PathLen(s) > 0 ==> IsTagPath(s[..PathLen(s)]) && StopsAt(s, PathLen(s))
  {
    var m := PathLen(s[r + 1..]);
    assert s[r + 1..][0] == s[r + 1];
    assert PathLen(s) == r + 1 + m;
    SpanSpec(s, IsTagChar);
    PathExtend(s, r, m, PathLen(s));
  }

  /** `PathLen` when the first run is all there is. */
  lemma PathNoSlash(s: string, r: nat)
    requires r == Span(s, IsTagChar)
    requires !(0 < r && r + 1 < |s| && s[r] == '/' && IsTagChar(s[r + 1]))
    ensures PathLen(s) > 0 ==> IsTagPath(s[..PathLen(s)]) && StopsAt(s, PathLen(s))
  {
    if r > 0 {
      SpanSpec(s, IsTagChar);
      PathRun(s, PathLen(s));
    }
  }

  /** The base step of `PathLen`: a maximal run not followed by a slash and a tag character. */
  lemma PathRun(s: string, r: nat)
    requires 0 < r <= |s| && forall k :: 0 <= k < r ==> IsTagChar(s[k])
    requires r < |s| ==> !IsTagChar(s[r])
    requires !(r + 1 < |s| && s[r] == '/' && IsTagChar(s[r + 1]))
    ensures IsTagPath(s[..r]) && StopsAt(s, r)
  {
    assert forall k :: 0 <= k < r ==> s[..r][k] == s[k];
  }

  /** The recursive step of `PathLen`: a run, a slash and the greedy path after it. */
  lemma PathExtend(s: string, r: nat, m: nat, n: nat)
    requires 0 < r && r + 1 < |s| && s[r] == '/'
    requires forall k :: 0 <= k < r ==> IsTagChar(s[k])
    requires 0 < m <= |s| - r - 1 && IsTagPath(s[r + 1..][..m]) && StopsAt(s[r + 1..], m)
    requires n == r + 1 + m
    ensures IsTagPath(s[..n]) && StopsAt(s, n)
  {
    var t := s[r + 1..];
    assert s[..n] == s[..r] + "/" + t[..m];
    assert forall k :: 0 <= k < r ==> s[..r][k] == s[k];
    TagPathJoin(s[..r], t[..m]);
    assert n < |s| ==> s[n] == t[m] && (n + 1 < |s| ==> s[n + 1] == t[m + 1]);
  }

  /** A run of tag characters, a slash and a tag path make a tag path. */
  lemma TagPathJoin(a: string, q: string)
    requires |a| > 0 && All(a, IsTagChar) && IsTagPath(q)
    ensures IsTagPath(a + "/" + q)
  {
    var p := a + "/" + q;
    assert forall k :: |a| < k < |p| ==> p[k] == q[k - |a| - 1];
  }

  /** No longer prefix than the greedy match is a tag path. */
  lemma PathMaximal(s: string, m: nat)
    requires 0 < PathLen(s) < m <= |s|
    ensures !IsTagPath(s[..m])
  {
    PathLenSpec(s);
    var n := PathLen(s);
    assert StopsAt(s, n);
    BrokenPath(s[..m], n);
  }

  /** A string with a character at `n` that neither continues a segment nor starts a
      new one is no tag path. */
  lemma BrokenPath(p: string, n: nat)
    requires n < |p| && !IsTagChar(p[n])
    requires p[n] == '/' ==> n + 1 == |p| || !IsTagChar(p[n + 1])
    ensures !IsTagPath(p)
  {
    if p[n] == '/' && n + 1 < |p| && p[n + 1] != '/' {
      assert !(IsTagChar(p[n + 1]) || p[n + 1] == '/');
    }
  }

  /** The tag expression anchored at the start of `s`: the length of its match. */
  function TagAt(s: string): (r: Option<nat>)
    ensures r.Some? ==> 2 <= r.value <= |s|
  {
    if |s| >= 2 && s[0] == '#' && IsTagChar(s[1]) then Some(1 + PathLen(s[1..])) else None
  }

  /** A tag token starts at `s` exactly when `TagAt` finds one, and `TagAt` then
      takes the longest: its match is a tag token and no longer prefix is. */
  lemma TagAtSpec(s: string)
    ensures TagAt(s).Some? ==> IsTagToken(s[..TagAt(s).value])
    ensures TagAt(s).Some? ==> forall m :: TagAt(s).value < m <= |s| ==> !IsTagToken(s[..m])
    ensures TagAt(s).None? ==> forall m :: 0 < m <= |s| ==> !IsTagToken(s[..m])
  {
    TagAtToken(s);
    if TagAt(s).Some? {
      forall m | TagAt(s).value < m <= |s| ensures !IsTagToken(s[..m]) {
        TagAtLongest(s, m);
      }
    } else {
      forall m | 0 < m <= |s| ensures !IsTagToken(s[..m]) {
        TagAtNone(s, m);
      }
    }
  }

  lemma TagAtLongest(s: string, m: nat)
    requires TagAt(s).Some? && TagAt(s).value < m <= |s|
    ensures !IsTagToken(s[..m])
  {
    assert s[..m][1..] == s[1..][..m - 1];
    PathMaximal(s[1..], m - 1);
  }

  lemma TagAtNone(s: string, m: nat)
    requires TagAt(s).None? && 0 < m <= |s|
    ensures !IsTagToken(s[..m])
  {
    if m > 1 {
      assert s[..m][1..][0] == s[1];
    }
  }

  /** What `TagAt` matches is a tag token. */
  lemma TagAtToken(s: string)
    ensures TagAt(s).Some? ==> IsTagToken(s[..TagAt(s).value])
  {
    if TagAt(s).Some? {
      PathLenSpec(s[1..]);
      assert s[..TagAt(s).value][1..] == s[1..][..TagAt(s).value - 1];
    }
  }

  // ---------------------------------------------------------------------------
  // Rendering: `textContent.split(tagRegex)` and the per-part test

  /** `text.split(tagRegex)` with the tag expression in a capturing group: the text
      before the first tag, the tag, the text after it, ..., the text after the last
      tag. `pending` is the text scanned since the last tag. */
  function SplitFrom(s: string, pending: string): seq<string>
    decreases |s|
  {
    if s == [] then [pending]
    else match TagAt(s)
      case Some(n) => [pending, s[..n]] + SplitFrom(s[n..], "")
      case None => SplitFrom(s[1..], pending + [s[0]])
  }

  /** The parts that line 23 maps over. */
  function TagSplit(text: string): seq<string> { SplitFrom(text, "") }

  lemma {:induction false} SplitFromConcat(s: string, pending: string)
    ensures Flatten(SplitFrom(s, pending)) == pending + s
    decreases |s|
  {
    if s == [] {
      assert Flatten([pending]) == pending + Flatten([pending][1..]);
    } else if TagAt(s).Some? {
      var n := TagAt(s).value;
      SplitFromConcat(s[n..], "");
      ConcatAtTag(s, pending, n);
    } else {
      SplitFromConcat(s[1..], pending + [s[0]]);
      ConcatAtText(s, pending);
    }
  }

  lemma ConcatAtTag(s: string, pending: string, n: nat)
    requires TagAt(s) == Some(n)
    requires Flatten(SplitFrom(s[n..], "")) == "" + s[n..]
    ensures Flatten(SplitFrom(s, pending)) == pending + s
  {
    FlattenPair(pending, s[..n], SplitFrom(s[n..], ""));
    assert "" + s[n..] == s[n..];
    TakeDrop(s, n);
  }

  lemma ConcatAtText(s: string, pending: string)
    requires s != [] && TagAt(s).None?
    requires Flatten(SplitFrom(s[1..], pending + [s[0]])) == (pending + [s[0]]) + s[1..]
    ensures Flatten(SplitFrom(s, pending)) == pending + s
  {
    MoveHead(pending, s);
  }

  lemma FlattenPair(a: string, b: string, q: seq<string>)
    ensures Flatten([a, b] + q) == a + (b + Flatten(q))
  {
    var parts := [a, b] + q;
    assert parts[1..] == [b] + q && ([b] + q)[1..] == q;
  }

  /** Concatenating the parts gives back the text. */
  lemma TagSplitConcat(text: string)
    ensures Flatten(TagSplit(text)) == text
  {
    SplitFromConcat(text, "");
  }

  /** A pending text run whose first position did not start a tag is no tag token. */
  lemma PendingNotTag(pending: string, s: string)
    requires pending != [] && TagAt(pending + s).None?
    ensures !IsTagToken(pending)
  {
    assert (pending + s)[0] == pending[0];
    assert |pending| >= 2 ==> (pending + s)[1] == pending[1] && pending[1..][0] == pending[1];
  }

  /** Text, tag, text, ..., tag, text: an odd number of parts, starting and ending
      with a part that is not a tag token, tag tokens and non-tags taking turns. */
  predicate Alternates(parts: seq<string>)
    decreases |parts|
  {
    && |parts| % 2 == 1 && !IsTagToken(parts[0])
    && (|parts| > 1 ==> IsTagToken(parts[1]) && Alternates(parts[2..]))
  }

  lemma {:induction false} SplitFromAlternates(s: string, pending: string)
    requires pending == [] || TagAt(pending + s).None?
    ensures Alternates(SplitFrom(s, pending))
    decreases |s|
  {
    if s == [] {
      if pending != [] { PendingNotTag(pending, s); }
    } else if TagAt(s).Some? {
      var n := TagAt(s).value;
      SplitFromAlternates(s[n..], "");
      AlternatesAtTag(s, pending, n);
    } else {
      PendingGrows(s, pending);
      SplitFromAlternates(s[1..], pending + [s[0]]);
      SplitFromText(s, pending);
    }
  }

  /** A tag found after a pending text that starts no tag: a non-tag and a tag are put
      in front of the alternating parts of the rest. */
  lemma AlternatesAtTag(s: string, pending: string, n: nat)
    requires TagAt(s) == Some(n)
    requires pending == [] || TagAt(pending + s).None?
    requires Alternates(SplitFrom(s[n..], ""))
    ensures Alternates(SplitFrom(s, pending))
  {
    if pending != [] { PendingNotTag(pending, s); }
    TagAtToken(s);
    AlternatesPrepend(pending, s[..n], SplitFrom(s[n..], ""));
  }

  lemma AlternatesPrepend(text: string, tag: string, parts: seq<string>)
    requires !IsTagToken(text) && IsTagToken(tag) && Alternates(parts)
    ensures Alternates([text, tag] + parts)
  {
    assert ([text, tag] + parts)[2..] == parts;
  }

  /** Moving a character into the pending text keeps it a text that starts no tag. */
  lemma PendingGrows(s: string, pending: string)
    requires s != [] && TagAt(s).None?
    requires pending == [] || TagAt(pending + s).None?
    ensures TagAt((pending + [s[0]]) + s[1..]).None?
  {
    MoveHead(pending, s);
    if pending == [] {
      assert pending + s == s;
    }
  }

  /** Away from a tag, the scan moves one character into the pending text. */
  lemma SplitFromText(s: string, pending: string)
    requires s != [] && TagAt(s).None?
    ensures SplitFrom(s, pending) == SplitFrom(s[1..], pending + [s[0]])
  {
  }

  /** Alternating parts, position by position: the odd-indexed parts are exactly the
      tag tokens. */
  lemma {:induction false} AlternatesSpec(parts: seq<string>)
    requires Alternates(parts)
    ensures |parts| % 2 == 1
    ensures forall i :: 0 <= i < |parts| ==> (IsTagToken(parts[i]) <==> i % 2 == 1)
    decreases |parts|
  {
    if |parts| > 1 {
      var q := parts[2..];
      AlternatesSpec(q);
      forall i | 2 <= i < |parts| ensures parts[i] == q[i - 2] && (i % 2 == 1 <==> (i - 2) % 2 == 1) {
      }
    }
  }

  /** Nothing that follows a tag part could have extended it: `tag` is the longest
      tag-token prefix of `tag + rest`. */
  predicate MaximalIn(tag: string, rest: string) {
    forall m :: |tag| < m <= |tag| + |rest| ==> !IsTagToken((tag + rest)[..m])
  }

  lemma {:induction false} SplitFromMaximal(s: string, pending: string)
    ensures forall i :: 0 <= i < |SplitFrom(s, pending)| - 1 && i % 2 == 1 ==>
      MaximalIn(SplitFrom(s, pending)[i], Flatten(SplitFrom(s, pending)[i + 1..]))
    decreases |s|
  {
    if s != [] {
      match TagAt(s)
      case Some(n) =>
        var q := SplitFrom(s[n..], "");
        SplitFromMaximal(s[n..], "");
        SplitFromConcat(s[n..], "");
        TagAtSpec(s);
        var parts := [pending, s[..n]] + q;
        assert parts[2..] == q;
        assert s[..n] + s[n..] == s;
        forall i | 0 <= i < |parts| - 1 && i % 2 == 1
          ensures MaximalIn(parts[i], Flatten(parts[i + 1..]))
        {
          if i == 1 {
            assert parts[i] == s[..n] && Flatten(parts[i + 1..]) == s[n..];
          } else {
            assert parts[i] == q[i - 2] && parts[i + 1..] == q[i - 1..];
          }
        }
      case None =>
        SplitFromMaximal(s[1..], pending + [s[0]]);
    }
  }

  /** The split of line 23: the parts spell the text, there is an odd number of them,
      exactly the odd-indexed ones are tag tokens, each tag part is the longest tag
      token at its position (`#a/b-c` gives `#a/b` and then `-c`), and no text part
      holds a `#` directly followed by a tag character, so no tag is missed. */
  lemma TagSplitSpec(text: string)
    ensures Flatten(TagSplit(text)) == text
    ensures |TagSplit(text)| % 2 == 1
    ensures forall i :: 0 <= i < |TagSplit(text)| ==> (IsTagToken(TagSplit(text)[i]) <==> i % 2 == 1)
    ensures forall i :: 0 <= i < |TagSplit(text)| - 1 && i % 2 == 1 ==>
      MaximalIn(TagSplit(text)[i], Flatten(TagSplit(text)[i + 1..]))
    ensures forall i :: 0 <= i < |TagSplit(text)| && i % 2 == 0 ==> NoTagStart(TagSplit(text)[i])
  {
    SplitFromTextParts(text, "");
    SplitFromConcat(text, "");
    SplitFromAlternates(text, "");
    AlternatesSpec(TagSplit(text));
    SplitFromMaximal(text, "");
  }

  /** No `#` in `t` is directly followed by a tag character: no tag starts in `t`. */
  predicate NoTagStart(t: string) {
    forall k :: 0 <= k < |t| - 1 ==> !(t[k] == '#' && IsTagChar(t[k + 1]))
  }

  /** Every even-indexed part of a split, the text between tags, holds no tag start. */
  predicate TextPartsClean(parts: seq<string>) {
    forall i :: 0 <= i < |parts| && i % 2 == 0 ==> NoTagStart(parts[i])
  }

  /** The text the split accumulates in `pending` never holds a tag start, not even
      across its end: every `#` followed by a tag character begins a tag part. */
  lemma {:induction false} SplitFromTextParts(s: string, pending: string)
    requires NoTagStart(pending)
    requires pending != [] && s != [] ==> !(pending[|pending| - 1] == '#' && IsTagChar(s[0]))
    ensures TextPartsClean(SplitFrom(s, pending))
    decreases |s|
  {
    if s != [] {
      match TagAt(s)
      case Some(n) =>
        SplitFromTextParts(s[n..], "");
        TextPartsCons(pending, s[..n], SplitFrom(s[n..], ""));
      case None =>
        PendingClean(pending, s);
        SplitFromTextParts(s[1..], pending + [s[0]]);
    }
  }

  lemma TextPartsCons(a: string, b: string, rest: seq<string>)
    requires NoTagStart(a) && TextPartsClean(rest)
    ensures TextPartsClean([a, b] + rest)
  {
    var all := [a, b] + rest;
    forall i | 2 <= i < |all| ensures all[i] == rest[i - 2] { }
  }

  /** A character the split moves into `pending`, because no tag starts at it, keeps
      `pending` free of tag starts. */
  lemma PendingClean(pending: string, s: string)
    requires s != [] && TagAt(s).None?
    requires NoTagStart(pending)
    requires pending != [] ==> !(pending[|pending| - 1] == '#' && IsTagChar(s[0]))
    ensures NoTagStart(pending + [s[0]])
    ensures |s| > 1 ==> !(s[0] == '#' && IsTagChar(s[1]))
  {
    var t := pending + [s[0]];
    forall k | 0 <= k < |t| - 1 ensures !(t[k] == '#' && IsTagChar(t[k + 1])) {
      if k + 1 < |pending| {
        assert t[k] == pending[k] && t[k + 1] == pending[k + 1];
      } else {
        assert t[k] == pending[|pending| - 1] && t[k + 1] == s[0];
      }
    }
  }

  /** `matchAll` finds no tag exactly when no `#` is directly followed by a tag
      character. */
  lemma {:induction false} TokensEmpty(s: string)
    ensures Tokens(s) == [] <==> NoTagStart(s)
    decreases |s|
  {
    if s != [] {
      if TagAt(s).Some? {
        assert !NoTagStart(s) by { assert s[0] == '#' && IsTagChar(s[1]); }
      } else {
        TokensEmpty(s[1..]);
        NoTagStartTail(s);
      }
    }
  }

  lemma NoTagStartTail(s: string)
    requires s != [] && TagAt(s).None?
    ensures NoTagStart(s) <==> NoTagStart(s[1..])
  {
    var t := s[1..];
    if NoTagStart(t) {
      forall k | 0 <= k < |s| - 1 ensures !(s[k] == '#' && IsTagChar(s[k + 1])) {
        if k > 0 { assert s[k] == t[k - 1] && s[k + 1] == t[k]; }
      }
    }
    if NoTagStart(s) {
      forall k | 0 <= k < |t| - 1 ensures !(t[k] == '#' && IsTagChar(t[k + 1])) {
        assert t[k] == s[k + 1] && t[k + 1] == s[k + 2];
      }
    }
  }

  /** The test of line 24, `/^#...$/.test(part)`: the tag expression matches the
      whole part. */
  predicate FullTagTest(part: string) { TagAt(part) == Some(|part|) }

  /** The anchored test accepts exactly the tag tokens. */
  lemma FullTagTestIff(part: string)
    ensures FullTagTest(part) <==> IsTagToken(part)
  {
    TagAtSpec(part);
    assert part[..|part|] == part;
  }

  /** A rendered part: a tag button or a plain span. */
  datatype Segment = TextRun(text: string) | TagButton(raw: string)

  /** The `map` of lines 23-40. */
  function Classify(parts: seq<string>): seq<Segment> {
    if parts == [] then []
    else [if FullTagTest(parts[0]) then TagButton(parts[0]) else TextRun(parts[0])] + Classify(parts[1..])
  }

  /** The text a rendered segment shows. */
  function Shown(segs: seq<Segment>): string {
    if segs == [] then []
    else (match segs[0] case TextRun(t) => t case TagButton(raw) => raw) + Shown(segs[1..])
  }

  /** The spans and buttons rendered for the image-stripped text. */
  function Segments(text: string): seq<Segment> { Classify(TagSplit(text)) }

  lemma {:induction false} ClassifySpec(parts: seq<string>)
    ensures |Classify(parts)| == |parts|
    ensures Shown(Classify(parts)) == Flatten(parts)
    ensures forall i :: 0 <= i < |parts| ==>
      Classify(parts)[i] == (if IsTagToken(parts[i]) then TagButton(parts[i]) else TextRun(parts[i]))
  {
    if parts != [] {
      ClassifySpec(parts[1..]);
      FullTagTestIff(parts[0]);
      var c := Classify(parts);
      assert forall i :: 1 <= i < |parts| ==> c[i] == Classify(parts[1..])[i - 1] && parts[i] == parts[1..][i - 1];
    }
  }

  /** The rendered segments show the image-stripped text exactly, alternate span,
      button, span, ..., every button carries a whole tag token, and no span holds
      a `#` directly followed by a tag character. */
  lemma SegmentsSpec(text: string)
    ensures Shown(Segments(text)) == text
    ensures |Segments(text)| % 2 == 1
    ensures forall i :: 0 <= i < |Segments(text)| ==>
      (Segments(text)[i].TagButton? <==> i % 2 == 1)
    ensures forall i :: 0 <= i < |Segments(text)| && Segments(text)[i].TagButton? ==>
      IsTagToken(Segments(text)[i].raw)
    ensures forall i :: 0 <= i < |Segments(text)| && Segments(text)[i].TextRun? ==>
      NoTagStart(Segments(text)[i].text)
  {
    TagSplitSpec(text);
    ClassifySpec(TagSplit(text));
  }

  // ---------------------------------------------------------------------------
  // Clicking a tag button

  /** The calls that clicking a tag button makes: `part.slice(1).split("/")`, one
      call per piece in order, and none when no callback was given
      (`onTagClick && onTagClick(t)`). */
  function ClickEvents(raw: string, hasCallback: bool): seq<string> {
    if hasCallback then Split(Slice1(raw), '/') else []
  }

  /** The pieces of a string of tag characters and single slashes that does not end
      in a slash: every piece after the first is non-empty, and so is the first when
      the string does not start with a slash. */
  lemma {:induction false} SplitPathPieces(p: string)
    requires forall k :: 0 <= k < |p| ==> IsTagChar(p[k]) || p[k] == '/'
    requires forall k :: 0 <= k < |p| - 1 && p[k] == '/' ==> p[k + 1] != '/'
    requires |p| > 0 ==> p[|p| - 1] != '/'
    ensures forall i :: 1 <= i < |Split(p, '/')| ==> Split(p, '/')[i] != []
    ensures |p| > 0 && p[0] != '/' ==> Split(p, '/')[0] != []
  {
    if p != [] {
      var t := p[1..];
      assert forall k :: 0 <= k < |t| ==> t[k] == p[k + 1];
      SplitPathPieces(t);
      if p[0] == '/' {
        assert t != [] && t[0] != '/';
      }
    }
  }

  /** A tag button reports the segments of its path, in order: each is a non-empty
      run of tag characters, and joined by `/` they give the path back. */
  lemma ClickEventsSpec(raw: string)
    requires IsTagToken(raw)
    ensures Join(ClickEvents(raw, true), '/') == raw[1..]
    ensures forall i :: 0 <= i < |ClickEvents(raw, true)| ==>
      ClickEvents(raw, true)[i] != [] && All(ClickEvents(raw, true)[i], IsTagChar)
  {
    var path := raw[1..];
    var ev := Split(path, '/');
    JoinSplit(path, '/');
    SplitPathPieces(path);
    SplitPieces(path, '/');
    forall i | 0 <= i < |ev| ensures All(ev[i], IsTagChar) {
      forall k | 0 <= k < |ev[i]| ensures IsTagChar(ev[i][k]) {
        var c := ev[i][k];
        assert c in ev[i] && c in path && c != '/';
        var j :| 0 <= j < |path| && path[j] == c;
      }
    }
  }

  /** Clicking `#foo/bar` reports `foo`, then `bar`. */
  lemma ClickNestedTag()
    ensures ClickEvents("#foo/bar", true) == ["foo", "bar"]
  {
    assert Slice1("#foo/bar") == "foo/bar" == "foo" + ['/'] + "bar";
    SplitAfterPiece("foo", '/', "bar");
    SplitNoSep("bar", '/');
  }

  /** Clicking `#生活/杂谈` reports `生活`, then `杂谈`. */
  lemma ClickCjkTag()
    ensures ClickEvents("#生活/杂谈", true) == ["生活", "杂谈"]
  {
    assert Slice1("#生活/杂谈") == "生活/杂谈" == "生活" + ['/'] + "杂谈";
    SplitAfterPiece("生活", '/', "杂谈");
    SplitNoSep("杂谈", '/');
  }

  // ---------------------------------------------------------------------------
  // extractTags

  /** The matches of `content.matchAll(tagRegex)`, each a whole `#...` token. */
  function Tokens(s: string): seq<string>
    decreases |s|
  {
    if s == [] then []
    else match TagAt(s)
      case Some(n) => [s[..n]] + Tokens(s[n..])
      case None => Tokens(s[1..])
  }

  /** The odd-indexed parts of a split: its tags. */
  function OddParts(parts: seq<string>): seq<string> {
    if |parts| < 2 then [] else [parts[1]] + OddParts(parts[2..])
  }

  lemma {:induction false} SplitFromTokens(s: string, pending: string)
    ensures OddParts(SplitFrom(s, pending)) == Tokens(s)
    decreases |s|
  {
    if s != [] {
      match TagAt(s)
      case Some(n) =>
        SplitFromTokens(s[n..], "");
        assert ([pending, s[..n]] + SplitFrom(s[n..], ""))[2..] == SplitFrom(s[n..], "");
      case None =>
        SplitFromTokens(s[1..], pending + [s[0]]);
    }
  }

  /** On one and the same string, `matchAll` finds exactly the tag parts of the
      render split, in the same order. */
  lemma TokensAreTagParts(s: string)
    ensures Tokens(s) == OddParts(TagSplit(s))
  {
    SplitFromTokens(s, "");
  }

  /** `extractTags` scans the raw content and the render scans the image-stripped
      text; for a content without image references the two see the same string, and
      the matches are exactly the tag buttons shown, in order. */
  lemma TagsMatchButtons(content: string)
    requires Images(content) == []
    ensures StripImages(content) == content
    ensures Tokens(content) == OddParts(TagSplit(StripImages(content)))
  {
    ImagesSpec(content);
    TokensAreTagParts(content);
  }

  /** What `extractTags` adds for one match: capture group 1 (the match without `#`),
      `.slice(1)` of that, split on `/`. */
  function TokenPieces(token: string): seq<string> {
    Split(Slice1(Slice1(token)), '/')
  }

  function ExtractPieces(tokens: seq<string>): seq<string> {
    if tokens == [] then [] else TokenPieces(tokens[0]) + ExtractPieces(tokens[1..])
  }

  /** The result of `extractTags(content)`. */
  function ExtractedTags(content: string): seq<string> {
    Dedup(ExtractPieces(Tokens(content)))
  }

  /** `extractTags`: the `forEach` over the matches and, inside, over the pieces,
      adding each to a `Set` read back in insertion order. */
  method ExtractTags(content: string) returns (tags: seq<string>)
    ensures tags == ExtractedTags(content)
  {
    var matches := Tokens(content);
    tags := [];
    ghost var seen: seq<string> := [];
    for i := 0 to |matches|
      invariant seen + ExtractPieces(matches[i..]) == ExtractPieces(matches)
      invariant tags == Dedup(seen)
    {
      var tag := Slice1(matches[i]);
      var parts := Split(Slice1(tag), '/');
      ExtractStep(matches, i, seen);
      tags := AddEach(tags, parts, seen);
      seen := seen + parts;
    }
    ExtractEnd(matches, seen);
  }

  /** The pieces of match `i` are the next ones the set receives. */
  lemma ExtractStep(tokens: seq<string>, i: nat, seen: seq<string>)
    requires i < |tokens|
    requires seen + ExtractPieces(tokens[i..]) == ExtractPieces(tokens)
    ensures (seen + Split(Slice1(Slice1(tokens[i])), '/')) + ExtractPieces(tokens[i + 1..]) == ExtractPieces(tokens)
  {
    DropDrop(tokens, i);
    Assoc(seen, TokenPieces(tokens[i]), ExtractPieces(tokens[i + 1..]));
  }

  lemma ExtractEnd(tokens: seq<string>, seen: seq<string>)
    requires seen + ExtractPieces(tokens[|tokens|..]) == ExtractPieces(tokens)
    ensures seen == ExtractPieces(tokens)
  {
    assert tokens[|tokens|..] == [];
  }

  lemma {:induction false} ExtractPiecesIn(tokens: seq<string>, x: string)
    ensures x in ExtractPieces(tokens) <==> exists i :: 0 <= i < |tokens| && x in TokenPieces(tokens[i])
  {
    if tokens != [] {
      ExtractPiecesIn(tokens[1..], x);
      if x in TokenPieces(tokens[0]) {
      } else if x in ExtractPieces(tokens[1..]) {
        var i :| 0 <= i < |tokens| - 1 && x in TokenPieces(tokens[1..][i]);
        assert x in TokenPieces(tokens[i + 1]);
      } else {
        forall i | 0 <= i < |tokens| ensures x !in TokenPieces(tokens[i]) {
          if i > 0 { assert tokens[i] == tokens[1..][i - 1]; }
        }
      }
    }
  }

  lemma {:induction false} ExtractPiecesEmpty(tokens: seq<string>)
    ensures ExtractPieces(tokens) == [] <==> tokens == []
  {
    if tokens != [] {
      assert |TokenPieces(tokens[0])| >= 1;
    }
  }

  /** `extractTags` returns each piece once, exactly the pieces of the matched tags,
      ordered by where each first appears among them; it is empty exactly when the
      content has no match, that is, no `#` directly followed by a tag character. */
  lemma ExtractedTagsSpec(content: string)
    ensures NoDup(ExtractedTags(content))
    ensures forall x :: x in ExtractedTags(content) ==> x in ExtractPieces(Tokens(content))
    ensures forall x :: x in ExtractPieces(Tokens(content)) ==> x in ExtractedTags(content)
    ensures forall i, j :: 0 <= i < j < |ExtractedTags(content)| ==>
      && ExtractedTags(content)[i] in ExtractPieces(Tokens(content))
      && ExtractedTags(content)[j] in ExtractPieces(Tokens(content))
      && FirstIndex(ExtractPieces(Tokens(content)), ExtractedTags(content)[i])
         < FirstIndex(ExtractPieces(Tokens(content)), ExtractedTags(content)[j])
    ensures ExtractedTags(content) == [] <==> Tokens(content) == []
    ensures ExtractedTags(content) == [] <==> NoTagStart(content)
  {
    TokensEmpty(content);
    var pieces := ExtractPieces(Tokens(content));
    DedupSpec(pieces);
    ExtractPiecesEmpty(Tokens(content));
    if pieces != [] {
      assert pieces[0] in pieces;
    }
  }

  /** The pieces `extractTags` takes from a tag are the click path of that tag with
      the first character of its first segment dropped: `#foo/bar` gives `oo`, `bar`
      and `#a/b` gives ``, `b`. */
  lemma TokenPiecesDropFirstChar(token: string)
    requires IsTagToken(token)
    ensures TokenPieces(token) == [ClickEvents(token, true)[0][1..]] + ClickEvents(token, true)[1..]
  {
    var path := token[1..];
    assert Slice1(token) == path && Slice1(path) == path[1..];
    assert path[0] != '/';
  }

  // ===========================================================================
  // Daily files: `parseMdNotes` (lines 71-97)

  /** What the note's `Date` is built from, `<date>T<hour>:<minute>`, kept as its
      three parts. */
  datatype Timestamp = Timestamp(date: string, hour: string, minute: string)

  /** A note cut out of a daily file. */
  datatype MdNote = MdNote(filename: string, content: string, createdAt: Timestamp)

  predicate EndsWithMd(s: string) { |s| >= 3 && s[|s| - 3..] == ".md" }

  /** `filename.replace(/\.md$/, "")`. */
  function DatePart(filename: string): string {
    if EndsWithMd(filename) then filename[..|filename| - 3] else filename
  }

  /** The date part of `<d>.md` is `d`. */
  lemma DatePartStrips(d: string)
    ensures DatePart(d + ".md") == d
  {
    var f := d + ".md";
    assert f[|f| - 3..] == ".md";
    assert f[..|f| - 3] == d;
  }

  /** A name without the `.md` suffix is its own date part. */
  lemma DatePartKeeps(filename: string)
    requires !EndsWithMd(filename)
    ensures DatePart(filename) == filename
  {
  }

  predicate IsTwoDigits(s: string) { |s| == 2 && IsDigit(s[0]) && IsDigit(s[1]) }

  /** `line.match(/^\s*-\s*(\d{2}):(\d{2})/)`: the captured hour and minute. */
  function MarkerTime(line: string): Option<(string, string)> { Marker(line, IsSpace) }

  /** The marker expression with `\s` read as `space`. The first `\s*` is followed by
      `-` and the second by a digit, neither of them a space, so only their greedy
      lengths can lead to a match. */
  function Marker(line: string, space: char -> bool): (r: Option<(string, string)>)
    ensures r.Some? ==> IsTwoDigits(r.value.0) && IsTwoDigits(r.value.1)
  {
    if Dash(line, space) == |line| || line[Dash(line, space)] != '-' then None
    else Clock(line, Hour(line, space))
  }

  /** Where `Marker` expects the `-`: after the leading spaces. */
  function Dash(line: string, space: char -> bool): nat {
    Skip(line, 0, space)
  }

  /** Where `Marker` expects the hour: after the `-` and the spaces that follow it. */
  function Hour(line: string, space: char -> bool): nat
    requires Dash(line, space) < |line|
  {
    Skip(line, Dash(line, space) + 1, space)
  }

  /** `(\d{2}):(\d{2})` at position `b`. */
  function Clock(line: string, b: nat): (r: Option<(string, string)>)
    ensures r.Some? ==> IsTwoDigits(r.value.0) && IsTwoDigits(r.value.1)
  {
    if b + 5 <= |line| && IsDigit(line[b]) && IsDigit(line[b + 1]) && line[b + 2] == ':'
       && IsDigit(line[b + 3]) && IsDigit(line[b + 4])
    then Some((line[b..b + 2], line[b + 3..b + 5]))
    else None
  }

  predicate IsMarker(line: string) { MarkerTime(line).Some? }

  /** The marker expression matched with its `-` at `a` and its hour at `b`: spaces
      before `a`, spaces between `a` and `b`, then `HH:MM`. */
  predicate MarkerAt(line: string, space: char -> bool, a: nat, b: nat) {
    && a < b && b + 5 <= |line|
    && (forall k :: 0 <= k < a ==> space(line[k])) && line[a] == '-'
    && (forall k :: a < k < b ==> space(line[k]))
    && IsDigit(line[b]) && IsDigit(line[b + 1]) && line[b + 2] == ':'
    && IsDigit(line[b + 3]) && IsDigit(line[b + 4])
  }

  /** What `Marker` captures is a match of the marker expression. */
  lemma MarkerSound(line: string, space: char -> bool)
    requires Marker(line, space).Some?
    ensures Dash(line, space) < |line|
    ensures MarkerAt(line, space, Dash(line, space), Hour(line, space))
    ensures Marker(line, space) ==
      Some((line[Hour(line, space)..Hour(line, space) + 2], line[Hour(line, space) + 3..Hour(line, space) + 5]))
  {
    SkipSpec(line, 0, space);
    SkipSpec(line, Dash(line, space) + 1, space);
  }

  /** Every match of the marker expression is found by `Marker`, which captures its
      hour and minute, provided neither `-` nor a digit counts as a space. */
  lemma MarkerComplete(line: string, space: char -> bool, a: nat, b: nat)
    requires MarkerAt(line, space, a, b)
    requires !space('-') && forall c :: IsDigit(c) ==> !space(c)
    ensures Marker(line, space) == Some((line[b..b + 2], line[b + 3..b + 5]))
  {
    SkipExact(line, 0, space, a);
    SkipExact(line, a + 1, space, b);
  }

  /** A line is a marker exactly when the marker expression matches it somewhere. */
  lemma IsMarkerIff(line: string)
    ensures IsMarker(line) ==> exists a, b :: MarkerAt(line, IsSpace, a, b)
    ensures (exists a, b :: MarkerAt(line, IsSpace, a, b)) ==> IsMarker(line)
  {
    if IsMarker(line) {
      MarkerSound(line, IsSpace);
    }
    if exists a, b :: MarkerAt(line, IsSpace, a, b) {
      var a, b :| MarkerAt(line, IsSpace, a, b);
      MarkerComplete(line, IsSpace, a, b);
    }
  }

  /** The time of a note: the date part of the file name and the captured hour and minute. */
  function Stamp(filename: string, time: (string, string)): Timestamp {
    Timestamp(DatePart(filename), time.0, time.1)
  }

  /** What `currentNote.content += line + "\n"` accumulates from the lines after a
      marker: each line and a newline, up to the next marker. */
  function Body(lines: seq<string>): string {
    if lines == [] || IsMarker(lines[0]) then "" else lines[0] + "\n" + Body(lines[1..])
  }

  /** The notes of a file read line by line: a marker opens a note holding the lines
      after it; lines before the first marker belong to no note. */
  function Notes(filename: string, lines: seq<string>): seq<MdNote> {
    if lines == [] then []
    else match MarkerTime(lines[0])
      case Some(time) => [MdNote(filename, Body(lines[1..]), Stamp(filename, time))] + Notes(filename, lines[1..])
      case None => Notes(filename, lines[1..])
  }

  /** What `parseMdNotes` returns for a file. */
  function ParsedNotes(filename: string, raw: string): seq<MdNote> {
    Notes(filename, Split(raw, '\n'))
  }

  /** What is still to come out of the loop when `current` is open and `rest` is left:
      `current` with the body that `rest` adds to it, then the notes of `rest`. */
  function Pending(filename: string, current: Option<MdNote>, rest: seq<string>): seq<MdNote> {
    match current
    case None => Notes(filename, rest)
    case Some(note) => [note.(content := note.content + Body(rest))] + Notes(filename, rest)
  }

  /** The `forEach` of lines 75-94 with its `currentNote`, and the final push. */
  method ParseMdNotes(filename: string, rawContent: string) returns (result: seq<MdNote>)
    ensures result == ParsedNotes(filename, rawContent)
  {
    var lines := Split(rawContent, '\n');
    result := [];
    var current: Option<MdNote> := None;
    assert lines[0..] == lines;
    for i := 0 to |lines|
      invariant result + Pending(filename, current, lines[i..]) == Notes(filename, lines)
    {
      var line := lines[i];
      match MarkerTime(line)
      case Some(time) =>
        StepMarker(filename, lines, i, result, current);
        if current.Some? {
          result := result + [current.value];
        }
        current := Some(MdNote(filename, "", Stamp(filename, time)));
      case None =>
        StepLine(filename, lines, i, result, current);
        if current.Some? {
          current := Some(current.value.(content := current.value.content + line + "\n"));
        }
    }
    PendingEnd(filename, lines, result, current);
    if current.Some? {
      result := result + [current.value];
    }
  }

  /** A marker line closes the open note and opens a new one with an empty body. */
  lemma StepMarker(filename: string, lines: seq<string>, i: nat, result: seq<MdNote>, current: Option<MdNote>)
    requires i < |lines| && MarkerTime(lines[i]).Some?
    requires result + Pending(filename, current, lines[i..]) == Notes(filename, lines)
    ensures var started := Some(MdNote(filename, "", Stamp(filename, MarkerTime(lines[i]).value)));
      && (current.Some? ==> (result + [current.value]) + Pending(filename, started, lines[i + 1..]) == Notes(filename, lines))
      && (current.None? ==> result + Pending(filename, started, lines[i + 1..]) == Notes(filename, lines))
  {
    NotesAt(filename, lines, i);
    BodyAt(lines, i);
    var started := MdNote(filename, "", Stamp(filename, MarkerTime(lines[i]).value));
    assert "" + Body(lines[i + 1..]) == Body(lines[i + 1..]);
    assert Pending(filename, Some(started), lines[i + 1..]) == Notes(filename, lines[i..]);
    if current.Some? {
      assert current.value.(content := current.value.content + "") == current.value;
      Assoc(result, [current.value], Notes(filename, lines[i..]));
    }
  }

  /** `Body` unfolded once at line `i`. */
  lemma BodyAt(lines: seq<string>, i: nat)
    requires i < |lines|
    ensures IsMarker(lines[i]) ==> Body(lines[i..]) == ""
    ensures !IsMarker(lines[i]) ==> Body(lines[i..]) == lines[i] + "\n" + Body(lines[i + 1..])
  {
    DropDrop(lines, i);
  }

  /** Any other line is appended, with a newline, to the open note, and dropped when
      no note is open. */
  lemma StepLine(filename: string, lines: seq<string>, i: nat, result: seq<MdNote>, current: Option<MdNote>)
    requires i < |lines| && MarkerTime(lines[i]).None?
    requires result + Pending(filename, current, lines[i..]) == Notes(filename, lines)
    ensures current.Some? ==>
      var extended := Some(current.value.(content := current.value.content + lines[i] + "\n"));
      result + Pending(filename, extended, lines[i + 1..]) == Notes(filename, lines)
    ensures current.None? ==> result + Pending(filename, current, lines[i + 1..]) == Notes(filename, lines)
  {
    NotesAt(filename, lines, i);
    BodyAt(lines, i);
    if current.Some? {
      var content, line, later := current.value.content, lines[i], Body(lines[i + 1..]);
      Assoc(content, line + "\n", later);
      Assoc(content, line, "\n");
    }
  }

  /** At the end of the lines, only the open note is left. */
  lemma PendingEnd(filename: string, lines: seq<string>, result: seq<MdNote>, current: Option<MdNote>)
    requires result + Pending(filename, current, lines[|lines|..]) == Notes(filename, lines)
    ensures current.Some? ==> result + [current.value] == Notes(filename, lines)
    ensures current.None? ==> result == Notes(filename, lines)
  {
    assert lines[|lines|..] == [];
    if current.Some? {
      assert current.value.(content := current.value.content + "") == current.value;
    }
  }

  // ---------------------------------------------------------------------------
  // What the segmenter promises

  /** The indices of the marker lines at or after `lo`, in order. */
  function MarkersFrom(lines: seq<string>, lo: nat): seq<nat>
    requires lo <= |lines|
    decreases |lines| - lo
  {
    if lo == |lines| then []
    else if IsMarker(lines[lo]) then [lo] + MarkersFrom(lines, lo + 1)
    else MarkersFrom(lines, lo + 1)
  }

  /** `MarkersFrom` lists exactly the marker lines from `lo` on, in increasing order. */
  lemma {:induction false} MarkersFromSpec(lines: seq<string>, lo: nat)
    requires lo <= |lines|
    ensures forall k :: 0 <= k < |MarkersFrom(lines, lo)| ==>
      lo <= MarkersFrom(lines, lo)[k] < |lines| && IsMarker(lines[MarkersFrom(lines, lo)[k]])
    ensures forall k, l :: 0 <= k < l < |MarkersFrom(lines, lo)| ==>
      MarkersFrom(lines, lo)[k] < MarkersFrom(lines, lo)[l]
    ensures forall j :: lo <= j < |lines| && IsMarker(lines[j]) ==> j in MarkersFrom(lines, lo)
    decreases |lines| - lo
  {
    if lo < |lines| {
      MarkersFromSpec(lines, lo + 1);
      var later := MarkersFrom(lines, lo + 1);
      if IsMarker(lines[lo]) {
        var idx := [lo] + later;
        assert MarkersFrom(lines, lo) == idx;
        forall k | 1 <= k < |idx| ensures idx[k] == later[k - 1] {
          ConsIndex(lo, later, k);
        }
      }
    }
  }

  /** The notes of `lines[lo..]` are one per marker line, in order: the `k`-th note is
      stamped with the time of the `k`-th marker and holds the body that follows it. */
  lemma {:induction false} NotesFromMarkers(filename: string, lines: seq<string>, lo: nat)
    requires lo <= |lines|
    ensures var idx := MarkersFrom(lines, lo);
      var notes := Notes(filename, lines[lo..]);
      && |notes| == |idx|
      && forall k :: 0 <= k < |idx| ==>
        && idx[k] < |lines| && IsMarker(lines[idx[k]])
        && notes[k] == MdNote(filename, Body(lines[idx[k] + 1..]), Stamp(filename, MarkerTime(lines[idx[k]]).value))
    decreases |lines| - lo
  {
    if lo < |lines| {
      NotesFromMarkers(filename, lines, lo + 1);
      NotesAt(filename, lines, lo);
      if IsMarker(lines[lo]) {
        var idx, later := MarkersFrom(lines, lo), MarkersFrom(lines, lo + 1);
        var notes, rest := Notes(filename, lines[lo..]), Notes(filename, lines[lo + 1..]);
        forall k | 1 <= k < |idx|
          ensures idx[k] == later[k - 1] && notes[k] == rest[k - 1]
        {
          ConsIndex(lo, later, k);
          ConsIndex(notes[0], rest, k);
        }
      }
    }
  }

  /** `Notes` unfolded once at line `lo`. */
  lemma NotesAt(filename: string, lines: seq<string>, lo: nat)
    requires lo < |lines|
    ensures IsMarker(lines[lo]) ==>
      Notes(filename, lines[lo..]) ==
        [MdNote(filename, Body(lines[lo + 1..]), Stamp(filename, MarkerTime(lines[lo]).value))] + Notes(filename, lines[lo + 1..])
    ensures !IsMarker(lines[lo]) ==> Notes(filename, lines[lo..]) == Notes(filename, lines[lo + 1..])
    ensures MarkersFrom(lines, lo) == (if IsMarker(lines[lo]) then [lo] else []) + MarkersFrom(lines, lo + 1)
  {
    DropDrop(lines, lo);
  }

  /** The lines, each followed by a newline. */
  function Terminated(lines: seq<string>): string {
    if lines == [] then "" else lines[0] + "\n" + Terminated(lines[1..])
  }

  /** The body read from `a` on is the lines from `a` up to the next marker `b`, or up
      to the end when `b` is the end. */
  lemma {:induction false} BodyUntil(lines: seq<string>, a: nat, b: nat)
    requires a <= b <= |lines|
    requires forall j :: a <= j < b ==> !IsMarker(lines[j])
    requires b < |lines| ==> IsMarker(lines[b])
    ensures Body(lines[a..]) == Terminated(lines[a..b])
    decreases b - a
  {
    if a < b {
      BodyUntil(lines, a + 1, b);
      assert lines[a..][0] == lines[a] && lines[a..][1..] == lines[a + 1..];
      assert lines[a..b][0] == lines[a] && lines[a..b][1..] == lines[a + 1..b];
    } else if b < |lines| {
      assert lines[a..][0] == lines[b];
    }
  }

  /** Where the note opened by the `k`-th marker ends: at the next marker, or at the
      end of the file. */
  function NoteEnd(markers: seq<nat>, k: nat, end: nat): nat
    requires k < |markers|
  {
    if k + 1 < |markers| then markers[k + 1] else end
  }

  /** `notes` are one per marker line of `lines`, in file order. The `k`-th note
      carries the file name and the time of the `k`-th marker. Its content is the lines
      strictly between that marker and the next one, or the end of the file, each
      followed by a newline. The text after `HH:MM` on the marker line is in no note,
      and neither is any line before the first marker. */
  predicate OnePerMarker(filename: string, lines: seq<string>, notes: seq<MdNote>) {
    var idx := MarkersFrom(lines, 0);
    && |notes| == |idx|
    && forall k :: 0 <= k < |idx| ==>
      && idx[k] < NoteEnd(idx, k, |lines|) <= |lines| && IsMarker(lines[idx[k]])
      && notes[k].filename == filename
      && notes[k].createdAt == Stamp(filename, MarkerTime(lines[idx[k]]).value)
      && notes[k].content == Terminated(lines[idx[k] + 1..NoteEnd(idx, k, |lines|)])
  }

  /** The notes of a file's lines are one per marker line, as `OnePerMarker` says. */
  lemma NotesSpec(filename: string, lines: seq<string>)
    ensures OnePerMarker(filename, lines, Notes(filename, lines))
  {
    var idx, notes := MarkersFrom(lines, 0), Notes(filename, lines);
    NotesCount(filename, lines);
    forall k | 0 <= k < |idx|
      ensures
        && idx[k] < NoteEnd(idx, k, |lines|) <= |lines| && IsMarker(lines[idx[k]])
        && notes[k].filename == filename
        && notes[k].createdAt == Stamp(filename, MarkerTime(lines[idx[k]]).value)
        && notes[k].content == Terminated(lines[idx[k] + 1..NoteEnd(idx, k, |lines|)])
    {
      NoteAt(filename, lines, k);
    }
  }

  /** A file has as many notes as marker lines. */
  lemma NotesCount(filename: string, lines: seq<string>)
    ensures |Notes(filename, lines)| == |MarkersFrom(lines, 0)|
  {
    assert lines[0..] == lines;
    NotesFromMarkers(filename, lines, 0);
  }

  /** The `k`-th note of a file, on its own. */
  lemma NoteAt(filename: string, lines: seq<string>, k: nat)
    requires k < |MarkersFrom(lines, 0)|
    requires |Notes(filename, lines)| == |MarkersFrom(lines, 0)|
    ensures var idx, notes := MarkersFrom(lines, 0), Notes(filename, lines);
      && idx[k] < NoteEnd(idx, k, |lines|) <= |lines| && IsMarker(lines[idx[k]])
      && notes[k].filename == filename
      && notes[k].createdAt == Stamp(filename, MarkerTime(lines[idx[k]]).value)
      && notes[k].content == Terminated(lines[idx[k] + 1..NoteEnd(idx, k, |lines|)])
  {
    var idx := MarkersFrom(lines, 0);
    assert lines[0..] == lines;
    NotesFromMarkers(filename, lines, 0);
    NoMarkerBetween(lines, k);
    BodyUntil(lines, idx[k] + 1, NoteEnd(idx, k, |lines|));
  }

  /** `parseMdNotes` on a file: the notes of its lines as `split("\n")` cuts them. */
  lemma ParsedNotesSpec(filename: string, raw: string)
    ensures OnePerMarker(filename, Split(raw, '\n'), ParsedNotes(filename, raw))
  {
    NotesSpec(filename, Split(raw, '\n'));
  }

  /** No marker lies between the `k`-th marker and where its note ends. */
  lemma NoMarkerBetween(lines: seq<string>, k: nat)
    requires k < |MarkersFrom(lines, 0)|
    ensures var idx := MarkersFrom(lines, 0);
      var e := NoteEnd(idx, k, |lines|);
      && idx[k] < e <= |lines|
      && (forall j :: idx[k] + 1 <= j < e ==> !IsMarker(lines[j]))
      && (e < |lines| ==> IsMarker(lines[e]))
  {
    var idx := MarkersFrom(lines, 0);
    MarkersFromSpec(lines, 0);
    var e := NoteEnd(idx, k, |lines|);
    forall j | idx[k] + 1 <= j < e ensures !IsMarker(lines[j]) {
      SortedGap(idx, k, j);
    }
  }

  /** In a strictly increasing sequence, nothing between two neighbours, or after the
      last one, is an element. */
  lemma SortedGap(idx: seq<nat>, k: nat, j: nat)
    requires forall p, q :: 0 <= p < q < |idx| ==> idx[p] < idx[q]
    requires k < |idx| && idx[k] < j && (k + 1 < |idx| ==> j < idx[k + 1])
    ensures j !in idx
  {
    forall l | 0 <= l < |idx| ensures idx[l] != j {
      if l > k + 1 {
        assert idx[k + 1] < idx[l];
      }
    }
  }

  predicate NoMarker(lines: seq<string>) {
    forall j :: 0 <= j < |lines| ==> !IsMarker(lines[j])
  }

  /** A file yields no note exactly when none of its lines is a marker. */
  lemma {:induction false} NotesEmpty(filename: string, lines: seq<string>)
    ensures Notes(filename, lines) == [] ==> NoMarker(lines)
    ensures NoMarker(lines) ==> Notes(filename, lines) == []
  {
    if lines != [] {
      NotesEmpty(filename, lines[1..]);
      assert forall j :: 1 <= j < |lines| ==> lines[j] == lines[1..][j - 1];
    }
  }

  /** Lines before the first marker change nothing. */
  lemma {:induction false} LeadingLinesDropped(filename: string, orphans: seq<string>, lines: seq<string>)
    requires NoMarker(orphans)
    ensures Notes(filename, orphans + lines) == Notes(filename, lines)
  {
    if orphans != [] {
      var all := orphans + lines;
      assert all[0] == orphans[0] && all[1..] == orphans[1..] + lines;
      assert !IsMarker(orphans[0]);
      assert Notes(filename, all) == Notes(filename, all[1..]);
      assert forall j :: 0 <= j < |orphans| - 1 ==> orphans[1..][j] == orphans[j + 1];
      LeadingLinesDropped(filename, orphans[1..], lines);
    } else {
      assert orphans + lines == lines;
    }
  }

  /** The notes with `x` added to the content of the last one. */
  function AppendToLast(notes: seq<MdNote>, x: string): seq<MdNote> {
    if notes == [] then []
    else notes[..|notes| - 1] + [notes[|notes| - 1].(content := notes[|notes| - 1].content + x)]
  }

  lemma AppendToLastCons(note: MdNote, notes: seq<MdNote>, x: string)
    requires notes != []
    ensures AppendToLast([note] + notes, x) == [note] + AppendToLast(notes, x)
  {
    assert ([note] + notes)[..|notes|] == [note] + notes[..|notes| - 1];
  }

  /** A line that is not a marker, added at the end of the body's lines, extends the
      body when no marker came before it. */
  lemma {:induction false} BodySnoc(lines: seq<string>, line: string)
    requires !IsMarker(line)
    ensures NoMarker(lines) ==> Body(lines + [line]) == Body(lines) + line + "\n"
    ensures !NoMarker(lines) ==> Body(lines + [line]) == Body(lines)
  {
    if lines == [] {
      assert [] + [line] == [line];
    } else {
      assert (lines + [line])[0] == lines[0] && (lines + [line])[1..] == lines[1..] + [line];
      assert forall j :: 1 <= j < |lines| ==> lines[j] == lines[1..][j - 1];
      BodySnoc(lines[1..], line);
      if !IsMarker(lines[0]) && NoMarker(lines[1..]) {
        assert lines[0] + "\n" + (Body(lines[1..]) + line + "\n") == (lines[0] + "\n" + Body(lines[1..])) + line + "\n";
      }
    }
  }

  /** A line that is not a marker, added at the end of the file, goes to the last note. */
  lemma {:induction false} NotesSnoc(filename: string, lines: seq<string>, line: string)
    requires !IsMarker(line)
    ensures Notes(filename, lines + [line]) == AppendToLast(Notes(filename, lines), line + "\n")
  {
    if lines == [] {
      assert [] + [line] == [line];
    } else {
      var rest := lines[1..];
      assert (lines + [line])[0] == lines[0] && (lines + [line])[1..] == rest + [line];
      NotesSnoc(filename, rest, line);
      BodySnoc(rest, line);
      NotesEmpty(filename, rest);
      if MarkerTime(lines[0]).Some? {
        var note := MdNote(filename, Body(rest), Stamp(filename, MarkerTime(lines[0]).value));
        assert Notes(filename, lines) == [note] + Notes(filename, rest);
        if Notes(filename, rest) != [] {
          AppendToLastCons(note, Notes(filename, rest), line + "\n");
        } else {
          assert Body(rest) + line + "\n" == Body(rest) + (line + "\n");
          assert ([note] + [])[..0] == [];
        }
      }
    }
  }

  /** A newline at the end of the file adds one more newline to the content of the
      last note. */
  lemma TrailingNewline(filename: string, raw: string)
    ensures ParsedNotes(filename, raw + "\n") == AppendToLast(ParsedNotes(filename, raw), "\n")
  {
    SplitTrailingSep(raw, '\n');
    assert MarkerTime("").None?;
    NotesSnoc(filename, Split(raw, '\n'), "");
    assert "" + "\n" == "\n";
  }
}
