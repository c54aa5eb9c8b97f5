/** Character classes and string helpers shared by the note parser and the note list:
    JavaScript's `String.prototype.split` with a one-character separator, the greedy
    repetition of a character class, and the insertion-ordered set that a JavaScript
    `Set` read back with `Array.from` amounts to. Strings are sequences of characters;
    every character the core inspects lies in the Basic Multilingual Plane, so a
    character here is one UTF-16 code unit of the original. */
module Text {

  datatype Option<T> = None | Some(value: T)

  /** `\d` of a JavaScript regular expression without the `u` flag. */
  predicate IsDigit(c: char) { '0' <= c <= '9' }

  /** `\w` of a JavaScript regular expression without the `u` flag: `[A-Za-z0-9_]`. */
  predicate IsWordChar(c: char) {
    'A' <= c <= 'Z' || 'a' <= c <= 'z' || IsDigit(c) || c == '_'
  }

  /** The range `一-龥` (CJK Unified Ideographs up to U+9FA5). */
  predicate IsCjk(c: char) { '\U{4E00}' <= c <= '\U{9FA5}' }

  /** `\s` of a JavaScript regular expression: the WhiteSpace and LineTerminator
      characters of ECMAScript (tab, line feed, vertical tab, form feed, carriage
      return, space, U+00A0, U+1680, U+2000..U+200A, U+2028, U+2029, U+202F, U+205F,
      U+3000 and U+FEFF). */
  predicate IsSpace(c: char) {
    c == '\t' || c == '\n' || c == '\U{000B}' || c == '\U{000C}' || c == '\r' || c == ' '
    || c == '\U{00A0}' || c == '\U{1680}' || ('\U{2000}' <= c <= '\U{200A}')
    || c == '\U{2028}' || c == '\U{2029}' || c == '\U{202F}' || c == '\U{205F}'
    || c == '\U{3000}' || c == '\U{FEFF}'
  }

  predicate All(s: string, p: char -> bool) {
    forall k :: 0 <= k < |s| ==> p(s[k])
  }

  /** The length of the longest prefix of `s` made of characters satisfying `p`:
      what a greedy `[p]*` consumes at the start of `s`. */
  function Span(s: string, p: char -> bool): (n: nat)
    ensures n <= |s|
  {
    if s == [] || !p(s[0]) then 0 else 1 + Span(s[1..], p)
  }

  /** `Span` consumes `p`-characters only, and stops at the end or before a character
      outside `p`. */
  lemma {:induction false} SpanSpec(s: string, p: char -> bool)
    ensures forall k :: 0 <= k < Span(s, p) ==> p(s[k])
    ensures Span(s, p) < |s| ==> !p(s[Span(s, p)])
  {
    if s != [] && p(s[0]) {
      SpanSpec(s[1..], p);
      assert forall k :: 1 <= k < Span(s, p) ==> s[k] == s[1..][k - 1];
    }
  }

  /** The first position at or after `i` whose character does not satisfy `p`, or
      `|s|`: where a greedy `p*` that starts at `i` stops. */
  function Skip(s: string, i: nat, p: char -> bool): (j: nat)
    requires i <= |s|
    ensures i <= j <= |s|
    decreases |s| - i
  {
    if i == |s| || !p(s[i]) then i else Skip(s, i + 1, p)
  }

  lemma {:induction false} SkipSpec(s: string, i: nat, p: char -> bool)
    requires i <= |s|
    ensures forall k :: i <= k < Skip(s, i, p) ==> p(s[k])
    ensures Skip(s, i, p) < |s| ==> !p(s[Skip(s, i, p)])
    decreases |s| - i
  {
    if i < |s| && p(s[i]) {
      SkipSpec(s, i + 1, p);
    }
  }

  /** A run of `p` from `i` that ends before a character that is not `p`, or at the
      end, is where `Skip` stops. */
  lemma SkipExact(s: string, i: nat, p: char -> bool, j: nat)
    requires i <= j <= |s|
    requires forall k :: i <= k < j ==> p(s[k])
    requires j < |s| ==> !p(s[j])
    ensures Skip(s, i, p) == j
  {
    SkipSpec(s, i, p);
  }

  // ---------------------------------------------------------------------------
  // sequence identities, proved once so that callers need not prove them by
  // extensionality in larger contexts

  lemma HeadTail<T>(s: seq<T>)
    requires s != []
    ensures s == [s[0]] + s[1..]
  {
  }

  lemma MoveHead<T>(a: seq<T>, s: seq<T>)
    requires s != []
    ensures (a + [s[0]]) + s[1..] == a + s
  {
    assert s == [s[0]] + s[1..];
  }

  lemma TakeDrop<T>(s: seq<T>, n: nat)
    requires n <= |s|
    ensures s[..n] + s[n..] == s
  {
  }

  lemma Assoc<T>(a: seq<T>, b: seq<T>, c: seq<T>)
    ensures (a + b) + c == a + (b + c)
  {
  }

  lemma ConsIndex<T>(x: T, s: seq<T>, k: nat)
    requires 1 <= k <= |s|
    ensures ([x] + s)[k] == s[k - 1]
  {
  }

  lemma DropDrop<T>(s: seq<T>, i: nat)
    requires i < |s|
    ensures s[i..][0] == s[i] && s[i..][1..] == s[i + 1..]
  {
  }

  /** The index of the first `c` in `s` at or after `from`, or `|s|` when there is none. */
  function IndexOf(s: string, c: char, from: nat): (i: nat)
    requires from <= |s|
    ensures from <= i <= |s|
    ensures i < |s| ==> s[i] == c
    decreases |s| - from
  {
    if from == |s| || s[from] == c then from else IndexOf(s, c, from + 1)
  }

  /** `IndexOf` skips no `c`. */
  lemma {:induction false} IndexOfSpec(s: string, c: char, from: nat)
    requires from <= |s|
    ensures forall k :: from <= k < IndexOf(s, c, from) ==> s[k] != c
    decreases |s| - from
  {
    if from < |s| && s[from] != c {
      IndexOfSpec(s, c, from + 1);
    }
  }

  /** The first `c` at or after `from` is where `IndexOf` stops. */
  lemma IndexOfFirst(s: string, c: char, from: nat, i: nat)
    requires from <= i < |s| && s[i] == c
    requires forall k :: from <= k < i ==> s[k] != c
    ensures IndexOf(s, c, from) == i
  {
    IndexOfSpec(s, c, from);
  }

  /** JavaScript `x.slice(1)`: everything after the first character, and "" for "". */
  function Slice1(x: string): (r: string)
    ensures |x| > 0 ==> [x[0]] + r == x
    ensures |x| == 0 ==> r == []
  {
    if x == [] then [] else x[1..]
  }

  // ---------------------------------------------------------------------------
  // split on one character

  /** JavaScript `s.split(sep)` for a one-character separator: the pieces between
      separators, always at least one (`"".split(sep)` is `[""]`). */
  function Split(s: string, sep: char): (parts: seq<string>)
    ensures |parts| >= 1
  {
    if s == [] then [""]
    else
      var rest := Split(s[1..], sep);
      if s[0] == sep then [""] + rest else [[s[0]] + rest[0]] + rest[1..]
  }

  /** No piece holds the separator, and every character of a piece is a character
      of the string. */
  lemma {:induction false} SplitPieces(s: string, sep: char)
    ensures forall i :: 0 <= i < |Split(s, sep)| ==> sep !in Split(s, sep)[i]
    ensures forall i, c :: 0 <= i < |Split(s, sep)| && c in Split(s, sep)[i] ==> c in s
  {
    if s != [] {
      SplitPieces(s[1..], sep);
      assert forall c :: c in s[1..] ==> c in s;
    }
  }

  /** JavaScript `parts.join(sep)`. */
  function Join(parts: seq<string>, sep: char): string
    requires |parts| >= 1
  {
    if |parts| == 1 then parts[0] else parts[0] + [sep] + Join(parts[1..], sep)
  }

  /** Joining the pieces of a split gives back the string. */
  lemma {:induction false} JoinSplit(s: string, sep: char)
    ensures Join(Split(s, sep), sep) == s
  {
    if s != [] {
      var rest := Split(s[1..], sep);
      JoinSplit(s[1..], sep);
      if s[0] == sep {
        assert Split(s, sep) == [""] + rest;
      } else {
        var parts := Split(s, sep);
        assert parts == [[s[0]] + rest[0]] + rest[1..];
        if |rest| == 1 {
          assert Join(rest, sep) == rest[0];
        } else {
          assert parts[1..] == rest[1..];
          assert Join(rest, sep) == rest[0] + [sep] + Join(rest[1..], sep);
        }
      }
    }
  }

  /** A separator-free head followed by a separator splits off as one piece. */
  lemma {:induction false} SplitAfterPiece(a: string, sep: char, t: string)
    requires sep !in a
    ensures Split(a + [sep] + t, sep) == [a] + Split(t, sep)
  {
    if a == [] {
      assert a + [sep] + t == [sep] + t;
      assert ([sep] + t)[1..] == t;
    } else {
      var s := a + [sep] + t;
      assert s[0] == a[0] && s[1..] == a[1..] + [sep] + t;
      SplitAfterPiece(a[1..], sep, t);
      assert [a[0]] + a[1..] == a;
    }
  }

  /** Splitting a join of separator-free pieces gives back the pieces. */
  lemma {:induction false} SplitJoin(parts: seq<string>, sep: char)
    requires |parts| >= 1
    requires forall i :: 0 <= i < |parts| ==> sep !in parts[i]
    ensures Split(Join(parts, sep), sep) == parts
  {
    if |parts| == 1 {
      SplitNoSep(parts[0], sep);
    } else {
      SplitJoin(parts[1..], sep);
      SplitAfterPiece(parts[0], sep, Join(parts[1..], sep));
    }
  }

  /** A string without the separator splits into itself. */
  lemma {:induction false} SplitNoSep(s: string, sep: char)
    requires sep !in s
    ensures Split(s, sep) == [s]
  {
    if s != [] {
      assert s[0] in s;
      assert forall c :: c in s[1..] ==> c in s;
      SplitNoSep(s[1..], sep);
      assert [s[0]] + s[1..] == s;
    }
  }

  /** A trailing separator adds one empty piece at the end. */
  lemma {:induction false} SplitTrailingSep(s: string, sep: char)
    ensures Split(s + [sep], sep) == Split(s, sep) + [""]
  {
    if s == [] {
      assert [sep][1..] == [];
    } else {
      assert (s + [sep])[1..] == s[1..] + [sep];
      SplitTrailingSep(s[1..], sep);
    }
  }

  /** Two separators in a row give an empty piece after the first one. */
  lemma {:induction false} SplitDoubledSep(a: string, sep: char, b: string)
    ensures |Split(a + [sep, sep] + b, sep)| >= 2
    ensures "" in Split(a + [sep, sep] + b, sep)[1..]
  {
    var s := a + [sep, sep] + b;
    if a == [] {
      assert s[1..] == [sep] + b && ([sep] + b)[1..] == b;
      assert Split(s, sep) == [""] + ([""] + Split(b, sep));
    } else {
      assert s[1..] == a[1..] + [sep, sep] + b;
      SplitDoubledSep(a[1..], sep, b);
    }
  }

  /** A separator at the start, at the end, or right after another gives an empty
      piece. */
  lemma SplitEmptyPiece(a: string, sep: char, b: string)
    requires a == [] || b == [] || a[|a| - 1] == sep
    ensures "" in Split(a + [sep] + b, sep)
  {
    if a == [] {
      assert a + [sep] + b == [sep] + b && ([sep] + b)[1..] == b;
    } else if b == [] {
      assert a + [sep] + b == a + [sep];
      SplitTrailingSep(a, sep);
    } else {
      var init := a[..|a| - 1];
      assert a + [sep] + b == init + [sep, sep] + b;
      SplitDoubledSep(init, sep, b);
    }
  }

  // ---------------------------------------------------------------------------
  // flattening and insertion-ordered sets

  /** `xss.flat()`: the sequences one after the other. */
  function Flatten<T>(xss: seq<seq<T>>): seq<T> {
    if xss == [] then [] else xss[0] + Flatten(xss[1..])
  }

  lemma {:induction false} FlattenAppend<T>(a: seq<seq<T>>, b: seq<seq<T>>)
    ensures Flatten(a + b) == Flatten(a) + Flatten(b)
  {
    if a != [] {
      assert (a + b)[0] == a[0] && (a + b)[1..] == a[1..] + b;
      FlattenAppend(a[1..], b);
      calc {
        Flatten(a + b);
        (a + b)[0] + Flatten((a + b)[1..]);
        a[0] + Flatten(a[1..] + b);
        a[0] + (Flatten(a[1..]) + Flatten(b));
        (a[0] + Flatten(a[1..])) + Flatten(b);
      }
    } else {
      assert a + b == b;
    }
  }

  predicate NoDup<T(==)>(xs: seq<T>) {
    forall i, j :: 0 <= i < j < |xs| ==> xs[i] != xs[j]
  }

  /** `set.add(x)` on a set listed in insertion order. */
  function Insert<T(==)>(acc: seq<T>, x: T): seq<T> {
    if x in acc then acc else acc + [x]
  }

  /** `Array.from(new Set(xs))`: the distinct elements of `xs`, each where it first
      appears, in the order the set received them. */
  function Dedup<T(==)>(xs: seq<T>): seq<T> {
    if xs == [] then [] else Insert(Dedup(xs[..|xs| - 1]), xs[|xs| - 1])
  }

  /** Adding one more element to the sequence adds it to the set. */
  lemma DedupSnoc<T>(xs: seq<T>, x: T)
    ensures Dedup(xs + [x]) == Insert(Dedup(xs), x)
  {
    assert (xs + [x])[..|xs|] == xs;
  }

  /** `items.forEach(t => set.add(t))` on a set `acc` listed in insertion order; `seen` is
      what the set has been given so far. */
  method AddEach<T(==)>(acc: seq<T>, items: seq<T>, ghost seen: seq<T>) returns (r: seq<T>)
    requires acc == Dedup(seen)
    ensures r == Dedup(seen + items)
  {
    r := acc;
    assert seen + items[..0] == seen;
    for j := 0 to |items|
      invariant r == Dedup(seen + items[..j])
    {
      assert seen + items[..j + 1] == (seen + items[..j]) + [items[j]];
      DedupSnoc(seen + items[..j], items[j]);
      if items[j] !in r {
        r := r + [items[j]];
      }
    }
    assert items[..|items|] == items;
  }

  /** The position of the first occurrence of `x` in `xs`. */
  function FirstIndex<T(==)>(xs: seq<T>, x: T): (i: nat)
    requires x in xs
    ensures i < |xs| && xs[i] == x
    ensures forall k :: 0 <= k < i ==> xs[k] != x
  {
    if xs[0] == x then 0 else
      assert x in xs[1..];
      1 + FirstIndex(xs[1..], x)
  }

  /** Appending an element leaves the first occurrence of an element already present where it was. */
  lemma FirstIndexSnoc<T>(xs: seq<T>, x: T, y: T)
    requires y in xs
    ensures FirstIndex(xs + [x], y) == FirstIndex(xs, y)
  {
    var i, k := FirstIndex(xs + [x], y), FirstIndex(xs, y);
    assert (xs + [x])[k] == y;
    assert i <= k;
    assert xs[i] == y;
  }

  /** `Dedup` is the insertion-ordered set of `xs`: no element twice, exactly the
      elements of `xs`, ordered by where each first appears in `xs`. */
  lemma {:induction false} DedupSpec<T>(xs: seq<T>)
    ensures NoDup(Dedup(xs))
    ensures forall x :: x in Dedup(xs) ==> x in xs
    ensures forall x :: x in xs ==> x in Dedup(xs)
    ensures forall i, j :: 0 <= i < j < |Dedup(xs)| ==>
      FirstIndex(xs, Dedup(xs)[i]) < FirstIndex(xs, Dedup(xs)[j])
  {
    if xs != [] {
      var init, last := xs[..|xs| - 1], xs[|xs| - 1];
      assert xs == init + [last];
      DedupSpec(init);
      var r := Dedup(init);
      forall y | y in r ensures y in init && FirstIndex(xs, y) == FirstIndex(init, y) {
        FirstIndexSnoc(init, last, y);
      }
      if last !in r {
        assert last !in init;
        assert FirstIndex(xs, last) == |init|;
        var r' := r + [last];
        forall i, j | 0 <= i < j < |r'|
          ensures FirstIndex(xs, r'[i]) < FirstIndex(xs, r'[j])
        {
          assert r'[i] == r[i] && r[i] in r;
          if j < |r| { assert r'[j] == r[j] && r[j] in r; }
        }
      }
    }
  }
}
