/** The text normalisation and metadata extraction applied to each harvested
    DSpace record: every `dim:field` element becomes one entry of a metadata
    dictionary keyed by `schema.element[.qualifier]`, holding its cleaned
    text, or the list of cleaned texts when the key repeats. */
module ProcessData {
  import opened Text
  import opened PyDict

  // ---------------------------------------------------------------------------
  // clean_text

  /** `re.sub(r'\s+', ' ', s)`: every run of whitespace becomes one space. */
  function Collapse(s: string): (r: string)
    ensures Spaced(r)
    ensures r != [] && IsSpace(r[0]) ==> s != [] && IsSpace(s[0])
    decreases |s|
  {
    if s == [] then ""
    else if IsSpace(s[0]) then
      var rest := StripLeft(s);
      assert rest == [] || !IsSpace(rest[0]);
      [' '] + Collapse(rest)
    else [s[0]] + Collapse(s[1..])
  }

  /** Whitespace only as single spaces. */
  ghost predicate Spaced(s: string) {
    && (forall i :: 0 <= i < |s| && IsSpace(s[i]) ==> s[i] == ' ')
    && (forall i :: 0 <= i < |s| - 1 ==> !(IsSpace(s[i]) && IsSpace(s[i + 1])))
  }

  /** A normalised text: no whitespace at either end, only single spaces
      inside, and no upper-case letter. */
  ghost predicate Normalised(r: string) {
    && (r == [] || (!IsSpace(r[0]) && !IsSpace(r[|r| - 1])))
    && Spaced(r)
    && (forall i :: 0 <= i < |r| ==> !IsUpper(r[i]))
  }

  /** `clean_text(text)`: an absent or empty text gives the empty string;
      otherwise whitespace runs collapse to one space, the ends are stripped
      and the letters lowered. The result is
      `" ".join(w.lower() for w in text.split())`. */
  function CleanText(text: Option<string>): (r: string)
    ensures text.None? || text.value == "" ==> r == ""
    ensures text.Some? ==> r == Join(LowerWords(Words(text.value)), " ")
    ensures Normalised(r)
  {
    if text.None? || text.value == "" then ""
    else
      var collapsed := Collapse(text.value);
      var stripped := Strip(collapsed);
      StripKeepsSpacing(collapsed);
      LowerKeepsSpacing(stripped);
      CollapseWords(text.value);
      StripCollapsed(text.value);
      LowerJoin(Words(text.value));
      Lower(stripped)
  }

  lemma SpacedSlice(s: string, a: nat, b: nat)
    requires Spaced(s) && a <= b <= |s|
    ensures Spaced(s[a..b])
  {
    var t := s[a..b];
    assert forall i :: 0 <= i < |t| ==> t[i] == s[a + i];
  }

  /** Stripping keeps a text's single-space spacing: the result is a slice. */
  lemma StripKeepsSpacing(s: string)
    requires Spaced(s)
    ensures Spaced(Strip(s))
  {
    var l := StripLeft(s);
    SpacedSlice(s, |s| - |l|, |s|);
    SpacedSlice(l, 0, |StripRight(l)|);
  }

  lemma {:induction false} LowerAt(s: string, i: nat)
    requires i < |s|
    ensures Lower(s)[i] == LowerChar(s[i])
  {
    if i > 0 {
      LowerAt(s[1..], i - 1);
    }
  }

  /** Lowering keeps spaces where they were, so keeps the spacing too. */
  lemma LowerKeepsSpacing(s: string)
    requires s == [] || (!IsSpace(s[0]) && !IsSpace(s[|s| - 1]))
    requires Spaced(s)
    ensures Normalised(Lower(s))
  {
    var r := Lower(s);
    forall i | 0 <= i < |r| && IsSpace(r[i])
      ensures r[i] == ' '
    {
      LowerAt(s, i);
    }
  }

  /** A text without whitespace runs or tabs collapses to itself. */
  lemma {:induction false} CollapseSpaced(s: string)
    requires Spaced(s)
    ensures Collapse(s) == s
    decreases |s|
  {
    if s != [] {
      if IsSpace(s[0]) {
        assert StripLeft(s) == s[1..] by {
          assert |s| == 1 || !IsSpace(s[1]);
        }
      }
      CollapseSpaced(s[1..]);
    }
  }

  /** A normalised text is left unchanged by `clean_text`. */
  lemma CleanTextOfNormalised(s: string)
    requires Normalised(s)
    ensures CleanText(Some(s)) == s
  {
    if s != "" {
      CollapseSpaced(s);
      StripNoSpaceEnds(s);
      LowerOfLower(s);
    }
  }

  /** `clean_text` is idempotent. */
  lemma CleanTextIdempotent(text: Option<string>)
    ensures CleanText(Some(CleanText(text))) == CleanText(text)
  {
    CleanTextOfNormalised(CleanText(text));
  }

  /** The characters of `s` that are not whitespace, in order. */
  function NonSpace(s: string): string {
    if s == [] then [] else (if IsSpace(s[0]) then [] else [s[0]]) + NonSpace(s[1..])
  }

  lemma {:induction false} NonSpaceAppend(a: string, b: string)
    ensures NonSpace(a + b) == NonSpace(a) + NonSpace(b)
  {
    if a != [] {
      assert (a + b)[0] == a[0] && (a + b)[1..] == a[1..] + b;
      NonSpaceAppend(a[1..], b);
    } else {
      assert a + b == b;
    }
  }

  lemma {:induction false} NonSpaceStripLeft(s: string)
    ensures NonSpace(StripLeft(s)) == NonSpace(s)
  {
    if |s| > 0 && IsSpace(s[0]) {
      NonSpaceStripLeft(s[1..]);
    }
  }

  lemma {:induction false} NonSpaceStripRight(s: string)
    ensures NonSpace(StripRight(s)) == NonSpace(s)
  {
    if |s| > 0 && IsSpace(s[|s| - 1]) {
      var init := s[..|s| - 1];
      NonSpaceStripRight(init);
      assert s == init + [s[|s| - 1]];
      NonSpaceAppend(init, [s[|s| - 1]]);
    }
  }

  lemma {:induction false} NonSpaceCollapse(s: string)
    ensures NonSpace(Collapse(s)) == NonSpace(s)
    decreases |s|
  {
    if s != [] {
      if IsSpace(s[0]) {
        var rest := StripLeft(s);
        assert rest == [] || !IsSpace(rest[0]);
        NonSpaceCollapse(rest);
        NonSpaceStripLeft(s);
        assert ([' '] + Collapse(rest))[1..] == Collapse(rest);
      } else {
        NonSpaceCollapse(s[1..]);
        assert ([s[0]] + Collapse(s[1..]))[1..] == Collapse(s[1..]);
      }
    }
  }

  lemma {:induction false} NonSpaceLower(s: string)
    ensures NonSpace(Lower(s)) == Lower(NonSpace(s))
  {
    if s != [] {
      NonSpaceLower(s[1..]);
      var head := if IsSpace(s[0]) then [] else [s[0]];
      NonSpaceLowerHead(head, NonSpace(s[1..]));
      assert Lower(s)[1..] == Lower(s[1..]);
    }
  }

  lemma NonSpaceLowerHead(head: string, rest: string)
    requires |head| <= 1
    ensures Lower(head + rest) == Lower(head) + Lower(rest)
  {
    if head != [] {
      assert (head + rest)[1..] == rest;
    } else {
      assert head + rest == rest;
    }
  }

  /** `clean_text` only removes and merges whitespace and lowers letters:
      without the whitespace, its output is the input's other characters,
      lowered. */
  lemma CleanTextKeepsContent(s: string)
    ensures NonSpace(CleanText(Some(s))) == Lower(NonSpace(s))
  {
    if s != "" {
      var collapsed := Collapse(s);
      NonSpaceCollapse(s);
      NonSpaceStripLeft(collapsed);
      NonSpaceStripRight(StripLeft(collapsed));
      NonSpaceLower(Strip(collapsed));
    }
  }

  /** A word: a non-empty run of characters none of which is whitespace. */
  predicate Word(w: string) {
    w != [] && forall i :: 0 <= i < |w| ==> !IsSpace(w[i])
  }

  /** The longest prefix of `s` holding no whitespace. */
  function WordAt(s: string): (w: string)
    ensures |w| <= |s| && w == s[..|w|]
    ensures forall i :: 0 <= i < |w| ==> !IsSpace(w[i])
    ensures |w| == |s| || IsSpace(s[|w|])
  {
    if s == [] || IsSpace(s[0]) then [] else [s[0]] + WordAt(s[1..])
  }

  /** `s.split()`: the maximal runs of non-whitespace characters, in order. */
  function Words(s: string): (ws: seq<string>)
    ensures forall i :: 0 <= i < |ws| ==> Word(ws[i])
    decreases |s|
  {
    if s == [] then []
    else if IsSpace(s[0]) then Words(StripLeft(s))
    else
      var w := WordAt(s);
      assert w[0] == s[0];
      [w] + Words(s[|w|..])
  }

  lemma WordsSpaceHead(s: string)
    requires s != [] && IsSpace(s[0])
    ensures Words(s) == Words(StripLeft(s))
  {
  }

  lemma WordsWordHead(s: string)
    requires s != [] && !IsSpace(s[0])
    ensures Words(s) == [WordAt(s)] + Words(s[|WordAt(s)|..])
  {
  }

  /** A text has no words exactly when it is all whitespace. */
  lemma WordsNone(s: string)
    ensures Words(s) == [] <==> forall i :: 0 <= i < |s| ==> IsSpace(s[i])
  {
    if s != [] {
      if IsSpace(s[0]) {
        var t := StripLeft(s);
        WordsSpaceHead(s);
        if t != [] {
          WordsWordHead(t);
          assert !IsSpace(s[|s| - |t|]);
        }
      } else {
        WordsWordHead(s);
      }
    }
  }

  /** What `re.sub(r'\s+', ' ', s)` produces, stated by words: the words
      joined by single spaces, with one space standing for the leading and
      one for the trailing whitespace, and a single space for a text that is
      all whitespace. */
  ghost function Collapsed(s: string): string {
    if s == [] then ""
    else if Words(s) == [] then " "
    else Padded(IsSpace(s[0]), Join(Words(s), " "), IsSpace(s[|s| - 1]))
  }

  /** `j` with a space before it when `lead` holds and one after it when
      `trail` holds. */
  function Padded(lead: bool, j: string, trail: bool): string {
    var body := if trail then j + " " else j;
    if lead then " " + body else body
  }

  /** A word and a space before a padded text make a padded text. */
  lemma PaddedCons(w: string, j: string, trail: bool)
    ensures Padded(false, w + " " + j, trail) == w + Padded(true, j, trail)
  {
    if trail {
      assert w + " " + j + " " == w + (" " + (j + " "));
    } else {
      assert w + " " + j == w + (" " + j);
    }
  }

  lemma CollapseWordHead(s: string)
    requires s != [] && !IsSpace(s[0])
    ensures Collapse(s) == [s[0]] + Collapse(s[1..])
  {
  }

  lemma CollapseSpaceHead(s: string)
    requires s != [] && IsSpace(s[0])
    ensures Collapse(s) == " " + Collapse(StripLeft(s))
  {
  }

  /** Collapsing keeps characters other than whitespace as they are. */
  lemma {:induction false} CollapseKeepsWord(a: string, b: string)
    requires forall i :: 0 <= i < |a| ==> !IsSpace(a[i])
    ensures Collapse(a + b) == a + Collapse(b)
  {
    if a == [] {
      assert a + b == b;
    } else {
      var s := a + b;
      assert s[0] == a[0] && s[1..] == a[1..] + b;
      CollapseWordHead(s);
      CollapseKeepsWord(a[1..], b);
      ConsRegroup(a, Collapse(b));
    }
  }

  lemma ConsRegroup(a: string, c: string)
    requires a != []
    ensures [a[0]] + (a[1..] + c) == a + c
  {
    assert a == [a[0]] + a[1..];
  }

  lemma WordsNonEmpty(s: string)
    requires s != [] && !IsSpace(s[0])
    ensures Words(s) != []
  {
    WordsWordHead(s);
  }

  lemma JoinCons(w: string, ws: seq<string>, sep: string)
    requires ws != []
    ensures Join([w] + ws, sep) == w + sep + Join(ws, sep)
  {
    assert ([w] + ws)[1..] == ws;
  }

  /** Leading whitespace shows in `Collapsed` as one space. */
  lemma CollapsedSpaceHead(s: string)
    requires s != [] && IsSpace(s[0])
    ensures Collapsed(s) == " " + Collapsed(StripLeft(s))
  {
    var t := StripLeft(s);
    WordsSpaceHead(s);
    if t != [] {
      WordsNonEmpty(t);
      assert !IsSpace(t[0]);
      LastOfSuffix(s, |s| - |t|);
    }
  }

  /** A leading word shows in `Collapsed` as itself. */
  lemma CollapsedWordHead(s: string)
    requires s != [] && !IsSpace(s[0])
    ensures Collapsed(s) == WordAt(s) + Collapsed(s[|WordAt(s)|..])
  {
    var w := WordAt(s);
    var rest := s[|w|..];
    WordsWordHead(s);
    if rest == [] {
      CollapsedWholeWord(s);
    } else if Words(rest) == [] {
      CollapsedWordThenSpace(s);
    } else {
      CollapsedWordThenWords(s);
    }
  }

  lemma CollapsedWholeWord(s: string)
    requires s != [] && !IsSpace(s[0]) && WordAt(s) == s
    ensures Collapsed(s) == s
  {
    WordsWordHead(s);
    assert s[|s|..] == [];
    assert Words(s) == [s];
    assert !IsSpace(s[|s| - 1]);
  }

  lemma CollapsedWordThenSpace(s: string)
    requires s != [] && !IsSpace(s[0])
    requires var rest := s[|WordAt(s)|..]; rest != [] && Words(rest) == []
    ensures Collapsed(s) == WordAt(s) + " "
  {
    var w := WordAt(s);
    var rest := s[|w|..];
    WordsWordHead(s);
    WordsNoneLast(rest);
    LastOfSuffix(s, |w|);
    assert [w] + Words(rest) == [w];
    CollapsedOfJoin(s, w);
  }

  lemma CollapsedOfJoin(s: string, j: string)
    requires s != [] && Words(s) != [] && Join(Words(s), " ") == j
    ensures Collapsed(s) == Padded(IsSpace(s[0]), j, IsSpace(s[|s| - 1]))
  {
  }

  lemma LastOfSuffix(s: string, k: nat)
    requires k < |s|
    ensures s[k..][|s| - k - 1] == s[|s| - 1]
  {
  }

  /** A non-empty text without words ends in whitespace. */
  lemma WordsNoneLast(s: string)
    requires s != [] && Words(s) == []
    ensures IsSpace(s[|s| - 1])
  {
    WordsNone(s);
  }

  lemma CollapsedWordThenWords(s: string)
    requires s != [] && !IsSpace(s[0])
    requires Words(s[|WordAt(s)|..]) != []
    ensures Collapsed(s) == WordAt(s) + Collapsed(s[|WordAt(s)|..])
  {
    var w := WordAt(s);
    var rest := s[|w|..];
    assert rest != [] && IsSpace(rest[0]);
    LastOfSuffix(s, |w|);
    var j := Join(Words(rest), " ");
    WordsWordHead(s);
    JoinCons(w, Words(rest), " ");
    PaddedCons(w, j, IsSpace(s[|s| - 1]));
  }

  /** `re.sub(r'\s+', ' ', s)` replaces each whitespace run by exactly one
      space and keeps every other character: it is `Collapsed(s)`. */
  lemma {:induction false} CollapseWords(s: string)
    ensures Collapse(s) == Collapsed(s)
    decreases |s|
  {
    if s == [] {
    } else if IsSpace(s[0]) {
      CollapseSpaceHead(s);
      CollapseWords(StripLeft(s));
      CollapsedSpaceHead(s);
    } else {
      var w := WordAt(s);
      var rest := s[|w|..];
      assert s == w + rest;
      CollapseKeepsWord(w, rest);
      CollapseWords(rest);
      CollapsedWordHead(s);
    }
  }

  /** Words joined by single spaces neither start nor end with whitespace. */
  lemma {:induction false} JoinedWordsEnds(ws: seq<string>)
    requires ws != [] && forall i :: 0 <= i < |ws| ==> Word(ws[i])
    ensures var j := Join(ws, " "); j != [] && !IsSpace(j[0]) && !IsSpace(j[|j| - 1])
  {
    if |ws| > 1 {
      JoinedWordsEnds(ws[1..]);
      assert ws[1..][0] == ws[1];
    }
  }

  lemma StripParts(s: string)
    ensures Strip(s) == StripRight(StripLeft(s))
  {
  }

  lemma StripLeftSpace(x: string)
    ensures StripLeft(" " + x) == StripLeft(x)
  {
    assert (" " + x)[1..] == x;
  }

  lemma StripRightSpace(x: string)
    ensures StripRight(x + " ") == StripRight(x)
  {
    assert (x + " ")[..|x|] == x;
  }

  /** Stripping a padded text removes exactly the padding when the text has
      no whitespace at its ends. */
  lemma StripPadded(lead: bool, j: string, trail: bool)
    requires j != [] && !IsSpace(j[0]) && !IsSpace(j[|j| - 1])
    ensures Strip(Padded(lead, j, trail)) == j
  {
    var body := if trail then j + " " else j;
    StripParts(Padded(lead, j, trail));
    if lead {
      StripLeftSpace(body);
    }
    assert body[0] == j[0];
    assert StripLeft(body) == body;
    if trail {
      StripRightSpace(j);
    }
    assert StripRight(j) == j;
  }

  /** Stripping the collapsed text leaves the words joined by single spaces. */
  lemma StripCollapsed(s: string)
    ensures Strip(Collapsed(s)) == Join(Words(s), " ")
  {
    if s != [] && Words(s) != [] {
      JoinedWordsEnds(Words(s));
      StripPadded(IsSpace(s[0]), Join(Words(s), " "), IsSpace(s[|s| - 1]));
    }
  }

  lemma LowerHead(s: string)
    requires s != []
    ensures Lower(s) == [LowerChar(s[0])] + Lower(s[1..])
  {
  }

  /** Lowering a concatenation lowers each part. */
  lemma {:induction false} LowerAppend(a: string, b: string)
    ensures Lower(a + b) == Lower(a) + Lower(b)
  {
    if a != [] {
      var s := a + b;
      assert s[0] == a[0] && s[1..] == a[1..] + b;
      LowerHead(s);
      LowerHead(a);
      LowerAppend(a[1..], b);
    } else {
      assert a + b == b;
    }
  }

  /** Each word lowered. */
  function LowerWords(ws: seq<string>): (r: seq<string>)
    ensures |r| == |ws| && forall i :: 0 <= i < |ws| ==> r[i] == Lower(ws[i])
  {
    seq(|ws|, i requires 0 <= i < |ws| => Lower(ws[i]))
  }

  lemma {:induction false} LowerJoin(ws: seq<string>)
    ensures Lower(Join(ws, " ")) == Join(LowerWords(ws), " ")
  {
    if |ws| > 1 {
      LowerJoin(ws[1..]);
      assert LowerWords(ws)[1..] == LowerWords(ws[1..]);
      LowerAppend(ws[0] + " ", Join(ws[1..], " "));
      LowerAppend(ws[0], " ");
    }
  }

  /** A leading word is read up to the whitespace that ends it. */
  lemma {:induction false} WordAtOfWord(u: string, rest: string)
    requires forall i :: 0 <= i < |u| ==> !IsSpace(u[i])
    requires rest == [] || IsSpace(rest[0])
    ensures WordAt(u + rest) == u
  {
    if u == [] {
      assert u + rest == rest;
    } else {
      var s := u + rest;
      assert s[0] == u[0] && s[1..] == u[1..] + rest;
      WordAtOfWord(u[1..], rest);
      ConsRegroup(u, []);
      assert [u[0]] + u[1..] == u;
    }
  }

  /** Whitespace before a word is stripped up to the word. */
  lemma {:induction false} StripLeftSpaces(w: string, v: string)
    requires forall i :: 0 <= i < |w| ==> IsSpace(w[i])
    requires v == [] || !IsSpace(v[0])
    ensures StripLeft(w + v) == v
  {
    if w == [] {
      assert w + v == v;
    } else {
      var s := w + v;
      assert s[0] == w[0] && s[1..] == w[1..] + v;
      StripLeftSpaces(w[1..], v);
    }
  }

  /** A word followed by text that starts with whitespace is read first. */
  lemma WordsAfterWord(u: string, t: string)
    requires Word(u) && t != [] && IsSpace(t[0])
    ensures Words(u + t) == [u] + Words(t)
  {
    var s := u + t;
    assert s[0] == u[0];
    WordAtOfWord(u, t);
    WordsWordHead(s);
    assert s[|u|..] == t;
  }

  /** Whitespace before a word is skipped. */
  lemma WordsAfterSpaces(w: string, v: string)
    requires w != [] && forall i :: 0 <= i < |w| ==> IsSpace(w[i])
    requires Word(v)
    ensures Words(w + v) == Words(v)
  {
    var t := w + v;
    assert t[0] == w[0];
    WordsSpaceHead(t);
    StripLeftSpaces(w, v);
  }

  /** A word alone is one word. */
  lemma WordsOfWord(v: string)
    requires Word(v)
    ensures Words(v) == [v]
  {
    WordAtOfWord(v, []);
    assert v + [] == v;
    WordsWordHead(v);
    assert v[|v|..] == [];
  }

  lemma Regroup3(a: string, b: string, c: string)
    ensures a + b + c == a + (b + c)
  {
  }

  /** Two words with whitespace between them are read as those two words. */
  lemma WordsOfTwo(u: string, w: string, v: string)
    requires Word(u) && Word(v)
    requires w != [] && forall i :: 0 <= i < |w| ==> IsSpace(w[i])
    ensures Words(u + w + v) == [u, v]
  {
    Regroup3(u, w, v);
    assert (w + v)[0] == w[0];
    WordsAfterWord(u, w + v);
    WordsAfterSpaces(w, v);
    WordsOfWord(v);
  }

  lemma JoinTwo(a: string, b: string, sep: string)
    ensures Join([a, b], sep) == a + sep + b
  {
    assert [a, b][1..] == [b];
  }

  /** `clean_text` turns two words with any whitespace run between them into
      the two words, lowered, with exactly one space between them. */
  lemma CleanTextTwoWords(u: string, w: string, v: string)
    requires Word(u) && Word(v)
    requires w != [] && forall i :: 0 <= i < |w| ==> IsSpace(w[i])
    ensures CleanText(Some(u + w + v)) == Lower(u) + " " + Lower(v)
  {
    WordsOfTwo(u, w, v);
    CleanTextOfTwo(u + w + v, u, v);
  }

  lemma CleanTextOfTwo(x: string, u: string, v: string)
    requires Words(x) == [u, v]
    ensures CleanText(Some(x)) == Lower(u) + " " + Lower(v)
  {
    LowerWordsTwo(u, v);
    JoinTwo(Lower(u), Lower(v), " ");
  }

  lemma LowerWordsTwo(u: string, v: string)
    ensures LowerWords([u, v]) == [Lower(u), Lower(v)]
  {
  }

  // ---------------------------------------------------------------------------
  // extract_metadata

  /** A `dim:field` element: its `mdschema`, `element` and `qualifier`
      attributes (a missing attribute reads as the empty string) and its text,
      absent for an empty element. */
  datatype Field = Field(mdschema: string, element: string, qualifier: string, text: Option<string>)

  /** The metadata key of a field: `schema.element`, followed by `.qualifier`
      only when there is a qualifier. */
  function MetadataKey(f: Field): (key: string)
    ensures f.qualifier == "" ==> key == f.mdschema + "." + f.element
    ensures f.qualifier != "" ==> key == f.mdschema + "." + f.element + "." + f.qualifier
  {
    var key := f.mdschema + "." + f.element;
    if f.qualifier != "" then key + "." + f.qualifier else key
  }

  /** When no attribute holds a dot, the key splits back into the schema, the
      element and, if present, the qualifier. */
  lemma MetadataKeySplits(f: Field)
    requires '.' !in f.mdschema && '.' !in f.element && '.' !in f.qualifier
    ensures Split(MetadataKey(f), '.') == if f.qualifier == "" then [f.mdschema, f.element] else [f.mdschema, f.element, f.qualifier]
  {
    if f.qualifier == "" {
      assert Join([f.mdschema, f.element], ".") == MetadataKey(f);
      SplitJoin([f.mdschema, f.element], '.');
    } else {
      var parts := [f.mdschema, f.element, f.qualifier];
      assert Join(parts[1..], ".") == f.element + "." + f.qualifier by {
        assert parts[1..][1..] == [f.qualifier];
      }
      assert Join(parts, ".") == MetadataKey(f);
      SplitJoin([f.mdschema, f.element, f.qualifier], '.');
    }
  }

  /** A stored metadata value: one text, or a list of two or more. */
  datatype MetaValue = Scalar(text: string) | Many(texts: seq<string>)

  /** Reference definition: the cleaned texts of the fields with key `key`,
      in field order. */
  function ValuesFor(fields: seq<Field>, key: string): seq<string> {
    if fields == [] then []
    else
      var last := fields[|fields| - 1];
      ValuesFor(fields[..|fields| - 1], key) + (if MetadataKey(last) == key then [CleanText(last.text)] else [])
  }

  /** How a list of values is stored: nothing, a scalar for one value, the
      list itself for two or more. */
  function Stored(values: seq<string>): (v: Option<MetaValue>)
    ensures v.None? <==> values == []
    ensures v.Some? && v.value.Many? ==> |v.value.texts| >= 2
  {
    if values == [] then None
    else if |values| == 1 then Some(Scalar(values[0]))
    else Some(Many(values))
  }

  /** The values a stored entry holds. */
  function StoredValues(v: MetaValue): seq<string> {
    match v
    case Scalar(text) => [text]
    case Many(texts) => texts
  }

  /** Storing loses nothing: the stored entry holds back the values. */
  lemma StoredRoundTrip(values: seq<string>)
    requires values != []
    ensures StoredValues(Stored(values).value) == values
  {
  }

  /** A value is stored under a key exactly when some field with that key
      cleans to it. */
  lemma {:induction false} ValuesForMembers(fields: seq<Field>, key: string, v: string)
    ensures v in ValuesFor(fields, key) <==> exists i :: 0 <= i < |fields| && MetadataKey(fields[i]) == key && CleanText(fields[i].text) == v
  {
    if fields != [] {
      var n := |fields| - 1;
      var init := fields[..n];
      ValuesForMembers(init, key, v);
      if v in ValuesFor(fields, key) {
        if v in ValuesFor(init, key) {
          var i :| 0 <= i < |init| && MetadataKey(init[i]) == key && CleanText(init[i].text) == v;
          assert fields[i] == init[i];
        } else {
          assert MetadataKey(fields[n]) == key && CleanText(fields[n].text) == v;
        }
      } else {
        var tail := if MetadataKey(fields[n]) == key then [CleanText(fields[n].text)] else [];
        assert ValuesFor(fields, key) == ValuesFor(init, key) + tail;
        assert v !in ValuesFor(init, key) && v !in tail;
        forall i | 0 <= i < |fields| && MetadataKey(fields[i]) == key
          ensures CleanText(fields[i].text) != v
        {
          if i < n {
            assert fields[i] == init[i];
          } else {
            assert i == n;
          }
        }
      }
    }
  }

  /** The keys of the fields, each once, in order of first occurrence. */
  function KeysInOrder(fields: seq<Field>): (keys: seq<string>)
    ensures Distinct(keys)
    ensures forall k :: k in keys <==> ValuesFor(fields, k) != []
  {
    if fields == [] then []
    else
      var prev := KeysInOrder(fields[..|fields| - 1]);
      var key := MetadataKey(fields[|fields| - 1]);
      if key in prev then prev else prev + [key]
  }

  /** One turn of the loop: add the cleaned text under the field's key,
      promoting a scalar to a two-element list, or extending a list. */
  function AddValue(entry: Option<MetaValue>, value: string): (r: MetaValue)
    ensures entry.None? ==> r == Scalar(value)
    ensures entry.Some? ==> StoredValues(r) == StoredValues(entry.value) + [value]
  {
    match entry
    case None => Scalar(value)
    case Some(Scalar(first)) => Many([first, value])
    case Some(Many(texts)) => Many(texts + [value])
  }

  /** `extract_metadata(record)` over the record's fields in document order:
      each key is present exactly when some field has it, holds the cleaned
      texts of its fields in order (a scalar for one), and keys come in
      order of first occurrence. */
  method ExtractMetadata(fields: seq<Field>) returns (metadata: Dict<MetaValue>)
    ensures metadata.Valid()
    ensures metadata.keys == KeysInOrder(fields)
    ensures forall k :: Entry(metadata, k) == Stored(ValuesFor(fields, k))
  {
    metadata := EmptyDict();
    for i := 0 to |fields|
      invariant metadata.Valid()
      invariant metadata.keys == KeysInOrder(fields[..i])
      invariant forall k :: Entry(metadata, k) == Stored(ValuesFor(fields[..i], k))
    {
      var field := fields[i];
      var key := MetadataKey(field);
      var value := CleanText(field.text);
      ghost var before := metadata;
      metadata := AddField(metadata, key, value);
      KeysInOrderSnoc(fields, i);
      var done := fields[..i + 1];
      forall k
        ensures Entry(metadata, k) == Stored(ValuesFor(done, k))
      {
        ExtractStep(fields, i, before, metadata, k);
      }
    }
    assert fields[..|fields|] == fields;
  }

  /** The loop body: a new key gets a scalar, a scalar becomes a two-element
      list, a list grows by the value; a new key goes last. */
  method AddField(metadata: Dict<MetaValue>, key: string, value: string) returns (result: Dict<MetaValue>)
    requires metadata.Valid()
    ensures result.Valid()
    ensures result.vals == metadata.vals[key := AddValue(Entry(metadata, key), value)]
    ensures result.keys == if key in metadata.keys then metadata.keys else metadata.keys + [key]
  {
    if key in metadata.vals {
      match metadata.vals[key]
      case Many(texts) =>
        result := metadata.Put(key, Many(texts + [value]));
      case Scalar(first) =>
        result := metadata.Put(key, Many([first, value]));
    } else {
      result := metadata.Put(key, Scalar(value));
    }
  }

  lemma ExtractStep(fields: seq<Field>, i: nat, before: Dict<MetaValue>, after: Dict<MetaValue>, k: string)
    requires i < |fields|
    requires Entry(before, k) == Stored(ValuesFor(fields[..i], k))
    requires var key := MetadataKey(fields[i]);
      after.vals == before.vals[key := AddValue(Entry(before, key), CleanText(fields[i].text))]
    ensures Entry(after, k) == Stored(ValuesFor(fields[..i + 1], k))
  {
    ValuesForSnoc(fields, i, k);
    var vs := ValuesFor(fields[..i], k);
    if k == MetadataKey(fields[i]) {
      StoredSnoc(vs, CleanText(fields[i].text));
    } else {
      assert vs + [] == vs;
    }
  }

  lemma KeysInOrderSnoc(fields: seq<Field>, i: nat)
    requires i < |fields|
    ensures var prev, key := KeysInOrder(fields[..i]), MetadataKey(fields[i]);
      KeysInOrder(fields[..i + 1]) == if key in prev then prev else prev + [key]
  {
    assert fields[..i + 1][..i] == fields[..i];
  }

  lemma ValuesForSnoc(fields: seq<Field>, i: nat, k: string)
    requires i < |fields|
    ensures ValuesFor(fields[..i + 1], k)
      == ValuesFor(fields[..i], k) + (if MetadataKey(fields[i]) == k then [CleanText(fields[i].text)] else [])
  {
    assert fields[..i + 1][..i] == fields[..i];
  }

  /** Adding a value to a stored entry stores the longer list. */
  lemma StoredSnoc(vs: seq<string>, value: string)
    ensures Stored(vs + [value]) == Some(AddValue(Stored(vs), value))
  {
    if vs == [] {
      assert vs + [value] == [value];
    } else if |vs| == 1 {
      assert vs + [value] == [vs[0], value];
    }
  }

  /** A dictionary's entry for `k` as an option. */
  function Entry<V>(d: Dict<V>, k: string): Option<V> {
    if k in d.vals then Some(d.vals[k]) else None
  }
}
