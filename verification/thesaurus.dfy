/** The thesaurus page built from the raw records: records with subject terms
    are grouped by their first type, each (title, terms) pair kept once, and
    written out as an HTML page with an index of categories followed by one
    section per category listing each entry's terms. */
module Thesaurus {
  import opened Text
  import opened PyDict

  /** One raw record: field name to its list of values. */
  type Registo = Dict<seq<string>>

  /** A thesaurus entry: a record's title and its subject terms. */
  datatype Entry = Entry(title: string, terms: seq<string>)

  // ---------------------------------------------------------------------------
  // The grouping loop

  const Uncategorized := "Uncategorized"

  /** `registo.get(key, [default])[0]`: `None` when the field is present but
      empty, where the lookup raises `IndexError`. */
  function FirstOr(r: Registo, key: string, default: string): (v: Option<string>)
    ensures v.None? <==> key in r.vals && r.vals[key] == []
    ensures v.Some? && key !in r.vals ==> v.value == default
    ensures key in r.vals && r.vals[key] != [] ==> v == Some(r.vals[key][0])
  {
    if key !in r.vals then Some(default)
    else if r.vals[key] == [] then None
    else Some(r.vals[key][0])
  }

  /** A record on which the script stops with an `IndexError`. */
  predicate Fails(r: Registo) {
    FirstOr(r, "type", Uncategorized).None? || FirstOr(r, "title", "").None?
  }

  function Terms(r: Registo): seq<string> {
    if "subject" in r.vals then r.vals["subject"] else []
  }

  function CategoryOf(r: Registo): string {
    var c := FirstOr(r, "type", Uncategorized);
    if c.Some? then c.value else Uncategorized
  }

  function EntryOf(r: Registo): Entry {
    var t := FirstOr(r, "title", "");
    Entry(if t.Some? then t.value else "", Terms(r))
  }

  function EntriesOf(kept: seq<(string, Entry)>): set<Entry> {
    set p | p in kept :: p.1
  }

  /** Reference definition: the (category, entry) pairs the loop keeps, in
      record order — records with terms whose entry was not kept before. */
  function Kept(registos: seq<Registo>): seq<(string, Entry)> {
    if registos == [] then []
    else
      var prev := Kept(registos[..|registos| - 1]);
      var r := registos[|registos| - 1];
      if Terms(r) != [] && EntryOf(r) !in EntriesOf(prev) then prev + [(CategoryOf(r), EntryOf(r))] else prev
  }

  lemma EntriesOfSnoc(kept: seq<(string, Entry)>, p: (string, Entry))
    ensures EntriesOf(kept + [p]) == EntriesOf(kept) + {p.1}
  {
    assert forall q :: q in kept + [p] <==> q in kept || q == p;
  }

  /** A record is the first to carry its entry among those with terms. */
  ghost predicate FirstWith(registos: seq<Registo>, i: nat, e: Entry)
    requires i < |registos|
  {
    && Terms(registos[i]) != [] && EntryOf(registos[i]) == e
    && forall j :: 0 <= j < i ==> Terms(registos[j]) == [] || EntryOf(registos[j]) != e
  }

  /** An entry is kept exactly when some record with terms carries it. */
  lemma KeptEntries(registos: seq<Registo>, e: Entry)
    ensures e in EntriesOf(Kept(registos)) <==> exists i :: 0 <= i < |registos| && Terms(registos[i]) != [] && EntryOf(registos[i]) == e
  {
    if e in EntriesOf(Kept(registos)) {
      KeptEntryFrom(registos, e);
    }
    if exists i :: 0 <= i < |registos| && Terms(registos[i]) != [] && EntryOf(registos[i]) == e {
      var i :| 0 <= i < |registos| && Terms(registos[i]) != [] && EntryOf(registos[i]) == e;
      EntryIsKept(registos, i);
    }
  }

  /** The kept entries grow by the last record's entry when it has terms. */
  lemma KeptGrows(registos: seq<Registo>)
    requires registos != []
    ensures var r := registos[|registos| - 1];
      EntriesOf(Kept(registos)) == EntriesOf(Kept(registos[..|registos| - 1])) + (if Terms(r) != [] then {EntryOf(r)} else {})
  {
    var prev := Kept(registos[..|registos| - 1]);
    var r := registos[|registos| - 1];
    if Terms(r) != [] && EntryOf(r) !in EntriesOf(prev) {
      EntriesOfSnoc(prev, (CategoryOf(r), EntryOf(r)));
    }
  }

  lemma {:induction false} KeptEntryFrom(registos: seq<Registo>, e: Entry)
    requires e in EntriesOf(Kept(registos))
    ensures exists i :: 0 <= i < |registos| && Terms(registos[i]) != [] && EntryOf(registos[i]) == e
  {
    var n := |registos| - 1;
    var init := registos[..n];
    KeptGrows(registos);
    if e in EntriesOf(Kept(init)) {
      KeptEntryFrom(init, e);
      var i :| 0 <= i < n && Terms(init[i]) != [] && EntryOf(init[i]) == e;
      assert registos[i] == init[i];
    } else {
      assert Terms(registos[n]) != [] && EntryOf(registos[n]) == e;
    }
  }

  lemma {:induction false} EntryIsKept(registos: seq<Registo>, i: nat)
    requires i < |registos| && Terms(registos[i]) != []
    ensures EntryOf(registos[i]) in EntriesOf(Kept(registos))
  {
    var n := |registos| - 1;
    KeptGrows(registos);
    if i < n {
      var init := registos[..n];
      assert init[i] == registos[i];
      EntryIsKept(init, i);
    }
  }

  lemma FirstWithPrefix(registos: seq<Registo>, n: nat, k: nat, e: Entry)
    requires k < n <= |registos|
    ensures FirstWith(registos[..n], k, e) <==> FirstWith(registos, k, e)
  {
    assert forall j :: 0 <= j <= k ==> registos[..n][j] == registos[j];
  }

  /** Every kept pair comes from the first record carrying its entry. */
  lemma {:induction false} KeptFromFirst(registos: seq<Registo>, c: string, e: Entry)
    requires (c, e) in Kept(registos)
    ensures exists i :: 0 <= i < |registos| && FirstWith(registos, i, e) && CategoryOf(registos[i]) == c
  {
    var n := |registos| - 1;
    var init := registos[..n];
    var r := registos[n];
    if (c, e) in Kept(init) {
      KeptFromFirst(init, c, e);
      var k :| 0 <= k < n && FirstWith(init, k, e) && CategoryOf(init[k]) == c;
      FirstWithPrefix(registos, n, k, e);
    } else {
      assert (c, e) == (CategoryOf(r), EntryOf(r)) && e !in EntriesOf(Kept(init));
      KeptEntries(init, e);
      forall j | 0 <= j < n
        ensures Terms(registos[j]) == [] || EntryOf(registos[j]) != e
      {
        assert registos[j] == init[j];
      }
      assert FirstWith(registos, n, e);
    }
  }

  /** The first record carrying an entry has it kept under its category. */
  lemma {:induction false} FirstIsKept(registos: seq<Registo>, i: nat, e: Entry)
    requires i < |registos| && FirstWith(registos, i, e)
    ensures (CategoryOf(registos[i]), e) in Kept(registos)
  {
    var n := |registos| - 1;
    var init := registos[..n];
    if i < n {
      FirstWithInit(registos, n, i, e);
      FirstIsKept(init, i, e);
      KeptKeeps(registos, (CategoryOf(registos[i]), e));
    } else {
      NotKeptBefore(registos, i, e);
      KeptAddsNew(registos);
    }
  }

  lemma FirstWithInit(registos: seq<Registo>, n: nat, i: nat, e: Entry)
    requires i < n <= |registos| && FirstWith(registos, i, e)
    ensures FirstWith(registos[..n], i, e) && registos[..n][i] == registos[i]
  {
    var init := registos[..n];
    forall j | 0 <= j < i
      ensures Terms(init[j]) == [] || EntryOf(init[j]) != e
    {
      assert init[j] == registos[j];
    }
  }

  /** One record more keeps every pair kept before. */
  lemma KeptKeeps(registos: seq<Registo>, p: (string, Entry))
    requires registos != [] && p in Kept(registos[..|registos| - 1])
    ensures p in Kept(registos)
  {
  }

  /** A last record with terms and a new entry has its pair kept. */
  lemma KeptAddsNew(registos: seq<Registo>)
    requires registos != []
    requires var r := registos[|registos| - 1];
      Terms(r) != [] && EntryOf(r) !in EntriesOf(Kept(registos[..|registos| - 1]))
    ensures var r := registos[|registos| - 1];
      (CategoryOf(r), EntryOf(r)) in Kept(registos)
  {
  }

  /** Before the first record carrying an entry, the entry is not kept. */
  lemma NotKeptBefore(registos: seq<Registo>, i: nat, e: Entry)
    requires i < |registos| && FirstWith(registos, i, e)
    ensures e !in EntriesOf(Kept(registos[..i]))
  {
    var init := registos[..i];
    KeptEntries(init, e);
    forall j | 0 <= j < |init|
      ensures Terms(init[j]) == [] || EntryOf(init[j]) != e
    {
      assert init[j] == registos[j];
    }
  }

  /** The loop keeps exactly the first record with each (title, terms) pair,
      under that record's category; records without terms are skipped. */
  lemma KeptFirstOccurrences(registos: seq<Registo>, c: string, e: Entry)
    ensures (c, e) in Kept(registos) <==> exists i :: 0 <= i < |registos| && FirstWith(registos, i, e) && CategoryOf(registos[i]) == c
  {
    if (c, e) in Kept(registos) {
      KeptFromFirst(registos, c, e);
    }
    if exists i :: 0 <= i < |registos| && FirstWith(registos, i, e) && CategoryOf(registos[i]) == c {
      var i :| 0 <= i < |registos| && FirstWith(registos, i, e) && CategoryOf(registos[i]) == c;
      FirstIsKept(registos, i, e);
    }
  }

  /** Each (title, terms) pair is kept at most once. */
  lemma {:induction false} KeptOnce(registos: seq<Registo>)
    ensures forall i, j :: 0 <= i < j < |Kept(registos)| ==> Kept(registos)[i].1 != Kept(registos)[j].1
  {
    if registos != [] {
      var init := registos[..|registos| - 1];
      KeptOnce(init);
      var prev := Kept(init);
      forall i | 0 <= i < |prev|
        ensures prev[i].1 in EntriesOf(prev)
      {
        assert prev[i] in prev;
      }
    }
  }

  /** The categories of the kept pairs, each once, in order of first use. */
  function CategoriesInOrder(kept: seq<(string, Entry)>): (cs: seq<string>)
    ensures Distinct(cs)
    ensures forall c :: c in cs <==> exists p :: p in kept && p.0 == c
  {
    if kept == [] then []
    else
      var prev := CategoriesInOrder(kept[..|kept| - 1]);
      var c := kept[|kept| - 1].0;
      assert forall p :: p in kept <==> p in kept[..|kept| - 1] || p == kept[|kept| - 1] by {
        assert kept == kept[..|kept| - 1] + [kept[|kept| - 1]];
      }
      if c in prev then prev else prev + [c]
  }

  /** The entries kept under category `c`, in record order. */
  function EntriesIn(kept: seq<(string, Entry)>, c: string): (es: seq<Entry>)
    ensures es == [] <==> forall p :: p in kept ==> p.0 != c
  {
    if kept == [] then []
    else
      var init := kept[..|kept| - 1];
      var p := kept[|kept| - 1];
      assert forall q :: q in kept <==> q in init || q == p by {
        assert kept == init + [p];
      }
      EntriesIn(init, c) + (if p.0 == c then [p.1] else [])
  }

  /** The loop state once the first `i` records are processed. */
  ghost predicate GroupedUpTo(registos: seq<Registo>, i: nat, unique: set<Entry>, categorias: Dict<seq<Entry>>)
    requires i <= |registos|
  {
    var kept := Kept(registos[..i]);
    && unique == EntriesOf(kept)
    && categorias.Valid()
    && categorias.keys == CategoriesInOrder(kept)
    && forall c :: c in categorias.vals ==> categorias.vals[c] == EntriesIn(kept, c)
  }

  /** The group already held under `c`, or a fresh one. */
  function Group(categorias: Dict<seq<Entry>>, c: string): seq<Entry> {
    if c in categorias.vals then categorias.vals[c] else []
  }

  /** A record with terms whose entry is new is appended to its category. */
  lemma GroupedAdd(registos: seq<Registo>, i: nat, unique: set<Entry>, categorias: Dict<seq<Entry>>)
    requires i < |registos| && GroupedUpTo(registos, i, unique, categorias)
    requires Terms(registos[i]) != [] && EntryOf(registos[i]) !in unique
    ensures var r := registos[i];
      GroupedUpTo(registos, i + 1, unique + {EntryOf(r)},
                  categorias.Put(CategoryOf(r), Group(categorias, CategoryOf(r)) + [EntryOf(r)]))
  {
    var kept := Kept(registos[..i]);
    var r := registos[i];
    var p := (CategoryOf(r), EntryOf(r));
    KeptAddsAt(registos, i);
    var categorias' := categorias.Put(p.0, Group(categorias, p.0) + [p.1]);
    EntriesOfSnoc(kept, p);
    CategoriesInOrderSnoc(kept, p);
    forall c | c in categorias'.vals
      ensures categorias'.vals[c] == EntriesIn(kept + [p], c)
    {
      EntriesInSnoc(kept, p, c);
      if c != p.0 {
        assert categorias'.vals[c] == categorias.vals[c];
      } else if c !in categorias.vals {
        assert c !in CategoriesInOrder(kept);
        assert EntriesIn(kept, c) == [];
      }
    }
  }

  lemma KeptAddsAt(registos: seq<Registo>, i: nat)
    requires i < |registos| && Terms(registos[i]) != [] && EntryOf(registos[i]) !in EntriesOf(Kept(registos[..i]))
    ensures Kept(registos[..i + 1]) == Kept(registos[..i]) + [(CategoryOf(registos[i]), EntryOf(registos[i]))]
  {
    assert registos[..i + 1][..i] == registos[..i];
  }

  lemma CategoriesInOrderSnoc(kept: seq<(string, Entry)>, p: (string, Entry))
    ensures CategoriesInOrder(kept + [p]) ==
      if p.0 in CategoriesInOrder(kept) then CategoriesInOrder(kept) else CategoriesInOrder(kept) + [p.0]
  {
    assert (kept + [p])[..|kept|] == kept;
  }

  lemma EntriesInSnoc(kept: seq<(string, Entry)>, p: (string, Entry), c: string)
    ensures EntriesIn(kept + [p], c) == EntriesIn(kept, c) + (if p.0 == c then [p.1] else [])
  {
    assert (kept + [p])[..|kept|] == kept;
  }

  /** A record without terms, or with an entry already kept, changes nothing. */
  lemma GroupedSkip(registos: seq<Registo>, i: nat, unique: set<Entry>, categorias: Dict<seq<Entry>>)
    requires i < |registos| && GroupedUpTo(registos, i, unique, categorias)
    requires Terms(registos[i]) == [] || EntryOf(registos[i]) in unique
    ensures GroupedUpTo(registos, i + 1, unique, categorias)
  {
    assert registos[..i + 1][..i] == registos[..i];
  }

  /** The body of the grouping loop for record `i`: `None` when its `type` or
      `title` lookup raises; otherwise the state once record `i` is done. */
  method AddRecord(registos: seq<Registo>, i: nat, unique: set<Entry>, categorias: Dict<seq<Entry>>)
    returns (result: Option<(set<Entry>, Dict<seq<Entry>>)>)
    requires i < |registos| && GroupedUpTo(registos, i, unique, categorias)
    ensures result.None? <==> Fails(registos[i])
    ensures result.Some? ==> GroupedUpTo(registos, i + 1, result.value.0, result.value.1)
  {
    var registo := registos[i];
    var registoType := FirstOr(registo, "type", Uncategorized);
    var title := FirstOr(registo, "title", "");
    if registoType.None? || title.None? {
      return None;
    }
    var terms := Terms(registo);
    var entry := Entry(title.value, terms);
    assert entry == EntryOf(registo) && registoType.value == CategoryOf(registo);
    if terms != [] && entry !in unique {
      GroupedAdd(registos, i, unique, categorias);
      var group := Group(categorias, registoType.value) + [entry];
      return Some((unique + {entry}, categorias.Put(registoType.value, group)));
    } else {
      GroupedSkip(registos, i, unique, categorias);
      return Some((unique, categorias));
    }
  }

  /** The grouping loop over `data.get('Registos', [])`: `None` when some
      record has an empty `type` or `title` list (the script stops with an
      `IndexError`); otherwise the categories in order of first use, each
      with its kept entries in record order. */
  method Categorise(registos: seq<Registo>) returns (result: Option<Dict<seq<Entry>>>)
    ensures result.None? <==> exists i :: 0 <= i < |registos| && Fails(registos[i])
    ensures result.Some? ==>
      var kept := Kept(registos);
      && result.value.Valid()
      && result.value.keys == CategoriesInOrder(kept)
      && forall c :: c in result.value.vals ==> result.value.vals[c] == EntriesIn(kept, c)
  {
    var unique: set<Entry> := {};
    var categorias: Dict<seq<Entry>> := EmptyDict();
    for i := 0 to |registos|
      invariant GroupedUpTo(registos, i, unique, categorias)
      invariant forall j :: 0 <= j < i ==> !Fails(registos[j])
    {
      var step := AddRecord(registos, i, unique, categorias);
      if step.None? {
        return None;
      }
      unique, categorias := step.value.0, step.value.1;
    }
    assert registos[..|registos|] == registos;
    return Some(categorias);
  }

  // ---------------------------------------------------------------------------
  // The HTML page

  const PageOpen := "<html><head><title>Registos</title></head><body>"
  const PageHeading := "<h1>Registos</h1>"
  const IndexHeading := "<h2>\U{00CD}ndice</h2>"
  const ListOpen := "<ul>"
  const ListClose := "</ul>"
  const ItemOpen := "<li>"
  const ItemClose := "</li>"
  const PageClose := "</body></html>"
  const LinkOpen := "<li><a href=\"#"
  const LinkMid := "\">"
  const LinkClose := "</a></li>"
  const HeadingOpen := "<h2 id=\""
  const HeadingClose := "</h2>"
  const TitleOpen := "<h3>"
  const TitleClose := "</h3>"

  /** The index line of a category, linking its section. */
  function IndexLine(c: string): string {
    LinkOpen + c + LinkMid + c + LinkClose
  }

  function SectionHeading(c: string): string {
    HeadingOpen + c + LinkMid + c + HeadingClose
  }

  function TermLine(t: string): string {
    ItemOpen + t + ItemClose
  }

  function IndexLines(cs: seq<string>): (ls: seq<string>)
    ensures |ls| == |cs|
  {
    if cs == [] then [] else IndexLines(cs[..|cs| - 1]) + [IndexLine(cs[|cs| - 1])]
  }

  function TermLines(ts: seq<string>): (ls: seq<string>)
    ensures |ls| == |ts|
  {
    if ts == [] then [] else TermLines(ts[..|ts| - 1]) + [TermLine(ts[|ts| - 1])]
  }

  function EntryLines(e: Entry): seq<string> {
    [ItemOpen, TitleOpen + e.title + TitleClose, ListOpen] + TermLines(e.terms) + [ListClose, ItemClose]
  }

  function EntriesLines(es: seq<Entry>): seq<string> {
    if es == [] then [] else EntriesLines(es[..|es| - 1]) + EntryLines(es[|es| - 1])
  }

  lemma EntriesLinesSnoc(head: seq<string>, es: seq<Entry>, k: nat)
    requires k < |es|
    ensures head + EntriesLines(es[..k + 1]) == head + EntriesLines(es[..k]) + EntryLines(es[k])
  {
    assert es[..k + 1][..k] == es[..k];
  }

  function SectionLines(c: string, es: seq<Entry>): seq<string> {
    [SectionHeading(c), ListOpen] + EntriesLines(es) + [ListClose]
  }

  function SectionsLines(categorias: Dict<seq<Entry>>, cs: seq<string>): seq<string>
    requires forall c :: c in cs ==> c in categorias.vals
  {
    if cs == [] then []
    else
      var c := cs[|cs| - 1];
      SectionsLines(categorias, cs[..|cs| - 1]) + SectionLines(c, categorias.vals[c])
  }

  /** Reference definition of the page, line by line: the heading, the
      index of categories, then each category's section. */
  function ThesaurusLines(categorias: Dict<seq<Entry>>): seq<string>
    requires categorias.Valid()
  {
    [PageOpen, PageHeading, IndexHeading, ListOpen] + IndexLines(categorias.keys) + [ListClose]
      + SectionsLines(categorias, categorias.keys) + [PageClose]
  }

  /** The file text of a list of lines, each ended by a newline. */
  function Unlines(ls: seq<string>): string {
    if ls == [] then "" else Unlines(ls[..|ls| - 1]) + ls[|ls| - 1] + "\n"
  }

  lemma {:induction false} UnlinesAppend(a: seq<string>, b: seq<string>)
    ensures Unlines(a + b) == Unlines(a) + Unlines(b)
    decreases |b|
  {
    if b == [] {
      assert a + b == a;
    } else {
      var init := b[..|b| - 1];
      assert (a + b)[..|a + b| - 1] == a + init;
      UnlinesAppend(a, init);
    }
  }

  lemma UnlinesSnoc(ls: seq<string>, l: string)
    ensures Unlines(ls + [l]) == Unlines(ls) + l + "\n"
  {
    assert (ls + [l])[..|ls|] == ls;
  }

  lemma TermLinesSnoc(head: seq<string>, ts: seq<string>, k: nat)
    requires k < |ts|
    ensures head + TermLines(ts[..k + 1]) == head + TermLines(ts[..k]) + [TermLine(ts[k])]
  {
    assert ts[..k + 1][..k] == ts[..k];
  }

  /** Writing one entry: its item, title, and the list of its terms. */
  method WriteEntry(e: Entry) returns (text: string)
    ensures text == Unlines(EntryLines(e))
  {
    ghost var lines: seq<string> := [];
    text := "";
    UnlinesSnoc(lines, ItemOpen);
    text, lines := text + ItemOpen + "\n", lines + [ItemOpen];
    UnlinesSnoc(lines, TitleOpen + e.title + TitleClose);
    text, lines := text + TitleOpen + e.title + TitleClose + "\n", lines + [TitleOpen + e.title + TitleClose];
    UnlinesSnoc(lines, ListOpen);
    text, lines := text + ListOpen + "\n", lines + [ListOpen];
    ghost var head := lines;
    for k := 0 to |e.terms|
      invariant text == Unlines(lines)
      invariant lines == head + TermLines(e.terms[..k])
    {
      TermLinesSnoc(head, e.terms, k);
      UnlinesSnoc(lines, TermLine(e.terms[k]));
      text, lines := text + TermLine(e.terms[k]) + "\n", lines + [TermLine(e.terms[k])];
    }
    assert e.terms[..|e.terms|] == e.terms;
    UnlinesSnoc(lines, ListClose);
    text, lines := text + ListClose + "\n", lines + [ListClose];
    UnlinesSnoc(lines, ItemClose);
    text, lines := text + ItemClose + "\n", lines + [ItemClose];
    assert lines == EntryLines(e);
  }

  /** Writing one category's section: its heading and list, then its entries. */
  method WriteSection(c: string, es: seq<Entry>) returns (text: string)
    ensures text == Unlines(SectionLines(c, es))
  {
    ghost var lines: seq<string> := [];
    text := "";
    UnlinesSnoc(lines, SectionHeading(c));
    text, lines := text + SectionHeading(c) + "\n", lines + [SectionHeading(c)];
    UnlinesSnoc(lines, ListOpen);
    text, lines := text + ListOpen + "\n", lines + [ListOpen];
    ghost var head := lines;
    for k := 0 to |es|
      invariant text == Unlines(lines)
      invariant lines == head + EntriesLines(es[..k])
    {
      EntriesLinesSnoc(head, es, k);
      var entry := WriteEntry(es[k]);
      UnlinesAppend(lines, EntryLines(es[k]));
      text, lines := text + entry, lines + EntryLines(es[k]);
    }
    assert es[..|es|] == es;
    UnlinesSnoc(lines, ListClose);
    text, lines := text + ListClose + "\n", lines + [ListClose];
    assert lines == SectionLines(c, es);
  }

  /** Writing the index: one link per category, in dictionary order. */
  method WriteIndex(cs: seq<string>) returns (text: string)
    ensures text == Unlines(IndexLines(cs))
  {
    ghost var lines: seq<string> := [];
    text := "";
    for k := 0 to |cs|
      invariant text == Unlines(lines)
      invariant lines == IndexLines(cs[..k])
    {
      assert cs[..k + 1][..k] == cs[..k];
      UnlinesSnoc(lines, IndexLine(cs[k]));
      text, lines := text + IndexLine(cs[k]) + "\n", lines + [IndexLine(cs[k])];
    }
    assert cs[..|cs|] == cs;
  }

  /** Writing the sections: one per category, in dictionary order. */
  method WriteSections(categorias: Dict<seq<Entry>>, cs: seq<string>) returns (text: string)
    requires forall c :: c in cs ==> c in categorias.vals
    ensures text == Unlines(SectionsLines(categorias, cs))
  {
    ghost var lines: seq<string> := [];
    text := "";
    for k := 0 to |cs|
      invariant text == Unlines(lines)
      invariant lines == SectionsLines(categorias, cs[..k])
    {
      assert cs[..k + 1][..k] == cs[..k];
      var section := WriteSection(cs[k], categorias.vals[cs[k]]);
      UnlinesAppend(lines, SectionLines(cs[k], categorias.vals[cs[k]]));
      text, lines := text + section, lines + SectionLines(cs[k], categorias.vals[cs[k]]);
    }
    assert cs[..|cs|] == cs;
  }

  /** The writes to `thesaurus.html`, in order. */
  method WriteThesaurus(categorias: Dict<seq<Entry>>) returns (text: string)
    requires categorias.Valid()
    ensures text == Unlines(ThesaurusLines(categorias))
  {
    ghost var lines: seq<string> := [];
    text := "";
    UnlinesSnoc(lines, PageOpen);
    text, lines := text + PageOpen + "\n", lines + [PageOpen];
    UnlinesSnoc(lines, PageHeading);
    text, lines := text + PageHeading + "\n", lines + [PageHeading];
    UnlinesSnoc(lines, IndexHeading);
    UnlinesSnoc(lines + [IndexHeading], ListOpen);
    text := text + IndexHeading + "\n" + ListOpen + "\n";
    lines := lines + [IndexHeading];
    lines := lines + [ListOpen];
    ghost var preamble := lines;
    assert preamble == [PageOpen, PageHeading, IndexHeading, ListOpen];
    var index := WriteIndex(categorias.keys);
    UnlinesAppend(lines, IndexLines(categorias.keys));
    text, lines := text + index, lines + IndexLines(categorias.keys);
    UnlinesSnoc(lines, ListClose);
    text, lines := text + ListClose + "\n", lines + [ListClose];
    var sections := WriteSections(categorias, categorias.keys);
    UnlinesAppend(lines, SectionsLines(categorias, categorias.keys));
    text, lines := text + sections, lines + SectionsLines(categorias, categorias.keys);
    UnlinesSnoc(lines, PageClose);
    text, lines := text + PageClose + "\n", lines + [PageClose];
    assert lines == preamble + IndexLines(categorias.keys) + [ListClose]
      + SectionsLines(categorias, categorias.keys) + [PageClose];
  }

  // ---------------------------------------------------------------------------
  // Reading the page back

  /** The category an index line links to. */
  function CategoryOfIndexLine(l: string): string
    requires |l| >= |LinkOpen| + |LinkMid| + |LinkClose|
  {
    var n := (|l| - |LinkOpen| - |LinkMid| - |LinkClose|) / 2;
    l[|LinkOpen|..|LinkOpen| + n]
  }

  lemma IndexLineReadBack(c: string)
    ensures |IndexLine(c)| >= |LinkOpen| + |LinkMid| + |LinkClose|
    ensures CategoryOfIndexLine(IndexLine(c)) == c
  {
    var l := IndexLine(c);
    assert |l| == |LinkOpen| + 2 * |c| + |LinkMid| + |LinkClose|;
    assert l[|LinkOpen|..|LinkOpen| + |c|] == c;
  }

  /** The index names every category exactly once, in the order of the
      sections: reading the category back from each index line gives the
      dictionary's keys. */
  lemma IndexReadsBack(cs: seq<string>)
    ensures forall i :: 0 <= i < |cs| ==>
      |IndexLines(cs)[i]| >= |LinkOpen| + |LinkMid| + |LinkClose| && CategoryOfIndexLine(IndexLines(cs)[i]) == cs[i]
  {
    forall i | 0 <= i < |cs|
      ensures |IndexLines(cs)[i]| >= |LinkOpen| + |LinkMid| + |LinkClose| && CategoryOfIndexLine(IndexLines(cs)[i]) == cs[i]
    {
      IndexLineAt(cs, i);
      IndexLineReadBack(cs[i]);
    }
  }

  /** Distinct categories give distinct index lines, so each category is
      linked once. */
  lemma IndexLinksOnce(categorias: Dict<seq<Entry>>)
    requires categorias.Valid()
    ensures var ls := IndexLines(categorias.keys);
      && (forall i, j :: 0 <= i < j < |ls| ==> ls[i] != ls[j])
      && (forall c :: c in categorias.vals ==> exists i :: 0 <= i < |ls| && ls[i] == IndexLine(c))
  {
    var cs := categorias.keys;
    var ls := IndexLines(cs);
    IndexReadsBack(cs);
    forall c | c in categorias.vals
      ensures exists i :: 0 <= i < |ls| && ls[i] == IndexLine(c)
    {
      var i :| 0 <= i < |cs| && cs[i] == c;
      IndexLineAt(cs, i);
    }
  }

  lemma {:induction false} IndexLineAt(cs: seq<string>, i: nat)
    requires i < |cs|
    ensures IndexLines(cs)[i] == IndexLine(cs[i])
  {
    if i < |cs| - 1 {
      IndexLineAt(cs[..|cs| - 1], i);
    }
  }

  /** The term of a term line. */
  function TermOfLine(l: string): string
    requires |l| >= |ItemOpen| + |ItemClose|
  {
    l[|ItemOpen|..|l| - |ItemClose|]
  }

  /** Each entry's terms are listed in order, one `<li>` per term: reading
      the term lines back gives the terms. */
  lemma TermsReadBack(ts: seq<string>)
    ensures forall i :: 0 <= i < |ts| ==>
      |TermLines(ts)[i]| >= |ItemOpen| + |ItemClose| && TermOfLine(TermLines(ts)[i]) == ts[i]
  {
    forall i | 0 <= i < |ts|
      ensures |TermLines(ts)[i]| >= |ItemOpen| + |ItemClose| && TermOfLine(TermLines(ts)[i]) == ts[i]
    {
      TermLineAt(ts, i);
      var l := TermLine(ts[i]);
      assert l[|ItemOpen|..|l| - |ItemClose|] == ts[i];
    }
  }

  lemma {:induction false} TermLineAt(ts: seq<string>, i: nat)
    requires i < |ts|
    ensures TermLines(ts)[i] == TermLine(ts[i])
  {
    if i < |ts| - 1 {
      TermLineAt(ts[..|ts| - 1], i);
    }
  }
}
