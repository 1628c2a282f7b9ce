/** The part of the search-database loader that turns one record's parsed
    Dublin Core elements into a database row: the year range of its dates,
    the multi-valued fields joined with `" | "`, and the link, internal code
    and relation picked from the identifier and relation lists. */
module Procura {
  import opened Text
  import opened PyDict

  // ---------------------------------------------------------------------------
  // parse_dates

  /** The years among the date strings: the integer value of each string
      made only of digits. */
  function Years(dates: seq<string>): set<nat> {
    set d | d in dates && IsDigits(d) :: DigitsValue(d)
  }

  lemma YearsSnoc(dates: seq<string>, d: string)
    ensures Years(dates + [d]) == Years(dates) + (if IsDigits(d) then {DigitsValue(d)} else {})
  {
    assert forall x :: x in dates + [d] <==> x in dates || x == d;
  }

  /** The least year, met scanning the dates in order. */
  function Earliest(dates: seq<string>): (r: Option<nat>)
    ensures r.None? <==> Years(dates) == {}
    ensures r.Some? ==> r.value in Years(dates) && forall y :: y in Years(dates) ==> r.value <= y
  {
    if dates == [] then None
    else
      var init, d := dates[..|dates| - 1], dates[|dates| - 1];
      assert dates == init + [d];
      YearsSnoc(init, d);
      var prev := Earliest(init);
      if !IsDigits(d) then prev
      else if prev.None? || DigitsValue(d) < prev.value then Some(DigitsValue(d))
      else prev
  }

  /** The greatest year, met scanning the dates in order. */
  function Latest(dates: seq<string>): (r: Option<nat>)
    ensures r.None? <==> Years(dates) == {}
    ensures r.Some? ==> r.value in Years(dates) && forall y :: y in Years(dates) ==> y <= r.value
  {
    if dates == [] then None
    else
      var init, d := dates[..|dates| - 1], dates[|dates| - 1];
      assert dates == init + [d];
      YearsSnoc(init, d);
      var prev := Latest(init);
      if !IsDigits(d) then prev
      else if prev.None? || DigitsValue(d) > prev.value then Some(DigitsValue(d))
      else prev
  }

  /** `parse_dates(dates)`: the first and last of the sorted distinct years,
      that is the least and the greatest, or `(None, None)` without any. */
  function ParseDates(dates: seq<string>): (r: (Option<nat>, Option<nat>))
    ensures r.0.None? <==> r.1.None?
    ensures r.0.None? <==> forall d :: d in dates ==> !IsDigits(d)
    ensures r.0.Some? ==> r.0.value <= r.1.value
    ensures r.0.Some? ==> r.0.value in Years(dates) && r.1.value in Years(dates)
    ensures r.0.Some? ==> forall y :: y in Years(dates) ==> r.0.value <= y <= r.1.value
  {
    NoYears(dates);
    (Earliest(dates), Latest(dates))
  }

  lemma NoYears(dates: seq<string>)
    ensures Years(dates) == {} <==> forall d :: d in dates ==> !IsDigits(d)
  {
    if exists d :: d in dates && IsDigits(d) {
      var d :| d in dates && IsDigits(d);
      assert DigitsValue(d) in Years(dates);
    }
  }

  /** Only the set of date strings matters: neither their order nor
      repetitions change the result. */
  lemma ParseDatesIgnoresOrder(a: seq<string>, b: seq<string>)
    requires forall d :: d in a <==> d in b
    ensures ParseDates(a) == ParseDates(b)
  {
    assert Years(a) == Years(b);
    var ra, rb := ParseDates(a), ParseDates(b);
    if ra.0.Some? {
      assert ra.0.value <= rb.0.value && rb.0.value <= ra.0.value;
      assert ra.1.value <= rb.1.value && rb.1.value <= ra.1.value;
    }
  }

  /** A date that is not all digits, such as `1900-1950`, is ignored. */
  lemma ParseDatesSkipsNonDigits(dates: seq<string>, d: string)
    requires !IsDigits(d)
    ensures ParseDates(dates + [d]) == ParseDates(dates)
  {
    YearsSnoc(dates, d);
    var r, s := ParseDates(dates + [d]), ParseDates(dates);
    if r.0.Some? {
      assert r.0.value <= s.0.value && s.0.value <= r.0.value;
      assert r.1.value <= s.1.value && s.1.value <= r.1.value;
    }
  }

  // ---------------------------------------------------------------------------
  // extrair_dados, after the XML is parsed

  /** The texts of the elements of each Dublin Core tag, in document order;
      `None` for an element without text. */
  type DcElements = map<string, seq<Option<string>>>

  /** `findall` of a tag: no elements when the tag is absent. */
  function Texts(metadata: DcElements, tag: string): seq<Option<string>> {
    if tag in metadata then metadata[tag] else []
  }

  lemma StripStripped(s: string)
    ensures Strip(Strip(s)) == Strip(s)
  {
    StripNoSpaceEnds(Strip(s));
  }

  /** `get(tag)`: the stripped texts of the elements whose text is non-empty,
      in document order. */
  function Get(texts: seq<Option<string>>): (r: seq<string>)
    ensures |r| <= |texts|
  {
    if texts == [] then []
    else
      var prev := Get(texts[..|texts| - 1]);
      var t := texts[|texts| - 1];
      if t.Some? && t.value != "" then prev + [Strip(t.value)] else prev
  }

  /** The values kept are stripped already. */
  lemma {:induction false} GetStripped(texts: seq<Option<string>>)
    ensures forall i :: 0 <= i < |Get(texts)| ==> Strip(Get(texts)[i]) == Get(texts)[i]
  {
    if texts != [] {
      var init := texts[..|texts| - 1];
      GetStripped(init);
      var t := texts[|texts| - 1];
      if t.Some? && t.value != "" {
        StripStripped(t.value);
      }
    }
  }

  /** A value is kept exactly when some element has a non-empty text that
      strips to it. */
  lemma GetMembers(texts: seq<Option<string>>, x: string)
    ensures x in Get(texts) <==> exists i :: 0 <= i < |texts| && Kept(texts[i], x)
  {
    if x in Get(texts) {
      GetFrom(texts, x);
    }
    if exists i :: 0 <= i < |texts| && Kept(texts[i], x) {
      var i :| 0 <= i < |texts| && Kept(texts[i], x);
      GetKeeps(texts, i);
    }
  }

  /** Every value kept comes from some element. */
  lemma {:induction false} GetFrom(texts: seq<Option<string>>, x: string)
    requires x in Get(texts)
    ensures exists i :: 0 <= i < |texts| && Kept(texts[i], x)
  {
    var n := |texts| - 1;
    var init := texts[..n];
    GetSnoc(texts, x);
    if x in Get(init) {
      GetFrom(init, x);
      var i :| 0 <= i < n && Kept(init[i], x);
      assert texts[i] == init[i];
    } else {
      assert Kept(texts[n], x);
    }
  }

  /** Every element with a non-empty text has its stripped text kept. */
  lemma {:induction false} GetKeeps(texts: seq<Option<string>>, i: nat)
    requires i < |texts| && texts[i].Some? && texts[i].value != ""
    ensures Strip(texts[i].value) in Get(texts)
  {
    var n := |texts| - 1;
    if i < n {
      var init := texts[..n];
      assert init[i] == texts[i];
      GetKeeps(init, i);
      assert Get(init) <= Get(texts);
    }
  }

  lemma GetSnoc(texts: seq<Option<string>>, x: string)
    requires texts != []
    ensures x in Get(texts) <==> x in Get(texts[..|texts| - 1]) || Kept(texts[|texts| - 1], x)
  {
  }

  /** An element whose non-empty text strips to `x`. */
  predicate Kept(t: Option<string>, x: string) {
    t.Some? && t.value != "" && Strip(t.value) == x
  }

  const Separator := " | "

  /** The row `extrair_dados` returns for a record. */
  datatype Dados = Dados(
    titulo: string, assunto: string,
    dataInicio: Option<nat>, dataFim: Option<nat>,
    tipo: string, formato: string,
    url: Option<string>, codigo: Option<string>, relacao: Option<string>)

  /** `extrair_dados(xml_path)` once the record is parsed: no row without a
      Dublin Core block; otherwise the multi-valued fields joined, the date
      range, the first identifier as link, the second as internal code, and
      the first relation. */
  function ExtrairDados(metadata: Option<DcElements>): (r: Option<Dados>)
    ensures r.None? <==> metadata.None?
    ensures r.Some? ==>
      var ids := Get(Texts(metadata.value, "identifier"));
      var rels := Get(Texts(metadata.value, "relation"));
      && (r.value.url.Some? <==> |ids| >= 1)
      && (r.value.codigo.Some? <==> |ids| >= 2)
      && (r.value.relacao.Some? <==> |rels| >= 1)
      && (r.value.url.Some? ==> r.value.url.value == ids[0])
      && (r.value.codigo.Some? ==> r.value.url.Some? && r.value.codigo.value == ids[1])
      && (r.value.relacao.Some? ==> r.value.relacao.value == rels[0])
      && (r.value.dataInicio.Some? <==> r.value.dataFim.Some?)
      && (r.value.dataInicio.Some? ==> r.value.dataInicio.value <= r.value.dataFim.value)
    ensures r.Some? ==> (r.value.dataInicio, r.value.dataFim) == ParseDates(Get(Texts(metadata.value, "date")))
  {
    match metadata
    case None => None
    case Some(md) =>
      var dates := ParseDates(Get(Texts(md, "date")));
      var ids := Get(Texts(md, "identifier"));
      var rels := Get(Texts(md, "relation"));
      Some(Dados(
        titulo := Join(Get(Texts(md, "title")), Separator),
        assunto := Join(Get(Texts(md, "subject")), Separator),
        dataInicio := dates.0,
        dataFim := dates.1,
        tipo := Join(Get(Texts(md, "type")), Separator),
        formato := Join(Get(Texts(md, "format")), Separator),
        url := if |ids| > 0 then Some(ids[0]) else None,
        codigo := if |ids| > 1 then Some(ids[1]) else None,
        relacao := if |rels| > 0 then Some(rels[0]) else None))
  }

  /** Each piece of a list, stripped. */
  function StripAll(pieces: seq<string>): (r: seq<string>)
    ensures |r| == |pieces|
  {
    if pieces == [] then [] else [Strip(pieces[0])] + StripAll(pieces[1..])
  }

  lemma StripLeadingSpace(s: string)
    ensures Strip([' '] + s) == Strip(s)
  {
    assert ([' '] + s)[1..] == s;
  }

  lemma StripTrailingSpace(s: string)
    requires Strip(s) == s
    ensures Strip(s + [' ']) == s
  {
    if s != [] {
      assert (s + [' '])[0] == s[0];
      assert StripLeft(s + [' ']) == s + [' '];
      assert (s + [' '])[..|s|] == s;
    }
  }

  /** A space in front of a text without the separator only widens the first
      piece of its split. */
  lemma {:induction false} SplitAfterSpace(s: string, sep: char)
    requires sep != ' '
    ensures Split([' '] + s, sep) == [[' '] + Split(s, sep)[0]] + Split(s, sep)[1..]
  {
    var t := [' '] + s;
    assert t[1..] == s;
    if sep in s {
      var i := IndexOf(s, sep);
      assert t[i + 1] == sep && sep !in t[..i + 1] by {
        assert t[..i + 1] == [' '] + s[..i];
      }
      assert IndexOf(t, sep) == i + 1;
      assert t[..i + 1] == [' '] + s[..i];
      assert t[i + 2..] == s[i + 1..];
    } else {
      assert sep !in t;
    }
  }

  /** Splitting a joined field at `|` and stripping each piece gives back the
      values in document order, when no value holds a `|`. */
  lemma {:induction false} JoinedValuesSplitBack(values: seq<string>)
    requires values != []
    requires forall i :: 0 <= i < |values| ==> PlainValue(values[i])
    ensures StripAll(Split(Join(values, Separator), '|')) == values
  {
    assert PlainValue(values[0]);
    if |values| == 1 {
      JoinedSingle(values[0]);
    } else {
      JoinedValuesSplitBack(values[1..]);
      JoinedStep(values);
    }
  }

  lemma JoinedSingle(v: string)
    requires PlainValue(v)
    ensures StripAll(Split(Join([v], Separator), '|')) == [v]
  {
    assert Split(v, '|') == [v];
    StripAllCons(v, []);
  }

  /** One value in front of a joined list that splits back splits back too. */
  lemma JoinedStep(values: seq<string>)
    requires |values| >= 2 && PlainValue(values[0])
    requires StripAll(Split(Join(values[1..], Separator), '|')) == values[1..]
    ensures StripAll(Split(Join(values, Separator), '|')) == values
  {
    var v, rest := values[0], values[1..];
    var joined := Join(rest, Separator);
    assert Join(values, Separator) == v + Separator + joined;
    SplitJoinedStep(v, joined);
    assert values == [v] + rest;
  }

  /** A value that survives the round trip: no `|`, no surrounding whitespace. */
  predicate PlainValue(v: string) {
    '|' !in v && Strip(v) == v
  }

  /** Splitting `v | rest` at `|` and stripping gives `v`, then the pieces of
      `rest`. */
  lemma SplitJoinedStep(v: string, joined: string)
    requires '|' !in v && Strip(v) == v
    ensures StripAll(Split(v + Separator + joined, '|')) == [v] + StripAll(Split(joined, '|'))
  {
    SplitAtSeparator(v, joined);
    SplitAfterSpace(joined, '|');
    var pieces := Split(joined, '|');
    StripTrailingSpace(v);
    StripLeadingSpace(pieces[0]);
    StripAllCons(v + [' '], [[' '] + pieces[0]] + pieces[1..]);
    StripAllCons([' '] + pieces[0], pieces[1..]);
    StripAllCons(pieces[0], pieces[1..]);
    assert [pieces[0]] + pieces[1..] == pieces;
  }

  /** The first `|` of `v | rest` is the separator's. */
  lemma SplitAtSeparator(v: string, joined: string)
    requires '|' !in v
    ensures Split(v + Separator + joined, '|') == [v + [' ']] + Split([' '] + joined, '|')
  {
    var head, tail := v + [' '], [' '] + joined;
    SeparatorPieces(v, joined);
    var s := head + ['|'] + tail;
    IndexOfAfterPiece(head, '|', tail);
    assert s[..|head|] == head && s[|head| + 1..] == tail;
  }

  lemma SeparatorPieces(v: string, joined: string)
    ensures v + Separator + joined == (v + [' ']) + ['|'] + ([' '] + joined)
  {
    assert Separator == [' '] + ['|'] + [' '];
  }

  lemma StripAllCons(a: string, t: seq<string>)
    ensures StripAll([a] + t) == [Strip(a)] + StripAll(t)
  {
    assert ([a] + t)[1..] == t;
  }

  /** The tags whose values `extrair_dados` joins with `" | "`. */
  predicate JoinedTag(tag: string) {
    tag == "title" || tag == "subject" || tag == "type" || tag == "format"
  }

  /** The column of the row that holds the joined values of a tag. */
  function Column(d: Dados, tag: string): string
    requires JoinedTag(tag)
  {
    if tag == "title" then d.titulo
    else if tag == "subject" then d.assunto
    else if tag == "type" then d.tipo
    else d.formato
  }

  /** The title, subject, type and format columns each split back into the
      record's values of that tag, in document order. */
  lemma JoinedColumnSplitsBack(md: DcElements, tag: string)
    requires JoinedTag(tag)
    requires var values := Get(Texts(md, tag));
      values != [] && forall i :: 0 <= i < |values| ==> '|' !in values[i]
    ensures StripAll(Split(Column(ExtrairDados(Some(md)).value, tag), '|')) == Get(Texts(md, tag))
  {
    GetStripped(Texts(md, tag));
    JoinedValuesSplitBack(Get(Texts(md, tag)));
  }

  /** A record whose dates are `1950`, `1900-1950`, `1900` and `1950` spans
      1900 to 1950. */
  lemma ParseDatesExample()
    ensures ParseDates(["1950", "1900-1950", "1900", "1950"]) == (Some(1900), Some(1950))
  {
    ExampleYears();
    ParseDatesOfTwo(["1950", "1900-1950", "1900", "1950"], 1900, 1950);
  }

  /** With exactly two distinct years, they are the bounds. */
  lemma ParseDatesOfTwo(dates: seq<string>, lo: nat, hi: nat)
    requires lo <= hi && Years(dates) == {lo, hi}
    ensures ParseDates(dates) == (Some(lo), Some(hi))
  {
    NoYears(dates);
    assert lo in Years(dates);
  }

  lemma ExampleYears()
    ensures Years(["1950", "1900-1950", "1900", "1950"]) == {1900, 1950}
  {
    YearLiterals();
    assert !IsDigits("1900-1950") by {
      assert "1900-1950"[4] == '-';
    }
    YearsSnoc([], "1950");
    assert [] + ["1950"] == ["1950"];
    YearsSnoc(["1950"], "1900-1950");
    YearsSnoc(["1950", "1900-1950"], "1900");
    YearsSnoc(["1950", "1900-1950", "1900"], "1950");
  }

  lemma YearLiterals()
    ensures IsDigits("1900") && DigitsValue("1900") == 1900
    ensures IsDigits("1950") && DigitsValue("1950") == 1950
  {
    assert "1950"[..3] == "195" && "195"[..2] == "19" && "19"[..1] == "1" && "1"[..0] == "";
    assert "1900"[..3] == "190" && "190"[..2] == "19";
  }
}
