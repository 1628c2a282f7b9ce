/** Helpers over harvested Dublin Core records: each record is a dictionary
    from field name to its list of values, in harvest order. The helpers
    normalise a date field, gather field statistics, group records by type and
    pretty-print one record. */
module GetData {
  import opened Text
  import opened PyDict

  /** One harvested record: field name to its values. */
  type Registo = Dict<seq<string>>

  // ---------------------------------------------------------------------------
  // simplify_date

  datatype Certainty = Unknown | Exact | Range

  /** The dictionary `simplify_date` returns. */
  datatype DateSummary = DateSummary(start: Option<string>, end: Option<string>, certainty: Certainty)

  /** `simplify_date(date_values)`: nothing gives an unknown date; one value
      with a dash gives the range between its first two dash-separated pieces,
      stripped; one value without a dash gives an exact date; several values
      give the range from the first to the last. */
  function SimplifyDate(dateValues: Option<seq<string>>): (r: DateSummary)
    ensures r.certainty == Unknown <==> dateValues.None? || dateValues.value == []
    ensures r.certainty == Unknown ==> r.start.None? && r.end.None?
    ensures r.certainty == Exact <==> dateValues.Some? && |dateValues.value| == 1 && '-' !in dateValues.value[0]
    ensures r.certainty == Exact ==> r.start == r.end == Some(dateValues.value[0])
    ensures r.certainty == Range ==> r.start.Some? && r.end.Some?
  {
    if dateValues.None? || dateValues.value == [] then DateSummary(None, None, Unknown)
    else if |dateValues.value| == 1 then
      var s := dateValues.value[0];
      if '-' in s then
        var pieces := Split(s, '-');
        DateSummary(Some(Strip(pieces[0])), Some(Strip(pieces[1])), Range)
      else DateSummary(Some(s), Some(s), Exact)
    else DateSummary(Some(dateValues.value[0]), Some(dateValues.value[|dateValues.value| - 1]), Range)
  }

  /** A single value made of dash-separated pieces gives the range between
      its first two pieces, stripped; any further pieces are dropped. */
  lemma SimplifyDateOfPieces(pieces: seq<string>)
    requires |pieces| >= 2 && forall i :: 0 <= i < |pieces| ==> '-' !in pieces[i]
    ensures SimplifyDate(Some([Join(pieces, "-")])) == DateSummary(Some(Strip(pieces[0])), Some(Strip(pieces[1])), Range)
  {
    var s := Join(pieces, "-");
    assert s == pieces[0] + "-" + Join(pieces[1..], "-");
    assert s[|pieces[0]|] == '-';
    SplitJoin(pieces, '-');
  }

  /** Several values give the range from the first value to the last. */
  lemma SimplifyDateOfSeveral(values: seq<string>)
    requires |values| >= 2
    ensures SimplifyDate(Some(values)) == DateSummary(Some(values[0]), Some(values[|values| - 1]), Range)
  {
  }

  // ---------------------------------------------------------------------------
  // analyze_data_structure

  /** Reference definition of `field_counts[f]`: the records holding `f`. */
  function FieldCount(records: seq<Registo>, f: string): (n: nat)
    ensures n <= |records|
  {
    if records == [] then 0
    else FieldCount(records[..|records| - 1], f) + (if f in records[|records| - 1].vals then 1 else 0)
  }

  /** The count is zero exactly when no record holds the field, and is the
      number of records exactly when every record holds it. */
  lemma {:induction false} FieldCountExtremes(records: seq<Registo>, f: string)
    ensures FieldCount(records, f) == 0 <==> forall i :: 0 <= i < |records| ==> f !in records[i].vals
    ensures FieldCount(records, f) == |records| <==> forall i :: 0 <= i < |records| ==> f in records[i].vals
  {
    if records != [] {
      var init := records[..|records| - 1];
      FieldCountExtremes(init, f);
      assert forall i :: 0 <= i < |init| ==> init[i] == records[i];
    }
  }

  /** One record's value for a field seen by the loop: the first value is
      kept; a differing value marks the field as not constant (`None`). */
  function Observe(entry: Option<Option<seq<string>>>, v: seq<string>): Option<Option<seq<string>>> {
    if entry.None? then Some(Some(v))
    else if entry.value != Some(v) then Some(None)
    else entry
  }

  /** Reference definition of `constant_fields.get(f)`: absent while no record
      holds `f`, then each record holding it observed in turn. */
  function ConstantEntry(records: seq<Registo>, f: string): Option<Option<seq<string>>> {
    if records == [] then None
    else
      var prev := ConstantEntry(records[..|records| - 1], f);
      var last := records[|records| - 1];
      if f in last.vals then Observe(prev, last.vals[f]) else prev
  }

  /** A field is in `constant_fields` once some record holds it, and its entry
      stays a value `v` exactly when every record holding it has value `v`. */
  lemma {:induction false} ConstantEntryMeaning(records: seq<Registo>, f: string, v: seq<string>)
    ensures ConstantEntry(records, f).None? <==> FieldCount(records, f) == 0
    ensures ConstantEntry(records, f) == Some(Some(v)) <==>
      FieldCount(records, f) > 0 && forall i :: 0 <= i < |records| && f in records[i].vals ==> records[i].vals[f] == v
  {
    if records != [] {
      var init := records[..|records| - 1];
      var last := records[|records| - 1];
      ConstantEntryMeaning(init, f, v);
      FieldCountExtremes(init, f);
      assert forall i :: 0 <= i < |init| ==> init[i] == records[i];
      if f in last.vals && ConstantEntry(init, f).Some? {
        var prev := ConstantEntry(init, f).value;
        if prev.Some? {
          ConstantEntryMeaning(init, f, prev.value);
        }
      }
    }
  }

  /** Field `f` in the dictionaries after observing the fields `fields` of
      `registo`, starting from `fieldCounts` and `constantFields`. */
  ghost predicate ObservedAt(fieldCounts: Dict<nat>, constantFields: Dict<Option<seq<string>>>, registo: Registo,
                             fields: seq<string>, counts: Dict<nat>, constants: Dict<Option<seq<string>>>, f: string)
    requires registo.Valid()
  {
    && (f in counts.vals <==> f in fieldCounts.vals || f in fields)
    && (f in counts.vals ==>
         counts.vals[f] == (if f in fieldCounts.vals then fieldCounts.vals[f] else 0) + (if f in fields then 1 else 0))
    && Entry(constants, f) == (if f in fields && f in registo.vals then Observe(Entry(constantFields, f), registo.vals[f]) else Entry(constantFields, f))
  }

  /** One turn of the inner loop: count the field and observe its value. */
  method ObserveField(counts: Dict<nat>, constants: Dict<Option<seq<string>>>, field: string, value: seq<string>)
    returns (counts': Dict<nat>, constants': Dict<Option<seq<string>>>)
    requires counts.Valid() && constants.Valid()
    ensures counts' == counts.Put(field, (if field in counts.vals then counts.vals[field] else 0) + 1)
    ensures constants'.Valid()
    ensures Entry(constants', field) == Observe(Entry(constants, field), value)
    ensures forall f :: f != field ==> Entry(constants', f) == Entry(constants, f)
  {
    var count := if field in counts.vals then counts.vals[field] else 0;
    counts' := counts.Put(field, count + 1);
    constants' := constants;
    if field in constants.vals {
      if constants.vals[field] != Some(value) {
        constants' := constants.Put(field, None);
      }
    } else {
      constants' := constants.Put(field, Some(value));
    }
  }

  lemma ObservedAtStep(fieldCounts: Dict<nat>, constantFields: Dict<Option<seq<string>>>, registo: Registo, j: nat,
                       counts: Dict<nat>, constants: Dict<Option<seq<string>>>,
                       counts': Dict<nat>, constants': Dict<Option<seq<string>>>, f: string)
    requires registo.Valid() && j < |registo.keys| && counts.Valid()
    requires ObservedAt(fieldCounts, constantFields, registo, registo.keys[..j], counts, constants, f)
    requires var field := registo.keys[j];
      && counts' == counts.Put(field, (if field in counts.vals then counts.vals[field] else 0) + 1)
      && Entry(constants', field) == Observe(Entry(constants, field), registo.vals[field])
      && (f != field ==> Entry(constants', f) == Entry(constants, f))
    ensures ObservedAt(fieldCounts, constantFields, registo, registo.keys[..j + 1], counts', constants', f)
  {
    var field := registo.keys[j];
    assert f in registo.keys[..j + 1] <==> f in registo.keys[..j] || f == field by {
      assert registo.keys[..j + 1] == registo.keys[..j] + [field];
    }
    assert field !in registo.keys[..j];
  }

  /** The inner loop of `analyze_data_structure` over one record's fields:
      each field the record holds is counted once more and observed with the
      record's value; every other field is left as it was. */
  method AnalyzeRecord(fieldCounts: Dict<nat>, constantFields: Dict<Option<seq<string>>>, registo: Registo)
    returns (counts: Dict<nat>, constants: Dict<Option<seq<string>>>)
    requires fieldCounts.Valid() && constantFields.Valid() && registo.Valid()
    ensures counts.Valid() && constants.Valid()
    ensures forall f :: ObservedAt(fieldCounts, constantFields, registo, registo.keys, counts, constants, f)
  {
    counts, constants := fieldCounts, constantFields;
    for j := 0 to |registo.keys|
      invariant counts.Valid() && constants.Valid()
      invariant forall f :: ObservedAt(fieldCounts, constantFields, registo, registo.keys[..j], counts, constants, f)
    {
      var counts', constants' := ObserveField(counts, constants, registo.keys[j], registo.vals[registo.keys[j]]);
      var seen := registo.keys[..j + 1];
      forall f
        ensures ObservedAt(fieldCounts, constantFields, registo, seen, counts', constants', f)
      {
        ObservedAtStep(fieldCounts, constantFields, registo, j, counts, constants, counts', constants', f);
      }
      counts, constants := counts', constants';
    }
    assert registo.keys[..|registo.keys|] == registo.keys;
  }

  /** A dictionary's entry for `f` as an option: absent or present with its value. */
  function Entry<V>(d: Dict<V>, f: string): Option<V> {
    if f in d.vals then Some(d.vals[f]) else None
  }

  /** Field `f` in the dictionaries once the records `records` are analysed. */
  ghost predicate AnalyzedAt(records: seq<Registo>, fieldCounts: Dict<nat>, constantFields: Dict<Option<seq<string>>>, f: string) {
    && (f in fieldCounts.vals <==> FieldCount(records, f) > 0)
    && (f in fieldCounts.vals ==> fieldCounts.vals[f] == FieldCount(records, f))
    && Entry(constantFields, f) == ConstantEntry(records, f)
  }

  lemma AnalyzedAtStep(records: seq<Registo>, i: nat, fieldCounts: Dict<nat>, constantFields: Dict<Option<seq<string>>>,
                       counts: Dict<nat>, constants: Dict<Option<seq<string>>>, f: string)
    requires i < |records| && records[i].Valid()
    requires AnalyzedAt(records[..i], fieldCounts, constantFields, f)
    requires ObservedAt(fieldCounts, constantFields, records[i], records[i].keys, counts, constants, f)
    ensures AnalyzedAt(records[..i + 1], counts, constants, f)
  {
    assert records[..i + 1][..i] == records[..i];
  }

  /** `analyze_data_structure(data)`: how many records hold each field, which
      fields keep one value throughout, and which fields every record holds
      (the results it prints). */
  method AnalyzeDataStructure(records: seq<Registo>)
    returns (fieldCounts: Dict<nat>, constantFields: Dict<Option<seq<string>>>, keys: set<string>)
    requires forall i :: 0 <= i < |records| ==> records[i].Valid()
    ensures fieldCounts.Valid() && constantFields.Valid()
    ensures forall f :: f in fieldCounts.vals <==> FieldCount(records, f) > 0
    ensures forall f :: f in fieldCounts.vals ==> fieldCounts.vals[f] == FieldCount(records, f)
    ensures forall f :: Entry(constantFields, f) == ConstantEntry(records, f)
    ensures forall f :: f in keys <==> |records| > 0 && forall i :: 0 <= i < |records| ==> f in records[i].vals
  {
    fieldCounts := EmptyDict();
    constantFields := EmptyDict();
    keys := {};
    for i := 0 to |records|
      invariant fieldCounts.Valid() && constantFields.Valid()
      invariant forall f :: AnalyzedAt(records[..i], fieldCounts, constantFields, f)
    {
      var counts, constants := AnalyzeRecord(fieldCounts, constantFields, records[i]);
      var done := records[..i + 1];
      forall f
        ensures AnalyzedAt(done, counts, constants, f)
      {
        AnalyzedAtStep(records, i, fieldCounts, constantFields, counts, constants, f);
      }
      fieldCounts, constantFields := counts, constants;
    }
    assert records[..|records|] == records;
    forall f
      ensures f in fieldCounts.vals <==> FieldCount(records, f) > 0
      ensures f in fieldCounts.vals ==> fieldCounts.vals[f] == FieldCount(records, f)
      ensures Entry(constantFields, f) == ConstantEntry(records, f)
    {
      assert AnalyzedAt(records, fieldCounts, constantFields, f);
    }
    var total := |records|;
    var fields := fieldCounts.keys;
    for j := 0 to |fields|
      invariant forall f :: f in keys <==> f in fields[..j] && fieldCounts.vals[f] == total
    {
      assert fields[..j + 1] == fields[..j] + [fields[j]];
      if fieldCounts.vals[fields[j]] == total {
        keys := keys + {fields[j]};
      }
    }
    assert fields[..|fields|] == fields;
    forall f
      ensures f in keys <==> |records| > 0 && forall i :: 0 <= i < |records| ==> f in records[i].vals
    {
      FieldCountExtremes(records, f);
    }
  }

  // ---------------------------------------------------------------------------
  // aggregate_by_type

  /** The values of a record's `type` field, none when it has no such field. */
  function TypeValues(r: Registo): seq<string> {
    if "type" in r.vals then r.vals["type"] else []
  }

  function Occurrences(xs: seq<string>, t: string): (n: nat)
    ensures n == 0 <==> t !in xs
  {
    if xs == [] then 0 else Occurrences(xs[..|xs| - 1], t) + (if xs[|xs| - 1] == t then 1 else 0)
  }

  function Repeat<T>(r: T, n: nat): (s: seq<T>)
    ensures |s| == n
  {
    if n == 0 then [] else Repeat(r, n - 1) + [r]
  }

  lemma {:induction false} RepeatMembers<T>(r: T, n: nat, x: T)
    ensures x in Repeat(r, n) <==> n > 0 && x == r
  {
    if n > 0 {
      RepeatMembers(r, n - 1, x);
    }
  }

  /** Reference definition of `by_type[t]`: each record, in order, once per
      time it lists `t` among its types. */
  function RecordsOfType(records: seq<Registo>, t: string): seq<Registo> {
    if records == [] then []
    else
      var last := records[|records| - 1];
      RecordsOfType(records[..|records| - 1], t) + Repeat(last, Occurrences(TypeValues(last), t))
  }

  /** Grouping keeps record order: the group of a concatenation is the
      concatenation of the groups. */
  lemma {:induction false} RecordsOfTypeAppend(a: seq<Registo>, b: seq<Registo>, t: string)
    ensures RecordsOfType(a + b, t) == RecordsOfType(a, t) + RecordsOfType(b, t)
    decreases |b|
  {
    if b != [] {
      var init := b[..|b| - 1];
      assert (a + b)[..|a + b| - 1] == a + init;
      assert (a + b)[|a + b| - 1] == b[|b| - 1];
      RecordsOfTypeAppend(a, init, t);
    } else {
      assert a + b == a;
    }
  }

  /** A record is in the group of `t` exactly when it lists `t` among its
      types; a record without a `type` field is in no group. */
  lemma {:induction false} RecordsOfTypeMembers(records: seq<Registo>, t: string, r: Registo)
    ensures r in RecordsOfType(records, t) <==> exists i :: 0 <= i < |records| && records[i] == r && t in TypeValues(r)
  {
    if records != [] {
      var init := records[..|records| - 1];
      var last := records[|records| - 1];
      RecordsOfTypeMembers(init, t, r);
      assert forall i :: 0 <= i < |init| ==> init[i] == records[i];
      RepeatMembers(last, Occurrences(TypeValues(last), t), r);
      if r in Repeat(last, Occurrences(TypeValues(last), t)) {
        assert records[|records| - 1] == r;
      }
    }
  }

  lemma OccurrencesSnoc(types: seq<string>, j: nat, u: string)
    requires j < |types|
    ensures Occurrences(types[..j + 1], u) == Occurrences(types[..j], u) + (if types[j] == u then 1 else 0)
  {
    assert types[..j + 1][..j] == types[..j];
  }

  /** The group of type `u` after appending `registo` once per listing of
      `u` in `types`, starting from `byType`. */
  ghost predicate GroupedAt<T>(byType: Dict<seq<T>>, registo: T, types: seq<string>, groups: Dict<seq<T>>, u: string) {
    && (u in groups.vals <==> u in byType.vals || u in types)
    && (u in groups.vals ==>
         groups.vals[u] == (if u in byType.vals then byType.vals[u] else []) + Repeat(registo, Occurrences(types, u)))
  }

  lemma GroupedAtStep<T>(byType: Dict<seq<T>>, registo: T, types: seq<string>, j: nat, groups: Dict<seq<T>>, u: string)
    requires j < |types| && groups.Valid() && GroupedAt(byType, registo, types[..j], groups, u)
    ensures var t := types[j];
      GroupedAt(byType, registo, types[..j + 1], groups.Put(t, (if t in groups.vals then groups.vals[t] else []) + [registo]), u)
  {
    assert u in types[..j + 1] <==> u in types[..j] || u == types[j] by {
      assert types[..j + 1] == types[..j] + [types[j]];
    }
    OccurrencesSnoc(types, j, u);
    if types[j] == u {
      var n := Occurrences(types[..j], u);
      assert Repeat(registo, n + 1) == Repeat(registo, n) + [registo];
    }
  }

  /** The inner loop of `aggregate_by_type` over one record's types: the
      record is appended to the group of each type, once per listing. */
  method AddToGroups<T>(byType: Dict<seq<T>>, registo: T, types: seq<string>) returns (groups: Dict<seq<T>>)
    requires byType.Valid()
    ensures groups.Valid()
    ensures forall u :: GroupedAt(byType, registo, types, groups, u)
  {
    groups := byType;
    for j := 0 to |types|
      invariant groups.Valid()
      invariant forall u :: GroupedAt(byType, registo, types[..j], groups, u)
    {
      var t := types[j];
      var group := if t in groups.vals then groups.vals[t] else [];
      var groups' := groups.Put(t, group + [registo]);
      var seen := types[..j + 1];
      forall u
        ensures GroupedAt(byType, registo, seen, groups', u)
      {
        GroupedAtStep(byType, registo, types, j, groups, u);
      }
      groups := groups';
    }
    assert types[..|types|] == types;
  }

  /** `by_type` once the records `records` are grouped. */
  ghost predicate GroupsOf(byType: Dict<seq<Registo>>, records: seq<Registo>, t: string) {
    && (t in byType.vals <==> RecordsOfType(records, t) != [])
    && (t in byType.vals ==> byType.vals[t] == RecordsOfType(records, t))
  }

  lemma GroupsOfStep(byType: Dict<seq<Registo>>, records: seq<Registo>, i: nat, byType': Dict<seq<Registo>>, t: string)
    requires i < |records| && GroupsOf(byType, records[..i], t)
    requires GroupedAt(byType, records[i], TypeValues(records[i]), byType', t)
    ensures GroupsOf(byType', records[..i + 1], t)
  {
    assert records[..i + 1][..i] == records[..i];
    var n := Occurrences(TypeValues(records[i]), t);
    assert RecordsOfType(records[..i + 1], t) == RecordsOfType(records[..i], t) + Repeat(records[i], n);
  }

  /** `aggregate_by_type(data)`: a dictionary from each type to the records
      listing it, in record order. */
  method AggregateByType(records: seq<Registo>) returns (byType: Dict<seq<Registo>>)
    ensures byType.Valid()
    ensures forall t :: t in byType.vals <==> RecordsOfType(records, t) != []
    ensures forall t :: t in byType.vals ==> byType.vals[t] == RecordsOfType(records, t)
  {
    byType := EmptyDict();
    for i := 0 to |records|
      invariant byType.Valid()
      invariant forall t :: GroupsOf(byType, records[..i], t)
    {
      var registo := records[i];
      var byType' := byType;
      if "type" in registo.vals {
        byType' := AddToGroups(byType, registo, registo.vals["type"]);
      }
      var done := records[..i + 1];
      forall t
        ensures GroupsOf(byType', done, t)
      {
        GroupsOfStep(byType, records, i, byType', t);
      }
      byType := byType';
    }
    assert records[..|records|] == records;
    forall t
      ensures t in byType.vals <==> RecordsOfType(records, t) != []
      ensures t in byType.vals ==> byType.vals[t] == RecordsOfType(records, t)
    {
      assert GroupsOf(byType, records, t);
    }
  }

  // ---------------------------------------------------------------------------
  // pretty_print

  /** The three format strings a field configuration can hold:
      `'{value}'`, `'{value[0]}'` and `'{value[0]} - {value[1]}'`. */
  datatype FieldFormat = WholeValue | FirstItem | FirstTwoItems

  datatype FieldConfig = FieldConfig(prefix: string, format: FieldFormat)

  /** The configuration used when none is given. */
  function DefaultConfig(): (config: map<string, FieldConfig>)
    ensures "default" in config && config["default"] == FieldConfig("", WholeValue)
  {
    map[
      "title" := FieldConfig("Title: ", WholeValue),
      "date" := FieldConfig("Date: ", FirstTwoItems),
      "format" := FieldConfig("Format: ", WholeValue),
      "identifier" := FieldConfig("ID: ", FirstItem),
      "default" := FieldConfig("", WholeValue)]
  }

  /** What can go wrong: an unsupported output format (`ValueError`), a format
      reading past the end of a field's list (`IndexError`), a configuration
      without a `default` entry (`KeyError`). */
  datatype PrintError = UnsupportedFormat(outputFormat: string) | IndexError | KeyError

  datatype Result<T> = Ok(value: T) | Err(error: PrintError)

  /** The output: text for HTML and wiki, and for YAML whatever the YAML
      library dumps for the record. */
  datatype Rendered = Text(text: string) | YamlDump(registo: Registo)

  /** `str(values)` for a list of strings holding no quote or backslash. */
  function ListRepr(values: seq<string>): string {
    "[" + Join(seq(|values|, i requires 0 <= i < |values| => "'" + values[i] + "'"), ", ") + "]"
  }

  /** `field_config['format'].format(value=value)`. */
  function FormatValue(format: FieldFormat, value: seq<string>): (r: Result<string>)
    ensures r.Err? <==> (format == FirstItem && |value| < 1) || (format == FirstTwoItems && |value| < 2)
    ensures r.Err? ==> r.error == IndexError
  {
    match format
    case WholeValue => Ok(ListRepr(value))
    case FirstItem => if |value| >= 1 then Ok(value[0]) else Err(IndexError)
    case FirstTwoItems => if |value| >= 2 then Ok(value[0] + " - " + value[1]) else Err(IndexError)
  }

  /** `config.get(field, config['default'])`: the default entry is looked up
      first, so a configuration without one fails for every field. */
  function ConfigFor(config: map<string, FieldConfig>, field: string): (r: Result<FieldConfig>)
    ensures r.Err? <==> "default" !in config
    ensures r.Ok? ==> r.value == (if field in config then config[field] else config["default"])
  {
    if "default" !in config then Err(KeyError)
    else if field in config then Ok(config[field])
    else Ok(config["default"])
  }

  datatype Style = Html | Wiki

  /** One field's line: a `<p>` with the prefix in bold, or a `* ` bullet. */
  function FieldLine(style: Style, prefix: string, formatted: string): string {
    match style
    case Html => ParagraphOpen + prefix + "</strong>" + formatted + ParagraphClose
    case Wiki => "* " + prefix + formatted
  }

  /** Reference definition of the field lines of the first `n` fields, or the
      first error among them. */
  function FieldLines(style: Style, registo: Registo, config: map<string, FieldConfig>, n: nat): (r: Result<seq<string>>)
    requires registo.Valid() && n <= |registo.keys|
    ensures r.Ok? ==> |r.value| == n
  {
    if n == 0 then Ok([])
    else
      match FieldLines(style, registo, config, n - 1)
      case Err(e) => Err(e)
      case Ok(lines) =>
        var field := registo.keys[n - 1];
        match ConfigFor(config, field)
        case Err(e) => Err(e)
        case Ok(fc) =>
          match FormatValue(fc.format, registo.vals[field])
          case Err(e) => Err(e)
          case Ok(formatted) => Ok(lines + [FieldLine(style, fc.prefix, formatted)])
  }

  const DivOpen := "<div class=\"registo\">"
  const DivClose := "</div>"

  /** Reference definition of `pretty_print`. */
  function PrettyPrinted(registo: Registo, outputFormat: string, config: Option<map<string, FieldConfig>>): Result<Rendered>
    requires registo.Valid()
  {
    var cfg := if config.Some? then config.value else DefaultConfig();
    if outputFormat == "html" then
      match FieldLines(Html, registo, cfg, |registo.keys|)
      case Err(e) => Err(e)
      case Ok(lines) => Ok(Text(Join([DivOpen] + lines + [DivClose], "\n")))
    else if outputFormat == "wiki" then
      match FieldLines(Wiki, registo, cfg, |registo.keys|)
      case Err(e) => Err(e)
      case Ok(lines) => Ok(Text(Join(lines, "\n")))
    else if outputFormat == "yaml" then Ok(YamlDump(registo))
    else Err(UnsupportedFormat(outputFormat))
  }

  /** The loop over `registo.items()` shared by the HTML and wiki branches. */
  method RenderFields(style: Style, registo: Registo, config: map<string, FieldConfig>) returns (r: Result<seq<string>>)
    requires registo.Valid()
    ensures r == FieldLines(style, registo, config, |registo.keys|)
  {
    var output := [];
    for i := 0 to |registo.keys|
      invariant FieldLines(style, registo, config, i) == Ok(output)
    {
      var field := registo.keys[i];
      var fieldConfig := ConfigFor(config, field);
      if fieldConfig.Err? {
        r := Err(fieldConfig.error);
        FieldLinesKeepsError(style, registo, config, i + 1, |registo.keys|);
        return;
      }
      var formatted := FormatValue(fieldConfig.value.format, registo.vals[field]);
      if formatted.Err? {
        r := Err(formatted.error);
        FieldLinesKeepsError(style, registo, config, i + 1, |registo.keys|);
        return;
      }
      output := output + [FieldLine(style, fieldConfig.value.prefix, formatted.value)];
    }
    r := Ok(output);
  }

  /** An error in an early field is the error of the whole record. */
  lemma {:induction false} FieldLinesKeepsError(style: Style, registo: Registo, config: map<string, FieldConfig>, i: nat, n: nat)
    requires registo.Valid() && 1 <= i <= n <= |registo.keys|
    requires FieldLines(style, registo, config, i).Err?
    ensures FieldLines(style, registo, config, n) == FieldLines(style, registo, config, i)
    decreases n - i
  {
    if i < n {
      FieldLinesKeepsError(style, registo, config, i, n - 1);
    }
  }

  /** `pretty_print(registo, output_format, config)`. */
  method PrettyPrint(registo: Registo, outputFormat: string, config: Option<map<string, FieldConfig>>) returns (r: Result<Rendered>)
    requires registo.Valid()
    ensures r == PrettyPrinted(registo, outputFormat, config)
  {
    var cfg := if config.Some? then config.value else DefaultConfig();
    if outputFormat == "html" {
      var lines := RenderFields(Html, registo, cfg);
      if lines.Err? {
        return Err(lines.error);
      }
      r := Ok(Text(Join([DivOpen] + lines.value + [DivClose], "\n")));
    } else if outputFormat == "wiki" {
      var lines := RenderFields(Wiki, registo, cfg);
      if lines.Err? {
        return Err(lines.error);
      }
      r := Ok(Text(Join(lines.value, "\n")));
    } else if outputFormat == "yaml" {
      r := Ok(YamlDump(registo));
    } else {
      r := Err(UnsupportedFormat(outputFormat));
    }
  }

  /** Only `html`, `wiki` and `yaml` are accepted; anything else is a
      `ValueError` naming the format. */
  lemma PrettyPrintFormats(registo: Registo, outputFormat: string, config: Option<map<string, FieldConfig>>)
    requires registo.Valid()
    ensures PrettyPrinted(registo, outputFormat, config) == Err(UnsupportedFormat(outputFormat))
        <==> outputFormat != "html" && outputFormat != "wiki" && outputFormat != "yaml"
  {
    if outputFormat == "html" || outputFormat == "wiki" {
      var cfg := if config.Some? then config.value else DefaultConfig();
      FieldLinesErrors(if outputFormat == "html" then Html else Wiki, registo, cfg, |registo.keys|);
    }
  }

  /** Field rendering fails only by a missing default entry or a field list
      too short for its format. */
  lemma {:induction false} FieldLinesErrors(style: Style, registo: Registo, config: map<string, FieldConfig>, n: nat)
    requires registo.Valid() && n <= |registo.keys|
    ensures FieldLines(style, registo, config, n).Err? ==>
      FieldLines(style, registo, config, n).error == KeyError || FieldLines(style, registo, config, n).error == IndexError
  {
    if n > 0 {
      FieldLinesErrors(style, registo, config, n - 1);
    }
  }

  /** With the default configuration, a record renders without error exactly
      when its `date` field (if any) has two values and its `identifier`
      field (if any) has one. */
  lemma {:induction false} DefaultConfigErrors(style: Style, registo: Registo, n: nat)
    requires registo.Valid() && n <= |registo.keys|
    ensures FieldLines(style, registo, DefaultConfig(), n).Ok? <==>
      forall i :: 0 <= i < n ==>
        (registo.keys[i] == "date" ==> |registo.vals["date"]| >= 2) &&
        (registo.keys[i] == "identifier" ==> |registo.vals["identifier"]| >= 1)
  {
    if n > 0 {
      DefaultConfigErrors(style, registo, n - 1);
    }
  }

  /** The HTML output holds the opening `<div>`, one line per field in field
      order, and the closing `</div>`: when no line holds a newline, splitting
      it at newlines gives back exactly those lines. */
  lemma HtmlOnePerField(registo: Registo, config: Option<map<string, FieldConfig>>)
    requires registo.Valid()
    requires var cfg := if config.Some? then config.value else DefaultConfig();
      var lines := FieldLines(Html, registo, cfg, |registo.keys|);
      lines.Ok? && forall i :: 0 <= i < |lines.value| ==> '\n' !in lines.value[i]
    ensures var cfg := if config.Some? then config.value else DefaultConfig();
      var lines := FieldLines(Html, registo, cfg, |registo.keys|).value;
      && PrettyPrinted(registo, "html", config).Ok?
      && PrettyPrinted(registo, "html", config).value.Text?
      && Split(PrettyPrinted(registo, "html", config).value.text, '\n') == [DivOpen] + lines + [DivClose]
      && |lines| == |registo.keys|
      && forall i :: 0 <= i < |lines| ==>
           StartsWith(lines[i], ParagraphOpen + ConfigFor(cfg, registo.keys[i]).value.prefix + "</strong>")
           && EndsWith(lines[i], ParagraphClose)
  {
    var cfg := if config.Some? then config.value else DefaultConfig();
    var lines := FieldLines(Html, registo, cfg, |registo.keys|).value;
    HtmlParagraphs(registo, cfg, |registo.keys|);
    FramedLinesSplit(DivOpen, lines, DivClose);
  }

  /** Lines without newlines, framed by two more such lines and joined,
      split back into the same lines. */
  lemma {:induction false} FramedLinesSplit(open: string, lines: seq<string>, close: string)
    requires '\n' !in open && '\n' !in close
    requires forall i :: 0 <= i < |lines| ==> '\n' !in lines[i]
    ensures Split(Join([open] + lines + [close], "\n"), '\n') == [open] + lines + [close]
  {
    var all := [open] + lines + [close];
    forall i | 0 <= i < |all|
      ensures '\n' !in all[i]
    {
      if i == 0 {
        assert all[i] == open;
      } else if i == |all| - 1 {
        assert all[i] == close;
      } else {
        assert all[i] == lines[i - 1];
      }
    }
    SplitJoin(all, '\n');
  }

  /** The wiki output is one bullet line per field, in field order. */
  lemma WikiOnePerField(registo: Registo, config: Option<map<string, FieldConfig>>)
    requires registo.Valid() && |registo.keys| >= 1
    requires var cfg := if config.Some? then config.value else DefaultConfig();
      var lines := FieldLines(Wiki, registo, cfg, |registo.keys|);
      lines.Ok? && forall i :: 0 <= i < |lines.value| ==> '\n' !in lines.value[i]
    ensures var cfg := if config.Some? then config.value else DefaultConfig();
      var lines := FieldLines(Wiki, registo, cfg, |registo.keys|).value;
      && PrettyPrinted(registo, "wiki", config) == Ok(Text(Join(lines, "\n")))
      && Split(Join(lines, "\n"), '\n') == lines
      && |lines| == |registo.keys|
      && forall i :: 0 <= i < |lines| ==> StartsWith(lines[i], "* ")
  {
    var cfg := if config.Some? then config.value else DefaultConfig();
    var lines := FieldLines(Wiki, registo, cfg, |registo.keys|).value;
    SplitJoin(lines, '\n');
    WikiBullets(registo, cfg, |registo.keys|);
  }

  const ParagraphOpen := "<p><strong>"
  const ParagraphClose := "</p>"

  /** Each successful field line is the field's configured prefix and its
      formatted value, in the line shape of the style. */
  lemma {:induction false} FieldLinesAt(style: Style, registo: Registo, config: map<string, FieldConfig>, n: nat)
    requires registo.Valid() && n <= |registo.keys|
    requires FieldLines(style, registo, config, n).Ok?
    ensures forall i :: 0 <= i < n ==>
      var field := registo.keys[i];
      && ConfigFor(config, field).Ok?
      && FormatValue(ConfigFor(config, field).value.format, registo.vals[field]).Ok?
      && FieldLines(style, registo, config, n).value[i] ==
           FieldLine(style, ConfigFor(config, field).value.prefix,
                     FormatValue(ConfigFor(config, field).value.format, registo.vals[field]).value)
  {
    if n > 0 {
      FieldLinesAt(style, registo, config, n - 1);
    }
  }

  /** Every HTML field line is a `<p>` paragraph whose bold part is the prefix. */
  lemma HtmlParagraphs(registo: Registo, config: map<string, FieldConfig>, n: nat)
    requires registo.Valid() && n <= |registo.keys|
    requires FieldLines(Html, registo, config, n).Ok?
    ensures forall i :: 0 <= i < n ==>
      StartsWith(FieldLines(Html, registo, config, n).value[i], ParagraphOpen + ConfigFor(config, registo.keys[i]).value.prefix + "</strong>")
      && EndsWith(FieldLines(Html, registo, config, n).value[i], ParagraphClose)
  {
    FieldLinesAt(Html, registo, config, n);
    forall i | 0 <= i < n
      ensures StartsWith(FieldLines(Html, registo, config, n).value[i], ParagraphOpen + ConfigFor(config, registo.keys[i]).value.prefix + "</strong>")
      ensures EndsWith(FieldLines(Html, registo, config, n).value[i], ParagraphClose)
    {
      var field := registo.keys[i];
      var fc := ConfigFor(config, field).value;
      var formatted := FormatValue(fc.format, registo.vals[field]).value;
      var head := ParagraphOpen + fc.prefix + "</strong>";
      var l := FieldLines(Html, registo, config, n).value[i];
      assert l == head + (formatted + ParagraphClose);
      assert l[..|head|] == head;
      assert l == (head + formatted) + ParagraphClose;
      assert l[|l| - |ParagraphClose|..] == ParagraphClose;
    }
  }

  lemma {:induction false} WikiBullets(registo: Registo, config: map<string, FieldConfig>, n: nat)
    requires registo.Valid() && n <= |registo.keys|
    requires FieldLines(Wiki, registo, config, n).Ok?
    ensures forall i :: 0 <= i < n ==> StartsWith(FieldLines(Wiki, registo, config, n).value[i], "* ")
  {
    if n > 0 {
      WikiBullets(registo, config, n - 1);
    }
  }
}
