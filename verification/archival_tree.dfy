/** The archival-tree builder: records carry slash-delimited identifiers such as
    `PT/MVNF/AMAS/CSC/006-003`; the builder keeps one record per canonical id,
    creates one node for every prefix of every canonical id (synthesising the
    levels that have no record of their own), and links each node to its parent.

    Python objects are modelled as values: `nodes` is an insertion-ordered
    dictionary from full id to node, and a node's `children` holds the full ids
    of its children, i.e. the keys under which the child objects are stored. */
module ArchivalTree {
  import opened Text
  import opened PyDict

  /** The fields of a YAML record that the builder reads (`identificadores`
      defaults to the empty list when the field is missing). */
  datatype Record = Record(identificadores: seq<string>, titulo: Option<string>, tipo: Option<string>)

  /** One entry of the record directory: a file name and the record it holds. */
  datatype RecordFile = RecordFile(filename: string, record: Record)

  datatype ArchivalNode = ArchivalNode(
    id: string,
    title: string,
    tipo: string,
    fullId: string,
    parentId: Option<string>,
    children: seq<string>)

  const CanonicalPrefix: string := "PT/"

  /** The first identifier that starts with `PT/`, if any. */
  function CanonicalId(ids: seq<string>): (r: Option<string>)
    ensures r.None? <==> forall i :: 0 <= i < |ids| ==> !StartsWith(ids[i], CanonicalPrefix)
    ensures r.Some? ==>
      exists i :: 0 <= i < |ids| && ids[i] == r.value && StartsWith(ids[i], CanonicalPrefix) &&
        forall j :: 0 <= j < i ==> !StartsWith(ids[j], CanonicalPrefix)
  {
    if ids == [] then None
    else if StartsWith(ids[0], CanonicalPrefix) then Some(ids[0])
    else
      var r := CanonicalId(ids[1..]);
      assert forall i :: 1 <= i < |ids| ==> ids[i] == ids[1..][i - 1];
      r
  }

  predicate IsYaml(f: RecordFile) {
    EndsWith(f.filename, ".yaml")
  }

  /** The canonical id under which a listed file is stored, if it is stored at all. */
  function FileId(f: RecordFile): Option<string> {
    if IsYaml(f) then CanonicalId(f.record.identificadores) else None
  }

  /** Reference definition of `records_by_id[k]`: the record of the LAST listed
      file whose canonical id is `k`, found by scanning from the end. */
  function LastRecordWithId(listing: seq<RecordFile>, k: string): Option<Record> {
    if listing == [] then None
    else if FileId(listing[|listing| - 1]) == Some(k) then Some(listing[|listing| - 1].record)
    else LastRecordWithId(listing[..|listing| - 1], k)
  }

  /** The canonical ids of the listing in order of first appearance. */
  function IdsInOrder(listing: seq<RecordFile>): seq<string> {
    if listing == [] then []
    else
      var earlier := IdsInOrder(listing[..|listing| - 1]);
      match FileId(listing[|listing| - 1])
      case None => earlier
      case Some(k) => if k in earlier then earlier else earlier + [k]
  }

  /** The first loop of `load_yaml_records`: every YAML file with a canonical id
      is stored under it, a later file overwriting an earlier one. */
  method LoadRecords(listing: seq<RecordFile>) returns (byId: Dict<Record>)
    ensures byId.Valid()
    ensures forall k :: LastRecordWithId(listing, k) == (if k in byId.vals then Some(byId.vals[k]) else None)
    ensures byId.keys == IdsInOrder(listing)
  {
    byId := EmptyDict();
    for i := 0 to |listing|
      invariant byId.Valid()
      invariant forall k :: LastRecordWithId(listing[..i], k) == (if k in byId.vals then Some(byId.vals[k]) else None)
      invariant byId.keys == IdsInOrder(listing[..i])
    {
      assert listing[..i + 1][..i] == listing[..i];
      var f := listing[i];
      if IsYaml(f) {
        var fullId := CanonicalId(f.record.identificadores);
        if fullId.Some? {
          byId := byId.Put(fullId.value, f.record);
        }
      }
    }
    assert listing[..|listing|] == listing;
  }

  /** A file absent from the dictionary is exactly one without a canonical id
      (or not a YAML file); one present is found under its canonical id. */
  lemma {:induction false} LastRecordWithIdPresent(listing: seq<RecordFile>, k: string)
    ensures LastRecordWithId(listing, k).Some? <==>
      exists i :: 0 <= i < |listing| && FileId(listing[i]) == Some(k)
  {
    if listing != [] {
      var init := listing[..|listing| - 1];
      LastRecordWithIdPresent(init, k);
      if FileId(listing[|listing| - 1]) != Some(k) {
        assert forall i :: 0 <= i < |init| ==> init[i] == listing[i];
      }
    }
  }

  /** The type a node gets from its depth when no record gives one. */
  function InferredTipo(depth: nat): string {
    if depth == 1 then "F"
    else if depth == 2 then "SC"
    else if depth == 3 then "SSC"
    else if depth == 4 then "SR"
    else "UI"
  }

  /** The segments of an id: `full_id.split("/")`. */
  function Segments(fullId: string): seq<string> {
    Split(fullId, '/')
  }

  /** `p` names a node on the chain of `k`: its segments lead those of `k`. */
  predicate IsPrefixId(p: string, k: string) {
    Segments(p) <= Segments(k)
  }

  /** Reference definition of the node `ensure_node_chain` creates for the prefix
      id `key`, given the complete `records_by_id`. */
  function NodeFor(records: map<string, Record>, key: string): ArchivalNode {
    var parts := Segments(key);
    var depth := |parts|;
    var id := parts[depth - 1];
    var title := if key in records && records[key].titulo.Some? then records[key].titulo.value else "(" + id + ")";
    var tipo := if key in records && records[key].tipo.Some? then records[key].tipo.value else InferredTipo(depth);
    var parentId := if depth > 1 then Some(Join(parts[..depth - 1], "/")) else None;
    ArchivalNode(id, title, tipo, key, parentId, [])
  }

  /** Every node held is the one `NodeFor` describes. */
  ghost predicate Synthesized(nodes: map<string, ArchivalNode>, records: map<string, Record>) {
    forall k :: k in nodes ==> nodes[k] == NodeFor(records, k)
  }

  /** Among the prefix ids of `fullId`, the one of depth `i` is `"/".join(parts[:i])`. */
  lemma PrefixIdAt(fullId: string, i: nat, p: string)
    requires 1 <= i <= |Segments(fullId)|
    ensures (IsPrefixId(p, fullId) && |Segments(p)| == i) <==> p == Join(Segments(fullId)[..i], "/")
  {
    SplitJoinPrefix(fullId, '/', i);
    if IsPrefixId(p, fullId) && |Segments(p)| == i {
      JoinSplit(p, '/');
      assert Segments(p) == Segments(fullId)[..i];
    }
  }

  /** The node `NodeFor` describes at depth `i` of the chain of `fullId` takes
      its label and parent from the segments of `fullId`. */
  lemma ChainNode(records: map<string, Record>, fullId: string, i: nat)
    requires 1 <= i <= |Segments(fullId)|
    ensures var parts := Segments(fullId);
      var subId := Join(parts[..i], "/");
      var n := NodeFor(records, subId);
      && n.id == parts[i - 1] && n.fullId == subId && n.children == []
      && n.parentId == (if i > 1 then Some(Join(parts[..i - 1], "/")) else None)
      && n.title == (if subId in records && records[subId].titulo.Some? then records[subId].titulo.value
                     else "(" + parts[i - 1] + ")")
      && n.tipo == (if subId in records && records[subId].tipo.Some? then records[subId].tipo.value
                    else InferredTipo(i))
  {
    var parts := Segments(fullId);
    var subId := Join(parts[..i], "/");
    SplitJoinPrefix(fullId, '/', i);
    var sub := Segments(subId);
    assert sub == parts[..i];
    assert |sub| == i && sub[i - 1] == parts[i - 1];
    assert sub[..i - 1] == parts[..i - 1];
  }

  /** The body of `ensure_node_chain` that creates the node for the prefix of
      depth `i`: it is the node `NodeFor` describes for that prefix. */
  method CreateNode(records: map<string, Record>, fullId: string, i: nat) returns (node: ArchivalNode)
    requires 1 <= i <= |Segments(fullId)|
    ensures node == NodeFor(records, Join(Segments(fullId)[..i], "/"))
  {
    var parts := Segments(fullId);
    var subId := Join(parts[..i], "/");
    var nodeId := parts[i - 1];
    var title := if subId in records && records[subId].titulo.Some? then records[subId].titulo.value
                 else "(" + nodeId + ")";
    var tipo: string;
    if subId in records && records[subId].tipo.Some? {
      tipo := records[subId].tipo.value;
    } else if i == 1 {
      tipo := "F";
    } else if i == 2 {
      tipo := "SC";
    } else if i == 3 {
      tipo := "SSC";
    } else if i == 4 {
      tipo := "SR";
    } else {
      tipo := "UI";
    }
    var parentId := if i > 1 then Some(Join(parts[..i - 1], "/")) else None;
    ChainNode(records, fullId, i);
    node := ArchivalNode(nodeId, title, tipo, subId, parentId, []);
  }

  /** `ensure_node_chain(full_id)`: afterwards every prefix of `fullId` is a key;
      a prefix already present is left as it was, keys keep their order, and
      every node created is the one `NodeFor` describes. */
  method EnsureNodeChain(nodes: Dict<ArchivalNode>, records: map<string, Record>, fullId: string)
    returns (result: Dict<ArchivalNode>)
    requires nodes.Valid() && Synthesized(nodes.vals, records)
    ensures result.Valid() && Synthesized(result.vals, records)
    ensures forall p :: p in result.vals <==> p in nodes.vals || IsPrefixId(p, fullId)
    ensures forall p :: p in nodes.vals ==> result.vals[p] == nodes.vals[p]
    ensures nodes.keys <= result.keys
  {
    var parts := Segments(fullId);
    result := nodes;
    for i := 1 to |parts| + 1
      invariant result.Valid() && Synthesized(result.vals, records)
      invariant forall p :: p in result.vals <==> p in nodes.vals || (IsPrefixId(p, fullId) && |Segments(p)| < i)
      invariant forall p :: p in nodes.vals ==> result.vals[p] == nodes.vals[p]
      invariant nodes.keys <= result.keys
    {
      var subId := Join(parts[..i], "/");
      forall p
        ensures (IsPrefixId(p, fullId) && |Segments(p)| == i) <==> p == subId
      {
        PrefixIdAt(fullId, i, p);
      }
      if subId !in result.vals {
        var node := CreateNode(records, fullId, i);
        result := result.Put(subId, node);
      }
    }
  }

  /** Every prefix id of every id in `ids`. */
  ghost function AllPrefixIds(ids: set<string>): set<string> {
    set k, i | k in ids && 1 <= i <= |Segments(k)| :: Join(Segments(k)[..i], "/")
  }

  lemma AllPrefixIdsMembers(ids: set<string>, p: string)
    ensures p in AllPrefixIds(ids) <==> exists k :: k in ids && IsPrefixId(p, k)
  {
    if p in AllPrefixIds(ids) {
      var k, i :| k in ids && 1 <= i <= |Segments(k)| && p == Join(Segments(k)[..i], "/");
      PrefixIdAt(k, i, p);
    }
    if exists k :: k in ids && IsPrefixId(p, k) {
      var k :| k in ids && IsPrefixId(p, k);
      var i := |Segments(p)|;
      PrefixIdAt(k, i, p);
    }
  }

  /** The node map the synthesis pass must produce: one node per distinct
      prefix id, described by `NodeFor`. It depends on the record map alone. */
  ghost function SynthesizedNodes(records: map<string, Record>): map<string, ArchivalNode> {
    map p | p in AllPrefixIds(records.Keys) :: NodeFor(records, p)
  }

  /** The second loop of `load_yaml_records`: `ensure_node_chain` for every
      stored id. The resulting map is `SynthesizedNodes` of the record map,
      whatever the order in which the ids are processed. */
  method BuildNodes(records: Dict<Record>) returns (nodes: Dict<ArchivalNode>)
    requires records.Valid()
    ensures nodes.Valid()
    ensures nodes.vals == SynthesizedNodes(records.vals)
  {
    nodes := EmptyDict();
    for i := 0 to |records.keys|
      invariant nodes.Valid() && Synthesized(nodes.vals, records.vals)
      invariant forall p :: p in nodes.vals <==> exists j :: 0 <= j < i && IsPrefixId(p, records.keys[j])
    {
      nodes := EnsureNodeChain(nodes, records.vals, records.keys[i]);
    }
    forall p
      ensures p in nodes.vals <==> p in AllPrefixIds(records.vals.Keys)
    {
      AllPrefixIdsMembers(records.vals.Keys, p);
    }
  }

  /** The node count equals the number of distinct prefix ids, not the number of records. */
  lemma NodeCount(records: map<string, Record>)
    ensures |SynthesizedNodes(records)| == |AllPrefixIds(records.Keys)|
  {
    assert SynthesizedNodes(records).Keys == AllPrefixIds(records.Keys);
  }

  /** Prefix closure: every prefix id of a node's id is itself a node. */
  lemma {:induction false} PrefixClosed(records: map<string, Record>, k: string, p: string)
    requires k in SynthesizedNodes(records) && IsPrefixId(p, k)
    ensures p in SynthesizedNodes(records)
  {
    AllPrefixIdsMembers(records.Keys, k);
    var r :| r in records.Keys && IsPrefixId(k, r);
    AllPrefixIdsMembers(records.Keys, p);
  }

  lemma JoinSnoc(parts: seq<string>, sep: string)
    requires |parts| >= 2
    ensures Join(parts, sep) == Join(parts[..|parts| - 1], sep) + sep + parts[|parts| - 1]
  {
    if |parts| > 2 {
      JoinSnoc(parts[1..], sep);
      assert parts[1..][..|parts| - 2] == parts[..|parts| - 1][1..];
    }
  }

  /** A synthesised node has a parent exactly when its depth exceeds one; the
      parent is present, is one segment shorter, and the child's id is the
      parent's id, a slash, and the child's local label. */
  lemma ParentLink(records: map<string, Record>, k: string)
    requires k in SynthesizedNodes(records)
    ensures var n := SynthesizedNodes(records)[k];
      && n.fullId == k
      && n.id == Segments(k)[|Segments(k)| - 1]
      && (n.parentId.None? <==> |Segments(k)| == 1)
      && (n.parentId.Some? ==>
            && n.parentId.value in SynthesizedNodes(records)
            && Segments(n.parentId.value) == Segments(k)[..|Segments(k)| - 1]
            && k == n.parentId.value + "/" + n.id)
  {
    var parts := Segments(k);
    if |parts| > 1 {
      var p := Join(parts[..|parts| - 1], "/");
      SplitJoinPrefix(k, '/', |parts| - 1);
      JoinSplit(k, '/');
      JoinSnoc(parts, "/");
      PrefixClosed(records, k, p);
    }
  }

  /** Reference definition of what linking appends to `parent`'s children: the
      keys, in dictionary order, whose node names `parent` as its parent. */
  function ChildrenIn(keys: seq<string>, nodes: map<string, ArchivalNode>, parent: string): seq<string> {
    if keys == [] then []
    else
      var last := keys[|keys| - 1];
      ChildrenIn(keys[..|keys| - 1], nodes, parent) +
        (if last in nodes && nodes[last].parentId == Some(parent) then [last] else [])
  }

  /** A node is among `parent`'s children exactly when it names `parent` as its
      parent, and it is there once. */
  lemma {:induction false} ChildrenInMembers(keys: seq<string>, nodes: map<string, ArchivalNode>, parent: string)
    requires forall i :: 0 <= i < |keys| ==> keys[i] in nodes
    requires Distinct(keys)
    ensures forall c :: c in ChildrenIn(keys, nodes, parent) <==> c in keys && nodes[c].parentId == Some(parent)
    ensures Distinct(ChildrenIn(keys, nodes, parent))
  {
    if keys != [] {
      var init := keys[..|keys| - 1];
      ChildrenInMembers(init, nodes, parent);
      assert forall c :: c in keys <==> c in init || c == keys[|keys| - 1];
    }
  }

  lemma ChildrenInStep(keys: seq<string>, nodes: map<string, ArchivalNode>, parent: string, i: nat)
    requires i < |keys| && keys[i] in nodes
    ensures ChildrenIn(keys[..i + 1], nodes, parent) ==
      ChildrenIn(keys[..i], nodes, parent) + (if nodes[keys[i]].parentId == Some(parent) then [keys[i]] else [])
  {
    assert keys[..i + 1][..i] == keys[..i];
  }

  /** Node `k` once the first `i` keys are linked: its children extended by
      those found so far. */
  ghost predicate LinkedAt(nodes: Dict<ArchivalNode>, linked: Dict<ArchivalNode>, i: nat, k: string)
    requires i <= |nodes.keys| && k in nodes.vals
  {
    && k in linked.vals
    && linked.vals[k] == nodes.vals[k].(children := nodes.vals[k].children + ChildrenIn(nodes.keys[..i], nodes.vals, k))
  }

  /** The state of linking once the first `i` keys are processed: keys kept,
      and each node's children extended by the children found so far. */
  ghost predicate LinkedUpTo(nodes: Dict<ArchivalNode>, linked: Dict<ArchivalNode>, i: nat) {
    && i <= |nodes.keys|
    && linked.keys == nodes.keys && linked.vals.Keys == nodes.vals.Keys
    && forall k :: k in nodes.vals ==> LinkedAt(nodes, linked, i, k)
  }

  lemma LinkKeyStep(nodes: Dict<ArchivalNode>, before: Dict<ArchivalNode>, after: Dict<ArchivalNode>, i: nat, k: string)
    requires i < |nodes.keys| && k in nodes.vals && nodes.keys[i] in nodes.vals && before.vals.Keys == nodes.vals.Keys
    requires LinkedAt(nodes, before, i, k)
    requires var key := nodes.keys[i];
      var parent := nodes.vals[key].parentId;
      if parent.Some? && parent.value in nodes.vals
      then after.vals == before.vals[parent.value := before.vals[parent.value].(children := before.vals[parent.value].children + [key])]
      else after.vals == before.vals
    ensures LinkedAt(nodes, after, i + 1, k)
  {
    ChildrenInStep(nodes.keys, nodes.vals, k, i);
  }

  /** One iteration of the linking loop keeps `LinkedUpTo`. */
  lemma LinkStep(nodes: Dict<ArchivalNode>, before: Dict<ArchivalNode>, after: Dict<ArchivalNode>, i: nat)
    requires nodes.Valid() && i < |nodes.keys| && LinkedUpTo(nodes, before, i)
    requires after.keys == before.keys
    requires var key := nodes.keys[i];
      var parent := nodes.vals[key].parentId;
      if parent.Some? && parent.value in nodes.vals
      then after.vals == before.vals[parent.value := before.vals[parent.value].(children := before.vals[parent.value].children + [key])]
      else after.vals == before.vals
    ensures LinkedUpTo(nodes, after, i + 1)
  {
    forall k | k in nodes.vals
      ensures LinkedAt(nodes, after, i + 1, k)
    {
      LinkKeyStep(nodes, before, after, i, k);
    }
  }

  /** One iteration of the linking loop: key `i` is appended to its parent's
      children when the parent is a key. */
  method LinkNode(nodes: Dict<ArchivalNode>, linked: Dict<ArchivalNode>, i: nat) returns (after: Dict<ArchivalNode>)
    requires nodes.Valid() && linked.Valid() && i < |nodes.keys| && LinkedUpTo(nodes, linked, i)
    ensures after.Valid() && LinkedUpTo(nodes, after, i + 1)
  {
    var key := nodes.keys[i];
    assert LinkedAt(nodes, linked, i, key);
    var node := linked.vals[key];
    if node.parentId.Some? && node.parentId.value in linked.vals {
      var p := node.parentId.value;
      after := linked.Put(p, linked.vals[p].(children := linked.vals[p].children + [key]));
    } else {
      after := linked;
    }
    LinkStep(nodes, linked, after, i);
  }

  /** Once every key is linked, each node's children are extended by all the
      nodes naming it as parent. */
  lemma LinkedAll(nodes: Dict<ArchivalNode>, linked: Dict<ArchivalNode>)
    requires LinkedUpTo(nodes, linked, |nodes.keys|)
    ensures forall k :: k in nodes.vals ==>
      linked.vals[k] == nodes.vals[k].(children := nodes.vals[k].children + ChildrenIn(nodes.keys, nodes.vals, k))
  {
    assert nodes.keys[..|nodes.keys|] == nodes.keys;
    forall k | k in nodes.vals
      ensures linked.vals[k] == nodes.vals[k].(children := nodes.vals[k].children + ChildrenIn(nodes.keys, nodes.vals, k))
    {
      assert LinkedAt(nodes, linked, |nodes.keys|, k);
    }
  }

  /** The third loop of `load_yaml_records`: each node is appended to its
      parent's children when the parent is a key. Only `children` changes. */
  method LinkChildren(nodes: Dict<ArchivalNode>) returns (linked: Dict<ArchivalNode>)
    requires nodes.Valid()
    ensures linked.Valid() && linked.keys == nodes.keys && linked.vals.Keys == nodes.vals.Keys
    ensures forall k :: k in nodes.vals ==>
      linked.vals[k] == nodes.vals[k].(children := nodes.vals[k].children + ChildrenIn(nodes.keys, nodes.vals, k))
  {
    linked := nodes;
    for i := 0 to |nodes.keys|
      invariant linked.Valid() && LinkedUpTo(nodes, linked, i)
    {
      linked := LinkNode(nodes, linked, i);
    }
    LinkedAll(nodes, linked);
  }

  /** The shape of the dictionary `load_yaml_records` returns: each node is
      stored under its full id and labelled by its last segment; it has a
      parent exactly when it is deeper than one segment, and that parent is
      present and one segment shorter; its children are exactly the nodes
      naming it as parent, each listed once. */
  ghost predicate WellFormedForest(m: map<string, ArchivalNode>) {
    && (forall k {:trigger m[k]} :: k in m ==> m[k].fullId == k && m[k].id == Segments(k)[|Segments(k)| - 1])
    && (forall k {:trigger m[k]} :: k in m ==> (m[k].parentId.None? <==> |Segments(k)| == 1))
    && (forall k {:trigger m[k]} :: k in m && m[k].parentId.Some? ==>
          m[k].parentId.value in m && Segments(m[k].parentId.value) == Segments(k)[..|Segments(k)| - 1])
    && (forall k, c {:trigger c in m[k].children} :: k in m ==> (c in m[k].children <==> c in m && m[c].parentId == Some(k)))
    && (forall k {:trigger m[k]} :: k in m ==> Distinct(m[k].children))
  }

  /** The ids under which the listing stores records. */
  ghost function StoredIds(listing: seq<RecordFile>): set<string> {
    set i | 0 <= i < |listing| && FileId(listing[i]).Some? :: FileId(listing[i]).value
  }

  /** Reference definition of the complete `records_by_id`. */
  ghost function RecordsById(listing: seq<RecordFile>): map<string, Record> {
    map k | k in StoredIds(listing) :: (LastRecordWithIdPresent(listing, k); LastRecordWithId(listing, k).value)
  }

  /** `load_yaml_records`: one node per distinct prefix of the stored ids,
      each with the attributes `NodeFor` gives it from the complete record
      map, linked into a well-formed forest. */
  method LoadYamlRecords(listing: seq<RecordFile>) returns (nodes: Dict<ArchivalNode>)
    ensures nodes.Valid()
    ensures nodes.vals.Keys == AllPrefixIds(StoredIds(listing))
    ensures forall k :: k in nodes.vals ==> nodes.vals[k].(children := []) == NodeFor(RecordsById(listing), k)
    ensures WellFormedForest(nodes.vals)
  {
    var byId := LoadRecords(listing);
    forall k
      ensures k in byId.vals <==> k in StoredIds(listing)
      ensures k in byId.vals ==> byId.vals[k] == RecordsById(listing)[k]
    {
      LastRecordWithIdPresent(listing, k);
    }
    assert byId.vals == RecordsById(listing);
    var synthesized := BuildNodes(byId);
    nodes := LinkChildren(synthesized);
    SynthesizedForest(byId.vals, synthesized, nodes);
  }

  /** One linked node has the shape `WellFormedForest` asks for. */
  lemma LinkedNodeShape(records: map<string, Record>, synthesized: Dict<ArchivalNode>, linked: Dict<ArchivalNode>, k: string)
    requires synthesized.Valid() && synthesized.vals == SynthesizedNodes(records)
    requires linked.vals.Keys == synthesized.vals.Keys
    requires forall k :: k in synthesized.vals ==>
      linked.vals[k] == synthesized.vals[k].(children := synthesized.vals[k].children + ChildrenIn(synthesized.keys, synthesized.vals, k))
    requires k in linked.vals
    ensures linked.vals[k].fullId == k && linked.vals[k].id == Segments(k)[|Segments(k)| - 1]
    ensures linked.vals[k].parentId.None? <==> |Segments(k)| == 1
    ensures linked.vals[k].parentId.Some? ==>
      linked.vals[k].parentId.value in linked.vals && Segments(linked.vals[k].parentId.value) == Segments(k)[..|Segments(k)| - 1]
    ensures forall c :: c in linked.vals[k].children <==> c in linked.vals && linked.vals[c].parentId == Some(k)
    ensures Distinct(linked.vals[k].children)
  {
    ParentLink(records, k);
    ChildrenInMembers(synthesized.keys, synthesized.vals, k);
  }

  /** Linking the synthesised nodes gives a well-formed forest. */
  lemma SynthesizedForest(records: map<string, Record>, synthesized: Dict<ArchivalNode>, linked: Dict<ArchivalNode>)
    requires synthesized.Valid() && synthesized.vals == SynthesizedNodes(records)
    requires linked.vals.Keys == synthesized.vals.Keys
    requires forall k :: k in synthesized.vals ==>
      linked.vals[k] == synthesized.vals[k].(children := synthesized.vals[k].children + ChildrenIn(synthesized.keys, synthesized.vals, k))
    ensures WellFormedForest(linked.vals)
  {
    var m := linked.vals;
    forall k | k in m
      ensures m[k].fullId == k && m[k].id == Segments(k)[|Segments(k)| - 1]
      ensures m[k].parentId.None? <==> |Segments(k)| == 1
      ensures m[k].parentId.Some? ==>
        m[k].parentId.value in m && Segments(m[k].parentId.value) == Segments(k)[..|Segments(k)| - 1]
      ensures forall c :: c in m[k].children <==> c in m && m[c].parentId == Some(k)
      ensures Distinct(m[k].children)
    {
      LinkedNodeShape(records, synthesized, linked, k);
    }
  }

  /** A root of the dictionary: no parent, or a parent that is not a key. */
  predicate IsRoot(nodes: map<string, ArchivalNode>, k: string) {
    k in nodes && (nodes[k].parentId.None? || nodes[k].parentId.value !in nodes)
  }

  /** `[node for node in nodes.values() if node.parent_id is None or
      node.parent_id not in nodes]`, as keys in dictionary order. */
  function RootIds(keys: seq<string>, nodes: map<string, ArchivalNode>): seq<string> {
    if keys == [] then []
    else
      var last := keys[|keys| - 1];
      RootIds(keys[..|keys| - 1], nodes) + (if IsRoot(nodes, last) then [last] else [])
  }

  /** The roots listed are exactly the roots among the keys, each once. */
  lemma {:induction false} RootIdsMembers(keys: seq<string>, nodes: map<string, ArchivalNode>)
    requires Distinct(keys)
    ensures forall r :: r in RootIds(keys, nodes) <==> r in keys && IsRoot(nodes, r)
    ensures Distinct(RootIds(keys, nodes))
  {
    if keys != [] {
      var init := keys[..|keys| - 1];
      RootIdsMembers(init, nodes);
      assert forall c :: c in keys <==> c in init || c == keys[|keys| - 1];
    }
  }

  /** In a well-formed forest no parent is missing, so the roots are exactly
      the nodes of depth one. */
  lemma ForestRoots(m: map<string, ArchivalNode>, k: string)
    requires WellFormedForest(m)
    ensures IsRoot(m, k) <==> k in m && |Segments(k)| == 1
  {
  }

  /** Within one run each canonical id comes from at most one file. */
  ghost predicate UniqueIds(listing: seq<RecordFile>) {
    forall i, j :: 0 <= i < j < |listing| && FileId(listing[i]).Some? ==> FileId(listing[i]) != FileId(listing[j])
  }

  lemma {:induction false} LastRecordOfUnique(listing: seq<RecordFile>, i: nat)
    requires UniqueIds(listing) && i < |listing| && FileId(listing[i]).Some?
    ensures LastRecordWithId(listing, FileId(listing[i]).value) == Some(listing[i].record)
  {
    if i < |listing| - 1 {
      var init := listing[..|listing| - 1];
      assert init[i] == listing[i];
      LastRecordOfUnique(init, i);
    }
  }

  /** Files listed in another order still include one stored under `k`. */
  lemma StoredInBoth(l1: seq<RecordFile>, l2: seq<RecordFile>, k: string)
    requires multiset(l1) == multiset(l2)
    ensures (exists i :: 0 <= i < |l1| && FileId(l1[i]) == Some(k)) ==>
            (exists j :: 0 <= j < |l2| && FileId(l2[j]) == Some(k))
  {
    if i :| 0 <= i < |l1| && FileId(l1[i]) == Some(k) {
      assert l1[i] in multiset(l2);
      var j :| 0 <= j < |l2| && l2[j] == l1[i];
    }
  }

  /** Order independence: when canonical ids are unique, listing the same files
      in another order stores the same records under the same ids, hence
      (by `LoadYamlRecords`) yields the same nodes with the same attributes
      and the same parent/child relation. */
  lemma LoadOrderIndependent(l1: seq<RecordFile>, l2: seq<RecordFile>)
    requires multiset(l1) == multiset(l2) && UniqueIds(l1) && UniqueIds(l2)
    ensures StoredIds(l1) == StoredIds(l2)
    ensures RecordsById(l1) == RecordsById(l2)
  {
    forall k
      ensures LastRecordWithId(l1, k) == LastRecordWithId(l2, k)
    {
      LastRecordWithIdPresent(l1, k);
      LastRecordWithIdPresent(l2, k);
      StoredInBoth(l2, l1, k);
      if i :| 0 <= i < |l1| && FileId(l1[i]) == Some(k) {
        assert l1[i] in multiset(l2);
        var j :| 0 <= j < |l2| && l2[j] == l1[i];
        LastRecordOfUnique(l1, i);
        LastRecordOfUnique(l2, j);
      }
    }
    forall k
      ensures k in StoredIds(l1) <==> k in StoredIds(l2)
    {
      LastRecordWithIdPresent(l1, k);
      LastRecordWithIdPresent(l2, k);
    }
  }
}
