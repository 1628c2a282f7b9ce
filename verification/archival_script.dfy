/** The script version of the archival-tree builder: it reads only the files
    named `record_*.yaml`, indexes them by canonical id, synthesises the node
    chains exactly as `load_yaml_records` does, then partitions the nodes into
    roots and children in one loop and prints each root's subtree in id order. */
module ArchivalScript {
  import opened Text
  import opened PyDict
  import opened ArchivalTree
  import opened ArchivalRender

  /** `filename.startswith("record_") and filename.endswith(".yaml")`. */
  predicate IsRecordFile(f: RecordFile) {
    StartsWith(f.filename, "record_") && IsYaml(f)
  }

  /** Reference definition of the files the first loop reads, in listing order. */
  function RecordFiles(listing: seq<RecordFile>): (files: seq<RecordFile>)
    ensures forall f :: f in files <==> f in listing && IsRecordFile(f)
  {
    if listing == [] then []
    else
      var init := listing[..|listing| - 1];
      var last := listing[|listing| - 1];
      assert forall f :: f in listing <==> f in init || f == last;
      RecordFiles(init) + (if IsRecordFile(last) then [last] else [])
  }

  /** The records held by a sequence of files. */
  function Contents(files: seq<RecordFile>): (records: seq<Record>)
    ensures |records| == |files| && forall i :: 0 <= i < |files| ==> records[i] == files[i].record
  {
    seq(|files|, i requires 0 <= i < |files| => files[i].record)
  }

  lemma RecordFilesSnoc(listing: seq<RecordFile>, i: nat)
    requires i < |listing|
    ensures Contents(RecordFiles(listing[..i + 1])) ==
      Contents(RecordFiles(listing[..i])) + (if IsRecordFile(listing[i]) then [listing[i].record] else [])
  {
    assert listing[..i + 1][..i] == listing[..i];
    var files := RecordFiles(listing[..i]);
    if IsRecordFile(listing[i]) {
      assert Contents(files + [listing[i]]) == Contents(files) + [listing[i].record];
    } else {
      assert files + [] == files;
    }
  }

  /** Loop 1: the records of the `record_*.yaml` files, in listing order. */
  method ReadRecords(listing: seq<RecordFile>) returns (records: seq<Record>)
    ensures records == Contents(RecordFiles(listing))
  {
    records := [];
    for i := 0 to |listing|
      invariant records == Contents(RecordFiles(listing[..i]))
    {
      RecordFilesSnoc(listing, i);
      if IsRecordFile(listing[i]) {
        records := records + [listing[i].record];
      }
    }
    assert listing[..|listing|] == listing;
  }

  /** The inner loop of loop 2: the first identifier starting with `PT/`. */
  method FirstCanonicalId(ids: seq<string>) returns (fullId: Option<string>)
    ensures fullId == CanonicalId(ids)
  {
    fullId := None;
    var i := 0;
    while i < |ids|
      invariant 0 <= i <= |ids|
      invariant CanonicalId(ids) == CanonicalId(ids[i..])
    {
      if StartsWith(ids[i], CanonicalPrefix) {
        fullId := Some(ids[i]);
        break;
      }
      assert ids[i..][1..] == ids[i + 1..];
      i := i + 1;
    }
  }

  /** Loop 2: `records_by_id`, a record with a canonical id stored under it
      (a later one overwriting an earlier one), a record without one skipped.
      `files` names the files the records were read from. */
  method IndexRecords(records: seq<Record>, ghost files: seq<RecordFile>) returns (byId: Dict<Record>)
    requires |records| == |files|
    requires forall i :: 0 <= i < |files| ==> IsYaml(files[i]) && files[i].record == records[i]
    ensures byId.Valid()
    ensures forall k :: LastRecordWithId(files, k) == (if k in byId.vals then Some(byId.vals[k]) else None)
    ensures byId.keys == IdsInOrder(files)
  {
    byId := EmptyDict();
    for i := 0 to |records|
      invariant byId.Valid()
      invariant forall k :: LastRecordWithId(files[..i], k) == (if k in byId.vals then Some(byId.vals[k]) else None)
      invariant byId.keys == IdsInOrder(files[..i])
    {
      assert files[..i + 1][..i] == files[..i];
      assert FileId(files[i]) == CanonicalId(records[i].identificadores);
      var fullId := FirstCanonicalId(records[i].identificadores);
      if fullId.None? || fullId.value == "" {
        continue;
      }
      byId := byId.Put(fullId.value, records[i]);
    }
    assert files[..|files|] == files;
  }

  /** `node.parent_id and node.parent_id in nodes`: a parent that is set, is not
      the empty string, and is a key. */
  predicate HasListedParent(m: map<string, ArchivalNode>, k: string)
    requires k in m
  {
    m[k].parentId.Some? && m[k].parentId.value != "" && m[k].parentId.value in m
  }

  /** Reference definition of `root_nodes`: the keys, in dictionary order,
      whose node has no listed parent. */
  function ScriptRoots(keys: seq<string>, m: map<string, ArchivalNode>): seq<string>
    requires forall i :: 0 <= i < |keys| ==> keys[i] in m
  {
    if keys == [] then []
    else
      var last := keys[|keys| - 1];
      ScriptRoots(keys[..|keys| - 1], m) + (if HasListedParent(m, last) then [] else [last])
  }

  /** What the partition appends to `p`'s children: the nodes naming `p` as
      parent, unless `p` is the empty string, which counts as no parent. */
  function ScriptChildrenIn(keys: seq<string>, m: map<string, ArchivalNode>, p: string): seq<string> {
    if p == "" then [] else ChildrenIn(keys, m, p)
  }

  /** Node `k` once the first `i` keys are processed: its children extended
      by those found so far. */
  ghost predicate PartitionedAt(nodes: Dict<ArchivalNode>, linked: Dict<ArchivalNode>, i: nat, k: string)
    requires i <= |nodes.keys| && k in nodes.vals
  {
    && k in linked.vals
    && linked.vals[k] == nodes.vals[k].(children := nodes.vals[k].children + ScriptChildrenIn(nodes.keys[..i], nodes.vals, k))
  }

  /** The state of the partition once the first `i` keys are processed. */
  ghost predicate PartitionedUpTo(nodes: Dict<ArchivalNode>, linked: Dict<ArchivalNode>, roots: seq<string>, i: nat)
    requires nodes.Valid()
  {
    && i <= |nodes.keys|
    && linked.keys == nodes.keys && linked.vals.Keys == nodes.vals.Keys
    && (forall k :: k in nodes.vals ==> PartitionedAt(nodes, linked, i, k))
    && roots == ScriptRoots(nodes.keys[..i], nodes.vals)
  }

  /** What the partition does with key `i`: append it to its listed parent's
      children, or change nothing. */
  ghost predicate Moved(nodes: Dict<ArchivalNode>, before: Dict<ArchivalNode>, after: Dict<ArchivalNode>, i: nat)
    requires nodes.Valid() && i < |nodes.keys| && before.vals.Keys == nodes.vals.Keys
  {
    var key := nodes.keys[i];
    if HasListedParent(nodes.vals, key) then
      var p := nodes.vals[key].parentId.value;
      after.vals == before.vals[p := before.vals[p].(children := before.vals[p].children + [key])]
    else after.vals == before.vals
  }

  lemma PartitionKeyStep(nodes: Dict<ArchivalNode>, before: Dict<ArchivalNode>, after: Dict<ArchivalNode>, i: nat, k: string)
    requires nodes.Valid() && i < |nodes.keys| && k in nodes.vals && before.vals.Keys == nodes.vals.Keys
    requires PartitionedAt(nodes, before, i, k) && Moved(nodes, before, after, i)
    ensures PartitionedAt(nodes, after, i + 1, k)
  {
    ChildrenInStep(nodes.keys, nodes.vals, k, i);
  }

  lemma ScriptRootsStep(keys: seq<string>, m: map<string, ArchivalNode>, i: nat)
    requires i < |keys| && forall j :: 0 <= j < |keys| ==> keys[j] in m
    ensures ScriptRoots(keys[..i + 1], m) == ScriptRoots(keys[..i], m) + (if HasListedParent(m, keys[i]) then [] else [keys[i]])
  {
    assert keys[..i + 1][..i] == keys[..i];
  }

  /** One iteration of the partition loop keeps `PartitionedUpTo`. */
  lemma PartitionStep(nodes: Dict<ArchivalNode>, before: Dict<ArchivalNode>, rootsBefore: seq<string>,
                      after: Dict<ArchivalNode>, rootsAfter: seq<string>, i: nat)
    requires nodes.Valid() && i < |nodes.keys| && PartitionedUpTo(nodes, before, rootsBefore, i)
    requires Moved(nodes, before, after, i) && after.keys == before.keys
    requires rootsAfter == rootsBefore + (if HasListedParent(nodes.vals, nodes.keys[i]) then [] else [nodes.keys[i]])
    ensures PartitionedUpTo(nodes, after, rootsAfter, i + 1)
  {
    forall k | k in nodes.vals
      ensures PartitionedAt(nodes, after, i + 1, k)
    {
      PartitionKeyStep(nodes, before, after, i, k);
    }
    ScriptRootsStep(nodes.keys, nodes.vals, i);
  }

  /** One iteration of the partition loop: key `i` goes to its parent's
      children when the parent is listed, and to the roots otherwise. */
  method PlaceNode(nodes: Dict<ArchivalNode>, linked: Dict<ArchivalNode>, roots: seq<string>, i: nat)
    returns (after: Dict<ArchivalNode>, rootsAfter: seq<string>)
    requires nodes.Valid() && linked.Valid() && i < |nodes.keys| && PartitionedUpTo(nodes, linked, roots, i)
    ensures after.Valid() && PartitionedUpTo(nodes, after, rootsAfter, i + 1)
  {
    var key := nodes.keys[i];
    assert PartitionedAt(nodes, linked, i, key);
    var node := linked.vals[key];
    rootsAfter := roots;
    if node.parentId.Some? && node.parentId.value != "" && node.parentId.value in linked.vals {
      var p := node.parentId.value;
      after := linked.Put(p, linked.vals[p].(children := linked.vals[p].children + [key]));
    } else {
      after := linked;
      rootsAfter := roots + [key];
    }
    PartitionStep(nodes, linked, roots, after, rootsAfter, i);
  }

  /** Once every key is processed, each node's children are extended by all
      the nodes naming it as parent. */
  lemma PartitionedAll(nodes: Dict<ArchivalNode>, linked: Dict<ArchivalNode>, roots: seq<string>)
    requires nodes.Valid() && PartitionedUpTo(nodes, linked, roots, |nodes.keys|)
    ensures forall k :: k in nodes.vals ==>
      linked.vals[k] == nodes.vals[k].(children := nodes.vals[k].children + ScriptChildrenIn(nodes.keys, nodes.vals, k))
    ensures roots == ScriptRoots(nodes.keys, nodes.vals)
  {
    assert nodes.keys[..|nodes.keys|] == nodes.keys;
    forall k | k in nodes.vals
      ensures linked.vals[k] == nodes.vals[k].(children := nodes.vals[k].children + ScriptChildrenIn(nodes.keys, nodes.vals, k))
    {
      assert PartitionedAt(nodes, linked, |nodes.keys|, k);
    }
  }

  /** The partition loop: each node goes to its parent's children when it has a
      listed parent, to `root_nodes` otherwise. Only `children` changes. */
  method Partition(nodes: Dict<ArchivalNode>) returns (linked: Dict<ArchivalNode>, roots: seq<string>)
    requires nodes.Valid()
    ensures linked.Valid() && linked.keys == nodes.keys && linked.vals.Keys == nodes.vals.Keys
    ensures forall k :: k in nodes.vals ==>
      linked.vals[k] == nodes.vals[k].(children := nodes.vals[k].children + ScriptChildrenIn(nodes.keys, nodes.vals, k))
    ensures roots == ScriptRoots(nodes.keys, nodes.vals)
  {
    linked := nodes;
    roots := [];
    for i := 0 to |nodes.keys|
      invariant linked.Valid()
      invariant PartitionedUpTo(nodes, linked, roots, i)
    {
      linked, roots := PlaceNode(nodes, linked, roots, i);
    }
    PartitionedAll(nodes, linked, roots);
  }

  /** Every node lands in exactly one place: it is a root exactly when it is
      no present node's child, it is the child of its parent alone, and
      neither list holds it twice. */
  lemma {:induction false} PlacedOnce(keys: seq<string>, m: map<string, ArchivalNode>, k: string)
    requires Distinct(keys) && forall i :: 0 <= i < |keys| ==> keys[i] in m
    requires k in keys
    ensures k in ScriptRoots(keys, m) <==> forall p :: p in m ==> k !in ScriptChildrenIn(keys, m, p)
    ensures forall p :: p in m ==> (k in ScriptChildrenIn(keys, m, p) <==> HasListedParent(m, k) && m[k].parentId == Some(p))
    ensures Distinct(ScriptRoots(keys, m)) && forall p :: Distinct(ScriptChildrenIn(keys, m, p))
  {
    ScriptRootsMembers(keys, m);
    forall p
      ensures p in m ==> (k in ScriptChildrenIn(keys, m, p) <==> HasListedParent(m, k) && m[k].parentId == Some(p))
      ensures Distinct(ScriptChildrenIn(keys, m, p))
    {
      ChildrenInMembers(keys, m, p);
    }
    if HasListedParent(m, k) {
      assert k in ScriptChildrenIn(keys, m, m[k].parentId.value);
    }
  }

  lemma {:induction false} ScriptRootsMembers(keys: seq<string>, m: map<string, ArchivalNode>)
    requires Distinct(keys) && forall i :: 0 <= i < |keys| ==> keys[i] in m
    ensures forall r :: r in ScriptRoots(keys, m) <==> r in keys && !HasListedParent(m, r)
    ensures Distinct(ScriptRoots(keys, m))
  {
    if keys != [] {
      var init := keys[..|keys| - 1];
      ScriptRootsMembers(init, m);
      assert forall c :: c in keys <==> c in init || c == keys[|keys| - 1];
    }
  }

  /** When no key is the empty string, the script's roots are the roots the
      functions version selects, in the same order. */
  lemma {:induction false} ScriptRootsAgree(keys: seq<string>, m: map<string, ArchivalNode>)
    requires "" !in m && forall i :: 0 <= i < |keys| ==> keys[i] in m
    ensures ScriptRoots(keys, m) == RootIds(keys, m)
  {
    if keys != [] {
      ScriptRootsAgree(keys[..|keys| - 1], m);
    }
  }

  /** The roots depend on the nodes only through their parents. */
  lemma {:induction false} RootIdsSameParents(keys: seq<string>, m1: map<string, ArchivalNode>, m2: map<string, ArchivalNode>)
    requires m1.Keys == m2.Keys && forall k :: k in m1 ==> m1[k].parentId == m2[k].parentId
    ensures RootIds(keys, m1) == RootIds(keys, m2)
  {
    if keys != [] {
      RootIdsSameParents(keys[..|keys| - 1], m1, m2);
    }
  }

  /** A canonical id's first segment is `PT`. */
  lemma CanonicalHead(k: string)
    requires StartsWith(k, CanonicalPrefix)
    ensures Segments(k)[0] == "PT"
  {
    assert k[2] == '/';
    assert k[0] != '/' && k[1] != '/';
    assert IndexOf(k, '/') == 2;
    assert k[..2] == "PT";
  }

  /** No prefix of a canonical id is the empty string. */
  lemma NoEmptyPrefixId(records: map<string, Record>)
    requires forall k :: k in records ==> StartsWith(k, CanonicalPrefix)
    ensures "" !in SynthesizedNodes(records)
  {
    assert Segments("") == [""];
    forall k | k in records.Keys
      ensures !IsPrefixId("", k)
    {
      CanonicalHead(k);
    }
    AllPrefixIdsMembers(records.Keys, "");
  }

  /** The stored ids are canonical ids. */
  lemma StoredIdsCanonical(files: seq<RecordFile>, k: string)
    requires k in StoredIds(files)
    ensures StartsWith(k, CanonicalPrefix)
  {
    var i :| 0 <= i < |files| && FileId(files[i]).Some? && FileId(files[i]).value == k;
  }

  /** `print(root)` for each root in id order: the root's `__repr__` and the
      newline `print` adds. */
  function PrintedForest(m: map<string, ArchivalNode>, roots: seq<string>): string
    requires Descending(m) && forall r :: r in roots ==> r in m
  {
    if roots == [] then ""
    else PrintedForest(m, roots[..|roots| - 1]) + Repr(m, roots[|roots| - 1], 0) + "\n"
  }

  /** The index the script builds from the record files is the complete
      `records_by_id` of those files, keyed by canonical ids. */
  lemma IndexedRecords(files: seq<RecordFile>, byId: Dict<Record>)
    requires forall k :: LastRecordWithId(files, k) == (if k in byId.vals then Some(byId.vals[k]) else None)
    ensures byId.vals == RecordsById(files)
    ensures forall k :: k in byId.vals ==> StartsWith(k, CanonicalPrefix)
  {
    forall k
      ensures k in byId.vals <==> k in StoredIds(files)
      ensures k in byId.vals ==> byId.vals[k] == RecordsById(files)[k]
    {
      LastRecordWithIdPresent(files, k);
    }
    forall k | k in byId.vals
      ensures StartsWith(k, CanonicalPrefix)
    {
      StoredIdsCanonical(files, k);
    }
  }

  /** With no node keyed by the empty string, the partition appends the same
      children as `ChildrenIn`. */
  lemma ScriptChildrenAgree(synthesized: Dict<ArchivalNode>, nodes: Dict<ArchivalNode>)
    requires "" !in synthesized.vals && nodes.vals.Keys == synthesized.vals.Keys
    requires forall k :: k in synthesized.vals ==>
      nodes.vals[k] == synthesized.vals[k].(children := synthesized.vals[k].children + ScriptChildrenIn(synthesized.keys, synthesized.vals, k))
    ensures forall k :: k in synthesized.vals ==>
      nodes.vals[k] == synthesized.vals[k].(children := synthesized.vals[k].children + ChildrenIn(synthesized.keys, synthesized.vals, k))
  {
    forall k | k in synthesized.vals
      ensures nodes.vals[k] == synthesized.vals[k].(children := synthesized.vals[k].children + ChildrenIn(synthesized.keys, synthesized.vals, k))
    {
      assert k != "";
    }
  }

  /** Linking changes children only: each node is still the one `NodeFor`
      describes once its children are set aside. */
  lemma LinkedKeepsNodes(records: map<string, Record>, synthesized: Dict<ArchivalNode>, nodes: Dict<ArchivalNode>)
    requires synthesized.vals == SynthesizedNodes(records) && nodes.vals.Keys == synthesized.vals.Keys
    requires forall k :: k in synthesized.vals ==>
      nodes.vals[k] == synthesized.vals[k].(children := synthesized.vals[k].children + ChildrenIn(synthesized.keys, synthesized.vals, k))
    ensures nodes.vals.Keys == AllPrefixIds(records.Keys)
    ensures forall k :: k in nodes.vals ==> nodes.vals[k].(children := []) == NodeFor(records, k)
    ensures forall k :: k in nodes.vals ==> nodes.vals[k].parentId == synthesized.vals[k].parentId
  {
  }

  /** The partitioned nodes are the forest `load_yaml_records` loads from the
      record files. */
  lemma PartitionedLoaded(files: seq<RecordFile>, byId: Dict<Record>, synthesized: Dict<ArchivalNode>, nodes: Dict<ArchivalNode>)
    requires byId.vals == RecordsById(files) && forall k :: k in byId.vals ==> StartsWith(k, CanonicalPrefix)
    requires synthesized.Valid() && synthesized.vals == SynthesizedNodes(byId.vals)
    requires nodes.Valid() && nodes.vals.Keys == synthesized.vals.Keys
    requires forall k :: k in synthesized.vals ==>
      nodes.vals[k] == synthesized.vals[k].(children := synthesized.vals[k].children + ScriptChildrenIn(synthesized.keys, synthesized.vals, k))
    ensures LoadedFrom(nodes, files) && WellFormedForest(nodes.vals)
    ensures "" !in synthesized.vals
    ensures forall k :: k in nodes.vals ==> nodes.vals[k].parentId == synthesized.vals[k].parentId
  {
    NoEmptyPrefixId(byId.vals);
    ScriptChildrenAgree(synthesized, nodes);
    SynthesizedForest(byId.vals, synthesized, nodes);
    LinkedKeepsNodes(byId.vals, synthesized, nodes);
    assert byId.vals.Keys == StoredIds(files);
  }

  /** A well-formed forest's children ids extend their parent's id. */
  lemma ForestDescends(m: map<string, ArchivalNode>)
    requires WellFormedForest(m)
    ensures Descending(m)
  {
    ForestShaped(m);
    LinkedDescends(m);
  }

  /** The roots the partition collects are the linked forest's roots. */
  lemma PartitionedRoots(synthesized: Dict<ArchivalNode>, nodes: Dict<ArchivalNode>, roots: seq<string>)
    requires synthesized.Valid() && "" !in synthesized.vals
    requires nodes.keys == synthesized.keys && nodes.vals.Keys == synthesized.vals.Keys
    requires forall k :: k in nodes.vals ==> nodes.vals[k].parentId == synthesized.vals[k].parentId
    requires roots == ScriptRoots(synthesized.keys, synthesized.vals)
    ensures roots == RootIds(nodes.keys, nodes.vals)
  {
    ScriptRootsAgree(synthesized.keys, synthesized.vals);
    RootIdsSameParents(nodes.keys, synthesized.vals, nodes.vals);
  }

  /** Partitioning the synthesised nodes links them exactly as
      `load_yaml_records` does, and the roots it collects are that forest's
      roots in dictionary order. */
  lemma PartitionedForest(files: seq<RecordFile>, byId: Dict<Record>, synthesized: Dict<ArchivalNode>,
                          nodes: Dict<ArchivalNode>, roots: seq<string>)
    requires byId.vals == RecordsById(files) && forall k :: k in byId.vals ==> StartsWith(k, CanonicalPrefix)
    requires synthesized.Valid() && synthesized.vals == SynthesizedNodes(byId.vals)
    requires nodes.Valid() && nodes.keys == synthesized.keys && nodes.vals.Keys == synthesized.vals.Keys
    requires forall k :: k in synthesized.vals ==>
      nodes.vals[k] == synthesized.vals[k].(children := synthesized.vals[k].children + ScriptChildrenIn(synthesized.keys, synthesized.vals, k))
    requires roots == ScriptRoots(synthesized.keys, synthesized.vals)
    ensures LoadedFrom(nodes, files) && Descending(nodes.vals)
    ensures roots == RootIds(nodes.keys, nodes.vals)
  {
    PartitionedLoaded(files, byId, synthesized, nodes);
    ForestDescends(nodes.vals);
    PartitionedRoots(synthesized, nodes, roots);
  }

  /** The whole script over a directory listing: the forest it builds is the
      one `load_yaml_records` builds from the `record_*.yaml` files, and it
      prints that forest's roots in id order. */
  method RunScript(listing: seq<RecordFile>) returns (nodes: Dict<ArchivalNode>, output: string)
    ensures LoadedFrom(nodes, RecordFiles(listing))
    ensures Descending(nodes.vals)
    ensures output == PrintedForest(nodes.vals, SortedRoots(nodes))
  {
    var records := ReadRecords(listing);
    ghost var files := RecordFiles(listing);
    assert forall i :: 0 <= i < |files| ==> files[i] in files;
    var byId := IndexRecords(records, files);
    IndexedRecords(files, byId);
    var synthesized := BuildNodes(byId);
    var roots;
    nodes, roots := Partition(synthesized);
    PartitionedForest(files, byId, synthesized, nodes, roots);
    RootIdsMembers(nodes.keys, nodes.vals);
    var sorted := SortById(nodes.vals, roots);
    assert forall r :: r in sorted ==> r in multiset(roots);
    output := PrintRoots(nodes.vals, sorted);
  }

  /** The final loop: `print(root)` for each root, in the order given. */
  method PrintRoots(m: map<string, ArchivalNode>, roots: seq<string>) returns (output: string)
    requires Descending(m) && forall r :: r in roots ==> r in m
    ensures output == PrintedForest(m, roots)
  {
    output := "";
    for i := 0 to |roots|
      invariant output == PrintedForest(m, roots[..i])
    {
      assert roots[..i + 1][..i] == roots[..i];
      output := output + Repr(m, roots[i], 0) + "\n";
    }
    assert roots[..|roots|] == roots;
  }

  /** The script prints, for each root in id order, the root's subtree in walk
      order with each node indented by its depth, followed by a blank line. */
  lemma {:induction false} PrintedForestFollowsVisit(m: map<string, ArchivalNode>, roots: seq<string>)
    requires Leveled(m) && Descending(m)
    requires forall r :: r in roots ==> r in m && Level(r) == 0
    ensures PrintedForest(m, roots) == PrintedVisits(m, roots)
  {
    if roots != [] {
      var last := roots[|roots| - 1];
      assert last in roots;
      ReprFollowsVisit(m, last);
      PrintedForestFollowsVisit(m, roots[..|roots| - 1]);
    }
  }

  /** Reference definition of the printed text: each root's walk as indented
      lines, then an empty line. */
  function PrintedVisits(m: map<string, ArchivalNode>, roots: seq<string>): string
    requires Descending(m) && forall r :: r in roots ==> r in m
  {
    if roots == [] then ""
    else PrintedVisits(m, roots[..|roots| - 1]) + IndentedLines(m, Visit(m, roots[|roots| - 1])) + "\n"
  }
}
