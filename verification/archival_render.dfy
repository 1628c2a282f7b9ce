/** The three read-only renderers of the archival tree: the indented text tree
    (`ArchivalNode.__repr__`, `generate_text_tree`), the mirrored directory tree
    with one README per node (`generate_directory_structure`), and the nested
    HTML list with links to the record files (`generate_html_tree_with_links`).
    All of them take siblings in ascending `id` order. File and directory
    writes are modelled by returning what would be written. */
module ArchivalRender {
  import opened Text
  import opened PyDict
  import opened ArchivalTree

  // ---------------------------------------------------------------------------
  // Sibling order: `sorted(..., key=lambda x: x.id)`

  predicate Lt(a: string, b: string) {
    Le(a, b) && a != b
  }

  /** Inserts `x` after every element whose id is not greater than its own, as
      a stable sort does for an element that came later. */
  function InsertById(m: map<string, ArchivalNode>, x: string, sorted: seq<string>): (r: seq<string>)
    requires x in m && forall c :: c in sorted ==> c in m
    ensures multiset(r) == multiset(sorted) + multiset{x}
    ensures forall c :: c in r <==> c == x || c in sorted
  {
    if sorted == [] then [x]
    else if Lt(m[x].id, m[sorted[0]].id) then [x] + sorted
    else
      assert sorted == [sorted[0]] + sorted[1..];
      [sorted[0]] + InsertById(m, x, sorted[1..])
  }

  /** `sorted(cs, key=lambda x: x.id)` on keys of `m`: a permutation of `cs`. */
  function SortById(m: map<string, ArchivalNode>, cs: seq<string>): (r: seq<string>)
    requires forall c :: c in cs ==> c in m
    ensures multiset(r) == multiset(cs)
  {
    if cs == [] then []
    else
      var init := cs[..|cs| - 1];
      assert cs == init + [cs[|cs| - 1]];
      var s := SortById(m, init);
      assert forall c :: c in s ==> c in multiset(init);
      InsertById(m, cs[|cs| - 1], s)
  }

  predicate SortedById(m: map<string, ArchivalNode>, s: seq<string>) {
    forall i, j :: 0 <= i < j < |s| ==> s[i] in m && s[j] in m && Le(m[s[i]].id, m[s[j]].id)
  }

  /** A sorted sequence stays sorted under a new head no greater than any of it. */
  lemma SortedCons(m: map<string, ArchivalNode>, s0: string, rest: seq<string>)
    requires s0 in m && SortedById(m, rest)
    requires forall c :: c in rest ==> c in m && Le(m[s0].id, m[c].id)
    ensures SortedById(m, [s0] + rest)
  {
    var r := [s0] + rest;
    forall i, j | 0 <= i < j < |r|
      ensures r[i] in m && r[j] in m && Le(m[r[i]].id, m[r[j]].id)
    {
      assert r[j] == rest[j - 1];
      if i > 0 {
        assert r[i] == rest[i - 1];
      }
    }
  }

  lemma {:induction false} InsertByIdSorted(m: map<string, ArchivalNode>, x: string, sorted: seq<string>)
    requires x in m && forall c :: c in sorted ==> c in m
    requires SortedById(m, sorted)
    ensures SortedById(m, InsertById(m, x, sorted))
  {
    if sorted == [] {
    } else if Lt(m[x].id, m[sorted[0]].id) {
      forall c | c in sorted
        ensures c in m && Le(m[x].id, m[c].id)
      {
        var j :| 0 <= j < |sorted| && sorted[j] == c;
        if j > 0 {
          LeTransitive(m[x].id, m[sorted[0]].id, m[c].id);
        }
      }
      SortedCons(m, x, sorted);
    } else {
      var s0 := sorted[0];
      var tail := sorted[1..];
      assert SortedById(m, tail) by {
        forall i, j | 0 <= i < j < |tail|
          ensures tail[i] in m && tail[j] in m && Le(m[tail[i]].id, m[tail[j]].id)
        {
          assert tail[i] == sorted[i + 1] && tail[j] == sorted[j + 1];
        }
      }
      InsertByIdSorted(m, x, tail);
      LeTotal(m[x].id, m[s0].id);
      LeReflexive(m[x].id);
      forall c | c in InsertById(m, x, tail)
        ensures c in m && Le(m[s0].id, m[c].id)
      {
        if c != x {
          var j :| 0 <= j < |tail| && tail[j] == c;
          assert sorted[j + 1] == c;
        }
      }
      SortedCons(m, s0, InsertById(m, x, tail));
    }
  }

  /** The sort puts siblings in ascending id order. */
  lemma {:induction false} SortByIdSorted(m: map<string, ArchivalNode>, cs: seq<string>)
    requires forall c :: c in cs ==> c in m
    ensures SortedById(m, SortById(m, cs))
  {
    if cs != [] {
      var s := SortById(m, cs[..|cs| - 1]);
      SortByIdSorted(m, cs[..|cs| - 1]);
      assert forall c :: c in s ==> c in multiset(cs[..|cs| - 1]);
      InsertByIdSorted(m, cs[|cs| - 1], s);
    }
  }

  /** Sorting never duplicates: distinct keys stay distinct. */
  lemma {:induction false} SortByIdDistinct(m: map<string, ArchivalNode>, cs: seq<string>)
    requires forall c :: c in cs ==> c in m
    requires Distinct(cs)
    ensures Distinct(SortById(m, cs))
  {
    if cs != [] {
      var init := cs[..|cs| - 1];
      var x := cs[|cs| - 1];
      SortByIdDistinct(m, init);
      var s := SortById(m, init);
      assert forall c :: c in s ==> c in multiset(init);
      assert x !in init;
      assert x !in s by {
        assert x !in multiset(init);
      }
      InsertDistinct(m, x, s);
    }
  }

  lemma {:induction false} InsertDistinct(m: map<string, ArchivalNode>, x: string, sorted: seq<string>)
    requires x in m && forall c :: c in sorted ==> c in m
    requires Distinct(sorted) && x !in sorted
    ensures Distinct(InsertById(m, x, sorted))
  {
    if sorted != [] && !Lt(m[x].id, m[sorted[0]].id) {
      var tail := sorted[1..];
      assert Distinct(tail) by {
        forall i, j | 0 <= i < j < |tail|
          ensures tail[i] != tail[j]
        {
          assert tail[i] == sorted[i + 1] && tail[j] == sorted[j + 1];
        }
      }
      InsertDistinct(m, x, tail);
      assert sorted[0] !in tail;
      DistinctCons(sorted[0], InsertById(m, x, tail));
    } else if sorted != [] {
      DistinctCons(x, sorted);
    }
  }

  lemma DistinctCons(x: string, s: seq<string>)
    requires Distinct(s) && x !in s
    ensures Distinct([x] + s)
  {
    var r := [x] + s;
    forall i, j | 0 <= i < j < |r|
      ensures r[i] != r[j]
    {
      assert r[j] == s[j - 1];
      if i > 0 {
        assert r[i] == s[i - 1];
      }
    }
  }

  /** Distinct keys with distinct ids have one arrangement in id order: two
      sorted sequences of the same keys are equal. */
  lemma {:induction false} SortedUnique(m: map<string, ArchivalNode>, a: seq<string>, b: seq<string>)
    requires SortedById(m, a) && SortedById(m, b) && Distinct(a) && Distinct(b)
    requires forall x :: x in a <==> x in b
    requires forall x :: x in a ==> x in m
    requires forall x, y :: x in a && y in a && x != y ==> x in m && y in m && m[x].id != m[y].id
    ensures a == b
    decreases |a|
  {
    if a == [] {
      assert forall i :: 0 <= i < |b| ==> b[i] !in a;
    } else {
      assert b != [] by {
        assert a[0] in b;
      }
      var a0, b0 := a[0], b[0];
      assert a0 in m && b0 in m;
      if a0 != b0 {
        assert a0 in b && b0 in a;
        var i :| 0 <= i < |b| && b[i] == a0;
        var j :| 0 <= j < |a| && a[j] == b0;
        LeAntisymmetric(m[a0].id, m[b0].id);
        assert false;
      }
      var ta, tb := a[1..], b[1..];
      forall x
        ensures x in ta <==> x in tb
      {
        assert x in a <==> x == a0 || x in ta;
        assert x in b <==> x == b0 || x in tb;
        if x in ta {
          var i :| 0 <= i < |ta| && ta[i] == x;
          assert a[i + 1] == x;
        }
        if x in tb {
          var i :| 0 <= i < |tb| && tb[i] == x;
          assert b[i + 1] == x;
        }
      }
      assert SortedById(m, ta) && Distinct(ta) by {
        forall i, j | 0 <= i < j < |ta|
          ensures ta[i] != ta[j] && ta[i] in m && ta[j] in m && Le(m[ta[i]].id, m[ta[j]].id)
        {
          assert ta[i] == a[i + 1] && ta[j] == a[j + 1];
        }
      }
      assert SortedById(m, tb) && Distinct(tb) by {
        forall i, j | 0 <= i < j < |tb|
          ensures tb[i] != tb[j] && tb[i] in m && tb[j] in m && Le(m[tb[i]].id, m[tb[j]].id)
        {
          assert tb[i] == b[i + 1] && tb[j] == b[j + 1];
        }
      }
      SortedUnique(m, ta, tb);
      assert a == [a0] + ta && b == [b0] + tb;
    }
  }

  // ---------------------------------------------------------------------------
  // Walking the tree

  /** Children are nodes with longer ids, so every walk down the tree ends
      (a well-formed forest has this shape, see `ForestDescends`). */
  ghost predicate Descending(m: map<string, ArchivalNode>) {
    forall k, c {:trigger c in m[k].children} :: k in m && c in m[k].children ==> c in m && |c| > |k|
  }

  ghost function Longer(m: map<string, ArchivalNode>, k: string): set<string> {
    set x | x in m && |x| > |k|
  }

  lemma LongerShrinks(m: map<string, ArchivalNode>, k: string, c: string)
    requires c in m && |c| > |k|
    ensures Longer(m, c) < Longer(m, k)
  {
    assert c in Longer(m, k) && c !in Longer(m, c);
  }

  /** The children of `k` in the order every renderer visits them. */
  function SortedChildren(m: map<string, ArchivalNode>, k: string): (cs: seq<string>)
    requires Descending(m) && k in m
    ensures |cs| == |m[k].children|
    ensures forall c :: c in cs <==> c in m[k].children
    ensures forall c :: c in cs ==> c in m && |c| > |k|
  {
    var cs := SortById(m, m[k].children);
    assert |multiset(cs)| == |multiset(m[k].children)|;
    assert forall c :: c in cs <==> c in multiset(m[k].children);
    cs
  }

  /** The preorder walk all three renderers follow: a node, then the walks of
      its children in id order. */
  function Visit(m: map<string, ArchivalNode>, k: string): (r: seq<string>)
    requires Descending(m) && k in m
    ensures r != [] && r[0] == k && forall x :: x in r ==> x in m
    decreases Longer(m, k), 1
  {
    [k] + VisitAll(m, k, SortedChildren(m, k))
  }

  function VisitAll(m: map<string, ArchivalNode>, parent: string, cs: seq<string>): (r: seq<string>)
    requires Descending(m) && parent in m && forall c :: c in cs ==> c in m && |c| > |parent|
    ensures forall x :: x in r ==> x in m
    decreases Longer(m, parent), 0, |cs|
  {
    if cs == [] then []
    else
      LongerShrinks(m, parent, cs[0]);
      Visit(m, cs[0]) + VisitAll(m, parent, cs[1..])
  }

  /** The shape of a well-formed forest in terms of the ids themselves: a
      root's id is its label, a child's id is its parent's id, a slash and its
      label, no label holds a slash, and children lists are exactly the nodes
      naming the parent, each once. */
  ghost predicate Shaped(m: map<string, ArchivalNode>) {
    IdsKeyed(m) && RootsNamed(m) && ChildIds(m) && ChildrenListed(m) && ChildrenDistinct(m)
  }

  ghost predicate IdsKeyed(m: map<string, ArchivalNode>) {
    forall k {:trigger m[k]} :: k in m ==> m[k].fullId == k && '/' !in m[k].id
  }

  ghost predicate RootsNamed(m: map<string, ArchivalNode>) {
    forall k {:trigger m[k]} :: k in m && m[k].parentId.None? ==> k == m[k].id
  }

  ghost predicate ChildIds(m: map<string, ArchivalNode>) {
    forall k {:trigger m[k]} :: k in m && m[k].parentId.Some? ==>
      m[k].parentId.value in m && k == m[k].parentId.value + "/" + m[k].id
  }

  ghost predicate ChildrenListed(m: map<string, ArchivalNode>) {
    forall k, c {:trigger c in m[k].children} :: k in m ==> (c in m[k].children <==> c in m && m[c].parentId == Some(k))
  }

  ghost predicate ChildrenDistinct(m: map<string, ArchivalNode>) {
    forall k {:trigger m[k]} :: k in m ==> Distinct(m[k].children)
  }

  lemma NodeShape(m: map<string, ArchivalNode>, k: string)
    requires WellFormedForest(m) && k in m
    ensures '/' !in m[k].id
    ensures m[k].parentId.None? ==> k == m[k].id
    ensures m[k].parentId.Some? ==> k == m[k].parentId.value + "/" + m[k].id
  {
    var parts := Segments(k);
    JoinSplit(k, '/');
    if m[k].parentId.Some? {
      var p := m[k].parentId.value;
      JoinSplit(p, '/');
      JoinSnoc(parts, "/");
    }
  }

  lemma ForestShaped(m: map<string, ArchivalNode>)
    requires WellFormedForest(m)
    ensures Shaped(m)
  {
    forall k | k in m
      ensures '/' !in m[k].id
      ensures m[k].parentId.None? ==> k == m[k].id
      ensures m[k].parentId.Some? ==> k == m[k].parentId.value + "/" + m[k].id
    {
      NodeShape(m, k);
    }
  }

  lemma LinkedDescends(m: map<string, ArchivalNode>)
    requires ChildIds(m) && ChildrenListed(m)
    ensures Descending(m)
  {
    forall k, c | k in m && c in m[k].children
      ensures c in m && |c| > |k|
    {
      assert m[c].parentId == Some(k);
      assert c == k + "/" + m[c].id;
    }
  }

  /** `x` is `k` or lies below it. */
  predicate Descendant(k: string, x: string) {
    x == k || StartsWith(x, k + "/")
  }

  lemma DescendantTransitive(k: string, y: string, x: string)
    requires Descendant(k, y) && Descendant(y, x)
    ensures Descendant(k, x)
  {
    if y != k && x != y {
      assert x[..|k| + 1] == x[..|y| + 1][..|k| + 1];
    }
  }

  /** A path below `k` whose last step adds one label without a slash
      leaves its parent at or below `k`. */
  lemma ParentOfDescendant(k: string, p: string, id: string, x: string)
    requires x == p + "/" + id && '/' !in id && StartsWith(x, k + "/")
    ensures p == k || StartsWith(p, k + "/")
  {
    assert x[|k|] == '/';
    assert x[..|k|] == k;
    assert x[..|p|] == p;
    assert forall i :: |p| < i < |x| ==> x[i] == id[i - |p| - 1];
    if p != k {
      assert |k| < |p|;
      assert p[..|k| + 1] == x[..|k| + 1];
    }
  }

  /** A node whose id holds a slash is not a root: its id is its parent's,
      a slash, and its label. */
  lemma ParentOf(m: map<string, ArchivalNode>, x: string)
    requires ChildIds(m) && IdsKeyed(m) && RootsNamed(m)
    requires x in m && '/' in x
    ensures m[x].parentId.Some? && m[x].parentId.value in m
    ensures x == m[x].parentId.value + "/" + m[x].id && '/' !in m[x].id
  {
    var n := m[x];
    assert '/' !in n.id;
    assert x != n.id;
  }

  /** A node strictly below `k` has a parent, at or below `k`. */
  lemma ParentBelow(m: map<string, ArchivalNode>, k: string, x: string) returns (p: string)
    requires ChildIds(m) && ChildrenListed(m) && IdsKeyed(m) && RootsNamed(m)
    requires k in m && x in m && StartsWith(x, k + "/")
    ensures p in m && x in m[p].children && |p| < |x|
    ensures Descendant(p, x) && Descendant(k, p)
  {
    SlashAfter(x, k);
    ParentOf(m, x);
    p := m[x].parentId.value;
    ParentOfDescendant(k, p, m[x].id, x);
    ChildDescends(p, m[x].id);
  }

  lemma SlashAfter(x: string, k: string)
    requires StartsWith(x, k + "/")
    ensures |x| > |k| && x[|k|] == '/' && '/' in x
  {
    assert x[..|k| + 1][|k|] == (k + "/")[|k|];
  }

  lemma ChildDescends(p: string, id: string)
    ensures |p| < |p + "/" + id| && Descendant(p, p + "/" + id)
  {
    assert (p + "/" + id)[..|p| + 1] == p + "/";
  }

  /** Below `k`, every node lies in the subtree of one of `k`'s children. */
  lemma {:induction false} ChildOnPath(m: map<string, ArchivalNode>, k: string, x: string) returns (y: string)
    requires ChildIds(m) && ChildrenListed(m) && IdsKeyed(m) && RootsNamed(m)
    requires k in m && x in m && StartsWith(x, k + "/")
    ensures y in m[k].children && Descendant(y, x)
    decreases |x|
  {
    var p := ParentBelow(m, k, x);
    if p == k {
      y := x;
    } else {
      y := ChildOnPath(m, k, p);
      DescendantTransitive(y, p, x);
    }
  }

  lemma {:induction false} VisitAllMembers(m: map<string, ArchivalNode>, parent: string, cs: seq<string>, x: string)
    requires Descending(m) && parent in m && forall c :: c in cs ==> c in m && |c| > |parent|
    ensures x in VisitAll(m, parent, cs) <==> exists c :: c in cs && x in Visit(m, c)
    decreases |cs|
  {
    if cs != [] {
      LongerShrinks(m, parent, cs[0]);
      assert VisitAll(m, parent, cs) == Visit(m, cs[0]) + VisitAll(m, parent, cs[1..]);
      VisitAllMembers(m, parent, cs[1..], x);
      if x in VisitAll(m, parent, cs) && x !in Visit(m, cs[0]) {
        var c :| c in cs[1..] && x in Visit(m, c);
        assert c in cs;
      }
      if exists c :: c in cs && x in Visit(m, c) {
        var c :| c in cs && x in Visit(m, c);
        if c != cs[0] {
          assert c in cs[1..];
        }
      }
    }
  }

  /** The walk from `k` reaches exactly the nodes at or below `k`. */
  lemma {:induction false} VisitCovers(m: map<string, ArchivalNode>, k: string, x: string)
    requires ChildIds(m) && ChildrenListed(m) && IdsKeyed(m) && RootsNamed(m) && Descending(m) && k in m
    ensures x in Visit(m, k) <==> x in m && Descendant(k, x)
    decreases Longer(m, k)
  {
    var cs := SortedChildren(m, k);
    VisitAllMembers(m, k, cs, x);
    if x in Visit(m, k) && x != k {
      var c :| c in cs && x in Visit(m, c);
      LongerShrinks(m, k, c);
      VisitCovers(m, c, x);
      DescendantTransitive(k, c, x);
    }
    if x in m && Descendant(k, x) && x != k {
      var y := ChildOnPath(m, k, x);
      LongerShrinks(m, k, y);
      VisitCovers(m, y, x);
    }
  }

  /** The first label of an id: what precedes its first slash. */
  function FirstLabel(s: string): (r: string)
    ensures '/' !in r && StartsWith(s, r)
  {
    if '/' in s then s[..IndexOf(s, '/')] else s
  }

  lemma FirstLabelOf(id: string, x: string)
    requires '/' !in id && Descendant(id, x)
    ensures FirstLabel(x) == id
  {
    if x != id {
      var rest := x[|id| + 1..];
      assert x == id + "/" + rest;
      IndexOfAfterPiece(id, '/', rest);
    }
  }

  /** Two labels under the same parent that both lead to `x` are the same label. */
  lemma SiblingLabels(k: string, id1: string, id2: string, x: string)
    requires '/' !in id1 && '/' !in id2
    requires Descendant(k + "/" + id1, x) && Descendant(k + "/" + id2, x)
    ensures id1 == id2
  {
    var t := x[|k| + 1..];
    DescendantBelow(k, id1, x);
    DescendantBelow(k, id2, x);
    FirstLabelOf(id1, t);
    FirstLabelOf(id2, t);
  }

  /** Below `k/id`, dropping `k/` leaves a descendant of `id`. */
  lemma DescendantBelow(k: string, id: string, x: string)
    requires Descendant(k + "/" + id, x)
    ensures |x| >= |k| + 1 && Descendant(id, x[|k| + 1..])
  {
    var q := k + "/" + id;
    var t := x[|k| + 1..];
    if x == q {
      assert t == id;
    } else {
      assert x[..|q| + 1] == q + "/";
      assert t[..|id| + 1] == x[..|q| + 1][|k| + 1..];
      assert (q + "/")[|k| + 1..] == id + "/";
    }
  }

  /** The subtrees of two children of one node share no node. */
  lemma SameSubtree(m: map<string, ArchivalNode>, parent: string, c1: string, c2: string, x: string)
    requires ChildIds(m) && ChildrenListed(m) && IdsKeyed(m)
    requires parent in m && c1 in m[parent].children && c2 in m[parent].children
    ensures Descendant(c1, x) && Descendant(c2, x) ==> c1 == c2
  {
    var n1, n2 := m[c1], m[c2];
    assert c1 == parent + "/" + n1.id && '/' !in n1.id;
    assert c2 == parent + "/" + n2.id && '/' !in n2.id;
    if Descendant(c1, x) && Descendant(c2, x) {
      SiblingLabels(parent, n1.id, n2.id, x);
    }
  }

  /** The subtrees of two roots share no node. */
  lemma SameTree(m: map<string, ArchivalNode>, r1: string, r2: string, x: string)
    requires IdsKeyed(m) && RootsNamed(m)
    requires r1 in m && r2 in m && m[r1].parentId.None? && m[r2].parentId.None?
    ensures Descendant(r1, x) && Descendant(r2, x) ==> r1 == r2
  {
    var n1, n2 := m[r1], m[r2];
    assert r1 == n1.id && '/' !in n1.id;
    assert r2 == n2.id && '/' !in n2.id;
    if Descendant(r1, x) && Descendant(r2, x) {
      FirstLabelOf(r1, x);
      FirstLabelOf(r2, x);
    }
  }

  lemma DistinctAppend(a: seq<string>, b: seq<string>)
    requires Distinct(a) && Distinct(b) && forall x :: x in a ==> x !in b
    ensures Distinct(a + b)
  {
    var r := a + b;
    forall i, j | 0 <= i < j < |r|
      ensures r[i] != r[j]
    {
      if i < |a| <= j {
        assert r[i] in a && r[j] == b[j - |a|];
      }
    }
  }

  lemma DistinctTail(s: seq<string>)
    requires Distinct(s) && s != []
    ensures Distinct(s[1..]) && s[0] !in s[1..]
  {
    var t := s[1..];
    forall i, j | 0 <= i < j < |t|
      ensures t[i] != t[j]
    {
      assert t[i] == s[i + 1] && t[j] == s[j + 1];
    }
    assert forall i :: 0 <= i < |t| ==> t[i] == s[i + 1] != s[0];
  }

  /** The walk from `k` meets no node twice. */
  lemma {:induction false} VisitDistinct(m: map<string, ArchivalNode>, k: string)
    requires Shaped(m) && Descending(m) && k in m
    ensures Distinct(Visit(m, k))
    decreases Longer(m, k), 1
  {
    var cs := SortedChildren(m, k);
    SortByIdDistinct(m, m[k].children);
    VisitAllDistinct(m, k, cs);
    VisitAllBelow(m, k, cs);
    DistinctCons(k, VisitAll(m, k, cs));
  }

  /** The walks from a node's children never come back to the node. */
  lemma VisitAllBelow(m: map<string, ArchivalNode>, k: string, cs: seq<string>)
    requires Shaped(m) && Descending(m) && k in m && forall c :: c in cs ==> c in m && |c| > |k|
    ensures k !in VisitAll(m, k, cs)
  {
    forall c | c in cs
      ensures k !in Visit(m, c)
    {
      VisitCovers(m, c, k);
    }
    VisitAllMembers(m, k, cs, k);
  }

  lemma {:induction false} VisitAllDistinct(m: map<string, ArchivalNode>, parent: string, cs: seq<string>)
    requires Shaped(m) && Descending(m) && parent in m
    requires forall c :: c in cs ==> c in m[parent].children
    requires Distinct(cs)
    ensures Distinct(VisitAll(m, parent, cs))
    decreases Longer(m, parent), 0, |cs|
  {
    if cs != [] {
      var c0, rest := cs[0], cs[1..];
      assert c0 in cs && c0 in m[parent].children;
      LongerShrinks(m, parent, c0);
      VisitDistinct(m, c0);
      DistinctTail(cs);
      VisitAllDistinct(m, parent, rest);
      forall x | x in Visit(m, c0)
        ensures x !in VisitAll(m, parent, rest)
      {
        VisitCovers(m, c0, x);
        VisitAllMembers(m, parent, rest, x);
        forall c | c in rest
          ensures x !in Visit(m, c)
        {
          assert c in cs;
          LongerShrinks(m, parent, c);
          VisitCovers(m, c, x);
          SameSubtree(m, parent, c0, c, x);
        }
      }
      DistinctAppend(Visit(m, c0), VisitAll(m, parent, rest));
    }
  }

  /** Walking up the parents of a node ends at a root above it. */
  lemma {:induction false} RootOf(m: map<string, ArchivalNode>, x: string) returns (r: string)
    requires ChildIds(m) && x in m
    ensures r in m && m[r].parentId.None? && Descendant(r, x)
    decreases |x|
  {
    if m[x].parentId.None? {
      r := x;
    } else {
      var p := m[x].parentId.value;
      assert x == p + "/" + m[x].id;
      r := RootOf(m, p);
      DescendantTransitive(r, p, x);
    }
  }

  /** The roots' walks one after the other: the order all three renderers
      emit the whole forest in. */
  function VisitRoots(m: map<string, ArchivalNode>, roots: seq<string>): (r: seq<string>)
    requires Descending(m) && forall r :: r in roots ==> r in m
    ensures forall x :: x in r ==> x in m
  {
    if roots == [] then [] else Visit(m, roots[0]) + VisitRoots(m, roots[1..])
  }

  lemma {:induction false} VisitRootsMembers(m: map<string, ArchivalNode>, roots: seq<string>, x: string)
    requires Descending(m) && forall r :: r in roots ==> r in m
    ensures x in VisitRoots(m, roots) <==> exists r :: r in roots && x in Visit(m, r)
  {
    if roots != [] {
      VisitRootsMembers(m, roots[1..], x);
      if x in VisitRoots(m, roots) && x !in Visit(m, roots[0]) {
        var r :| r in roots[1..] && x in Visit(m, r);
        assert r in roots;
      }
      if exists r :: r in roots && x in Visit(m, r) {
        var r :| r in roots && x in Visit(m, r);
        if r != roots[0] {
          assert r in roots[1..];
        }
      }
    }
  }

  lemma {:induction false} VisitRootsDistinct(m: map<string, ArchivalNode>, roots: seq<string>)
    requires Shaped(m) && Descending(m)
    requires forall r :: r in roots ==> r in m && m[r].parentId.None?
    requires Distinct(roots)
    ensures Distinct(VisitRoots(m, roots))
  {
    if roots != [] {
      var r0, rest := roots[0], roots[1..];
      VisitDistinct(m, r0);
      DistinctTail(roots);
      VisitRootsDistinct(m, rest);
      forall x | x in Visit(m, r0)
        ensures x !in VisitRoots(m, rest)
      {
        VisitCovers(m, r0, x);
        VisitRootsMembers(m, rest, x);
        forall r | r in rest
          ensures x !in Visit(m, r)
        {
          VisitCovers(m, r, x);
          SameTree(m, r0, r, x);
        }
      }
      DistinctAppend(Visit(m, r0), VisitRoots(m, rest));
    }
  }

  /** In a well-formed forest the roots are the parentless nodes. */
  lemma RootsParentless(m: map<string, ArchivalNode>, r: string)
    requires ChildIds(m)
    ensures IsRoot(m, r) <==> r in m && m[r].parentId.None?
  {
  }

  /** The renderers emit every node of the forest exactly once. */
  lemma ForestVisitedOnce(nodes: Dict<ArchivalNode>)
    requires nodes.Valid() && Shaped(nodes.vals) && Descending(nodes.vals)
    ensures Distinct(VisitRoots(nodes.vals, SortedRoots(nodes)))
    ensures forall x :: x in VisitRoots(nodes.vals, SortedRoots(nodes)) <==> x in nodes.vals
  {
    var m := nodes.vals;
    var roots := SortedRoots(nodes);
    RootIdsMembers(nodes.keys, m);
    SortByIdDistinct(m, RootIds(nodes.keys, m));
    forall r | r in roots
      ensures r in m && m[r].parentId.None?
    {
      RootsParentless(m, r);
    }
    VisitRootsDistinct(m, roots);
    forall x
      ensures x in VisitRoots(m, roots) <==> x in m
    {
      VisitRootsMembers(m, roots, x);
      if x in VisitRoots(m, roots) {
        var r :| r in roots && x in Visit(m, r);
        VisitCovers(m, r, x);
      }
      if x in m {
        var r := RootOf(m, x);
        RootsParentless(m, r);
        VisitCovers(m, r, x);
      }
    }
  }

  // ---------------------------------------------------------------------------
  // Text renderer

  function Tabs(n: nat): (r: string)
    ensures |r| == n && forall i :: 0 <= i < n ==> r[i] == '\t'
  {
    if n == 0 then "" else Tabs(n - 1) + "\t"
  }

  /** The line `__repr__` writes for one node at a given level: the type label
      only appears when the type is non-empty. */
  function Line(n: ArchivalNode, level: nat): string {
    Tabs(level) + n.id + (if n.tipo != "" then " [" + n.tipo + "]" else "") + " - " + n.title + "\n"
  }

  /** `node.__repr__(level)`. */
  function Repr(m: map<string, ArchivalNode>, k: string, level: nat): string
    requires Descending(m) && k in m
    decreases Longer(m, k), 1
  {
    Line(m[k], level) + ReprAll(m, k, SortedChildren(m, k), level + 1)
  }

  function ReprAll(m: map<string, ArchivalNode>, parent: string, cs: seq<string>, level: nat): string
    requires Descending(m) && parent in m && forall c :: c in cs ==> c in m && |c| > |parent|
    decreases Longer(m, parent), 0, |cs|
  {
    if cs == [] then ""
    else
      LongerShrinks(m, parent, cs[0]);
      Repr(m, cs[0], level) + ReprAll(m, parent, cs[1..], level)
  }

  /** The roots of the dictionary in id order. */
  function SortedRoots(nodes: Dict<ArchivalNode>): (rs: seq<string>)
    requires nodes.Valid()
    ensures forall r :: r in rs <==> IsRoot(nodes.vals, r)
  {
    RootIdsMembers(nodes.keys, nodes.vals);
    var rs := SortById(nodes.vals, RootIds(nodes.keys, nodes.vals));
    assert forall r :: r in rs <==> r in multiset(RootIds(nodes.keys, nodes.vals));
    rs
  }

  /** `generate_text_tree`: the roots' `__repr__` at level 0, in id order. */
  function GenerateTextTree(nodes: Dict<ArchivalNode>): string
    requires nodes.Valid() && Descending(nodes.vals)
  {
    ReprRoots(nodes.vals, SortedRoots(nodes))
  }

  function ReprRoots(m: map<string, ArchivalNode>, roots: seq<string>): string
    requires Descending(m) && forall r :: r in roots ==> r in m
  {
    if roots == [] then "" else Repr(m, roots[0], 0) + ReprRoots(m, roots[1..])
  }

  /** A node's depth below the roots: the slashes in its id. */
  function Level(k: string): nat {
    CountChar(k, '/')
  }

  lemma ChildLevel(k: string, id: string)
    requires '/' !in id
    ensures Level(k + "/" + id) == Level(k) + 1
  {
    CountCharAppend(k + "/", id, '/');
    CountCharAppend(k, "/", '/');
  }

  /** Reference definition of the text tree: the lines of the nodes `xs`,
      each indented by the node's depth. */
  function IndentedLines(m: map<string, ArchivalNode>, xs: seq<string>): string
    requires forall x :: x in xs ==> x in m
  {
    if xs == [] then "" else Line(m[xs[0]], Level(xs[0])) + IndentedLines(m, xs[1..])
  }

  lemma {:induction false} IndentedLinesAppend(m: map<string, ArchivalNode>, a: seq<string>, b: seq<string>)
    requires forall x :: x in a + b ==> x in m
    ensures IndentedLines(m, a + b) == IndentedLines(m, a) + IndentedLines(m, b)
  {
    if a != [] {
      assert (a + b)[0] == a[0] && (a + b)[1..] == a[1..] + b;
      IndentedLinesAppend(m, a[1..], b);
    } else {
      assert a + b == b;
    }
  }

  /** Each child sits one level below its parent. */
  ghost predicate Leveled(m: map<string, ArchivalNode>) {
    forall k, c {:trigger c in m[k].children} :: k in m && c in m[k].children ==> c in m && Level(c) == Level(k) + 1
  }

  lemma ShapedLeveled(m: map<string, ArchivalNode>)
    requires Shaped(m)
    ensures Leveled(m)
  {
    forall k, c | k in m && c in m[k].children
      ensures c in m && Level(c) == Level(k) + 1
    {
      assert m[c].parentId == Some(k);
      ChildLevel(k, m[c].id);
    }
  }

  /** `node.__repr__(level)` at the node's own depth writes the walk from the
      node, one line per node, each indented by that node's depth. */
  lemma {:induction false} ReprFollowsVisit(m: map<string, ArchivalNode>, k: string)
    requires Leveled(m) && Descending(m) && k in m
    ensures Repr(m, k, Level(k)) == IndentedLines(m, Visit(m, k))
    decreases Longer(m, k), 1
  {
    var cs := SortedChildren(m, k);
    ReprAllFollowsVisit(m, k, cs);
    IndentedLinesAppend(m, [k], VisitAll(m, k, cs));
    assert [k][1..] == [];
    assert IndentedLines(m, [k]) == Line(m[k], Level(k));
  }

  lemma {:induction false} ReprAllFollowsVisit(m: map<string, ArchivalNode>, parent: string, cs: seq<string>)
    requires Leveled(m) && Descending(m) && parent in m
    requires forall c :: c in cs ==> c in m[parent].children
    ensures ReprAll(m, parent, cs, Level(parent) + 1) == IndentedLines(m, VisitAll(m, parent, cs))
    decreases Longer(m, parent), 0, |cs|
  {
    if cs != [] {
      var c0 := cs[0];
      assert c0 in cs && c0 in m[parent].children;
      LongerShrinks(m, parent, c0);
      ReprFollowsVisit(m, c0);
      ReprAllFollowsVisit(m, parent, cs[1..]);
      IndentedLinesAppend(m, Visit(m, c0), VisitAll(m, parent, cs[1..]));
    }
  }

  lemma {:induction false} ReprRootsFollowsVisit(m: map<string, ArchivalNode>, roots: seq<string>)
    requires Leveled(m) && Descending(m)
    requires forall r :: r in roots ==> r in m && Level(r) == 0
    ensures ReprRoots(m, roots) == IndentedLines(m, VisitRoots(m, roots))
  {
    if roots != [] {
      var r := roots[0];
      assert r in roots;
      ReprFollowsVisit(m, r);
      ReprRootsFollowsVisit(m, roots[1..]);
      IndentedLinesAppend(m, Visit(m, r), VisitRoots(m, roots[1..]));
    }
  }

  /** `generate_text_tree` writes one line per node in walk order, each
      indented by the node's depth. */
  lemma TextTreeFollowsVisit(nodes: Dict<ArchivalNode>)
    requires nodes.Valid() && Shaped(nodes.vals) && Descending(nodes.vals)
    ensures GenerateTextTree(nodes) == IndentedLines(nodes.vals, VisitRoots(nodes.vals, SortedRoots(nodes)))
  {
    var roots := SortedRoots(nodes);
    forall r | r in roots
      ensures r in nodes.vals && nodes.vals[r].parentId.None?
    {
      RootsParentless(nodes.vals, r);
    }
    forall r | r in roots
      ensures Level(r) == 0
    {
      assert r == nodes.vals[r].id && '/' !in nodes.vals[r].id;
    }
    ShapedLeveled(nodes.vals);
    ReprRootsFollowsVisit(nodes.vals, roots);
  }

  // ---------------------------------------------------------------------------
  // Directory renderer

  /** `f"{id}-{tipo}-{title.replace('/', '_')}"`. */
  function DirName(n: ArchivalNode): string {
    n.id + "-" + n.tipo + "-" + ReplaceChar(n.title, '/', '_')
  }

  /** The README written in a node's directory. */
  function Readme(n: ArchivalNode): string {
    "# " + n.id + " " + n.tipo + " - " + n.title + "\n\n"
    + "- **ID Completo**: " + n.fullId + "\n"
    + (if n.parentId.Some? && n.parentId.value != "" then "- **Parent ID**: " + n.parentId.value + "\n" else "")
  }

  /** A directory created by the renderer: its path below the base directory
      and the contents of its README. */
  datatype DirEntry = DirEntry(path: seq<string>, readme: string)

  /** `_create_directory_structure(node, current_path)`: the directories it
      creates, in creation order. */
  function DirStructure(m: map<string, ArchivalNode>, k: string, path: seq<string>): seq<DirEntry>
    requires Descending(m) && k in m
    decreases Longer(m, k), 1
  {
    var here := path + [DirName(m[k])];
    [DirEntry(here, Readme(m[k]))] + DirStructureAll(m, k, SortedChildren(m, k), here)
  }

  function DirStructureAll(m: map<string, ArchivalNode>, parent: string, cs: seq<string>, path: seq<string>): seq<DirEntry>
    requires Descending(m) && parent in m && forall c :: c in cs ==> c in m && |c| > |parent|
    decreases Longer(m, parent), 0, |cs|
  {
    if cs == [] then []
    else
      LongerShrinks(m, parent, cs[0]);
      DirStructure(m, cs[0], path) + DirStructureAll(m, parent, cs[1..], path)
  }

  /** `generate_directory_structure`: every root's structure under the base
      directory, roots in id order. */
  function GenerateDirectoryStructure(nodes: Dict<ArchivalNode>): seq<DirEntry>
    requires nodes.Valid() && Descending(nodes.vals)
  {
    DirStructureRoots(nodes.vals, SortedRoots(nodes))
  }

  function DirStructureRoots(m: map<string, ArchivalNode>, roots: seq<string>): seq<DirEntry>
    requires Descending(m) && forall r :: r in roots ==> r in m
  {
    if roots == [] then [] else DirStructure(m, roots[0], []) + DirStructureRoots(m, roots[1..])
  }

  /** A node's directory name holds a slash, and so spans two directory
      levels, only when its type does: ids never hold one and the title's
      slashes are replaced. */
  lemma DirNameSlash(m: map<string, ArchivalNode>, k: string)
    requires IdsKeyed(m) && k in m
    ensures '/' in DirName(m[k]) <==> '/' in m[k].tipo
  {
    var n := m[k];
    var t := ReplaceChar(n.title, '/', '_');
    assert DirName(n) == n.id + "-" + n.tipo + "-" + t;
    assert '/' in DirName(n) <==> '/' in n.id || '/' in "-" || '/' in n.tipo || '/' in "-" || '/' in t;
  }

  /** Reference definition of a node's directory below the base directory:
      its parent's directory, then its own name. */
  function DirPath(m: map<string, ArchivalNode>, x: string): (p: seq<string>)
    requires ChildIds(m) && x in m
    ensures p != [] && p[|p| - 1] == DirName(m[x])
    decreases |x|
  {
    if m[x].parentId.Some? then
      var parent := m[x].parentId.value;
      assert x == parent + "/" + m[x].id;
      DirPath(m, parent) + [DirName(m[x])]
    else [DirName(m[x])]
  }

  /** Reference definition of the directory tree: for each node of `xs`, its
      directory and its README. */
  function DirEntries(m: map<string, ArchivalNode>, xs: seq<string>): seq<DirEntry>
    requires ChildIds(m) && forall x :: x in xs ==> x in m
  {
    if xs == [] then [] else [DirEntry(DirPath(m, xs[0]), Readme(m[xs[0]]))] + DirEntries(m, xs[1..])
  }

  lemma {:induction false} DirEntriesAppend(m: map<string, ArchivalNode>, a: seq<string>, b: seq<string>)
    requires ChildIds(m) && forall x :: x in a + b ==> x in m
    ensures DirEntries(m, a + b) == DirEntries(m, a) + DirEntries(m, b)
  {
    if a != [] {
      assert (a + b)[0] == a[0] && (a + b)[1..] == a[1..] + b;
      DirEntriesAppend(m, a[1..], b);
    } else {
      assert a + b == b;
    }
  }

  /** `_create_directory_structure` called with the parent's directory creates,
      in walk order, each node's directory nested under its parent's, holding
      that node's README. */
  lemma {:induction false} DirStructureFollowsVisit(m: map<string, ArchivalNode>, k: string)
    requires Shaped(m) && Descending(m) && k in m
    ensures DirStructure(m, k, DirPath(m, k)[..|DirPath(m, k)| - 1]) == DirEntries(m, Visit(m, k))
    decreases Longer(m, k), 1
  {
    var path := DirPath(m, k);
    assert path[..|path| - 1] + [DirName(m[k])] == path;
    var cs := SortedChildren(m, k);
    DirStructureAllFollowsVisit(m, k, cs);
    DirEntriesAppend(m, [k], VisitAll(m, k, cs));
  }

  lemma {:induction false} DirStructureAllFollowsVisit(m: map<string, ArchivalNode>, parent: string, cs: seq<string>)
    requires Shaped(m) && Descending(m) && parent in m
    requires forall c :: c in cs ==> c in m[parent].children
    ensures DirStructureAll(m, parent, cs, DirPath(m, parent)) == DirEntries(m, VisitAll(m, parent, cs))
    decreases Longer(m, parent), 0, |cs|
  {
    if cs != [] {
      var c0 := cs[0];
      assert c0 in cs && c0 in m[parent].children;
      LongerShrinks(m, parent, c0);
      assert m[c0].parentId == Some(parent);
      assert DirPath(m, c0)[..|DirPath(m, c0)| - 1] == DirPath(m, parent);
      DirStructureFollowsVisit(m, c0);
      DirStructureAllFollowsVisit(m, parent, cs[1..]);
      DirEntriesAppend(m, Visit(m, c0), VisitAll(m, parent, cs[1..]));
    }
  }

  lemma {:induction false} DirStructureRootsFollowsVisit(m: map<string, ArchivalNode>, roots: seq<string>)
    requires Shaped(m) && Descending(m)
    requires forall r :: r in roots ==> r in m && m[r].parentId.None?
    ensures DirStructureRoots(m, roots) == DirEntries(m, VisitRoots(m, roots))
  {
    if roots != [] {
      var r := roots[0];
      assert r in roots;
      assert DirPath(m, r)[..|DirPath(m, r)| - 1] == [];
      DirStructureFollowsVisit(m, r);
      DirStructureRootsFollowsVisit(m, roots[1..]);
      DirEntriesAppend(m, Visit(m, r), VisitRoots(m, roots[1..]));
    }
  }

  /** `generate_directory_structure` creates one directory per node, in walk
      order, nested along the node's ancestors, each with the node's README. */
  lemma DirectoryStructureFollowsVisit(nodes: Dict<ArchivalNode>)
    requires nodes.Valid() && Shaped(nodes.vals) && Descending(nodes.vals)
    ensures GenerateDirectoryStructure(nodes) == DirEntries(nodes.vals, VisitRoots(nodes.vals, SortedRoots(nodes)))
  {
    var roots := SortedRoots(nodes);
    forall r | r in roots
      ensures r in nodes.vals && nodes.vals[r].parentId.None?
    {
      RootsParentless(nodes.vals, r);
    }
    DirStructureRootsFollowsVisit(nodes.vals, roots);
  }

  // ---------------------------------------------------------------------------
  // HTML renderer

  const ItemOpen := "<li>"
  const ItemClose := "</li>"
  const ListOpen := "<ul>"
  const ListClose := "</ul>"
  const LinkOpen := "<a href=\"../"
  const LinkMid := "\">"
  const LinkClose := "</a>"

  /** The file the HTML renderer links a node to: the first YAML file of the
      listing whose identifiers include the node's full id (any identifier, not
      only the canonical one). */
  function SourceFile(listing: seq<RecordFile>, fullId: string): (r: Option<string>)
    ensures r.Some? <==> exists i :: 0 <= i < |listing| && IsYaml(listing[i]) && fullId in listing[i].record.identificadores
    ensures r.Some? ==> exists i ::
      && 0 <= i < |listing| && IsYaml(listing[i]) && fullId in listing[i].record.identificadores
      && r.value == listing[i].filename
      && forall j :: 0 <= j < i ==> !(IsYaml(listing[j]) && fullId in listing[j].record.identificadores)
  {
    if listing == [] then None
    else if IsYaml(listing[0]) && fullId in listing[0].record.identificadores then Some(listing[0].filename)
    else
      var r := SourceFile(listing[1..], fullId);
      assert forall i :: 1 <= i < |listing| ==> listing[i] == listing[1..][i - 1];
      r
  }

  /** `f"{id}-{tipo}-{title}".replace("/", "_")`: the text of a node's item. */
  function Caption(n: ArchivalNode): (c: string)
    ensures '/' !in c
    ensures var raw := n.id + "-" + n.tipo + "-" + n.title;
      |c| == |raw| && forall i :: 0 <= i < |raw| ==> c[i] == if raw[i] == '/' then '_' else raw[i]
  {
    ReplaceChar(n.id + "-" + n.tipo + "-" + n.title, '/', '_')
  }

  /** The caption, wrapped in a link when a record file exists (a non-empty
      file name). */
  function HtmlLabel(n: ArchivalNode, source: Option<string>, recordDir: string): string {
    if source.Some? && source.value != "" then
      LinkOpen + recordDir + "/" + source.value + LinkMid + Caption(n) + LinkClose
    else Caption(n)
  }

  /** The line that opens a node's list item. */
  function ItemLine(n: ArchivalNode, listing: seq<RecordFile>, recordDir: string): (l: string)
    ensures StartsWith(l, ItemOpen)
    ensures SourceFile(listing, n.fullId).Some? <==> StartsWith(l, ItemOpen + LinkOpen)
    ensures SourceFile(listing, n.fullId).None? ==> l == ItemOpen + Caption(n)
    ensures SourceFile(listing, n.fullId).Some? ==>
      EndsWith(l, "/" + SourceFile(listing, n.fullId).value + LinkMid + Caption(n) + LinkClose)
  {
    var source := SourceFile(listing, n.fullId);
    if source.Some? then
      YamlNameNonEmpty(listing, n.fullId);
      LinkedItem(n, source.value, recordDir);
      ItemOpen + HtmlLabel(n, source, recordDir)
    else
      PlainItem(n);
      ItemOpen + HtmlLabel(n, source, recordDir)
  }

  /** A file found for a node is named `*.yaml`, so its name is not empty and
      the renderer links to it. */
  lemma YamlNameNonEmpty(listing: seq<RecordFile>, fullId: string)
    ensures SourceFile(listing, fullId).Some? ==> SourceFile(listing, fullId).value != ""
  {
  }

  /** A linked item opens with the link and closes with the file name, the
      caption and the closing tag. */
  lemma LinkedItem(n: ArchivalNode, source: string, recordDir: string)
    requires source != ""
    ensures StartsWith(ItemOpen + HtmlLabel(n, Some(source), recordDir), ItemOpen + LinkOpen)
    ensures EndsWith(ItemOpen + HtmlLabel(n, Some(source), recordDir), "/" + source + LinkMid + Caption(n) + LinkClose)
  {
    var tail := "/" + source + LinkMid + Caption(n) + LinkClose;
    var l := ItemOpen + HtmlLabel(n, Some(source), recordDir);
    assert l == (ItemOpen + LinkOpen) + (recordDir + tail);
    assert l == (ItemOpen + LinkOpen + recordDir) + tail;
  }

  /** An unlinked item cannot pass for a linked one: the caption holds no `/`
      and the link's opening does. */
  lemma PlainItem(n: ArchivalNode)
    ensures !StartsWith(ItemOpen + Caption(n), ItemOpen + LinkOpen)
  {
    var l, p := ItemOpen + Caption(n), ItemOpen + LinkOpen;
    if |p| <= |l| {
      assert l[|p| - 1] == Caption(n)[|p| - 1 - |ItemOpen|] != '/';
      assert l[..|p|][|p| - 1] != p[|p| - 1];
    }
  }

  /** `build_html(node)`: `<li>label`, then `<ul>`, the children and `</ul>`
      only when the node has children, then `</li>`, joined by newlines. */
  function BuildHtml(m: map<string, ArchivalNode>, k: string, listing: seq<RecordFile>, recordDir: string): string
    requires Descending(m) && k in m
    decreases Longer(m, k), 1
  {
    var open := [ItemLine(m[k], listing, recordDir)];
    var inner := if m[k].children != [] then
                   [ListOpen] + BuildHtmlAll(m, k, SortedChildren(m, k), listing, recordDir) + [ListClose]
                 else [];
    Join(open + inner + [ItemClose], "\n")
  }

  function BuildHtmlAll(m: map<string, ArchivalNode>, parent: string, cs: seq<string>, listing: seq<RecordFile>, recordDir: string): seq<string>
    requires Descending(m) && parent in m && forall c :: c in cs ==> c in m && |c| > |parent|
    decreases Longer(m, parent), 0, |cs|
  {
    if cs == [] then []
    else
      LongerShrinks(m, parent, cs[0]);
      [BuildHtml(m, cs[0], listing, recordDir)] + BuildHtmlAll(m, parent, cs[1..], listing, recordDir)
  }

  const HtmlHead: seq<string> := [
    "<html><head><meta charset='UTF-8'><title>\U{00C1}rvore Arquiv\U{00ED}stica</title></head><body>",
    "<h1>\U{00C1}rvore Arquiv\U{00ED}stica</h1>",
    "<ul>"]

  const HtmlTail: seq<string> := ["</ul>", "</body></html>"]

  /** The document `generate_html_tree_with_links` writes. */
  function GenerateHtmlTree(nodes: Dict<ArchivalNode>, listing: seq<RecordFile>, recordDir: string): string
    requires nodes.Valid() && Descending(nodes.vals)
  {
    HtmlDocument(HtmlItems(nodes, listing, recordDir))
  }

  /** One list item per root, roots in id order. */
  function HtmlItems(nodes: Dict<ArchivalNode>, listing: seq<RecordFile>, recordDir: string): seq<string>
    requires nodes.Valid() && Descending(nodes.vals)
  {
    BuildHtmlRoots(nodes.vals, SortedRoots(nodes), listing, recordDir)
  }

  /** The fixed header and footer around the roots' list items. */
  function HtmlDocument(items: seq<string>): string {
    Join(HtmlHead + items + HtmlTail, "\n")
  }

  function BuildHtmlRoots(m: map<string, ArchivalNode>, roots: seq<string>, listing: seq<RecordFile>, recordDir: string): seq<string>
    requires Descending(m) && forall r :: r in roots ==> r in m
  {
    if roots == [] then [] else [BuildHtml(m, roots[0], listing, recordDir)] + BuildHtmlRoots(m, roots[1..], listing, recordDir)
  }

  /** Reference definition of the lines `build_html(node)` joins, with every
      descendant's lines spliced in where its joined block goes. */
  function HtmlLines(m: map<string, ArchivalNode>, k: string, listing: seq<RecordFile>, recordDir: string): (ls: seq<string>)
    requires Descending(m) && k in m
    ensures |ls| >= 2 && ls[|ls| - 1] == ItemClose
    decreases Longer(m, k), 1
  {
    var open := [ItemLine(m[k], listing, recordDir)];
    var inner := if m[k].children != [] then
                   [ListOpen] + HtmlLinesAll(m, k, SortedChildren(m, k), listing, recordDir) + [ListClose]
                 else [];
    open + inner + [ItemClose]
  }

  function HtmlLinesAll(m: map<string, ArchivalNode>, parent: string, cs: seq<string>, listing: seq<RecordFile>, recordDir: string): (ls: seq<string>)
    requires Descending(m) && parent in m && forall c :: c in cs ==> c in m && |c| > |parent|
    ensures ls == [] <==> cs == []
    decreases Longer(m, parent), 0, |cs|
  {
    if cs == [] then []
    else
      LongerShrinks(m, parent, cs[0]);
      HtmlLines(m, cs[0], listing, recordDir) + HtmlLinesAll(m, parent, cs[1..], listing, recordDir)
  }

  function HtmlLinesRoots(m: map<string, ArchivalNode>, roots: seq<string>, listing: seq<RecordFile>, recordDir: string): (ls: seq<string>)
    requires Descending(m) && forall r :: r in roots ==> r in m
    ensures ls == [] <==> roots == []
  {
    if roots == [] then [] else HtmlLines(m, roots[0], listing, recordDir) + HtmlLinesRoots(m, roots[1..], listing, recordDir)
  }

  /** A nested block joins as its opening lines, its body and its closing
      lines. */
  lemma JoinWrap(open: string, b: seq<string>)
    requires b != []
    ensures Join([open] + ([ListOpen] + b + [ListClose]) + [ItemClose], "\n")
         == Join([open, ListOpen], "\n") + "\n" + (Join(b, "\n") + "\n" + Join([ListClose, ItemClose], "\n"))
  {
    var close := [ListClose, ItemClose];
    assert [open] + ([ListOpen] + b + [ListClose]) + [ItemClose] == [open, ListOpen] + (b + close);
    JoinAppend([open, ListOpen], b + close, "\n");
    JoinAppend(b, close, "\n");
  }

  /** A list item whose nested lines join to the same text joins to the same
      text. */
  lemma JoinBlock(open: string, b: seq<string>, h: seq<string>)
    requires b != [] && h != [] && Join(b, "\n") == Join(h, "\n")
    ensures Join([open] + ([ListOpen] + b + [ListClose]) + [ItemClose], "\n")
         == Join([open] + ([ListOpen] + h + [ListClose]) + [ItemClose], "\n")
  {
    JoinWrap(open, b);
    JoinWrap(open, h);
  }

  /** `build_html(node)` is the node's lines joined by newlines: the nested
      joins of the children's blocks flatten into one list of lines. */
  lemma {:induction false} BuildHtmlFlattens(m: map<string, ArchivalNode>, k: string, listing: seq<RecordFile>, recordDir: string)
    requires Descending(m) && k in m
    ensures BuildHtml(m, k, listing, recordDir) == Join(HtmlLines(m, k, listing, recordDir), "\n")
    decreases Longer(m, k), 1
  {
    if m[k].children != [] {
      var cs := SortedChildren(m, k);
      BuildHtmlAllFlattens(m, k, cs, listing, recordDir);
      JoinBlock(ItemLine(m[k], listing, recordDir), BuildHtmlAll(m, k, cs, listing, recordDir), HtmlLinesAll(m, k, cs, listing, recordDir));
    }
  }

  lemma {:induction false} BuildHtmlAllFlattens(m: map<string, ArchivalNode>, parent: string, cs: seq<string>, listing: seq<RecordFile>, recordDir: string)
    requires Descending(m) && parent in m && forall c :: c in cs ==> c in m && |c| > |parent|
    ensures |BuildHtmlAll(m, parent, cs, listing, recordDir)| == |cs|
    ensures Join(BuildHtmlAll(m, parent, cs, listing, recordDir), "\n") == Join(HtmlLinesAll(m, parent, cs, listing, recordDir), "\n")
    decreases Longer(m, parent), 0, |cs|
  {
    if cs != [] {
      LongerShrinks(m, parent, cs[0]);
      BuildHtmlFlattens(m, cs[0], listing, recordDir);
      BuildHtmlAllFlattens(m, parent, cs[1..], listing, recordDir);
      var rest := BuildHtmlAll(m, parent, cs[1..], listing, recordDir);
      var first := [BuildHtml(m, cs[0], listing, recordDir)];
      if cs[1..] != [] {
        JoinAppend(first, rest, "\n");
        JoinAppend(HtmlLines(m, cs[0], listing, recordDir), HtmlLinesAll(m, parent, cs[1..], listing, recordDir), "\n");
      } else {
        assert first + rest == first;
        assert HtmlLines(m, cs[0], listing, recordDir) + HtmlLinesAll(m, parent, cs[1..], listing, recordDir) == HtmlLines(m, cs[0], listing, recordDir);
      }
    }
  }

  lemma {:induction false} BuildHtmlRootsFlattens(m: map<string, ArchivalNode>, roots: seq<string>, listing: seq<RecordFile>, recordDir: string)
    requires Descending(m) && forall r :: r in roots ==> r in m
    ensures |BuildHtmlRoots(m, roots, listing, recordDir)| == |roots|
    ensures Join(BuildHtmlRoots(m, roots, listing, recordDir), "\n") == Join(HtmlLinesRoots(m, roots, listing, recordDir), "\n")
  {
    if roots != [] {
      BuildHtmlFlattens(m, roots[0], listing, recordDir);
      BuildHtmlRootsFlattens(m, roots[1..], listing, recordDir);
      var rest := BuildHtmlRoots(m, roots[1..], listing, recordDir);
      var first := [BuildHtml(m, roots[0], listing, recordDir)];
      if roots[1..] != [] {
        JoinAppend(first, rest, "\n");
        JoinAppend(HtmlLines(m, roots[0], listing, recordDir), HtmlLinesRoots(m, roots[1..], listing, recordDir), "\n");
      } else {
        assert first + rest == first;
        assert HtmlLines(m, roots[0], listing, recordDir) + HtmlLinesRoots(m, roots[1..], listing, recordDir) == HtmlLines(m, roots[0], listing, recordDir);
      }
    }
  }

  /** Wrapping list items in the header and footer depends only on the items'
      joined text. */
  lemma HtmlDocumentOfJoin(items: seq<string>, lines: seq<string>)
    requires (items == []) == (lines == [])
    requires Join(items, "\n") == Join(lines, "\n")
    ensures HtmlDocument(items) == Join(HtmlHead + lines + HtmlTail, "\n")
  {
    if items != [] {
      JoinFramed(HtmlHead, items, HtmlTail, "\n");
      JoinFramed(HtmlHead, lines, HtmlTail, "\n");
    }
  }

  /** Joining a body between a head and a tail puts the separator on both
      sides of the body's own join. */
  lemma JoinFramed(head: seq<string>, body: seq<string>, tail: seq<string>, sep: string)
    requires head != [] && body != [] && tail != []
    ensures Join(head + body + tail, sep) == Join(head, sep) + sep + Join(body, sep) + sep + Join(tail, sep)
  {
    JoinAppend(head, body + tail, sep);
    JoinAppend(body, tail, sep);
    assert head + body + tail == head + (body + tail);
  }

  /** The list-item lines among `ls`: those opening with `<li>`. */
  function ListItems(ls: seq<string>): seq<string> {
    if ls == [] then []
    else (if StartsWith(ls[0], ItemOpen) then [ls[0]] else []) + ListItems(ls[1..])
  }

  lemma {:induction false} ListItemsAppend(a: seq<string>, b: seq<string>)
    ensures ListItems(a + b) == ListItems(a) + ListItems(b)
  {
    if a != [] {
      assert (a + b)[0] == a[0] && (a + b)[1..] == a[1..] + b;
      ListItemsAppend(a[1..], b);
    } else {
      assert a + b == b;
    }
  }

  /** The list item the page shows for each node of `xs`. */
  function ItemLines(m: map<string, ArchivalNode>, xs: seq<string>, listing: seq<RecordFile>, recordDir: string): seq<string>
    requires forall x :: x in xs ==> x in m
  {
    seq(|xs|, i requires 0 <= i < |xs| => ItemLine(m[xs[i]], listing, recordDir))
  }

  lemma ItemLinesAppend(m: map<string, ArchivalNode>, a: seq<string>, b: seq<string>, listing: seq<RecordFile>, recordDir: string)
    requires forall x :: x in a ==> x in m
    requires forall x :: x in b ==> x in m
    ensures ItemLines(m, a + b, listing, recordDir) == ItemLines(m, a, listing, recordDir) + ItemLines(m, b, listing, recordDir)
  {
    ItemLinesPrefix(m, a, b, listing, recordDir);
    ItemLinesSuffix(m, a, b, listing, recordDir);
    SplitAt(ItemLines(m, a + b, listing, recordDir), |a|);
  }

  lemma SplitAt<T>(l: seq<T>, n: nat)
    requires n <= |l|
    ensures l == l[..n] + l[n..]
  {
  }

  lemma ItemLinesPrefix(m: map<string, ArchivalNode>, a: seq<string>, b: seq<string>, listing: seq<RecordFile>, recordDir: string)
    requires forall x :: x in a + b ==> x in m
    ensures |ItemLines(m, a + b, listing, recordDir)| == |a + b|
    ensures ItemLines(m, a + b, listing, recordDir)[..|a|] == ItemLines(m, a, listing, recordDir)
  {
    var l, la := ItemLines(m, a + b, listing, recordDir)[..|a|], ItemLines(m, a, listing, recordDir);
    forall i | 0 <= i < |a|
      ensures l[i] == la[i]
    {
      assert (a + b)[i] == a[i];
    }
  }

  lemma ItemLinesSuffix(m: map<string, ArchivalNode>, a: seq<string>, b: seq<string>, listing: seq<RecordFile>, recordDir: string)
    requires forall x :: x in a + b ==> x in m
    ensures |ItemLines(m, a + b, listing, recordDir)| == |a + b|
    ensures ItemLines(m, a + b, listing, recordDir)[|a|..] == ItemLines(m, b, listing, recordDir)
  {
    var l, lb := ItemLines(m, a + b, listing, recordDir)[|a|..], ItemLines(m, b, listing, recordDir);
    forall i | 0 <= i < |b|
      ensures l[i] == lb[i]
    {
      assert (a + b)[|a| + i] == b[i];
    }
  }

  /** Of a list item's lines, only the opening one and the nested ones can be
      list items. */
  lemma NotItemLine(l: string)
    requires |l| >= 2 && l[1] != ItemOpen[1]
    ensures !StartsWith(l, ItemOpen)
  {
    if |ItemOpen| <= |l| {
      assert l[..|ItemOpen|][1] == l[1];
    }
  }

  lemma ListItemsOfBlock(open: string, h: seq<string>)
    requires StartsWith(open, ItemOpen)
    ensures ListItems([open] + ([ListOpen] + h + [ListClose]) + [ItemClose]) == [open] + ListItems(h)
  {
    NotItemLine(ItemClose);
    NotItemLine(ListOpen);
    NotItemLine(ListClose);
    var close := [ListClose, ItemClose];
    assert ListItems(close) == ListItems([ItemClose]) == [];
    ListItemsAppend(h, close);
    assert ListItems([ListOpen] + (h + close)) == ListItems(h + close);
    assert ListItems([open] + ([ListOpen] + (h + close))) == [open] + ListItems([ListOpen] + (h + close));
    assert [open] + ([ListOpen] + h + [ListClose]) + [ItemClose] == [open] + ([ListOpen] + (h + close));
  }

  lemma ListItemsOfLeaf(open: string)
    requires StartsWith(open, ItemOpen)
    ensures ListItems([open] + [] + [ItemClose]) == [open]
  {
    NotItemLine(ItemClose);
    assert [open] + [] + [ItemClose] == [open, ItemClose];
    assert ListItems([ItemClose]) == [];
  }

  /** The list items under a node are its own and its descendants', in walk
      order: the HTML page nests the same tree the text renderer prints. */
  lemma {:induction false} HtmlItemsFollowVisit(m: map<string, ArchivalNode>, k: string, listing: seq<RecordFile>, recordDir: string)
    requires Descending(m) && k in m
    ensures ListItems(HtmlLines(m, k, listing, recordDir)) == ItemLines(m, Visit(m, k), listing, recordDir)
    decreases Longer(m, k), 1
  {
    var open := ItemLine(m[k], listing, recordDir);
    var cs := SortedChildren(m, k);
    HtmlItemsAllFollowVisit(m, k, cs, listing, recordDir);
    ItemLinesAppend(m, [k], VisitAll(m, k, cs), listing, recordDir);
    assert ItemLines(m, [k], listing, recordDir) == [open];
    if m[k].children != [] {
      ListItemsOfBlock(open, HtmlLinesAll(m, k, cs, listing, recordDir));
    } else {
      ListItemsOfLeaf(open);
    }
  }

  lemma {:induction false} HtmlItemsAllFollowVisit(m: map<string, ArchivalNode>, parent: string, cs: seq<string>, listing: seq<RecordFile>, recordDir: string)
    requires Descending(m) && parent in m && forall c :: c in cs ==> c in m && |c| > |parent|
    ensures ListItems(HtmlLinesAll(m, parent, cs, listing, recordDir)) == ItemLines(m, VisitAll(m, parent, cs), listing, recordDir)
    decreases Longer(m, parent), 0, |cs|
  {
    if cs != [] {
      LongerShrinks(m, parent, cs[0]);
      HtmlItemsFollowVisit(m, cs[0], listing, recordDir);
      HtmlItemsAllFollowVisit(m, parent, cs[1..], listing, recordDir);
      ListItemsAppend(HtmlLines(m, cs[0], listing, recordDir), HtmlLinesAll(m, parent, cs[1..], listing, recordDir));
      ItemLinesAppend(m, Visit(m, cs[0]), VisitAll(m, parent, cs[1..]), listing, recordDir);
    }
  }

  lemma {:induction false} HtmlItemsRootsFollowVisit(m: map<string, ArchivalNode>, roots: seq<string>, listing: seq<RecordFile>, recordDir: string)
    requires Descending(m) && forall r :: r in roots ==> r in m
    ensures ListItems(HtmlLinesRoots(m, roots, listing, recordDir)) == ItemLines(m, VisitRoots(m, roots), listing, recordDir)
  {
    if roots != [] {
      HtmlItemsFollowVisit(m, roots[0], listing, recordDir);
      HtmlItemsRootsFollowVisit(m, roots[1..], listing, recordDir);
      ListItemsAppend(HtmlLines(m, roots[0], listing, recordDir), HtmlLinesRoots(m, roots[1..], listing, recordDir));
      ItemLinesAppend(m, Visit(m, roots[0]), VisitRoots(m, roots[1..]), listing, recordDir);
    }
  }

  /** `generate_html_tree_with_links` writes the header, every root's lines
      in id order, and the footer, one per line; its list items are the
      nodes' labels in the same walk order as the text tree. */
  lemma HtmlTreeFollowsVisit(nodes: Dict<ArchivalNode>, listing: seq<RecordFile>, recordDir: string)
    requires nodes.Valid() && Descending(nodes.vals)
    ensures GenerateHtmlTree(nodes, listing, recordDir)
         == Join(HtmlHead + HtmlLinesRoots(nodes.vals, SortedRoots(nodes), listing, recordDir) + HtmlTail, "\n")
    ensures ListItems(HtmlLinesRoots(nodes.vals, SortedRoots(nodes), listing, recordDir))
         == ItemLines(nodes.vals, VisitRoots(nodes.vals, SortedRoots(nodes)), listing, recordDir)
  {
    var m := nodes.vals;
    var roots := SortedRoots(nodes);
    BuildHtmlRootsFlattens(m, roots, listing, recordDir);
    HtmlDocumentOfJoin(HtmlItems(nodes, listing, recordDir), HtmlLinesRoots(m, roots, listing, recordDir));
    HtmlItemsRootsFollowVisit(m, roots, listing, recordDir);
  }

  // ---------------------------------------------------------------------------
  // Order independence

  /** Two node dictionaries holding the same nodes, whatever the order of their
      keys and of each node's children list. */
  ghost predicate SameNodes(m1: map<string, ArchivalNode>, m2: map<string, ArchivalNode>) {
    m1.Keys == m2.Keys && forall k :: k in m1 ==> m1[k].(children := []) == m2[k].(children := [])
  }

  lemma SameNodeFields(m1: map<string, ArchivalNode>, m2: map<string, ArchivalNode>, k: string)
    requires SameNodes(m1, m2) && k in m1
    ensures k in m2
    ensures m1[k].id == m2[k].id && m1[k].title == m2[k].title && m1[k].tipo == m2[k].tipo
    ensures m1[k].fullId == m2[k].fullId && m1[k].parentId == m2[k].parentId
  {
    assert m1[k].(children := []) == m2[k].(children := []);
  }

  lemma SortedSameIds(m1: map<string, ArchivalNode>, m2: map<string, ArchivalNode>, s: seq<string>)
    requires SortedById(m2, s)
    requires forall x :: x in s ==> x in m1 && x in m2 && m1[x].id == m2[x].id
    ensures SortedById(m1, s)
  {
    forall i, j | 0 <= i < j < |s|
      ensures s[i] in m1 && s[j] in m1 && Le(m1[s[i]].id, m1[s[j]].id)
    {
      assert s[i] in s && s[j] in s;
    }
  }

  /** A node's children, taken in id order, do not depend on the order in
      which they were linked. */
  lemma SameSortedChildren(m1: map<string, ArchivalNode>, m2: map<string, ArchivalNode>, k: string)
    requires Shaped(m1) && Shaped(m2) && Descending(m1) && Descending(m2) && SameNodes(m1, m2) && k in m1
    ensures k in m2 && SortedChildren(m1, k) == SortedChildren(m2, k)
  {
    SameNodeFields(m1, m2, k);
    var a, b := SortedChildren(m1, k), SortedChildren(m2, k);
    SortByIdSorted(m1, m1[k].children);
    SortByIdSorted(m2, m2[k].children);
    SortByIdDistinct(m1, m1[k].children);
    SortByIdDistinct(m2, m2[k].children);
    forall c | c in m1
      ensures c in m2 && m1[c].parentId == m2[c].parentId && m1[c].id == m2[c].id
    {
      SameNodeFields(m1, m2, c);
    }
    assert forall c :: c in a <==> c in b;
    SortedSameIds(m1, m2, b);
    forall x, y | x in a && y in a && x != y
      ensures x in m1 && y in m1 && m1[x].id != m1[y].id
    {
      assert x == k + "/" + m1[x].id && y == k + "/" + m1[y].id;
    }
    SortedUnique(m1, a, b);
  }

  /** The walk from a node is the same in both dictionaries. */
  lemma {:induction false} SameVisit(m1: map<string, ArchivalNode>, m2: map<string, ArchivalNode>, k: string)
    requires Shaped(m1) && Shaped(m2) && Descending(m1) && Descending(m2) && SameNodes(m1, m2) && k in m1
    ensures k in m2 && Visit(m1, k) == Visit(m2, k)
    decreases Longer(m1, k), 1
  {
    SameSortedChildren(m1, m2, k);
    SameVisitAll(m1, m2, k, SortedChildren(m1, k));
  }

  lemma {:induction false} SameVisitAll(m1: map<string, ArchivalNode>, m2: map<string, ArchivalNode>, parent: string, cs: seq<string>)
    requires Shaped(m1) && Shaped(m2) && Descending(m1) && Descending(m2) && SameNodes(m1, m2) && parent in m1
    requires forall c :: c in cs ==> c in m1 && |c| > |parent|
    ensures parent in m2 && VisitAll(m1, parent, cs) == VisitAll(m2, parent, cs)
    decreases Longer(m1, parent), 0, |cs|
  {
    if cs != [] {
      LongerShrinks(m1, parent, cs[0]);
      SameVisit(m1, m2, cs[0]);
      SameVisitAll(m1, m2, parent, cs[1..]);
    }
  }

  /** The roots in id order are the same in both dictionaries. */
  lemma SameSortedRoots(n1: Dict<ArchivalNode>, n2: Dict<ArchivalNode>)
    requires n1.Valid() && n2.Valid() && Shaped(n1.vals) && Shaped(n2.vals) && SameNodes(n1.vals, n2.vals)
    ensures SortedRoots(n1) == SortedRoots(n2)
  {
    var m1, m2 := n1.vals, n2.vals;
    var a, b := SortedRoots(n1), SortedRoots(n2);
    RootIdsMembers(n1.keys, m1);
    RootIdsMembers(n2.keys, m2);
    SortByIdSorted(m1, RootIds(n1.keys, m1));
    SortByIdSorted(m2, RootIds(n2.keys, m2));
    SortByIdDistinct(m1, RootIds(n1.keys, m1));
    SortByIdDistinct(m2, RootIds(n2.keys, m2));
    forall r
      ensures r in a <==> r in b
      ensures r in a ==> r in m1 && m1[r].parentId.None? && r == m1[r].id
    {
      RootsParentless(m1, r);
      RootsParentless(m2, r);
      if r in m1 {
        SameNodeFields(m1, m2, r);
      }
    }
    forall r | r in b
      ensures r in m1 && r in m2 && m1[r].id == m2[r].id
    {
      SameNodeFields(m1, m2, r);
    }
    SortedSameIds(m1, m2, b);
    SortedUnique(m1, a, b);
  }

  /** The walk over the whole forest is the same in both dictionaries. */
  lemma {:induction false} SameVisitRoots(m1: map<string, ArchivalNode>, m2: map<string, ArchivalNode>, roots: seq<string>)
    requires Shaped(m1) && Shaped(m2) && Descending(m1) && Descending(m2) && SameNodes(m1, m2)
    requires forall r :: r in roots ==> r in m1
    ensures forall r :: r in roots ==> r in m2
    ensures VisitRoots(m1, roots) == VisitRoots(m2, roots)
  {
    if roots != [] {
      SameVisit(m1, m2, roots[0]);
      SameVisitRoots(m1, m2, roots[1..]);
    }
  }

  lemma {:induction false} SameIndentedLines(m1: map<string, ArchivalNode>, m2: map<string, ArchivalNode>, xs: seq<string>)
    requires SameNodes(m1, m2) && forall x :: x in xs ==> x in m1
    ensures forall x :: x in xs ==> x in m2
    ensures IndentedLines(m1, xs) == IndentedLines(m2, xs)
  {
    if xs != [] {
      SameNodeFields(m1, m2, xs[0]);
      SameIndentedLines(m1, m2, xs[1..]);
    }
  }

  lemma {:induction false} SameDirPath(m1: map<string, ArchivalNode>, m2: map<string, ArchivalNode>, x: string)
    requires ChildIds(m1) && ChildIds(m2) && SameNodes(m1, m2) && x in m1
    ensures x in m2 && DirPath(m1, x) == DirPath(m2, x)
    decreases |x|
  {
    SameNodeFields(m1, m2, x);
    if m1[x].parentId.Some? {
      var parent := m1[x].parentId.value;
      assert x == parent + "/" + m1[x].id;
      SameDirPath(m1, m2, parent);
    }
  }

  lemma {:induction false} SameDirEntries(m1: map<string, ArchivalNode>, m2: map<string, ArchivalNode>, xs: seq<string>)
    requires ChildIds(m1) && ChildIds(m2) && SameNodes(m1, m2) && forall x :: x in xs ==> x in m1
    ensures forall x :: x in xs ==> x in m2
    ensures DirEntries(m1, xs) == DirEntries(m2, xs)
  {
    if xs != [] {
      SameNodeFields(m1, m2, xs[0]);
      SameDirPath(m1, m2, xs[0]);
      SameDirEntries(m1, m2, xs[1..]);
    }
  }

  lemma {:induction false} SameHtmlLines(m1: map<string, ArchivalNode>, m2: map<string, ArchivalNode>, k: string, listing: seq<RecordFile>, recordDir: string)
    requires Shaped(m1) && Shaped(m2) && Descending(m1) && Descending(m2) && SameNodes(m1, m2) && k in m1
    ensures k in m2 && HtmlLines(m1, k, listing, recordDir) == HtmlLines(m2, k, listing, recordDir)
    decreases Longer(m1, k), 1
  {
    SameNodeFields(m1, m2, k);
    SameItemLine(m1[k], m2[k], listing, recordDir);
    SameSortedChildren(m1, m2, k);
    SameHtmlLinesAll(m1, m2, k, SortedChildren(m1, k), listing, recordDir);
    HtmlLinesOfParts(m1, m2, k, listing, recordDir);
  }

  lemma SameItemLine(n1: ArchivalNode, n2: ArchivalNode, listing: seq<RecordFile>, recordDir: string)
    requires n1.(children := []) == n2.(children := [])
    ensures ItemLine(n1, listing, recordDir) == ItemLine(n2, listing, recordDir)
  {
    assert n1.id == n2.id && n1.title == n2.title && n1.tipo == n2.tipo && n1.fullId == n2.fullId;
  }

  /** A node's lines are fixed by its item line and its sorted children's lines. */
  lemma HtmlLinesOfParts(m1: map<string, ArchivalNode>, m2: map<string, ArchivalNode>, k: string, listing: seq<RecordFile>, recordDir: string)
    requires Descending(m1) && Descending(m2) && k in m1 && k in m2
    requires ItemLine(m1[k], listing, recordDir) == ItemLine(m2[k], listing, recordDir)
    requires |SortedChildren(m1, k)| == |SortedChildren(m2, k)|
    requires HtmlLinesAll(m1, k, SortedChildren(m1, k), listing, recordDir) == HtmlLinesAll(m2, k, SortedChildren(m2, k), listing, recordDir)
    ensures HtmlLines(m1, k, listing, recordDir) == HtmlLines(m2, k, listing, recordDir)
  {
  }

  lemma {:induction false} SameHtmlLinesAll(m1: map<string, ArchivalNode>, m2: map<string, ArchivalNode>, parent: string, cs: seq<string>, listing: seq<RecordFile>, recordDir: string)
    requires Shaped(m1) && Shaped(m2) && Descending(m1) && Descending(m2) && SameNodes(m1, m2) && parent in m1
    requires forall c :: c in cs ==> c in m1 && |c| > |parent|
    ensures parent in m2 && HtmlLinesAll(m1, parent, cs, listing, recordDir) == HtmlLinesAll(m2, parent, cs, listing, recordDir)
    decreases Longer(m1, parent), 0, |cs|
  {
    if cs != [] {
      LongerShrinks(m1, parent, cs[0]);
      SameHtmlLines(m1, m2, cs[0], listing, recordDir);
      SameHtmlLinesAll(m1, m2, parent, cs[1..], listing, recordDir);
    }
  }

  lemma {:induction false} SameHtmlLinesRoots(m1: map<string, ArchivalNode>, m2: map<string, ArchivalNode>, roots: seq<string>, listing: seq<RecordFile>, recordDir: string)
    requires Shaped(m1) && Shaped(m2) && Descending(m1) && Descending(m2) && SameNodes(m1, m2)
    requires forall r :: r in roots ==> r in m1
    ensures forall r :: r in roots ==> r in m2
    ensures HtmlLinesRoots(m1, roots, listing, recordDir) == HtmlLinesRoots(m2, roots, listing, recordDir)
  {
    if roots != [] {
      SameHtmlLines(m1, m2, roots[0], listing, recordDir);
      SameHtmlLinesRoots(m1, m2, roots[1..], listing, recordDir);
    }
  }

  /** The three renderings depend only on the nodes, not on the order of the
      dictionary's keys or of the children lists. */
  lemma RenderingsIgnoreOrder(n1: Dict<ArchivalNode>, n2: Dict<ArchivalNode>, listing: seq<RecordFile>, recordDir: string)
    requires n1.Valid() && n2.Valid() && WellFormedForest(n1.vals) && WellFormedForest(n2.vals)
    requires SameNodes(n1.vals, n2.vals)
    ensures Descending(n1.vals) && Descending(n2.vals)
    ensures GenerateTextTree(n1) == GenerateTextTree(n2)
    ensures GenerateDirectoryStructure(n1) == GenerateDirectoryStructure(n2)
    ensures GenerateHtmlTree(n1, listing, recordDir) == GenerateHtmlTree(n2, listing, recordDir)
  {
    var m1, m2 := n1.vals, n2.vals;
    ForestShaped(m1);
    ForestShaped(m2);
    LinkedDescends(m1);
    LinkedDescends(m2);
    SameSortedRoots(n1, n2);
    var roots := SortedRoots(n1);
    SameVisitRoots(m1, m2, roots);
    TextTreeFollowsVisit(n1);
    TextTreeFollowsVisit(n2);
    SameIndentedLines(m1, m2, VisitRoots(m1, roots));
    DirectoryStructureFollowsVisit(n1);
    DirectoryStructureFollowsVisit(n2);
    SameDirEntries(m1, m2, VisitRoots(m1, roots));
    HtmlTreeFollowsVisit(n1, listing, recordDir);
    HtmlTreeFollowsVisit(n2, listing, recordDir);
    SameHtmlLinesRoots(m1, m2, roots, listing, recordDir);
  }

  /** What `load_yaml_records` returns for a listing (the contract of
      `LoadYamlRecords`). */
  ghost predicate LoadedFrom(nodes: Dict<ArchivalNode>, listing: seq<RecordFile>) {
    && nodes.Valid()
    && nodes.vals.Keys == AllPrefixIds(StoredIds(listing))
    && (forall k :: k in nodes.vals ==> nodes.vals[k].(children := []) == NodeFor(RecordsById(listing), k))
    && WellFormedForest(nodes.vals)
  }

  /** Listing the same record files in another order (with each canonical id in
      one file) yields the same text tree and the same directory tree; the
      HTML page differs at most in which file a node links to. */
  lemma OutputsIgnoreListingOrder(l1: seq<RecordFile>, l2: seq<RecordFile>, n1: Dict<ArchivalNode>, n2: Dict<ArchivalNode>, recordDir: string)
    requires multiset(l1) == multiset(l2) && UniqueIds(l1) && UniqueIds(l2)
    requires LoadedFrom(n1, l1) && LoadedFrom(n2, l2)
    ensures Descending(n1.vals) && Descending(n2.vals)
    ensures GenerateTextTree(n1) == GenerateTextTree(n2)
    ensures GenerateDirectoryStructure(n1) == GenerateDirectoryStructure(n2)
    ensures GenerateHtmlTree(n1, l1, recordDir) == GenerateHtmlTree(n2, l1, recordDir)
  {
    LoadOrderIndependent(l1, l2);
    RenderingsIgnoreOrder(n1, n2, l1, recordDir);
  }
}
