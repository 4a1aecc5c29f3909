/** Ordering of child lists: `fileInfoList` (zipfs.go:109-125) is sorted with
    `sort.Sort` by `Less`, which compares base names with `strings.Compare`.
    `sort.Sort` is library code and not part of this model; it is stood in for
    by an in-place insertion sort on the same `Less`, which meets the same
    promise: the list ends up in non-decreasing name order and holds the same
    nodes. */
module ChildOrder {
  import opened Strs
  import opened Index

  /** Node `x` does not sort after node `y`: `!Less(y, x)` of `fileInfoList`. */
  predicate NameLe(names: seq<string>, x: NodeId, y: NodeId)
  {
    x < |names| && y < |names| && !Less(names[y], names[x])
  }

  predicate SortedByName(ids: seq<NodeId>, names: seq<string>)
  {
    forall i, j :: 0 <= i < j < |ids| ==> NameLe(names, ids[i], ids[j])
  }

  lemma NameLeTransitive(names: seq<string>, x: NodeId, y: NodeId, z: NodeId)
    requires NameLe(names, x, y) && NameLe(names, y, z)
    ensures NameLe(names, x, z)
  {
    if Less(names[z], names[x]) {
      LessTotal(names[x], names[y]);
      if names[x] == names[y] {
      } else if Less(names[x], names[y]) {
        LessTransitive(names[z], names[x], names[y]);
      }
    }
  }

  lemma NameLeTotal(names: seq<string>, x: NodeId, y: NodeId)
    requires x < |names| && y < |names|
    ensures NameLe(names, x, y) || NameLe(names, y, x)
  {
    if Less(names[y], names[x]) { LessAsymmetric(names[y], names[x]); }
  }

  /** Every node of `s` has a name. */
  predicate Named(s: seq<NodeId>, names: seq<string>)
  {
    forall k :: 0 <= k < |s| ==> s[k] < |names|
  }

  /** `s[lo..hi]` is in non-decreasing name order. */
  predicate SortedSegment(s: seq<NodeId>, lo: int, hi: int, names: seq<string>)
  {
    forall p, q :: lo <= p < q < hi && 0 <= p && q < |s| ==> NameLe(names, s[p], s[q])
  }

  /** The state of the insertion of `s[i]`: it now sits at `j`; `s[..j]` and
      `s[j..i + 1]` are each sorted and every node before `j` sorts no later
      than every node after it. */
  predicate Inserting(s: seq<NodeId>, j: int, i: int, names: seq<string>)
  {
    && 0 <= j <= i < |s| && Named(s, names)
    && SortedSegment(s, 0, j, names) && SortedSegment(s, j, i + 1, names)
    && forall p, q :: 0 <= p < j < q <= i ==> NameLe(names, s[p], s[q])
  }

  /** Swapping the inserted node with a predecessor that sorts after it
      keeps the insertion state one place further left. */
  lemma InsertStep(s: seq<NodeId>, j: int, i: int, names: seq<string>)
    requires Inserting(s, j, i, names) && j > 0 && Less(names[s[j]], names[s[j - 1]])
    ensures Inserting(s[j - 1 := s[j]][j := s[j - 1]], j - 1, i, names)
    ensures multiset(s[j - 1 := s[j]][j := s[j - 1]]) == multiset(s)
  {
    LessAsymmetric(names[s[j]], names[s[j - 1]]);
    var t := s[j - 1 := s[j]][j := s[j - 1]];
    forall p, q | j - 1 <= p < q <= i ensures NameLe(names, t[p], t[q]) {
      if p == j - 1 && q > j {
        assert NameLe(names, s[j], s[q]);
      }
    }
  }

  /** Once the inserted node meets a predecessor that does not sort after
      it, `s[..i + 1]` is sorted. */
  lemma InsertDone(s: seq<NodeId>, j: int, i: int, names: seq<string>)
    requires Inserting(s, j, i, names) && (j == 0 || !Less(names[s[j]], names[s[j - 1]]))
    ensures SortedSegment(s, 0, i + 1, names)
  {
    forall p, q | 0 <= p < q < i + 1 ensures NameLe(names, s[p], s[q]) {
      if p < j - 1 && q == j {
        NameLeTransitive(names, s[p], s[j - 1], s[j]);
      }
    }
  }

  /** `sort.Sort(fi.fileInfos)`: sorts `a` in place by name. */
  method SortByName(a: array<NodeId>, names: seq<string>)
    requires forall k :: 0 <= k < a.Length ==> a[k] < |names|
    modifies a
    ensures SortedByName(a[..], names)
    ensures multiset(a[..]) == multiset(old(a[..]))
  {
    var i := 0;
    while i < a.Length
      invariant 0 <= i <= a.Length
      invariant Named(a[..], names)
      invariant SortedSegment(a[..], 0, i, names)
      invariant multiset(a[..]) == multiset(old(a[..]))
    {
      var j := i;
      while j > 0 && Less(names[a[j]], names[a[j - 1]])
        invariant Inserting(a[..], j, i, names)
        invariant multiset(a[..]) == multiset(old(a[..]))
      {
        InsertStep(a[..], j, i, names);
        a[j - 1], a[j] := a[j], a[j - 1];
        j := j - 1;
      }
      InsertDone(a[..], j, i, names);
      i := i + 1;
    }
  }
}
