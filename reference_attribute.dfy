// The document -> reference array of a reference attribute. Slot lid of
// `indices` holds the unique-store ref of the document that document lid
// refers to, or the invalid ref when it refers to nothing. The unique store
// keeps one entry per referenced gid with a count of the slots holding its
// ref; the reverse mapping (ref -> the lids referring to it) is kept as
// ghost state, together with a log of the calls made into it.
module Attribute {

  /** A ref into the unique store. 0 is the invalid ref, EntryRef(). */
  type EntryRef = nat

  const InvalidRef: EntryRef := 0

  /** The global id of a referenced document. */
  type GlobalId = seq<bv8>

  datatype Option<T> = None | Some(value: T)

  /** One unique-store entry: its gid and the number of slots holding its ref. */
  datatype StoreEntry = StoreEntry(gid: GlobalId, refCount: nat)

  /** A call into the reverse mapping made by update, clearDoc or clearDocs. */
  datatype ReverseCall = AddMapping(ref: EntryRef, lid: nat) | RemoveMapping(ref: EntryRef, lid: nat)

  /** A (ref, lid) pair of a slot that holds a valid ref. */
  datatype Pair = Pair(ref: EntryRef, lid: nat)

  /** One call of the per-ref reverse-mapping builder: a ref and its lids. */
  datatype Group = Group(ref: EntryRef, lids: seq<nat>)

  // ---------------------------------------------------------------------
  // Slots, store and reverse mapping as values

  /** The lids whose slot holds r. */
  ghost function LidsHolding(s: seq<EntryRef>, r: EntryRef): set<nat>
  {
    set lid: nat | lid < |s| && s[lid] == r
  }

  ghost function Elems(s: seq<nat>): set<nat>
  {
    set x | x in s
  }

  /** One entry per gid, refs valid and below the next ref handed out. */
  ghost predicate ShapeOk(entries: map<EntryRef, StoreEntry>, dictionary: map<GlobalId, EntryRef>, nextRef: EntryRef)
  {
    && nextRef != InvalidRef
    && (forall r :: r in entries ==> r != InvalidRef && r < nextRef)
    && (forall g {:trigger g in dictionary} :: g in dictionary ==> dictionary[g] in entries && entries[dictionary[g]].gid == g)
    && (forall r {:trigger r in entries} :: r in entries ==> entries[r].gid in dictionary && dictionary[entries[r].gid] == r)
  }

  /** The store holds exactly the refs in use, each counted once per slot. */
  ghost predicate CountsOk(s: seq<EntryRef>, entries: map<EntryRef, StoreEntry>)
  {
    && InvalidRef !in entries
    && (forall r {:trigger r in entries} :: r in entries ==> entries[r].refCount == multiset(s)[r] && entries[r].refCount > 0)
    && (forall lid :: 0 <= lid < |s| && s[lid] != InvalidRef ==> s[lid] in entries)
  }

  ghost function LidsOf(rev: map<EntryRef, set<nat>>, r: EntryRef): set<nat>
  {
    if r in rev then rev[r] else {}
  }

  /** The reverse mapping of every valid ref is exactly the lids holding it. */
  ghost predicate ReverseOk(s: seq<EntryRef>, rev: map<EntryRef, set<nat>>)
  {
    forall r :: r != InvalidRef ==> LidsOf(rev, r) == LidsHolding(s, r)
  }

  function Count(entries: map<EntryRef, StoreEntry>, r: EntryRef): nat
  {
    if r in entries then entries[r].refCount else 0
  }

  /** The store after one more slot holds r, an entry for gid. */
  function Inc(entries: map<EntryRef, StoreEntry>, r: EntryRef, gid: GlobalId): map<EntryRef, StoreEntry>
  {
    entries[r := StoreEntry(gid, Count(entries, r) + 1)]
  }

  /** The store after one slot fewer holds r; the entry goes with its last holder. */
  function Dec(entries: map<EntryRef, StoreEntry>, r: EntryRef): map<EntryRef, StoreEntry>
  {
    if r !in entries then entries
    else if entries[r].refCount <= 1 then entries - {r}
    else entries[r := entries[r].(refCount := entries[r].refCount - 1)]
  }

  /** Every entry of e1 is one of e0's, for the same gid: a store that has
      only lost counts. */
  ghost predicate GidsKept(e0: map<EntryRef, StoreEntry>, e1: map<EntryRef, StoreEntry>)
  {
    forall r :: r in e1 ==> r in e0 && e1[r].gid == e0[r].gid
  }

  ghost function AddLid(rev: map<EntryRef, set<nat>>, r: EntryRef, lid: nat): map<EntryRef, set<nat>>
  {
    rev[r := LidsOf(rev, r) + {lid}]
  }

  ghost function RemoveLid(rev: map<EntryRef, set<nat>>, r: EntryRef, lid: nat): map<EntryRef, set<nat>>
  {
    rev[r := LidsOf(rev, r) - {lid}]
  }

  /** Setting slot i to v moves lid i from the lids of s[i] to the lids of v. */
  lemma SlotUpdateLids(s: seq<EntryRef>, i: nat, v: EntryRef)
    requires i < |s|
    ensures forall r :: LidsHolding(s[i := v], r) == (LidsHolding(s, r) - {i}) + (if r == v then {i} else {})
  {
    forall r ensures LidsHolding(s[i := v], r) == (LidsHolding(s, r) - {i}) + (if r == v then {i} else {}) {
    }
  }

  /** Setting slot i to v moves one count from s[i] to v. */
  lemma SlotUpdateCounts(s: seq<EntryRef>, i: nat, v: EntryRef)
    requires i < |s|
    ensures forall r :: multiset(s[i := v])[r] ==
              multiset(s)[r] - (if r == s[i] then 1 else 0) + (if r == v then 1 else 0)
  {
    assert s[i := v] == s[..i] + [v] + s[i + 1..];
    assert s == s[..i] + [s[i]] + s[i + 1..];
  }

  /** clearDoc on a valid slot keeps the store counts right. */
  lemma CountsAfterClear(s: seq<EntryRef>, entries: map<EntryRef, StoreEntry>, lid: nat)
    requires CountsOk(s, entries) && lid < |s| && s[lid] != InvalidRef
    ensures CountsOk(s[lid := InvalidRef], Dec(entries, s[lid]))
  {
    SlotUpdateCounts(s, lid, InvalidRef);
    var s2 := s[lid := InvalidRef];
    var e2 := Dec(entries, s[lid]);
    forall l | 0 <= l < |s2| && s2[l] != InvalidRef ensures s2[l] in e2 {
      assert s[l] == s2[l] && s[l] in entries;
      assert multiset(s2)[s2[l]] > 0;
    }
  }

  /** A ref the store does not hold is in no slot. */
  lemma CountsAbsent(s: seq<EntryRef>, entries: map<EntryRef, StoreEntry>, r: EntryRef)
    requires CountsOk(s, entries) && r != InvalidRef && r !in entries
    ensures multiset(s)[r] == 0
  {
    assert forall l :: 0 <= l < |s| ==> s[l] != r;
    assert r !in s;
  }

  /** Filling an invalid slot with v adds one count for v. */
  lemma CountsAfterFill(s: seq<EntryRef>, entries: map<EntryRef, StoreEntry>, lid: nat, v: EntryRef, gid: GlobalId)
    requires CountsOk(s, entries) && lid < |s| && s[lid] == InvalidRef && v != InvalidRef
    ensures CountsOk(s[lid := v], Inc(entries, v, gid))
  {
    SlotUpdateCounts(s, lid, v);
    var s2 := s[lid := v];
    var e1 := Inc(entries, v, gid);
    if v !in entries {
      CountsAbsent(s, entries, v);
    }
    assert e1[v].refCount == multiset(s2)[v];
    forall l | 0 <= l < |s2| && s2[l] != InvalidRef ensures s2[l] in e1 {
      if l != lid {
        assert s[l] == s2[l] && s[l] in entries;
      }
    }
  }

  /** Counting down one ref and up another commute in the store. */
  lemma IncDecCommute(entries: map<EntryRef, StoreEntry>, u: EntryRef, v: EntryRef, gid: GlobalId)
    requires u != v
    ensures Dec(Inc(entries, v, gid), u) == Inc(Dec(entries, u), v, gid)
  {
    assert Count(Dec(entries, u), v) == Count(entries, v);
  }

  /** update of a slot that already holds v's entry leaves the counts as they are. */
  lemma CountsAfterRefresh(s: seq<EntryRef>, entries: map<EntryRef, StoreEntry>, lid: nat, gid: GlobalId)
    requires CountsOk(s, entries) && lid < |s| && s[lid] != InvalidRef
    ensures CountsOk(s, Dec(Inc(entries, s[lid], gid), s[lid]))
  {
    var v := s[lid];
    assert Dec(Inc(entries, v, gid), v) == entries[v := StoreEntry(gid, entries[v].refCount)];
  }

  /** update moving a slot from one valid ref u to another v. */
  lemma CountsAfterMove(s: seq<EntryRef>, entries: map<EntryRef, StoreEntry>, lid: nat, v: EntryRef, gid: GlobalId)
    requires CountsOk(s, entries) && lid < |s| && v != InvalidRef && s[lid] != InvalidRef && s[lid] != v
    ensures CountsOk(s[lid := v], Dec(Inc(entries, v, gid), s[lid]))
  {
    var u := s[lid];
    CountsAfterClear(s, entries, lid);
    var s1 := s[lid := InvalidRef];
    CountsAfterFill(s1, Dec(entries, u), lid, v, gid);
    assert s1[lid := v] == s[lid := v];
    IncDecCommute(entries, u, v, gid);
  }

  /** update keeps the store counts right, whatever the old slot held. */
  lemma CountsAfterUpdate(s: seq<EntryRef>, entries: map<EntryRef, StoreEntry>, lid: nat, v: EntryRef, gid: GlobalId)
    requires CountsOk(s, entries) && lid < |s| && v != InvalidRef
    ensures CountsOk(s[lid := v], Dec(Inc(entries, v, gid), s[lid]))
    ensures v in Dec(Inc(entries, v, gid), s[lid]) && Dec(Inc(entries, v, gid), s[lid])[v].gid == gid
    ensures s[lid] == InvalidRef ==> Dec(Inc(entries, v, gid), s[lid]) == Inc(entries, v, gid)
  {
    var u := s[lid];
    if u == InvalidRef {
      CountsAfterFill(s, entries, lid, v, gid);
    } else if u == v {
      assert s[lid := v] == s;
      CountsAfterRefresh(s, entries, lid, gid);
    } else {
      CountsAfterMove(s, entries, lid, v, gid);
    }
  }

  /** clearDoc on a valid slot keeps the reverse mapping exact. */
  lemma ReverseAfterClear(s: seq<EntryRef>, rev: map<EntryRef, set<nat>>, lid: nat)
    requires ReverseOk(s, rev) && lid < |s| && s[lid] != InvalidRef
    ensures ReverseOk(s[lid := InvalidRef], RemoveLid(rev, s[lid], lid))
  {
    SlotUpdateLids(s, lid, InvalidRef);
    var rev2 := RemoveLid(rev, s[lid], lid);
    forall r | r != InvalidRef ensures LidsOf(rev2, r) == LidsHolding(s[lid := InvalidRef], r) {
      if r != s[lid] {
        assert lid !in LidsHolding(s, r);
      }
    }
  }

  /** update keeps the reverse mapping exact: nothing to do when the slot
      keeps its ref; otherwise the old ref, if valid, loses lid and the new
      ref gains it. */
  lemma ReverseAfterUpdate(s: seq<EntryRef>, rev: map<EntryRef, set<nat>>, lid: nat, v: EntryRef)
    requires ReverseOk(s, rev) && lid < |s| && v != InvalidRef
    ensures ReverseOk(s[lid := v], AddReverse(ReleaseReverse(rev, s[lid], v, lid), s[lid], v, lid))
  {
    SlotUpdateLids(s, lid, v);
    if s[lid] == v {
      assert s[lid := v] == s;
    } else {
      var rev1 := ReleaseReverse(rev, s[lid], v, lid);
      var rev2 := AddLid(rev1, v, lid);
      forall r | r != InvalidRef ensures LidsOf(rev2, r) == LidsHolding(s[lid := v], r) {
        if r != s[lid] {
          assert lid !in LidsHolding(s, r);
          assert LidsOf(rev1, r) == LidsOf(rev, r);
        } else {
          assert LidsOf(rev1, r) == LidsOf(rev, r) - {lid};
        }
      }
    }
  }

  /** Appending an invalid slot changes the lids and counts of no valid ref. */
  lemma SlotAppend(s: seq<EntryRef>)
    ensures forall r :: r != InvalidRef ==> LidsHolding(s + [InvalidRef], r) == LidsHolding(s, r)
    ensures forall r :: r != InvalidRef ==> multiset(s + [InvalidRef])[r] == multiset(s)[r]
  {
  }

  /** Dropping a tail of invalid slots changes the lids and counts of no valid ref. */
  lemma SlotTruncate(s: seq<EntryRef>, n: nat)
    requires n <= |s|
    requires forall lid :: n <= lid < |s| ==> s[lid] == InvalidRef
    ensures forall r :: r != InvalidRef ==> LidsHolding(s[..n], r) == LidsHolding(s, r)
    ensures forall r :: r != InvalidRef ==> multiset(s[..n])[r] == multiset(s)[r]
  {
    assert s == s[..n] + s[n..];
    forall r | r != InvalidRef ensures multiset(s[..n])[r] == multiset(s)[r] {
      assert r !in s[n..];
    }
  }

  // ---------------------------------------------------------------------
  // buildReverseMapping: collect, sort, group

  /** The pairs of the valid slots of s, in lid order: what the first loop of
      buildReverseMapping collects. */
  function SlotPairs(s: seq<EntryRef>): (p: seq<Pair>)
    ensures forall k :: 0 <= k < |p| ==>
              p[k].ref != InvalidRef && p[k].lid < |s| && s[p[k].lid] == p[k].ref
    ensures forall i, j :: 0 <= i < j < |p| ==> p[i].lid < p[j].lid
    ensures forall lid :: 0 <= lid < |s| && s[lid] != InvalidRef ==> Pair(s[lid], lid) in p
  {
    if s == [] then []
    else
      var n := |s| - 1;
      var q := SlotPairs(s[..n]);
      assert forall lid :: 0 <= lid < n ==> s[..n][lid] == s[lid];
      assert forall k :: 0 <= k < |q| ==> q[k].lid < n;
      q + (if s[n] != InvalidRef then [Pair(s[n], n)] else [])
  }

  /** Pairs with strictly increasing lids are distinct. */
  lemma LidsDistinct(p: seq<Pair>)
    requires forall i, j :: 0 <= i < j < |p| ==> p[i].lid < p[j].lid
    ensures forall i, j :: 0 <= i < j < |p| ==> p[i] != p[j]
  {
  }

  /** The order std::sort uses on (ref, lid) pairs. */
  predicate PairLess(a: Pair, b: Pair)
  {
    a.ref < b.ref || (a.ref == b.ref && a.lid < b.lid)
  }

  predicate Sorted(p: seq<Pair>)
  {
    forall i, j :: 0 <= i < j < |p| ==> PairLess(p[i], p[j])
  }

  predicate Increasing(s: seq<nat>)
  {
    forall i, j :: 0 <= i < j < |s| ==> s[i] < s[j]
  }

  /** Inserts x into its place in a sorted sequence. */
  function Insert(q: seq<Pair>, x: Pair): (r: seq<Pair>)
    requires Sorted(q) && x !in q
    ensures Sorted(r)
    ensures |r| == |q| + 1
    ensures forall e :: e in r <==> e in q || e == x
  {
    if q == [] then [x]
    else if PairLess(x, q[0]) then [x] + q
    else
      assert forall e :: e in q[1..] ==> e in q;
      var rest := Insert(q[1..], x);
      assert PairLess(q[0], x);
      assert forall e :: e in rest ==> PairLess(q[0], e);
      assert forall j :: 0 <= j < |rest| ==> PairLess(q[0], rest[j]);
      [q[0]] + rest
  }

  /** std::sort on the collected pairs (an insertion sort standing in for it):
      the result is sorted and holds exactly the pairs of its input. */
  function SortPairs(p: seq<Pair>): (q: seq<Pair>)
    requires forall i, j :: 0 <= i < j < |p| ==> p[i] != p[j]
    ensures Sorted(q)
    ensures |q| == |p|
    ensures forall e :: e in q <==> e in p
  {
    if p == [] then []
    else
      var n := |p| - 1;
      assert forall e :: e in p[..n] ==> e in p;
      assert p[n] !in p[..n];
      Insert(SortPairs(p[..n]), p[n])
  }

  /** The builder groups the second loop of buildReverseMapping produces
      from a sequence of pairs: a new group whenever the ref changes. */
  function Groups(p: seq<Pair>): seq<Group>
  {
    if p == [] then []
    else
      var g := Groups(p[..|p| - 1]);
      var e := p[|p| - 1];
      if g != [] && g[|g| - 1].ref == e.ref then
        g[..|g| - 1] + [Group(e.ref, g[|g| - 1].lids + [e.lid])]
      else
        g + [Group(e.ref, [e.lid])]
  }

  ghost function GroupRefs(g: seq<Group>): set<EntryRef>
  {
    set k | 0 <= k < |g| :: g[k].ref
  }

  predicate RefsAscending(g: seq<Group>)
  {
    forall i, j :: 0 <= i < j < |g| ==> g[i].ref < g[j].ref
  }

  /** The reverse mapping the builder calls leave behind, starting empty. */
  ghost function ReverseOf(g: seq<Group>): map<EntryRef, set<nat>>
  {
    if g == [] then map[]
    else ReverseOf(g[..|g| - 1])[g[|g| - 1].ref := Elems(g[|g| - 1].lids)]
  }

  lemma SortedPrefix(p: seq<Pair>)
    requires Sorted(p) && p != []
    ensures Sorted(p[..|p| - 1])
    ensures forall i :: 0 <= i < |p| - 1 ==> PairLess(p[i], p[|p| - 1])
  {
    var n := |p| - 1;
    assert forall i, j :: 0 <= i < j < n ==> p[..n][i] == p[i] && p[..n][j] == p[j];
  }

  /** Grouping is empty only for no pairs, and its last group ends with the
      last pair. */
  lemma GroupsLast(p: seq<Pair>)
    ensures var g := Groups(p);
      && (p == [] <==> g == [])
      && (p != [] ==> g[|g| - 1].ref == p[|p| - 1].ref && g[|g| - 1].lids != [] &&
                      g[|g| - 1].lids[|g[|g| - 1].lids| - 1] == p[|p| - 1].lid)
  {
  }

  /** The last pair joins the last group when their refs agree. */
  lemma GroupsJoin(p: seq<Pair>, g0: seq<Group>, g: seq<Group>)
    requires p != [] && g0 == Groups(p[..|p| - 1]) && g == Groups(p)
    requires g0 != [] && g0[|g0| - 1].ref == p[|p| - 1].ref
    ensures |g| == |g0|
    ensures g[|g| - 1] == Group(p[|p| - 1].ref, g0[|g0| - 1].lids + [p[|p| - 1].lid])
    ensures forall k :: 0 <= k < |g| - 1 ==> g[k] == g0[k]
  {
  }

  /** Otherwise the last pair opens a group of its own. */
  lemma GroupsOpen(p: seq<Pair>, g0: seq<Group>, g: seq<Group>)
    requires p != [] && g0 == Groups(p[..|p| - 1]) && g == Groups(p)
    requires !(g0 != [] && g0[|g0| - 1].ref == p[|p| - 1].ref)
    ensures |g| == |g0| + 1
    ensures g[|g0|] == Group(p[|p| - 1].ref, [p[|p| - 1].lid])
    ensures forall k :: 0 <= k < |g0| ==> g[k] == g0[k]
  {
  }

  /** Appending a group whose ref exceeds the last one keeps refs ascending. */
  lemma AscendingSnoc(g0: seq<Group>, g: seq<Group>, r: EntryRef)
    requires RefsAscending(g0) && |g| == |g0| + 1 && g[|g0|].ref == r
    requires forall k :: 0 <= k < |g0| ==> g[k] == g0[k]
    requires g0 != [] ==> g0[|g0| - 1].ref < r
    ensures RefsAscending(g)
  {
    var m := |g0|;
    forall i, j | 0 <= i < j < |g| ensures g[i].ref < g[j].ref {
      assert g[i] == g0[i];
      if j < m {
        assert g[j] == g0[j];
      } else if i < m - 1 {
        assert g0[i].ref < g0[m - 1].ref;
      }
    }
  }

  /** Grouping a sorted sequence gives groups in strictly ascending ref order. */
  lemma {:induction false} GroupsAscending(p: seq<Pair>)
    requires Sorted(p)
    ensures RefsAscending(Groups(p))
  {
    if p != [] {
      var n := |p| - 1;
      var q := p[..n];
      var e := p[n];
      SortedPrefix(p);
      GroupsAscending(q);
      GroupsLast(q);
      var g0 := Groups(q);
      var g := Groups(p);
      if g0 != [] && g0[|g0| - 1].ref == e.ref {
        GroupsJoin(p, g0, g);
        forall i, j | 0 <= i < j < |g| ensures g[i].ref < g[j].ref {
          assert g[i].ref == g0[i].ref;
          assert g[j].ref == g0[j].ref;
        }
      } else {
        GroupsOpen(p, g0, g);
        if g0 != [] {
          assert PairLess(q[n - 1], e);
        }
        AscendingSnoc(g0, g, e.ref);
      }
    }
  }

  lemma IncreasingAppend(s: seq<nat>, x: nat)
    requires Increasing(s) && (s != [] ==> s[|s| - 1] < x)
    ensures Increasing(s + [x])
  {
    forall i | 0 <= i < |s| ensures s[i] < x {
      assert s[i] <= s[|s| - 1];
    }
  }

  /** Grouping gives every group at least one lid. */
  lemma {:induction false} GroupsNonEmpty(p: seq<Pair>)
    ensures forall k :: 0 <= k < |Groups(p)| ==> Groups(p)[k].lids != []
  {
    if p != [] {
      var n := |p| - 1;
      var g0, g := Groups(p[..n]), Groups(p);
      GroupsNonEmpty(p[..n]);
      if g0 != [] && g0[|g0| - 1].ref == p[n].ref {
        GroupsJoin(p, g0, g);
        forall k | 0 <= k < |g| - 1 ensures g[k].lids != [] {
          assert g[k] == g0[k];
        }
      } else {
        GroupsOpen(p, g0, g);
        forall k | 0 <= k < |g0| ensures g[k].lids != [] {
          assert g[k] == g0[k];
        }
      }
    }
  }

  /** Grouping a sorted sequence gives each group a strictly ascending run
      of lids. */
  lemma {:induction false} GroupsIncreasing(p: seq<Pair>)
    requires Sorted(p)
    ensures forall k :: 0 <= k < |Groups(p)| ==> Increasing(Groups(p)[k].lids)
  {
    if p != [] {
      var n := |p| - 1;
      var q := p[..n];
      var g0, g := Groups(q), Groups(p);
      SortedPrefix(p);
      GroupsIncreasing(q);
      if g0 != [] && g0[|g0| - 1].ref == p[n].ref {
        GroupsLast(q);
        assert PairLess(q[n - 1], p[n]);
        IncreasingAppend(g0[|g0| - 1].lids, p[n].lid);
        GroupsJoin(p, g0, g);
        forall k | 0 <= k < |g| - 1 ensures Increasing(g[k].lids) {
          assert g[k] == g0[k];
        }
      } else {
        GroupsOpen(p, g0, g);
        forall k | 0 <= k < |g0| ensures Increasing(g[k].lids) {
          assert g[k] == g0[k];
        }
      }
    }
  }

  /** Grouping puts a lid in a group only when it is paired with the
      group's ref. */
  lemma {:induction false} GroupsLidsSound(p: seq<Pair>)
    ensures forall k, l: nat :: 0 <= k < |Groups(p)| && l in Groups(p)[k].lids ==> Pair(Groups(p)[k].ref, l) in p
  {
    if p != [] {
      var n := |p| - 1;
      var q := p[..n];
      var e := p[n];
      GroupsLidsSound(q);
      var g0 := Groups(q);
      var g := Groups(p);
      assert p == q + [e];
      if g0 != [] && g0[|g0| - 1].ref == e.ref {
        GroupsJoin(p, g0, g);
        var m := |g0| - 1;
        forall k, l: nat | 0 <= k < |g| && l in g[k].lids ensures Pair(g[k].ref, l) in p {
          if k < m {
            assert g[k] == g0[k];
          } else if l != e.lid {
            assert l in g0[m].lids;
          }
        }
      } else {
        GroupsOpen(p, g0, g);
        forall k, l: nat | 0 <= k < |g| && l in g[k].lids ensures Pair(g[k].ref, l) in p {
          if k < |g0| {
            assert g[k] == g0[k];
          }
        }
      }
    }
  }

  /** The refs of a sorted prefix stay at or below the last group's ref,
      which is below the ref of a next pair opening a new group. */
  lemma RefsBelowNext(q: seq<Pair>, e: Pair, top: EntryRef)
    requires Sorted(q + [e]) && q != [] && top == q[|q| - 1].ref && top != e.ref
    ensures forall i :: 0 <= i < |q| ==> q[i].ref <= top
    ensures top < e.ref
  {
    var p := q + [e];
    var n := |q|;
    assert PairLess(p[n - 1], p[n]);
    forall i | 0 <= i < n ensures q[i].ref <= top {
      if i < n - 1 {
        assert PairLess(p[i], p[n - 1]);
      }
    }
  }

  /** Grouping a sorted sequence puts every lid paired with a group's ref
      into that group. */
  lemma {:induction false} GroupsLidsComplete(p: seq<Pair>)
    requires Sorted(p)
    ensures forall k, l: nat :: 0 <= k < |Groups(p)| && Pair(Groups(p)[k].ref, l) in p ==> l in Groups(p)[k].lids
  {
    if p != [] {
      var n := |p| - 1;
      var q := p[..n];
      var e := p[n];
      SortedPrefix(p);
      GroupsLidsComplete(q);
      GroupsAscending(q);
      GroupsLast(q);
      var g0 := Groups(q);
      var g := Groups(p);
      assert p == q + [e];
      if g0 != [] && g0[|g0| - 1].ref == e.ref {
        GroupsJoin(p, g0, g);
        var m := |g0| - 1;
        forall k, l: nat | 0 <= k < |g| && Pair(g[k].ref, l) in p ensures l in g[k].lids {
          if k < m {
            assert g[k] == g0[k];
            assert g0[k].ref < g0[m].ref;
          } else if l != e.lid {
            assert Pair(g0[m].ref, l) in q;
          }
        }
      } else {
        GroupsOpen(p, g0, g);
        if q != [] {
          RefsBelowNext(q, e, g0[|g0| - 1].ref);
        }
        forall k, l: nat | 0 <= k < |g| && Pair(g[k].ref, l) in p ensures l in g[k].lids {
          if k < |g0| {
            assert g[k] == g0[k];
            assert g0[k].ref <= g0[|g0| - 1].ref;
            assert Pair(g0[k].ref, l) != e;
          } else {
            assert Pair(e.ref, l) !in q;
          }
        }
      }
    }
  }

  /** Grouping gives every pair's ref a group. */
  lemma {:induction false} GroupsCover(p: seq<Pair>)
    ensures forall x :: x in p ==> x.ref in GroupRefs(Groups(p))
  {
    if p != [] {
      var n := |p| - 1;
      var q := p[..n];
      var e := p[n];
      GroupsCover(q);
      var g0 := Groups(q);
      var g := Groups(p);
      assert p == q + [e];
      if g0 != [] && g0[|g0| - 1].ref == e.ref {
        GroupsJoin(p, g0, g);
      } else {
        GroupsOpen(p, g0, g);
      }
      assert g[|g| - 1].ref == e.ref;
      forall x | x in p ensures x.ref in GroupRefs(g) {
        if x != e {
          assert x in q;
          var k :| 0 <= k < |g0| && g0[k].ref == x.ref;
          if k < |g| - 1 {
            assert g[k] == g0[k];
          } else {
            assert g[|g| - 1].ref == x.ref;
          }
        }
      }
    }
  }

  /** The builder calls leave each called ref mapped to exactly its lids,
      and no other ref mapped. */
  lemma {:induction false} ReverseOfGroups(g: seq<Group>)
    requires RefsAscending(g)
    ensures forall k :: 0 <= k < |g| ==> g[k].ref in ReverseOf(g) && ReverseOf(g)[g[k].ref] == Elems(g[k].lids)
    ensures forall r :: r in ReverseOf(g) ==> r in GroupRefs(g)
  {
    if g != [] {
      var n := |g| - 1;
      var h := g[..n];
      assert RefsAscending(h);
      ReverseOfGroups(h);
      forall k | 0 <= k < |g|
        ensures g[k].ref in ReverseOf(g) && ReverseOf(g)[g[k].ref] == Elems(g[k].lids)
      {
        if k < n {
          assert h[k] == g[k];
        }
      }
      forall r | r in ReverseOf(g) ensures r in GroupRefs(g) {
        if r != g[n].ref {
          assert r in ReverseOf(h);
          assert r in GroupRefs(h);
          var k :| 0 <= k < |h| && h[k].ref == r;
          assert g[k] == h[k];
        }
      }
    }
  }

  /** The builder calls buildReverseMapping makes for slots s. */
  function BuilderCalls(s: seq<EntryRef>): seq<Group>
  {
    SortInput(s, SlotPairs(s));
    Groups(SortPairs(SlotPairs(s)))
  }

  /** g has one call per distinct valid ref of s, in ascending ref order,
      each with exactly the lids whose slot holds that ref, in ascending
      order, and every valid slot is covered. */
  ghost predicate ExactFor(s: seq<EntryRef>, g: seq<Group>)
  {
    && RefsAscending(g)
    && (forall k :: 0 <= k < |g| ==> g[k].ref != InvalidRef && g[k].lids != [])
    && (forall k :: 0 <= k < |g| ==> Increasing(g[k].lids))
    && (forall k, l: nat {:trigger l in g[k].lids} :: 0 <= k < |g| && l in g[k].lids ==> l < |s| && s[l] == g[k].ref)
    && (forall k, l: nat :: 0 <= k < |g| && l < |s| && s[l] == g[k].ref ==> l in g[k].lids)
    && (forall lid :: 0 <= lid < |s| && s[lid] != InvalidRef ==> s[lid] in GroupRefs(g))
  }

  /** A pair is collected exactly when its slot holds its valid ref. */
  lemma SlotPairsExact(s: seq<EntryRef>)
    ensures forall r, l: nat :: Pair(r, l) in SlotPairs(s) <==> r != InvalidRef && l < |s| && s[l] == r
  {
    var p := SlotPairs(s);
    forall r, l: nat | Pair(r, l) in p ensures r != InvalidRef && l < |s| && s[l] == r {
      var k :| 0 <= k < |p| && p[k] == Pair(r, l);
    }
  }

  /** The pairs of a slot sequence are distinct, so they can be sorted, and
      the sorted pairs all carry valid refs. */
  lemma SortInput(s: seq<EntryRef>, p: seq<Pair>)
    requires p == SlotPairs(s)
    ensures forall i, j :: 0 <= i < j < |p| ==> p[i] != p[j]
    ensures forall k :: 0 <= k < |SortPairs(p)| ==> SortPairs(p)[k].ref != InvalidRef
  {
    LidsDistinct(p);
    var q := SortPairs(p);
    forall k | 0 <= k < |q| ensures q[k].ref != InvalidRef {
      assert q[k] in p;
    }
  }

  /** Grouping a sorted sequence holding exactly the valid (ref, lid) pairs
      of s is exact for s. */
  lemma GroupsOfSlotPairs(s: seq<EntryRef>, q: seq<Pair>)
    requires Sorted(q)
    requires forall r, l: nat :: Pair(r, l) in q <==> r != InvalidRef && l < |s| && s[l] == r
    ensures ExactFor(s, Groups(q))
  {
    var g := Groups(q);
    GroupsAscending(q);
    GroupsNonEmpty(q);
    GroupsIncreasing(q);
    GroupsLidsSound(q);
    GroupsLidsComplete(q);
    GroupsCover(q);
    forall k | 0 <= k < |g| ensures g[k].ref != InvalidRef {
      assert g[k].lids != [];
      var l := g[k].lids[0];
      assert l in g[k].lids;
      assert Pair(g[k].ref, l) in q;
    }
    forall lid | 0 <= lid < |s| && s[lid] != InvalidRef ensures s[lid] in GroupRefs(g) {
      assert Pair(s[lid], lid) in q;
    }
  }

  /** What buildReverseMapping hands the builder is exact for the slots. */
  lemma ReverseMappingGroups(s: seq<EntryRef>)
    ensures ExactFor(s, BuilderCalls(s))
  {
    var p := SlotPairs(s);
    var q := SortPairs(p);
    SlotPairsExact(s);
    GroupsOfSlotPairs(s, q);
  }

  /** The reverse mapping the builder calls of buildReverseMapping leave is
      exact for the slots. */
  lemma BuilderReverseOk(s: seq<EntryRef>)
    ensures ReverseOk(s, ReverseOf(BuilderCalls(s)))
  {
    ReverseMappingGroups(s);
    ExactReverse(s, BuilderCalls(s));
  }

  /** Distinct calls of an exact grouping get disjoint lids: each valid lid
      is handed to exactly one call. */
  lemma ExactDisjoint(s: seq<EntryRef>, g: seq<Group>)
    requires ExactFor(s, g)
    ensures forall k1, k2, l: nat :: 0 <= k1 < |g| && 0 <= k2 < |g| && l in g[k1].lids && l in g[k2].lids ==> k1 == k2
  {
    forall k1, k2, l: nat | 0 <= k1 < |g| && 0 <= k2 < |g| && l in g[k1].lids && l in g[k2].lids
      ensures k1 == k2
    {
      assert g[k1].ref == s[l] == g[k2].ref;
    }
  }

  /** Each call of an exact grouping gets exactly the lids holding its ref. */
  lemma ExactHolders(s: seq<EntryRef>, g: seq<Group>, k: nat)
    requires ExactFor(s, g) && k < |g|
    ensures Elems(g[k].lids) == LidsHolding(s, g[k].ref)
  {
    forall l: nat ensures l in Elems(g[k].lids) <==> l in LidsHolding(s, g[k].ref) {
      if l in g[k].lids {
        assert l < |s| && s[l] == g[k].ref;
      }
    }
  }

  /** The builder calls of an exact grouping leave an exact reverse mapping. */
  lemma ExactReverse(s: seq<EntryRef>, g: seq<Group>)
    requires ExactFor(s, g)
    ensures ReverseOk(s, ReverseOf(g))
  {
    ReverseOfGroups(g);
    var m := ReverseOf(g);
    forall lid | 0 <= lid < |s| && s[lid] != InvalidRef ensures s[lid] in m {
      assert s[lid] in GroupRefs(g);
      var k :| 0 <= k < |g| && g[k].ref == s[lid];
    }
    forall r | r != InvalidRef ensures LidsOf(m, r) == LidsHolding(s, r) {
      if r in m {
        assert r in GroupRefs(g);
        var k :| 0 <= k < |g| && g[k].ref == r;
        ExactHolders(s, g, k);
      } else {
        assert LidsHolding(s, r) == {};
      }
    }
  }

  /** The group still being filled by the grouping loop, if any. */
  function OpenGroup(prevRef: EntryRef, adds: seq<nat>): seq<Group>
  {
    if prevRef == InvalidRef then [] else [Group(prevRef, adds)]
  }

  /** One step of the grouping loop: a pair with a new ref closes the open
      group and opens its own; a pair with the open group's ref joins it. */
  lemma GroupingStep(emitted: seq<Group>, prevRef: EntryRef, adds: seq<nat>, done: seq<Pair>, e: Pair)
    requires e.ref != InvalidRef
    requires prevRef == InvalidRef ==> adds == [] && done == []
    requires emitted + OpenGroup(prevRef, adds) == Groups(done)
    ensures e.ref != prevRef ==>
              emitted + OpenGroup(prevRef, adds) + OpenGroup(e.ref, [e.lid]) == Groups(done + [e])
    ensures e.ref == prevRef ==> emitted + OpenGroup(prevRef, adds + [e.lid]) == Groups(done + [e])
  {
    assert (done + [e])[..|done|] == done;
    if prevRef != InvalidRef {
      var g := Groups(done);
      assert g[..|g| - 1] == emitted;
    }
  }

  lemma ReverseOfSnoc(g: seq<Group>, x: Group)
    ensures ReverseOf(g + [x]) == ReverseOf(g)[x.ref := Elems(x.lids)]
  {
    assert (g + [x])[..|g|] == g;
  }

  /** The slots s with [lo, hi) cleared, one slot at a time, in lid order:
      every slot of the range is invalid and every other slot is as in s. */
  function ClearedRange(s: seq<EntryRef>, lo: nat, hi: nat): (r: seq<EntryRef>)
    requires hi <= |s|
    decreases hi
    ensures |r| == |s|
    ensures forall lid :: 0 <= lid < |s| ==> r[lid] == if lo <= lid < hi then InvalidRef else s[lid]
  {
    if hi <= lo then s else ClearedRange(s, lo, hi - 1)[hi - 1 := InvalidRef]
  }

  /** The reverse-mapping removals clearDocs makes on slots s[lo..hi). */
  function Removals(s: seq<EntryRef>, lo: nat, hi: nat): seq<ReverseCall>
    requires hi <= |s|
    decreases hi
  {
    if hi <= lo then []
    else Removals(s, lo, hi - 1) + (if s[hi - 1] != InvalidRef then [RemoveMapping(s[hi - 1], hi - 1)] else [])
  }

  /** Before clearDocs' first slot nothing is cleared and nothing logged. */
  lemma ClearStart(s: seq<EntryRef>, c: seq<ReverseCall>, lo: nat)
    requires lo <= |s|
    ensures ClearedRange(s, lo, lo) == s
    ensures c + Removals(s, lo, lo) == c
  {
    assert Removals(s, lo, lo) == [];
  }

  /** One more slot of clearDocs: the next slot still holds its original
      ref, and clearing it extends both the cleared range and the removals. */
  lemma ClearStep(s: seq<EntryRef>, c: seq<ReverseCall>, lo: nat, i: nat)
    requires lo <= i < |s|
    ensures ClearedRange(s, lo, i)[i] == s[i]
    ensures ClearedRange(s, lo, i + 1) == ClearedRange(s, lo, i)[i := InvalidRef]
    ensures c + Removals(s, lo, i + 1) ==
            (c + Removals(s, lo, i)) + (if s[i] != InvalidRef then [RemoveMapping(s[i], i)] else [])
  {
    var t := if s[i] != InvalidRef then [RemoveMapping(s[i], i)] else [];
    assert Removals(s, lo, i + 1) == Removals(s, lo, i) + t;
    assert c + (Removals(s, lo, i) + t) == (c + Removals(s, lo, i)) + t;
  }

  /** update's store change, one count more for the ref of gid and one
      fewer for the slot's old ref, keeps the gid of every ref that was
      already stored. */
  lemma UpdateKeepsGids(e0: map<EntryRef, StoreEntry>, d0: map<GlobalId, EntryRef>, n0: EntryRef,
                        newRef: EntryRef, gid: GlobalId, oldRef: EntryRef)
    requires ShapeOk(e0, d0, n0)
    requires gid in d0 ==> newRef == d0[gid]
    requires gid !in d0 ==> newRef !in e0
    ensures forall r :: r in Dec(Inc(e0, newRef, gid), oldRef) && r in e0 ==>
                        Dec(Inc(e0, newRef, gid), oldRef)[r].gid == e0[r].gid
  {
    if newRef in e0 {
      assert d0[gid] == newRef;
    }
  }

  /** Slots other than doc keep their ref, and a ref still stored keeps its
      gid: every other valid slot refers to the same gid as before. */
  lemma OtherSlotsKept(s0: seq<EntryRef>, e0: map<EntryRef, StoreEntry>, s1: seq<EntryRef>, e1: map<EntryRef, StoreEntry>, doc: nat)
    requires CountsOk(s0, e0) && CountsOk(s1, e1)
    requires doc < |s0| && |s1| == |s0| && s1 == s0[doc := s1[doc]]
    requires forall r :: r in e1 && r in e0 ==> e1[r].gid == e0[r].gid
    ensures forall d :: 0 <= d < |s0| && d != doc && s0[d] != InvalidRef ==>
                        s1[d] == s0[d] && s0[d] in e0 && s0[d] in e1 && e1[s0[d]].gid == e0[s0[d]].gid
  {
    forall d | 0 <= d < |s0| && d != doc && s0[d] != InvalidRef
      ensures s1[d] == s0[d] && s0[d] in e1
    {
      assert s1[d] == s0[d];
    }
  }

  /** The reverse-mapping removal update makes: only for a valid old ref
      that is being replaced. */
  function ReleaseCalls(oldRef: EntryRef, newRef: EntryRef, lid: nat): seq<ReverseCall>
  {
    if oldRef != InvalidRef && oldRef != newRef then [RemoveMapping(oldRef, lid)] else []
  }

  /** When update's ref is fresh, the slot's ref changes: a valid old ref
      loses its mapping for lid and the new ref always gains it. */
  lemma FreshRefCalls(e0: map<EntryRef, StoreEntry>, oldRef: EntryRef, newRef: EntryRef, lid: nat)
    requires newRef != InvalidRef && newRef !in e0 && (oldRef != InvalidRef ==> oldRef in e0)
    ensures ReleaseCalls(oldRef, newRef, lid) == (if oldRef != InvalidRef then [RemoveMapping(oldRef, lid)] else [])
    ensures AddCalls(oldRef, newRef, lid) == [AddMapping(newRef, lid)]
  {
  }

  /** The reverse mapping after update's removal step. */
  ghost function ReleaseReverse(rev: map<EntryRef, set<nat>>, oldRef: EntryRef, newRef: EntryRef, lid: nat): map<EntryRef, set<nat>>
  {
    if oldRef != InvalidRef && oldRef != newRef then RemoveLid(rev, oldRef, lid) else rev
  }

  /** The reverse mapping after update's addition step. */
  ghost function AddReverse(rev: map<EntryRef, set<nat>>, oldRef: EntryRef, newRef: EntryRef, lid: nat): map<EntryRef, set<nat>>
  {
    if oldRef != newRef then AddLid(rev, newRef, lid) else rev
  }

  /** The reverse-mapping addition update makes: only when the ref changes. */
  function AddCalls(oldRef: EntryRef, newRef: EntryRef, lid: nat): seq<ReverseCall>
  {
    if oldRef != newRef then [AddMapping(newRef, lid)] else []
  }

  // ---------------------------------------------------------------------
  // The attribute

  class ReferenceAttribute {
    /** _indices: the ref held by each document's slot. */
    var indices: seq<EntryRef>
    /** The unique store: its entries, its gid dictionary and its next free ref. */
    var entries: map<EntryRef, StoreEntry>
    var dictionary: map<GlobalId, EntryRef>
    var nextRef: EntryRef
    /** The reverse mapping, ref -> lids, and the calls made into it. */
    ghost var reverse: map<EntryRef, set<nat>>
    ghost var reverseCalls: seq<ReverseCall>
    ghost var builtGroups: seq<Group>

    ghost predicate Valid()
      reads this
    {
      ShapeOk(entries, dictionary, nextRef) && CountsOk(indices, entries) && ReverseOk(indices, reverse)
    }

    constructor ()
      ensures Valid() && indices == [] && entries == map[] && reverse == map[]
      ensures reverseCalls == [] && builtGroups == []
    {
      indices := [];
      entries := map[];
      dictionary := map[];
      nextRef := 1;
      reverse := map[];
      reverseCalls := [];
      builtGroups := [];
    }

    /** The unique store's add: the existing ref of gid, or a fresh one. */
    method StoreAdd(gid: GlobalId) returns (ref: EntryRef)
      requires ShapeOk(entries, dictionary, nextRef)
      modifies this`entries, this`dictionary, this`nextRef
      ensures ShapeOk(entries, dictionary, nextRef)
      ensures ref != InvalidRef
      ensures old(gid in dictionary) ==> ref == old(dictionary[gid])
      ensures !old(gid in dictionary) ==> ref !in old(entries)
      ensures entries == Inc(old(entries), ref, gid)
    {
      if gid in dictionary {
        ref := dictionary[gid];
      } else {
        ref := nextRef;
        nextRef := nextRef + 1;
        dictionary := dictionary[gid := ref];
      }
      entries := Inc(entries, ref, gid);
    }

    /** The unique store's remove. */
    method StoreRemove(ref: EntryRef)
      requires ShapeOk(entries, dictionary, nextRef) && ref in entries
      modifies this`entries, this`dictionary
      ensures ShapeOk(entries, dictionary, nextRef)
      ensures entries == Dec(old(entries), ref)
    {
      var entry := entries[ref];
      if entry.refCount <= 1 {
        dictionary := dictionary - {entry.gid};
      }
      entries := Dec(entries, ref);
    }

    method AddReverseMapping(ref: EntryRef, lid: nat)
      modifies this`reverse, this`reverseCalls
      ensures reverse == AddLid(old(reverse), ref, lid)
      ensures reverseCalls == old(reverseCalls) + [AddMapping(ref, lid)]
    {
      reverse := AddLid(reverse, ref, lid);
      reverseCalls := reverseCalls + [AddMapping(ref, lid)];
    }

    method RemoveReverseMapping(ref: EntryRef, lid: nat)
      modifies this`reverse, this`reverseCalls
      ensures reverse == RemoveLid(old(reverse), ref, lid)
      ensures reverseCalls == old(reverseCalls) + [RemoveMapping(ref, lid)]
    {
      reverse := RemoveLid(reverse, ref, lid);
      reverseCalls := reverseCalls + [RemoveMapping(ref, lid)];
    }

    /** The per-ref builder: ref's reverse mapping becomes exactly lids. */
    method BuildOne(ref: EntryRef, lids: seq<nat>)
      modifies this`reverse, this`builtGroups
      ensures reverse == old(reverse)[ref := Elems(lids)]
      ensures builtGroups == old(builtGroups) + [Group(ref, lids)]
    {
      reverse := reverse[ref := Elems(lids)];
      builtGroups := builtGroups + [Group(ref, lids)];
    }

    /** A new document: its id is the old size and its slot is invalid. */
    method AddDoc() returns (doc: nat, ok: bool)
      requires Valid()
      modifies this`indices
      ensures Valid()
      ensures doc == old(|indices|)
      ensures indices == old(indices) + [InvalidRef]
      ensures ok
    {
      doc := |indices|;
      SlotAppend(indices);
      indices := indices + [InvalidRef];
      ok := true;
    }

    /** Clears one slot, with the reverse mapping and store bookkeeping;
        cleared tells whether the slot held a valid ref. */
    method ClearSlot(lid: nat) returns (cleared: bool)
      requires Valid() && lid < |indices|
      modifies this`indices, this`entries, this`dictionary, this`reverse, this`reverseCalls
      ensures Valid()
      ensures cleared == (old(indices[lid]) != InvalidRef)
      ensures indices == old(indices)[lid := InvalidRef]
      ensures entries == if cleared then Dec(old(entries), old(indices[lid])) else old(entries)
      ensures reverseCalls == old(reverseCalls) + (if cleared then [RemoveMapping(old(indices[lid]), lid)] else [])
    {
      var oldRef := indices[lid];
      if oldRef != InvalidRef {
        CountsAfterClear(indices, entries, lid);
        ReverseAfterClear(indices, reverse, lid);
        RemoveReverseMapping(oldRef, lid);
        indices := indices[lid := InvalidRef];
        StoreRemove(oldRef);
        cleared := true;
      } else {
        assert indices == indices[lid := InvalidRef];
        cleared := false;
      }
    }

    /** clearDoc: 1 when the slot held a valid ref, 0 otherwise; either way
        the document refers to nothing afterwards. */
    method ClearDoc(doc: nat) returns (n: nat)
      requires Valid() && doc < |indices|
      modifies this`indices, this`entries, this`dictionary, this`reverse, this`reverseCalls
      ensures Valid()
      ensures n == (if old(indices[doc]) != InvalidRef then 1 else 0)
      ensures indices == old(indices)[doc := InvalidRef]
      ensures GetReference(doc) == None
      ensures forall d :: 0 <= d < |indices| && d != doc ==> GetReference(d) == old(GetReference(d))
      ensures entries == if n == 1 then Dec(old(entries), old(indices[doc])) else old(entries)
      ensures reverseCalls == old(reverseCalls) + (if n == 1 then [RemoveMapping(old(indices[doc]), doc)] else [])
    {
      var cleared := ClearSlot(doc);
      n := if cleared then 1 else 0;
    }

    /** clearDocs: every slot of [lidLow, lidLimit) becomes invalid, the
        rest are unchanged, with one reverse-mapping removal per valid slot
        cleared, in lid order. */
    method ClearDocs(lidLow: nat, lidLimit: nat)
      requires Valid() && lidLow <= lidLimit <= |indices|
      modifies this`indices, this`entries, this`dictionary, this`reverse, this`reverseCalls
      ensures Valid()
      ensures indices == ClearedRange(old(indices), lidLow, lidLimit)
      ensures GidsKept(old(entries), entries)
      ensures forall d :: 0 <= d < |indices| && !(lidLow <= d < lidLimit) ==> GetReference(d) == old(GetReference(d))
      ensures reverseCalls == old(reverseCalls) + Removals(old(indices), lidLow, lidLimit)
    {
      ghost var s0, e0, c0 := indices, entries, reverseCalls;
      ClearStart(s0, c0, lidLow);
      for lid := lidLow to lidLimit
        invariant Valid() && ClearedUpTo(s0, e0, c0, lidLow, lid)
      {
        ClearNext(s0, e0, c0, lidLow, lid);
      }
    }

    /** clearDocs has cleared the slots of s0 in [lidLow, lid), logging a
        removal per valid one after the calls c0, and the store has only
        lost counts since it was e0. */
    ghost predicate ClearedUpTo(s0: seq<EntryRef>, e0: map<EntryRef, StoreEntry>, c0: seq<ReverseCall>, lidLow: nat, lid: nat)
      reads this
      requires lid <= |s0|
    {
      && indices == ClearedRange(s0, lidLow, lid)
      && GidsKept(e0, entries)
      && reverseCalls == c0 + Removals(s0, lidLow, lid)
    }

    /** One iteration of clearDocs: slot lid joins the cleared range. */
    method ClearNext(ghost s0: seq<EntryRef>, ghost e0: map<EntryRef, StoreEntry>, ghost c0: seq<ReverseCall>, lidLow: nat, lid: nat)
      requires Valid() && lidLow <= lid < |s0| && ClearedUpTo(s0, e0, c0, lidLow, lid)
      modifies this`indices, this`entries, this`dictionary, this`reverse, this`reverseCalls
      ensures Valid() && ClearedUpTo(s0, e0, c0, lidLow, lid + 1)
    {
      ClearStep(s0, c0, lidLow, lid);
      var _ := ClearSlot(lid);
    }

    /** update: slot doc takes the store's ref for gid; the reverse mapping
        is touched only when the slot's ref changes. */
    method Update(doc: nat, gid: GlobalId)
      requires Valid() && doc < |indices|
      modifies this`indices, this`entries, this`dictionary, this`nextRef, this`reverse, this`reverseCalls
      ensures Valid()
      ensures |indices| == old(|indices|)
      ensures indices == old(indices)[doc := indices[doc]]
      ensures indices[doc] in entries && entries[indices[doc]].gid == gid
      ensures old(gid in dictionary) ==> indices[doc] == old(dictionary[gid])
      ensures !old(gid in dictionary) ==> indices[doc] !in old(entries)
      ensures entries == Dec(Inc(old(entries), indices[doc], gid), old(indices[doc]))
      ensures forall d :: 0 <= d < |indices| && d != doc ==> GetReference(d) == old(GetReference(d))
      ensures reverseCalls == old(reverseCalls) + ReleaseCalls(old(indices[doc]), indices[doc], doc)
                                                + AddCalls(old(indices[doc]), indices[doc], doc)
      ensures !old(gid in dictionary) ==>
                reverseCalls == old(reverseCalls)
                                + (if old(indices[doc]) != InvalidRef then [RemoveMapping(old(indices[doc]), doc)] else [])
                                + [AddMapping(indices[doc], doc)]
    {
      ghost var s0, e0, d0, n0 := indices, entries, dictionary, nextRef;
      var newRef := StoreAdd(gid);
      UpdateKeepsGids(e0, d0, n0, newRef, gid, s0[doc]);
      if gid !in d0 {
        FreshRefCalls(e0, s0[doc], newRef, doc);
      }
      SetSlot(doc, e0, newRef, gid);
      OtherSlotsKept(s0, e0, indices, entries, doc);
      forall d | 0 <= d < |indices| && d != doc
        ensures GetReference(d) == old(GetReference(d))
      {
        assert indices[d] == s0[d];
      }
    }

    /** The rest of update, once the store holds newRef for gid with one
        more count than the store e0 the slots were counted in. */
    method SetSlot(doc: nat, ghost e0: map<EntryRef, StoreEntry>, newRef: EntryRef, gid: GlobalId)
      requires ShapeOk(entries, dictionary, nextRef) && CountsOk(indices, e0) && ReverseOk(indices, reverse)
      requires doc < |indices| && newRef != InvalidRef && entries == Inc(e0, newRef, gid)
      modifies this`indices, this`entries, this`dictionary, this`reverse, this`reverseCalls
      ensures Valid()
      ensures indices == old(indices)[doc := newRef]
      ensures entries == Dec(old(entries), old(indices[doc]))
      ensures newRef in entries && entries[newRef].gid == gid
      ensures reverseCalls == old(reverseCalls) + ReleaseCalls(old(indices[doc]), newRef, doc)
                                                + AddCalls(old(indices[doc]), newRef, doc)
    {
      var oldRef := indices[doc];
      CountsAfterUpdate(indices, e0, doc, newRef, gid);
      ReverseAfterUpdate(indices, reverse, doc, newRef);
      indices := indices[doc := newRef];
      UpdateTail(oldRef, newRef, doc);
    }

    /** The tail of update, after the slot is written: a valid old ref that
        is replaced loses its reverse mapping for lid, a valid old ref loses
        one count in the store, and a changed ref gains lid. */
    method UpdateTail(oldRef: EntryRef, newRef: EntryRef, lid: nat)
      requires ShapeOk(entries, dictionary, nextRef)
      requires oldRef != InvalidRef ==> oldRef in entries
      modifies this`entries, this`dictionary, this`reverse, this`reverseCalls
      ensures ShapeOk(entries, dictionary, nextRef)
      ensures entries == Dec(old(entries), oldRef)
      ensures reverse == AddReverse(ReleaseReverse(old(reverse), oldRef, newRef, lid), oldRef, newRef, lid)
      ensures reverseCalls == old(reverseCalls) + ReleaseCalls(oldRef, newRef, lid) + AddCalls(oldRef, newRef, lid)
    {
      if oldRef != InvalidRef {
        if oldRef != newRef {
          RemoveReverseMapping(oldRef, lid);
        }
        StoreRemove(oldRef);
      }
      if oldRef != newRef {
        AddReverseMapping(newRef, lid);
      }
    }

    /** getReference: nothing for an invalid slot, else the referenced gid. */
    function GetReference(doc: nat): (r: Option<GlobalId>)
      reads this
      requires Valid() && doc < |indices|
      ensures r.None? <==> indices[doc] == InvalidRef
      ensures r.Some? ==> indices[doc] in entries && r.value == entries[indices[doc]].gid
    {
      var ref := indices[doc];
      if ref == InvalidRef then None else Some(entries[ref].gid)
    }

    /** Two documents hold the same ref exactly when they refer to the same
        gid: the store keeps one entry per gid. */
    lemma SameRefSameGid(a: nat, b: nat)
      requires Valid() && a < |indices| && b < |indices|
      ensures indices[a] == indices[b] <==> GetReference(a) == GetReference(b)
    {
      if GetReference(a) == GetReference(b) && indices[a] != InvalidRef {
        var g := GetReference(a).value;
        assert dictionary[g] == indices[a] && dictionary[g] == indices[b];
      }
    }

    /** getIndicesCopy: the first size slots. */
    function GetIndicesCopy(size: nat): (copy: seq<EntryRef>)
      reads this
      requires size <= |indices|
      ensures |copy| == size
      ensures forall lid :: 0 <= lid < size ==> copy[lid] == indices[lid]
    {
      indices[..size]
    }

    /** onShrinkLidSpace: the slots are cut down to the committed limit; the
        slots dropped have already been cleared. */
    method OnShrinkLidSpace(committedDocIdLimit: nat)
      requires Valid() && committedDocIdLimit <= |indices|
      requires forall lid :: committedDocIdLimit <= lid < |indices| ==> indices[lid] == InvalidRef
      modifies this`indices
      ensures Valid()
      ensures indices == old(indices)[..committedDocIdLimit]
    {
      SlotTruncate(indices, committedDocIdLimit);
      indices := indices[..committedDocIdLimit];
    }

    /** The first loop of buildReverseMapping: the pairs of the valid slots. */
    method CollectPairs() returns (pairs: seq<Pair>)
      ensures pairs == SlotPairs(indices)
    {
      pairs := [];
      var numDocs := |indices|;
      for lid := 0 to numDocs
        invariant pairs == SlotPairs(indices[..lid])
      {
        var ref := indices[lid];
        if ref != InvalidRef {
          pairs := pairs + [Pair(ref, lid)];
        }
        assert indices[..lid + 1][..lid] == indices[..lid];
      }
      assert indices[..numDocs] == indices;
    }

    /** The second loop of buildReverseMapping: one builder call per run of
        equal refs in sorted. */
    method BuildGroups(sorted: seq<Pair>)
      requires reverse == map[]
      requires forall k :: 0 <= k < |sorted| ==> sorted[k].ref != InvalidRef
      modifies this`reverse, this`builtGroups
      ensures builtGroups == Groups(sorted)
      ensures reverse == ReverseOf(Groups(sorted))
    {
      builtGroups := [];
      var prevRef := InvalidRef;
      var adds: seq<nat> := [];
      for i := 0 to |sorted|
        invariant (prevRef == InvalidRef) == (i == 0)
        invariant prevRef == InvalidRef ==> adds == []
        invariant builtGroups + OpenGroup(prevRef, adds) == Groups(sorted[..i])
        invariant reverse == ReverseOf(builtGroups)
      {
        var elem := sorted[i];
        assert sorted[..i + 1] == sorted[..i] + [elem];
        GroupingStep(builtGroups, prevRef, adds, sorted[..i], elem);
        if elem.ref != prevRef {
          if prevRef != InvalidRef {
            ReverseOfSnoc(builtGroups, Group(prevRef, adds));
            BuildOne(prevRef, adds);
          }
          prevRef := elem.ref;
          adds := [elem.lid];
        } else {
          adds := adds + [elem.lid];
        }
      }
      if prevRef != InvalidRef {
        ReverseOfSnoc(builtGroups, Group(prevRef, adds));
        BuildOne(prevRef, adds);
      }
      assert sorted[..|sorted|] == sorted;
    }

    /** buildReverseMapping: collects the (ref, lid) pairs of the valid
        slots, sorts them, and calls the per-ref builder once per run of
        equal refs. Starting from an empty reverse mapping it leaves one that
        is exact for every valid ref. */
    method BuildReverseMapping()
      requires ShapeOk(entries, dictionary, nextRef) && CountsOk(indices, entries) && reverse == map[]
      modifies this`reverse, this`builtGroups
      ensures Valid()
      ensures builtGroups == BuilderCalls(indices)
    {
      var pairs := CollectPairs();
      SortInput(indices, pairs);
      var sorted := SortPairs(pairs);
      BuilderReverseOk(indices);
      BuildGroups(sorted);
    }
  }
}
