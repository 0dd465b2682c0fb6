/** The doubly linked lists of the bins, as sequences of header addresses. */
module HeapLists {
  import opened HeapMem

  function NextOf(l: seq<nat>, i: nat): nat
    requires i < |l|
  {
    if i + 1 < |l| then l[i + 1] else 0
  }

  /** Following the links from head visits the addresses of l; the back link of the head is not read. */
  ghost predicate ListAt(nodes: map<nat, Node>, head: nat, l: seq<nat>) {
    && head == (if l == [] then 0 else l[0])
    && (forall i :: 0 <= i < |l| ==> l[i] != 0 && l[i] in nodes && nodes[l[i]].next == NextOf(l, i))
    && (forall i :: 0 < i < |l| ==> nodes[l[i]].prev == l[i - 1])
    && (forall i, j :: 0 <= i < j < |l| ==> l[i] != l[j])
  }

  ghost predicate SortedAt(nodes: map<nat, Node>, l: seq<nat>) {
    forall i, j :: 0 <= i < j < |l| && l[i] in nodes && l[j] in nodes ==> nodes[l[i]].size <= nodes[l[j]].size
  }

  /** Every bin is a list, and no header is in two bins. */
  ghost predicate ListsOk(nodes: map<nat, Node>, bins: seq<nat>, lists: seq<seq<nat>>) {
    && |bins| == |lists| == BIN_COUNT
    && (forall b :: 0 <= b < BIN_COUNT ==> ListAt(nodes, bins[b], lists[b]))
    && (forall b, c, i, j :: 0 <= b < c < BIN_COUNT && 0 <= i < |lists[b]| && 0 <= j < |lists[c]| ==>
          lists[b][i] != lists[c][j])
  }

  /** x comes before y in the list. */
  ghost predicate Before(l: seq<nat>, x: nat, y: nat) {
    exists i, j :: 0 <= i < j < |l| && l[i] == x && l[j] == y
  }

  lemma {:induction false} BeforeOneWay(l: seq<nat>, x: nat, y: nat)
    requires forall i, j :: 0 <= i < j < |l| ==> l[i] != l[j]
    ensures !(Before(l, x, y) && Before(l, y, x))
  {}

  /** Position k of the list is where the larger headers start. */
  ghost predicate Splits(nodes: map<nat, Node>, l: seq<nat>, k: nat, size: nat) {
    k <= |l| && forall i :: 0 <= i < |l| ==> l[i] in nodes && (i < k <==> nodes[l[i]].size <= size)
  }

  function Inserted(l: seq<nat>, k: nat, node: nat): (r: seq<nat>)
    requires k <= |l|
  {
    l[..k] + [node] + l[k..]
  }

  function Removed(l: seq<nat>, k: nat): (r: seq<nat>)
    requires k < |l|
  {
    l[..k] + l[k + 1..]
  }

  lemma {:induction false} InsertedAt(l: seq<nat>, k: nat, node: nat)
    requires k <= |l|
    ensures var r := Inserted(l, k, node);
            && |r| == |l| + 1 && r[k] == node
            && (forall i :: 0 <= i < k ==> r[i] == l[i])
            && (forall i :: k < i < |r| ==> r[i] == l[i - 1])
  {}

  lemma {:induction false} RemovedAt(l: seq<nat>, k: nat)
    requires k < |l|
    ensures var r := Removed(l, k);
            && |r| == |l| - 1
            && (forall i :: 0 <= i < k ==> r[i] == l[i])
            && (forall i :: k <= i < |r| ==> r[i] == l[i + 1])
  {}

  /** The links of l with node inserted before position k. */
  ghost predicate Spliced(nodes: map<nat, Node>, nodes': map<nat, Node>, l: seq<nat>, k: nat, node: nat) {
    && k <= |l| && node in nodes' && (forall i :: 0 <= i < |l| ==> l[i] in nodes && l[i] in nodes')
    && nodes'[node].next == (if k < |l| then l[k] else 0)
    && (k > 0 ==> nodes'[node].prev == l[k - 1])
    && (forall i :: 0 <= i < |l| ==> nodes'[l[i]].next == if i + 1 == k then node else nodes[l[i]].next)
    && (forall i :: 0 <= i < |l| ==> nodes'[l[i]].prev == if i == k then node else nodes[l[i]].prev)
  }

  lemma {:induction false} SplicedEntry(nodes: map<nat, Node>, nodes': map<nat, Node>, head: nat, l: seq<nat>, k: nat, node: nat, i: nat)
    requires ListAt(nodes, head, l) && node != 0 && Spliced(nodes, nodes', l, k, node) && i <= |l|
    ensures var r := Inserted(l, k, node);
            && |r| == |l| + 1 && r[i] != 0 && r[i] in nodes' && nodes'[r[i]].next == NextOf(r, i)
            && (i > 0 ==> nodes'[r[i]].prev == r[i - 1])
  {
    hide Inserted;
    InsertedAt(l, k, node);
    if i < k {
      assert l[i] in nodes && nodes[l[i]].next == NextOf(l, i);
    } else if i > k {
      assert l[i - 1] in nodes && nodes[l[i - 1]].next == NextOf(l, i - 1);
    }
  }

  /** The links after inserting node before position k. */
  lemma {:induction false} InsertList(nodes: map<nat, Node>, nodes': map<nat, Node>, head: nat, l: seq<nat>, k: nat, node: nat)
    requires ListAt(nodes, head, l) && node !in l && node != 0 && Spliced(nodes, nodes', l, k, node)
    ensures ListAt(nodes', if k == 0 then node else head, Inserted(l, k, node))
  {
    hide Inserted;
    var r := Inserted(l, k, node);
    InsertedAt(l, k, node);
    forall i: nat | i < |r|
      ensures r[i] != 0 && r[i] in nodes' && nodes'[r[i]].next == NextOf(r, i)
      ensures i > 0 ==> nodes'[r[i]].prev == r[i - 1]
    {
      SplicedEntry(nodes, nodes', head, l, k, node, i);
    }
    InsertDistinct(l, k, node);
  }

  lemma {:induction false} InsertDistinct(l: seq<nat>, k: nat, node: nat)
    requires k <= |l| && node !in l && forall i, j :: 0 <= i < j < |l| ==> l[i] != l[j]
    ensures var r := Inserted(l, k, node); forall i, j :: 0 <= i < j < |r| ==> r[i] != r[j]
  {
    hide Inserted;
    InsertedAt(l, k, node);
  }

  /** The links of l without position k; what the new head's back link is does not matter. */
  ghost predicate Unlinked(nodes: map<nat, Node>, nodes': map<nat, Node>, l: seq<nat>, k: nat) {
    && k < |l| && (forall i :: 0 <= i < |l| && i != k ==> l[i] in nodes && l[i] in nodes')
    && (forall i :: 0 <= i < |l| && i != k ==>
          nodes'[l[i]].next == if i + 1 == k then NextOf(l, k) else nodes[l[i]].next)
    && (forall i :: 0 <= i < |l| && i != k && (k > 0 || i > 1) ==>
          nodes'[l[i]].prev == if i == k + 1 then l[k - 1] else nodes[l[i]].prev)
  }

  lemma {:induction false} UnlinkedEntry(nodes: map<nat, Node>, nodes': map<nat, Node>, head: nat, l: seq<nat>, k: nat, i: nat)
    requires ListAt(nodes, head, l) && Unlinked(nodes, nodes', l, k) && i + 1 < |l|
    ensures var r := Removed(l, k);
            && |r| == |l| - 1 && r[i] != 0 && r[i] in nodes' && nodes'[r[i]].next == NextOf(r, i)
            && (i > 0 ==> nodes'[r[i]].prev == r[i - 1])
  {
    hide Removed;
    RemovedAt(l, k);
    var p := if i < k then i else i + 1;
    assert l[p] in nodes && nodes[l[p]].next == NextOf(l, p);
  }

  /** The links after unlinking position k. */
  lemma {:induction false} RemoveList(nodes: map<nat, Node>, nodes': map<nat, Node>, head: nat, l: seq<nat>, k: nat)
    requires ListAt(nodes, head, l) && Unlinked(nodes, nodes', l, k)
    ensures ListAt(nodes', if k == 0 then NextOf(l, 0) else head, Removed(l, k))
  {
    hide Removed;
    var r := Removed(l, k);
    RemovedAt(l, k);
    forall i: nat | i < |r|
      ensures r[i] != 0 && r[i] in nodes' && nodes'[r[i]].next == NextOf(r, i)
      ensures i > 0 ==> nodes'[r[i]].prev == r[i - 1]
    {
      UnlinkedEntry(nodes, nodes', head, l, k, i);
    }
  }

  lemma {:induction false} InsertSorted(nodes: map<nat, Node>, l: seq<nat>, k: nat, node: nat)
    requires SortedAt(nodes, l) && k <= |l| && node in nodes && forall i :: 0 <= i < |l| ==> l[i] in nodes
    requires forall i :: 0 <= i < k ==> nodes[l[i]].size <= nodes[node].size
    requires k < |l| ==> nodes[l[k]].size > nodes[node].size
    ensures SortedAt(nodes, Inserted(l, k, node))
  {
    var r := Inserted(l, k, node);
    forall i, j | 0 <= i < j < |r|
      ensures nodes[r[i]].size <= nodes[r[j]].size
    {
      assert i < k ==> r[i] == l[i];
      assert i > k ==> r[i] == l[i - 1];
      assert j < k ==> r[j] == l[j];
      assert j > k ==> r[j] == l[j - 1];
      if i == k && j > k + 1 {
        assert nodes[l[k]].size <= nodes[l[j - 1]].size;
      }
    }
  }

  lemma {:induction false} InsertedElements(l: seq<nat>, k: nat, node: nat)
    requires k <= |l|
    ensures forall a :: a in Inserted(l, k, node) <==> a in l || a == node
  {
    assert l == l[..k] + l[k..];
  }

  lemma {:induction false} RemovedElements(l: seq<nat>, k: nat)
    requires k < |l| && forall i, j :: 0 <= i < j < |l| ==> l[i] != l[j]
    ensures forall a :: a in Removed(l, k) <==> a in l && a != l[k]
  {
    var r := Removed(l, k);
    forall a | a in l && a != l[k]
      ensures a in r
    {
      var i :| 0 <= i < |l| && l[i] == a;
      assert r[if i < k then i else i - 1] == a;
    }
    forall a | a in r
      ensures a in l && a != l[k]
    {
      var i :| 0 <= i < |r| && r[i] == a;
      assert l[if i < k then i else i + 1] == a;
    }
  }

  /** The header is in no bin other than b. */
  ghost predicate NotElsewhere(lists: seq<seq<nat>>, b: nat, a: nat) {
    forall c, i :: 0 <= c < |lists| && c != b && 0 <= i < |lists[c]| ==> lists[c][i] != a
  }

  /** Replacing one list while the headers of the others keep their links. */
  lemma {:induction false} ReplaceList(nodes: map<nat, Node>, nodes': map<nat, Node>, bins: seq<nat>, lists: seq<seq<nat>>,
                    b: nat, head: nat, l: seq<nat>)
    requires ListsOk(nodes, bins, lists) && b < BIN_COUNT && ListAt(nodes', head, l)
    requires forall c, i :: 0 <= c < BIN_COUNT && c != b && 0 <= i < |lists[c]| ==>
               lists[c][i] in nodes' && nodes'[lists[c][i]] == nodes[lists[c][i]]
    requires forall i :: 0 <= i < |l| ==> NotElsewhere(lists, b, l[i])
    ensures ListsOk(nodes', bins[b := head], lists[b := l])
  {
    var bins', lists' := bins[b := head], lists[b := l];
    forall c | 0 <= c < BIN_COUNT
      ensures ListAt(nodes', bins'[c], lists'[c])
    {
      if c != b {
        assert ListAt(nodes, bins[c], lists[c]);
      }
    }
    forall c, d, i, j | 0 <= c < d < BIN_COUNT && 0 <= i < |lists'[c]| && 0 <= j < |lists'[d]|
      ensures lists'[c][i] != lists'[d][j]
    {
      if c == b {
        assert NotElsewhere(lists, b, l[i]);
      } else if d == b {
        assert NotElsewhere(lists, b, l[j]);
      }
    }
  }

  /** The headers that change when node goes in before position k. */
  ghost predicate SplicedHeads(nodes: map<nat, Node>, nodes': map<nat, Node>, l: seq<nat>, k: nat, node: nat,
                               heads: set<nat>)
  {
    && k <= |l| && node in heads && heads <= nodes.Keys && heads <= nodes'.Keys
    && (forall i :: 0 <= i < |l| ==> l[i] in heads)
    && nodes'[node].next == (if k < |l| then l[k] else 0)
    && (k > 0 ==> nodes'[node].prev == l[k - 1])
    && (k > 0 ==> nodes'[l[k - 1]] == nodes[l[k - 1]].(next := node))
    && (k < |l| ==> nodes'[l[k]] == nodes[l[k]].(prev := node))
    && (forall a :: a in heads && a != node && (k > 0 ==> a != l[k - 1]) && (k < |l| ==> a != l[k]) ==>
          nodes'[a] == nodes[a])
  }

  lemma {:induction false} SplicedFromHeads(nodes: map<nat, Node>, nodes': map<nat, Node>, head: nat, l: seq<nat>, k: nat, node: nat,
                         heads: set<nat>)
    requires ListAt(nodes, head, l) && node !in l && SplicedHeads(nodes, nodes', l, k, node, heads)
    ensures Spliced(nodes, nodes', l, k, node)
    ensures forall a :: a in heads && a != node && a !in l ==> nodes'[a] == nodes[a]
  {
    forall i | 0 <= i < |l|
      ensures nodes'[l[i]].next == if i + 1 == k then node else nodes[l[i]].next
      ensures nodes'[l[i]].prev == if i == k then node else nodes[l[i]].prev
    {
      if i + 1 != k && i != k {
        assert nodes'[l[i]] == nodes[l[i]];
      }
    }
  }

  /** The headers that change when position k, not the first, is unlinked. */
  ghost predicate UnlinkedHeads(nodes: map<nat, Node>, nodes': map<nat, Node>, l: seq<nat>, k: nat, heads: set<nat>) {
    && 0 < k < |l| && heads <= nodes.Keys && heads <= nodes'.Keys
    && (forall i :: 0 <= i < |l| ==> l[i] in heads)
    && nodes'[l[k - 1]] == nodes[l[k - 1]].(next := NextOf(l, k))
    && (k + 1 < |l| ==> nodes'[l[k + 1]] == nodes[l[k + 1]].(prev := l[k - 1]))
    && (forall a :: a in heads && a != l[k - 1] && (k + 1 < |l| ==> a != l[k + 1]) ==> nodes'[a] == nodes[a])
  }

  lemma {:induction false} UnlinkedFromHeads(nodes: map<nat, Node>, nodes': map<nat, Node>, head: nat, l: seq<nat>, k: nat, heads: set<nat>)
    requires ListAt(nodes, head, l) && UnlinkedHeads(nodes, nodes', l, k, heads)
    ensures Unlinked(nodes, nodes', l, k)
    ensures forall a :: a in heads && a !in l ==> nodes'[a] == nodes[a]
  {
    forall i | 0 <= i < |l| && i != k
      ensures nodes'[l[i]].next == if i + 1 == k then NextOf(l, k) else nodes[l[i]].next
      ensures nodes'[l[i]].prev == if i == k + 1 then l[k - 1] else nodes[l[i]].prev
    {
      if i + 1 != k && i != k + 1 {
        assert nodes'[l[i]] == nodes[l[i]];
      }
    }
  }

  lemma {:induction false} LinkSizes(m: Mem, m': Mem, heads: set<nat>, l: seq<nat>)
    requires OnlyLinks(m, m', heads) && forall i :: 0 <= i < |l| ==> l[i] in heads
    ensures forall a :: a in heads ==> a in m.nodes && a in m'.nodes && m'.nodes[a].size == m.nodes[a].size
    ensures forall a :: a in heads ==> m'.nodes[a].hole == m.nodes[a].hole
    ensures forall i :: 0 <= i < |l| ==>
              l[i] in m.nodes && l[i] in m'.nodes && m'.nodes[l[i]].size == m.nodes[l[i]].size
  {}

  lemma {:induction false} SizesKeepSorted(nodes: map<nat, Node>, nodes': map<nat, Node>, l: seq<nat>)
    requires SortedAt(nodes, l)
    requires forall i :: 0 <= i < |l| ==> l[i] in nodes && l[i] in nodes' && nodes'[l[i]].size == nodes[l[i]].size
    ensures SortedAt(nodes', l)
  {}

  /** The headers of bin b are in no other bin. */
  lemma {:induction false} ListedOnce(nodes: map<nat, Node>, bins: seq<nat>, lists: seq<seq<nat>>, b: nat, i: nat)
    requires ListsOk(nodes, bins, lists) && b < BIN_COUNT && i < |lists[b]|
    ensures NotElsewhere(lists, b, lists[b][i])
  {
    hide ListAt;
    forall c, j | 0 <= c < |lists| && c != b && 0 <= j < |lists[c]| ensures lists[c][j] != lists[b][i] {
      if c < b {
        assert lists[c][j] != lists[b][i];
      } else {
        assert lists[b][i] != lists[c][j];
      }
    }
  }

  lemma {:induction false} InsertNotElsewhere(nodes: map<nat, Node>, bins: seq<nat>, lists: seq<seq<nat>>, b: nat, k: nat, node: nat)
    requires ListsOk(nodes, bins, lists) && b < BIN_COUNT && k <= |lists[b]| && NotElsewhere(lists, b, node)
    ensures forall i :: 0 <= i <= |lists[b]| ==> NotElsewhere(lists, b, Inserted(lists[b], k, node)[i])
  {
    hide Inserted, ListAt, NotElsewhere;
    var l := lists[b];
    InsertedAt(l, k, node);
    forall i | 0 <= i <= |l| ensures NotElsewhere(lists, b, Inserted(l, k, node)[i]) {
      if i < k {
        ListedOnce(nodes, bins, lists, b, i);
      } else if i > k {
        ListedOnce(nodes, bins, lists, b, i - 1);
      }
    }
  }

  ghost predicate AllIn(lists: seq<seq<nat>>, heads: set<nat>) {
    forall b, i :: 0 <= b < |lists| && 0 <= i < |lists[b]| ==> lists[b][i] in heads
  }

  /** Inserting node into bin b keeps the bins, and the order of bin b. */
  lemma {:induction false} AfterInsert(m: Mem, m': Mem, bins: seq<nat>, lists: seq<seq<nat>>, b: nat, k: nat, node: nat, heads: set<nat>)
    requires ListsOk(m.nodes, bins, lists) && b < BIN_COUNT && AllIn(lists, heads) && node in heads && 0 !in heads
    requires node !in lists[b] && NotElsewhere(lists, b, node)
    requires OnlyLinks(m, m', heads) && SplicedHeads(m.nodes, m'.nodes, lists[b], k, node, heads)
    ensures var r := Inserted(lists[b], k, node);
            && ListsOk(m'.nodes, bins[b := if k == 0 then node else bins[b]], lists[b := r])
            && AllIn(lists[b := r], heads)
            && (forall a :: a in r <==> a in lists[b] || a == node)
            && (forall a :: a in heads && a != node && a !in lists[b] ==> a in m.nodes && a in m'.nodes && m'.nodes[a] == m.nodes[a])
  {
    hide OnlyLinks, Inserted, SplicedHeads, Spliced;
    var l := lists[b];
    assert ListAt(m.nodes, bins[b], l);
    SplicedParts(m.nodes, m'.nodes, l, k, node, heads);
    SplicedFromHeads(m.nodes, m'.nodes, bins[b], l, k, node, heads);
    InsertList(m.nodes, m'.nodes, bins[b], l, k, node);
    InsertedElements(l, k, node);
    InsertNotElsewhere(m.nodes, bins, lists, b, k, node);
    InsertedAt(l, k, node);
    OthersKept(m.nodes, m'.nodes, bins, lists, b, heads, node);
    ReplaceList(m.nodes, m'.nodes, bins, lists, b, if k == 0 then node else bins[b], Inserted(l, k, node));
    AllInReplaced(lists, b, Inserted(l, k, node), heads);
  }

  lemma {:induction false} AllInReplaced(lists: seq<seq<nat>>, b: nat, r: seq<nat>, heads: set<nat>)
    requires AllIn(lists, heads) && b < |lists| && forall a :: a in r ==> a in heads
    ensures AllIn(lists[b := r], heads)
  {}

  lemma {:induction false} SplicedParts(nodes: map<nat, Node>, nodes': map<nat, Node>, l: seq<nat>, k: nat, node: nat, heads: set<nat>)
    requires SplicedHeads(nodes, nodes', l, k, node, heads)
    ensures k <= |l| && heads <= nodes.Keys && heads <= nodes'.Keys
  {}

  /** Headers of other bins keep their links. */
  lemma {:induction false} OthersKept(nodes: map<nat, Node>, nodes': map<nat, Node>, bins: seq<nat>, lists: seq<seq<nat>>, b: nat,
                   heads: set<nat>, node: nat)
    requires ListsOk(nodes, bins, lists) && b < BIN_COUNT && AllIn(lists, heads)
    requires heads <= nodes.Keys && heads <= nodes'.Keys && (node == 0 || NotElsewhere(lists, b, node))
    requires forall a :: a in heads && a != node && a !in lists[b] ==> nodes'[a] == nodes[a]
    ensures forall c, i :: 0 <= c < BIN_COUNT && c != b && 0 <= i < |lists[c]| ==>
              lists[c][i] in nodes' && nodes'[lists[c][i]] == nodes[lists[c][i]]
  {
    forall c, i | 0 <= c < BIN_COUNT && c != b && 0 <= i < |lists[c]|
      ensures lists[c][i] !in lists[b] && lists[c][i] != node
    {
      assert ListAt(nodes, bins[c], lists[c]);
    }
  }

  lemma {:induction false} InsertKeepsSorted(m: Mem, m': Mem, l: seq<nat>, k: nat, node: nat, heads: set<nat>)
    requires OnlyLinks(m, m', heads) && SortedAt(m.nodes, l) && k <= |l| && node in heads
    requires forall i :: 0 <= i < |l| ==> l[i] in heads
    requires heads <= m.nodes.Keys && Splits(m.nodes, l, k, m.nodes[node].size)
    ensures SortedAt(m'.nodes, Inserted(l, k, node))
  {
    hide OnlyLinks, Inserted, SortedAt;
    LinkSizes(m, m', heads, l);
    SizesKeepSorted(m.nodes, m'.nodes, l);
    InsertSorted(m'.nodes, l, k, node);
  }

  /** Unlinking position k of bin b keeps the bins; the head case writes no header. */
  lemma {:induction false} AfterRemove(m: Mem, m': Mem, bins: seq<nat>, lists: seq<seq<nat>>, b: nat, k: nat, heads: set<nat>)
    requires ListsOk(m.nodes, bins, lists) && b < BIN_COUNT && k < |lists[b]| && AllIn(lists, heads)
    requires heads <= m.nodes.Keys
    requires if k == 0 then m' == m else UnlinkedHeads(m.nodes, m'.nodes, lists[b], k, heads)
    ensures var r := Removed(lists[b], k);
            && ListsOk(m'.nodes, bins[b := if k == 0 then NextOf(lists[b], 0) else bins[b]], lists[b := r])
            && AllIn(lists[b := r], heads)
            && (forall a :: a in r <==> a in lists[b] && a != lists[b][k])
            && (forall a :: a in heads && a !in lists[b] ==> a in m'.nodes && m'.nodes[a] == m.nodes[a])
  {
    hide Removed, UnlinkedHeads, Unlinked;
    var l := lists[b];
    assert ListAt(m.nodes, bins[b], l);
    UnlinkedAt(m.nodes, m'.nodes, bins[b], l, k, heads);
    RemoveList(m.nodes, m'.nodes, bins[b], l, k);
    RemovedElements(l, k);
    RemovedAt(l, k);
    OthersKept(m.nodes, m'.nodes, bins, lists, b, heads, 0);
    ReplaceList(m.nodes, m'.nodes, bins, lists, b, if k == 0 then NextOf(l, 0) else bins[b], Removed(l, k));
    AllInReplaced(lists, b, Removed(l, k), heads);
  }

  lemma {:induction false} UnlinkedAt(nodes: map<nat, Node>, nodes': map<nat, Node>, head: nat, l: seq<nat>, k: nat, heads: set<nat>)
    requires ListAt(nodes, head, l) && k < |l| && heads <= nodes.Keys && forall i :: 0 <= i < |l| ==> l[i] in heads
    requires if k == 0 then nodes' == nodes else UnlinkedHeads(nodes, nodes', l, k, heads)
    ensures Unlinked(nodes, nodes', l, k) && heads <= nodes'.Keys
    ensures forall a :: a in heads && a !in l ==> nodes'[a] == nodes[a]
  {
    if k > 0 {
      UnlinkedFromHeads(nodes, nodes', head, l, k, heads);
    }
  }
}
