/**
 * BPlusTree of ix/ix.cc: a map from page id to node contents, a root
 * pointer, and the file handle that hands out page ids. The operations
 * follow the C++ step by step, including its inverted `createNode` checks:
 * a call that would dereference a null pointer, read an empty deque or
 * insert a deque into itself ends in Outcome.Undefined, and one that
 * reaches the end of a non-void function ends in Outcome.FallsOff.
 */
module BTree {
  import opened Types
  import opened Wrappers
  import opened IxKey
  import opened IxFile
  import opened BTreeNode

  /**
   * The shape every reachable node has. `height` gives leaves 0 and each
   * index node one more than its children; `detached` holds the index
   * nodes created empty by a call that then returned early, which no node
   * points to.
   */
  ghost predicate NodeOK(nodes: map<int, Node>, height: map<int, nat>, detached: set<int>, p: int)
    requires p in nodes && p in height
  {
    var n := nodes[p];
    (n.leaf <==> height[p] == 0) &&
    (n.leaf ==> n.children == []) &&
    (p in detached ==> !n.leaf && n.entries == [] && n.children == [] && n.right == INVALID_PID) &&
    (!n.leaf && p !in detached ==>
      |n.children| == |n.entries| + 1 &&
      forall i | 0 <= i < |n.children| ::
        n.children[i] in nodes && n.children[i] in height && n.children[i] !in detached &&
        height[n.children[i]] + 1 == height[p]) &&
    (n.right != INVALID_PID ==>
      n.right in nodes && n.right in height && n.right !in detached && height[n.right] == height[p])
  }

  ghost predicate Shape(nodes: map<int, Node>, height: map<int, nat>, detached: set<int>, root: Option<int>)
  {
    nodes.Keys == height.Keys && detached <= nodes.Keys &&
    (root.Some? ==> root.value in nodes && root.value !in detached) &&
    forall p {:trigger NodeOK(nodes, height, detached, p)} | p in nodes :: NodeOK(nodes, height, detached, p)
  }

  /** Registering an empty node under a fresh id keeps the shape of the others. */
  lemma AddNodeKeepsShape(nodes: map<int, Node>, height: map<int, nat>, detached: set<int>, root: Option<int>,
                          pid: int, n: Node, h: nat, det: bool)
    requires Shape(nodes, height, detached, root) && pid !in nodes
    requires n.entries == [] && n.children == [] && n.right == INVALID_PID
    requires (n.leaf <==> h == 0) && (det <==> !n.leaf)
    ensures Shape(nodes[pid := n], height[pid := h], if det then detached + {pid} else detached, root)
  {
    var nodes', height', detached' := nodes[pid := n], height[pid := h], if det then detached + {pid} else detached;
    forall p | p in nodes' ensures NodeOK(nodes', height', detached', p) {
      if p != pid {
        assert NodeOK(nodes, height, detached, p);
      }
    }
  }

  /** What the leaf step of search may return for entries e: an index, and a `found` flag that is only set at an equal key. */
  predicate LeafResultOK(e: seq<Entry>, key: Key, v: (nat, bool))
  {
    v.0 <= |e| &&
    (v.1 ==> v.0 < |e| && ValOf(e[v.0]) == key.val) &&
    (Sorted(e) && OfType(e, KeyType(key)) ==>
      (v.1 <==> Present(e, key.val)) && (!v.1 ==> v.0 == NumLess(e, key.val)))
  }

  /**
   * How the leaf step of search ends for leaf entries e of one type: an
   * empty leaf is undefined, a key of another type throws, and otherwise
   * the index and found flag of LeafResultOK are returned.
   */
  ghost predicate LeafOutcomeOK(e: seq<Entry>, key: Key, r: Outcome<(nat, bool)>)
  {
    !r.FallsOff? &&
    (r.Undefined? <==> e == []) &&
    (r.Raises? ==> r.message == MismatchMessage) &&
    (r.Returns? ==> LeafResultOK(e, key, r.value)) &&
    (e != [] && OfType(e, KeyType(key)) ==> r.Returns?) &&
    (e != [] && OfType(e, ValType(ValOf(e[0]))) && ValType(ValOf(e[0])) != KeyType(key) ==> r.Raises?)
  }

  /** The search step in a leaf (ix.cc:656-681): binary search, then the leaf tail. */
  method SearchLeaf(e: seq<Entry>, key: Key) returns (r: Outcome<(nat, bool)>)
    ensures LeafOutcomeOK(e, key, r)
  {
    if |e| == 0 {
      // entries[0] of an empty deque
      return Undefined;
    }
    var low := BinarySearch(e, key);
    if low.Throws? {
      return Raises(low.message);
    }
    var step := LeafStep(e, key, low.value);
    if step.Throws? {
      return Raises(step.message);
    }
    if Sorted(e) && OfType(e, KeyType(key)) {
      LeafStepCorrect(e, key, low.value);
    }
    return Returns(step.value);
  }

  /**
   * The search step in an index node (ix.cc:656-670, 682-692): the index of
   * the child to descend into, which for strictly sorted separators of the
   * key's type is the number of separators not above the key.
   */
  method SearchIndex(e: seq<Entry>, key: Key) returns (r: Outcome<nat>)
    ensures !r.FallsOff?
    ensures r.Undefined? <==> e == []
    ensures r.Raises? ==> r.message == MismatchMessage
    ensures r.Returns? ==> r.value <= |e|
    ensures r.Returns? && SortedStrict(e) && OfType(e, KeyType(key)) ==> r.value == NumLessEq(e, key.val)
    ensures e != [] && OfType(e, KeyType(key)) ==> r.Returns?
  {
    if |e| == 0 {
      return Undefined;
    }
    var low := BinarySearch(e, key);
    if low.Throws? {
      return Raises(low.message);
    }
    var child := ChildStep(e, key, low.value);
    if child.Throws? {
      return Raises(child.message);
    }
    if SortedStrict(e) && OfType(e, KeyType(key)) {
      StrictIsSorted(e);
      ChildStepCorrect(e, key, low.value);
    }
    return Returns(child.value);
  }

  /**
   * Replacing the contents of one node (and possibly taking it out of
   * `detached`) keeps the shape of every other node.
   */
  lemma UpdateKeepsShape(nodes: map<int, Node>, height: map<int, nat>, detached: set<int>, root: Option<int>,
                         p: int, n: Node, detached': set<int>)
    requires Shape(nodes, height, detached, root) && p in nodes
    requires detached' == detached || detached' == detached - {p}
    requires NodeOK(nodes[p := n], height, detached', p)
    ensures Shape(nodes[p := n], height, detached', root)
  {
    var nodes' := nodes[p := n];
    forall x | x in nodes' ensures NodeOK(nodes', height, detached', x) {
      if x != p {
        assert NodeOK(nodes, height, detached, x);
      }
    }
  }

  /**
   * The nodes after leaf p with contents e is split at m: p keeps e[..m]
   * and links to a new leaf holding e[m..], which takes over p's old right
   * link; every other node that existed is unchanged.
   */
  ghost predicate LeafSplitAt(before: map<int, Node>, after: map<int, Node>, p: int, e: seq<Entry>, m: nat)
    requires p in before && m <= |e|
  {
    p in after &&
    (exists q | q in after :: q !in before &&
      after[p] == before[p].(entries := e[..m], right := q) &&
      after[q] == Node(true, before[p].right, e[m..], [])) &&
    forall x | x in before && x != p :: x in after && after[x] == before[x]
  }

  /** Step k of path goes from an index node to its child at the recorded index. */
  ghost predicate LinkAt(nodes: map<int, Node>, path: Path, k: int)
  {
    0 < k < |path| && path[k - 1].0 in nodes &&
    !nodes[path[k - 1].0].leaf &&
    0 <= path[k].1 < |nodes[path[k - 1].0].children| &&
    nodes[path[k - 1].0].children[path[k].1] == path[k].0
  }

  /** The value-level form of BPlusTree.PathOK. */
  ghost predicate PathIn(nodes: map<int, Node>, detached: set<int>, path: Path)
  {
    |path| >= 1 &&
    (forall k | 0 <= k < |path| :: path[k].0 in nodes && path[k].0 !in detached) &&
    forall k | 0 < k < |path| :: LinkAt(nodes, path, k)
  }

  /** A path stays valid when no node on it but the last one changes. */
  lemma PathFrame(nodes: map<int, Node>, detached: set<int>, nodes': map<int, Node>, detached': set<int>, path: Path)
    requires PathIn(nodes, detached, path)
    requires forall k | 0 <= k < |path| :: path[k].0 in nodes' && path[k].0 !in detached'
    requires forall k | 0 <= k < |path| - 1 :: nodes'[path[k].0] == nodes[path[k].0]
    ensures PathIn(nodes', detached', path)
  {
    forall k | 0 < k < |path| ensures LinkAt(nodes', path, k) {
      assert LinkAt(nodes, path, k);
      assert nodes'[path[k - 1].0] == nodes[path[k - 1].0];
    }
  }

  /** A non-empty prefix of a path is a path. */
  lemma PathPrefix(nodes: map<int, Node>, detached: set<int>, path: Path, n: nat)
    requires PathIn(nodes, detached, path) && 1 <= n <= |path|
    ensures PathIn(nodes, detached, path[..n])
  {
    var prefix := path[..n];
    forall k | 0 <= k < |prefix| ensures prefix[k].0 in nodes && prefix[k].0 !in detached {
      assert prefix[k] == path[k];
    }
    forall k | 0 < k < |prefix| ensures LinkAt(nodes, prefix, k) {
      assert LinkAt(nodes, path, k);
      assert prefix[k] == path[k] && prefix[k - 1] == path[k - 1];
    }
  }

  /** A path extended by a child of its last node is a path. */
  lemma PathExtend(nodes: map<int, Node>, detached: set<int>, path: Path, c: int)
    requires PathIn(nodes, detached, path)
    requires !nodes[path[|path| - 1].0].leaf && 0 <= c < |nodes[path[|path| - 1].0].children|
    requires nodes[path[|path| - 1].0].children[c] in nodes && nodes[path[|path| - 1].0].children[c] !in detached
    ensures PathIn(nodes, detached, path + [(nodes[path[|path| - 1].0].children[c], c)])
  {
    var path' := path + [(nodes[path[|path| - 1].0].children[c], c)];
    forall k | 0 <= k < |path'| ensures path'[k].0 in nodes && path'[k].0 !in detached {
      if k < |path| {
        assert path'[k] == path[k];
      }
    }
    forall k | 0 < k < |path'| ensures LinkAt(nodes, path', k) {
      if k < |path| {
        assert LinkAt(nodes, path, k);
        assert path'[k] == path[k] && path'[k - 1] == path[k - 1];
      } else {
        assert path'[k - 1] == path[|path| - 1];
      }
    }
  }

  /** Adding a separator and a child of the right height keeps an index node well formed. */
  lemma AddSeparatorOK(nodes: map<int, Node>, height: map<int, nat>, detached: set<int>, p: int, i: nat, mid: Key, q: int)
    requires p in nodes && p in height && NodeOK(nodes, height, detached, p)
    requires !nodes[p].leaf && p !in detached && i <= |nodes[p].entries|
    requires q in nodes && q in height && q !in detached && height[q] + 1 == height[p]
    ensures NodeOK(nodes[p := AddSeparator(nodes[p], i, mid, q)], height, detached, p)
  {
    var n := nodes[p];
    var n' := AddSeparator(n, i, mid, q);
    forall k | 0 <= k < |n'.children|
      ensures n'.children[k] in nodes && n'.children[k] in height && n'.children[k] !in detached &&
              height[n'.children[k]] + 1 == height[p]
    {
      if k < i + 1 {
        assert n'.children[k] == n'.children[..i + 1][k] == n.children[k];
      } else if k > i + 1 {
        assert n'.children[k] == n'.children[i + 2..][k - i - 2] == n.children[k - 1];
      }
    }
  }

  /** The node that keeps the lower part of a split (ix.cc:455-469), right-linked to q. */
  function SplitLower(n: Node, m: nat, q: int): (r: Node)
    requires m < |n.entries| && (!n.leaf ==> |n.children| == |n.entries| + 1)
    ensures r.leaf == n.leaf && r.right == q && |r.entries| == m
    ensures n.leaf ==> r == n.(entries := n.entries[..m], right := q)
    ensures !n.leaf ==> |r.children| == m + 1
  {
    if n.leaf then n.(entries := SplitLeaf(n.entries, m).0, right := q)
    else
      var s := SplitIndex(n.entries, n.children, m);
      n.(entries := s.leftEntries, children := s.leftChildren, right := q)
  }

  /** The new right sibling of a split (ix.cc:455-468): the upper part and the old right link. */
  function SplitUpper(n: Node, m: nat): (r: Node)
    requires m < |n.entries| && (!n.leaf ==> |n.children| == |n.entries| + 1)
    ensures r.leaf == n.leaf && r.right == n.right
    ensures n.leaf ==> r.entries == n.entries[m..] && r.children == []
    ensures !n.leaf ==> |r.children| == |r.entries| + 1 && |r.entries| == |n.entries| - m - 1
  {
    if n.leaf then Node(true, n.right, SplitLeaf(n.entries, m).1, [])
    else
      var s := SplitIndex(n.entries, n.children, m);
      Node(false, n.right, s.rightEntries, s.rightChildren)
  }

  /**
   * Splitting node cur at m into itself and the empty node q just created
   * for it (of the same kind and height) keeps the shape; q is no longer
   * detached.
   */
  lemma SplitKeepsShape(nodes: map<int, Node>, height: map<int, nat>, detached: set<int>, root: Option<int>,
                        cur: int, q: int, m: nat)
    requires Shape(nodes, height, detached, root)
    requires cur in nodes && cur !in detached && q in nodes && q != cur && m < |nodes[cur].entries|
    requires !nodes[cur].leaf ==> |nodes[cur].children| == |nodes[cur].entries| + 1
    requires nodes[q] == NewNode(nodes[cur].leaf) && height[q] == height[cur]
    ensures Shape(nodes[q := SplitUpper(nodes[cur], m)][cur := SplitLower(nodes[cur], m, q)], height, detached - {q}, root)
  {
    var n := nodes[cur];
    assert NodeOK(nodes, height, detached, cur);
    var upper := SplitUpper(n, m);
    var lower := SplitLower(n, m, q);
    assert NodeOK(nodes[q := upper], height, detached - {q}, q) by {
      if !n.leaf {
        forall i | 0 <= i < |upper.children| ensures upper.children[i] == n.children[m + 1 + i] { }
      }
    }
    UpdateKeepsShape(nodes, height, detached, root, q, upper, detached - {q});
    var nodes' := nodes[q := upper];
    assert NodeOK(nodes'[cur := lower], height, detached - {q}, cur) by {
      if !n.leaf {
        forall i | 0 <= i < |lower.children| ensures lower.children[i] == n.children[i] { }
      }
    }
    UpdateKeepsShape(nodes', height, detached - {q}, root, cur, lower, detached - {q});
  }

  /** Every node of before is still present in after, and is still a leaf exactly when it was one. */
  ghost predicate SameKinds(before: map<int, Node>, after: map<int, Node>)
  {
    forall x | x in before :: x in after && after[x].leaf == before[x].leaf
  }

  lemma SameKindsTransitive(a: map<int, Node>, b: map<int, Node>, c: map<int, Node>)
    requires SameKinds(a, b) && SameKinds(b, c)
    ensures SameKinds(a, c)
  {
  }

  /** Overwriting or adding one node keeps the kinds of the others, and of p when its kind is kept. */
  lemma UpdateSameKinds(before: map<int, Node>, p: int, n: Node)
    requires p in before ==> n.leaf == before[p].leaf
    ensures SameKinds(before, before[p := n])
  {
  }

  /**
   * A root leaf split into itself and a fresh q, followed by the creation of
   * an unused index node nr, is the leaf split of LeafSplitAt.
   */
  lemma RootLeafSplit(before: map<int, Node>, cur: int, q: int, nr: int, m: nat)
    requires cur in before && before[cur].leaf && m < |before[cur].entries|
    requires q !in before && nr !in before && nr != q
    ensures LeafSplitAt(before, before[q := SplitUpper(before[cur], m)][cur := SplitLower(before[cur], m, q)][nr := NewNode(false)],
                        cur, before[cur].entries, m)
  {
    var after := before[q := SplitUpper(before[cur], m)][cur := SplitLower(before[cur], m, q)][nr := NewNode(false)];
    assert after[q] == Node(true, before[cur].right, before[cur].entries[m..], []);
  }

  /** In strictly sorted entries of the key's type, an entry equal to the key sits at the number of keys below it. */
  lemma FoundAtNumLess(e: seq<Entry>, key: Key, idx: nat)
    requires SortedStrict(e) && OfType(e, KeyType(key))
    requires idx < |e| && ValOf(e[idx]) == key.val
    ensures idx == NumLess(e, key.val)
  {
    StrictIsSorted(e);
    StrictUnique(e, key.val);
    PresentIffBlock(e, key.val);
    NumLessSplits(e, key.val);
    NumLessEqSplits(e, key.val);
    ValLessIrreflexive(key.val);
  }

  /**
   * For strictly sorted leaf entries of the key's type, the index and
   * found flag of LeafResultOK are the number of keys below the key and
   * whether it is present.
   */
  lemma LeafResultIndex(e: seq<Entry>, key: Key, v: (nat, bool))
    requires SortedStrict(e) && OfType(e, KeyType(key)) && LeafResultOK(e, key, v)
    ensures v.0 == NumLess(e, key.val) && (v.1 <==> Present(e, key.val))
  {
    StrictIsSorted(e);
    if v.1 {
      FoundAtNumLess(e, key, v.0);
    }
  }

  /** Replacing an entry's data keeps every key where it was, so the order and the key type stay. */
  lemma ReplaceDataKeepsOrder(e: seq<Entry>, i: nat, data: Option<i32>)
    requires i < |e|
    ensures SortedStrict(e) ==> SortedStrict(e[i := Entry(e[i].key, data)])
    ensures forall t | OfType(e, t) :: OfType(e[i := Entry(e[i].key, data)], t)
  {
    var r := e[i := Entry(e[i].key, data)];
    assert forall a | 0 <= a < |r| :: ValOf(r[a]) == ValOf(e[a]);
  }

  /** A leaf split that follows an update of p's entries to e is a split of e from the state before the update. */
  lemma LeafSplitAfterSet(before: map<int, Node>, mid: map<int, Node>, after: map<int, Node>, p: int, e: seq<Entry>, m: nat)
    requires p in before && m <= |e| && mid == before[p := before[p].(entries := e)]
    requires LeafSplitAt(mid, after, p, e, m)
    ensures LeafSplitAt(before, after, p, e, m)
  {
    var q :| q in after && q !in mid &&
      after[p] == mid[p].(entries := e[..m], right := q) &&
      after[q] == Node(true, mid[p].right, e[m..], []);
    assert after[p] == before[p].(entries := e[..m], right := q);
  }

  // ---------------------------------------------------------------------
  // The rebalancing steps of erase, statement by statement on the node map
  // (left and right may be one node when a right link points back to its
  // own node; the statements then act on it in turn)
  // ---------------------------------------------------------------------

  /** The siblings and parent a rebalancing step works on. */
  ghost predicate StepNodes(nodes: map<int, Node>, height: map<int, nat>, detached: set<int>,
                            parent: int, left: int, right: int)
  {
    parent in nodes && left in nodes && right in nodes &&
    parent in height && left in height && right in height &&
    parent !in detached && left !in detached && right !in detached &&
    !nodes[parent].leaf && height[left] + 1 == height[parent] && height[right] + 1 == height[parent]
  }

  /** Borrowing from the right sibling (ix.cc:519-530). */
  function BorrowFromRight(nodes: map<int, Node>, leaf: bool, parent: int, li: nat, left: int, right: int): (r: map<int, Node>)
    requires parent in nodes && left in nodes && right in nodes && parent != left && parent != right
    requires li < |nodes[parent].entries| && |nodes[right].entries| >= 2
    requires !leaf ==> |nodes[right].children| >= 1
    ensures r.Keys == nodes.Keys
    ensures forall x | x in nodes && x != left && x != right && x != parent :: r[x] == nodes[x]
    ensures r[parent].leaf == nodes[parent].leaf && r[parent].children == nodes[parent].children
    ensures |r[parent].entries| == |nodes[parent].entries| && r[parent].right == nodes[parent].right
  {
    if leaf then
      // left->entries.push_back(right->entries.front()); right->entries.pop_front();
      var n1 := nodes[left := nodes[left].(entries := nodes[left].entries + [nodes[right].entries[0]])];
      var n2 := n1[right := n1[right].(entries := n1[right].entries[1..])];
      // parent->entries[left_idx] = {right->entries.front().first, nullptr};
      n2[parent := n2[parent].(entries := n2[parent].entries[li := Entry(n2[right].entries[0].key, None)])]
    else
      // the first child of right moves to the end of left
      var n1 := nodes[left := nodes[left].(children := nodes[left].children + [nodes[right].children[0]])];
      var n2 := n1[right := n1[right].(children := n1[right].children[1..])];
      // the separator comes down to left and right's first entry goes up
      var n3 := n2[left := n2[left].(entries := n2[left].entries + [n2[parent].entries[li]])];
      var n4 := n3[parent := n3[parent].(entries := n3[parent].entries[li := n3[right].entries[0]])];
      n4[right := n4[right].(entries := n4[right].entries[1..])]
  }

  /** Borrowing from the left sibling (ix.cc:534-545). */
  function BorrowFromLeft(nodes: map<int, Node>, leaf: bool, parent: int, li: nat, left: int, right: int): (r: map<int, Node>)
    requires parent in nodes && left in nodes && right in nodes && parent != left && parent != right
    requires li < |nodes[parent].entries| && |nodes[left].entries| >= 2
    requires !leaf ==> |nodes[left].children| >= 1
    ensures r.Keys == nodes.Keys
    ensures forall x | x in nodes && x != left && x != right && x != parent :: r[x] == nodes[x]
    ensures r[parent].leaf == nodes[parent].leaf && r[parent].children == nodes[parent].children
    ensures |r[parent].entries| == |nodes[parent].entries| && r[parent].right == nodes[parent].right
  {
    if leaf then
      // right->entries.push_front(left->entries.back()); left->entries.pop_back();
      var le := nodes[left].entries;
      var n1 := nodes[right := nodes[right].(entries := [le[|le| - 1]] + nodes[right].entries)];
      var le1 := n1[left].entries;
      var n2 := n1[left := n1[left].(entries := le1[..|le1| - 1])];
      // parent->entries[left_idx] = {right->entries.front().first, nullptr};
      n2[parent := n2[parent].(entries := n2[parent].entries[li := Entry(n2[right].entries[0].key, None)])]
    else
      // the last child of left moves to the front of right
      var lc := nodes[left].children;
      var n1 := nodes[right := nodes[right].(children := [lc[|lc| - 1]] + nodes[right].children)];
      var lc1 := n1[left].children;
      var n2 := n1[left := n1[left].(children := lc1[..|lc1| - 1])];
      // the separator comes down to right and left's last entry goes up
      var n3 := n2[right := n2[right].(entries := [n2[parent].entries[li]] + n2[right].entries)];
      var le3 := n3[left].entries;
      var n4 := n3[parent := n3[parent].(entries := n3[parent].entries[li := le3[|le3| - 1]])];
      var le4 := n4[left].entries;
      n4[left := n4[left].(entries := le4[..|le4| - 1])]
  }

  /**
   * Merging right into left (ix.cc:552-561): left takes the separator (index
   * nodes only), right's entries and children and right's right link, and
   * the parent drops the separator and its pointer to right.
   */
  function MergeInto(nodes: map<int, Node>, leaf: bool, parent: int, li: nat, left: int, right: int): (r: map<int, Node>)
    requires parent in nodes && left in nodes && right in nodes
    requires parent != left && parent != right && left != right
    requires li < |nodes[parent].entries| && li + 1 < |nodes[parent].children|
    ensures r.Keys == nodes.Keys
    ensures forall x | x in nodes && x != left && x != parent :: r[x] == nodes[x]
    ensures r[parent] == DropSeparator(nodes[parent], li)
    ensures leaf == nodes[left].leaf ==> r[left] == Merge(Siblings(nodes[left], nodes[parent].entries[li], nodes[right]))
  {
    var l := nodes[left];
    var rt := nodes[right];
    var merged :=
      if leaf then l.(entries := l.entries + rt.entries, right := rt.right)
      else l.(entries := l.entries + [nodes[parent].entries[li]] + rt.entries,
              children := l.children + rt.children, right := rt.right);
    nodes[left := merged][parent := DropSeparator(nodes[parent], li)]
  }

  /** The children of n are nodes of height h that are not detached. */
  ghost predicate ChildrenAt(nodes: map<int, Node>, height: map<int, nat>, detached: set<int>, n: Node, h: int)
  {
    forall i | 0 <= i < |n.children| ::
      n.children[i] in nodes && n.children[i] in height && n.children[i] !in detached && height[n.children[i]] == h
  }

  /** Children drawn from two lists of good children are good. */
  lemma ChildrenFrom(nodes: map<int, Node>, height: map<int, nat>, detached: set<int>, a: Node, b: Node, c: seq<int>, h: int)
    requires ChildrenAt(nodes, height, detached, a, h) && ChildrenAt(nodes, height, detached, b, h)
    requires forall i | 0 <= i < |c| :: c[i] in a.children || c[i] in b.children
    ensures forall i | 0 <= i < |c| :: c[i] in nodes && c[i] in height && c[i] !in detached && height[c[i]] == h
  {
    forall i | 0 <= i < |c| ensures c[i] in nodes && c[i] in height && c[i] !in detached && height[c[i]] == h {
      if c[i] in a.children {
        var k :| 0 <= k < |a.children| && a.children[k] == c[i];
      } else {
        var k :| 0 <= k < |b.children| && b.children[k] == c[i];
      }
    }
  }

  /** A node of the shape's siblings keeps NodeOK when only its entries and children change as an index node should. */
  lemma SiblingOK(nodes: map<int, Node>, r: map<int, Node>, height: map<int, nat>, detached: set<int>,
                  x: int, a: Node, b: Node)
    requires r.Keys == nodes.Keys && x in nodes && x in height && x !in detached && NodeOK(nodes, height, detached, x)
    requires r[x].leaf == nodes[x].leaf && r[x].right == nodes[x].right
    requires r[x].leaf ==> r[x].children == []
    requires !r[x].leaf ==> |r[x].children| == |r[x].entries| + 1 && height[x] >= 1
    requires !r[x].leaf ==> ChildrenAt(nodes, height, detached, a, height[x] - 1) && ChildrenAt(nodes, height, detached, b, height[x] - 1)
    requires !r[x].leaf ==> forall i | 0 <= i < |r[x].children| :: r[x].children[i] in a.children || r[x].children[i] in b.children
    ensures NodeOK(r, height, detached, x)
  {
    if !r[x].leaf {
      ChildrenFrom(nodes, height, detached, a, b, r[x].children, height[x] - 1);
    }
  }

  /** Every node but x keeps NodeOK when only x and nodes no node's NodeOK depends on change. */
  lemma OthersOK(nodes: map<int, Node>, r: map<int, Node>, height: map<int, nat>, detached: set<int>, root: Option<int>, changed: set<int>)
    requires Shape(nodes, height, detached, root) && r.Keys == nodes.Keys
    requires forall x | x in nodes && x !in changed :: r[x] == nodes[x]
    requires forall x | x in changed && x in r :: NodeOK(r, height, detached, x)
    ensures Shape(r, height, detached, root)
  {
    forall x | x in r ensures NodeOK(r, height, detached, x) {
      if x !in changed {
        assert NodeOK(nodes, height, detached, x);
      }
    }
  }

  lemma BorrowRightShape(nodes: map<int, Node>, height: map<int, nat>, detached: set<int>, root: Option<int>,
                         leaf: bool, parent: int, li: nat, left: int, right: int)
    requires Shape(nodes, height, detached, root) && StepNodes(nodes, height, detached, parent, left, right)
    requires leaf <==> nodes[left].leaf
    requires li < |nodes[parent].entries| && |nodes[right].entries| >= 2
    ensures !leaf ==> |nodes[right].children| >= 1
    ensures Shape(BorrowFromRight(nodes, leaf, parent, li, left, right), height, detached, root)
  {
    assert NodeOK(nodes, height, detached, left) && NodeOK(nodes, height, detached, right);
    assert NodeOK(nodes, height, detached, parent);
    var r := BorrowFromRight(nodes, leaf, parent, li, left, right);
    var L, R := nodes[left], nodes[right];
    var h: int := height[left];
    assert ChildrenAt(nodes, height, detached, L, h - 1) && ChildrenAt(nodes, height, detached, R, h - 1) by {
      if !leaf {
        assert !R.leaf;
      }
    }
    if !leaf {
      if left == right {
        assert r[left].children == (L.children + [R.children[0]])[1..];
      } else {
        assert r[left].children == L.children + [R.children[0]];
        assert r[right].children == R.children[1..];
      }
    }
    forall i | 0 <= i < |r[left].children| ensures r[left].children[i] in L.children || r[left].children[i] in R.children {
      if left != right && i == |L.children| {
        assert r[left].children[i] == R.children[0];
      }
    }
    SiblingOK(nodes, r, height, detached, left, L, R);
    SiblingOK(nodes, r, height, detached, right, L, R);
    assert NodeOK(r, height, detached, parent);
    OthersOK(nodes, r, height, detached, root, {left, right, parent});
  }

  lemma BorrowLeftShape(nodes: map<int, Node>, height: map<int, nat>, detached: set<int>, root: Option<int>,
                        leaf: bool, parent: int, li: nat, left: int, right: int)
    requires Shape(nodes, height, detached, root) && StepNodes(nodes, height, detached, parent, left, right)
    requires leaf <==> nodes[left].leaf
    requires li < |nodes[parent].entries| && |nodes[left].entries| >= 2
    ensures !leaf ==> |nodes[left].children| >= 1
    ensures Shape(BorrowFromLeft(nodes, leaf, parent, li, left, right), height, detached, root)
  {
    assert NodeOK(nodes, height, detached, left) && NodeOK(nodes, height, detached, right);
    assert NodeOK(nodes, height, detached, parent);
    var r := BorrowFromLeft(nodes, leaf, parent, li, left, right);
    var L, R := nodes[left], nodes[right];
    var h: int := height[left];
    assert ChildrenAt(nodes, height, detached, L, h - 1) && ChildrenAt(nodes, height, detached, R, h - 1) by {
      if !leaf {
        assert !R.leaf;
      }
    }
    if !leaf {
      var lc := L.children;
      if left == right {
        assert r[left].children == ([lc[|lc| - 1]] + lc)[..|lc|];
      } else {
        assert r[right].children == [lc[|lc| - 1]] + R.children;
        assert r[left].children == lc[..|lc| - 1];
      }
      forall i | 0 <= i < |r[right].children| ensures r[right].children[i] in L.children || r[right].children[i] in R.children {
        if left != right && i > 0 {
          assert r[right].children[i] == R.children[i - 1];
        }
      }
    }
    SiblingOK(nodes, r, height, detached, left, L, R);
    SiblingOK(nodes, r, height, detached, right, L, R);
    assert NodeOK(r, height, detached, parent);
    OthersOK(nodes, r, height, detached, root, {left, right, parent});
  }

  /**
   * A merge keeps the shape. When the parent is left without separators,
   * its only child is left, which may then become the root.
   */
  lemma MergeShape(nodes: map<int, Node>, height: map<int, nat>, detached: set<int>, root: Option<int>,
                   leaf: bool, parent: int, li: nat, left: int, right: int)
    requires Shape(nodes, height, detached, root) && StepNodes(nodes, height, detached, parent, left, right)
    requires leaf <==> nodes[left].leaf
    requires left != right && li < |nodes[parent].entries| && li + 1 < |nodes[parent].children|
    requires nodes[parent].children[li] == left
    ensures Shape(MergeInto(nodes, leaf, parent, li, left, right), height, detached, root)
    ensures Shape(MergeInto(nodes, leaf, parent, li, left, right), height, detached, Some(left))
  {
    assert NodeOK(nodes, height, detached, left) && NodeOK(nodes, height, detached, right);
    assert NodeOK(nodes, height, detached, parent);
    var r := MergeInto(nodes, leaf, parent, li, left, right);
    var L, R := nodes[left], nodes[right];
    var h: int := height[left];
    assert ChildrenAt(nodes, height, detached, L, h - 1) && ChildrenAt(nodes, height, detached, R, h - 1) by {
      if !leaf {
        assert !R.leaf;
      }
    }
    if !leaf {
      assert r[left].children == L.children + R.children;
      forall i | 0 <= i < |r[left].children| ensures r[left].children[i] in L.children || r[left].children[i] in R.children {
        if i >= |L.children| {
          assert r[left].children[i] == R.children[i - |L.children|];
        }
      }
    }
    if !leaf {
      ChildrenFrom(nodes, height, detached, L, R, r[left].children, h - 1);
    }
    assert NodeOK(r, height, detached, left);
    var P := nodes[parent];
    forall i | 0 <= i < |r[parent].children|
      ensures r[parent].children[i] in P.children
    {
      if i <= li {
        assert r[parent].children[i] == P.children[i];
      } else {
        assert r[parent].children[i] == P.children[i + 1];
      }
    }
    ChildrenFrom(nodes, height, detached, P, P, r[parent].children, height[parent] - 1);
    assert NodeOK(r, height, detached, parent);
    OthersOK(nodes, r, height, detached, root, {left, parent});
    OthersOK(nodes, r, height, detached, Some(left), {left, parent});
  }

  // ---------------------------------------------------------------------
  // The leaf layer of bulkLoad
  // ---------------------------------------------------------------------

  /** leaves are distinct ids that were not in before, and every node of before is unchanged. */
  ghost predicate FreshLeaves(before: map<int, Node>, after: map<int, Node>, leaves: seq<int>)
  {
    (forall k | 0 <= k < |leaves| :: leaves[k] !in before && leaves[k] in after) &&
    (forall k, l | 0 <= k < l < |leaves| :: leaves[k] != leaves[l]) &&
    forall x | x in before :: x in after && after[x] == before[x]
  }

  /**
   * The k-th of leaves is a leaf holding chunks[k]; it links to the next
   * leaf when k + 1 < linked, and to no node otherwise.
   */
  ghost predicate LeafLayer(nodes: map<int, Node>, leaves: seq<int>, chunks: seq<seq<Entry>>, linked: int)
  {
    |leaves| <= |chunks| &&
    forall k | 0 <= k < |leaves| ::
      leaves[k] in nodes && nodes[leaves[k]] == Node(true, NextLeaf(leaves, k, linked), chunks[k], [])
  }

  /** The right link of the k-th leaf of a layer whose first `linked` leaves are linked. */
  function NextLeaf(leaves: seq<int>, k: int, linked: int): int
  {
    if 0 <= k && k + 1 < linked && k + 1 < |leaves| then leaves[k + 1] else INVALID_PID
  }

  /** The leaves made so far by the leaf loop of bulkLoad: fresh, unlinked, one per chunk. */
  ghost predicate UnlinkedLayer(before: map<int, Node>, nodes: map<int, Node>, leaves: seq<int>, chunks: seq<seq<Entry>>)
  {
    FreshLeaves(before, nodes, leaves) && |chunks| == |leaves| && LeafLayer(nodes, leaves, chunks, 0) &&
    nodes.Keys == before.Keys + LeafSet(leaves)
  }

  function LeafSet(leaves: seq<int>): set<int>
  {
    set k | 0 <= k < |leaves| :: leaves[k]
  }

  /** A new unlinked leaf holding c extends a layer of unlinked leaves. */
  lemma AddLeafToLayer(before: map<int, Node>, nodes: map<int, Node>, leaves: seq<int>, chunks: seq<seq<Entry>>,
                      p: int, c: seq<Entry>)
    requires UnlinkedLayer(before, nodes, leaves, chunks) && p !in nodes
    ensures UnlinkedLayer(before, nodes[p := Node(true, INVALID_PID, c, [])], leaves + [p], chunks + [c])
  {
    var nodes' := nodes[p := Node(true, INVALID_PID, c, [])];
    var leaves' := leaves + [p];
    forall k | 0 <= k < |leaves'| ensures leaves'[k] !in before && leaves'[k] in nodes' {
      if k < |leaves| {
        assert leaves'[k] == leaves[k];
      }
    }
    forall k, l | 0 <= k < l < |leaves'| ensures leaves'[k] != leaves'[l] {
      assert leaves'[k] == leaves[k];
      if l < |leaves| {
        assert leaves'[l] == leaves[l];
      }
    }
    forall k | 0 <= k < |leaves'|
      ensures leaves'[k] in nodes' && nodes'[leaves'[k]] == Node(true, INVALID_PID, (chunks + [c])[k], [])
    {
      if k < |leaves| {
        assert leaves'[k] == leaves[k] && (chunks + [c])[k] == chunks[k];
        assert nodes[leaves[k]] == Node(true, NextLeaf(leaves, k, 0), chunks[k], []);
        assert leaves[k] != p;
      }
    }
    assert LeafLayer(nodes', leaves', chunks + [c], 0);
    assert LeafSet(leaves') == LeafSet(leaves) + {p} by {
      forall x | x in LeafSet(leaves) ensures x in LeafSet(leaves') {
        var k :| 0 <= k < |leaves| && leaves[k] == x;
        assert leaves'[k] == x;
      }
      assert leaves'[|leaves|] == p;
    }
  }

  /**
   * What the leaf loop of bulkLoad leaves behind: fresh, unlinked leaves
   * holding the first pieces Chunk cuts sorted into, added to the nodes
   * that were there before.
   */
  ghost predicate BuiltLeaves(before: map<int, Node>, nodes: map<int, Node>, leaves: seq<int>, sorted: seq<Entry>, cap: nat)
    requires |sorted| >= 1 && cap >= 1
  {
    FreshLeaves(before, nodes, leaves) && LeafLayer(nodes, leaves, Chunk(sorted, ChunkSizes(|sorted|, cap)), 0) &&
    nodes.Keys == before.Keys + LeafSet(leaves)
  }

  lemma EmptyLayer(nodes: map<int, Node>)
    ensures UnlinkedLayer(nodes, nodes, [], [])
  {
    assert LeafSet([]) == {};
  }

  /** One iteration of the leaf loop of bulkLoad, on values: a fresh leaf holding the next group extends the loop state. */
  lemma LeafLoopStep(before: map<int, Node>, pre: map<int, Node>, nodes: map<int, Node>, leaves: seq<int>,
                     chunks: seq<seq<Entry>>, sorted: seq<Entry>, cap: nat, i: int, last: bool,
                     p: int, j: int, step: int, last': bool)
    requires 1 <= |sorted| < TWO_31 && cap >= 1 && i < |sorted| && i + cap < TWO_31
    requires UnlinkedLayer(before, pre, leaves, chunks) && LeafProgress(sorted, cap, i, last, chunks)
    requires LeafGroup(i, |sorted|, cap, last) == Returns((j, step, last'))
    requires p !in pre
    requires 0 <= i <= j <= |sorted| && nodes == pre[p := Node(true, INVALID_PID, sorted[i..j], [])]
    ensures step >= 1
    ensures UnlinkedLayer(before, nodes, leaves + [p], chunks + [sorted[i..j]])
    ensures LeafProgress(sorted, cap, i + step, last', chunks + [sorted[i..j]])
  {
    LeafProgressStep(sorted, cap, i, last, chunks, j, step, last');
    AddLeafToLayer(before, pre, leaves, chunks, p, sorted[i..j]);
  }

  /** A leaf layer of one leaf is one new node holding all the entries. */
  lemma SingleLeaf(before: map<int, Node>, nodes: map<int, Node>, leaves: seq<int>, sorted: seq<Entry>, cap: nat)
    requires 1 <= |sorted| <= cap && BuiltLeaves(before, nodes, leaves, sorted, cap) && |leaves| == 1
    ensures leaves[0] !in before && nodes == before[leaves[0] := Node(true, INVALID_PID, sorted, [])]
  {
    ChunkSizesSound(|sorted|, cap);
    assert ChunkSizes(|sorted|, cap) == [|sorted|];
    assert Chunk(sorted, [|sorted|])[0] == sorted;
    assert LeafSet(leaves) == {leaves[0]};
    var want := before[leaves[0] := Node(true, INVALID_PID, sorted, [])];
    assert nodes.Keys == want.Keys;
    forall x | x in nodes ensures nodes[x] == want[x] {
      if x == leaves[0] {
        assert nodes[leaves[0]] == Node(true, NextLeaf(leaves, 0, 0), sorted, []);
      }
    }
  }

  /**
   * When the leaf loop of bulkLoad stops, its leaves hold the first pieces
   * Chunk cuts sorted into, and all of them if the loop ran to the end.
   */
  lemma LeafLoopDone(before: map<int, Node>, nodes: map<int, Node>, leaves: seq<int>, chunks: seq<seq<Entry>>,
                     sorted: seq<Entry>, cap: nat, i: int, last: bool)
    requires |sorted| >= 1 && cap >= 1
    requires UnlinkedLayer(before, nodes, leaves, chunks) && LeafProgress(sorted, cap, i, last, chunks)
    ensures BuiltLeaves(before, nodes, leaves, sorted, cap)
    ensures i >= |sorted| <==> |leaves| == |ChunkSizes(|sorted|, cap)|
  {
    LeafProgressChunks(sorted, cap, i, last, chunks);
    var all := Chunk(sorted, ChunkSizes(|sorted|, cap));
    forall k | 0 <= k < |leaves| ensures nodes[leaves[k]] == Node(true, NextLeaf(leaves, k, 0), all[k], []) {
      assert nodes[leaves[k]] == Node(true, NextLeaf(leaves, k, 0), chunks[k], []);
    }
  }

  /** Linking leaf i - 1 to leaf i extends the linked part of a layer by one. */
  lemma LinkStep(nodes: map<int, Node>, leaves: seq<int>, chunks: seq<seq<Entry>>, i: int)
    requires LeafLayer(nodes, leaves, chunks, i) && 1 <= i < |leaves|
    requires forall k, l | 0 <= k < l < |leaves| :: leaves[k] != leaves[l]
    ensures LeafLayer(nodes[leaves[i - 1] := nodes[leaves[i - 1]].(right := leaves[i])], leaves, chunks, i + 1)
  {
    var nodes' := nodes[leaves[i - 1] := nodes[leaves[i - 1]].(right := leaves[i])];
    forall k | 0 <= k < |leaves|
      ensures leaves[k] in nodes' && nodes'[leaves[k]] == Node(true, NextLeaf(leaves, k, i + 1), chunks[k], [])
    {
      assert nodes[leaves[k]] == Node(true, NextLeaf(leaves, k, i), chunks[k], []);
      if k != i - 1 {
        assert leaves[k] != leaves[i - 1];
      }
    }
    assert LeafLayer(nodes', leaves, chunks, i + 1);
  }

  /** A descent path as BPlusTree::search builds it: (node pid, index in its parent). */
  type Path = seq<(int, int)>

  class BPlusTree {
    /** The order of the tree and the entry capacity of a node. */
    const M: int
    const MAX_ENTRY: int
    const fh: IXFileHandle
    /** nodes_: the node of each page id. */
    var nodes: map<int, Node>
    /** root_: None for a null root. */
    var root: Option<int>
    ghost var height: map<int, nat>
    ghost var detached: set<int>

    ghost predicate Valid()
      reads this, fh, fh.pages.Values
    {
      1 <= M && MAX_ENTRY == 2 * M && MAX_ENTRY < TWO_31 &&
      fh.Valid() &&
      Shape(nodes, height, detached, root) &&
      forall p | p in nodes :: 0 <= p < fh.appendPageCounter && p !in fh.freePages
    }

    /** Every node holds at most MAX_ENTRY entries. */
    ghost predicate Bounded()
      reads this
    {
      forall p | p in nodes :: |nodes[p].entries| <= MAX_ENTRY
    }

    /** The root is a leaf: the only tree shape the public operations reach. */
    ghost predicate RootIsLeaf()
      reads this
    {
      root.Some? ==> root.value in nodes && nodes[root.value].leaf
    }

    /** The root's keys are strictly increasing and all of type t. */
    ghost predicate RootSorted(t: AttrType)
      reads this
    {
      root.Some? ==>
        root.value in nodes && SortedStrict(nodes[root.value].entries) && OfType(nodes[root.value].entries, t)
    }

    /** `BPlusTree(order, file_handle)`: an empty tree of order `order` over the given file. */
    constructor(order: int, fileHandle: IXFileHandle)
      requires 1 <= order && 2 * order < TWO_31
      requires fileHandle.Valid()
      ensures Valid() && Bounded() && RootIsLeaf()
      ensures M == order && MAX_ENTRY == 2 * order && fh == fileHandle
      ensures nodes == map[] && root.None?
    {
      M := order;
      MAX_ENTRY := order * 2;
      fh := fileHandle;
      nodes := map[];
      root := None;
      height := map[];
      detached := {};
    }

    /**
     * A path from the root in which each node is the child of the one
     * before at the recorded index.
     */
    ghost predicate PathOK(path: Path)
      reads this
    {
      PathIn(nodes, detached, path)
    }

    /**
     * `createNode(leaf)`: takes a page from the file handle and registers an
     * empty node under its id. Returns(None) is the (-1, nullptr) failure.
     * A page id beyond the `int` range is treated as undefined. A new index
     * node counts as detached until it is given children.
     */
    method CreateNode(leaf: bool, ghost h: nat) returns (r: Outcome<Option<int>>)
      requires Valid() && (leaf <==> h == 0)
      modifies this, fh
      ensures r.Returns? ==> Valid()
      ensures r.Returns? || r.Undefined?
      ensures r == Returns(None) ==> nodes == old(nodes) && height == old(height) && detached == old(detached)
      ensures r.Returns? && r.value.Some? ==>
        var p := r.value.value;
        0 <= p && p !in old(nodes) &&
        nodes == old(nodes)[p := NewNode(leaf)] && height == old(height)[p := h] &&
        detached == (if leaf then old(detached) else old(detached) + {p})
      ensures old(fh.freePages) == {} ==> (r == Returns(None) <==> !old(fh.isOpen))
      ensures root == old(root) && (old(Bounded()) ==> Bounded())
    {
      var rc, page := fh.RequestNewPage();
      if rc != 0 {
        return Returns(None);
      }
      var pid := ToI32(page.pid);
      if pid < 0 {
        return Undefined;
      }
      assert pid == page.pid;
      assert pid !in nodes && pid < fh.appendPageCounter && pid !in fh.freePages;
      AddNodeKeepsShape(nodes, height, detached, root, pid, NewNode(leaf), h, !leaf);
      nodes := nodes[pid := NewNode(leaf)];
      height := height[pid := h];
      if !leaf {
        detached := detached + {pid};
      }
      return Returns(Some(pid));
    }

    /**
     * `search(key, path)`: from the last node of `path`, binary search and
     * descend until a leaf; returns the entry index there and whether the
     * key was found, and the extended path.
     */
    method Search(key: Key, path: Path) returns (r: Outcome<(nat, bool)>, path': Path)
      requires Valid() && PathOK(path)
      ensures PathOK(path') && |path'| >= |path| && path'[..|path|] == path
      ensures nodes[path[|path| - 1].0].leaf ==> path' == path && LeafOutcomeOK(nodes[path[|path| - 1].0].entries, key, r)
      ensures !r.FallsOff?
      ensures r.Raises? ==> r.message == MismatchMessage
      ensures r.Undefined? ==> nodes[path'[|path'| - 1].0].entries == []
      ensures r.Returns? ==> nodes[path'[|path'| - 1].0].leaf && LeafResultOK(nodes[path'[|path'| - 1].0].entries, key, r.value)
      ensures forall k | |path| <= k < |path'| ::
        var e := nodes[path'[k - 1].0].entries;
        SortedStrict(e) && OfType(e, KeyType(key)) ==> path'[k].1 == NumLessEq(e, key.val)
      decreases height[path[|path| - 1].0]
    {
      var p := path[|path| - 1].0;
      var n := nodes[p];
      assert NodeOK(nodes, height, detached, p);
      if n.leaf {
        r := SearchLeaf(n.entries, key);
        return r, path;
      }
      var child := SearchIndex(n.entries, key);
      match child
      case Undefined => return Undefined, path;
      case Raises(m) => return Raises(m), path;
      case Returns(c) =>
        var next := path + [(n.children[c], c)];
        PathExtend(nodes, detached, path, c);
        r, path' := Search(key, next);
        assert path'[..|path|] == next[..|path|];
    }

    /** Along a path the heights drop by one per step, so its nodes are distinct. */
    lemma PathHeights(path: Path)
      requires Valid() && PathOK(path)
      ensures forall k | 0 <= k < |path| :: height[path[k].0] + k == height[path[0].0]
    {
      var k := 1;
      while k < |path|
        invariant 1 <= k <= |path|
        invariant forall j | 0 <= j < k :: height[path[j].0] + j == height[path[0].0]
      {
        assert LinkAt(nodes, path, k) && NodeOK(nodes, height, detached, path[k - 1].0);
        k := k + 1;
      }
    }

    /** Replaces the entries of leaf p (ix.cc:441-443). */
    method SetLeafEntries(p: int, e: seq<Entry>)
      requires Valid() && p in nodes && nodes[p].leaf
      modifies this
      ensures Valid() && root == old(root) && height == old(height) && detached == old(detached)
      ensures nodes == old(nodes)[p := old(nodes)[p].(entries := e)]
      ensures SameKinds(old(nodes), nodes)
      ensures old(RootIsLeaf()) ==> RootIsLeaf()
      ensures old(Bounded()) && |e| <= MAX_ENTRY ==> Bounded()
      ensures old(Bounded()) ==> forall x | x in nodes && x != p :: |nodes[x].entries| <= MAX_ENTRY
    {
      assert NodeOK(nodes, height, detached, p);
      var n' := nodes[p].(entries := e);
      UpdateKeepsShape(nodes, height, detached, root, p, n', detached);
      nodes := nodes[p := n'];
    }

    /**
     * `insert(key, data)` (ix.cc:423-489). On a null root it creates a leaf
     * and, because the check at ix.cc:426 is inverted, returns -1 when that
     * succeeds (leaving the root null) and dereferences the null root when
     * it fails. Otherwise it replaces the data of a present key, or inserts
     * the entry where search points and splits overfull nodes upwards.
     */
    method Insert(key: Key, data: Option<i32>) returns (r: Outcome<int>)
      requires Valid()
      modifies this, fh
      ensures !r.Undefined? ==> Valid() && root == old(root)
      ensures r.Raises? ==> r.message == MismatchMessage && nodes == old(nodes)
      ensures old(Bounded()) && !r.Undefined? ==> Bounded()
      ensures old(RootIsLeaf()) && !r.Undefined? ==> RootIsLeaf()
      ensures old(root).None? ==> r == Returns(-1) || r.Undefined?
      ensures old(root).None? && r == Returns(-1) ==> exists p | 0 <= p && p !in old(nodes) :: nodes == old(nodes)[p := NewNode(true)]
      ensures old(root).Some? && old(RootIsLeaf()) ==>
        var p := old(root).value;
        var e := old(nodes)[p].entries;
        var k := key.val;
        var i := NumLess(e, k);
        (e == [] ==> r.Undefined?) &&
        (e != [] && OfType(e, ValType(ValOf(e[0]))) && ValType(ValOf(e[0])) != KeyType(key) ==> r.Raises?) &&
        (e != [] && Sorted(e) && OfType(e, KeyType(key)) ==>
          (Present(e, k) ==>
            r == FallsOff && exists j | 0 <= j < |e| && ValOf(e[j]) == k ::
              nodes == old(nodes)[p := old(nodes)[p].(entries := e[j := Entry(e[j].key, data)])]) &&
          (!Present(e, k) && |e| < MAX_ENTRY ==>
            r == FallsOff && nodes == old(nodes)[p := old(nodes)[p].(entries := InsertAt(e, i, Entry(key, data)))]) &&
          (!Present(e, k) && |e| >= MAX_ENTRY ==>
            (r == Returns(-1) || r.Undefined?) &&
            (r.Returns? ==> LeafSplitAt(old(nodes), nodes, p, InsertAt(e, i, Entry(key, data)), M)))) &&
        (e != [] && SortedStrict(e) && OfType(e, KeyType(key)) && Present(e, k) ==>
          i < |e| && nodes == old(nodes)[p := old(nodes)[p].(entries := e[i := Entry(e[i].key, data)])])
      ensures old(RootIsLeaf()) && old(RootSorted(KeyType(key))) && r.FallsOff? ==> RootSorted(KeyType(key))
    {
      if root.None? {
        var created := CreateNode(true, 0);
        if created == Returns(None) {
          // root_ = nullptr; root_->entries: a null dereference
          return Undefined;
        }
        if created.Undefined? {
          return Undefined;
        }
        return Returns(-1);
      }
      var res, path := Search(key, [(root.value, 0)]);
      if res.Undefined? {
        return Undefined;
      }
      if res.Raises? {
        return Raises(res.message);
      }
      ghost var e := nodes[path[|path| - 1].0].entries;
      if SortedStrict(e) && OfType(e, KeyType(key)) {
        LeafResultIndex(e, key, res.value);
        if res.value.1 {
          ReplaceDataKeepsOrder(e, res.value.0, data);
        } else if |e| < MAX_ENTRY {
          InsertKeepsStrict(e, Entry(key, data));
        }
      }
      r := InsertIntoLeaf(path, res.value.0, res.value.1, key, data);
    }

    /**
     * The part of insert after the search (ix.cc:437-486): at the leaf that
     * ends path, replace the data of the entry found at idx, or insert the
     * new entry at idx and split overfull nodes upwards.
     */
    method InsertIntoLeaf(path: Path, idx: nat, found: bool, key: Key, data: Option<i32>) returns (r: Outcome<int>)
      requires Valid() && PathOK(path) && root.Some? && path[0].0 == root.value
      requires nodes[path[|path| - 1].0].leaf
      requires LeafResultOK(nodes[path[|path| - 1].0].entries, key, (idx, found))
      modifies this, fh
      ensures r == FallsOff || r == Returns(-1) || r.Undefined?
      ensures !r.Undefined? ==> Valid() && root == old(root) && SameKinds(old(nodes), nodes)
      ensures old(Bounded()) && !r.Undefined? ==> Bounded()
      ensures
        var p := path[|path| - 1].0;
        var e := old(nodes)[p].entries;
        (found ==>
          r == FallsOff && nodes == old(nodes)[p := old(nodes)[p].(entries := e[idx := Entry(e[idx].key, data)])]) &&
        (!found && |e| < MAX_ENTRY ==>
          r == FallsOff && nodes == old(nodes)[p := old(nodes)[p].(entries := InsertAt(e, idx, Entry(key, data)))]) &&
        (!found && |e| >= MAX_ENTRY && |path| == 1 ==>
          (r == Returns(-1) || r.Undefined?) &&
          (r.Returns? ==> LeafSplitAt(old(nodes), nodes, p, InsertAt(e, idx, Entry(key, data)), M)))
    {
      var p := path[|path| - 1].0;
      var e := nodes[p].entries;
      PathHeights(path);
      if found {
        SetLeafEntries(p, e[idx := Entry(e[idx].key, data)]);
        return FallsOff;
      }
      var e' := InsertAt(e, idx, Entry(key, data));
      SetLeafEntries(p, e');
      if |e'| <= MAX_ENTRY {
        return FallsOff;
      }
      ghost var afterSet := nodes;
      PathFrame(old(nodes), detached, nodes, detached, path);
      r := SplitUp(p, path, old(Bounded()));
      if !r.Undefined? {
        SameKindsTransitive(old(nodes), afterSet, nodes);
      }
      if |path| == 1 && r.Returns? {
        LeafSplitAfterSet(old(nodes), afterSet, nodes, p, e', M);
      }
    }

    /**
     * One split (ix.cc:450-469): a new node q of the same kind receives the
     * upper part of cur, cur keeps the first M entries and links to q, and
     * q links to cur's old right sibling. Returns q and the key at index M.
     * A failed createNode leaves new_node null, so the next step is undefined.
     */
    method SplitNode(cur: int) returns (r: Outcome<(int, Key)>)
      requires Valid() && cur in nodes && cur !in detached && |nodes[cur].entries| > MAX_ENTRY
      requires !nodes[cur].leaf ==> |nodes[cur].children| == |nodes[cur].entries| + 1
      modifies this, fh
      ensures r.Returns? || r.Undefined?
      ensures r.Returns? ==>
        var (q, mid) := r.value;
        var n := old(nodes)[cur];
        Valid() && root == old(root) && q !in old(nodes) && q != cur &&
        mid == n.entries[M].key && height == old(height)[q := old(height)[cur]] &&
        detached <= old(detached) && SameKinds(old(nodes), nodes) &&
        nodes == old(nodes)[q := SplitUpper(n, M)][cur := SplitLower(n, M, q)]
    {
      var n := nodes[cur];
      assert NodeOK(nodes, height, detached, cur);
      var created := CreateNode(n.leaf, height[cur]);
      if created.Undefined? || created.value.None? {
        return Undefined;
      }
      var q := created.value.value;
      SplitKeepsShape(nodes, height, detached, root, cur, q, M);
      nodes := nodes[q := SplitUpper(n, M)][cur := SplitLower(n, M, q)];
      detached := detached - {q};
      return Returns((q, n.entries[M].key));
    }

    /**
     * The separator insertion into the parent (ix.cc:479-482): mid goes in
     * at index i of parent's entries and the new sibling q after the child
     * at index i.
     */
    method AddToParent(parent: int, i: nat, mid: Key, q: int)
      requires Valid() && parent in nodes && parent !in detached && !nodes[parent].leaf
      requires i <= |nodes[parent].entries| && |nodes[parent].children| == |nodes[parent].entries| + 1
      requires q in nodes && q !in detached && height[q] + 1 == height[parent]
      modifies this
      ensures Valid() && root == old(root) && height == old(height) && detached == old(detached)
      ensures nodes == old(nodes)[parent := AddSeparator(old(nodes)[parent], i, mid, q)]
    {
      assert NodeOK(nodes, height, detached, parent);
      var pn' := AddSeparator(nodes[parent], i, mid, q);
      AddSeparatorOK(nodes, height, detached, parent, i, mid, q);
      UpdateKeepsShape(nodes, height, detached, root, parent, pn', detached);
      nodes := nodes[parent := pn'];
    }

    /**
     * The split loop at the root (ix.cc:450-477): split cur, then create a
     * new index root; because the check at ix.cc:474 is inverted, a created
     * root makes insert return -1 with root_ unchanged and the new node
     * unused, and a failed one is dereferenced.
     */
    method SplitRoot(cur: int, ghost bounded: bool) returns (r: Outcome<int>)
      requires Valid() && cur in nodes && cur !in detached && |nodes[cur].entries| > MAX_ENTRY
      requires !nodes[cur].leaf ==> |nodes[cur].children| == |nodes[cur].entries| + 1
      requires bounded ==> |nodes[cur].entries| <= MAX_ENTRY + 1
      requires bounded ==> forall x | x in nodes && x != cur :: |nodes[x].entries| <= MAX_ENTRY
      modifies this, fh
      ensures r == Returns(-1) || r.Undefined?
      ensures r.Returns? ==> Valid() && root == old(root) && SameKinds(old(nodes), nodes)
      ensures r.Returns? && bounded ==> Bounded()
      ensures r.Returns? && old(nodes)[cur].leaf ==> LeafSplitAt(old(nodes), nodes, cur, old(nodes)[cur].entries, M)
    {
      var split := SplitNode(cur);
      if split.Undefined? {
        return Undefined;
      }
      var q := split.value.0;
      ghost var afterSplit := nodes;
      var newRoot := CreateNode(false, height[cur] + 1);
      if newRoot.Undefined? || newRoot.value.None? {
        // new_root is nullptr
        return Undefined;
      }
      UpdateSameKinds(afterSplit, newRoot.value.value, NewNode(false));
      SameKindsTransitive(old(nodes), afterSplit, nodes);
      if bounded {
        forall x | x in nodes ensures |nodes[x].entries| <= MAX_ENTRY {
          if x != cur && x != q && x in old(nodes) {
            assert nodes[x] == old(nodes)[x];
          }
        }
      }
      if old(nodes)[cur].leaf {
        RootLeafSplit(old(nodes), cur, q, newRoot.value.value, M);
      }
      return Returns(-1);
    }

    /**
     * The split loop below the root (ix.cc:450-469, 478-484): split cur and
     * insert the separator and the new sibling into the parent at the end of
     * path, which becomes the node to check next.
     */
    method SplitInner(cur: int, path: Path, ghost bounded: bool) returns (r: Outcome<()>, path': Path)
      requires Valid() && PathOK(path) && |path| > 1 && path[|path| - 1].0 == cur
      requires |nodes[cur].entries| > MAX_ENTRY
      requires bounded ==> |nodes[cur].entries| <= MAX_ENTRY + 1
      requires bounded ==> forall x | x in nodes && x != cur :: |nodes[x].entries| <= MAX_ENTRY
      modifies this, fh
      ensures r.Returns? || r.Undefined?
      ensures r.Returns? ==> Valid() && root == old(root) && SameKinds(old(nodes), nodes)
      ensures r.Returns? ==> path' == path[..|path| - 1] && PathOK(path')
      ensures r.Returns? && bounded ==> |nodes[path'[|path'| - 1].0].entries| <= MAX_ENTRY + 1
      ensures r.Returns? && bounded ==> forall x | x in nodes && x != path'[|path'| - 1].0 :: |nodes[x].entries| <= MAX_ENTRY
    {
      path' := path[..|path| - 1];
      PathHeights(path);
      PathPrefix(nodes, detached, path, |path| - 1);
      assert NodeOK(nodes, height, detached, cur);
      var parent, idx := path'[|path'| - 1].0, path[|path| - 1].1;
      assert LinkAt(nodes, path, |path| - 1) && NodeOK(nodes, height, detached, parent);
      var split := SplitNode(cur);
      if split.Undefined? {
        return Undefined, path';
      }
      var (q, mid) := split.value;
      ghost var afterSplit := nodes;
      AddToParent(parent, idx, mid, q);
      UpdateSameKinds(afterSplit, parent, nodes[parent]);
      SameKindsTransitive(old(nodes), afterSplit, nodes);
      forall k | 0 <= k < |path'|
        ensures path'[k].0 in nodes && path'[k].0 !in detached
        ensures k < |path'| - 1 ==> nodes[path'[k].0] == old(nodes)[path'[k].0]
      {
        assert path[k] == path'[k];
      }
      PathFrame(old(nodes), old(detached), nodes, detached, path');
      if bounded {
        forall x | x in nodes && x != parent ensures |nodes[x].entries| <= MAX_ENTRY {
          if x != cur && x != q {
            assert nodes[x] == old(nodes)[x];
          }
        }
      }
      return Returns(()), path';
    }

    /**
     * The split loop of insert (ix.cc:444-486): split the current node and
     * move to its parent while the current node is overfull; falls off the
     * end of insert when the loop ends.
     */
    method SplitUp(cur0: int, path0: Path, ghost bounded: bool) returns (r: Outcome<int>)
      requires Valid() && PathOK(path0) && path0[|path0| - 1].0 == cur0
      requires root.Some? && path0[0].0 == root.value
      requires |nodes[cur0].entries| > MAX_ENTRY
      requires bounded ==> |nodes[cur0].entries| <= MAX_ENTRY + 1
      requires bounded ==> forall x | x in nodes && x != cur0 :: |nodes[x].entries| <= MAX_ENTRY
      modifies this, fh
      ensures r == FallsOff || r == Returns(-1) || r.Undefined?
      ensures !r.Undefined? ==> Valid() && root == old(root)
      ensures !r.Undefined? && bounded ==> Bounded()
      ensures !r.Undefined? ==> SameKinds(old(nodes), nodes)
      ensures |path0| == 1 ==> r == Returns(-1) || r.Undefined?
      ensures |path0| == 1 && old(nodes)[cur0].leaf && r.Returns? ==>
        LeafSplitAt(old(nodes), nodes, cur0, old(nodes)[cur0].entries, M)
    {
      var cur := cur0;
      var path := path0;
      while |nodes[cur].entries| > MAX_ENTRY
        invariant Valid() && PathOK(path) && path[|path| - 1].0 == cur && path[0] == path0[0]
        invariant |path| <= |path0| && root == old(root)
        invariant |path| == |path0| ==> cur == cur0 && nodes == old(nodes)
        invariant bounded ==> |nodes[cur].entries| <= MAX_ENTRY + 1
        invariant bounded ==> forall x | x in nodes && x != cur :: |nodes[x].entries| <= MAX_ENTRY
        invariant SameKinds(old(nodes), nodes)
        decreases |path|
      {
        ghost var before := nodes;
        assert NodeOK(nodes, height, detached, cur);
        if |path| == 1 {
          r := SplitRoot(cur, bounded);
          if r.Returns? {
            SameKindsTransitive(old(nodes), before, nodes);
          }
          return;
        }
        var step, parentPath := SplitInner(cur, path, bounded);
        if step.Undefined? {
          return Undefined;
        }
        SameKindsTransitive(old(nodes), before, nodes);
        cur := parentPath[|parentPath| - 1].0;
        path := parentPath;
      }
      return FallsOff;
    }

    /**
     * The choice of siblings in erase (ix.cc:506-516): node, the child of
     * parent at idx, is the left one and its right neighbour the right one,
     * unless node is the parent's last child; then node is the right one
     * and the child before it the left one. A missing right neighbour is
     * the null pointer returned by getRight, and idx 0 is the index -1.
     */
    method PickSiblings(parent: int, idx: int, node: int) returns (r: Outcome<(nat, int, int, bool)>)
      requires Valid() && parent in nodes && parent !in detached && !nodes[parent].leaf
      requires 0 <= idx < |nodes[parent].children| && nodes[parent].children[idx] == node && node in nodes
      ensures r.Returns? || r.Undefined?
      ensures r.Undefined? <==>
        (idx != |nodes[parent].children| - 1 && nodes[node].right == INVALID_PID) ||
        (idx == |nodes[parent].children| - 1 && idx == 0)
      ensures r.Returns? ==>
        var (li, left, right, fromRight) := r.value;
        StepNodes(nodes, height, detached, parent, left, right) &&
        li < |nodes[parent].entries| && li + 1 < |nodes[parent].children| &&
        nodes[parent].children[li] == left && nodes[left].leaf == nodes[node].leaf &&
        (!nodes[node].leaf ==> |nodes[left].children| >= 1 && |nodes[right].children| >= 1) &&
        (fromRight <==> idx != |nodes[parent].children| - 1) &&
        (fromRight ==> li == idx && left == node && right == nodes[node].right) &&
        (!fromRight ==> li == idx - 1 && right == node)
    {
      assert NodeOK(nodes, height, detached, parent);
      assert NodeOK(nodes, height, detached, node);
      var pn := nodes[parent];
      if idx != |pn.children| - 1 {
        var right := nodes[node].right;
        if right == INVALID_PID {
          // node->getRight() is nullptr
          return Undefined;
        }
        assert NodeOK(nodes, height, detached, right);
        return Returns((idx, node, right, true));
      }
      if idx - 1 < 0 {
        // children_pids[-1]
        return Undefined;
      }
      var left := pn.children[idx - 1];
      assert NodeOK(nodes, height, detached, left);
      return Returns((idx - 1, left, node, false));
    }

    /** Borrowing the first entry of the right sibling (ix.cc:519-530). */
    method BorrowRight(leaf: bool, parent: int, li: nat, left: int, right: int)
      requires Valid() && StepNodes(nodes, height, detached, parent, left, right)
      requires leaf <==> nodes[left].leaf
      requires li < |nodes[parent].entries| && |nodes[right].entries| > M
      requires !leaf ==> |nodes[right].children| >= 1
      modifies this
      ensures Valid() && root == old(root) && height == old(height) && detached == old(detached)
      ensures nodes == BorrowFromRight(old(nodes), leaf, parent, li, left, right)
    {
      BorrowRightShape(nodes, height, detached, root, leaf, parent, li, left, right);
      nodes := BorrowFromRight(nodes, leaf, parent, li, left, right);
    }

    /** Borrowing the last entry of the left sibling (ix.cc:534-545). */
    method BorrowLeft(leaf: bool, parent: int, li: nat, left: int, right: int)
      requires Valid() && StepNodes(nodes, height, detached, parent, left, right)
      requires leaf <==> nodes[left].leaf
      requires li < |nodes[parent].entries| && |nodes[left].entries| > M
      requires !leaf ==> |nodes[left].children| >= 1
      modifies this
      ensures Valid() && root == old(root) && height == old(height) && detached == old(detached)
      ensures nodes == BorrowFromLeft(old(nodes), leaf, parent, li, left, right)
    {
      BorrowLeftShape(nodes, height, detached, root, leaf, parent, li, left, right);
      nodes := BorrowFromLeft(nodes, leaf, parent, li, left, right);
    }

    /**
     * Merging right into left (ix.cc:549-567); when that leaves the parent
     * without separators, left becomes the root and `stop` is the `break`.
     */
    method MergeStep(leaf: bool, parent: int, li: nat, left: int, right: int) returns (stop: bool)
      requires Valid() && StepNodes(nodes, height, detached, parent, left, right)
      requires leaf <==> nodes[left].leaf
      requires left != right && li < |nodes[parent].entries| && li + 1 < |nodes[parent].children|
      requires nodes[parent].children[li] == left
      modifies this
      ensures Valid() && height == old(height) && detached == old(detached)
      ensures nodes == MergeInto(old(nodes), leaf, parent, li, left, right)
      ensures stop <==> nodes[parent].entries == []
      ensures root == if stop then Some(left) else old(root)
    {
      MergeShape(nodes, height, detached, root, leaf, parent, li, left, right);
      nodes := MergeInto(nodes, leaf, parent, li, left, right);
      if nodes[parent].entries == [] {
        // the assert at ix.cc:564 holds: the only child left is left
        assert nodes[parent].children[0] == left;
        root := Some(nodes[parent].children[0]);
        return true;
      }
      return false;
    }

    /**
     * One iteration of the rebalancing loop of erase (ix.cc:500-569): node,
     * the last of path, has too few entries; a sibling lends it an entry
     * when that sibling has more than M, and the two are merged otherwise.
     * `stop` is the `break` after a merge that empties the parent.
     */
    method Rebalance(node: int, path: Path) returns (r: Outcome<()>, stop: bool, path': Path)
      requires Valid() && PathOK(path) && |path| > 1 && path[|path| - 1].0 == node
      requires root == Some(path[0].0)
      modifies this
      ensures r.Returns? || r.Undefined?
      ensures r.Returns? ==> Valid()
      ensures r.Returns? && !stop ==> root == old(root) && path' == path[..|path| - 1] && PathOK(path')
    {
      PathHeights(path);
      var idx := path[|path| - 1].1;
      path' := path[..|path| - 1];
      PathPrefix(nodes, detached, path, |path| - 1);
      var parent := path'[|path'| - 1].0;
      assert LinkAt(nodes, path, |path| - 1);
      var pick := PickSiblings(parent, idx, node);
      if pick.Undefined? {
        return Undefined, false, path';
      }
      var (li, left, right, fromRight) := pick.value;
      var leaf := nodes[node].leaf;
      if fromRight && |nodes[right].entries| > M {
        BorrowRight(leaf, parent, li, left, right);
      } else if !fromRight && |nodes[left].entries| > M {
        BorrowLeft(leaf, parent, li, left, right);
      } else {
        if left == right {
          // left->entries.insert(..., right->entries.begin(), ...) inserts a deque into itself
          return Undefined, false, path';
        }
        stop := MergeStep(leaf, parent, li, left, right);
        if stop {
          return Returns(()), true, path';
        }
      }
      forall k | 0 <= k < |path'|
        ensures path'[k].0 in nodes && path'[k].0 !in detached
        ensures k < |path'| - 1 ==> nodes[path'[k].0] == old(nodes)[path'[k].0]
      {
        assert path[k] == path'[k];
      }
      PathFrame(old(nodes), detached, nodes, detached, path');
      return Returns(()), false, path';
    }

    /** The rebalancing loop of erase (ix.cc:499-570), which runs while node is not the root and has fewer than M entries. */
    method RebalanceUp(node0: int, path0: Path) returns (r: Outcome<()>)
      requires Valid() && PathOK(path0) && path0[|path0| - 1].0 == node0
      requires root == Some(path0[0].0)
      modifies this
      ensures r.Returns? || r.Undefined?
      ensures r.Returns? ==> Valid()
      ensures |path0| == 1 ==> r.Returns? && nodes == old(nodes) && root == old(root)
    {
      var node := node0;
      var path := path0;
      while node != root.value && |nodes[node].entries| < M
        invariant Valid() && PathOK(path) && path[|path| - 1].0 == node && root == Some(path[0].0)
        invariant |path| <= |path0|
        invariant |path0| == 1 ==> nodes == old(nodes) && root == old(root) && |path| == 1
        decreases |path|
      {
        var step, stop, parentPath := Rebalance(node, path);
        if step.Undefined? {
          return Undefined;
        }
        if stop {
          return Returns(());
        }
        node, path := parentPath[|parentPath| - 1].0, parentPath;
      }
      return Returns(());
    }

    /**
     * The part of erase after a successful search (ix.cc:496-570): the
     * entry at idx leaves the leaf that ends path, and the tree is
     * rebalanced from there upwards.
     */
    method EraseFromLeaf(path: Path, idx: nat) returns (r: Outcome<()>)
      requires Valid() && PathOK(path) && root == Some(path[0].0)
      requires nodes[path[|path| - 1].0].leaf && idx < |nodes[path[|path| - 1].0].entries|
      modifies this
      ensures r.Returns? || r.Undefined?
      ensures r.Returns? ==> Valid()
      ensures |path| == 1 ==>
        var p := path[0].0;
        r.Returns? && root == old(root) &&
        nodes == old(nodes)[p := old(nodes)[p].(entries := RemoveAt(old(nodes)[p].entries, idx))]
    {
      var node := path[|path| - 1].0;
      PathHeights(path);
      SetLeafEntries(node, RemoveAt(nodes[node].entries, idx));
      PathFrame(old(nodes), detached, nodes, detached, path);
      r := RebalanceUp(node, path);
    }

    /**
     * `erase(key)` (ix.cc:491-572): false on a null root or when search does
     * not find the key; otherwise the entry is removed from its leaf, the
     * tree is rebalanced upwards, and the result is true.
     */
    method Erase(key: Key) returns (r: Outcome<bool>)
      requires Valid()
      modifies this
      ensures !r.FallsOff?
      ensures !r.Undefined? ==> Valid()
      ensures r.Raises? ==> r.message == MismatchMessage && nodes == old(nodes) && root == old(root)
      ensures r == Returns(false) ==> nodes == old(nodes) && root == old(root)
      ensures old(root).None? ==> r == Returns(false)
      ensures old(RootIsLeaf()) && !r.Undefined? ==> RootIsLeaf() && root == old(root)
      ensures old(root).Some? && old(RootIsLeaf()) ==>
        var p := old(root).value;
        var e := old(nodes)[p].entries;
        var k := key.val;
        (e == [] ==> r.Undefined?) &&
        (e != [] && OfType(e, ValType(ValOf(e[0]))) && ValType(ValOf(e[0])) != KeyType(key) ==> r.Raises?) &&
        (e != [] && Sorted(e) && OfType(e, KeyType(key)) ==>
          (!Present(e, k) ==> r == Returns(false)) &&
          (Present(e, k) ==>
            r == Returns(true) && exists j | 0 <= j < |e| && ValOf(e[j]) == k ::
              nodes == old(nodes)[p := old(nodes)[p].(entries := RemoveAt(e, j))])) &&
        (e != [] && SortedStrict(e) && OfType(e, KeyType(key)) && Present(e, k) ==>
          NumLess(e, k) < |e| && nodes == old(nodes)[p := old(nodes)[p].(entries := RemoveAt(e, NumLess(e, k)))])
      ensures old(RootIsLeaf()) && old(RootSorted(KeyType(key))) && !r.Undefined? ==> RootSorted(KeyType(key))
    {
      if root.None? {
        return Returns(false);
      }
      var res, path := Search(key, [(root.value, 0)]);
      if res.Undefined? {
        return Undefined;
      }
      if res.Raises? {
        return Raises(res.message);
      }
      ghost var e := nodes[path[|path| - 1].0].entries;
      if SortedStrict(e) && OfType(e, KeyType(key)) {
        LeafResultIndex(e, key, res.value);
        if res.value.1 {
          RemoveKeepsStrict(e, res.value.0);
        }
      }
      if !res.value.1 {
        return Returns(false);
      }
      var step := EraseFromLeaf(path, res.value.0);
      if step.Undefined? {
        return Undefined;
      }
      return Returns(true);
    }

    /**
     * The leaf loop of bulkLoad (ix.cc:591-608): sorted is cut into
     * consecutive groups of ChunkSizes(|sorted|, MAX_ENTRY), each stored in
     * a newly created leaf. Returns(false) is the `return -1` after a
     * failed createNode, which keeps the leaves made so far. The `int`
     * sums `i + MAX_ENTRY` and `i + 2 * MAX_ENTRY` are undefined when they
     * overflow.
     */
    method BuildLeaves(sorted: seq<Entry>) returns (r: Outcome<bool>, leaves: seq<int>)
      requires Valid() && 1 <= |sorted| < TWO_31
      modifies this, fh
      ensures r.Returns? || r.Undefined?
      ensures r.Returns? ==> Valid() && root == old(root) && BuiltLeaves(old(nodes), nodes, leaves, sorted, MAX_ENTRY)
      ensures r.Returns? ==> (r.value <==> |leaves| == |ChunkSizes(|sorted|, MAX_ENTRY)|)
      ensures r.Returns? && old(Bounded()) ==> Bounded()
    {
      var n := |sorted|;
      var i := 0;
      var last := false;
      leaves := [];
      ghost var chunks: seq<seq<Entry>> := [];
      LeafProgressStart(sorted, MAX_ENTRY);
      EmptyLayer(nodes);
      while i < n
        invariant Valid()
        invariant root == old(root)
        invariant old(Bounded()) ==> Bounded()
        invariant UnlinkedLayer(old(nodes), nodes, leaves, chunks)
        invariant LeafProgress(sorted, MAX_ENTRY, i, last, chunks)
        decreases n - i
      {
        var made, i', last', leaves';
        ghost var chunks';
        made, i', last', leaves', chunks' := LeafStep(sorted, i, last, leaves, chunks, old(nodes));
        if made.Undefined? {
          return Undefined, leaves;
        }
        if !made.value {
          break;
        }
        i, last, leaves, chunks := i', last', leaves', chunks';
      }
      LeafLoopDone(old(nodes), nodes, leaves, chunks, sorted, MAX_ENTRY, i, last);
      return Returns(i >= n), leaves;
    }

    /**
     * One iteration of the leaf loop of bulkLoad (ix.cc:594-607) carried
     * from one loop state to the next: the leaves made so far gain the new
     * leaf, which holds the next group ChunkSizes picks.
     */
    method LeafStep(sorted: seq<Entry>, i: int, last: bool, leaves: seq<int>, ghost chunks: seq<seq<Entry>>,
                    ghost before: map<int, Node>)
      returns (r: Outcome<bool>, i': int, last': bool, leaves': seq<int>, ghost chunks': seq<seq<Entry>>)
      requires Valid() && 0 <= i < |sorted| < TWO_31
      requires UnlinkedLayer(before, nodes, leaves, chunks)
      requires LeafProgress(sorted, MAX_ENTRY, i, last, chunks)
      modifies this, fh
      ensures r.Returns? || r.Undefined?
      ensures r.Returns? ==> Valid() && root == old(root) && (old(Bounded()) ==> Bounded())
      ensures r == Returns(false) ==> nodes == old(nodes)
      ensures r == Returns(true) ==>
        i' > i && UnlinkedLayer(before, nodes, leaves', chunks') && LeafProgress(sorted, MAX_ENTRY, i', last', chunks')
    {
      ghost var pre := nodes;
      var made, j, step;
      made, j, step, last' := AddLeaf(sorted, i, last);
      i', leaves', chunks' := i, leaves, chunks;
      if made.Undefined? {
        r := Undefined;
      } else if made.value.None? {
        r := Returns(false);
      } else {
        var p := made.value.value;
        LeafLoopStep(before, pre, nodes, leaves, chunks, sorted, MAX_ENTRY, i, last, p, j, step, last');
        i', leaves', chunks' := i + step, leaves + [p], chunks + [sorted[i..j]];
        r := Returns(true);
      }
    }

    /**
     * One iteration of the leaf loop of bulkLoad (ix.cc:594-607): a new leaf
     * receiving the group sorted[i..j] that LeafGroup picks. Returns(None)
     * is the failed createNode; then nothing changes. The `int` sum
     * `i + MAX_ENTRY` is undefined when it overflows.
     */
    method AddLeaf(sorted: seq<Entry>, i: int, last: bool) returns (r: Outcome<Option<int>>, j: int, step: int, last': bool)
      requires Valid() && 0 <= i < |sorted| < TWO_31
      modifies this, fh
      ensures r.Returns? || r.Undefined?
      ensures i + MAX_ENTRY >= TWO_31 ==> r.Undefined? && nodes == old(nodes)
      ensures r.Returns? ==> Valid() && root == old(root) && (old(Bounded()) ==> Bounded())
      ensures r == Returns(None) ==> nodes == old(nodes)
      ensures r.Returns? && r.value.Some? ==>
        LeafGroup(i, |sorted|, MAX_ENTRY, last) == Returns((j, step, last')) &&
        r.value.value !in old(nodes) &&
        nodes == old(nodes)[r.value.value := Node(true, INVALID_PID, sorted[i..j], [])]
    {
      if i + MAX_ENTRY >= TWO_31 {
        // int j = std::min(i + MAX_ENTRY, ...) overflows
        return Undefined, 0, 0, last;
      }
      var created := CreateNode(true, 0);
      if created.Undefined? {
        return Undefined, 0, 0, last;
      }
      if created.value.None? {
        return Returns(None), 0, 0, last;
      }
      var p := created.value.value;
      var group := LeafGroup(i, |sorted|, MAX_ENTRY, last);
      if group.Undefined? {
        return Undefined, 0, 0, last;
      }
      j, step, last' := group.value.0, group.value.1, group.value.2;
      SetLeafEntries(p, sorted[i..j]);
      return Returns(Some(p)), j, step, last';
    }

    /** `leaf->setRight(pid)` for a leaf whose new right neighbour is the leaf q. */
    method SetRight(p: int, q: int)
      requires Valid() && p in nodes && q in nodes && nodes[p].leaf && nodes[q].leaf
      modifies this
      ensures Valid() && root == old(root) && height == old(height) && detached == old(detached)
      ensures nodes == old(nodes)[p := old(nodes)[p].(right := q)]
      ensures old(Bounded()) ==> Bounded()
    {
      assert NodeOK(nodes, height, detached, p) && NodeOK(nodes, height, detached, q);
      var n' := nodes[p].(right := q);
      UpdateKeepsShape(nodes, height, detached, root, p, n', detached);
      nodes := nodes[p := n'];
    }

    /** The linking loop of bulkLoad (ix.cc:617-619): each leaf gets the next as its right neighbour. */
    method LinkLeaves(leaves: seq<int>, ghost chunks: seq<seq<Entry>>)
      requires Valid() && |leaves| >= 1 && LeafLayer(nodes, leaves, chunks, 0)
      requires forall k, l | 0 <= k < l < |leaves| :: leaves[k] != leaves[l]
      modifies this
      ensures Valid() && root == old(root)
      ensures LeafLayer(nodes, leaves, chunks, |leaves|)
      ensures forall x | x in old(nodes) && x !in leaves :: x in nodes && nodes[x] == old(nodes)[x]
      ensures old(Bounded()) ==> Bounded()
    {
      var i := 1;
      assert LeafLayer(nodes, leaves, chunks, 1);
      while i < |leaves|
        invariant 1 <= i <= |leaves|
        invariant Valid() && root == old(root) && (old(Bounded()) ==> Bounded())
        invariant forall x | x in old(nodes) && x !in leaves :: x in nodes && nodes[x] == old(nodes)[x]
        invariant LeafLayer(nodes, leaves, chunks, i)
      {
        LinkStep(nodes, leaves, chunks, i);
        assert leaves[i - 1] in nodes && leaves[i] in nodes;
        SetRight(leaves[i - 1], leaves[i]);
        i := i + 1;
      }
    }

    /**
     * `bulkLoad(entries)` (ix.cc:580-650): -1 unless the tree is empty and
     * entries is not; a throw if entries mix key types (std::sort compares
     * them); otherwise LoadSorted on the sorted entries.
     */
    method BulkLoad(entries: seq<Entry>) returns (r: Outcome<int>, ghost leaves: seq<int>)
      requires Valid()
      modifies this, fh
      ensures !r.Undefined? ==> Valid() && (old(Bounded()) ==> Bounded())
      ensures !r.Undefined? && old(RootIsLeaf()) ==> RootIsLeaf()
      ensures r.Returns? ==> r.value == -1 && root == old(root)
      ensures old(root).Some? || entries == [] ==> r == Returns(-1) && nodes == old(nodes)
      ensures r.Raises? <==> old(root).None? && entries != [] && !OfType(entries, ValType(ValOf(entries[0])))
      ensures r.Raises? ==> r.message == MismatchMessage && nodes == old(nodes) && root == old(root)
      ensures r == FallsOff ==>
        |entries| <= MAX_ENTRY && |leaves| == 1 && leaves[0] !in old(nodes) && root == Some(leaves[0]) &&
        nodes == old(nodes)[leaves[0] := Node(true, INVALID_PID, SortEntries(entries), [])]
      ensures r.Returns? && old(root).None? && entries != [] ==>
        var chunks := Chunk(SortEntries(entries), ChunkSizes(|entries|, MAX_ENTRY));
        FreshLeaves(old(nodes), nodes, leaves) &&
        LeafLayer(nodes, leaves, chunks, if |leaves| == |chunks| then |leaves| else 0) &&
        (|leaves| == |chunks| ==> |chunks| > 1)
    {
      leaves := [];
      if root.Some? {
        return Returns(-1), leaves;
      }
      if entries == [] {
        return Returns(-1), leaves;
      }
      if !OfType(entries, ValType(ValOf(entries[0]))) {
        // std::sort compares two keys of different types
        return Raises(MismatchMessage), leaves;
      }
      if |entries| >= TWO_31 {
        // int(entries.size()) does not hold the size
        return Undefined, leaves;
      }
      r, leaves := LoadSorted(SortEntries(entries));
    }

    /**
     * The part of bulkLoad after the sort (ix.cc:591-654). With a single
     * leaf that leaf becomes the root and control reaches the end of the
     * function without a return. With more leaves they are linked, and the
     * check at ix.cc:626 is inverted: a successful createNode for the first
     * index node returns -1, leaving the root null and the leaves
     * unreachable, and a failed one dereferences the null node.
     */
    method LoadSorted(sorted: seq<Entry>) returns (r: Outcome<int>, ghost leaves: seq<int>)
      requires Valid() && root.None? && 1 <= |sorted| < TWO_31
      modifies this, fh
      ensures r == FallsOff || r == Returns(-1) || r.Undefined?
      ensures !r.Undefined? ==> Valid() && (old(Bounded()) ==> Bounded())
      ensures r.Returns? ==> root.None?
      ensures r == FallsOff ==>
        |sorted| <= MAX_ENTRY && |leaves| == 1 && leaves[0] !in old(nodes) && root == Some(leaves[0]) &&
        nodes == old(nodes)[leaves[0] := Node(true, INVALID_PID, sorted, [])]
      ensures r.Returns? ==>
        var chunks := Chunk(sorted, ChunkSizes(|sorted|, MAX_ENTRY));
        FreshLeaves(old(nodes), nodes, leaves) &&
        LeafLayer(nodes, leaves, chunks, if |leaves| == |chunks| then |leaves| else 0) &&
        (|leaves| == |chunks| ==> |chunks| > 1)
    {
      var built, layer := BuildLeaves(sorted);
      leaves := layer;
      if built.Undefined? {
        return Undefined, leaves;
      }
      ChunkSizesSound(|sorted|, MAX_ENTRY);
      if !built.value {
        return Returns(-1), leaves;
      }
      if |layer| == 1 {
        assert layer[0] in nodes && NodeOK(nodes, height, detached, layer[0]);
        SingleLeaf(old(nodes), nodes, layer, sorted, MAX_ENTRY);
        root := Some(layer[0]);
        return FallsOff, leaves;
      }
      r := LinkAndIndex(layer, Chunk(sorted, ChunkSizes(|sorted|, MAX_ENTRY)));
    }

    /**
     * The index layer of bulkLoad for more than one leaf (ix.cc:614-627):
     * the leaves are linked left to right, and the first createNode(false)
     * returns -1 when it succeeds and is undefined when it fails.
     */
    method LinkAndIndex(leaves: seq<int>, ghost chunks: seq<seq<Entry>>) returns (r: Outcome<int>)
      requires Valid() && |leaves| > 1 && LeafLayer(nodes, leaves, chunks, 0)
      requires forall k, l | 0 <= k < l < |leaves| :: leaves[k] != leaves[l]
      modifies this, fh
      ensures r == Returns(-1) || r.Undefined?
      ensures r.Returns? ==> Valid() && root == old(root) && (old(Bounded()) ==> Bounded())
      ensures r.Returns? ==> LeafLayer(nodes, leaves, chunks, |leaves|)
      ensures r.Returns? ==> forall x | x in old(nodes) && x !in leaves :: x in nodes && nodes[x] == old(nodes)[x]
    {
      LinkLeaves(leaves, chunks);
      ghost var linked := nodes;
      var created := CreateNode(false, 1);
      if created.Returns? && created.value.Some? {
        // `if (!ret.first) return -1;` fires on success
        assert forall k | 0 <= k < |leaves| :: leaves[k] in linked && nodes[leaves[k]] == linked[leaves[k]];
        return Returns(-1);
      }
      // new_node->entries on the null node, or an undefined createNode
      return Undefined;
    }

    /** `find(key)`: false on a null root, otherwise whether search found the key. */
    method Find(key: Key) returns (r: Outcome<bool>)
      requires Valid()
      ensures root.None? ==> r == Returns(false)
      ensures !r.FallsOff?
      ensures r.Raises? ==> r.message == MismatchMessage
      ensures r == Returns(true) ==> exists p | p in nodes :: Present(nodes[p].entries, key.val)
      ensures RootIsLeaf() && root.Some? ==>
        var e := nodes[root.value].entries;
        (r.Undefined? <==> e == []) &&
        (e != [] && OfType(e, KeyType(key)) && Sorted(e) ==> r == Returns(Present(e, key.val))) &&
        (e != [] && OfType(e, ValType(ValOf(e[0]))) && ValType(ValOf(e[0])) != KeyType(key) ==> r.Raises?)
    {
      if root.None? {
        return Returns(false);
      }
      var res, path := Search(key, [(root.value, 0)]);
      match res
      case Returns(v) =>
        r := Returns(v.1);
        if v.1 {
          var p := path[|path| - 1].0;
          assert ValOf(nodes[p].entries[v.0]) == key.val;
          assert Present(nodes[p].entries, key.val);
        }
      case Raises(m) => r := Raises(m);
      case Undefined => r := Undefined;
    }
  }
}
