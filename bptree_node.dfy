/**
 * The value-level part of the B+-tree of ix/ix.cc: node contents, the
 * ordering of entries, the binary search of BPlusTree::search, and the
 * sequence surgery that insert (split), erase (borrow, merge) and bulkLoad
 * (sorting, chunking into nodes) perform on node contents.
 */
module BTreeNode {
  import opened Types
  import opened Wrappers
  import opened IxKey

  /** Node::INVALID_PID: the right link of the last node of a level. */
  const INVALID_PID: int := -1

  /** Node::data_t: a key and its data; index nodes carry no data (nullptr). */
  datatype Entry = Entry(key: Key, data: Option<i32>)

  /** The in-memory contents of a Node: leaf flag, right link, entries, child page ids. */
  datatype Node = Node(leaf: bool, right: int, entries: seq<Entry>, children: seq<int>)

  /** A node freshly made by BPlusTree::createNode. */
  function NewNode(leaf: bool): Node
  {
    Node(leaf, INVALID_PID, [], [])
  }

  function ValOf(e: Entry): KeyVal
  {
    e.key.val
  }

  // ---------------------------------------------------------------------
  // Ordering of entries
  // ---------------------------------------------------------------------

  /** Every entry holds a key of type t. */
  predicate OfType(e: seq<Entry>, t: AttrType)
  {
    forall i | 0 <= i < |e| :: ValType(ValOf(e[i])) == t
  }

  /** Non-decreasing key order (duplicates allowed, as after a sort). */
  predicate Sorted(e: seq<Entry>)
  {
    forall i, j | 0 <= i < j < |e| :: !ValLess(ValOf(e[j]), ValOf(e[i]))
  }

  /** Strictly increasing key order (what insert maintains in a node). */
  predicate SortedStrict(e: seq<Entry>)
  {
    forall i, j | 0 <= i < j < |e| :: ValLess(ValOf(e[i]), ValOf(e[j]))
  }

  predicate Present(e: seq<Entry>, k: KeyVal)
  {
    exists i | 0 <= i < |e| :: ValOf(e[i]) == k
  }

  /** The number of entries whose key is below k. */
  function NumLess(e: seq<Entry>, k: KeyVal): (n: nat)
    ensures n <= |e|
  {
    if |e| == 0 then 0 else (if ValLess(ValOf(e[0]), k) then 1 else 0) + NumLess(e[1..], k)
  }

  /** The number of entries whose key is not above k. */
  function NumLessEq(e: seq<Entry>, k: KeyVal): (n: nat)
    ensures n <= |e|
  {
    if |e| == 0 then 0 else (if !ValLess(k, ValOf(e[0])) then 1 else 0) + NumLessEq(e[1..], k)
  }

  /** `<=` on keys of one type is transitive. */
  lemma LeTransitive(a: KeyVal, b: KeyVal, c: KeyVal)
    requires ValType(a) == ValType(b) == ValType(c)
    requires !ValLess(b, a) && !ValLess(c, b)
    ensures !ValLess(c, a)
  {
    ValLessTotal(a, b);
    ValLessTotal(b, c);
    if ValLess(c, a) {
      if ValLess(a, b) {
        ValLessTransitive(c, a, b);
        if ValLess(b, c) {
          ValLessTransitive(c, b, c);
          ValLessIrreflexive(c);
        }
      } else if ValLess(b, c) {
        ValLessTransitive(b, c, a);
      } else {
        ValLessIrreflexive(a);
      }
    }
  }

  /** Asymmetry of key order. */
  lemma LessAsymmetric(a: KeyVal, b: KeyVal)
    requires ValLess(a, b)
    ensures !ValLess(b, a)
  {
    if ValLess(b, a) {
      ValLessTransitive(a, b, a);
      ValLessIrreflexive(a);
    }
  }

  /** In sorted entries of k's type, the keys below k are exactly the first NumLess(e, k). */
  lemma {:induction false} NumLessSplits(e: seq<Entry>, k: KeyVal)
    requires Sorted(e) && OfType(e, ValType(k))
    ensures forall i | 0 <= i < NumLess(e, k) :: ValLess(ValOf(e[i]), k)
    ensures forall i | NumLess(e, k) <= i < |e| :: !ValLess(ValOf(e[i]), k)
  {
    if |e| > 0 {
      var t := e[1..];
      NumLessSplits(t, k);
      if ValLess(ValOf(e[0]), k) {
        forall i | 0 <= i < NumLess(e, k) ensures ValLess(ValOf(e[i]), k) {
          if i > 0 { assert e[i] == t[i - 1]; }
        }
        forall i | NumLess(e, k) <= i < |e| ensures !ValLess(ValOf(e[i]), k) {
          assert e[i] == t[i - 1];
        }
      } else {
        forall i | 0 <= i < |e| ensures !ValLess(ValOf(e[i]), k) {
          if i > 0 {
            LeTransitive(k, ValOf(e[0]), ValOf(e[i]));
          }
        }
        assert |t| > 0 ==> t[0] == e[1];
      }
    }
  }

  /** In sorted entries of k's type, the keys not above k are exactly the first NumLessEq(e, k). */
  lemma {:induction false} NumLessEqSplits(e: seq<Entry>, k: KeyVal)
    requires Sorted(e) && OfType(e, ValType(k))
    ensures forall i | 0 <= i < NumLessEq(e, k) :: !ValLess(k, ValOf(e[i]))
    ensures forall i | NumLessEq(e, k) <= i < |e| :: ValLess(k, ValOf(e[i]))
  {
    if |e| > 0 {
      var t := e[1..];
      NumLessEqSplits(t, k);
      if !ValLess(k, ValOf(e[0])) {
        forall i | 0 <= i < NumLessEq(e, k) ensures !ValLess(k, ValOf(e[i])) {
          if i > 0 { assert e[i] == t[i - 1]; }
        }
        forall i | NumLessEq(e, k) <= i < |e| ensures ValLess(k, ValOf(e[i])) {
          assert e[i] == t[i - 1];
        }
      } else {
        forall i | 0 <= i < |e| ensures ValLess(k, ValOf(e[i])) {
          if i > 0 {
            ValLessTotal(ValOf(e[0]), ValOf(e[i]));
            if ValLess(ValOf(e[0]), ValOf(e[i])) {
              ValLessTransitive(k, ValOf(e[0]), ValOf(e[i]));
            }
          }
        }
        if NumLessEq(t, k) > 0 {
          assert t[0] == e[1];
        }
      }
    }
  }

  /**
   * In sorted entries, the keys equal to k form the block between
   * NumLess and NumLessEq: k is present iff that block is non-empty.
   */
  lemma PresentIffBlock(e: seq<Entry>, k: KeyVal)
    requires Sorted(e) && OfType(e, ValType(k))
    ensures NumLess(e, k) <= NumLessEq(e, k)
    ensures forall i | NumLess(e, k) <= i < NumLessEq(e, k) :: ValOf(e[i]) == k
    ensures Present(e, k) <==> NumLess(e, k) < NumLessEq(e, k)
  {
    NumLessSplits(e, k);
    NumLessEqSplits(e, k);
    if NumLessEq(e, k) < NumLess(e, k) {
      LessAsymmetric(ValOf(e[NumLessEq(e, k)]), k);
    }
    forall i | NumLess(e, k) <= i < NumLessEq(e, k) ensures ValOf(e[i]) == k {
      ValLessTotal(ValOf(e[i]), k);
    }
    if Present(e, k) {
      var i :| 0 <= i < |e| && ValOf(e[i]) == k;
      ValLessIrreflexive(k);
    }
  }

  /** In strictly sorted entries a key occurs at most once. */
  lemma StrictUnique(e: seq<Entry>, k: KeyVal)
    requires SortedStrict(e) && OfType(e, ValType(k))
    ensures NumLessEq(e, k) <= NumLess(e, k) + 1
  {
    assert Sorted(e) by {
      forall i, j | 0 <= i < j < |e| ensures !ValLess(ValOf(e[j]), ValOf(e[i])) {
        LessAsymmetric(ValOf(e[i]), ValOf(e[j]));
      }
    }
    PresentIffBlock(e, k);
    var i := NumLess(e, k);
    if i + 1 < |e| {
      assert ValLess(ValOf(e[i]), ValOf(e[i + 1]));
    }
    ValLessIrreflexive(k);
  }

  /** Entries known to be below k are counted by NumLess. */
  lemma {:induction false} NumLessAtLeast(e: seq<Entry>, k: KeyVal, n: nat)
    requires n <= |e| && forall j | 0 <= j < n :: ValLess(ValOf(e[j]), k)
    ensures n <= NumLess(e, k)
  {
    if n > 0 {
      assert forall j | 0 <= j < n - 1 :: e[1..][j] == e[j + 1];
      NumLessAtLeast(e[1..], k, n - 1);
    }
  }

  /** In sorted entries, an entry not below k bounds NumLess. */
  lemma NumLessAtMost(e: seq<Entry>, k: KeyVal, n: nat)
    requires Sorted(e) && OfType(e, ValType(k))
    requires n < |e| && !ValLess(ValOf(e[n]), k)
    ensures NumLess(e, k) <= n
  {
    NumLessSplits(e, k);
  }

  /** `a <= b < c` gives `a < c`. */
  lemma LeLessTransitive(a: KeyVal, b: KeyVal, c: KeyVal)
    requires ValType(a) == ValType(b)
    requires !ValLess(b, a) && ValLess(b, c)
    ensures ValLess(a, c)
  {
    ValLessTotal(a, b);
    if ValLess(a, b) {
      ValLessTransitive(a, b, c);
    }
  }

  lemma StrictIsSorted(e: seq<Entry>)
    requires SortedStrict(e)
    ensures Sorted(e)
  {
    forall i, j | 0 <= i < j < |e| ensures !ValLess(ValOf(e[j]), ValOf(e[i])) {
      LessAsymmetric(ValOf(e[i]), ValOf(e[j]));
    }
  }

  // ---------------------------------------------------------------------
  // Binary search of BPlusTree::search
  // ---------------------------------------------------------------------

  function Min(a: int, b: int): int
  {
    if a < b then a else b
  }

  /**
   * Where the binary search stops in sorted entries: on some entry equal
   * to k, or else on the first entry above k, or on the last entry when
   * every entry is below k.
   */
  predicate LowerBoundSpec(e: seq<Entry>, k: KeyVal, low: nat)
  {
    low < |e| &&
    ((ValOf(e[low]) == k && NumLess(e, k) <= low < NumLessEq(e, k)) ||
     (ValOf(e[low]) != k && low == Min(NumLess(e, k), |e| - 1)))
  }

  lemma LowerBoundAtEqual(e: seq<Entry>, k: KeyVal, low: nat)
    requires Sorted(e) && OfType(e, ValType(k))
    requires low < |e| && ValOf(e[low]) == k
    ensures LowerBoundSpec(e, k, low)
  {
    NumLessSplits(e, k);
    NumLessEqSplits(e, k);
    ValLessIrreflexive(k);
  }

  lemma LowerBoundAtExit(e: seq<Entry>, k: KeyVal, low: nat)
    requires Sorted(e) && OfType(e, ValType(k))
    requires low < |e|
    requires forall j | 0 <= j < low :: ValLess(ValOf(e[j]), k)
    requires low == |e| - 1 || ValLess(k, ValOf(e[low]))
    ensures LowerBoundSpec(e, k, low)
  {
    NumLessAtLeast(e, k, low);
    if ValOf(e[low]) == k {
      LowerBoundAtEqual(e, k, low);
    } else if ValLess(k, ValOf(e[low])) {
      LessAsymmetric(k, ValOf(e[low]));
      NumLessAtMost(e, k, low);
    } else {
      ValLessTotal(ValOf(e[low]), k);
    }
  }

  /**
   * The loop of BPlusTree::search (ix.cc:658-670) over the entries of one
   * node: the key comparisons throw when the node holds keys of another type.
   */
  method BinarySearch(e: seq<Entry>, key: Key) returns (r: Result<nat>)
    requires |e| > 0
    ensures r.Ok? ==> r.value < |e|
    ensures r.Throws? ==> r.message == MismatchMessage
    ensures r.Throws? ==> exists i | 0 <= i < |e| :: ValType(ValOf(e[i])) != KeyType(key)
    ensures OfType(e, KeyType(key)) ==> r.Ok?
    ensures forall t | OfType(e, t) && t != KeyType(key) :: |e| > 1 ==> r.Throws?
    ensures r.Ok? && OfType(e, KeyType(key)) && Sorted(e) ==> LowerBoundSpec(e, key.val, r.value)
  {
    var low, high := 0, |e| - 1;
    while low < high
      invariant 0 <= low <= high < |e|
      invariant (low != 0 || high != |e| - 1) ==>
        exists i | 0 <= i < |e| :: ValType(ValOf(e[i])) == KeyType(key)
      invariant OfType(e, KeyType(key)) && Sorted(e) ==>
        (forall j | 0 <= j < low :: ValLess(ValOf(e[j]), key.val)) &&
        (high == |e| - 1 || ValLess(key.val, ValOf(e[high])))
      decreases high - low
    {
      var mid := low + (high - low) / 2;
      var lt := Less(key, e[mid].key);
      if lt.Throws? {
        return Throws(lt.message);
      }
      if lt.value {
        high := mid;
      } else {
        var gt := Less(e[mid].key, key);
        if gt.value {
          if OfType(e, KeyType(key)) && Sorted(e) {
            forall j | 0 <= j < mid ensures ValLess(ValOf(e[j]), key.val) {
              LeLessTransitive(ValOf(e[j]), ValOf(e[mid]), key.val);
            }
          }
          low := mid + 1;
        } else {
          low := mid;
          if OfType(e, KeyType(key)) && Sorted(e) {
            ValLessTotal(key.val, ValOf(e[mid]));
            LowerBoundAtEqual(e, key.val, low);
          }
          return Ok(low);
        }
      }
    }
    if OfType(e, KeyType(key)) && Sorted(e) {
      LowerBoundAtExit(e, key.val, low);
    }
    return Ok(low);
  }

  /**
   * The tail of BPlusTree::search in a leaf (ix.cc:673-681): the entry
   * index for key and whether the key is stored there.
   */
  function LeafStep(e: seq<Entry>, key: Key, low: nat): (r: Result<(nat, bool)>)
    requires low < |e|
    ensures r.Throws? <==> ValType(ValOf(e[low])) != KeyType(key)
  {
    match Equal(e[low].key, key)
    case Throws(m) => Throws(m)
    case Ok(eq) =>
      if eq then Ok((low, true))
      else if low == |e| - 1 then
        // entries.back() is entries[low] here, so the comparison cannot throw
        if Less(e[|e| - 1].key, key).value then Ok((low + 1, false)) else Ok((low, false))
      else Ok((low, false))
  }

  /**
   * After the binary search, a leaf reports the key as found exactly when
   * it is present, at an entry holding it, and otherwise the position at
   * which inserting it keeps the entries sorted.
   */
  lemma LeafStepCorrect(e: seq<Entry>, key: Key, low: nat)
    requires Sorted(e) && OfType(e, KeyType(key)) && LowerBoundSpec(e, key.val, low)
    ensures LeafStep(e, key, low).Ok?
    ensures var (idx, found) := LeafStep(e, key, low).value;
      (found <==> Present(e, key.val)) &&
      (found ==> idx < |e| && ValOf(e[idx]) == key.val) &&
      (!found ==> idx == NumLess(e, key.val))
  {
    EqualIsValueEquality(e[low].key, key);
    PresentIffBlock(e, key.val);
    NumLessSplits(e, key.val);
    NumLessEqSplits(e, key.val);
    var k := key.val;
    if ValOf(e[low]) != k {
      if low == |e| - 1 {
        ValLessTotal(ValOf(e[low]), k);
        if ValLess(ValOf(e[low]), k) {
          forall j | 0 <= j < |e| ensures ValLess(ValOf(e[j]), k) {
            if j < low { assert ValLess(ValOf(e[j]), k); }
          }
          NumLessAtLeast(e, k, |e|);
        } else {
          LessAsymmetric(k, ValOf(e[low]));
        }
      }
    }
  }

  /**
   * The tail of BPlusTree::search in an index node (ix.cc:683-692): the
   * index of the child to descend into.
   */
  function ChildStep(e: seq<Entry>, key: Key, low: nat): (r: Result<nat>)
    requires low < |e|
    ensures r.Ok? ==> r.value <= |e|
    ensures r.Throws? <==> ValType(ValOf(e[low])) != KeyType(key)
  {
    match Equal(e[low].key, key)
    case Throws(m) => Throws(m)
    case Ok(eq) =>
      if eq then Ok(low + 1)
      else if low == |e| - 1 then
        // entries.back() is entries[low] here, so the comparison cannot throw
        if Less(e[|e| - 1].key, key).value then Ok(low + 1) else Ok(low)
      else Ok(low)
  }

  /**
   * In an index node with strictly increasing separators, the search
   * descends into child NumLessEq: the separators not above the key are
   * exactly those left of the chosen child.
   */
  lemma ChildStepCorrect(e: seq<Entry>, key: Key, low: nat)
    requires SortedStrict(e) && OfType(e, KeyType(key)) && LowerBoundSpec(e, key.val, low)
    ensures ChildStep(e, key, low) == Ok(NumLessEq(e, key.val))
  {
    StrictIsSorted(e);
    StrictUnique(e, key.val);
    EqualIsValueEquality(e[low].key, key);
    PresentIffBlock(e, key.val);
    NumLessSplits(e, key.val);
    NumLessEqSplits(e, key.val);
    var k := key.val;
    if ValOf(e[low]) != k {
      ValLessTotal(ValOf(e[low]), k);
      if !Present(e, k) {
        assert NumLessEq(e, k) == NumLess(e, k);
      }
      if low == |e| - 1 && ValLess(ValOf(e[low]), k) {
        forall j | 0 <= j < |e| ensures ValLess(ValOf(e[j]), k) {
          if j < low { assert ValLess(ValOf(e[j]), k); }
        }
        NumLessAtLeast(e, k, |e|);
      } else if ValLess(k, ValOf(e[low])) {
        LessAsymmetric(k, ValOf(e[low]));
        assert NumLessEq(e, k) <= low;
      }
    }
  }

  // ---------------------------------------------------------------------
  // Sequence surgery
  // ---------------------------------------------------------------------

  /** `deque::insert(begin() + i, x)`. */
  function InsertAt<T>(s: seq<T>, i: nat, x: T): (r: seq<T>)
    requires i <= |s|
    ensures |r| == |s| + 1 && r[i] == x
    ensures r[..i] == s[..i] && r[i + 1..] == s[i..]
  {
    s[..i] + [x] + s[i..]
  }

  /** `deque::erase(begin() + i)`. */
  function RemoveAt<T>(s: seq<T>, i: nat): (r: seq<T>)
    requires i < |s|
    ensures |r| == |s| - 1
    ensures r[..i] == s[..i] && r[i..] == s[i + 1..]
  {
    s[..i] + s[i + 1..]
  }

  lemma InsertRemoveInverse<T>(s: seq<T>, i: nat, x: T)
    requires i <= |s|
    ensures RemoveAt(InsertAt(s, i, x), i) == s
  {
    assert InsertAt(s, i, x)[..i] + InsertAt(s, i, x)[i + 1..] == s[..i] + s[i..];
  }

  /** Inserting a key at its NumLess position keeps a node strictly sorted. */
  lemma InsertKeepsStrict(e: seq<Entry>, x: Entry)
    requires SortedStrict(e) && OfType(e, ValType(ValOf(x))) && !Present(e, ValOf(x))
    ensures SortedStrict(InsertAt(e, NumLess(e, ValOf(x)), x))
    ensures OfType(InsertAt(e, NumLess(e, ValOf(x)), x), ValType(ValOf(x)))
  {
    var k := ValOf(x);
    var n := NumLess(e, k);
    var r := InsertAt(e, n, x);
    StrictIsSorted(e);
    NumLessSplits(e, k);
    forall i | n < i < |r| ensures ValLess(k, ValOf(r[i])) {
      assert r[i] == e[i - 1];
      ValLessTotal(k, ValOf(e[i - 1]));
    }
    forall i, j | 0 <= i < j < |r| ensures ValLess(ValOf(r[i]), ValOf(r[j])) {
      if j < n {
        assert r[i] == e[i] && r[j] == e[j];
      } else if j == n {
        assert r[i] == e[i];
      } else if i == n {
      } else if i < n {
        assert r[i] == e[i] && r[j] == e[j - 1];
        ValLessTransitive(ValOf(r[i]), k, ValOf(r[j]));
      } else {
        assert r[i] == e[i - 1] && r[j] == e[j - 1];
      }
    }
  }

  /** Removing an entry keeps a node strictly sorted and its key set minus that key. */
  lemma RemoveKeepsStrict(e: seq<Entry>, i: nat)
    requires SortedStrict(e) && i < |e|
    ensures SortedStrict(RemoveAt(e, i))
    ensures forall t | OfType(e, t) :: OfType(RemoveAt(e, i), t)
    ensures !Present(RemoveAt(e, i), ValOf(e[i]))
  {
    var r := RemoveAt(e, i);
    assert forall a | 0 <= a < i :: r[a] == e[a];
    assert forall a | i <= a < |r| :: r[a] == e[a + 1];
    forall a, b | 0 <= a < b < |r| ensures ValLess(ValOf(r[a]), ValOf(r[b])) {
      if b < i {
        assert r[a] == e[a] && r[b] == e[b];
      } else if a < i {
        assert r[a] == e[a] && r[b] == e[b + 1];
      } else {
        assert r[a] == e[a + 1] && r[b] == e[b + 1];
      }
    }
    forall a | 0 <= a < |r| ensures ValOf(r[a]) != ValOf(e[i]) {
      ValLessIrreflexive(ValOf(e[i]));
      if a < i {
        assert ValLess(ValOf(e[a]), ValOf(e[i]));
      } else {
        assert ValLess(ValOf(e[i]), ValOf(e[a + 1]));
      }
    }
  }

  /**
   * A leaf split (ix.cc:455-458): the first m entries stay, the rest move
   * to the new right sibling, whose first key is copied up.
   */
  function SplitLeaf(e: seq<Entry>, m: nat): (r: (seq<Entry>, seq<Entry>))
    requires m < |e|
    ensures |r.0| == m && |r.1| == |e| - m
    ensures r.0 + r.1 == e && r.1[0] == e[m]
  {
    (e[..m], e[m..])
  }

  /** The result of splitting an index node around its entry m. */
  datatype IndexSplit = IndexSplit(leftEntries: seq<Entry>, mid: Entry, rightEntries: seq<Entry>,
                                   leftChildren: seq<int>, rightChildren: seq<int>)

  /**
   * An index-node split (ix.cc:459-466): entries m+1.. and children m+1..
   * move right; entry m is pushed up and kept by neither half.
   */
  function SplitIndex(e: seq<Entry>, c: seq<int>, m: nat): (r: IndexSplit)
    requires m < |e| && |c| == |e| + 1
    ensures |r.leftEntries| == m && |r.leftChildren| == m + 1
    ensures |r.rightChildren| == |r.rightEntries| + 1
    ensures r.leftEntries + [r.mid] + r.rightEntries == e
    ensures r.leftChildren + r.rightChildren == c
  {
    IndexSplit(e[..m], e[m], e[m + 1..], c[..m + 1], c[m + 1..])
  }

  /** Both halves of a split keep their order and lie on either side of the separator. */
  lemma SplitSeparates(e: seq<Entry>, c: seq<int>, m: nat)
    requires m < |e| && |c| == |e| + 1 && SortedStrict(e)
    ensures var s := SplitIndex(e, c, m);
      SortedStrict(s.leftEntries) && SortedStrict(s.rightEntries) &&
      (forall i | 0 <= i < |s.leftEntries| :: ValLess(ValOf(s.leftEntries[i]), ValOf(s.mid))) &&
      (forall i | 0 <= i < |s.rightEntries| :: ValLess(ValOf(s.mid), ValOf(s.rightEntries[i])))
    ensures var (l, r) := SplitLeaf(e, m);
      SortedStrict(l) && SortedStrict(r) &&
      (forall i | 0 <= i < |l| :: ValLess(ValOf(l[i]), ValOf(r[0]))) &&
      (forall i | 0 <= i < |r| :: !ValLess(ValOf(r[i]), ValOf(r[0])))
  {
    var s := SplitIndex(e, c, m);
    forall i | 0 <= i < |s.rightEntries| ensures ValLess(ValOf(s.mid), ValOf(s.rightEntries[i])) {
      assert s.rightEntries[i] == e[m + 1 + i];
    }
    var (l, r) := SplitLeaf(e, m);
    forall i | 0 <= i < |r| ensures !ValLess(ValOf(r[i]), ValOf(r[0])) {
      if i > 0 {
        assert r[i] == e[m + i];
        LessAsymmetric(ValOf(e[m]), ValOf(e[m + i]));
      } else {
        ValLessIrreflexive(ValOf(r[0]));
      }
    }
  }

  /** The parent's part of a split (ix.cc:483-484): the separator at i, the new child at i+1. */
  function AddSeparator(n: Node, i: nat, mid: Key, newPid: int): (r: Node)
    requires i <= |n.entries| && i + 1 <= |n.children|
    ensures |r.entries| == |n.entries| + 1 && |r.children| == |n.children| + 1
    ensures r.entries[i] == Entry(mid, None) && r.children[i + 1] == newPid
    ensures RemoveAt(r.entries, i) == n.entries && RemoveAt(r.children, i + 1) == n.children
    ensures r.leaf == n.leaf && r.right == n.right
  {
    InsertRemoveInverse(n.entries, i, Entry(mid, None));
    InsertRemoveInverse(n.children, i + 1, newPid);
    n.(entries := InsertAt(n.entries, i, Entry(mid, None)),
       children := InsertAt(n.children, i + 1, newPid))
  }

  /** The parent's part of a merge (ix.cc:560-561): separator i and child i+1 go. */
  function DropSeparator(n: Node, i: nat): (r: Node)
    requires i < |n.entries| && i + 1 < |n.children|
    ensures |r.entries| == |n.entries| - 1 && |r.children| == |n.children| - 1
    ensures r.children[..i + 1] == n.children[..i + 1]
    ensures r.leaf == n.leaf && r.right == n.right
  {
    n.(entries := RemoveAt(n.entries, i), children := RemoveAt(n.children, i + 1))
  }

  lemma AddDropInverse(n: Node, i: nat, mid: Key, newPid: int)
    requires i <= |n.entries| && i + 1 <= |n.children|
    ensures DropSeparator(AddSeparator(n, i, mid, newPid), i) == n
  {
  }

  // ---------------------------------------------------------------------
  // Borrowing and merging (erase)
  // ---------------------------------------------------------------------

  /** The contents of two siblings and the separator between them in the parent. */
  datatype Siblings = Siblings(left: Node, sep: Entry, right: Node)

  /** The entries in key order below (and including) the separator of two siblings. */
  function InOrder(s: Siblings): seq<Entry>
  {
    if s.left.leaf then s.left.entries + s.right.entries
    else s.left.entries + [s.sep] + s.right.entries
  }

  /** A leaf borrows the right sibling's first entry (ix.cc:520-523). */
  function BorrowRightLeaf(s: Siblings): (r: Siblings)
    requires |s.right.entries| >= 2
    ensures |r.left.entries| == |s.left.entries| + 1 && |r.right.entries| == |s.right.entries| - 1
    ensures InOrder(r) == InOrder(s) || !s.left.leaf
    ensures r.sep.key == r.right.entries[0].key && r.sep.data.None?
  {
    var re := s.right.entries;
    var r := Siblings(s.left.(entries := s.left.entries + [re[0]]),
                      Entry(re[1].key, None),
                      s.right.(entries := re[1..]));
    assert s.left.leaf ==> InOrder(r) == s.left.entries + ([re[0]] + re[1..]);
    r
  }

  /** A leaf borrows the left sibling's last entry (ix.cc:535-538). */
  function BorrowLeftLeaf(s: Siblings): (r: Siblings)
    requires |s.left.entries| >= 1
    ensures |r.left.entries| == |s.left.entries| - 1 && |r.right.entries| == |s.right.entries| + 1
    ensures InOrder(r) == InOrder(s) || !s.left.leaf
    ensures r.sep.key == r.right.entries[0].key && r.sep.data.None?
  {
    var le := s.left.entries;
    var r := Siblings(s.left.(entries := le[..|le| - 1]),
                      Entry(le[|le| - 1].key, None),
                      s.right.(entries := [le[|le| - 1]] + s.right.entries));
    assert s.left.leaf ==> InOrder(r) == (le[..|le| - 1] + [le[|le| - 1]]) + s.right.entries;
    r
  }

  /**
   * An index node borrows through the parent (ix.cc:525-529): the
   * separator comes down to the left, the right's first entry goes up and
   * its first child moves left.
   */
  function BorrowRightIndex(s: Siblings): (r: Siblings)
    requires |s.right.entries| >= 1 && |s.right.children| >= 1
    ensures |r.left.entries| == |s.left.entries| + 1 && |r.right.entries| == |s.right.entries| - 1
    ensures |r.left.children| == |s.left.children| + 1 && |r.right.children| == |s.right.children| - 1
    ensures r.left.entries + [r.sep] + r.right.entries == s.left.entries + [s.sep] + s.right.entries
    ensures r.left.children + r.right.children == s.left.children + s.right.children
  {
    var re := s.right.entries;
    var rc := s.right.children;
    assert s.left.children + rc == (s.left.children + [rc[0]]) + rc[1..];
    assert s.left.entries + [s.sep] + re == (s.left.entries + [s.sep]) + [re[0]] + re[1..];
    Siblings(s.left.(entries := s.left.entries + [s.sep], children := s.left.children + [rc[0]]),
             re[0],
             s.right.(entries := re[1..], children := rc[1..]))
  }

  /** The mirror image of BorrowRightIndex (ix.cc:540-544). */
  function BorrowLeftIndex(s: Siblings): (r: Siblings)
    requires |s.left.entries| >= 1 && |s.left.children| >= 1
    ensures |r.left.entries| == |s.left.entries| - 1 && |r.right.entries| == |s.right.entries| + 1
    ensures |r.left.children| == |s.left.children| - 1 && |r.right.children| == |s.right.children| + 1
    ensures r.left.entries + [r.sep] + r.right.entries == s.left.entries + [s.sep] + s.right.entries
    ensures r.left.children + r.right.children == s.left.children + s.right.children
  {
    var le := s.left.entries;
    var lc := s.left.children;
    assert lc + s.right.children == lc[..|lc| - 1] + ([lc[|lc| - 1]] + s.right.children);
    assert le + [s.sep] + s.right.entries == le[..|le| - 1] + [le[|le| - 1]] + ([s.sep] + s.right.entries);
    Siblings(s.left.(entries := le[..|le| - 1], children := lc[..|lc| - 1]),
             le[|le| - 1],
             s.right.(entries := [s.sep] + s.right.entries, children := [lc[|lc| - 1]] + s.right.children))
  }

  /**
   * A merge (ix.cc:552-558): the left node absorbs the separator (index
   * nodes only), the right node's entries and children, and its right link.
   */
  function Merge(s: Siblings): (r: Node)
    ensures r.entries == InOrder(s)
    ensures r.children == (if s.left.leaf then s.left.children else s.left.children + s.right.children)
    ensures r.leaf == s.left.leaf && r.right == s.right.right
  {
    if s.left.leaf then s.left.(entries := s.left.entries + s.right.entries, right := s.right.right)
    else s.left.(entries := s.left.entries + [s.sep] + s.right.entries,
                 children := s.left.children + s.right.children, right := s.right.right)
  }

  /** A borrow between strictly sorted leaves keeps both sorted and the separator between them. */
  lemma BorrowLeafKeepsOrder(s: Siblings, fromRight: bool)
    requires s.left.leaf && SortedStrict(InOrder(s))
    requires fromRight ==> |s.right.entries| >= 2
    requires !fromRight ==> |s.left.entries| >= 1
    ensures var r := if fromRight then BorrowRightLeaf(s) else BorrowLeftLeaf(s);
      SortedStrict(r.left.entries) && SortedStrict(r.right.entries) &&
      (forall i | 0 <= i < |r.left.entries| :: ValLess(ValOf(r.left.entries[i]), ValOf(r.sep)))
  {
    var r := if fromRight then BorrowRightLeaf(s) else BorrowLeftLeaf(s);
    var all := InOrder(s);
    assert InOrder(r) == all;
    var n := |r.left.entries|;
    forall i | 0 <= i < n ensures r.left.entries[i] == all[i] { }
    forall i | 0 <= i < |r.right.entries| ensures r.right.entries[i] == all[n + i] { }
  }

  // ---------------------------------------------------------------------
  // Sorting (bulkLoad)
  // ---------------------------------------------------------------------

  /** Inserts x before the first entry that is not below it. */
  function InsertSorted(x: Entry, s: seq<Entry>): (r: seq<Entry>)
    ensures multiset(r) == multiset(s) + multiset{x} && |r| == |s| + 1
  {
    if |s| == 0 then [x]
    else if !ValLess(ValOf(s[0]), ValOf(x)) then [x] + s
    else
      assert s == [s[0]] + s[1..];
      [s[0]] + InsertSorted(x, s[1..])
  }

  /** An insertion sort: a witness that every list of keys of one type can be sorted. */
  function SortEntries(s: seq<Entry>): (r: seq<Entry>)
    ensures multiset(r) == multiset(s) && |r| == |s|
  {
    if |s| == 0 then []
    else
      assert s == [s[0]] + s[1..];
      InsertSorted(s[0], SortEntries(s[1..]))
  }

  lemma OfTypeMultiset(s: seq<Entry>, r: seq<Entry>, t: AttrType)
    requires OfType(s, t) && multiset(r) == multiset(s)
    ensures OfType(r, t)
  {
    forall i | 0 <= i < |r| ensures ValType(ValOf(r[i])) == t {
      assert r[i] in multiset(s);
    }
  }

  /** An entry not above any entry of a sorted list can go in front of it. */
  lemma ConsSorted(h: Entry, t: seq<Entry>)
    requires Sorted(t) && forall j | 0 <= j < |t| :: !ValLess(ValOf(t[j]), ValOf(h))
    ensures Sorted([h] + t)
  {
    var r := [h] + t;
    forall i, j | 0 <= i < j < |r| ensures !ValLess(ValOf(r[j]), ValOf(r[i])) {
      assert r[j] == t[j - 1];
      if i > 0 {
        assert r[i] == t[i - 1];
      }
    }
  }

  lemma {:induction false} InsertSortedSorted(x: Entry, s: seq<Entry>)
    requires Sorted(s) && OfType(s, ValType(ValOf(x)))
    ensures Sorted(InsertSorted(x, s))
  {
    if |s| == 0 {
    } else if !ValLess(ValOf(s[0]), ValOf(x)) {
      forall j | 0 <= j < |s| ensures !ValLess(ValOf(s[j]), ValOf(x)) {
        if j > 0 {
          LeTransitive(ValOf(x), ValOf(s[0]), ValOf(s[j]));
        }
      }
      ConsSorted(x, s);
    } else {
      var t := s[1..];
      InsertSortedSorted(x, t);
      var rt := InsertSorted(x, t);
      forall j | 0 <= j < |rt| ensures !ValLess(ValOf(rt[j]), ValOf(s[0])) {
        assert rt[j] in multiset(t) + multiset{x};
        if rt[j] in multiset(t) {
          var k :| 0 <= k < |t| && t[k] == rt[j];
          assert t[k] == s[k + 1];
        } else {
          LessAsymmetric(ValOf(s[0]), ValOf(x));
        }
      }
      ConsSorted(s[0], rt);
    }
  }

  /** std::sort of bulkLoad can always produce a sorted permutation of its input. */
  lemma {:induction false} SortEntriesSorted(s: seq<Entry>, t: AttrType)
    requires OfType(s, t)
    ensures Sorted(SortEntries(s)) && OfType(SortEntries(s), t)
  {
    if |s| > 0 {
      SortEntriesSorted(s[1..], t);
      InsertSortedSorted(s[0], SortEntries(s[1..]));
    }
    OfTypeMultiset(s, SortEntries(s), t);
  }

  // ---------------------------------------------------------------------
  // Chunking (bulkLoad)
  // ---------------------------------------------------------------------

  function Sum(s: seq<nat>): nat
  {
    if |s| == 0 then 0 else s[0] + Sum(s[1..])
  }

  /**
   * The sizes of the consecutive groups bulkLoad cuts r remaining entries
   * into (ix.cc:592-606 with cap = MAX_ENTRY, ix.cc:620-638 with cap =
   * MAX_ENTRY + 1): full groups, except that the last two share what is left
   * evenly once it fits in two.
   */
  function ChunkSizes(r: nat, cap: nat): (sizes: seq<nat>)
    requires r >= 1 && cap >= 1
    ensures |sizes| >= 1 && Sum(sizes) == r
    decreases r
  {
    if r <= cap then [r]
    else if r <= 2 * cap then
      assert Sum([r / 2, r - r / 2]) == r / 2 + Sum([r - r / 2]);
      [r / 2, r - r / 2]
    else
      var rest := ChunkSizes(r - cap, cap);
      assert ([cap] + rest)[1..] == rest;
      [cap] + rest
  }

  /** Each group fits in a node, none is under half full, and there is one group exactly when everything fits in one. */
  lemma {:induction false} ChunkSizesSound(r: nat, cap: nat)
    requires r >= 1 && cap >= 1
    ensures forall i | 0 <= i < |ChunkSizes(r, cap)| :: 1 <= ChunkSizes(r, cap)[i] <= cap
    ensures r > cap ==> forall i | 0 <= i < |ChunkSizes(r, cap)| :: 2 * ChunkSizes(r, cap)[i] >= cap
    ensures r <= cap <==> |ChunkSizes(r, cap)| == 1
    decreases r
  {
    if r > 2 * cap {
      ChunkSizesSound(r - cap, cap);
      var rest := ChunkSizes(r - cap, cap);
      var all := ChunkSizes(r, cap);
      assert all == [cap] + rest;
      forall i | 0 <= i < |all| ensures 1 <= all[i] <= cap && 2 * all[i] >= cap {
        if i > 0 { assert all[i] == rest[i - 1]; }
      }
    }
  }

  /** s cut into consecutive pieces of the given sizes. */
  function Chunk<T>(s: seq<T>, sizes: seq<nat>): (r: seq<seq<T>>)
    requires Sum(sizes) == |s|
    ensures |r| == |sizes|
    ensures forall i | 0 <= i < |r| :: |r[i]| == sizes[i]
  {
    if |sizes| == 0 then []
    else [s[..sizes[0]]] + Chunk(s[sizes[0]..], sizes[1..])
  }

  function Flatten<T>(ss: seq<seq<T>>): seq<T>
  {
    if |ss| == 0 then [] else ss[0] + Flatten(ss[1..])
  }

  /** Chunking loses nothing and reorders nothing. */
  lemma {:induction false} FlattenChunk<T>(s: seq<T>, sizes: seq<nat>)
    requires Sum(sizes) == |s|
    ensures Flatten(Chunk(s, sizes)) == s
  {
    if |sizes| > 0 {
      FlattenChunk(s[sizes[0]..], sizes[1..]);
      var c := Chunk(s, sizes);
      assert c[1..] == Chunk(s[sizes[0]..], sizes[1..]);
      assert s == s[..sizes[0]] + s[sizes[0]..];
    }
  }

  /** The length of each piece. */
  function Lengths<T>(ss: seq<seq<T>>): (r: seq<nat>)
    ensures |r| == |ss| && forall i | 0 <= i < |ss| :: r[i] == |ss[i]|
  {
    seq(|ss|, i requires 0 <= i < |ss| => |ss[i]|)
  }

  lemma {:induction false} FlattenAppend<T>(ss: seq<seq<T>>, x: seq<T>)
    ensures Flatten(ss + [x]) == Flatten(ss) + x
  {
    if |ss| > 0 {
      assert (ss + [x])[1..] == ss[1..] + [x];
      FlattenAppend(ss[1..], x);
    }
  }

  /**
   * Pieces with the lengths of the first sizes that, read in order, are a
   * prefix of s are the first pieces Chunk cuts s into.
   */
  lemma {:induction false} ChunkPrefix<T>(s: seq<T>, sizes: seq<nat>, ss: seq<seq<T>>)
    requires Sum(sizes) == |s| && |ss| <= |sizes| && Lengths(ss) == sizes[..|ss|]
    requires |Flatten(ss)| <= |s| && Flatten(ss) == s[..|Flatten(ss)|]
    ensures forall k | 0 <= k < |ss| :: ss[k] == Chunk(s, sizes)[k]
  {
    if |ss| > 0 {
      var f := Flatten(ss);
      assert f == ss[0] + Flatten(ss[1..]);
      assert |ss[0]| == sizes[0];
      assert ss[0] == f[..sizes[0]] == s[..sizes[0]];
      var s', sizes', ss' := s[sizes[0]..], sizes[1..], ss[1..];
      assert Lengths(ss') == sizes'[..|ss'|] by {
        assert forall k | 0 <= k < |ss'| :: Lengths(ss')[k] == Lengths(ss)[k + 1];
      }
      assert Flatten(ss') == f[sizes[0]..];
      assert Flatten(ss') == s'[..|Flatten(ss')|];
      ChunkPrefix(s', sizes', ss');
      var c := Chunk(s, sizes);
      assert c[1..] == Chunk(s', sizes');
      forall k | 0 <= k < |ss| ensures ss[k] == c[k] {
        if k > 0 {
          assert ss[k] == ss'[k - 1] && c[k] == c[1..][k - 1];
        }
      }
    }
  }

  /**
   * One group of the leaf loop of bulkLoad (ix.cc:594-605) at position i of
   * n entries: (j, step, last') with the group sorted[i..j], the next
   * position i + step and the new `last` flag. Undefined when `2 * cap` or
   * `i + 2 * cap` overflows `int`; the caller has checked `i + cap`.
   */
  function LeafGroup(i: int, n: int, cap: int, last: bool): (r: Outcome<(int, int, bool)>)
    requires 0 <= i < n < TWO_31 && 1 <= cap && i + cap < TWO_31
    ensures r.Returns? || r.Undefined?
    ensures r.Undefined? <==> !last && (2 * cap >= TWO_31 || i + 2 * cap >= TWO_31)
    ensures r.Returns? ==> i < r.value.0 <= n && r.value.0 - i <= cap && r.value.1 >= 1
  {
    var j := Min(i + cap, n);
    if last then Returns((j, cap, true))
    else if 2 * cap >= TWO_31 || i + 2 * cap >= TWO_31 then Undefined
    else if i + 2 * cap >= n && i + cap < n then Returns((i + (n - i) / 2, (n - i) / 2, true))
    else Returns((j, cap, false))
  }

  /**
   * The sizes side of the leaf loop state at position i of n: the sizes of
   * the groups made so far followed by what is still to come are
   * ChunkSizes(n, cap).
   */
  ghost predicate SizesProgress(n: nat, cap: nat, i: int, last: bool, done: seq<nat>)
    requires n >= 1 && cap >= 1
  {
    (!last && i < n ==> done + ChunkSizes(n - i, cap) == ChunkSizes(n, cap)) &&
    (last && i < n ==> done + [n - i] == ChunkSizes(n, cap) && n - i <= cap) &&
    (i >= n ==> done == ChunkSizes(n, cap))
  }

  /** The rest of the entries fits one group: it is the last size. */
  lemma SizesOne(n: nat, cap: nat, i: nat, done: seq<nat>)
    requires 1 <= cap && i < n && n - i <= cap
    requires done + ChunkSizes(n - i, cap) == ChunkSizes(n, cap)
    ensures done + [n - i] == ChunkSizes(n, cap)
  {
    assert ChunkSizes(n - i, cap) == [n - i];
  }

  /** The rest of the entries needs two groups: they are its two halves. */
  lemma SizesHalf(n: nat, cap: nat, i: nat, done: seq<nat>)
    requires 1 <= cap && i < n && cap < n - i <= 2 * cap
    requires done + ChunkSizes(n - i, cap) == ChunkSizes(n, cap)
    ensures (done + [(n - i) / 2]) + [n - (i + (n - i) / 2)] == ChunkSizes(n, cap)
    ensures n - (i + (n - i) / 2) <= cap
  {
    var rest := n - i;
    assert ChunkSizes(rest, cap) == [rest / 2, rest - rest / 2];
    assert (done + [rest / 2]) + [rest - rest / 2] == done + [rest / 2, rest - rest / 2];
  }

  /** The rest of the entries needs more than two groups: the next one is full. */
  lemma SizesFull(n: nat, cap: nat, i: nat, done: seq<nat>)
    requires 1 <= cap && i < n && n - i > 2 * cap
    requires done + ChunkSizes(n - i, cap) == ChunkSizes(n, cap)
    ensures (done + [cap]) + ChunkSizes(n - (i + cap), cap) == ChunkSizes(n, cap)
  {
    var rest := n - i;
    assert ChunkSizes(rest, cap) == [cap] + ChunkSizes(rest - cap, cap);
    assert done + ([cap] + ChunkSizes(rest - cap, cap)) == (done + [cap]) + ChunkSizes(rest - cap, cap);
  }

  /** Each group of the loop is the next group of ChunkSizes. */
  lemma SizesStep(n: nat, cap: nat, i: int, last: bool, done: seq<nat>, j: int, step: int, last': bool)
    requires n >= 1 && cap >= 1 && n < TWO_31 && 0 <= i < n && i + cap < TWO_31
    requires SizesProgress(n, cap, i, last, done)
    requires LeafGroup(i, n, cap, last) == Returns((j, step, last'))
    ensures i <= j <= n && j - i <= cap && step >= 1 && Min(i + step, n) == j
    ensures SizesProgress(n, cap, i + step, last', done + [j - i])
  {
    var rest := n - i;
    if last {
      assert j == n && step == cap && last' && i + step >= n;
      assert done + [j - i] == ChunkSizes(n, cap);
    } else if rest <= cap {
      assert j == n && step == cap && !last' && i + step >= n;
      SizesOne(n, cap, i, done);
      assert done + [j - i] == ChunkSizes(n, cap);
    } else if rest <= 2 * cap {
      assert j == i + rest / 2 && step == rest / 2 && last' && i + step < n;
      SizesHalf(n, cap, i, done);
      assert (done + [j - i]) + [n - (i + step)] == ChunkSizes(n, cap);
    } else {
      assert j == i + cap && step == cap && !last' && i + step < n;
      SizesFull(n, cap, i, done);
      assert (done + [j - i]) + ChunkSizes(n - (i + step), cap) == ChunkSizes(n, cap);
    }
  }

  /**
   * The state of the leaf loop of bulkLoad at position i: the groups made so
   * far read back the first i entries, and their sizes are the first ones
   * of ChunkSizes(|sorted|, cap).
   */
  ghost predicate LeafProgress(sorted: seq<Entry>, cap: nat, i: int, last: bool, chunks: seq<seq<Entry>>)
    requires |sorted| >= 1 && cap >= 1
  {
    0 <= i && Flatten(chunks) == sorted[..Min(i, |sorted|)] &&
    SizesProgress(|sorted|, cap, i, last, Lengths(chunks))
  }

  lemma LeafProgressStart(sorted: seq<Entry>, cap: nat)
    requires |sorted| >= 1 && cap >= 1
    ensures LeafProgress(sorted, cap, 0, false, [])
  {
    assert Lengths<Entry>([]) == [];
  }

  /** The group sorted[i..j] of the loop extends the state to the next position. */
  lemma LeafProgressStep(sorted: seq<Entry>, cap: nat, i: int, last: bool, chunks: seq<seq<Entry>>,
                         j: int, step: int, last': bool)
    requires |sorted| >= 1 && cap >= 1 && |sorted| < TWO_31 && i < |sorted| && i + cap < TWO_31
    requires LeafProgress(sorted, cap, i, last, chunks)
    requires LeafGroup(i, |sorted|, cap, last) == Returns((j, step, last'))
    ensures 0 <= i <= j <= |sorted| && j - i <= cap && step >= 1
    ensures LeafProgress(sorted, cap, i + step, last', chunks + [sorted[i..j]])
  {
    SizesStep(|sorted|, cap, i, last, Lengths(chunks), j, step, last');
    var c := chunks + [sorted[i..j]];
    FlattenAppend(chunks, sorted[i..j]);
    assert sorted[..i] + sorted[i..j] == sorted[..j];
    assert Lengths(c) == Lengths(chunks) + [j - i];
  }

  /** When the loop stops, the groups it made are the first pieces Chunk cuts sorted into, all of them if it ran to the end. */
  lemma LeafProgressChunks(sorted: seq<Entry>, cap: nat, i: int, last: bool, chunks: seq<seq<Entry>>)
    requires |sorted| >= 1 && cap >= 1 && LeafProgress(sorted, cap, i, last, chunks)
    ensures |chunks| <= |ChunkSizes(|sorted|, cap)|
    ensures forall k | 0 <= k < |chunks| :: chunks[k] == Chunk(sorted, ChunkSizes(|sorted|, cap))[k]
    ensures i >= |sorted| <==> |chunks| == |ChunkSizes(|sorted|, cap)|
  {
    var n := |sorted|;
    var sizes := ChunkSizes(n, cap);
    if i < n && !last {
      assert (Lengths(chunks) + ChunkSizes(n - i, cap))[..|chunks|] == Lengths(chunks);
    } else if i < n {
      assert (Lengths(chunks) + [n - i])[..|chunks|] == Lengths(chunks);
    }
    ChunkPrefix(sorted, sizes, chunks);
  }

  /**
   * The leaf layer of bulkLoad over n sorted entries: every leaf holds
   * between 1 and MAX entries, at least M when there is more than one leaf,
   * and reading the leaves left to right gives the sorted entries back.
   */
  lemma LeafLayerSound(sorted: seq<Entry>, m: nat)
    requires m >= 1 && |sorted| >= 1
    ensures Sum(ChunkSizes(|sorted|, 2 * m)) == |sorted|
    ensures var leaves := Chunk(sorted, ChunkSizes(|sorted|, 2 * m));
      Flatten(leaves) == sorted &&
      (forall i | 0 <= i < |leaves| :: 1 <= |leaves[i]| <= 2 * m) &&
      (|leaves| > 1 ==> forall i | 0 <= i < |leaves| :: m <= |leaves[i]|) &&
      (|leaves| == 1 <==> |sorted| <= 2 * m)
  {
    ChunkSizesSound(|sorted|, 2 * m);
    FlattenChunk(sorted, ChunkSizes(|sorted|, 2 * m));
  }
}
