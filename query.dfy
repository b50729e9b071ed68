/**
 * Query operators (qe/qe.cc, qe/qe.h): the selection operator Filter over
 * an input iterator, the table and index scans' attribute renaming and
 * alias handling, and the grace hash join's bucket and partition-file
 * rules. `cmpAttr`, `parseNullIndicator` and `KeyHash` are not shown, so
 * they are parameters: a comparator, a null test and a hash value.
 */
module Query {
  import opened Wrappers
  import opened Types
  import Catalog

  /** End of an operator's output. */
  const QE_EOF: int := -1

  /** Value of qe/qe.h: a type and the bytes of the value. */
  datatype Value = Value(valueType: AttrType, data: seq<byte>)

  /** Condition of qe/qe.h. */
  datatype Condition = Condition(lhsAttr: string, op: CompOp, bRhsIsAttr: bool, rhsAttr: string, rhsValue: Value)

  /** `cmpAttr(op, type, field, value) != 0`: whether the field at the start of the bytes satisfies the comparison. */
  type Comparator = (CompOp, AttrType, seq<byte>, seq<byte>) -> bool

  /** `parseNullIndicator(tuple, n)[i]`: whether field i of an n-field tuple is null. */
  type NullTest = (seq<byte>, nat, nat) -> bool

  // ---------------------------------------------------------------------
  // Input iterators
  // ---------------------------------------------------------------------

  /**
   * An input iterator as Filter sees it: the tuples it will produce, in
   * order, how many it has produced, and its attributes.
   */
  class TupleSource {
    const tuples: seq<seq<byte>>
    var pos: nat
    const attrs: seq<Attribute>

    constructor(ts: seq<seq<byte>>, fields: seq<Attribute>)
      ensures tuples == ts && attrs == fields && pos == 0
    {
      tuples := ts;
      attrs := fields;
      pos := 0;
    }

    /** `getNextTuple(data)`: the next tuple and 0, or QE_EOF with the buffer untouched. */
    method GetNextTuple(buffer: seq<byte>) returns (rc: int, data: seq<byte>)
      modifies this
      ensures old(pos) < |tuples| ==> rc == 0 && data == tuples[old(pos)] && pos == old(pos) + 1
      ensures old(pos) >= |tuples| ==> rc == QE_EOF && data == buffer && pos == old(pos)
    {
      if pos < |tuples| {
        rc, data := 0, tuples[pos];
        pos := pos + 1;
      } else {
        rc, data := QE_EOF, buffer;
      }
    }

    /** `getAttributes(attrs)`. */
    method GetAttributes() returns (attributes: seq<Attribute>)
      ensures attributes == attrs
    {
      attributes := attrs;
    }
  }

  // ---------------------------------------------------------------------
  // The condition field (qe/qe.cc:32-49)
  // ---------------------------------------------------------------------

  /** The first attribute with the name, as `std::find_if` finds it. */
  function FindAttr(attrs: seq<Attribute>, name: string): (r: Option<nat>)
    ensures r.Some? ==> r.value < |attrs| && attrs[r.value].name == name
    ensures r.Some? ==> forall j | 0 <= j < r.value :: attrs[j].name != name
    ensures r.None? ==> forall j | 0 <= j < |attrs| :: attrs[j].name != name
  {
    if |attrs| == 0 then None
    else if attrs[0].name == name then Some(0)
    else match FindAttr(attrs[1..], name)
      case None => None
      case Some(i) => Some(i + 1)
  }

  /** The number of bytes of a null indicator for n fields: `ceil(n / 8)`. */
  function IndicatorBytes(n: nat): (b: nat)
    ensures 8 * b >= n && 8 * b < n + 8
  {
    (n + 7) / 8
  }

  /**
   * Where field k of the tuple starts: after the null indicator and each
   * earlier non-null field, a varchar taking four bytes of length plus
   * that many characters and any other field its declared length. Reading
   * a varchar length outside the tuple is undefined.
   */
  function FieldOffset(t: seq<byte>, attrs: seq<Attribute>, isNull: NullTest, k: nat): (r: Outcome<int>)
    requires k <= |attrs|
    ensures r.Returns? || r.Undefined?
    ensures k == 0 ==> r == Returns(IndicatorBytes(|attrs|))
    decreases k
  {
    if k == 0 then Returns(IndicatorBytes(|attrs|))
    else match FieldOffset(t, attrs, isNull, k - 1)
      case Returns(off) =>
        if isNull(t, |attrs|, k - 1) then Returns(off)
        else if attrs[k - 1].attrType == TypeVarChar then
          (if 0 <= off && off + 4 <= |t| then Returns(off + 4 + BytesI32(t[off..])) else Undefined)
        else Returns(off + attrs[k - 1].length)
      case _ => Undefined
  }

  /** The total declared length of the non-null fields among the first k. */
  function FixedWidth(t: seq<byte>, attrs: seq<Attribute>, isNull: NullTest, k: nat): nat
    requires k <= |attrs|
  {
    if k == 0 then 0
    else FixedWidth(t, attrs, isNull, k - 1) + (if isNull(t, |attrs|, k - 1) then 0 else attrs[k - 1].length)
  }

  /**
   * With no varchar among the first k fields, field k starts after the
   * null indicator and the declared lengths of the earlier non-null
   * fields: null fields take no bytes.
   */
  lemma {:induction false} FixedFieldOffset(t: seq<byte>, attrs: seq<Attribute>, isNull: NullTest, k: nat)
    requires k <= |attrs| && forall i | 0 <= i < k :: attrs[i].attrType != TypeVarChar
    ensures FieldOffset(t, attrs, isNull, k) == Returns(IndicatorBytes(|attrs|) + FixedWidth(t, attrs, isNull, k))
  {
    if k > 0 {
      FixedFieldOffset(t, attrs, isNull, k - 1);
    }
  }

  /** When every earlier field is null, the field starts right after the null indicator. */
  lemma {:induction false} NullFieldsTakeNoBytes(t: seq<byte>, attrs: seq<Attribute>, isNull: NullTest, k: nat)
    requires k <= |attrs| && forall i | 0 <= i < k :: isNull(t, |attrs|, i)
    ensures FieldOffset(t, attrs, isNull, k) == Returns(IndicatorBytes(|attrs|))
  {
    if k > 0 {
      NullFieldsTakeNoBytes(t, attrs, isNull, k - 1);
    }
  }

  /** The loop of `getNextTuple` that advances `real_data` past the fields before field k (qe/qe.cc:39-49). */
  method ConditionOffset(t: seq<byte>, attrs: seq<Attribute>, isNull: NullTest, k: nat) returns (r: Outcome<int>)
    requires k <= |attrs|
    ensures r == FieldOffset(t, attrs, isNull, k)
  {
    var realData := IndicatorBytes(|attrs|);
    var i := 0;
    while i < k
      invariant 0 <= i <= k
      invariant FieldOffset(t, attrs, isNull, i) == Returns(realData)
    {
      if !isNull(t, |attrs|, i) {
        if attrs[i].attrType == TypeVarChar {
          if !(0 <= realData && realData + 4 <= |t|) {
            UndefinedStays(t, attrs, isNull, i + 1, k);
            return Undefined;
          }
          var charLen := BytesI32(t[realData..]);
          realData := realData + 4 + charLen;
        } else {
          realData := realData + attrs[i].length;
        }
      }
      i := i + 1;
    }
    return Returns(realData);
  }

  /** Once a field offset is undefined, every later one is. */
  lemma {:induction false} UndefinedStays(t: seq<byte>, attrs: seq<Attribute>, isNull: NullTest, i: nat, k: nat)
    requires i <= k <= |attrs| && FieldOffset(t, attrs, isNull, i).Undefined?
    ensures FieldOffset(t, attrs, isNull, k).Undefined?
    decreases k - i
  {
    if i < k {
      UndefinedStays(t, attrs, isNull, i + 1, k);
    }
  }

  // ---------------------------------------------------------------------
  // Selection (qe/qe.cc:27-57)
  // ---------------------------------------------------------------------

  /**
   * What Filter decides with: its copy of the input's attributes, the index
   * of the condition field (None when the constructor never set it), the
   * condition, and the comparator and null test.
   */
  datatype Selection = Selection(attrs: seq<Attribute>, attrIdx: Option<nat>, cond: Condition, cmp: Comparator, isNull: NullTest)

  /**
   * Whether Filter returns the tuple: every tuple under NO_OP; otherwise
   * never a tuple whose condition field is null, and else the comparator
   * on the bytes from the condition field on. Undefined when the field
   * index was never set or the field lies outside the tuple.
   */
  function Accept(s: Selection, t: seq<byte>): (r: Outcome<bool>)
    ensures r.Returns? || r.Undefined?
    ensures s.cond.op == NO_OP ==> r == Returns(true)
    ensures s.cond.op != NO_OP && s.attrIdx.None? ==> r.Undefined?
    ensures (s.cond.op != NO_OP && s.attrIdx.Some? && s.attrIdx.value < |s.attrs| &&
             s.isNull(t, |s.attrs|, s.attrIdx.value)) ==> r == Returns(false)
  {
    if s.cond.op == NO_OP then Returns(true)
    else if s.attrIdx.None? || s.attrIdx.value >= |s.attrs| then Undefined
    else if s.isNull(t, |s.attrs|, s.attrIdx.value) then Returns(false)
    else match FieldOffset(t, s.attrs, s.isNull, s.attrIdx.value)
      case Returns(off) =>
        if 0 <= off <= |t| then Returns(s.cmp(s.cond.op, s.cond.rhsValue.valueType, t[off..], s.cond.rhsValue.data))
        else Undefined
      case _ => Undefined
  }

  /**
   * The index of the tuple the next `getNextTuple` returns, from position
   * pos on: the first accepted one, None when the input runs out first,
   * Undefined when a tuple before it cannot be decided.
   */
  function NextMatch(s: Selection, ts: seq<seq<byte>>, pos: nat): (r: Outcome<Option<nat>>)
    ensures r.Returns? || r.Undefined?
    ensures r.Returns? && r.value.Some? ==>
      pos <= r.value.value < |ts| && Accept(s, ts[r.value.value]) == Returns(true)
    ensures r.Returns? ==> forall j | pos <= j < (if r.value.Some? then r.value.value else |ts|) :: Accept(s, ts[j]) == Returns(false)
    decreases |ts| - pos
  {
    if pos >= |ts| then Returns(None)
    else match Accept(s, ts[pos])
      case Returns(true) => Returns(Some(pos))
      case Returns(false) => NextMatch(s, ts, pos + 1)
      case _ => Undefined
  }

  /** The tuples repeated `getNextTuple` calls return from position pos on, in order. */
  function Selected(s: Selection, ts: seq<seq<byte>>, pos: nat): (r: Outcome<seq<seq<byte>>>)
    decreases |ts| - pos
  {
    match NextMatch(s, ts, pos)
      case Returns(None) => Returns([])
      case Returns(Some(j)) =>
        (match Selected(s, ts, j + 1)
          case Returns(rest) => Returns([ts[j]] + rest)
          case _ => Undefined)
      case _ => Undefined
  }

  /** The accepted tuples of a sequence, in their order. */
  function Keep(s: Selection, ts: seq<seq<byte>>): seq<seq<byte>>
  {
    if |ts| == 0 then []
    else (if Accept(s, ts[0]) == Returns(true) then [ts[0]] else []) + Keep(s, ts[1..])
  }

  /** a can be obtained from b by deleting elements (without reordering). */
  predicate IsSubsequence<T(==)>(a: seq<T>, b: seq<T>)
    decreases |b|
  {
    |a| == 0 || (|b| > 0 && ((a[0] == b[0] && IsSubsequence(a[1..], b[1..])) || IsSubsequence(a, b[1..])))
  }

  /**
   * When every tuple can be decided, the tuples Filter returns over
   * repeated calls are exactly the accepted ones, in input order.
   */
  lemma {:induction false} SelectedIsKeep(s: Selection, ts: seq<seq<byte>>, pos: nat)
    requires pos <= |ts| && forall j | pos <= j < |ts| :: Accept(s, ts[j]).Returns?
    ensures Selected(s, ts, pos) == Returns(Keep(s, ts[pos..]))
    decreases |ts| - pos
  {
    if pos < |ts| {
      SelectedIsKeep(s, ts, pos + 1);
      assert ts[pos..][1..] == ts[pos + 1..];
      assert ts[pos..][0] == ts[pos];
      if Accept(s, ts[pos]) == Returns(false) {
        assert NextMatch(s, ts, pos) == NextMatch(s, ts, pos + 1);
        assert Selected(s, ts, pos) == Selected(s, ts, pos + 1);
        assert Keep(s, ts[pos..]) == Keep(s, ts[pos + 1..]);
      } else {
        assert NextMatch(s, ts, pos) == Returns(Some(pos));
        assert Keep(s, ts[pos..]) == [ts[pos]] + Keep(s, ts[pos + 1..]);
      }
    } else {
      assert ts[pos..] == [];
    }
  }

  /** The accepted tuples form an order-preserving subsequence of the input. */
  lemma {:induction false} KeepIsSubsequence(s: Selection, ts: seq<seq<byte>>)
    ensures IsSubsequence(Keep(s, ts), ts)
    ensures forall u | u in Keep(s, ts) :: u in ts && Accept(s, u) == Returns(true)
  {
    if |ts| > 0 {
      KeepIsSubsequence(s, ts[1..]);
      var rest := Keep(s, ts[1..]);
      if Accept(s, ts[0]) == Returns(true) {
        assert Keep(s, ts) == [ts[0]] + rest;
        assert ([ts[0]] + rest)[1..] == rest;
      } else {
        assert Keep(s, ts) == rest;
        SubsequenceDropsHead(rest, ts);
      }
    }
  }

  /** A subsequence of the tail is a subsequence of the whole. */
  lemma SubsequenceDropsHead<T>(a: seq<T>, b: seq<T>)
    requires |b| > 0 && IsSubsequence(a, b[1..])
    ensures IsSubsequence(a, b)
  {
  }

  // ---------------------------------------------------------------------
  // The Filter operator
  // ---------------------------------------------------------------------

  /** Filter of qe/qe.h: the input, the condition, the input's attributes and the condition field's index. */
  class Filter {
    const input: TupleSource
    const condition: Condition
    var attrs: seq<Attribute>
    var attrIdx: Option<nat>
    const cmp: Comparator
    const isNull: NullTest

    /**
     * The constructor (qe/qe.cc:4-23): a condition whose right-hand side
     * is an attribute is rejected before anything is set; otherwise the
     * attributes are the input's and the field index is that of the first
     * attribute with the left-hand name, left unset when there is none. A
     * type mismatch is only logged.
     */
    constructor(inputIter: TupleSource, cond: Condition, compare: Comparator, nullTest: NullTest)
      ensures input == inputIter && condition == cond && cmp == compare && isNull == nullTest
      ensures cond.bRhsIsAttr ==> attrs == [] && attrIdx.None?
      ensures !cond.bRhsIsAttr ==> attrs == inputIter.attrs && attrIdx == FindAttr(inputIter.attrs, cond.lhsAttr)
    {
      input := inputIter;
      condition := cond;
      cmp := compare;
      isNull := nullTest;
      attrs := [];
      attrIdx := None;
      new;
      if cond.bRhsIsAttr {
        // right hand side must be a value
        return;
      }
      attrs := inputIter.GetAttributes();
      var idx := FindAttr(attrs, cond.lhsAttr);
      if idx.None? {
        // left hand side attr not found
        return;
      }
      attrIdx := idx;
    }

    /** The selection this filter performs. */
    function Sel(): Selection
      reads this
    {
      Selection(attrs, attrIdx, condition, cmp, isNull)
    }

    /**
     * `getNextTuple` (qe/qe.cc:27-57): pulls input tuples until one is
     * accepted and returns it with 0, or QE_EOF once the input runs out;
     * the buffer holds the last tuple pulled.
     */
    method GetNextTuple(buffer: seq<byte>) returns (rc: Outcome<int>, data: seq<byte>)
      modifies input
      ensures rc.Returns? || rc.Undefined?
      ensures NextMatch(Sel(), input.tuples, old(input.pos)).Undefined? ==> rc.Undefined?
      ensures NextMatch(Sel(), input.tuples, old(input.pos)).Returns? ==>
        match NextMatch(Sel(), input.tuples, old(input.pos)).value
          case Some(j) => rc == Returns(0) && data == input.tuples[j] && input.pos == j + 1
          case None =>
            rc == Returns(QE_EOF) &&
            input.pos == (if old(input.pos) < |input.tuples| then |input.tuples| else old(input.pos)) &&
            data == (if old(input.pos) < |input.tuples| then input.tuples[|input.tuples| - 1] else buffer)
    {
      ghost var s := Sel();
      data := buffer;
      while true
        invariant input.pos >= old(input.pos)
        invariant NextMatch(s, input.tuples, old(input.pos)) == NextMatch(s, input.tuples, input.pos)
        invariant old(input.pos) < |input.tuples| ==> input.pos <= |input.tuples|
        invariant old(input.pos) >= |input.tuples| ==> input.pos == old(input.pos)
        invariant input.pos == old(input.pos) ==> data == buffer
        invariant input.pos > old(input.pos) ==> data == input.tuples[input.pos - 1]
        decreases |input.tuples| - input.pos
      {
        var code;
        ghost var p := input.pos;
        code, data := input.GetNextTuple(data);
        if code == QE_EOF {
          return Returns(QE_EOF), data;
        }
        if condition.op == NO_OP {
          return Returns(0), data;
        }
        if attrIdx.None? || attrIdx.value >= |attrs| {
          // attr_idx_ was never set
          return Undefined, data;
        }
        var idx := attrIdx.value;
        if isNull(data, |attrs|, idx) {
          // a null field never satisfies the comparison
          continue;
        }
        var offset := ConditionOffset(data, attrs, isNull, idx);
        if offset.Undefined? || !(0 <= offset.value <= |data|) {
          return Undefined, data;
        }
        if cmp(condition.op, condition.rhsValue.valueType, data[offset.value..], condition.rhsValue.data) {
          return Returns(0), data;
        }
        assert Accept(s, input.tuples[p]) == Returns(false);
      }
    }

    /** `getAttributes` (qe/qe.cc:59-61): the input's attributes. */
    method GetAttributes() returns (attributes: seq<Attribute>)
      ensures attributes == input.attrs
    {
      attributes := input.GetAttributes();
    }
  }

  // ---------------------------------------------------------------------
  // Scans (qe/qe.h:66-196)
  // ---------------------------------------------------------------------

  /** The attribute names, in order (the loop filling `attrNames`). */
  method AttrNames(attrs: seq<Attribute>) returns (names: seq<string>)
    ensures |names| == |attrs| && forall i | 0 <= i < |attrs| :: names[i] == attrs[i].name
  {
    names := [];
    var i := 0;
    while i < |attrs|
      invariant 0 <= i <= |attrs| && |names| == i
      invariant forall j | 0 <= j < i :: names[j] == attrs[j].name
    {
      names := names + [attrs[i].name];
      i := i + 1;
    }
  }

  /** An attribute named as `rel.attr`. */
  function Qualify(rel: string, a: Attribute): (b: Attribute)
    ensures b.attrType == a.attrType && b.length == a.length && |b.name| == |rel| + 1 + |a.name|
    ensures b.name[..|rel|] == rel && b.name[|rel|] == '.' && b.name[|rel| + 1..] == a.name
  {
    a.(name := rel + "." + a.name)
  }

  /**
   * The renaming loop shared by TableScan and IndexScan `getAttributes`:
   * a copy of the attributes with each name prefixed by the table name
   * and a dot, type and length unchanged.
   */
  method QualifyAll(rel: string, attrs: seq<Attribute>) returns (attributes: seq<Attribute>)
    ensures |attributes| == |attrs|
    ensures forall i | 0 <= i < |attrs| :: attributes[i] == Qualify(rel, attrs[i])
  {
    attributes := attrs;
    var i := 0;
    while i < |attributes|
      invariant 0 <= i <= |attributes| == |attrs|
      invariant forall j | 0 <= j < i :: attributes[j] == Qualify(rel, attrs[j])
      invariant forall j | i <= j < |attrs| :: attributes[j] == attrs[j]
    {
      var tmp := rel;
      tmp := tmp + ".";
      tmp := tmp + attributes[i].name;
      attributes := attributes[i := attributes[i].(name := tmp)];
      i := i + 1;
    }
  }

  /** Dropping the `rel.` prefix recovers each original name. */
  lemma QualifyRoundTrip(rel: string, a: Attribute)
    ensures Qualify(rel, a).name[|rel| + 1..] == a.name
    ensures Qualify(rel, a).(name := a.name) == a
  {
  }

  /**
   * TableScan of qe/qe.h: the table the RM scan was opened on, the name
   * attributes are qualified with (the alias when one is given), and the
   * table's attributes and their names.
   */
  class TableScan {
    var tableName: string
    var attrs: seq<Attribute>
    var attrNames: seq<string>
    const scannedTable: string

    /**
     * The constructor (qe/qe.h:76-95): the attributes are the table's,
     * the scan is opened under the real table name, and only then is the
     * name replaced by the alias.
     */
    constructor(tableAttrs: seq<Attribute>, table: string, alias: Option<string>)
      ensures attrs == tableAttrs && scannedTable == table
      ensures tableName == if alias.Some? then alias.value else table
      ensures |attrNames| == |attrs| && forall i | 0 <= i < |attrs| :: attrNames[i] == attrs[i].name
    {
      tableName := table;
      attrs := tableAttrs;
      var names := AttrNames(tableAttrs);
      attrNames := names;
      scannedTable := table;
      if alias.Some? {
        tableName := alias.value;
      }
    }

    /** `getAttributes` (qe/qe.h:116-127): the attributes named `rel.attr`. */
    method GetAttributes() returns (attributes: seq<Attribute>)
      ensures |attributes| == |attrs| && forall i | 0 <= i < |attrs| :: attributes[i] == Qualify(tableName, attrs[i])
    {
      attributes := QualifyAll(tableName, attrs);
    }
  }

  /** An RM index-scan iterator: the (code, rid) results of its successive getNextEntry calls. */
  class EntryScan {
    const results: seq<(int, RID)>
    var pos: nat

    constructor(rs: seq<(int, RID)>)
      ensures results == rs && pos == 0
    {
      results := rs;
      pos := 0;
    }

    /** `getNextEntry`: the next result, or QE_EOF past the last one. */
    method GetNextEntry() returns (rc: int, rid: RID)
      modifies this
      ensures old(pos) < |results| ==> (rc, rid) == results[old(pos)] && pos == old(pos) + 1
      ensures old(pos) >= |results| ==> rc == QE_EOF && pos == old(pos)
    {
      if pos < |results| {
        rc, rid := results[pos].0, results[pos].1;
        pos := pos + 1;
      } else {
        rc, rid := QE_EOF, RID(0, 0);
      }
    }
  }

  /**
   * IndexScan of qe/qe.h: the relation manager, the index iterator, the
   * table the index scan was opened on and the name used afterwards (the
   * alias when one is given), the indexed attribute and the attributes.
   */
  class IndexScan {
    const rm: Catalog.RelationManager
    const iter: EntryScan
    var tableName: string
    const attrName: string
    var attrs: seq<Attribute>
    const scannedTable: string
    var rid: RID

    /** The constructor (qe/qe.h:145-161): as TableScan's, with the index scan opened under the real table name. */
    constructor(relations: Catalog.RelationManager, entries: EntryScan, tableAttrs: seq<Attribute>,
                table: string, attribute: string, alias: Option<string>)
      ensures rm == relations && iter == entries && attrs == tableAttrs && attrName == attribute
      ensures scannedTable == table && tableName == if alias.Some? then alias.value else table
    {
      rm := relations;
      iter := entries;
      tableName := table;
      attrName := attribute;
      attrs := tableAttrs;
      scannedTable := table;
      rid := RID(0, 0);
      new;
      if alias.Some? {
        tableName := alias.value;
      }
    }

    /**
     * `getNextTuple` (qe/qe.h:171-177): readTuple is called, with the
     * table name the scan now carries, only when getNextEntry returns 0;
     * any other code is returned unchanged. `readFrom` is the name passed
     * to readTuple, None when it is not called.
     */
    method GetNextTuple(catalogOk: bool) returns (rc: Outcome<int>, ghost readFrom: Option<string>)
      modifies this, iter
      ensures var code := if old(iter.pos) < |iter.results| then iter.results[old(iter.pos)].0 else QE_EOF;
        (code != 0 ==> rc == Returns(code) && readFrom.None?) &&
        (code == 0 ==> rc == rm.ReadTuple(catalogOk, tableName, rid) && readFrom == Some(tableName))
      ensures tableName == old(tableName)
    {
      var code, r := iter.GetNextEntry();
      rid := r;
      if code == 0 {
        readFrom := Some(tableName);
        return rm.ReadTuple(catalogOk, tableName, rid), readFrom;
      }
      return Returns(code), None;
    }

    /** `getAttributes` (qe/qe.h:179-191): the attributes named `rel.attr`. */
    method GetAttributes() returns (attributes: seq<Attribute>)
      ensures |attributes| == |attrs| && forall i | 0 <= i < |attrs| :: attributes[i] == Qualify(tableName, attrs[i])
    {
      attributes := QualifyAll(tableName, attrs);
    }
  }

  // ---------------------------------------------------------------------
  // Grace hash join helpers (qe/qe.h:342-351)
  // ---------------------------------------------------------------------

  /**
   * `getHash`: the key's `size_t` hash modulo the unsigned partition
   * count, converted to `int`; undefined for zero partitions.
   */
  function GetHash(hash: u64, numPartitions: u32): (r: Outcome<int>)
    ensures r.Undefined? <==> numPartitions == 0
    ensures r.Returns? && numPartitions <= TWO_31 ==> 0 <= r.value < numPartitions && r.value == hash % numPartitions
  {
    if numPartitions == 0 then Undefined
    else
      var bucket := hash % numPartitions;
      Returns(if bucket < TWO_31 then bucket else bucket - TWO_32)
  }

  /** With more than 2^31 partitions a bucket can come out negative once converted to `int`. */
  lemma GetHashNegativeBucket()
    ensures GetHash(TWO_31, TWO_31 + 1) == Returns(-TWO_31)
  {
  }

  /** A digit character. */
  function DigitChar(d: nat): (c: char)
    requires d < 10
    ensures '0' <= c <= '9'
  {
    "0123456789"[d]
  }

  /** The value of a digit character. */
  function DigitValue(c: char): (d: nat)
    requires '0' <= c <= '9'
    ensures d < 10
  {
    (c as int) - ('0' as int)
  }

  /** Every character is a decimal digit. */
  predicate AllDigits(s: string)
  {
    forall i | 0 <= i < |s| :: '0' <= s[i] <= '9'
  }

  /** A decimal `int`: an optional minus sign, then at least one digit. */
  predicate IsDecimal(s: string)
  {
    |s| >= 1 && if s[0] == '-' then |s| >= 2 && AllDigits(s[1..]) else AllDigits(s)
  }

  /** The decimal digits of a natural number, most significant first, with no leading zero. */
  function NatDigits(n: nat): (s: string)
    ensures |s| >= 1 && AllDigits(s)
    decreases n
  {
    if n < 10 then [DigitChar(n)] else NatDigits(n / 10) + [DigitChar(n % 10)]
  }

  /** The number a string of decimal digits denotes. */
  function DigitsValue(s: string): nat
    requires AllDigits(s)
  {
    if |s| == 0 then 0 else 10 * DigitsValue(s[..|s| - 1]) + DigitValue(s[|s| - 1])
  }

  /** Reading back the digits of n gives n. */
  lemma {:induction false} DigitsRoundTrip(n: nat)
    ensures DigitsValue(NatDigits(n)) == n
    decreases n
  {
    var s := NatDigits(n);
    if n >= 10 {
      DigitsRoundTrip(n / 10);
      assert s[..|s| - 1] == NatDigits(n / 10);
    }
    assert DigitValue(DigitChar(n % 10)) == n % 10;
  }

  /** `std::to_string` of an `int`: a minus sign for a negative value, then the digits. */
  function IntToString(n: int): (s: string)
    ensures IsDecimal(s)
  {
    if n < 0 then "-" + NatDigits(-n) else NatDigits(n)
  }

  /** The `int` a string written by IntToString denotes: an optional minus sign, then decimal digits. */
  function StringToInt(s: string): int
    requires IsDecimal(s)
  {
    if s[0] == '-' then 0 - DigitsValue(s[1..]) as int else DigitsValue(s)
  }

  /** Reading back the decimal form of n gives n, so different partition numbers have different forms. */
  lemma IntStringRoundTrip(n: int)
    ensures StringToInt(IntToString(n)) == n
  {
    if n < 0 {
      var d := NatDigits(-n);
      DigitsRoundTrip(-n);
      assert ("-" + d)[1..] == d;
    } else {
      DigitsRoundTrip(n);
    }
  }

  /**
   * `getPartitionFileName(num, is_left)`: "left_" or "right_", the join
   * attribute's name on that side, "_" and the partition number.
   * Undefined when the side's attribute position is outside its list.
   */
  function PartitionFileName(lAttrs: seq<Attribute>, lPos: int, rAttrs: seq<Attribute>, rPos: int,
                             num: int, isLeft: bool): (r: Outcome<string>)
    ensures r.Returns? || r.Undefined?
    ensures r.Undefined? <==> (if isLeft then !(0 <= lPos < |lAttrs|) else !(0 <= rPos < |rAttrs|))
  {
    if isLeft then
      if 0 <= lPos < |lAttrs| then Returns("left_" + lAttrs[lPos].name + "_" + IntToString(num)) else Undefined
    else
      if 0 <= rPos < |rAttrs| then Returns("right_" + rAttrs[rPos].name + "_" + IntToString(num)) else Undefined
  }

  /** The partitions of one side get distinct files, and a left file is never a right one. */
  lemma PartitionFilesDistinct(lAttrs: seq<Attribute>, lPos: int, rAttrs: seq<Attribute>, rPos: int,
                               m: int, n: int, leftM: bool, leftN: bool)
    requires PartitionFileName(lAttrs, lPos, rAttrs, rPos, m, leftM).Returns?
    requires PartitionFileName(lAttrs, lPos, rAttrs, rPos, n, leftN).Returns?
    ensures PartitionFileName(lAttrs, lPos, rAttrs, rPos, m, leftM) == PartitionFileName(lAttrs, lPos, rAttrs, rPos, n, leftN)
      ==> leftM == leftN && m == n
  {
    var f := PartitionFileName(lAttrs, lPos, rAttrs, rPos, m, leftM).value;
    var g := PartitionFileName(lAttrs, lPos, rAttrs, rPos, n, leftN).value;
    assert f[0] == (if leftM then 'l' else 'r') && g[0] == (if leftN then 'l' else 'r');
    if leftM == leftN {
      var prefix := (if leftM then "left_" + lAttrs[lPos].name else "right_" + rAttrs[rPos].name) + "_";
      assert f == prefix + IntToString(m) && g == prefix + IntToString(n);
      assert f[|prefix|..] == IntToString(m) && g[|prefix|..] == IntToString(n);
      IntStringRoundTrip(m);
      IntStringRoundTrip(n);
    }
  }
}
