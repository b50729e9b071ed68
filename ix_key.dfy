/**
 * Index keys of the B+-tree (struct Key of ix/ix.h, implemented in ix/ix.cc):
 * a key value with the record id it points to, its binary layout, and the
 * ordering the tree uses, which looks at the value only.
 *
 * Only `TypeInt` and `TypeVarChar` keys are modelled; `TypeReal` keys hold a
 * `float`.
 */
module IxKey {
  import opened Types
  import opened Wrappers

  /** The value part of a key: an `int`, or a varchar's bytes. */
  datatype KeyVal = IntVal(i: i32) | VarCharVal(s: seq<byte>)

  /** A key: its value plus the page and slot number of the record it indexes. */
  datatype Key = Key(val: KeyVal, pageNum: u32, slotNum: u32)

  /** The attribute type a key value belongs to. */
  function ValType(v: KeyVal): AttrType
  {
    if v.IntVal? then TypeInt else TypeVarChar
  }

  function KeyType(k: Key): AttrType
  {
    ValType(k.val)
  }

  /**
   * A varchar fits the layout only if its length fits the `int` length
   * prefix; longer strings make `memcpy` receive a negative size.
   */
  predicate Encodable(k: Key)
  {
    k.val.VarCharVal? ==> |k.val.s| < TWO_31
  }

  /**
   * The value field at the front of `src`, as both key constructors read
   * it: the value and the number of bytes it takes. None when the read
   * would run past `src` or a varchar length is negative.
   */
  function DecodeVal(t: AttrType, src: seq<byte>): (r: Option<(KeyVal, nat)>)
    requires t != TypeReal
    ensures r.Some? ==> ValType(r.value.0) == t && r.value.1 <= |src|
    ensures r.Some? && t == TypeInt ==> r.value.1 == 4
    ensures r.Some? && t == TypeVarChar ==> r.value.1 == 4 + |r.value.0.s|
  {
    if |src| < 4 then None
    else if t == TypeInt then Some((IntVal(BytesI32(src)), 4))
    else
      assert t == TypeVarChar;
      var len := BytesI32(src);
      if len < 0 || |src| < 4 + len then None
      else Some((VarCharVal(src[4..4 + len]), 4 + len))
  }

  /** Reading the value field back gives the value and its length, whatever follows it. */
  lemma DecodeValEncodeVal(v: KeyVal, rest: seq<byte>)
    requires v.VarCharVal? ==> |v.s| < TWO_31
    ensures DecodeVal(ValType(v), EncodeVal(v) + rest) == Some((v, |EncodeVal(v)|))
  {
    var b := EncodeVal(v) + rest;
    match v {
      case IntVal(i) =>
        I32RoundTrip(i, rest);
      case VarCharVal(s) =>
        I32RoundTrip(|s|, s + rest);
        assert b == I32Bytes(|s|) + (s + rest);
        assert b[4..4 + |s|] == s;
    }
  }

  /**
   * `Key(type, key_val, rid)`: a key of type `t` whose value is read from
   * the front of `keyVal` and whose page and slot numbers are the record
   * id's. None when the value read would run past `keyVal` or a varchar
   * length is negative.
   */
  function FromRid(t: AttrType, keyVal: seq<byte>, rid: RID): (r: Option<Key>)
    requires t != TypeReal
    ensures r.Some? ==> KeyType(r.value) == t && r.value.pageNum == rid.pageNum && r.value.slotNum == rid.slotNum
    ensures r.Some? <==> DecodeVal(t, keyVal).Some?
  {
    match DecodeVal(t, keyVal)
    case None => None
    case Some((v, _)) => Some(Key(v, rid.pageNum, rid.slotNum))
  }

  /** A key built from a record id holds exactly the value whose bytes it was given. */
  lemma FromRidEncodeVal(v: KeyVal, rest: seq<byte>, rid: RID)
    requires v.VarCharVal? ==> |v.s| < TWO_31
    ensures FromRid(ValType(v), EncodeVal(v) + rest, rid) == Some(Key(v, rid.pageNum, rid.slotNum))
  {
    DecodeValEncodeVal(v, rest);
  }

  /** Both constructors read the same value: the key from a record id is the decoded key with that id. */
  lemma FromRidAgreesWithDecode(t: AttrType, src: seq<byte>, rid: RID)
    requires t != TypeReal && Decode(t, src).Some?
    ensures FromRid(t, src, rid) == Some(Decode(t, src).value.(pageNum := rid.pageNum, slotNum := rid.slotNum))
  {
  }

  /** The bytes `serialize` writes: the value, then page_num, then slot_num. */
  function Encode(k: Key): seq<byte>
    requires Encodable(k)
  {
    EncodeVal(k.val) + U32Bytes(k.pageNum) + U32Bytes(k.slotNum)
  }

  /**
   * `Key(type, src)`: reads a key of type `t` from the front of `src`: the
   * value field, then page_num and slot_num. None when the read would run
   * past `src` or a varchar length is negative.
   */
  function Decode(t: AttrType, src: seq<byte>): (r: Option<Key>)
    requires t != TypeReal
    ensures r.Some? ==> KeyType(r.value) == t
    ensures r.Some? ==> DecodeVal(t, src).Some? && r.value.val == DecodeVal(t, src).value.0
  {
    match DecodeVal(t, src)
    case None => None
    case Some((v, n)) =>
      if |src| < n + 8 then None
      else Some(Key(v, BytesU32(src[n..]), BytesU32(src[n + 4..])))
  }

  /** `getSize`: 4+4+4 bytes for an int key, 4+len+4+4 for a varchar key. */
  lemma EncodedSize(k: Key)
    requires Encodable(k)
    ensures k.val.IntVal? ==> |Encode(k)| == 12
    ensures k.val.VarCharVal? ==> |Encode(k)| == 12 + |k.val.s|
  {
  }

  /** Decoding what `serialize` wrote gives back the key, whatever follows it. */
  lemma DecodeEncode(k: Key, rest: seq<byte>)
    requires Encodable(k)
    ensures Decode(KeyType(k), Encode(k) + rest) == Some(k)
  {
    var ev := EncodeVal(k.val);
    var tail := U32Bytes(k.pageNum) + (U32Bytes(k.slotNum) + rest);
    var b := Encode(k) + rest;
    assert b == ev + tail;
    DecodeValEncodeVal(k.val, tail);
    var n := |ev|;
    assert b[n..] == tail;
    U32RoundTrip(k.pageNum, U32Bytes(k.slotNum) + rest);
    assert b[n + 4..] == U32Bytes(k.slotNum) + rest;
    U32RoundTrip(k.slotNum, rest);
  }

  /** The bytes of the key's value part, the first field `serialize` writes. */
  function EncodeVal(v: KeyVal): (r: seq<byte>)
    requires v.VarCharVal? ==> |v.s| < TWO_31
    ensures v.IntVal? ==> |r| == 4
    ensures v.VarCharVal? ==> |r| == 4 + |v.s|
  {
    match v
    case IntVal(i) => I32Bytes(i)
    case VarCharVal(s) => I32Bytes(|s|) + s
  }

  /**
   * Copying `y` right after a written prefix `x` extends the written part:
   * the picture of `dst` before and after one `memcpy` step of `serialize`.
   */
  lemma CopyExtends(before: seq<byte>, off: nat, x: seq<byte>, y: seq<byte>, after: seq<byte>)
    requires off + |x| + |y| <= |before|
    requires var cur := before[..off] + x + before[off + |x|..];
      after == cur[..off + |x|] + y + cur[off + |x| + |y|..]
    ensures after == before[..off] + (x + y) + before[off + |x| + |y|..]
  {
    var cur := before[..off] + x + before[off + |x|..];
    assert cur[..off + |x|] == before[..off] + x;
    assert cur[off + |x| + |y|..] == before[off + |x| + |y|..];
  }

  /** `serialize(dst)`: writes the key's layout into `dst` from index `off` on. */
  method Serialize(k: Key, dst: array<byte>, off: nat)
    requires Encodable(k)
    requires off + |Encode(k)| <= dst.Length
    modifies dst
    ensures dst[..] == old(dst[..off]) + Encode(k) + old(dst[off + |Encode(k)|..])
  {
    ghost var before := dst[..];
    var p := off;
    match k.val {
      case IntVal(i) =>
        CopyBytes(dst, p, I32Bytes(i));
        p := p + 4;
      case VarCharVal(s) =>
        CopyBytes(dst, p, I32Bytes(|s|));
        p := p + 4;
        CopyBytes(dst, p, s);
        CopyExtends(before, off, I32Bytes(|s|), s, dst[..]);
        p := p + |s|;
    }
    ghost var w := EncodeVal(k.val);
    assert dst[..] == before[..off] + w + before[off + |w|..];
    CopyBytes(dst, p, U32Bytes(k.pageNum));
    CopyExtends(before, off, w, U32Bytes(k.pageNum), dst[..]);
    p := p + 4;
    ghost var w2 := w + U32Bytes(k.pageNum);
    CopyBytes(dst, p, U32Bytes(k.slotNum));
    CopyExtends(before, off, w2, U32Bytes(k.slotNum), dst[..]);
  }

  /**
   * `std::string::operator<`: lexicographic on the bytes read as
   * `unsigned char`, a proper prefix being smaller.
   */
  predicate LexLess(a: seq<byte>, b: seq<byte>)
  {
    if |a| == 0 then |b| > 0
    else if |b| == 0 then false
    else if a[0] != b[0] then a[0] < b[0]
    else LexLess(a[1..], b[1..])
  }

  /** The order on key values of one type. */
  predicate ValLess(a: KeyVal, b: KeyVal)
  {
    match (a, b)
    case (IntVal(x), IntVal(y)) => x < y
    case (VarCharVal(x), VarCharVal(y)) => LexLess(x, y)
    case _ => false
  }

  const MismatchMessage: string := "compare different type of key!"

  /** `Key::operator<`. */
  function Less(a: Key, b: Key): (r: Result<bool>)
    ensures r.Throws? <==> KeyType(a) != KeyType(b)
    ensures r.Throws? ==> r.message == MismatchMessage
  {
    if KeyType(a) != KeyType(b) then Throws(MismatchMessage) else Ok(ValLess(a.val, b.val))
  }

  /** `Key::operator==`. */
  function Equal(a: Key, b: Key): (r: Result<bool>)
    ensures r.Throws? <==> KeyType(a) != KeyType(b)
    ensures r.Throws? ==> r.message == MismatchMessage
  {
    if KeyType(a) != KeyType(b) then Throws(MismatchMessage) else Ok(a.val == b.val)
  }

  /** Comparisons see the value only: keys that differ in page or slot number compare alike. */
  lemma ComparisonIgnoresRid(a: Key, b: Key, a': Key, b': Key)
    requires a.val == a'.val && b.val == b'.val
    ensures Less(a, b) == Less(a', b') && Equal(a, b) == Equal(a', b')
  {
  }

  /** Two keys of one type are equal under `==` exactly when their values are. */
  lemma EqualIsValueEquality(a: Key, b: Key)
    requires KeyType(a) == KeyType(b)
    ensures Equal(a, b) == Ok(true) <==> a.val == b.val
  {
  }

  /** The common-prefix definition of the byte order. */
  predicate LexLessAt(a: seq<byte>, b: seq<byte>, k: nat)
  {
    k <= |a| && k <= |b| && a[..k] == b[..k] &&
    ((k == |a| && k < |b|) || (k < |a| && k < |b| && a[k] < b[k]))
  }

  /** A common prefix of positive length starts with the same byte in both. */
  lemma WitnessHead(a: seq<byte>, b: seq<byte>, k: nat)
    requires LexLessAt(a, b, k)
    ensures k == 0 || a[0] == b[0]
  {
    if k > 0 {
      assert a[..k][0] == b[..k][0];
    }
  }

  lemma {:induction false} LexLessWitness(a: seq<byte>, b: seq<byte>)
    ensures LexLess(a, b) <==> exists k: nat :: LexLessAt(a, b, k)
  {
    if |a| == 0 || |b| == 0 {
      if LexLess(a, b) {
        assert LexLessAt(a, b, 0);
      }
    } else if a[0] != b[0] {
      if LexLess(a, b) {
        assert LexLessAt(a, b, 0);
      }
      forall k: nat | LexLessAt(a, b, k) ensures LexLess(a, b) {
        WitnessHead(a, b, k);
      }
    } else {
      LexLessWitness(a[1..], b[1..]);
      if LexLess(a, b) {
        var k: nat :| LexLessAt(a[1..], b[1..], k);
        assert a[..k + 1] == [a[0]] + a[1..][..k];
        assert b[..k + 1] == [b[0]] + b[1..][..k];
        assert LexLessAt(a, b, k + 1);
      }
      forall k: nat | LexLessAt(a, b, k) ensures LexLess(a, b) {
        assert k > 0;
        assert a[1..][..k - 1] == a[..k][1..];
        assert b[1..][..k - 1] == b[..k][1..];
        assert LexLessAt(a[1..], b[1..], k - 1);
      }
    }
  }

  lemma {:induction false} LexLessIrreflexive(a: seq<byte>)
    ensures !LexLess(a, a)
  {
    if |a| > 0 {
      LexLessIrreflexive(a[1..]);
    }
  }

  lemma {:induction false} LexLessTransitive(a: seq<byte>, b: seq<byte>, c: seq<byte>)
    requires LexLess(a, b) && LexLess(b, c)
    ensures LexLess(a, c)
  {
    if |a| > 0 && a[0] == b[0] && b[0] == c[0] {
      LexLessTransitive(a[1..], b[1..], c[1..]);
    }
  }

  lemma {:induction false} LexLessTotal(a: seq<byte>, b: seq<byte>)
    ensures a == b || LexLess(a, b) || LexLess(b, a)
  {
    if |a| > 0 && |b| > 0 && a[0] == b[0] {
      LexLessTotal(a[1..], b[1..]);
      if a[1..] == b[1..] {
        assert a == [a[0]] + a[1..] && b == [b[0]] + b[1..];
      }
    }
  }

  /**
   * On keys of one type, `<` is a strict total order of the values and `==`
   * is its equivalence: exactly one of a<b, a==b, b<a holds.
   */
  lemma KeyTrichotomy(a: Key, b: Key)
    requires KeyType(a) == KeyType(b)
    ensures Less(a, b).Ok? && Equal(a, b).Ok? && Less(b, a).Ok?
    ensures (if Less(a, b).value then 1 else 0) + (if Equal(a, b).value then 1 else 0)
          + (if Less(b, a).value then 1 else 0) == 1
  {
    if a.val.VarCharVal? {
      LexLessTotal(a.val.s, b.val.s);
      LexLessIrreflexive(a.val.s);
      if LexLess(a.val.s, b.val.s) && LexLess(b.val.s, a.val.s) {
        LexLessTransitive(a.val.s, b.val.s, a.val.s);
      }
    }
  }

  lemma ValLessIrreflexive(a: KeyVal)
    ensures !ValLess(a, a)
  {
    if a.VarCharVal? {
      LexLessIrreflexive(a.s);
    }
  }

  lemma ValLessTransitive(a: KeyVal, b: KeyVal, c: KeyVal)
    requires ValLess(a, b) && ValLess(b, c)
    ensures ValLess(a, c)
  {
    if a.VarCharVal? {
      LexLessTransitive(a.s, b.s, c.s);
    }
  }

  /** Two values of one kind are equal or ordered one way. */
  lemma ValLessTotal(a: KeyVal, b: KeyVal)
    requires ValType(a) == ValType(b)
    ensures a == b || ValLess(a, b) || ValLess(b, a)
  {
    if a.VarCharVal? {
      LexLessTotal(a.s, b.s);
    }
  }
}
