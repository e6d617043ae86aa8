/** `case_insensitive_less` and `http_header_set`, a multimap ordered by it. */
module HttpHeaders {
  import opened Bytes

  /** C-locale `tolower`. */
  function Lower(c: byte): (r: byte) { if 0x41 <= c <= 0x5A then c + 0x20 else c }

  /** `tolower` of a (signed) char, as the comparison sees it. */
  function Rank(c: byte): (r: int) { if c < 0x80 then Lower(c) else c - 256 }

  function LowerAll(t: bytes): (r: bytes)
    ensures |r| == |t|
  {
    seq(|t|, i requires 0 <= i < |t| => Lower(t[i]))
  }

  /** Letters become lower case, every other byte stays. */
  lemma LowerLetters(c: byte)
    ensures var upper, lower := Ascii("ABCDEFGHIJKLMNOPQRSTUVWXYZ"), Ascii("abcdefghijklmnopqrstuvwxyz");
      && (forall k :: 0 <= k < 26 && c == upper[k] ==> Lower(c) == lower[k])
      && (c !in upper ==> Lower(c) == c)
  {
    var upper, lower := Ascii("ABCDEFGHIJKLMNOPQRSTUVWXYZ"), Ascii("abcdefghijklmnopqrstuvwxyz");
    UpperInOrder();
    LowerInOrder();
    hide Ascii;
    if 0x41 <= c <= 0x5A { assert upper[c - 0x41] == c; }
  }

  lemma UpperInOrder()
    ensures var t := Ascii("ABCDEFGHIJKLMNOPQRSTUVWXYZ"); forall k :: 0 <= k < 26 ==> t[k] == 0x41 + k
  {
  }

  lemma LowerInOrder()
    ensures var t := Ascii("abcdefghijklmnopqrstuvwxyz"); forall k :: 0 <= k < 26 ==> t[k] == 0x61 + k
  {
  }

  /** `case_insensitive_less` */
  predicate Less(a: bytes, b: bytes) {
    if b == [] then false
    else if a == [] then true
    else if Rank(a[0]) < Rank(b[0]) then true
    else if Rank(b[0]) < Rank(a[0]) then false
    else Less(a[1..], b[1..])
  }

  ghost predicate Same(a: bytes, b: bytes) { LowerAll(a) == LowerAll(b) }

  lemma SameStep(a: bytes, b: bytes)
    requires a != [] && b != []
    ensures Same(a, b) <==> Rank(a[0]) == Rank(b[0]) && Same(a[1..], b[1..])
  {
    assert LowerAll(a) == [Lower(a[0])] + LowerAll(a[1..]);
    assert LowerAll(b) == [Lower(b[0])] + LowerAll(b[1..]);
    if Same(a, b) {
      assert LowerAll(a)[1..] == LowerAll(a[1..]) && LowerAll(b)[1..] == LowerAll(b[1..]);
      assert LowerAll(a)[0] == Lower(a[0]) && LowerAll(b)[0] == Lower(b[0]);
    }
  }

  /** Equivalent keys are the keys with equal lower-case forms; any two others are ordered one way. */
  lemma {:induction false} EquivalenceIsSame(a: bytes, b: bytes)
    ensures !Less(a, b) && !Less(b, a) <==> Same(a, b)
    ensures !(Less(a, b) && Less(b, a))
  {
    if a != [] && b != [] {
      SameStep(a, b);
      EquivalenceIsSame(a[1..], b[1..]);
    } else if a != [] || b != [] {
      assert |LowerAll(a)| == |a| && |LowerAll(b)| == |b|;
    }
  }

  lemma {:induction false} LessTransitive(a: bytes, b: bytes, c: bytes)
    requires Less(a, b) && Less(b, c)
    ensures Less(a, c)
  {
    if a != [] && Rank(a[0]) == Rank(b[0]) == Rank(c[0]) { LessTransitive(a[1..], b[1..], c[1..]); }
  }

  lemma {:induction false} SameLess(a: bytes, b: bytes, c: bytes)
    requires Same(a, b)
    ensures Less(a, c) == Less(b, c) && Less(c, a) == Less(c, b)
    decreases |a|
  {
    assert |a| == |LowerAll(a)| == |b|;
    if a != [] {
      SameStep(a, b);
      if c != [] { SameLess(a[1..], b[1..], c[1..]); }
    }
  }

  /** The comparison is a strict weak order. */
  lemma StrictWeakOrder(a: bytes, b: bytes, c: bytes)
    ensures !Less(a, a)
    ensures Less(a, b) && Less(b, c) ==> Less(a, c)
    ensures !Less(a, b) && !Less(b, a) && !Less(b, c) && !Less(c, b) ==> !Less(a, c) && !Less(c, a)
    ensures !Less(a, b) && !Less(b, c) ==> !Less(a, c)
  {
    EquivalenceIsSame(a, a);
    EquivalenceIsSame(a, b);
    EquivalenceIsSame(b, c);
    EquivalenceIsSame(a, c);
    if Less(a, b) && Less(b, c) { LessTransitive(a, b, c); }
    if Less(a, c) && !Less(a, b) && !Less(b, c) {
      if Less(b, a) {
        LessTransitive(b, a, c);
      } else {
        SameLess(a, b, c);
      }
    }
  }

  // ---------- the multimap ----------

  datatype Field = Field(name: bytes, value: bytes)

  ghost predicate Sorted(h: seq<Field>) {
    forall i, j :: 0 <= i < j < |h| ==> !Less(h[j].name, h[i].name)
  }

  /** First index whose name is not less than `key`. */
  function LowerBound(h: seq<Field>, key: bytes): (i: nat)
    ensures i <= |h|
  {
    if h == [] || !Less(h[0].name, key) then 0 else 1 + LowerBound(h[1..], key)
  }

  /** First index whose name is greater than `key`. */
  function UpperBound(h: seq<Field>, key: bytes): (i: nat)
    ensures i <= |h|
  {
    if h == [] || Less(key, h[0].name) then 0 else 1 + UpperBound(h[1..], key)
  }

  /** `emplace`: after the fields with an equivalent name. */
  function Emplace(h: seq<Field>, key: bytes, value: bytes): (r: seq<Field>)
    ensures |r| == |h| + 1
  {
    var i := UpperBound(h, key);
    h[..i] + [Field(key, value)] + h[i..]
  }

  /** `erase` by key. */
  function Erase(h: seq<Field>, key: bytes): (r: seq<Field>)
    ensures |r| <= |h|
  {
    if h == [] then []
    else (if LowerAll(h[0].name) == LowerAll(key) then [] else [h[0]]) + Erase(h[1..], key)
  }

  function Set(h: seq<Field>, key: bytes, value: bytes, replace: bool): (r: seq<Field>) {
    Emplace(if replace then Erase(h, key) else h, key, value)
  }

  /** `get`: the first value of the key, or the empty string. */
  function Get(h: seq<Field>, key: bytes): (r: bytes) {
    var i := LowerBound(h, key);
    if i < |h| && !Less(key, h[i].name) then h[i].value else []
  }

  /** The values of the fields with an equivalent name, in order. */
  function Values(h: seq<Field>, key: bytes): (r: seq<bytes>) {
    if h == [] then []
    else (if LowerAll(h[0].name) == LowerAll(key) then [h[0].value] else []) + Values(h[1..], key)
  }

  function Has(h: seq<Field>, key: bytes): (r: bool) { Values(h, key) != [] }

  lemma {:induction false} ValuesConcat(a: seq<Field>, b: seq<Field>, key: bytes)
    ensures Values(a + b, key) == Values(a, key) + Values(b, key)
  {
    if a == [] {
      assert a + b == b;
    } else {
      assert (a + b)[1..] == a[1..] + b;
      ValuesConcat(a[1..], b, key);
    }
  }

  lemma {:induction false} NoValues(h: seq<Field>, key: bytes)
    ensures Values(h, key) == [] <==> forall f <- h :: !Same(f.name, key)
  {
    if h != [] {
      assert h == [h[0]] + h[1..];
      NoValues(h[1..], key);
    }
  }

  lemma {:induction false} EraseValues(h: seq<Field>, key: bytes, other: bytes)
    ensures Values(Erase(h, key), other) == if Same(key, other) then [] else Values(h, other)
    ensures forall f <- Erase(h, key) :: f in h
  {
    if h != [] {
      EraseValues(h[1..], key, other);
      ValuesConcat(if LowerAll(h[0].name) == LowerAll(key) then [] else [h[0]], Erase(h[1..], key), other);
      assert Values([h[0]], other) == if LowerAll(h[0].name) == LowerAll(other) then [h[0].value] else [];
    }
  }

  lemma {:induction false} EraseSorted(h: seq<Field>, key: bytes)
    requires Sorted(h)
    ensures Sorted(Erase(h, key))
  {
    if h != [] {
      EraseSorted(h[1..], key);
      EraseValues(h[1..], key, key);
      forall f | f in Erase(h[1..], key) ensures !Less(f.name, h[0].name) {
        var j :| 0 <= j < |h[1..]| && h[1..][j] == f;
        assert h[j + 1] == f;
      }
    }
  }

  /** Where the bounds cut a sorted multimap. */
  lemma {:induction false} UpperBoundCuts(h: seq<Field>, key: bytes)
    requires Sorted(h)
    ensures var i := UpperBound(h, key);
      && (forall k :: 0 <= k < i ==> !Less(key, h[k].name))
      && (forall k :: i <= k < |h| ==> Less(key, h[k].name))
  {
    if h != [] {
      if Less(key, h[0].name) {
        forall k | 0 <= k < |h| ensures Less(key, h[k].name) {
          if k > 0 { StrictWeakOrder(key, h[k].name, h[0].name); }
        }
      } else {
        UpperBoundCuts(h[1..], key);
        assert forall k :: 0 < k < |h| ==> h[k] == h[1..][k - 1];
      }
    }
  }

  lemma {:induction false} LowerBoundCuts(h: seq<Field>, key: bytes)
    requires Sorted(h)
    ensures var i := LowerBound(h, key);
      && (forall k :: 0 <= k < i ==> Less(h[k].name, key))
      && (forall k :: i <= k < |h| ==> !Less(h[k].name, key))
  {
    if h != [] {
      if !Less(h[0].name, key) {
        forall k | 0 <= k < |h| ensures !Less(h[k].name, key) {
          if k > 0 { StrictWeakOrder(h[k].name, h[0].name, key); }
        }
      } else {
        LowerBoundCuts(h[1..], key);
        assert forall k :: 0 < k < |h| ==> h[k] == h[1..][k - 1];
      }
    }
  }

  lemma EmplaceSorted(h: seq<Field>, key: bytes, value: bytes)
    requires Sorted(h)
    ensures Sorted(Emplace(h, key, value))
  {
    UpperBoundCuts(h, key);
    var i := UpperBound(h, key);
    var r := Emplace(h, key, value);
    forall a, b | 0 <= a < b < |r| ensures !Less(r[b].name, r[a].name) {
      if b == i {
        EquivalenceIsSame(key, h[a].name);
      } else if a == i {
        EquivalenceIsSame(key, h[b - 1].name);
      }
    }
  }

  lemma EmplaceValues(h: seq<Field>, key: bytes, value: bytes, other: bytes)
    requires Sorted(h)
    ensures Values(Emplace(h, key, value), other) == Values(h, other) + if Same(key, other) then [value] else []
  {
    hide Values;
    var i := UpperBound(h, key);
    InsertValues(h, i, Field(key, value), other);
    if Same(key, other) { NoneAfter(h, key, other); }
  }

  lemma InsertValues(h: seq<Field>, i: nat, f: Field, key: bytes)
    requires i <= |h|
    ensures Values(h[..i] + [f] + h[i..], key) == Values(h[..i], key) + Values([f], key) + Values(h[i..], key)
    ensures Values(h, key) == Values(h[..i], key) + Values(h[i..], key)
    ensures Values([f], key) == if Same(f.name, key) then [f.value] else []
  {
    ValuesConcat(h[..i] + [f], h[i..], key);
    ValuesConcat(h[..i], [f], key);
    ValuesConcat(h[..i], h[i..], key);
    assert h[..i] + h[i..] == h;
  }

  /** No equivalent name stands from the upper bound on. */
  lemma NoneAfter(h: seq<Field>, key: bytes, other: bytes)
    requires Sorted(h) && Same(key, other)
    ensures Values(h[UpperBound(h, key)..], other) == []
  {
    var i := UpperBound(h, key);
    UpperBoundCuts(h, key);
    forall g | g in h[i..] ensures !Same(g.name, other) {
      var k :| 0 <= k < |h[i..]| && h[i..][k] == g;
      assert h[i + k] == g;
      EquivalenceIsSame(key, g.name);
    }
    NoValues(h[i..], other);
  }

  /** `equal_range` holds exactly the values of the key, in insertion order. */
  lemma EqualRangeIsValues(h: seq<Field>, key: bytes)
    requires Sorted(h)
    ensures var lo, hi := LowerBound(h, key), UpperBound(h, key);
      lo <= hi && hi - lo == |Values(h, key)| && forall k :: lo <= k < hi ==> h[k].value == Values(h, key)[k - lo]
  {
    hide LowerBound, UpperBound, Values, Less;
    var lo, hi := LowerBound(h, key), UpperBound(h, key);
    BoundsOrdered(h, key);
    RangeIsValues(h, lo, hi, key);
  }

  lemma BoundsOrdered(h: seq<Field>, key: bytes)
    requires Sorted(h)
    ensures var lo, hi := LowerBound(h, key), UpperBound(h, key);
      && lo <= hi
      && (forall k :: 0 <= k < lo ==> Less(h[k].name, key))
      && (forall k :: lo <= k < hi ==> !Less(h[k].name, key) && !Less(key, h[k].name))
      && (forall k :: hi <= k < |h| ==> Less(key, h[k].name))
  {
    hide LowerBound, UpperBound, Less;
    LowerBoundCuts(h, key);
    UpperBoundCuts(h, key);
    var hi := UpperBound(h, key);
    if hi < |h| { EquivalenceIsSame(h[hi].name, key); }
  }

  lemma RangeIsValues(h: seq<Field>, lo: nat, hi: nat, key: bytes)
    requires lo <= hi <= |h|
    requires forall k :: 0 <= k < lo ==> Less(h[k].name, key)
    requires forall k :: lo <= k < hi ==> !Less(h[k].name, key) && !Less(key, h[k].name)
    requires forall k :: hi <= k < |h| ==> Less(key, h[k].name)
    ensures hi - lo == |Values(h, key)| && forall k :: lo <= k < hi ==> h[k].value == Values(h, key)[k - lo]
  {
    hide Values, Less;
    AllSame(h[lo..hi], key);
    NoneSame(h[..lo], key);
    NoneSame(h[hi..], key);
    CutValues(h, lo, hi, key);
    var mid := Values(h[lo..hi], key);
    assert Values(h, key) == mid;
    assert forall k :: lo <= k < hi ==> h[k] == h[lo..hi][k - lo];
  }

  lemma CutValues(h: seq<Field>, lo: nat, hi: nat, key: bytes)
    requires lo <= hi <= |h|
    ensures Values(h, key) == Values(h[..lo], key) + (Values(h[lo..hi], key) + Values(h[hi..], key))
  {
    assert h == h[..lo] + (h[lo..hi] + h[hi..]);
    ValuesConcat(h[..lo], h[lo..hi] + h[hi..], key);
    ValuesConcat(h[lo..hi], h[hi..], key);
  }

  lemma {:induction false} AllSame(h: seq<Field>, key: bytes)
    requires forall k :: 0 <= k < |h| ==> !Less(h[k].name, key) && !Less(key, h[k].name)
    ensures |Values(h, key)| == |h| && forall k :: 0 <= k < |h| ==> Values(h, key)[k] == h[k].value
  {
    if h != [] {
      EquivalenceIsSame(h[0].name, key);
      AllSame(h[1..], key);
    }
  }

  lemma {:induction false} NoneSame(h: seq<Field>, key: bytes)
    requires forall k :: 0 <= k < |h| ==> Less(h[k].name, key) || Less(key, h[k].name)
    ensures Values(h, key) == []
  {
    if h != [] {
      EquivalenceIsSame(h[0].name, key);
      NoneSame(h[1..], key);
    }
  }

  lemma GetIsFirst(h: seq<Field>, key: bytes)
    requires Sorted(h)
    ensures Get(h, key) == if Values(h, key) == [] then [] else Values(h, key)[0]
  {
    var lo, hi := LowerBound(h, key), UpperBound(h, key);
    EqualRangeIsValues(h, key);
    LowerBoundCuts(h, key);
    UpperBoundCuts(h, key);
    if lo < |h| && !Less(key, h[lo].name) { assert lo < hi; }
  }

  // ---------- refinement of a map of lists ----------

  datatype Op = SetOp(key: bytes, value: bytes, replace: bool) | EraseOp(key: bytes) | ClearOp

  function Apply(h: seq<Field>, op: Op): (r: seq<Field>) {
    match op
    case SetOp(key, value, replace) => Set(h, key, value, replace)
    case EraseOp(key) => Erase(h, key)
    case ClearOp => []
  }

  type Model = map<bytes, seq<bytes>>

  function Lookup(m: Model, key: bytes): (r: seq<bytes>) {
    if LowerAll(key) in m then m[LowerAll(key)] else []
  }

  function ApplyModel(m: Model, op: Op): (r: Model) {
    match op
    case SetOp(key, value, replace) => m[LowerAll(key) := (if replace then [] else Lookup(m, key)) + [value]]
    case EraseOp(key) => m - {LowerAll(key)}
    case ClearOp => map[]
  }

  /** How many values the model lists in all. */
  ghost function Total(m: Model): nat {
    if m == map[] then 0
    else
      var k :| k in m;
      |m[k]| + Total(m - {k})
  }

  lemma {:induction false} TotalWithout(m: Model, k: bytes)
    requires k in m
    ensures Total(m) == |m[k]| + Total(m - {k})
    decreases |m|
  {
    assert m != map[];
    var x :| x in m && Total(m) == |m[x]| + Total(m - {x});
    if x != k {
      TotalWithout(m - {x}, k);
      TotalWithout(m - {k}, x);
      assert (m - {x}) - {k} == (m - {k}) - {x};
    }
  }

  /** The multimap and the model list the same values under every key, and equally many. */
  ghost predicate Agrees(h: seq<Field>, m: Model) {
    Sorted(h) && (forall key :: Values(h, key) == Lookup(m, key)) && |h| == Total(m)
  }

  lemma TotalUpdate(m: Model, k: bytes, v: seq<bytes>)
    ensures Total(m[k := v]) == Total(m - {k}) + |v|
    ensures Total(m - {k}) == Total(m) - if k in m then |m[k]| else 0
  {
    TotalWithout(m[k := v], k);
    assert m[k := v] - {k} == m - {k};
    if k in m {
      TotalWithout(m, k);
    } else {
      assert m - {k} == m;
    }
  }

  lemma {:induction false} EraseCount(h: seq<Field>, key: bytes)
    ensures |Erase(h, key)| == |h| - |Values(h, key)|
  {
    if h != [] { EraseCount(h[1..], key); }
  }

  lemma EraseAgrees(h: seq<Field>, m: Model, key: bytes)
    requires Agrees(h, m)
    ensures Agrees(Erase(h, key), m - {LowerAll(key)})
  {
    EraseSorted(h, key);
    EraseCount(h, key);
    TotalUpdate(m, LowerAll(key), []);
    forall other ensures Values(Erase(h, key), other) == Lookup(m - {LowerAll(key)}, other) {
      EraseValues(h, key, other);
    }
  }

  lemma EmplaceAgrees(h: seq<Field>, m: Model, key: bytes, value: bytes)
    requires Agrees(h, m)
    ensures Agrees(Emplace(h, key, value), m[LowerAll(key) := Lookup(m, key) + [value]])
  {
    var lk := LowerAll(key);
    var m' := m[lk := Lookup(m, key) + [value]];
    EmplaceSorted(h, key, value);
    TotalUpdate(m, lk, Lookup(m, key) + [value]);
    forall other ensures Values(Emplace(h, key, value), other) == Lookup(m', other) {
      EmplaceValues(h, key, value, other);
    }
  }

  lemma StepAgrees(h: seq<Field>, m: Model, op: Op)
    requires Agrees(h, m)
    ensures Agrees(Apply(h, op), ApplyModel(m, op))
  {
    match op
    case SetOp(key, value, replace) =>
      if replace {
        EraseAgrees(h, m, key);
        var m' := m - {LowerAll(key)};
        EmplaceAgrees(Erase(h, key), m', key, value);
        assert m'[LowerAll(key) := [] + [value]] == m[LowerAll(key) := [] + [value]];
      } else {
        EmplaceAgrees(h, m, key, value);
      }
    case EraseOp(key) => EraseAgrees(h, m, key);
    case ClearOp =>
  }

  function ApplyAll(h: seq<Field>, ops: seq<Op>): (r: seq<Field>)
    decreases |ops|
  {
    if ops == [] then h else ApplyAll(Apply(h, ops[0]), ops[1..])
  }

  function ApplyAllModel(m: Model, ops: seq<Op>): (r: Model)
    decreases |ops|
  {
    if ops == [] then m else ApplyAllModel(ApplyModel(m, ops[0]), ops[1..])
  }

  /** After any sequence of operations, lookups, membership and size are those of a map of lists. */
  lemma {:induction false} HeadersRefineMap(h: seq<Field>, m: Model, ops: seq<Op>)
    requires Agrees(h, m)
    ensures Agrees(ApplyAll(h, ops), ApplyAllModel(m, ops))
    decreases |ops|
  {
    if ops != [] {
      StepAgrees(h, m, ops[0]);
      HeadersRefineMap(Apply(h, ops[0]), ApplyModel(m, ops[0]), ops[1..]);
    }
  }

  // ---------- the class ----------

  class HeaderSet {
    var fields: seq<Field>

    constructor ()
      ensures fields == []
    {
      fields := [];
    }

    method SetField(key: bytes, value: bytes, replace: bool)
      modifies this
      ensures fields == Apply(old(fields), SetOp(key, value, replace))
    {
      if replace {
        fields := Erase(fields, key);
      }
      fields := Emplace(fields, key, value);
    }

    method EraseField(key: bytes)
      modifies this
      ensures fields == Apply(old(fields), EraseOp(key))
    {
      fields := Erase(fields, key);
    }

    method Clear()
      modifies this
      ensures fields == Apply(old(fields), ClearOp)
    {
      fields := [];
    }

    method GetField(key: bytes) returns (value: bytes)
      requires Sorted(fields)
      ensures value == if Values(fields, key) == [] then [] else Values(fields, key)[0]
    {
      GetIsFirst(fields, key);
      return Get(fields, key);
    }

    method HasField(key: bytes) returns (found: bool)
      requires Sorted(fields)
      ensures found <==> Values(fields, key) != []
    {
      EqualRangeIsValues(fields, key);
      return UpperBound(fields, key) - LowerBound(fields, key) != 0;
    }
  }
}
