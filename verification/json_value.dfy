/** JSON values, and the ordered map that holds the members of an object. */
module JsonValue {
  import opened Bytes
  import opened Numerals

  /** A double keeps the token that `strtod` reads; its numeric value is not modelled. */
  datatype Value =
    | Null
    | Bool(b: bool)
    | Int(i: int)
    | Double(token: bytes)
    | Str(text: bytes)
    | Array(items: seq<Value>)
    | Object(members: seq<Member>)

  datatype Member = Member(key: bytes, value: Value)

  /** Keys strictly ascending: the representation of a `std::map`. */
  ghost predicate Ascending(ms: seq<Member>) {
    forall i, j :: 0 <= i < j < |ms| ==> LexLess(ms[i].key, ms[j].key)
  }

  /** `o[key] = value` */
  function Put(ms: seq<Member>, key: bytes, value: Value): (r: seq<Member>) {
    if ms == [] then [Member(key, value)]
    else if ms[0].key == key then [Member(key, value)] + ms[1..]
    else if LexLess(key, ms[0].key) then [Member(key, value)] + ms
    else [ms[0]] + Put(ms[1..], key, value)
  }

  /** `o.find(key)` */
  function Find(ms: seq<Member>, key: bytes): (r: Option<Value>) {
    if ms == [] then None
    else if ms[0].key == key then Some(ms[0].value)
    else Find(ms[1..], key)
  }

  /** The first member of a key is the one found. */
  lemma {:induction false} FindAt(ms: seq<Member>, i: nat)
    requires i < |ms| && forall j :: 0 <= j < i ==> ms[j].key != ms[i].key
    ensures Find(ms, ms[i].key) == Some(ms[i].value)
    decreases i
  {
    if i > 0 { FindAt(ms[1..], i - 1); }
  }

  lemma {:induction false} FindNone(ms: seq<Member>, key: bytes)
    requires forall j :: 0 <= j < |ms| ==> ms[j].key != key
    ensures Find(ms, key) == None
  {
    if ms != [] { FindNone(ms[1..], key); }
  }

  /** The value that the reference `o[key]` designates before it is assigned. */
  function Slot(ms: seq<Member>, key: bytes): (r: Value) {
    match Find(ms, key)
    case Some(v) => v
    case None => Null
  }

  ghost function AsMap(ms: seq<Member>): map<bytes, Value> {
    if ms == [] then map[] else AsMap(ms[1..])[ms[0].key := ms[0].value]
  }

  /** Assignment to `o[key]` updates the map at that key and nowhere else. */
  lemma {:induction false} PutIsUpdate(ms: seq<Member>, key: bytes, value: Value)
    ensures AsMap(Put(ms, key, value)) == AsMap(ms)[key := value]
  {
    if ms != [] {
      if ms[0].key == key || LexLess(key, ms[0].key) {
        assert Put(ms, key, value)[1..] == if ms[0].key == key then ms[1..] else ms;
      } else {
        PutIsUpdate(ms[1..], key, value);
        assert Put(ms, key, value)[1..] == Put(ms[1..], key, value);
      }
    }
  }

  lemma {:induction false} PutKeys(ms: seq<Member>, key: bytes, value: Value)
    ensures forall m <- Put(ms, key, value) :: m in ms || m == Member(key, value)
  {
    if ms != [] && ms[0].key != key && !LexLess(key, ms[0].key) {
      PutKeys(ms[1..], key, value);
    }
  }

  lemma {:induction false} PutAscending(ms: seq<Member>, key: bytes, value: Value)
    requires Ascending(ms)
    ensures Ascending(Put(ms, key, value))
  {
    if ms == [] {
    } else if ms[0].key == key {
    } else if LexLess(key, ms[0].key) {
      forall j | 0 <= j < |ms| ensures LexLess(key, ms[j].key) {
        if j > 0 { LexTransitive(key, ms[0].key, ms[j].key); }
      }
    } else {
      LexTotal(ms[0].key, key);
      PutAscending(ms[1..], key, value);
      PutKeys(ms[1..], key, value);
      var r := Put(ms[1..], key, value);
      forall m | m in r ensures LexLess(ms[0].key, m.key) {
        if m in ms[1..] {
          var i :| 0 <= i < |ms[1..]| && ms[1..][i] == m;
          assert m == ms[i + 1];
        }
      }
    }
  }

  /** A key above all others is appended at the end. */
  lemma {:induction false} PutLast(ms: seq<Member>, key: bytes, value: Value)
    requires forall i :: 0 <= i < |ms| ==> LexLess(ms[i].key, key)
    ensures Put(ms, key, value) == ms + [Member(key, value)]
  {
    if ms != [] {
      assert LexLess(ms[0].key, key);
      if LexLess(key, ms[0].key) { LexTransitive(key, ms[0].key, key); }
      LexIrreflexive(key);
      PutLast(ms[1..], key, value);
    }
  }

  lemma {:induction false} FindInMap(ms: seq<Member>, key: bytes)
    ensures Find(ms, key) == if key in AsMap(ms) then Some(AsMap(ms)[key]) else None
  {
    if ms != [] { FindInMap(ms[1..], key); }
  }

  /** The program's values: integers in range and members in map order, at every level. */
  ghost predicate Valid(v: Value)
    decreases v
  {
    match v
    case Int(i) => INT64_MIN <= i <= INT64_MAX
    case Array(items) => forall x <- items :: Valid(x)
    case Object(members) => Ascending(members) && forall m <- members :: Valid(m.value)
    case _ => true
  }

  /** No number in the value is a double. */
  ghost predicate Integral(v: Value)
    decreases v
  {
    match v
    case Double(_) => false
    case Array(items) => forall x <- items :: Integral(x)
    case Object(members) => forall m <- members :: Integral(m.value)
    case _ => true
  }
}
