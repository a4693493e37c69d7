/**
 JSON values as the gateway sees them.  An object keeps its keys in insertion
 order, because that order is what serialisation writes; Canonical forgets it,
 because Python's `==` on dictionaries does.
 */
module JsonValues {
  import opened Wrappers

  datatype Field = Field(key: string, value: Json)

  // A float is its exact ratio in lowest terms; NaN and the infinities are not modelled.
  datatype Json =
    | Null
    | Bool(b: bool)
    | Int(n: int)
    | Float(num: int, den: nat)
    | Str(s: string)
    | Arr(items: seq<Json>)
    | Obj(fields: seq<Field>)

  function Lookup(fields: seq<Field>, key: string): Option<Json> {
    if fields == [] then None
    else if fields[0].key == key then Some(fields[0].value)
    else Lookup(fields[1..], key)
  }

  // dict.get(key), with None for a missing key and for a value that is no dict
  function Get(v: Json, key: string): Option<Json> {
    if v.Obj? then Lookup(v.fields, key) else None
  }

  predicate HasKey(v: Json, key: string) {
    Get(v, key).Some?
  }

  // `d[key] = value` for a key that is already present; otherwise nothing changes
  function Replace(fields: seq<Field>, key: string, value: Json): (r: seq<Field>)
    ensures |r| == |fields|
    ensures forall i :: 0 <= i < |r| ==> r[i] == if fields[i].key == key then Field(key, value) else fields[i]
  {
    seq(|fields|, i requires 0 <= i < |fields| => if fields[i].key == key then Field(key, value) else fields[i])
  }

  lemma {:induction false} LookupReplace(fields: seq<Field>, key: string, value: Json, other: string)
    ensures Lookup(Replace(fields, key, value), other)
         == if other == key && Lookup(fields, key).Some? then Some(value) else Lookup(fields, other)
  {
    if fields == [] {
    } else {
      assert Replace(fields, key, value)[1..] == Replace(fields[1..], key, value);
      LookupReplace(fields[1..], key, value, other);
    }
  }

  // Keys are unique, at every depth, and floats are in range.
  ghost predicate WellFormed(v: Json) {
    match v
    case Float(_, den) => den > 0
    case Arr(items) => forall i :: 0 <= i < |items| ==> WellFormed(items[i])
    case Obj(fields) =>
      && (forall i, j :: 0 <= i < j < |fields| ==> fields[i].key != fields[j].key)
      && (forall i :: 0 <= i < |fields| ==> WellFormed(fields[i].value))
    case _ => true
  }

  lemma ReplaceWellFormed(fields: seq<Field>, key: string, value: Json)
    requires WellFormed(Obj(fields)) && WellFormed(value)
    ensures WellFormed(Obj(Replace(fields, key, value)))
  {
    var r := Replace(fields, key, value);
    forall i | 0 <= i < |r|
      ensures WellFormed(r[i].value)
    {
      assert WellFormed(fields[i].value);
    }
  }

  // ------------------------------------------------------------------
  // Equality as the program's host language decides it
  // ------------------------------------------------------------------

  datatype Canon =
    | CNull
    | CNum(num: int, den: nat)
    | CStr(s: string)
    | CArr(items: seq<Canon>)
    | CObj(fields: map<string, Canon>)

  // Two values are equal in Python exactly when their canonical forms are:
  // key order is forgotten and True, 1 and 1.0 are one number.
  function Canonical(v: Json): Canon
    decreases v
  {
    match v
    case Null => CNull
    case Bool(b) => CNum(if b then 1 else 0, 1)
    case Int(n) => CNum(n, 1)
    case Float(num, den) => CNum(num, den)
    case Str(s) => CStr(s)
    case Arr(items) => CArr(seq(|items|, i requires 0 <= i < |items| => Canonical(items[i])))
    case Obj(fields) => CObj(CanonicalFields(fields))
  }

  function CanonicalFields(fields: seq<Field>): map<string, Canon>
    decreases fields
  {
    if fields == [] then map[]
    else CanonicalFields(fields[1..])[fields[0].key := Canonical(fields[0].value)]
  }

  // The other keys, in order
  function Without(fields: seq<Field>, key: string): seq<Field> {
    if fields == [] then []
    else (if fields[0].key == key then [] else [fields[0]]) + Without(fields[1..], key)
  }

  lemma {:induction false} CanonicalLookup(fields: seq<Field>, key: string)
    ensures key in CanonicalFields(fields) <==> Lookup(fields, key).Some?
    ensures Lookup(fields, key).Some? ==> CanonicalFields(fields)[key] == Canonical(Lookup(fields, key).value)
  {
    if fields == [] {
    } else {
      CanonicalLookup(fields[1..], key);
    }
  }

  lemma {:induction false} LookupWithout(fields: seq<Field>, key: string, other: string)
    ensures Lookup(Without(fields, key), other) == if other == key then None else Lookup(fields, other)
  {
    if fields == [] {
    } else {
      LookupWithout(fields[1..], key, other);
      if fields[0].key == key {
        assert Without(fields, key) == Without(fields[1..], key);
      } else {
        assert Without(fields, key)[1..] == Without(fields[1..], key);
      }
    }
  }

  lemma {:induction false} LookupAt(fields: seq<Field>, i: nat)
    requires i < |fields|
    requires forall j :: 0 <= j < i ==> fields[j].key != fields[i].key
    ensures Lookup(fields, fields[i].key) == Some(fields[i].value)
  {
    if i == 0 {
    } else {
      LookupAt(fields[1..], i - 1);
    }
  }

  lemma {:induction false} LookupFinds(fields: seq<Field>, key: string) returns (i: nat)
    requires Lookup(fields, key).Some?
    ensures i < |fields| && fields[i].key == key
  {
    if fields[0].key == key {
      i := 0;
    } else {
      i := LookupFinds(fields[1..], key);
      i := i + 1;
    }
  }

  // ------------------------------------------------------------------
  // The same equality, case by case
  // ------------------------------------------------------------------

  predicate IsNumber(v: Json) {
    v.Bool? || v.Int? || v.Float?
  }

  function Numerator(v: Json): int
    requires IsNumber(v)
  {
    if v == Bool(true) then 1 else if v == Bool(false) then 0 else if v.Int? then v.n else v.num
  }

  function Denominator(v: Json): nat
    requires IsNumber(v)
  {
    if v.Float? then v.den else 1
  }

  // Numbers of all kinds compare by value, lists item by item, objects by key in any order.
  ghost predicate Equal(a: Json, b: Json)
    decreases a, 0
  {
    match a
    case Null => b.Null?
    case Str(s) => b == Str(s)
    case Arr(items) => b.Arr? && |items| == |b.items| && forall i :: 0 <= i < |items| ==> Equal(items[i], b.items[i])
    case Obj(fields) =>
      && b.Obj?
      && (forall i :: 0 <= i < |fields| ==> EqualAmong(fields[i].key, fields[i].value, b.fields))
      && (forall j :: 0 <= j < |b.fields| ==> Among(b.fields[j].key, fields))
    case _ => IsNumber(b) && Numerator(a) == Numerator(b) && Denominator(a) == Denominator(b)
  }

  ghost predicate EqualAmong(key: string, value: Json, fields: seq<Field>)
    decreases value, 1
  {
    exists j :: 0 <= j < |fields| && fields[j].key == key && Equal(value, fields[j].value)
  }

  ghost predicate Among(key: string, fields: seq<Field>) {
    exists j :: 0 <= j < |fields| && fields[j].key == key
  }

  lemma {:induction false} EqualExactly(a: Json, b: Json)
    requires WellFormed(a) && WellFormed(b)
    ensures Canonical(a) == Canonical(b) <==> Equal(a, b)
    decreases a
  {
    if a.Arr? && b.Arr? && |a.items| == |b.items| {
      forall i | 0 <= i < |a.items|
        ensures Canonical(a.items[i]) == Canonical(b.items[i]) <==> Equal(a.items[i], b.items[i])
      {
        EqualExactly(a.items[i], b.items[i]);
      }
      ListsEqual(a.items, b.items);
    } else if a.Obj? && b.Obj? {
      forall i, j | 0 <= i < |a.fields| && 0 <= j < |b.fields|
        ensures Canonical(a.fields[i].value) == Canonical(b.fields[j].value) <==> Equal(a.fields[i].value, b.fields[j].value)
      {
        EqualExactly(a.fields[i].value, b.fields[j].value);
      }
      ObjectsEqual(a.fields, b.fields);
    } else {
      OthersEqual(a, b);
    }
  }

  lemma OthersEqual(a: Json, b: Json)
    requires !(a.Obj? && b.Obj?) && !(a.Arr? && b.Arr? && |a.items| == |b.items|)
    ensures Canonical(a) == Canonical(b) <==> Equal(a, b)
  {
    if a.Arr? && b.Arr? {
      assert |Canonical(a).items| == |a.items| && |Canonical(b).items| == |b.items|;
    }
  }

  lemma ListsEqual(a: seq<Json>, b: seq<Json>)
    requires |a| == |b|
    requires forall i :: 0 <= i < |a| ==> (Canonical(a[i]) == Canonical(b[i]) <==> Equal(a[i], b[i]))
    ensures Canonical(Arr(a)) == Canonical(Arr(b)) <==> Equal(Arr(a), Arr(b))
  {
    var x, y := Canonical(Arr(a)).items, Canonical(Arr(b)).items;
    assert |x| == |a| && |y| == |b| && forall i :: 0 <= i < |a| ==> x[i] == Canonical(a[i]) && y[i] == Canonical(b[i]);
    assert x == y <==> forall i :: 0 <= i < |a| ==> x[i] == y[i];
  }

  lemma ObjectsEqual(a: seq<Field>, b: seq<Field>)
    requires UniqueKeys(a) && UniqueKeys(b)
    requires forall i, j :: 0 <= i < |a| && 0 <= j < |b| ==>
               (Canonical(a[i].value) == Canonical(b[j].value) <==> Equal(a[i].value, b[j].value))
    ensures Canonical(Obj(a)) == Canonical(Obj(b)) <==> Equal(Obj(a), Obj(b))
  {
    if CanonicalFields(a) == CanonicalFields(b) {
      forall i | 0 <= i < |a|
        ensures EqualAmong(a[i].key, a[i].value, b)
      {
        var j := Counterpart(a, b, i);
      }
      forall j | 0 <= j < |b|
        ensures Among(b[j].key, a)
      {
        var i := Counterpart(b, a, j);
      }
    }
    if Equal(Obj(a), Obj(b)) { SameCanonical(a, b); }
  }

  ghost predicate UniqueKeys(fields: seq<Field>) {
    forall i, j :: 0 <= i < j < |fields| ==> fields[i].key != fields[j].key
  }

  // The canonical form has exactly the fields.
  lemma FieldAt(fields: seq<Field>, i: nat)
    requires UniqueKeys(fields) && i < |fields|
    ensures fields[i].key in CanonicalFields(fields)
    ensures CanonicalFields(fields)[fields[i].key] == Canonical(fields[i].value)
  {
    CanonicalLookup(fields, fields[i].key);
    LookupAt(fields, i);
  }

  lemma FieldOf(fields: seq<Field>, key: string) returns (i: nat)
    requires key in CanonicalFields(fields)
    ensures i < |fields| && fields[i].key == key
  {
    CanonicalLookup(fields, key);
    i := LookupFinds(fields, key);
  }

  // With one canonical form, every field of one object has its counterpart in the other.
  lemma Counterpart(a: seq<Field>, b: seq<Field>, i: nat) returns (j: nat)
    requires UniqueKeys(a) && UniqueKeys(b) && CanonicalFields(a) == CanonicalFields(b) && i < |a|
    ensures j < |b| && b[j].key == a[i].key && Canonical(a[i].value) == Canonical(b[j].value)
  {
    FieldAt(a, i);
    j := FieldOf(b, a[i].key);
    FieldAt(b, j);
  }

  lemma SameCanonical(a: seq<Field>, b: seq<Field>)
    requires UniqueKeys(a) && UniqueKeys(b)
    requires forall i, j :: 0 <= i < |a| && 0 <= j < |b| && Equal(a[i].value, b[j].value) ==>
               Canonical(a[i].value) == Canonical(b[j].value)
    requires forall i :: 0 <= i < |a| ==> EqualAmong(a[i].key, a[i].value, b)
    requires forall j :: 0 <= j < |b| ==> Among(b[j].key, a)
    ensures CanonicalFields(a) == CanonicalFields(b)
  {
    forall key | key in CanonicalFields(a)
      ensures key in CanonicalFields(b) && CanonicalFields(a)[key] == CanonicalFields(b)[key]
    {
      var i := FieldOf(a, key);
      EqualShared(a, b, i);
    }
    forall key | key in CanonicalFields(b)
      ensures key in CanonicalFields(a)
    {
      var j := FieldOf(b, key);
      KeyShared(a, b[j].key);
    }
  }

  lemma EqualShared(a: seq<Field>, b: seq<Field>, i: nat)
    requires UniqueKeys(a) && UniqueKeys(b) && i < |a| && EqualAmong(a[i].key, a[i].value, b)
    requires forall j :: 0 <= j < |b| && Equal(a[i].value, b[j].value) ==> Canonical(a[i].value) == Canonical(b[j].value)
    ensures a[i].key in CanonicalFields(a) && a[i].key in CanonicalFields(b)
    ensures CanonicalFields(a)[a[i].key] == CanonicalFields(b)[a[i].key]
  {
    FieldAt(a, i);
    var j :| 0 <= j < |b| && b[j].key == a[i].key && Equal(a[i].value, b[j].value);
    FieldAt(b, j);
  }

  lemma KeyShared(fields: seq<Field>, key: string)
    requires UniqueKeys(fields) && Among(key, fields)
    ensures key in CanonicalFields(fields)
  {
    var i :| 0 <= i < |fields| && fields[i].key == key;
    FieldAt(fields, i);
  }
}
