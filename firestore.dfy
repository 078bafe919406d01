/**
 * The document store both halves of the system write to and the dashboard
 * reads from, reduced to what the modelled code relies on: typed field
 * values, documents addressed by id inside one collection, appending a
 * document with a generated id, replacing a document by id, and the order in
 * which a query sorts field values of mixed types.
 */
module Firestore {

  /** A stored field value. `Time` is a timestamp, as an instant in seconds. */
  datatype Value =
    | Null
    | Bool(b: bool)
    | Int(i: int)
    | Double(d: real)
    | Time(instant: int)
    | Str(s: string)
    | Array(items: seq<Value>)
    | Map(fields: map<string, Value>)

  type Fields = map<string, Value>

  datatype Doc = Doc(id: string, fields: Fields)

  /** One collection, in the order its documents are listed. */
  type Collection = seq<Doc>

  ghost predicate UniqueIds(c: Collection) {
    forall i, j :: 0 <= i < j < |c| ==> c[i].id != c[j].id
  }

  /** `collection.add(data)`: one new document under a fresh generated id; nothing else changes. */
  function Add(c: Collection, id: string, fields: Fields): (r: Collection)
    ensures |r| == |c| + 1 && r[..|c|] == c && r[|c|] == Doc(id, fields)
    ensures UniqueIds(c) && (forall d :: d in c ==> d.id != id) ==> UniqueIds(r)
  {
    c + [Doc(id, fields)]
  }

  /**
   * `document(id).set(data)` (and a REST PATCH without an update mask):
   * the document's fields become `fields` wholesale, whatever it held before;
   * a missing document is created at the end.
   */
  function Set(c: Collection, id: string, fields: Fields): (r: Collection)
    ensures Doc(id, fields) in r
    ensures forall d :: d in r && d.id != id ==> d in c
    ensures forall d :: d in c && d.id != id ==> d in r
    ensures UniqueIds(c) ==> UniqueIds(r) && forall d :: d in r && d.id == id ==> d.fields == fields
  {
    if c == [] then [Doc(id, fields)]
    else if c[0].id == id then [Doc(id, fields)] + c[1..]
    else [c[0]] + Set(c[1..], id, fields)
  }

  /** Position of a value's type in the store's cross-type sort order. */
  function TypeRank(v: Value): nat {
    match v
    case Null => 0
    case Bool(_) => 1
    case Int(_) => 2
    case Double(_) => 2
    case Time(_) => 3
    case Str(_) => 4
    case Array(_) => 5
    case Map(_) => 6
  }

  /** Position of a value among values of its own type (strings, arrays and maps tie). */
  function Magnitude(v: Value): real {
    match v
    case Bool(b) => if b then 1.0 else 0.0
    case Int(i) => i as real
    case Double(d) => d
    case Time(t) => t as real
    case _ => 0.0
  }

  /** `a` sorts no later than `b` in ascending order. A total preorder. */
  predicate SortsBefore(a: Value, b: Value) {
    TypeRank(a) < TypeRank(b) || (TypeRank(a) == TypeRank(b) && Magnitude(a) <= Magnitude(b))
  }

  /** The order a query sorts by is a total preorder: reflexive, transitive and total. */
  lemma SortsBeforePreorder(a: Value, b: Value, c: Value)
    ensures SortsBefore(a, a)
    ensures SortsBefore(a, b) && SortsBefore(b, c) ==> SortsBefore(a, c)
    ensures SortsBefore(a, b) || SortsBefore(b, a)
  {
  }
}
