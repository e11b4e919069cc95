/** redact.go: recursive in-place replacement over nested maps. */
module Redaction {
  import opened Bytes
  import opened Values

  /** What redaction does to a tree of values: slices are not entered. */
  function Redacted(v: Value, fields: set<bytes>, replacement: bytes): Value {
    match v
    case Map(m) => Map(map k | k in m :: if k in fields then Str(replacement) else Redacted(m[k], fields, replacement))
    case _ => v
  }

  function RedactedUnder(k: bytes, v: Value, fields: set<bytes>, replacement: bytes): Value {
    if k in fields then Str(replacement) else Redacted(v, fields, replacement)
  }

  /** What a map stores under a key: a nested map, or any value that is not one. */
  datatype Cell = Leaf(v: Value) | Nested(m: GoMap)

  ghost predicate CellValid(c: Cell)
    reads if c.Nested? then {c.m} + c.m.Repr else {}
    decreases if c.Nested? then c.m.Repr else {}, 1
  {
    c.Nested? ==> c.m.Valid()
  }

  ghost function CellValue(c: Cell): Value
    requires CellValid(c)
    reads if c.Nested? then {c.m} + c.m.Repr else {}
    decreases if c.Nested? then c.m.Repr else {}, 1
  {
    match c case Leaf(v) => v case Nested(m) => m.Contents()
  }

  /** A map[string]any, which is a reference: callers see it change. */
  class GoMap {
    var entries: map<bytes, Cell>
    ghost var Repr: set<GoMap>

    /** The nested maps form a tree below this one. */
    ghost predicate Valid()
      reads this, Repr
      decreases Repr, 0
    {
      && this in Repr
      && (forall k | k in entries && entries[k].Nested? ::
           && entries[k].m in Repr && entries[k].m.Repr <= Repr - {this}
           && entries[k].m.Valid())
      && (forall k | k in entries && entries[k].Leaf? :: !entries[k].v.Map?)
      && Apart(entries)
    }

    ghost function Contents(): Value
      requires Valid()
      reads this, Repr
      decreases Repr, 0
    {
      Map(map k | k in entries :: CellValue(entries[k]))
    }

    constructor ()
      ensures Valid() && fresh(Repr) && Contents() == Map(map[])
    {
      entries := map[];
      Repr := {this};
    }

    /** redactMap. */
    method Redact(fields: set<bytes>, replacement: bytes)
      requires Valid()
      modifies Repr
      ensures Valid() && Repr == old(Repr)
      ensures Contents() == Redacted(old(Contents()), fields, replacement)
      decreases Repr, 1
    {
      ghost var before := Contents().m;
      var todo := entries.Keys;
      while todo != {}
        invariant Valid() && Repr == old(Repr) && todo <= entries.Keys == before.Keys
        invariant forall k | k in todo :: CellValue(entries[k]) == before[k]
        invariant forall k | k in before && k !in todo ::
                    CellValue(entries[k]) == RedactedUnder(k, before[k], fields, replacement)
        decreases todo
      {
        var k :| k in todo;
        RedactKey(k, fields, replacement);
        todo := todo - {k};
      }
      ContentsAre(before, fields, replacement);
    }

    /** The body of the loop. */
    method RedactKey(k: bytes, fields: set<bytes>, replacement: bytes)
      requires Valid() && k in entries
      modifies Repr
      ensures Valid() && Repr == old(Repr) && entries.Keys == old(entries.Keys)
      ensures CellValue(entries[k]) == RedactedUnder(k, old(CellValue(entries[k])), fields, replacement)
      ensures forall j | j in entries && j != k :: CellValue(entries[j]) == old(CellValue(entries[j]))
      decreases Repr, 0
    {
      if k in fields {
        entries := entries[k := Leaf(Str(replacement))];
      } else if entries[k].Nested? {
        entries[k].m.Redact(fields, replacement);
      }
    }

    lemma ContentsAre(before: Fields, fields: set<bytes>, replacement: bytes)
      requires Valid() && entries.Keys == before.Keys
      requires forall k | k in before :: CellValue(entries[k]) == RedactedUnder(k, before[k], fields, replacement)
      ensures Contents() == Redacted(Map(before), fields, replacement)
    {
      assert Contents().m.Keys == entries.Keys;
    }
  }

  /** Different keys hold maps with nothing in common. */
  ghost predicate Apart(entries: map<bytes, Cell>)
    reads set k | k in entries && entries[k].Nested? :: entries[k].m
  {
    forall k1, k2 | k1 in entries && k2 in entries && k1 != k2 && entries[k1].Nested? && entries[k2].Nested? ::
      entries[k1].m.Repr !! entries[k2].m.Repr
  }

  // ---- what redaction guarantees

  /** The value at the end of a path of keys through nested maps. */
  function Lookup(v: Value, path: seq<bytes>): Option<Value>
    decreases |path|
  {
    if path == [] then Some(v)
    else if v.Map? && path[0] in v.m then Lookup(v.m[path[0]], path[1..])
    else None
  }

  predicate NoneListed(path: seq<bytes>, fields: set<bytes>) {
    forall k | k in path :: k !in fields
  }

  /** Along a path without listed keys nothing is added, removed or renamed, and what is no map is unchanged. */
  lemma {:induction false} UnlistedPathsKept(v: Value, path: seq<bytes>, fields: set<bytes>, replacement: bytes)
    requires NoneListed(path, fields)
    ensures Lookup(Redacted(v, fields, replacement), path) ==
            match Lookup(v, path) case None => None case Some(w) => Some(Redacted(w, fields, replacement))
    ensures Lookup(v, path).Some? && !Lookup(v, path).value.Map? ==>
              Lookup(Redacted(v, fields, replacement), path) == Lookup(v, path)
    decreases |path|
  {
    if path != [] && v.Map? && path[0] in v.m {
      UnlistedPathsKept(v.m[path[0]], path[1..], fields, replacement);
    }
  }

  /** A listed key that can be reached through maps holds the replacement, and nothing below it can be reached any more. */
  lemma {:induction false} ListedKeysReplaced(v: Value, path: seq<bytes>, k: bytes, below: seq<bytes>, fields: set<bytes>, replacement: bytes)
    requires NoneListed(path, fields) && k in fields && Lookup(v, path + [k]).Some?
    ensures Lookup(Redacted(v, fields, replacement), path + [k] + below) == if below == [] then Some(Str(replacement)) else None
    decreases |path|
  {
    var r := Redacted(v, fields, replacement);
    var p := path + [k];
    if path == [] {
      assert (p + below)[0] == k && (p + below)[1..] == below;
    } else {
      assert p[1..] == path[1..] + [k];
      assert (p + below)[1..] == path[1..] + [k] + below;
      ListedKeysReplaced(v.m[path[0]], path[1..], k, below, fields, replacement);
    }
  }

  /** Wherever maps lead, a listed key holds the replacement and nothing else. */
  predicate Clean(v: Value, fields: set<bytes>, replacement: bytes) {
    v.Map? ==> forall k | k in v.m :: if k in fields then v.m[k] == Str(replacement) else Clean(v.m[k], fields, replacement)
  }

  lemma {:induction false} RedactedIsClean(v: Value, fields: set<bytes>, replacement: bytes)
    ensures Clean(Redacted(v, fields, replacement), fields, replacement)
  {
    if v.Map? {
      forall k | k in v.m ensures Clean(Redacted(v.m[k], fields, replacement), fields, replacement) {
        RedactedIsClean(v.m[k], fields, replacement);
      }
    }
  }

  /** Clean values are exactly those redaction leaves alone, so redacting twice is redacting once. */
  lemma {:induction false} CleanIffUnchanged(v: Value, fields: set<bytes>, replacement: bytes)
    ensures Clean(v, fields, replacement) <==> Redacted(v, fields, replacement) == v
  {
    if v.Map? {
      var r := Redacted(v, fields, replacement).m;
      forall k | k in v.m { CleanIffUnchanged(v.m[k], fields, replacement); }
      if Clean(v, fields, replacement) {
        assert r == v.m;
      }
    }
  }

  lemma RedactTwice(v: Value, fields: set<bytes>, replacement: bytes)
    ensures Redacted(Redacted(v, fields, replacement), fields, replacement) == Redacted(v, fields, replacement)
  {
    RedactedIsClean(v, fields, replacement);
    CleanIffUnchanged(Redacted(v, fields, replacement), fields, replacement);
  }
}
