/** map2struct and setValue: applying a flat key/value map to a record,
    field by field, through the derived key of each field. */
module Applier {
  import opened GoStrings
  import opened Schema
  import opened Naming
  import opened Coercion
  import opened Tokenize

  /** The key a field's derived name is compared with: environment keys are
      upper-cased first. */
  function LookupKey(k: SourceKind, key: string): string
  {
    if k == Env then ToUpper(key) else key
  }

  /** The key derivation setValue performs for a field: on its trimmed tag. */
  function FieldKey(lib: Library, k: SourceKind, prefix: string, f: Field): Derived
  {
    ConvertName(lib, f.name, k, TrimSpace(TagOf(f, k)), prefix)
  }

  /** setValue writes field `f` for `key` exactly when the field's trimmed
      tag is not "-" and its derived name is the lookup key. */
  predicate Matches(lib: Library, k: SourceKind, prefix: string, f: Field, key: string)
  {
    TrimSpace(TagOf(f, k)) != "-" && FieldKey(lib, k, prefix, f).name == LookupKey(k, key)
  }

  /** What one setValue call leaves in field `f`. */
  function StoreInto(lib: Library, k: SourceKind, prefix: string, f: Field, prior: Value, key: string, value: string): (v: Value)
    requires ValueConforms(f.kind, prior)
    ensures ValueConforms(f.kind, v)
  {
    if Matches(lib, k, prefix, f, key) then Store(lib, f.kind, prior, value, FieldKey(lib, k, prefix, f).separator)
    else prior
  }

  /** The field loop of setValue, from field `i` on. */
  function SetFrom(lib: Library, k: SourceKind, prefix: string, schema: seq<Field>, rec: Record, key: string, value: string, i: nat): (r: Record)
    requires Conforms(schema, rec) && i <= |rec|
    ensures Conforms(schema, r)
    ensures forall j :: 0 <= j < i ==> r[j] == rec[j]
    ensures forall j :: i <= j < |r| ==> r[j] == StoreInto(lib, k, prefix, schema[j], rec[j], key, value)
    decreases |rec| - i
  {
    if i == |rec| then rec
    else SetFrom(lib, k, prefix, schema, rec[i := StoreInto(lib, k, prefix, schema[i], rec[i], key, value)], key, value, i + 1)
  }

  /** setValue: every field is decided on its own; fields that do not match
      the key keep their value. */
  function SetValue(lib: Library, k: SourceKind, prefix: string, schema: seq<Field>, rec: Record, key: string, value: string): (r: Record)
    requires Conforms(schema, rec)
    ensures Conforms(schema, r)
    ensures forall i :: 0 <= i < |r| ==> r[i] == StoreInto(lib, k, prefix, schema[i], rec[i], key, value)
  {
    SetFrom(lib, k, prefix, schema, rec, key, value, 0)
  }

  /** A list of keys is one run of Go's iteration over the map: every key
      once, in some order. */
  ghost predicate IsEnumeration(order: seq<string>, m: map<string, string>)
  {
    (forall j :: 0 <= j < |order| ==> order[j] in m) &&
    (forall key :: key in m ==> key in order) &&
    (forall a, b :: 0 <= a < b < |order| ==> order[a] != order[b])
  }

  /** map2struct's filter on an entry, before setValue: the trimmed key and
      the (untrimmed) value are both non-empty. */
  predicate Applied(m: map<string, string>, key: string)
    requires key in m
  {
    TrimSpace(key) != "" && m[key] != ""
  }

  /** The map entry `key` reaches field `f`: it passes the filter and its
      trimmed key matches the field. */
  predicate Reaches(lib: Library, k: SourceKind, prefix: string, m: map<string, string>, key: string, f: Field)
    requires key in m
  {
    Applied(m, key) && Matches(lib, k, prefix, f, TrimSpace(key))
  }

  /** map2struct over the keys in the given iteration order. It reports no
      error in any case. */
  function Map2Struct(lib: Library, k: SourceKind, prefix: string, m: map<string, string>, order: seq<string>,
                      schema: seq<Field>, rec: Record): (r: Record)
    requires Conforms(schema, rec)
    requires forall j :: 0 <= j < |order| ==> order[j] in m
    ensures Conforms(schema, r)
    // fields are independent: each one ends as the entries that reach it,
    // and only those, applied in order
    ensures forall i :: 0 <= i < |r| ==> r[i] == FieldFold(lib, k, prefix, m, order, schema[i], rec[i])
    decreases |order|
  {
    if order == [] then rec
    else
      var n := |order| - 1;
      var r0 := Map2Struct(lib, k, prefix, m, order[..n], schema, rec);
      var key := order[n];
      FoldStep(lib, k, prefix, m, order, schema, rec);
      if Applied(m, key) then SetValue(lib, k, prefix, schema, r0, TrimSpace(key), m[key]) else r0
  }

  /** Which entries, in iteration order, reach field `f`. */
  function Hits(lib: Library, k: SourceKind, prefix: string, m: map<string, string>, order: seq<string>, f: Field): (h: seq<bool>)
    requires forall j :: 0 <= j < |order| ==> order[j] in m
    ensures |h| == |order|
    ensures forall j :: 0 <= j < |order| ==> h[j] == Reaches(lib, k, prefix, m, order[j], f)
  {
    seq(|order|, j requires 0 <= j < |order| => Reaches(lib, k, prefix, m, order[j], f))
  }

  /** The values of the entries, in iteration order. */
  function Values(m: map<string, string>, order: seq<string>): (vs: seq<string>)
    requires forall j :: 0 <= j < |order| ==> order[j] in m
    ensures |vs| == |order|
    ensures forall j :: 0 <= j < |order| ==> vs[j] == m[order[j]]
  {
    seq(|order|, j requires 0 <= j < |order| => m[order[j]])
  }

  /** A field's value after the entries flagged in `hits` are stored into
      it, in order. */
  function StoreEach(lib: Library, kind: Kind, sep: string, v: Value, hits: seq<bool>, vals: seq<string>): (r: Value)
    requires |hits| == |vals| && ValueConforms(kind, v)
    ensures ValueConforms(kind, r)
    decreases |hits|
  {
    if hits == [] then v
    else
      var n := |hits| - 1;
      var v0 := StoreEach(lib, kind, sep, v, hits[..n], vals[..n]);
      if hits[n] then Store(lib, kind, v0, vals[n], sep) else v0
  }

  /** The value one field ends with: the entries that reach it stored in
      iteration order, with the field's own separator. */
  function FieldFold(lib: Library, k: SourceKind, prefix: string, m: map<string, string>, order: seq<string>,
                     f: Field, v: Value): (r: Value)
    requires ValueConforms(f.kind, v)
    requires forall j :: 0 <= j < |order| ==> order[j] in m
    ensures ValueConforms(f.kind, r)
  {
    StoreEach(lib, f.kind, FieldKey(lib, k, prefix, f).separator, v, Hits(lib, k, prefix, m, order, f), Values(m, order))
  }

  /** One more entry acts on each field exactly as setValue does. */
  lemma FoldStep(lib: Library, k: SourceKind, prefix: string, m: map<string, string>, order: seq<string>,
                 schema: seq<Field>, rec: Record)
    requires Conforms(schema, rec)
    requires forall j :: 0 <= j < |order| ==> order[j] in m
    requires order != []
    ensures var n := |order| - 1;
      forall i :: 0 <= i < |rec| ==>
        FieldFold(lib, k, prefix, m, order, schema[i], rec[i]) ==
          var v0 := FieldFold(lib, k, prefix, m, order[..n], schema[i], rec[i]);
          if Applied(m, order[n]) then StoreInto(lib, k, prefix, schema[i], v0, TrimSpace(order[n]), m[order[n]]) else v0
  {
    forall i | 0 <= i < |rec|
    {
      FieldFoldStep(lib, k, prefix, m, order, schema[i], rec[i]);
    }
  }

  lemma FieldFoldStep(lib: Library, k: SourceKind, prefix: string, m: map<string, string>, order: seq<string>,
                      f: Field, v: Value)
    requires ValueConforms(f.kind, v)
    requires forall j :: 0 <= j < |order| ==> order[j] in m
    requires order != []
    ensures var n := |order| - 1;
      var v0 := FieldFold(lib, k, prefix, m, order[..n], f, v);
      FieldFold(lib, k, prefix, m, order, f, v) ==
        if Applied(m, order[n]) then StoreInto(lib, k, prefix, f, v0, TrimSpace(order[n]), m[order[n]]) else v0
  {
    var n := |order| - 1;
    var h := Hits(lib, k, prefix, m, order, f);
    var vs := Values(m, order);
    assert h[..n] == Hits(lib, k, prefix, m, order[..n], f);
    assert vs[..n] == Values(m, order[..n]);
  }

  /** A field no flagged entry reaches keeps its value. */
  lemma {:induction false} StoreEachNone(lib: Library, kind: Kind, sep: string, v: Value, hits: seq<bool>, vals: seq<string>)
    requires |hits| == |vals| && ValueConforms(kind, v)
    requires forall j :: 0 <= j < |hits| ==> !hits[j]
    ensures StoreEach(lib, kind, sep, v, hits, vals) == v
    decreases |hits|
  {
    if hits != [] {
      StoreEachNone(lib, kind, sep, v, hits[..|hits| - 1], vals[..|hits| - 1]);
    }
  }

  /** With exactly one flagged entry, the field is stored from its value. */
  lemma {:induction false} StoreEachSingle(lib: Library, kind: Kind, sep: string, v: Value, hits: seq<bool>, vals: seq<string>, j: nat)
    requires |hits| == |vals| && ValueConforms(kind, v)
    requires j < |hits| && hits[j]
    requires forall i :: 0 <= i < |hits| && i != j ==> !hits[i]
    ensures StoreEach(lib, kind, sep, v, hits, vals) == Store(lib, kind, v, vals[j], sep)
    decreases |hits|
  {
    var n := |hits| - 1;
    if j == n {
      StoreEachNone(lib, kind, sep, v, hits[..n], vals[..n]);
    } else {
      StoreEachSingle(lib, kind, sep, v, hits[..n], vals[..n], j);
    }
  }

  /** A scalar field ends with the value of the last flagged entry; earlier
      ones leave no trace. */
  lemma {:induction false} StoreEachLastScalar(lib: Library, kind: Kind, sep: string, v: Value, hits: seq<bool>, vals: seq<string>, j: nat)
    requires kind.Scalar? && kind.elem != Other
    requires |hits| == |vals| && ValueConforms(kind, v)
    requires j < |hits| && hits[j]
    requires forall i :: j < i < |hits| ==> !hits[i]
    ensures StoreEach(lib, kind, sep, v, hits, vals) == One(SetField(lib, kind.elem, vals[j]))
    decreases |hits|
  {
    var n := |hits| - 1;
    if j < n {
      StoreEachLastScalar(lib, kind, sep, v, hits[..n], vals[..n], j);
    }
  }

  /** A field whose trimmed tag is "-" is never written. */
  lemma Map2StructExcluded(lib: Library, k: SourceKind, prefix: string, m: map<string, string>, order: seq<string>,
                           schema: seq<Field>, rec: Record, i: nat)
    requires Conforms(schema, rec)
    requires forall j :: 0 <= j < |order| ==> order[j] in m
    requires i < |schema| && TrimSpace(TagOf(schema[i], k)) == "-"
    ensures Map2Struct(lib, k, prefix, m, order, schema, rec)[i] == rec[i]
  {
    var f := schema[i];
    StoreEachNone(lib, f.kind, FieldKey(lib, k, prefix, f).separator, rec[i], Hits(lib, k, prefix, m, order, f), Values(m, order));
  }

  /** With one map entry reaching a field, the field's final value does not
      depend on the order Go happens to iterate the map in. */
  lemma Map2StructUniqueMatch(lib: Library, k: SourceKind, prefix: string, m: map<string, string>, order: seq<string>,
                              schema: seq<Field>, rec: Record, i: nat, key: string)
    requires Conforms(schema, rec) && IsEnumeration(order, m)
    requires i < |schema| && key in m && Reaches(lib, k, prefix, m, key, schema[i])
    requires forall other :: other in m && other != key ==> !Reaches(lib, k, prefix, m, other, schema[i])
    ensures Map2Struct(lib, k, prefix, m, order, schema, rec)[i] ==
      Store(lib, schema[i].kind, rec[i], m[key], FieldKey(lib, k, prefix, schema[i]).separator)
  {
    var f := schema[i];
    var j :| 0 <= j < |order| && order[j] == key;
    var h := Hits(lib, k, prefix, m, order, f);
    HitsOnlyAt(lib, k, prefix, m, order, f, key, j);
    StoreEachSingle(lib, f.kind, FieldKey(lib, k, prefix, f).separator, rec[i], h, Values(m, order), j);
  }

  lemma HitsOnlyAt(lib: Library, k: SourceKind, prefix: string, m: map<string, string>, order: seq<string>,
                   f: Field, key: string, j: nat)
    requires IsEnumeration(order, m)
    requires j < |order| && order[j] == key
    requires forall other :: other in m && other != key ==> !Reaches(lib, k, prefix, m, other, f)
    ensures var h := Hits(lib, k, prefix, m, order, f);
      forall i :: 0 <= i < |h| && i != j ==> !h[i]
  {
    var h := Hits(lib, k, prefix, m, order, f);
    forall i | 0 <= i < |h| && i != j
      ensures !h[i]
    {
      assert order[i] != key;
    }
  }

  /** A scalar field ends with the value of the last entry, in iteration
      order, that reaches it. */
  lemma Map2StructLastScalarWins(lib: Library, k: SourceKind, prefix: string, m: map<string, string>, order: seq<string>,
                                 schema: seq<Field>, rec: Record, i: nat, j: nat)
    requires Conforms(schema, rec)
    requires forall j :: 0 <= j < |order| ==> order[j] in m
    requires i < |schema| && schema[i].kind.Scalar? && schema[i].kind.elem != Other
    requires j < |order| && Reaches(lib, k, prefix, m, order[j], schema[i])
    requires forall j' :: j < j' < |order| ==> !Reaches(lib, k, prefix, m, order[j'], schema[i])
    ensures Map2Struct(lib, k, prefix, m, order, schema, rec)[i] == One(SetField(lib, schema[i].kind.elem, m[order[j]]))
  {
    var f := schema[i];
    StoreEachLastScalar(lib, f.kind, FieldKey(lib, k, prefix, f).separator, rec[i], Hits(lib, k, prefix, m, order, f), Values(m, order), j);
  }

  /** A field no entry of the map reaches keeps its value. */
  lemma Map2StructFrame(lib: Library, k: SourceKind, prefix: string, m: map<string, string>, order: seq<string>,
                        schema: seq<Field>, rec: Record, i: nat)
    requires Conforms(schema, rec) && IsEnumeration(order, m)
    requires i < |schema|
    requires forall key :: key in m ==> !Reaches(lib, k, prefix, m, key, schema[i])
    ensures Map2Struct(lib, k, prefix, m, order, schema, rec)[i] == rec[i]
  {
    var f := schema[i];
    StoreEachNone(lib, f.kind, FieldKey(lib, k, prefix, f).separator, rec[i], Hits(lib, k, prefix, m, order, f), Values(m, order));
  }

  /** Environment keys match whatever the letter case of the map key. */
  lemma EnvMatchIgnoresKeyCase(lib: Library, prefix: string, f: Field, key: string)
    ensures Matches(lib, Env, prefix, f, key) <==> Matches(lib, Env, prefix, f, ToUpper(key))
  {
    ToUpperIdempotent(key);
  }

  /** A key that starts with "-" still does after trimming. */
  lemma TrimKeepsDash(key: string)
    requires IsDash(key)
    ensures TrimSpace(key) != "" ==> IsDash(TrimSpace(key))
  {
    assert !IsSpace(key[0]);
    assert LeadingSpaces(key) == 0;
  }

  /** A flag tag naming a key without a leading "-" gives a derived key
      without one, which no command-line key ever equals: the field cannot
      be set from the command line. */
  lemma FlagOverrideUnreachable(lib: Library, f: Field, key: string)
    requires var ov := TagOverride(TrimSpace(TagOf(f, Flag))); ov != "" && !HasPrefix(ov, "-")
    requires IsDash(key)
    ensures !Matches(lib, Flag, "", f, key)
  {
  }

  /** The flag source never writes a field whose flag tag names a key
      without a leading "-". */
  lemma FlagsNeverSetUndashedOverride(lib: Library, args: seq<string>, order: seq<string>,
                                      schema: seq<Field>, rec: Record, i: nat)
    requires |args| >= 1
    requires Conforms(schema, rec) && IsEnumeration(order, FlagMap(args))
    requires i < |schema|
    requires var ov := TagOverride(TrimSpace(TagOf(schema[i], Flag))); ov != "" && !HasPrefix(ov, "-")
    ensures Map2Struct(lib, Flag, "", FlagMap(args), order, schema, rec)[i] == rec[i]
  {
    var m := FlagMap(args);
    forall key | key in m
      ensures !Reaches(lib, Flag, "", m, key, schema[i])
    {
      TrimKeepsDash(key);
      if TrimSpace(key) != "" {
        FlagOverrideUnreachable(lib, schema[i], TrimSpace(key));
      }
    }
    Map2StructFrame(lib, Flag, "", m, order, schema, rec, i);
  }
}
