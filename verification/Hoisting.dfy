/** The schema pass that moves inline enums into shared definitions and leaves references behind. */
module Hoisting {
  import opened Wrappers

  /** A member name: the two that matter to the pass, and all others. */
  datatype Key = EnumKey | RefKey | Named(name: string)

  function KeyText(k: Key): string {
    match k
    case EnumKey => "enum"
    case RefKey => "$ref"
    case Named(name) => name
  }

  /**
   A parsed JSON value. A string "#/definitions/x" is `Pointer("x")`, any other string is a `Str`. An array
   is a node too: the pass visits its elements under their index keys.
   */
  datatype Json =
    | Null
    | Bool(b: bool)
    | Number(n: real)
    | Str(s: string)
    | Pointer(name: string)
    | Node(isArray: bool, fields: seq<Field>)

  datatype Field = Field(key: Key, value: Json)

  /** A name that is not a second spelling of one of the two that matter. */
  predicate IsPlain(k: Key) {
    k.Named? && KeyText(k) != KeyText(EnumKey) && KeyText(k) != KeyText(RefKey)
  }

  /** The name under which an enum at a key is moved. */
  type Naming = Key -> string

  /** The naming of the source: the schema's title and the key with its first character capitalised. */
  function TitleNaming(title: string, upper: char -> string): Naming {
    (key: Key) =>
      var text := KeyText(key);
      title + if text == "" then "" else upper(text[0]) + text[1..]
  }

  predicate Truthy(j: Json) {
    match j
    case Null => false
    case Bool(b) => b
    case Number(n) => n != 0.0
    case Str(s) => s != ""
    case Pointer(_) => true
    case Node(_, _) => true
  }

  predicate IsEnum(j: Json) {
    j.Node? && !j.isArray && exists i :: 0 <= i < |j.fields| && j.fields[i].key == EnumKey && Truthy(j.fields[i].value)
  }

  function Ref(name: string): Json {
    Node(false, [Field(RefKey, Pointer(name))])
  }

  /** The name that a reference object refers to. */
  function Referred(j: Json): (r: Option<string>)
    ensures r.Some? ==> j == Ref(r.value)
  {
    if j.Node? && !j.isArray && |j.fields| == 1 && j.fields[0].key == RefKey && j.fields[0].value.Pointer? then
      assert j == Ref(j.fields[0].value.name);
      Some(j.fields[0].value.name)
    else None
  }

  lemma ReferredRef(name: string)
    ensures Referred(Ref(name)) == Some(name)
  {
    assert Ref(name).fields[0] == Field(RefKey, Pointer(name));
  }

  // ----- the pass, as functions -----

  /** The tree after the pass. */
  function Hoisted(m: Naming, fields: seq<Field>): (r: seq<Field>)
    ensures |r| == |fields|
  {
    if fields == [] then []
    else Hoisted(m, fields[..|fields| - 1]) + [HoistedField(m, fields[|fields| - 1])]
  }

  function HoistedField(m: Naming, f: Field): Field {
    if IsEnum(f.value) then Field(f.key, Ref(m(f.key)))
    else if f.value.Node? then Field(f.key, Node(f.value.isArray, Hoisted(m, f.value.fields)))
    else f
  }

  /** An enum that the pass moves, with the name it moves it to. */
  datatype Definition = Definition(name: string, node: Json)

  /** The moved enums in the order in which they are visited. */
  function Moved(m: Naming, fields: seq<Field>): seq<Definition> {
    if fields == [] then [] else Moved(m, fields[..|fields| - 1]) + MovedField(m, fields[|fields| - 1])
  }

  function MovedField(m: Naming, f: Field): seq<Definition> {
    if IsEnum(f.value) then [Definition(m(f.key), f.value)]
    else if f.value.Node? then Moved(m, f.value.fields)
    else []
  }

  /** A later definition of the same name replaces an earlier one. */
  function Defined(start: map<string, Json>, ds: seq<Definition>): map<string, Json> {
    if ds == [] then start
    else Defined(start, ds[..|ds| - 1])[ds[|ds| - 1].name := ds[|ds| - 1].node]
  }

  function Names(ds: seq<Definition>): seq<string> {
    if ds == [] then [] else Names(ds[..|ds| - 1]) + [ds[|ds| - 1].name]
  }

  /** A null below the visited tree makes the pass throw: typeof null is 'object', and null has no members. */
  predicate MeetsNull(fields: seq<Field>) {
    fields != [] && (MeetsNull(fields[..|fields| - 1]) || FieldMeetsNull(fields[|fields| - 1]))
  }

  predicate FieldMeetsNull(f: Field) {
    f.value.Null? || (f.value.Node? && !IsEnum(f.value) && MeetsNull(f.value.fields))
  }

  /** What has been moved when the pass throws: everything before the null. */
  function PartMoved(m: Naming, fields: seq<Field>): seq<Definition> {
    if fields == [] then []
    else
      var n := |fields| - 1;
      if MeetsNull(fields[..n]) then PartMoved(m, fields[..n]) else Moved(m, fields[..n]) + PartMovedField(m, fields[n])
  }

  function PartMovedField(m: Naming, f: Field): seq<Definition> {
    if IsEnum(f.value) then [Definition(m(f.key), f.value)]
    else if f.value.Node? then PartMoved(m, f.value.fields)
    else []
  }

  /** The tree that the pass leaves when it throws: rewritten before the null, and as it was after it. */
  function PartHoisted(m: Naming, fields: seq<Field>): seq<Field> {
    if fields == [] then []
    else
      var n := |fields| - 1;
      if MeetsNull(fields[..n]) then PartHoisted(m, fields[..n]) + [fields[n]]
      else Hoisted(m, fields[..n]) + [PartHoistedField(m, fields[n])]
  }

  function PartHoistedField(m: Naming, f: Field): Field {
    if IsEnum(f.value) then Field(f.key, Ref(m(f.key)))
    else if f.value.Node? then Field(f.key, Node(f.value.isArray, PartHoisted(m, f.value.fields)))
    else f
  }

  // ----- the pass, as the source runs it -----

  class Processor {
    const naming: Naming
    var definitions: map<string, Json>
    var uniqueEnumNames: seq<string>

    constructor (naming: Naming)
      ensures this.naming == naming && definitions == map[] && uniqueEnumNames == []
    {
      this.naming := naming;
      definitions, uniqueEnumNames := map[], [];
    }

    /** processEnumNames on one node; the entries it replaces are returned instead of written back. */
    method ProcessEnumNames(node: seq<Field>) returns (ok: bool, out: seq<Field>)
      modifies this
      ensures ok <==> !MeetsNull(node)
      ensures ok ==> out == Hoisted(naming, node)
      ensures ok ==> definitions == Defined(old(definitions), Moved(naming, node))
      ensures ok ==> uniqueEnumNames == old(uniqueEnumNames) + Names(Moved(naming, node))
      ensures !ok ==> out == PartHoisted(naming, node)
      ensures !ok ==> definitions == Defined(old(definitions), PartMoved(naming, node))
      ensures !ok ==> uniqueEnumNames == old(uniqueEnumNames) + Names(PartMoved(naming, node))
      decreases node
    {
      out := [];
      ghost var done := [];
      assert node[..|node|] == node;
      for i := 0 to |node|
        invariant done == node[..i]
        invariant !MeetsNull(done)
        invariant out == Hoisted(naming, done)
        invariant definitions == Defined(old(definitions), Moved(naming, done))
        invariant uniqueEnumNames == old(uniqueEnumNames) + Names(Moved(naming, done))
      {
        TakeSnoc(node, i);
        OneMore(naming, old(definitions), old(uniqueEnumNames), done, node[i]);
        var below, entry := ProcessEntry(node[i]);
        if !below {
          ThrowsAt(naming, old(definitions), old(uniqueEnumNames), node, i);
          return false, out + [entry] + node[i + 1..];
        }
        out := out + [entry];
        done := done + [node[i]];
      }
      ok := true;
    }

    /** The body of the loop: what happens to one entry. */
    method ProcessEntry(f: Field) returns (ok: bool, out: Field)
      modifies this
      ensures ok <==> !FieldMeetsNull(f)
      ensures ok ==> out == HoistedField(naming, f)
      ensures ok ==> definitions == Defined(old(definitions), MovedField(naming, f))
      ensures ok ==> uniqueEnumNames == old(uniqueEnumNames) + Names(MovedField(naming, f))
      ensures !ok ==> out == PartHoistedField(naming, f)
      ensures !ok ==> definitions == Defined(old(definitions), PartMovedField(naming, f))
      ensures !ok ==> uniqueEnumNames == old(uniqueEnumNames) + Names(PartMovedField(naming, f))
      decreases f
    {
      ok, out := true, f;
      if f.value.Null? {
        ok := false;
      } else if IsEnum(f.value) {
        var uniqueKey := naming(f.key);
        definitions := definitions[uniqueKey := f.value];
        out := Field(f.key, Ref(uniqueKey));
        uniqueEnumNames := uniqueEnumNames + [uniqueKey];
        assert Defined(old(definitions), []) == old(definitions);
      } else if f.value.Node? {
        var inner;
        ok, inner := ProcessEnumNames(f.value.fields);
        out := Field(f.key, Node(f.value.isArray, inner));
      }
    }
  }

  lemma TakeSnoc(s: seq<Field>, i: nat)
    requires i < |s|
    ensures s[..i] + [s[i]] == s[..i + 1]
    ensures i + 1 == |s| ==> s[..i + 1] == s
  {
  }

  /** Nothing after the entry that throws is looked at. */
  lemma {:induction false} MeetsNullBelow(m: Naming, fields: seq<Field>, i: nat)
    requires i <= |fields| && MeetsNull(fields[..i])
    ensures MeetsNull(fields)
    ensures PartMoved(m, fields) == PartMoved(m, fields[..i])
    ensures PartHoisted(m, fields) == PartHoisted(m, fields[..i]) + fields[i..]
    decreases |fields| - i
  {
    if i < |fields| {
      assert fields[..i + 1][..i] == fields[..i];
      MeetsNullBelow(m, fields, i + 1);
      assert [fields[i]] + fields[i + 1..] == fields[i..];
    } else {
      assert fields[..i] == fields;
    }
  }

  /** What the pass leaves when its entry at one position throws. */
  lemma ThrowsAt(m: Naming, start: map<string, Json>, names: seq<string>, fields: seq<Field>, i: nat)
    requires i < |fields| && !MeetsNull(fields[..i]) && FieldMeetsNull(fields[i])
    ensures MeetsNull(fields)
    ensures PartHoisted(m, fields) == Hoisted(m, fields[..i]) + [PartHoistedField(m, fields[i])] + fields[i + 1..]
    ensures Defined(start, PartMoved(m, fields)) == Defined(Defined(start, Moved(m, fields[..i])), PartMovedField(m, fields[i]))
    ensures names + Names(PartMoved(m, fields)) == names + Names(Moved(m, fields[..i])) + Names(PartMovedField(m, fields[i]))
  {
    ThrowsLast(m, fields[..i], fields[i]);
    TakeSnoc(fields, i);
    MeetsNullBelow(m, fields, i + 1);
    DefinedConcat(start, Moved(m, fields[..i]), PartMovedField(m, fields[i]));
  }

  lemma ThrowsLast(m: Naming, before: seq<Field>, f: Field)
    requires !MeetsNull(before) && FieldMeetsNull(f)
    ensures MeetsNull(before + [f])
    ensures PartHoisted(m, before + [f]) == Hoisted(m, before) + [PartHoistedField(m, f)]
    ensures PartMoved(m, before + [f]) == Moved(m, before) + PartMovedField(m, f)
  {
    assert (before + [f])[..|before|] == before;
  }

  /** What one more entry adds to everything the pass computes. */
  lemma OneMore(m: Naming, start: map<string, Json>, names: seq<string>, a: seq<Field>, f: Field)
    ensures Hoisted(m, a + [f]) == Hoisted(m, a) + [HoistedField(m, f)]
    ensures Defined(start, Moved(m, a + [f])) == Defined(Defined(start, Moved(m, a)), MovedField(m, f))
    ensures names + Names(Moved(m, a + [f])) == names + Names(Moved(m, a)) + Names(MovedField(m, f))
    ensures MeetsNull(a + [f]) <==> MeetsNull(a) || FieldMeetsNull(f)
  {
    var all := a + [f];
    assert all[..|a|] == a && all[|a|] == f;
    DefinedConcat(start, Moved(m, a), MovedField(m, f));
  }

  lemma {:induction false} DefinedConcat(start: map<string, Json>, a: seq<Definition>, b: seq<Definition>)
    ensures Defined(start, a + b) == Defined(Defined(start, a), b)
    ensures Names(a + b) == Names(a) + Names(b)
  {
    if b == [] {
      assert a + b == a;
    } else {
      assert (a + b)[..|a + b| - 1] == a + b[..|b| - 1];
      DefinedConcat(start, a, b[..|b| - 1]);
    }
  }

  // ----- meaning -----

  /** Replacing every reference by what it is defined as; this is what a schema with definitions means. */
  function Inlined(defs: map<string, Json>, fields: seq<Field>): (r: seq<Field>)
    ensures |r| == |fields|
  {
    if fields == [] then []
    else Inlined(defs, fields[..|fields| - 1]) + [InlinedField(defs, fields[|fields| - 1])]
  }

  function InlinedField(defs: map<string, Json>, f: Field): Field {
    var name := Referred(f.value);
    if name.Some? && name.value in defs then Field(f.key, defs[name.value])
    else if f.value.Node? then Field(f.key, Node(f.value.isArray, Inlined(defs, f.value.fields)))
    else f
  }

  /** The visited tree holds no references of its own. */
  predicate RefFree(fields: seq<Field>) {
    fields == [] || (RefFree(fields[..|fields| - 1]) && FieldRefFree(fields[|fields| - 1]))
  }

  predicate FieldRefFree(f: Field) {
    IsEnum(f.value) || (f.value.Node? ==> Referred(f.value).None? && RefFree(f.value.fields))
  }

  /** The visited tree holds no enum. */
  predicate EnumFree(fields: seq<Field>) {
    fields == [] || (EnumFree(fields[..|fields| - 1]) && FieldEnumFree(fields[|fields| - 1]))
  }

  predicate FieldEnumFree(f: Field) {
    !IsEnum(f.value) && (f.value.Node? ==> EnumFree(f.value.fields))
  }

  /** Enums that are moved to the same name are equal. */
  predicate Consistent(ds: seq<Definition>) {
    forall i, j :: 0 <= i < j < |ds| && ds[i].name == ds[j].name ==> ds[i].node == ds[j].node
  }

  predicate Holds(defs: map<string, Json>, ds: seq<Definition>) {
    forall i :: 0 <= i < |ds| ==> ds[i].name in defs && defs[ds[i].name] == ds[i].node
  }

  predicate Covers(defs: map<string, Json>, ds: seq<Definition>) {
    forall i :: 0 <= i < |ds| ==> ds[i].name in defs
  }

  /** With any definitions that cover the moved names, inlining restores the tree exactly when they hold what was moved. */
  lemma {:induction false} InlineRestoresIff(m: Naming, defs: map<string, Json>, fields: seq<Field>)
    requires RefFree(fields) && Covers(defs, Moved(m, fields))
    ensures Inlined(defs, Hoisted(m, fields)) == fields <==> Holds(defs, Moved(m, fields))
    decreases fields
  {
    if fields != [] {
      var n := |fields| - 1;
      TakeSnoc(fields, n);
      SplitHypotheses(m, defs, fields);
      InlineRestoresIff(m, defs, fields[..n]);
      InlineFieldRestoresIff(m, defs, fields[n]);
      InlineStep(m, defs, fields[..n], fields[n]);
    }
  }

  lemma SplitHypotheses(m: Naming, defs: map<string, Json>, fields: seq<Field>)
    requires fields != [] && RefFree(fields) && Covers(defs, Moved(m, fields))
    ensures var n := |fields| - 1;
            && RefFree(fields[..n]) && Covers(defs, Moved(m, fields[..n]))
            && FieldRefFree(fields[n]) && Covers(defs, MovedField(m, fields[n]))
  {
    var n := |fields| - 1;
    SplitMoved(defs, Moved(m, fields[..n]), MovedField(m, fields[n]));
  }

  lemma InlineStep(m: Naming, defs: map<string, Json>, a: seq<Field>, f: Field)
    requires Inlined(defs, Hoisted(m, a)) == a <==> Holds(defs, Moved(m, a))
    requires InlinedField(defs, HoistedField(m, f)) == f <==> Holds(defs, MovedField(m, f))
    ensures Inlined(defs, Hoisted(m, a + [f])) == a + [f] <==> Holds(defs, Moved(m, a + [f]))
  {
    var all, h := a + [f], Hoisted(m, a + [f]);
    assert all[..|a|] == a && all[|a|] == f;
    assert h[..|a|] == Hoisted(m, a) && h[|a|] == HoistedField(m, f);
    SplitMoved(defs, Moved(m, a), MovedField(m, f));
    SnocEqual(Inlined(defs, Hoisted(m, a)), InlinedField(defs, HoistedField(m, f)), a, f);
  }

  lemma SnocEqual(a: seq<Field>, x: Field, b: seq<Field>, y: Field)
    requires |a| == |b|
    ensures a + [x] == b + [y] <==> a == b && x == y
  {
    assert a == (a + [x])[..|a|] && x == (a + [x])[|a|];
    assert b == (b + [y])[..|b|] && y == (b + [y])[|b|];
  }

  lemma SplitMoved(defs: map<string, Json>, a: seq<Definition>, b: seq<Definition>)
    ensures Covers(defs, a + b) <==> Covers(defs, a) && Covers(defs, b)
    ensures Holds(defs, a + b) <==> Holds(defs, a) && Holds(defs, b)
  {
    assert forall i :: 0 <= i < |a| ==> (a + b)[i] == a[i];
    assert forall i :: 0 <= i < |b| ==> (a + b)[|a| + i] == b[i];
  }

  lemma {:induction false} InlineFieldRestoresIff(m: Naming, defs: map<string, Json>, f: Field)
    requires FieldRefFree(f) && Covers(defs, MovedField(m, f))
    ensures InlinedField(defs, HoistedField(m, f)) == f <==> Holds(defs, MovedField(m, f))
    decreases f
  {
    if IsEnum(f.value) {
      ReferredRef(m(f.key));
      assert MovedField(m, f)[0].node == f.value;
    } else if f.value.Node? {
      HoistedIsNoRef(m, f.value);
      InlineRestoresIff(m, defs, f.value.fields);
    }
  }

  /** The pass does not turn a node that it descends into into a reference. */
  lemma HoistedIsNoRef(m: Naming, j: Json)
    requires j.Node? && Referred(j).None?
    ensures Referred(Node(j.isArray, Hoisted(m, j.fields))).None?
  {
    if |j.fields| == 1 {
      assert Hoisted(m, j.fields)[0] == HoistedField(m, j.fields[0]);
    }
  }

  lemma {:induction false} DefinedAt(start: map<string, Json>, ds: seq<Definition>, i: nat)
    requires i < |ds|
    ensures ds[i].name in Defined(start, ds)
    ensures exists j :: i <= j < |ds| && ds[j].name == ds[i].name && Defined(start, ds)[ds[i].name] == ds[j].node
  {
    var n := |ds| - 1;
    if ds[n].name != ds[i].name {
      DefinedAt(start, ds[..n], i);
      var j :| i <= j < n && ds[..n][j].name == ds[i].name && Defined(start, ds[..n])[ds[i].name] == ds[..n][j].node;
      assert ds[j].name == ds[i].name;
    }
  }

  lemma {:induction false} DefinedHoldsIff(ds: seq<Definition>)
    ensures Covers(Defined(map[], ds), ds)
    ensures Holds(Defined(map[], ds), ds) <==> Consistent(ds)
  {
    forall i | 0 <= i < |ds|
      ensures ds[i].name in Defined(map[], ds)
      ensures Consistent(ds) ==> Defined(map[], ds)[ds[i].name] == ds[i].node
    {
      DefinedAt(map[], ds, i);
    }
  }

  /**
   Meaning is preserved exactly when enums that get the same name are equal: only then does inlining
   the definitions that the pass collected give back the tree it started from.
   */
  lemma HoistingPreservesMeaningIff(m: Naming, fields: seq<Field>)
    requires RefFree(fields)
    ensures Inlined(Defined(map[], Moved(m, fields)), Hoisted(m, fields)) == fields <==> Consistent(Moved(m, fields))
  {
    DefinedHoldsIff(Moved(m, fields));
    InlineRestoresIff(m, Defined(map[], Moved(m, fields)), fields);
  }

  /**
   Two different enums under one key lose meaning under the naming of the source: a schema with such a key at the top
   and again in a nested object is not given back by inlining.
   */
  lemma SameKeyLosesMeaning(title: string, upper: char -> string, key: string, other: string, a: Json, b: Json)
    requires IsEnum(a) && IsEnum(b) && a != b
    requires IsPlain(Named(key)) && IsPlain(Named(other))
    ensures var m := TitleNaming(title, upper);
            var fields := [Field(Named(key), a), Field(Named(other), Node(false, [Field(Named(key), b)]))];
            RefFree(fields) && Inlined(Defined(map[], Moved(m, fields)), Hoisted(m, fields)) != fields
  {
    var m := TitleNaming(title, upper);
    var first, second := Field(Named(key), a), Field(Named(key), b);
    var nest := Field(Named(other), Node(false, [second]));
    var fields := [first, nest];
    OnlyField(m, first);
    OnlyField(m, second);
    assert !IsEnum(nest.value) && Referred(nest.value).None?;
    assert fields == [first] + [nest];
    var ds := Moved(m, fields);
    MovedOneMore(m, [first], nest);
    assert ds == [Definition(m(Named(key)), a)] + [Definition(m(Named(key)), b)];
    assert ds[0].name == ds[1].name && ds[0].node != ds[1].node;
    HoistingPreservesMeaningIff(m, fields);
  }

  lemma OnlyField(m: Naming, f: Field)
    requires IsEnum(f.value)
    ensures RefFree([f]) && Moved(m, [f]) == [Definition(m(f.key), f.value)]
  {
    assert [f][..0] == [];
  }

  lemma MovedOneMore(m: Naming, fields: seq<Field>, f: Field)
    ensures Moved(m, fields + [f]) == Moved(m, fields) + MovedField(m, f)
    ensures RefFree(fields + [f]) <==> RefFree(fields) && FieldRefFree(f)
  {
    assert (fields + [f])[..|fields|] == fields;
  }

  /** No enum remains in the tree, whatever the input. */
  lemma {:induction false} NoEnumRemains(m: Naming, fields: seq<Field>)
    ensures EnumFree(Hoisted(m, fields))
    decreases fields
  {
    if fields != [] {
      var n := |fields| - 1;
      NoEnumRemains(m, fields[..n]);
      NoEnumRemainsField(m, fields[n]);
    }
  }

  lemma {:induction false} NoEnumRemainsField(m: Naming, f: Field)
    ensures FieldEnumFree(HoistedField(m, f))
    decreases f
  {
    if f.value.Node? && !IsEnum(f.value) {
      NoEnumRemains(m, f.value.fields);
      KeepsNonEnum(m, f.value);
    }
  }

  /** A node without a truthy enum member does not get one. */
  lemma KeepsNonEnum(m: Naming, j: Json)
    requires j.Node? && !IsEnum(j)
    ensures !IsEnum(Node(j.isArray, Hoisted(m, j.fields)))
  {
    HoistedAt(m, j.fields);
  }

  lemma {:induction false} HoistedAt(m: Naming, fields: seq<Field>)
    ensures forall i :: 0 <= i < |fields| ==> Hoisted(m, fields)[i] == HoistedField(m, fields[i])
  {
    if fields != [] {
      HoistedAt(m, fields[..|fields| - 1]);
    }
  }
}
