/** Which enums the hoisting pass moves and under which names, in terms of where they stand in the tree. */
module HoistingLaws {
  import opened Hoisting

  // ----- positions in the visited tree -----

  /** The entry at the end of a path of positions; the pass does not look inside an enum. */
  ghost predicate At(fields: seq<Field>, path: seq<int>, f: Field)
    decreases |path|
  {
    && path != [] && 0 <= path[0] < |fields|
    && if |path| == 1 then fields[path[0]] == f
       else fields[path[0]].value.Node? && !IsEnum(fields[path[0]].value)
            && At(fields[path[0]].value.fields, path[1..], f)
  }

  ghost predicate Visits(fields: seq<Field>, f: Field) {
    exists path :: At(fields, path, f)
  }

  /** An entry is visited exactly when it is one of the entries or is visited below one. */
  lemma VisitsIff(fields: seq<Field>, f: Field)
    ensures Visits(fields, f) <==> exists i :: 0 <= i < |fields| && VisitsBelow(fields[i], f)
  {
    if Visits(fields, f) {
      var path :| At(fields, path, f);
      if |path| > 1 {
        assert At(fields[path[0]].value.fields, path[1..], f);
      }
      assert VisitsBelow(fields[path[0]], f);
    }
    if i :| 0 <= i < |fields| && VisitsBelow(fields[i], f) {
      if fields[i] == f {
        assert At(fields, [i], f);
      } else {
        var path :| At(fields[i].value.fields, path, f);
        assert ([i] + path)[1..] == path;
        assert At(fields, [i] + path, f);
      }
    }
  }

  ghost predicate VisitsBelow(e: Field, f: Field) {
    e == f || (e.value.Node? && !IsEnum(e.value) && Visits(e.value.fields, f))
  }

  lemma VisitsLast(fields: seq<Field>, f: Field)
    requires fields != []
    ensures Visits(fields, f) <==> Visits(fields[..|fields| - 1], f) || VisitsBelow(fields[|fields| - 1], f)
  {
    var n := |fields| - 1;
    VisitsIff(fields, f);
    VisitsIff(fields[..n], f);
    assert forall i :: 0 <= i < n ==> fields[..n][i] == fields[i];
  }

  // ----- what is moved -----

  ghost predicate VisitsEnum(fields: seq<Field>, f: Field) {
    Visits(fields, f) && IsEnum(f.value)
  }

  /** Some visited enum is moved like this. */
  ghost predicate MovedFrom(m: Naming, fields: seq<Field>, d: Definition) {
    exists f :: VisitsEnum(fields, f) && d == Definition(m(f.key), f.value)
  }

  ghost predicate MovedBelow(m: Naming, e: Field, d: Definition) {
    exists f :: VisitsBelow(e, f) && IsEnum(f.value) && d == Definition(m(f.key), f.value)
  }

  /** Exactly the visited enums are moved, each as it is and under the name of its own key. */
  lemma {:induction false} MovedIff(m: Naming, fields: seq<Field>, d: Definition)
    ensures d in Moved(m, fields) <==> MovedFrom(m, fields, d)
    decreases fields
  {
    if fields == [] {
      assert forall f :: !Visits(fields, f);
    } else {
      var n := |fields| - 1;
      MovedIff(m, fields[..n], d);
      MovedFieldIff(m, fields[n], d);
      forall f
        ensures Visits(fields, f) <==> Visits(fields[..n], f) || VisitsBelow(fields[n], f)
      {
        VisitsLast(fields, f);
      }
    }
  }

  lemma {:induction false} MovedFieldIff(m: Naming, e: Field, d: Definition)
    ensures d in MovedField(m, e) <==> MovedBelow(m, e, d)
    decreases e
  {
    if IsEnum(e.value) {
      assert VisitsBelow(e, e);
    } else if e.value.Node? {
      MovedIff(m, e.value.fields, d);
    }
  }

  /** The list of names has one name per moved enum, in order and with repeats. */
  lemma {:induction false} NamesAre(ds: seq<Definition>)
    ensures |Names(ds)| == |ds| && forall i :: 0 <= i < |ds| ==> Names(ds)[i] == ds[i].name
  {
    if ds != [] {
      NamesAre(ds[..|ds| - 1]);
    }
  }

  // ----- the names of the source -----

  /** A moved enum is named after the title and its key, whose first character is capitalised. */
  lemma TitleNames(title: string, upper: char -> string, key: Key)
    ensures var name, text := TitleNaming(title, upper)(key), KeyText(key);
            && (text == "" ==> name == title)
            && (text != "" ==> |name| == |title| + |upper(text[0])| + |text| - 1
                               && name[..|title|] == title
                               && name[|title|..|title| + |upper(text[0])|] == upper(text[0])
                               && name[|title| + |upper(text[0])|..] == text[1..])
  {
  }

  function Capitalised(upper: char -> string, text: string): string {
    if text == "" then "" else upper(text[0]) + text[1..]
  }

  /** Two keys that are spelled alike once the first character is capitalised. */
  predicate SameCapitalised(upper: char -> string, a: Key, b: Key) {
    Capitalised(upper, KeyText(a)) == Capitalised(upper, KeyText(b))
  }

  /** Two keys get one name exactly when they are capitalised alike, whatever the title. */
  lemma TitleCollidesIff(title: string, upper: char -> string, a: Key, b: Key)
    ensures TitleNaming(title, upper)(a) == TitleNaming(title, upper)(b) <==> SameCapitalised(upper, a, b)
  {
    var s, t := Capitalised(upper, KeyText(a)), Capitalised(upper, KeyText(b));
    TitleNames(title, upper, a);
    TitleNames(title, upper, b);
    assert TitleNaming(title, upper)(a) == title + s && TitleNaming(title, upper)(b) == title + t;
    assert (title + s)[|title|..] == s && (title + t)[|title|..] == t;
  }

  /** Where capitalising replaces one character by one, such keys differ at most in their first character. */
  lemma CapitalisedIff(upper: char -> string, s: string, t: string)
    requires s != "" && t != "" && |upper(s[0])| == 1 && |upper(t[0])| == 1
    ensures Capitalised(upper, s) == Capitalised(upper, t) <==> upper(s[0]) == upper(t[0]) && s[1..] == t[1..]
  {
    var a, b := Capitalised(upper, s), Capitalised(upper, t);
    assert a[..1] == upper(s[0]) && a[1..] == s[1..] && b[..1] == upper(t[0]) && b[1..] == t[1..];
  }

  /** Under the names of the source, meaning is preserved exactly when no two different enums have keys that are capitalised alike. */
  lemma SourceMeaningIff(title: string, upper: char -> string, fields: seq<Field>)
    requires RefFree(fields)
    ensures var m := TitleNaming(title, upper);
            Inlined(Defined(map[], Moved(m, fields)), Hoisted(m, fields)) == fields <==>
            forall f, g :: VisitsEnum(fields, f) && VisitsEnum(fields, g) && SameCapitalised(upper, f.key, g.key) ==> f.value == g.value
  {
    var m := TitleNaming(title, upper);
    HoistingPreservesMeaningIff(m, fields);
    ConsistentIff(m, fields);
    forall f: Field, g: Field
      ensures m(f.key) == m(g.key) <==> SameCapitalised(upper, f.key, g.key)
    {
      TitleCollidesIff(title, upper, f.key, g.key);
    }
  }

  lemma ConsistentIff(m: Naming, fields: seq<Field>)
    ensures Consistent(Moved(m, fields)) <==>
            forall f, g :: VisitsEnum(fields, f) && VisitsEnum(fields, g) && m(f.key) == m(g.key) ==> f.value == g.value
  {
    var ds := Moved(m, fields);
    if Consistent(ds) {
      forall f, g | VisitsEnum(fields, f) && VisitsEnum(fields, g) && m(f.key) == m(g.key)
        ensures f.value == g.value
      {
        var d, e := Definition(m(f.key), f.value), Definition(m(g.key), g.value);
        MovedIff(m, fields, d);
        MovedIff(m, fields, e);
        var i :| 0 <= i < |ds| && ds[i] == d;
        var j :| 0 <= j < |ds| && ds[j] == e;
        assert ds[i].name == ds[j].name;
      }
    } else {
      var i, j :| 0 <= i < j < |ds| && ds[i].name == ds[j].name && ds[i].node != ds[j].node;
      assert ds[i] in ds && ds[j] in ds;
      MovedIff(m, fields, ds[i]);
      MovedIff(m, fields, ds[j]);
    }
  }

  // ----- when the pass throws -----

  /** The values that JavaScript takes for false. */
  lemma FalsyIff(j: Json)
    ensures !Truthy(j) <==> j == Null || j == Bool(false) || j == Number(0.0) || j == Str("")
  {
  }

  ghost predicate VisitsNull(fields: seq<Field>) {
    exists f :: Visits(fields, f) && f.value.Null?
  }

  ghost predicate BelowIsNull(e: Field) {
    exists f :: VisitsBelow(e, f) && f.value.Null?
  }

  /** The pass throws exactly when it visits a null; a null inside an enum does no harm. */
  lemma {:induction false} MeetsNullIff(fields: seq<Field>)
    ensures MeetsNull(fields) <==> VisitsNull(fields)
    decreases fields
  {
    if fields == [] {
      assert forall f :: !Visits(fields, f);
    } else {
      var n := |fields| - 1;
      MeetsNullIff(fields[..n]);
      FieldMeetsNullIff(fields[n]);
      forall f
        ensures Visits(fields, f) <==> Visits(fields[..n], f) || VisitsBelow(fields[n], f)
      {
        VisitsLast(fields, f);
      }
    }
  }

  lemma {:induction false} FieldMeetsNullIff(e: Field)
    ensures FieldMeetsNull(e) <==> BelowIsNull(e)
    decreases e
  {
    assert VisitsBelow(e, e);
    if e.value.Node? && !IsEnum(e.value) {
      MeetsNullIff(e.value.fields);
    }
  }

  ghost predicate IsPrefix(a: seq<Definition>, b: seq<Definition>) {
    |a| <= |b| && b[..|a|] == a
  }

  /** What has been moved when the pass throws is the first part of what it would have moved. */
  lemma {:induction false} PartIsPrefix(m: Naming, fields: seq<Field>)
    ensures IsPrefix(PartMoved(m, fields), Moved(m, fields))
    decreases fields
  {
    if fields != [] {
      var n := |fields| - 1;
      if MeetsNull(fields[..n]) {
        PartIsPrefix(m, fields[..n]);
        assert Moved(m, fields)[..|Moved(m, fields[..n])|] == Moved(m, fields[..n]);
      } else {
        PartFieldIsPrefix(m, fields[n]);
      }
    }
  }

  lemma {:induction false} PartFieldIsPrefix(m: Naming, e: Field)
    ensures IsPrefix(PartMovedField(m, e), MovedField(m, e))
    decreases e
  {
    if !IsEnum(e.value) && e.value.Node? {
      PartIsPrefix(m, e.value.fields);
    }
  }

  // ----- nothing is lost when it throws -----

  lemma MovedConcat(m: Naming, a: seq<Field>, f: Field)
    ensures Moved(m, a + [f]) == Moved(m, a) + MovedField(m, f)
  {
    assert (a + [f])[..|a|] == a;
  }

  /** Nothing is left to be moved in a tree that the pass has been through. */
  lemma {:induction false} HoistedMovesNone(m: Naming, fields: seq<Field>)
    ensures Moved(m, Hoisted(m, fields)) == []
    decreases fields
  {
    if fields != [] {
      var n := |fields| - 1;
      HoistedMovesNone(m, fields[..n]);
      HoistedFieldMovesNone(m, fields[n]);
      MovedConcat(m, Hoisted(m, fields[..n]), HoistedField(m, fields[n]));
    }
  }

  lemma {:induction false} HoistedFieldMovesNone(m: Naming, f: Field)
    ensures MovedField(m, HoistedField(m, f)) == []
    decreases f
  {
    if IsEnum(f.value) {
      RefMovesNone(m, f.key, m(f.key));
    } else if f.value.Node? {
      HoistedMovesNone(m, f.value.fields);
      KeepsNonEnum(m, f.value);
    }
  }

  lemma RefMovesNone(m: Naming, key: Key, name: string)
    ensures MovedField(m, Field(key, Ref(name))) == []
  {
    var fields := Ref(name).fields;
    assert fields == [] + [Field(RefKey, Pointer(name))];
    MovedConcat(m, [], fields[0]);
  }

  /** When the pass throws, what it has moved and what is still to be moved in the tree it leaves are all enums, in order. */
  lemma {:induction false} PartLeavesRest(m: Naming, fields: seq<Field>)
    ensures PartMoved(m, fields) + Moved(m, PartHoisted(m, fields)) == Moved(m, fields)
    decreases fields
  {
    if fields != [] {
      var n := |fields| - 1;
      var init, last := fields[..n], fields[n];
      if MeetsNull(init) {
        PartLeavesRest(m, init);
        MovedConcat(m, PartHoisted(m, init), last);
        assert PartHoisted(m, fields) == PartHoisted(m, init) + [last];
        Append(PartMoved(m, init), Moved(m, PartHoisted(m, init)), MovedField(m, last), Moved(m, init));
      } else {
        PartFieldLeavesRest(m, last);
        HoistedMovesNone(m, init);
        MovedConcat(m, Hoisted(m, init), PartHoistedField(m, last));
        assert PartHoisted(m, fields) == Hoisted(m, init) + [PartHoistedField(m, last)];
        Append(Moved(m, init), PartMovedField(m, last), MovedField(m, PartHoistedField(m, last)),
               Moved(m, init) + PartMovedField(m, last));
      }
    }
  }

  lemma Append(a: seq<Definition>, b: seq<Definition>, c: seq<Definition>, ab: seq<Definition>)
    requires a + b == ab
    ensures a + (b + c) == ab + c
  {
  }

  lemma {:induction false} PartFieldLeavesRest(m: Naming, f: Field)
    ensures PartMovedField(m, f) + MovedField(m, PartHoistedField(m, f)) == MovedField(m, f)
    decreases f
  {
    if IsEnum(f.value) {
      RefMovesNone(m, f.key, m(f.key));
    } else if f.value.Node? {
      PartLeavesRest(m, f.value.fields);
      PartKeepsNonEnum(m, f.value);
    }
  }

  lemma PartKeepsNonEnum(m: Naming, j: Json)
    requires j.Node? && !IsEnum(j)
    ensures !IsEnum(Node(j.isArray, PartHoisted(m, j.fields)))
  {
    PartKeepsFalsy(m, j.fields);
  }

  /** An entry keeps its key, and a value that is taken for false stays as it is. */
  lemma {:induction false} PartKeepsFalsy(m: Naming, fields: seq<Field>)
    ensures var r := PartHoisted(m, fields);
            |r| == |fields| && forall i :: 0 <= i < |r| ==>
              r[i].key == fields[i].key && (Truthy(r[i].value) <==> Truthy(fields[i].value))
  {
    if fields != [] {
      var n := |fields| - 1;
      PartKeepsFalsy(m, fields[..n]);
      HoistedAt(m, fields[..n]);
    }
  }
}
