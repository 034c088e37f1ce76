/** The tests on type names, the fields of a name and the sums of the worklist, as they are written. */
module WorklistLaws {
  import opened Worklist

  /** A data type of its own is a name that ends in "Type" with something other than "Enum" before that. */
  lemma DataTypeNameIff(t: Name)
    ensures IsDataTypeName(t) <==> exists stem :: t == stem + "Type" && !EndsWith(stem, "Enum")
  {
    assert "EnumType" == "Enum" + "Type";
    if EndsWith(t, "Type") {
      var stem := t[..|t| - 4];
      assert t == stem + "Type";
      SuffixOfStem(stem);
    }
    if stem :| t == stem + "Type" && !EndsWith(stem, "Enum") {
      SuffixOfStem(stem);
    }
  }

  lemma SuffixOfStem(stem: string)
    ensures EndsWith(stem + "Type", "Type")
    ensures EndsWith(stem + "Type", "EnumType") <==> EndsWith(stem, "Enum")
  {
    var t := stem + "Type";
    assert t[|stem|..] == "Type";
    if |stem| >= 4 {
      assert t[|t| - 8..] == stem[|stem| - 4..] + "Type";
      assert t[|t| - 8..][..4] == stem[|stem| - 4..];
      assert "EnumType"[..4] == "Enum";
    }
  }

  /** The fields of a name are those of every parsed data type with that name. */
  lemma {:induction false} FieldsOfIff(types: seq<DataType>, name: Name, t: Name)
    ensures t in FieldsOf(types, name) <==> exists i :: 0 <= i < |types| && types[i].name == name && t in types[i].fields
  {
    if types != [] {
      var n := |types| - 1;
      FieldsOfIff(types[..n], name, t);
      assert forall i :: 0 <= i < n ==> types[..n][i] == types[i];
    }
  }

  /** The ten numbers that are counted. */
  datatype Component = Tries | Primitives | Valid(category: Category) | Filtered(category: Category)

  datatype Category = OfDataType | OfPresence | OfContent | OfSize

  function InTally(t: Tally, category: Category): int {
    match category
    case OfDataType => t.dataType
    case OfPresence => t.presence
    case OfContent => t.content
    case OfSize => t.size
  }

  function At(c: Counts, k: Component): int {
    match k
    case Tries => c.tries
    case Primitives => c.primitives
    case Valid(category) => InTally(c.valid, category)
    case Filtered(category) => InTally(c.filtered, category)
  }

  function SumAt(names: seq<Name>, f: Name -> Counts, k: Component): int {
    if names == [] then 0 else SumAt(names[..|names| - 1], f, k) + At(f(names[|names| - 1]), k)
  }

  /** Each number of a sum is the sum of that number. */
  lemma {:induction false} SumIsComponentwise(names: seq<Name>, f: Name -> Counts, k: Component)
    ensures At(Sum(names, f), k) == SumAt(names, f, k)
  {
    if names != [] {
      SumIsComponentwise(names[..|names| - 1], f, k);
    }
  }
}
