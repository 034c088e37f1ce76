/** The worklist that visits every data type a message depends on and adds up its counts. */
module Worklist {

  type Name = string

  datatype DataType = DataType(name: Name, fields: seq<Name>)

  /** The parsed data types, and which type names denote data types of their own rather than primitives or enums. */
  datatype Schema = Schema(types: seq<DataType>, isComposite: Name -> bool)

  predicate EndsWith(s: string, suffix: string) {
    |suffix| <= |s| && s[|s| - |suffix|..] == suffix
  }

  /** The test of the source. */
  predicate IsDataTypeName(t: Name) {
    !EndsWith(t, "EnumType") && EndsWith(t, "Type")
  }

  /** The field types of every data type with a name, in the order in which they are scanned. */
  function FieldsOf(types: seq<DataType>, name: Name): seq<Name> {
    if types == [] then []
    else
      var last := types[|types| - 1];
      FieldsOf(types[..|types| - 1], name) + if last.name == name then last.fields else []
  }

  /** Numbers of rules per category. */
  datatype Tally = Tally(dataType: int, presence: int, content: int, size: int)

  /** What is counted per message: collection attempts, primitive rules, valid rules and rules filtered out. */
  datatype Counts = Counts(tries: int, primitives: int, valid: Tally, filtered: Tally)

  const NONE := Counts(0, 0, Tally(0, 0, 0, 0), Tally(0, 0, 0, 0))

  function PlusTally(a: Tally, b: Tally): Tally {
    Tally(a.dataType + b.dataType, a.presence + b.presence, a.content + b.content, a.size + b.size)
  }

  function Plus(a: Counts, b: Counts): Counts {
    Counts(a.tries + b.tries, a.primitives + b.primitives, PlusTally(a.valid, b.valid), PlusTally(a.filtered, b.filtered))
  }

  lemma PlusLaws(a: Counts, b: Counts, c: Counts)
    ensures Plus(Plus(a, b), c) == Plus(a, Plus(b, c)) && Plus(a, b) == Plus(b, a) && Plus(a, NONE) == a
  {
  }

  function Sum(names: seq<Name>, f: Name -> Counts): Counts {
    if names == [] then NONE else Plus(Sum(names[..|names| - 1], f), f(names[|names| - 1]))
  }

  /** What one field contributes when only fields of primitive type are counted. */
  function Primitive(s: Schema, f: Name -> Counts): Name -> Counts {
    t => if s.isComposite(t) then NONE else f(t)
  }

  /** What the primitive fields of one data type contribute. */
  function PrimitivesOfType(s: Schema, f: Name -> Counts): Name -> Counts {
    t => Sum(FieldsOf(s.types, t), Primitive(s, f))
  }

  /** The schema of the source: its test on the names of types. */
  function ParsedSchema(types: seq<DataType>): Schema {
    Schema(types, t => IsDataTypeName(t))
  }

  // ----- reachability -----

  ghost predicate Uses(s: Schema, fields: seq<Name>, t: Name) {
    t in fields && s.isComposite(t)
  }

  /** A chain of data types from a message's fields, each used by the one before it. */
  ghost predicate IsPath(s: Schema, message: seq<Name>, path: seq<Name>) {
    && path != [] && Uses(s, message, path[0])
    && forall i :: 0 <= i < |path| - 1 ==> Uses(s, FieldsOf(s.types, path[i]), path[i + 1])
  }

  ghost predicate Reachable(s: Schema, message: seq<Name>, t: Name) {
    exists path :: IsPath(s, message, path) && path[|path| - 1] == t
  }

  lemma ReachableStart(s: Schema, message: seq<Name>, t: Name)
    requires Uses(s, message, t)
    ensures Reachable(s, message, t)
  {
    assert IsPath(s, message, [t]);
  }

  lemma ReachableStep(s: Schema, message: seq<Name>, t: Name, u: Name)
    requires Reachable(s, message, t) && Uses(s, FieldsOf(s.types, t), u)
    ensures Reachable(s, message, u)
  {
    var path :| IsPath(s, message, path) && path[|path| - 1] == t;
    var longer := path + [u];
    assert forall i :: 0 <= i < |path| ==> longer[i] == path[i];
    assert IsPath(s, message, longer) && longer[|longer| - 1] == u;
  }

  /** A set that holds the starting points and is closed under use holds everything reachable. */
  lemma {:induction false} ClosedHoldsPath(s: Schema, message: seq<Name>, done: set<Name>, path: seq<Name>)
    requires forall t :: Uses(s, message, t) ==> t in done
    requires forall t, u :: t in done && Uses(s, FieldsOf(s.types, t), u) ==> u in done
    requires IsPath(s, message, path)
    ensures path[|path| - 1] in done
    decreases |path|
  {
    if |path| > 1 {
      var shorter := path[..|path| - 1];
      assert IsPath(s, message, shorter);
      ClosedHoldsPath(s, message, done, shorter);
    }
  }

  // ----- the program -----

  ghost predicate Distinct(names: seq<Name>) {
    forall i, j :: 0 <= i < j < |names| ==> names[i] != names[j]
  }

  function Elements(names: seq<Name>): set<Name> {
    set t | t in names
  }

  /** Nothing is queued twice, and the processed names are those dequeued or queued. */
  ghost predicate Consistent(order: seq<Name>, queue: seq<Name>, processed: set<Name>) {
    Distinct(order + queue) && processed == Elements(order + queue)
  }

  ghost function Composites(s: Schema, fields: seq<Name>): set<Name> {
    set t | t in fields && s.isComposite(t)
  }

  class Analysis {
    const schema: Schema
    var queue: seq<Name>
    var processed: set<Name>

    constructor (types: seq<DataType>)
      ensures schema == ParsedSchema(types) && queue == [] && processed == {}
    {
      schema := ParsedSchema(types);
      queue, processed := [], {};
    }

    /** enqueue_data_type */
    method Enqueue(t: Name)
      modifies this
      ensures processed == old(processed) + {t}
      ensures queue == old(queue) + if t in old(processed) then [] else [t]
    {
      if t !in processed {
        queue := queue + [t];
        processed := processed + {t};
      }
    }

    /** The scan of one list of fields: data types are enqueued, primitives are counted. */
    method Scan(fields: seq<Name>, f: Name -> Counts, ghost order: seq<Name>) returns (count: Counts)
      requires Consistent(order, queue, processed)
      modifies this
      ensures Consistent(order, queue, processed)
      ensures processed == old(processed) + Composites(schema, fields)
      ensures count == Sum(fields, Primitive(schema, f))
    {
      count := NONE;
      ghost var done := [];
      assert fields[..|fields|] == fields;
      for i := 0 to |fields|
        invariant done == fields[..i]
        invariant Consistent(order, queue, processed)
        invariant processed == old(processed) + Composites(schema, done)
        invariant count == Sum(done, Primitive(schema, f))
      {
        TakeSnoc(fields, i);
        PrimitiveSnoc(schema, f, done, fields[i]);
        CompositesSnoc(schema, done, fields[i]);
        if schema.isComposite(fields[i]) {
          ghost var before := queue;
          Enqueue(fields[i]);
          ExtendDistinct(order, before, queue, fields[i]);
        } else {
          count := Plus(count, f(fields[i]));
        }
        done := done + [fields[i]];
      }
    }

    /** The scan of every parsed data type with a name. */
    method ScanType(name: Name, f: Name -> Counts, ghost order: seq<Name>) returns (count: Counts)
      requires Consistent(order, queue, processed)
      modifies this
      ensures Consistent(order, queue, processed)
      ensures processed == old(processed) + Composites(schema, FieldsOf(schema.types, name))
      ensures count == PrimitivesOfType(schema, f)(name)
    {
      count := NONE;
      var types := schema.types;
      ghost var done: seq<DataType> := [];
      assert types[..|types|] == types;
      for i := 0 to |types|
        invariant done == types[..i]
        invariant Consistent(order, queue, processed)
        invariant processed == old(processed) + Composites(schema, FieldsOf(done, name))
        invariant count == Sum(FieldsOf(done, name), Primitive(schema, f))
      {
        TakeSnoc(types, i);
        TypeSnoc(schema, f, done, types[i], name);
        if types[i].name == name {
          var more := Scan(types[i].fields, f, order);
          count := Plus(count, more);
        }
        done := done + [types[i]];
      }
    }

    /** One turn of the loop: the first name in the queue is dequeued and its types are scanned. */
    method Visit(ghost message: seq<Name>, ghost order: seq<Name>, f: Name -> Counts) returns (name: Name, count: Counts)
      requires queue != [] && Progress(schema, message, order, queue, processed)
      modifies this
      ensures name == old(queue)[0] && Progress(schema, message, order + [name], queue, processed)
      ensures count == PrimitivesOfType(schema, f)(name)
    {
      name := queue[0];
      ghost var before, waiting := processed, queue;
      MoveFirst(order, queue, processed);
      queue := queue[1..];
      count := ScanType(name, f, order + [name]);
      StepKeeps(schema, message, order, waiting, before, queue, processed);
    }

    /** The same with the counts that it adds. */
    method Turn(ghost message: DataType, ghost order: seq<Name>, total: Counts, objects: Name -> Counts, primitives: Name -> Counts)
      returns (name: Name, total': Counts)
      requires queue != [] && Progress(schema, message.fields, order, queue, processed)
      requires total == Total(schema, message, order, objects, primitives)
      modifies this
      ensures Progress(schema, message.fields, order + [name], queue, processed)
      ensures total' == Total(schema, message, order + [name], objects, primitives)
    {
      var below;
      name, below := Visit(message.fields, order, primitives);
      TotalSnoc(schema, message, order, name, objects, primitives);
      total' := Plus(Plus(total, objects(name)), below);
    }

    /**
     The analysis of one message. `order` lists the data types in the order in which they are dequeued;
     `objects` and `primitives` stand for what the database counts per object and per primitive type.
     */
    method Analyse(message: DataType, objects: Name -> Counts, primitives: Name -> Counts)
      returns (order: seq<Name>, total: Counts)
      requires queue == [] && processed == {}
      modifies this
      ensures Distinct(order)
      ensures forall t :: t in order <==> Reachable(schema, message.fields, t)
      ensures total == Total(schema, message, order, objects, primitives)
    {
      order := [];
      total := objects(message.name);
      var more := Scan(message.fields, primitives, order);
      total := Plus(total, more);
      PlusLaws(total, NONE, NONE);
      ScanStarts(schema, message.fields, queue, processed);
      while queue != []
        invariant Progress(schema, message.fields, order, queue, processed)
        invariant total == Total(schema, message, order, objects, primitives)
        decreases |Universe(schema, message.fields)| - |order|
      {
        var name;
        name, total := Turn(message, order, total, objects, primitives);
        order := order + [name];
        OrderWithin(schema, message.fields, order, queue, processed);
      }
      Complete(schema, message.fields, order, processed);
    }
  }

  /** What a message counts, given the data types it depends on. */
  function Total(s: Schema, message: DataType, order: seq<Name>, objects: Name -> Counts, primitives: Name -> Counts): Counts {
    Plus(Plus(objects(message.name), Sum(message.fields, Primitive(s, primitives))),
         Plus(Sum(order, objects), Sum(order, PrimitivesOfType(s, primitives))))
  }

  lemma TotalSnoc(s: Schema, message: DataType, order: seq<Name>, name: Name,
                  objects: Name -> Counts, primitives: Name -> Counts)
    ensures Total(s, message, order + [name], objects, primitives) ==
            Plus(Plus(Total(s, message, order, objects, primitives), objects(name)), PrimitivesOfType(s, primitives)(name))
  {
    SumSnoc(order, name, objects);
    SumSnoc(order, name, PrimitivesOfType(s, primitives));
    Regroup(Plus(objects(message.name), Sum(message.fields, Primitive(s, primitives))),
            Sum(order, objects), Sum(order, PrimitivesOfType(s, primitives)), objects(name), PrimitivesOfType(s, primitives)(name));
  }

  lemma Regroup(a: Counts, b: Counts, c: Counts, x: Counts, y: Counts)
    ensures Plus(a, Plus(Plus(b, x), Plus(c, y))) == Plus(Plus(Plus(a, Plus(b, c)), x), y)
  {
  }

  /** The counts are the same for every order of visits: they are sums over the set of reachable types. */
  lemma TotalIsOrderFree(s: Schema, message: DataType, a: seq<Name>, b: seq<Name>,
                         objects: Name -> Counts, primitives: Name -> Counts)
    requires Distinct(a) && Distinct(b) && Elements(a) == Elements(b)
    ensures Total(s, message, a, objects, primitives) == Total(s, message, b, objects, primitives)
  {
    SumIsOrderFree(a, b, objects);
    SumIsOrderFree(a, b, PrimitivesOfType(s, primitives));
  }

  /** What holds between two visits: everything processed is reachable, and what a visited type uses is processed. */
  ghost predicate Progress(s: Schema, message: seq<Name>, order: seq<Name>, queue: seq<Name>, processed: set<Name>) {
    && Consistent(order, queue, processed) && processed <= Universe(s, message)
    && (forall t :: Uses(s, message, t) ==> t in processed)
    && (forall t, u :: t in order && Uses(s, FieldsOf(s.types, t), u) ==> u in processed)
    && (forall t :: t in processed ==> Reachable(s, message, t))
  }

  lemma ScanStarts(s: Schema, message: seq<Name>, queue: seq<Name>, processed: set<Name>)
    requires Consistent([], queue, processed) && processed == Composites(s, message)
    ensures Progress(s, message, [], queue, processed)
  {
    forall t | t in processed
      ensures Reachable(s, message, t)
    {
      ReachableStart(s, message, t);
    }
  }

  lemma StepKeeps(s: Schema, message: seq<Name>, order: seq<Name>, queue: seq<Name>, processed: set<Name>,
                  later: seq<Name>, after: set<Name>)
    requires queue != [] && Progress(s, message, order, queue, processed)
    requires Consistent(order + [queue[0]], later, after)
    requires after == processed + Composites(s, FieldsOf(s.types, queue[0]))
    ensures Progress(s, message, order + [queue[0]], later, after)
  {
    var name := queue[0];
    assert (order + queue)[|order|] == name;
    assert name in processed;
    ScanReaches(s, message, name, processed, after);
  }

  lemma TakeSnoc<T>(s: seq<T>, i: nat)
    requires i < |s|
    ensures s[..i + 1] == s[..i] + [s[i]]
  {
  }

  lemma FieldsSnoc(done: seq<DataType>, d: DataType, name: Name)
    ensures FieldsOf(done + [d], name) == if d.name == name then FieldsOf(done, name) + d.fields else FieldsOf(done, name)
  {
    assert (done + [d])[..|done|] == done;
  }

  /** What one more field adds to a count of primitives. */
  lemma PrimitiveSnoc(s: Schema, f: Name -> Counts, done: seq<Name>, t: Name)
    ensures Sum(done + [t], Primitive(s, f)) ==
            if s.isComposite(t) then Sum(done, Primitive(s, f)) else Plus(Sum(done, Primitive(s, f)), f(t))
  {
    PrimitiveAt(s, f, t);
    CountSnoc(done, t, Primitive(s, f), if s.isComposite(t) then NONE else f(t));
  }

  lemma PrimitiveAt(s: Schema, f: Name -> Counts, t: Name)
    ensures Primitive(s, f)(t) == if s.isComposite(t) then NONE else f(t)
  {
  }

  lemma CountSnoc(done: seq<Name>, t: Name, p: Name -> Counts, c: Counts)
    requires p(t) == c
    ensures Sum(done + [t], p) == if c == NONE then Sum(done, p) else Plus(Sum(done, p), c)
    ensures Sum(done + [t], p) == Plus(Sum(done, p), c)
  {
    SumSnoc(done, t, p);
    PlusLaws(Sum(done, p), NONE, NONE);
  }

  /** What one more data type adds to the scan of those with a name. */
  lemma TypeSnoc(s: Schema, f: Name -> Counts, done: seq<DataType>, d: DataType, name: Name)
    ensures d.name != name ==> FieldsOf(done + [d], name) == FieldsOf(done, name)
    ensures d.name == name ==>
              && Sum(FieldsOf(done + [d], name), Primitive(s, f)) ==
                 Plus(Sum(FieldsOf(done, name), Primitive(s, f)), Sum(d.fields, Primitive(s, f)))
              && Composites(s, FieldsOf(done + [d], name)) == Composites(s, FieldsOf(done, name)) + Composites(s, d.fields)
  {
    FieldsSnoc(done, d, name);
    if d.name == name {
      SumConcat(FieldsOf(done, name), d.fields, Primitive(s, f));
      CompositesConcat(s, FieldsOf(done, name), d.fields);
    }
  }

  lemma CompositesSnoc(s: Schema, a: seq<Name>, t: Name)
    ensures Composites(s, a + [t]) == Composites(s, a) + if s.isComposite(t) then {t} else {}
  {
  }

  lemma CompositesConcat(s: Schema, a: seq<Name>, b: seq<Name>)
    ensures Composites(s, a + b) == Composites(s, a) + Composites(s, b)
  {
  }

  lemma {:induction false} SumConcat(a: seq<Name>, b: seq<Name>, f: Name -> Counts)
    ensures Sum(a + b, f) == Plus(Sum(a, f), Sum(b, f))
  {
    if b == [] {
      assert a + b == a;
      PlusLaws(Sum(a, f), NONE, NONE);
    } else {
      var n := |b| - 1;
      PlusLaws(Sum(a, f), Sum(b[..n], f), f(b[n]));
      assert a + b == (a + b[..n]) + [b[n]];
      SumSnoc(a + b[..n], b[n], f);
      SumConcat(a, b[..n], f);
    }
  }

  lemma SumSnoc(a: seq<Name>, t: Name, f: Name -> Counts)
    ensures Sum(a + [t], f) == Plus(Sum(a, f), f(t))
  {
    assert (a + [t])[..|a|] == a;
  }

  lemma ExtendDistinct(order: seq<Name>, before: seq<Name>, after: seq<Name>, t: Name)
    requires Distinct(order + before)
    requires after == before + if t in Elements(order + before) then [] else [t]
    ensures Distinct(order + after) && Elements(order + after) == Elements(order + before) + {t}
  {
    assert order + after == (order + before) + (if t in Elements(order + before) then [] else [t]);
  }

  lemma MoveFirst(order: seq<Name>, queue: seq<Name>, processed: set<Name>)
    requires queue != [] && Consistent(order, queue, processed)
    ensures Consistent(order + [queue[0]], queue[1..], processed)
  {
    assert order + [queue[0]] + queue[1..] == order + queue;
  }

  /** Every name that a message or a data type uses as a data type. */
  ghost function Universe(s: Schema, message: seq<Name>): set<Name> {
    (set t | t in message) + Mentioned(s.types)
  }

  ghost function Mentioned(types: seq<DataType>): set<Name> {
    if types == [] then {} else Mentioned(types[..|types| - 1]) + Elements(types[|types| - 1].fields)
  }

  lemma {:induction false} FieldsAreMentioned(types: seq<DataType>, name: Name)
    ensures Elements(FieldsOf(types, name)) <= Mentioned(types)
  {
    if types != [] {
      FieldsAreMentioned(types[..|types| - 1], name);
    }
  }

  /** What the scan of a reachable type's fields adds is reachable and belongs to the universe. */
  lemma ScanReaches(s: Schema, message: seq<Name>, name: Name, before: set<Name>, after: set<Name>)
    requires forall t :: t in before ==> Reachable(s, message, t)
    requires name in before && before <= Universe(s, message)
    requires after == before + Composites(s, FieldsOf(s.types, name))
    ensures forall t :: t in after ==> Reachable(s, message, t)
    ensures after <= Universe(s, message)
  {
    FieldsAreMentioned(s.types, name);
    forall t | t in after
      ensures Reachable(s, message, t)
    {
      if t !in before {
        ReachableStep(s, message, name, t);
      }
    }
  }

  lemma {:induction false} DistinctSize(names: seq<Name>)
    requires Distinct(names)
    ensures |Elements(names)| == |names|
  {
    if names != [] {
      var n := |names| - 1;
      DistinctSize(names[..n]);
      assert Elements(names) == Elements(names[..n]) + {names[n]};
    }
  }

  lemma OrderWithin(s: Schema, message: seq<Name>, order: seq<Name>, queue: seq<Name>, processed: set<Name>)
    requires Progress(s, message, order, queue, processed)
    ensures |order| <= |Universe(s, message)|
  {
    DistinctSize(order + queue);
    SubsetSize(Elements(order + queue), Universe(s, message));
  }

  lemma {:induction false} SubsetSize(a: set<Name>, b: set<Name>)
    requires a <= b
    ensures |a| <= |b|
  {
    if a != {} {
      var x :| x in a;
      SubsetSize(a - {x}, b - {x});
    }
  }

  lemma Complete(s: Schema, message: seq<Name>, order: seq<Name>, processed: set<Name>)
    requires Progress(s, message, order, [], processed)
    ensures Distinct(order)
    ensures forall t :: t in order <==> Reachable(s, message, t)
  {
    assert order + [] == order;
    forall t | Reachable(s, message, t)
      ensures t in order
    {
      var path :| IsPath(s, message, path) && path[|path| - 1] == t;
      ClosedHoldsPath(s, message, processed, path);
    }
  }

  /** A sum over distinct names depends only on which names they are. */
  lemma {:induction false} SumIsOrderFree(a: seq<Name>, b: seq<Name>, f: Name -> Counts)
    requires Distinct(a) && Distinct(b) && Elements(a) == Elements(b)
    ensures Sum(a, f) == Sum(b, f)
    decreases |a|
  {
    if a == [] {
      DistinctSize(a);
      DistinctSize(b);
    } else {
      var n := |a| - 1;
      var t := a[n];
      assert t in Elements(b);
      var k :| 0 <= k < |b| && b[k] == t;
      var rest := b[..k] + b[k + 1..];
      SumWithout(b, k, f);
      RestElements(a, b, k);
      SumIsOrderFree(a[..n], rest, f);
    }
  }

  lemma RestElements(a: seq<Name>, b: seq<Name>, k: nat)
    requires Distinct(a) && Distinct(b) && Elements(a) == Elements(b)
    requires a != [] && k < |b| && b[k] == a[|a| - 1]
    ensures Elements(a[..|a| - 1]) == Elements(b[..k] + b[k + 1..]) && Distinct(b[..k] + b[k + 1..])
  {
    var n, rest := |a| - 1, b[..k] + b[k + 1..];
    assert forall t :: t in a[..n] <==> t in a && t != a[n];
    forall t
      ensures t in rest <==> t in b && t != b[k]
    {
      if t in b && t != b[k] {
        var i :| 0 <= i < |b| && b[i] == t;
        assert rest[if i < k then i else i - 1] == t;
      }
    }
    assert forall t :: t in a <==> t in Elements(a);
    assert forall t :: t in b <==> t in Elements(b);
  }

  lemma {:induction false} SumWithout(b: seq<Name>, k: nat, f: Name -> Counts)
    requires k < |b|
    ensures Sum(b, f) == Plus(Sum(b[..k] + b[k + 1..], f), f(b[k]))
  {
    var n := |b| - 1;
    if k < n {
      SumWithout(b[..n], k, f);
      PlusLaws(Sum(b[..n][..k] + b[..n][k + 1..], f), f(b[k]), f(b[n]));
      PlusLaws(Sum(b[..n][..k] + b[..n][k + 1..], f), f(b[n]), f(b[k]));
      PlusLaws(f(b[k]), f(b[n]), NONE);
      assert b[..k] + b[k + 1..] == (b[..n][..k] + b[..n][k + 1..]) + [b[n]];
      SumSnoc(b[..n][..k] + b[..n][k + 1..], b[n], f);
    } else {
      assert b[..k] + b[k + 1..] == b[..n];
    }
  }
}
