/** RuleSet.add: a set of rules whose members collect the causes of all equal rules added to it. */
module RuleSet {
  import opened Wrappers
  import opened RuleModel
  import Normalisation = Normaliser

  /** What rule equality compares: the conditions in order, and the values of the constraint as a set. */
  datatype Key = Key(conditions: Option<seq<Condition>>, attribute: Attribute, operator: Operator, values: set<Val>)

  function KeyOf(r: Rule): Key {
    Key(r.conditions, r.constraint.attribute, r.constraint.operator, set v | v in r.constraint.values)
  }

  /** What the hash is computed from: missing conditions count as none, and the values are sorted. */
  datatype HashKey = HashKey(conditions: seq<Condition>, attribute: Attribute, operator: Operator, values: multiset<Val>)

  function HashKeyOf(r: Rule): HashKey {
    HashKey(if r.conditions.Some? then r.conditions.value else [],
            r.constraint.attribute, r.constraint.operator, multiset(r.constraint.values))
  }

  /** Sorting raises when numbers and strings are mixed. */
  predicate Sortable(vs: seq<Val>) {
    forall i, j :: 0 <= i < j < |vs| ==> (vs[i].Num? <==> vs[j].Num?)
  }

  predicate RepeatFree(vs: seq<Val>) {
    forall i, j :: 0 <= i < j < |vs| ==> vs[i] != vs[j]
  }

  function CauseSet(causes: seq<Cause>): set<Cause> {
    set c | c in causes
  }

  /** Membership in a hash table: an equal element with an equal hash. */
  predicate InTable(hash: HashKey -> int, members: seq<Rule>, r: Rule) {
    exists i :: 0 <= i < |members| && hash(HashKeyOf(members[i])) == hash(HashKeyOf(r)) && KeyOf(members[i]) == KeyOf(r)
  }

  /** What get_equivalent_rule does: a rule, or nothing when it raises. It never touches the causes. */
  type Normaliser = Rule -> Option<Rule>

  ghost predicate KeepsCauses(normalise: Normaliser) {
    forall r :: normalise(r).Some? ==> normalise(r).value.causes == r.causes
  }

  /** A rule that the program can add: normalising and hashing it raise nothing. */
  predicate Addable(normalise: Normaliser, r: Rule) {
    normalise(r).Some? && Sortable(normalise(r).value.constraint.values)
  }

  /** The hypothesis under which equality and hash agree, on the rule as it is stored. */
  predicate Plain(normalise: Normaliser, r: Rule) {
    Addable(normalise, r) && RepeatFree(normalise(r).value.constraint.values)
  }

  function ClassOf(normalise: Normaliser, r: Rule): Key
    requires Addable(normalise, r)
  {
    KeyOf(normalise(r).value)
  }

  // ----- equality and hash -----

  /** Two rules are equal whatever their causes and the order and number of their values. */
  lemma EqualIff(a: Rule, b: Rule)
    ensures KeyOf(a) == KeyOf(b) <==>
            && a.conditions == b.conditions && a.constraint.attribute == b.constraint.attribute
            && a.constraint.operator == b.constraint.operator
            && forall v :: v in a.constraint.values <==> v in b.constraint.values
  {
    if forall v :: v in a.constraint.values <==> v in b.constraint.values {
      assert KeyOf(a).values == KeyOf(b).values;
    } else {
      var v :| !(v in a.constraint.values <==> v in b.constraint.values);
      assert v in KeyOf(a).values <==> v !in KeyOf(b).values;
    }
  }

  /** Two rules hash alike when they also have each value equally often; no conditions are like an empty list. */
  lemma HashesAlikeIff(a: Rule, b: Rule)
    ensures HashKeyOf(a) == HashKeyOf(b) <==>
            && (a.conditions == b.conditions || {a.conditions, b.conditions} == {None, Some([])})
            && a.constraint.attribute == b.constraint.attribute && a.constraint.operator == b.constraint.operator
            && multiset(a.constraint.values) == multiset(b.constraint.values)
  {
  }

  lemma {:induction false} CountOfRepeatFree(vs: seq<Val>, v: Val)
    requires RepeatFree(vs)
    ensures multiset(vs)[v] == if v in vs then 1 else 0
  {
    if vs != [] {
      var n := |vs| - 1;
      assert vs == vs[..n] + [vs[n]];
      CountOfRepeatFree(vs[..n], v);
    }
  }

  /** Equal rules without repeated values have equal hashes, whatever the hash function. */
  lemma EqualityAgreesWithHash(a: Rule, b: Rule)
    requires KeyOf(a) == KeyOf(b) && RepeatFree(a.constraint.values) && RepeatFree(b.constraint.values)
    ensures HashKeyOf(a) == HashKeyOf(b)
  {
    assert Elements(a.constraint.values) == KeyOf(a).values && Elements(b.constraint.values) == KeyOf(b).values;
    SameCounts(a.constraint.values, b.constraint.values);
  }

  lemma MembershipIsEquality(hash: HashKey -> int, members: seq<Rule>, r: Rule)
    requires RepeatFree(r.constraint.values)
    requires forall i :: 0 <= i < |members| ==> RepeatFree(members[i].constraint.values)
    ensures InTable(hash, members, r) <==> exists i :: 0 <= i < |members| && KeyOf(members[i]) == KeyOf(r)
  {
    forall i | 0 <= i < |members| && KeyOf(members[i]) == KeyOf(r)
      ensures hash(HashKeyOf(members[i])) == hash(HashKeyOf(r))
    {
      EqualityAgreesWithHash(members[i], r);
    }
  }

  /** The values of a list, each once. */
  function Once(vs: seq<Val>): (r: seq<Val>)
    ensures RepeatFree(r)
    ensures forall v :: v in r <==> v in vs
  {
    if vs == [] then []
    else
      var before := Once(vs[..|vs| - 1]);
      if vs[|vs| - 1] in before then before else before + [vs[|vs| - 1]]
  }

  lemma OnceIsAsLong(vs: seq<Val>, v: Val)
    ensures multiset(Once(vs))[v] == if v in vs then 1 else 0
  {
    CountOfRepeatFree(Once(vs), v);
  }

  lemma {:induction false} RepeatIsCounted(vs: seq<Val>)
    requires !RepeatFree(vs)
    ensures exists v :: multiset(vs)[v] > 1
  {
    var i, j :| 0 <= i < j < |vs| && vs[i] == vs[j];
    assert vs == vs[..j] + vs[j..];
    assert vs[i] in vs[..j] && vs[j] in vs[j..];
    assert multiset(vs) == multiset(vs[..j]) + multiset(vs[j..]);
    assert multiset(vs)[vs[i]] > 1;
  }

  /** The hash of a rule is a function of its class among rules without repeats: they agree with every equal such rule. */
  ghost predicate AgreesWithPlain(r: Rule) {
    forall ws :: RepeatFree(ws) && Elements(ws) == Elements(r.constraint.values) ==>
                   multiset(ws) == multiset(r.constraint.values)
  }

  function Elements(vs: seq<Val>): set<Val> {
    set v | v in vs
  }

  /** Freedom from repeats is the exact condition under which a rule hashes like its equals without repeats. */
  lemma AgreesIffRepeatFree(r: Rule)
    ensures AgreesWithPlain(r) <==> RepeatFree(r.constraint.values)
  {
    var vs := r.constraint.values;
    if RepeatFree(vs) {
      forall ws | RepeatFree(ws) && Elements(ws) == Elements(vs)
        ensures multiset(ws) == multiset(vs)
      {
        SameCounts(ws, vs);
      }
    } else {
      OnceIsShorter(vs);
      assert Elements(Once(vs)) == Elements(vs);
    }
  }

  lemma SameCounts(vs: seq<Val>, ws: seq<Val>)
    requires RepeatFree(vs) && RepeatFree(ws) && Elements(vs) == Elements(ws)
    ensures multiset(vs) == multiset(ws)
  {
    forall v
      ensures multiset(vs)[v] == multiset(ws)[v]
    {
      CountOfRepeatFree(vs, v);
      CountOfRepeatFree(ws, v);
      assert v in vs <==> v in Elements(vs);
      assert v in ws <==> v in Elements(ws);
    }
  }

  /** A rule whose values repeat equals the rule with each value once, and their hash keys differ. */
  lemma RepeatsBreakHash(r: Rule)
    requires !RepeatFree(r.constraint.values)
    ensures var plain := r.(constraint := r.constraint.(values := Once(r.constraint.values)));
            KeyOf(plain) == KeyOf(r) && HashKeyOf(plain) != HashKeyOf(r)
  {
    OnceIsShorter(r.constraint.values);
  }

  lemma OnceIsShorter(vs: seq<Val>)
    ensures (set v | v in Once(vs)) == (set v | v in vs)
    ensures !RepeatFree(vs) ==> multiset(Once(vs)) != multiset(vs)
  {
    if !RepeatFree(vs) {
      RepeatIsCounted(vs);
      var v :| multiset(vs)[v] > 1;
      OnceIsAsLong(vs, v);
    }
  }

  /** Then, under any hash that tells the two apart, a set that holds one of them does not recognise the other. */
  lemma RepeatsBreakMembership(hash: HashKey -> int, r: Rule, plain: Rule)
    requires KeyOf(plain) == KeyOf(r) && hash(HashKeyOf(plain)) != hash(HashKeyOf(r))
    ensures !InTable(hash, [plain], r) && exists i :: 0 <= i < 1 && KeyOf([plain][i]) == KeyOf(r)
  {
    assert KeyOf([plain][0]) == KeyOf(r);
  }

  // ----- the collection -----

  /** One member per class, carrying exactly the causes collected for it. */
  ghost predicate Represents(members: seq<Rule>, causes: map<Key, set<Cause>>) {
    Carries(members, causes) && DistinctKeys(members) && Covers(members, causes)
  }

  ghost predicate Carries(members: seq<Rule>, causes: map<Key, set<Cause>>) {
    forall i :: 0 <= i < |members| ==>
                  && RepeatFree(members[i].constraint.values)
                  && KeyOf(members[i]) in causes && causes[KeyOf(members[i])] == CauseSet(members[i].causes)
  }

  ghost predicate DistinctKeys(members: seq<Rule>) {
    forall i, j :: 0 <= i < j < |members| ==> KeyOf(members[i]) != KeyOf(members[j])
  }

  ghost predicate Covers(members: seq<Rule>, causes: map<Key, set<Cause>>) {
    forall k :: k in causes ==> exists i :: 0 <= i < |members| && KeyOf(members[i]) == k
  }

  /** The collected causes after one more rule of a class. */
  function Collect(causes: map<Key, set<Cause>>, k: Key, more: set<Cause>): map<Key, set<Cause>> {
    causes[k := (if k in causes then causes[k] else {}) + more]
  }

  lemma RepresentsAppended(members: seq<Rule>, causes: map<Key, set<Cause>>, item: Rule)
    requires Represents(members, causes) && KeyOf(item) !in causes && RepeatFree(item.constraint.values)
    ensures Represents(members + [item], causes[KeyOf(item) := CauseSet(item.causes)])
  {
    var after, now := members + [item], causes[KeyOf(item) := CauseSet(item.causes)];
    forall k | k in now
      ensures exists i :: 0 <= i < |after| && KeyOf(after[i]) == k
    {
      if k == KeyOf(item) {
        assert KeyOf(after[|members|]) == k;
      } else {
        var i :| 0 <= i < |members| && KeyOf(members[i]) == k;
        assert after[i] == members[i];
      }
    }
  }

  lemma RepresentsReplaced(members: seq<Rule>, causes: map<Key, set<Cause>>, k: nat, item: Rule)
    requires Represents(members, causes) && k < |members|
    requires KeyOf(item) == KeyOf(members[k]) && RepeatFree(item.constraint.values)
    ensures Represents(members[k := item], causes[KeyOf(item) := CauseSet(item.causes)])
  {
    ReplacedCarries(members, causes, k, item);
    ReplacedCovers(members, causes, k, item);
    assert forall i :: 0 <= i < |members| ==> KeyOf(members[k := item][i]) == KeyOf(members[i]);
  }

  lemma ReplacedCarries(members: seq<Rule>, causes: map<Key, set<Cause>>, k: nat, item: Rule)
    requires Carries(members, causes) && DistinctKeys(members) && k < |members|
    requires KeyOf(item) == KeyOf(members[k]) && RepeatFree(item.constraint.values)
    ensures Carries(members[k := item], causes[KeyOf(item) := CauseSet(item.causes)])
  {
    forall i | 0 <= i < |members| && i != k
      ensures KeyOf(members[i]) != KeyOf(item)
    {
      assert if i < k then KeyOf(members[i]) != KeyOf(members[k]) else KeyOf(members[k]) != KeyOf(members[i]);
    }
  }

  lemma ReplacedCovers(members: seq<Rule>, causes: map<Key, set<Cause>>, k: nat, item: Rule)
    requires Covers(members, causes) && k < |members| && KeyOf(item) == KeyOf(members[k])
    ensures Covers(members[k := item], causes[KeyOf(item) := CauseSet(item.causes)])
  {
    var after, now := members[k := item], causes[KeyOf(item) := CauseSet(item.causes)];
    forall c | c in now
      ensures exists i :: 0 <= i < |after| && KeyOf(after[i]) == c
    {
      if c == KeyOf(item) {
        assert KeyOf(after[k]) == c;
      } else {
        var i :| 0 <= i < |members| && KeyOf(members[i]) == c;
        assert after[i] == members[i];
      }
    }
  }

  class Rules {
    const hash: HashKey -> int
    const normalise: Normaliser
    var members: seq<Rule>  // in no particular order: a removed member's place is taken by the one added instead
    ghost var causes: map<Key, set<Cause>>

    ghost predicate Valid()
      reads this
    {
      Represents(members, causes)
    }

    constructor (hash: HashKey -> int, normalise: Normaliser)
      ensures Valid() && members == [] && causes == map[] && this.hash == hash && this.normalise == normalise
    {
      this.hash, this.normalise := hash, normalise;
      members, causes := [], map[];
    }

    /** add without force; `None` stands for an exception, which leaves the set as it was. */
    method Add(rule: Rule) returns (added: Option<bool>)
      requires KeepsCauses(normalise)
      modifies this
      ensures added.Some? <==> Addable(normalise, rule)
      ensures added.None? ==> members == old(members) && causes == old(causes)
      ensures old(Valid()) && Plain(normalise, rule) ==>
                && Valid()
                && added == Some(ClassOf(normalise, rule) !in old(causes))
                && causes == Collect(old(causes), ClassOf(normalise, rule), CauseSet(rule.causes))
    {
      var equivalent := normalise(rule);
      if equivalent.None? || !Sortable(equivalent.value.constraint.values) {
        return None;
      }
      var isNew := Insert(equivalent.value);
      return Some(isNew);
    }

    /** add with force: neither normalised nor merged, and reported as added even when an equal member stays. */
    method AddForced(item: Rule) returns (added: Option<bool>)
      modifies this
      ensures added == if Sortable(item.constraint.values) then Some(true) else None
      ensures members == if added.None? || InTable(hash, old(members), item) then old(members) else old(members) + [item]
      ensures added.None? ==> causes == old(causes)
      ensures old(Valid()) && added.Some? && RepeatFree(item.constraint.values) ==>
                Valid() && causes == if KeyOf(item) in old(causes) then old(causes)
                                     else old(causes)[KeyOf(item) := CauseSet(item.causes)]
    {
      if !Sortable(item.constraint.values) {
        return None;
      }
      if Valid() && RepeatFree(item.constraint.values) {
        MembershipIsEquality(hash, members, item);
      }
      if !InTable(hash, members, item) {
        if Valid() && RepeatFree(item.constraint.values) {
          RepresentsAppended(members, causes, item);
        }
        causes := causes[KeyOf(item) := CauseSet(item.causes)];
        members := members + [item];
      }
      added := Some(true);
    }

    /** The part of add that works on the set. */
    method Insert(item: Rule) returns (added: bool)
      modifies this
      ensures old(Valid()) && RepeatFree(item.constraint.values) ==>
                && Valid()
                && added == (KeyOf(item) !in old(causes))
                && causes == Collect(old(causes), KeyOf(item), CauseSet(item.causes))
    {
      ghost var plain := Valid() && RepeatFree(item.constraint.values);
      if plain {
        MembershipIsEquality(hash, members, item);
      }
      if InTable(hash, members, item) {
        var k := FindEqual(members, item);
        added := false;
        MergeInto(k, item);
      } else {
        if plain {
          RepresentsAppended(members, causes, item);
          assert {} + CauseSet(item.causes) == CauseSet(item.causes);
        }
        causes := Collect(causes, KeyOf(item), CauseSet(item.causes));
        members := members + [item];
        added := true;
      }
    }

    /** The merge with an equal member, which the new item replaces unless their causes agree. */
    method MergeInto(k: nat, item: Rule)
      requires k < |members| && KeyOf(members[k]) == KeyOf(item)
      modifies this
      ensures old(Valid()) && RepeatFree(item.constraint.values) ==>
                Valid() && causes == Collect(old(causes), KeyOf(item), CauseSet(item.causes))
    {
      ghost var plain := Valid() && RepeatFree(item.constraint.values);
      var existing := members[k];
      if CauseSet(existing.causes) == CauseSet(item.causes) {
        if plain {
          assert causes[KeyOf(item)] + CauseSet(item.causes) == causes[KeyOf(item)];
          assert Collect(causes, KeyOf(item), CauseSet(item.causes)) == causes;
        }
        return;
      }
      var merged := item.(causes := item.causes + existing.causes);
      var missing := NotIn(existing.causes, merged.causes);
      merged := merged.(causes := merged.causes + missing);
      assert CauseSet(merged.causes) == CauseSet(existing.causes) + CauseSet(item.causes);
      if plain {
        RepresentsReplaced(members, causes, k, merged);
      }
      causes := Collect(causes, KeyOf(item), CauseSet(item.causes));
      members := members[k := merged];
    }
  }

  method FindEqual(members: seq<Rule>, item: Rule) returns (k: nat)
    requires exists i :: 0 <= i < |members| && KeyOf(members[i]) == KeyOf(item)
    ensures k < |members| && KeyOf(members[k]) == KeyOf(item)
    ensures forall i :: 0 <= i < k ==> KeyOf(members[i]) != KeyOf(item)
  {
    k := 0;
    while KeyOf(members[k]) != KeyOf(item)
      invariant k < |members|
      invariant forall i :: 0 <= i < k ==> KeyOf(members[i]) != KeyOf(item)
      decreases |members| - k
    {
      k := k + 1;
    }
  }

  /** The causes of one list that are not in another. */
  function NotIn(causes: seq<Cause>, others: seq<Cause>): (r: seq<Cause>)
    ensures forall c :: c in r <==> c in causes && c !in others
  {
    if causes == [] then []
    else (if causes[0] in others then [] else [causes[0]]) + NotIn(causes[1..], others)
  }

  // ----- any sequence of adds -----

  ghost predicate AllPlain(normalise: Normaliser, rules: seq<Rule>) {
    forall i :: 0 <= i < |rules| ==> Plain(normalise, rules[i])
  }

  /** The causes that a sequence of rules contributes to each class. */
  ghost function CollectAll(normalise: Normaliser, rules: seq<Rule>): map<Key, set<Cause>>
    requires AllPlain(normalise, rules)
  {
    if rules == [] then map[]
    else
      var last := rules[|rules| - 1];
      Collect(CollectAll(normalise, rules[..|rules| - 1]), ClassOf(normalise, last), CauseSet(last.causes))
  }

  ghost predicate AddsClass(normalise: Normaliser, rules: seq<Rule>, i: nat, k: Key) {
    i < |rules| && Addable(normalise, rules[i]) && ClassOf(normalise, rules[i]) == k
  }

  /** A class is present exactly when a rule of it was added, with exactly the union of the causes of those rules. */
  lemma {:induction false} CollectAllSpec(normalise: Normaliser, rules: seq<Rule>, k: Key)
    requires AllPlain(normalise, rules)
    ensures k in CollectAll(normalise, rules) <==> exists i: nat :: AddsClass(normalise, rules, i, k)
    ensures k in CollectAll(normalise, rules) ==>
              forall c :: c in CollectAll(normalise, rules)[k] <==>
                          exists i: nat :: AddsClass(normalise, rules, i, k) && c in rules[i].causes
  {
    if rules != [] {
      var n := |rules| - 1;
      var before := rules[..n];
      CollectAllSpec(normalise, before, k);
      assert forall i: nat :: i < n ==> (AddsClass(normalise, rules, i, k) <==> AddsClass(normalise, before, i, k));
      assert AddsClass(normalise, rules, n, k) <==> ClassOf(normalise, rules[n]) == k;
      forall c | k in CollectAll(normalise, rules)
        ensures c in CollectAll(normalise, rules)[k] <==>
                exists i: nat :: AddsClass(normalise, rules, i, k) && c in rules[i].causes
      {
        if i: nat :| AddsClass(normalise, rules, i, k) && c in rules[i].causes {
          assert i < n ==> AddsClass(normalise, before, i, k) && c in before[i].causes;
        }
      }
    }
  }

  /** A fresh set to which a sequence of rules is added: True is returned exactly for the first rule of each class. */
  method AddAll(hash: HashKey -> int, normalise: Normaliser, rules: seq<Rule>)
    returns (s: Rules, results: seq<Option<bool>>)
    requires KeepsCauses(normalise) && AllPlain(normalise, rules)
    ensures fresh(s) && s.Valid() && s.causes == CollectAll(normalise, rules)
    ensures |results| == |rules|
    ensures forall i :: 0 <= i < |rules| ==>
                          results[i] == Some(IsFirst(normalise, rules, i))
  {
    s := new Rules(hash, normalise);
    results := [];
    for i := 0 to |rules|
      invariant fresh(s) && s.normalise == normalise && s.Valid()
      invariant AllPlain(normalise, rules[..i]) && s.causes == CollectAll(normalise, rules[..i])
      invariant |results| == i
      invariant forall j :: 0 <= j < i ==> results[j] == Some(IsFirst(normalise, rules, j))
    {
      FirstIff(normalise, rules, i);
      CollectOneMore(normalise, rules, i);
      var added := s.Add(rules[i]);
      results := results + [added];
    }
    assert rules[..|rules|] == rules;
  }

  lemma CollectOneMore(normalise: Normaliser, rules: seq<Rule>, i: nat)
    requires AllPlain(normalise, rules) && i < |rules|
    ensures AllPlain(normalise, rules[..i]) && AllPlain(normalise, rules[..i + 1])
    ensures CollectAll(normalise, rules[..i + 1]) ==
            Collect(CollectAll(normalise, rules[..i]), ClassOf(normalise, rules[i]), CauseSet(rules[i].causes))
  {
    assert rules[..i + 1][..i] == rules[..i];
  }

  predicate IsFirst(normalise: Normaliser, rules: seq<Rule>, i: nat)
    requires i < |rules| && forall j :: 0 <= j <= i ==> Addable(normalise, rules[j])
  {
    forall j :: 0 <= j < i ==> ClassOf(normalise, rules[j]) != ClassOf(normalise, rules[i])
  }

  lemma FirstIff(normalise: Normaliser, rules: seq<Rule>, i: nat)
    requires AllPlain(normalise, rules) && i < |rules|
    ensures AllPlain(normalise, rules[..i])
    ensures IsFirst(normalise, rules, i) <==>
            ClassOf(normalise, rules[i]) !in CollectAll(normalise, rules[..i])
  {
    var k := ClassOf(normalise, rules[i]);
    CollectAllSpec(normalise, rules[..i], k);
    forall j: nat | j < i
      ensures AddsClass(normalise, rules[..i], j, k) <==> ClassOf(normalise, rules[j]) == k
    {
      assert rules[..i][j] == rules[j];
    }
  }

  /** The program's own normaliser keeps the causes, so all of the above holds of it. */
  lemma NormaliserKeepsCauses()
    ensures KeepsCauses(Normalisation.Normalised)
  {
  }
}
