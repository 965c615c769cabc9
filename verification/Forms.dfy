/** When two answers to a form question count as the same. */
module Forms {
  import opened Json

  // Deep equality of JSON values.

  datatype Lookup = Undefined | Property(v: Value)

  /** `o[key]` on a parsed object. An own member wins; without one, `__proto__` reads the
      object's prototype, which has no members of its own that `Object.keys` lists. The other
      inherited names read functions, which no JSON value equals. */
  function Get(members: map<string, Value>, key: string): Lookup {
    if key in members then Property(members[key])
    else if key == "__proto__" then Property(Obj(map[]))
    else Undefined
  }

  /** `formJsonEqual` */
  predicate FormJsonEqual(a: Value, b: Value)
    decreases a
  {
    match a
    case Arr(items) =>
      b.Arr? && |items| == |b.items| && forall i :: 0 <= i < |items| ==> FormJsonEqual(items[i], b.items[i])
    case Obj(members) =>
      b.Obj? && |members| == |b.members|
      && forall k :: k in members ==> Get(b.members, k).Property? && FormJsonEqual(members[k], Get(b.members, k).v)
    case _ => a == b
  }

  /** No object anywhere in the value has an own member `__proto__` that is an empty object. */
  predicate NoEmptyProto(a: Value)
    decreases a
  {
    match a
    case Arr(items) => forall i :: 0 <= i < |items| ==> NoEmptyProto(items[i])
    case Obj(members) => forall k :: k in members ==> NoEmptyProto(members[k]) && !(k == "__proto__" && members[k] == Obj(map[]))
    case _ => true
  }

  lemma {:induction false} FormJsonEqualReflexive(a: Value)
    ensures FormJsonEqual(a, a)
  {
    match a
    case Arr(items) =>
      forall i | 0 <= i < |items|
        ensures FormJsonEqual(items[i], items[i])
      {
        FormJsonEqualReflexive(items[i]);
      }
    case Obj(members) =>
      forall k | k in members
        ensures FormJsonEqual(members[k], members[k])
      {
        FormJsonEqualReflexive(members[k]);
      }
    case _ =>
  }

  lemma {:induction false} SubsetOfSameSize<T>(a: set<T>, b: set<T>)
    requires a <= b && |a| == |b|
    ensures a == b
  {
    if x :| x in b && x !in a {
      CardinalityBound(a, b - {x});
    }
  }

  lemma {:induction false} CardinalityBound<T>(a: set<T>, b: set<T>)
    requires a <= b
    ensures |a| <= |b|
  {
    if x :| x in a {
      CardinalityBound(a - {x}, b - {x});
    }
  }

  lemma {:induction false} EqualIsSame(a: Value, b: Value)
    requires NoEmptyProto(a) && FormJsonEqual(a, b)
    ensures a == b
    decreases a
  {
    match a
    case Arr(items) =>
      forall i | 0 <= i < |items|
        ensures items[i] == b.items[i]
      {
        EqualIsSame(items[i], b.items[i]);
      }
    case Obj(members) =>
      forall k | k in members
        ensures k in b.members && members[k] == b.members[k]
      {
        EqualIsSame(members[k], Get(b.members, k).v);
      }
      assert |members.Keys| == |members| && |b.members.Keys| == |b.members|;
      SubsetOfSameSize(members.Keys, b.members.Keys);
    case _ =>
  }

  // The family of values on which it is not equality.

  lemma {:induction false} LongerKey(keys: set<string>) returns (key: string)
    ensures forall k :: k in keys ==> |k| < |key|
    ensures |key| > 20
  {
    if k :| k in keys {
      var rest := LongerKey(keys - {k});
      key := if |rest| > |k| then rest else k + "x" + rest;
    } else {
      key := "xxxxxxxxxxxxxxxxxxxxx";
    }
  }

  /** From a value with an empty own `__proto__`, a different value it is taken to equal. */
  lemma {:induction false} Impostor(a: Value) returns (b: Value)
    requires !NoEmptyProto(a)
    ensures FormJsonEqual(a, b) && a != b
    decreases a
  {
    match a
    case Arr(items) =>
      var i :| 0 <= i < |items| && !NoEmptyProto(items[i]);
      var c := Impostor(items[i]);
      b := Arr(items[i := c]);
      forall j | 0 <= j < |items|
        ensures FormJsonEqual(items[j], b.items[j])
      {
        FormJsonEqualReflexive(items[j]);
      }
      assert b.items[i] != items[i];
    case Obj(members) =>
      var k :| k in members && (!NoEmptyProto(members[k]) || (k == "__proto__" && members[k] == Obj(map[])));
      if NoEmptyProto(members[k]) {
        b := Renamed(members);
      } else {
        var c := Impostor(members[k]);
        b := Obj(members[k := c]);
        assert b.members.Keys == members.Keys;
        assert |b.members| == |b.members.Keys|;
        forall j | j in members
          ensures FormJsonEqual(members[j], b.members[j])
        {
          FormJsonEqualReflexive(members[j]);
        }
        assert b.members[k] != members[k];
      }
  }

  /** A map with one key exchanged for a new one has the same size. */
  lemma Exchanged(members: map<string, Value>, old_: string, new_: string)
    requires old_ in members && new_ !in members
    ensures |(members - {old_})[new_ := Null]| == |members|
    ensures (members - {old_})[new_ := Null].Keys == members.Keys - {old_} + {new_}
  {
    var kept := members - {old_};
    var b := kept[new_ := Null];
    assert kept.Keys == members.Keys - {old_} && b.Keys == kept.Keys + {new_};
    assert |b| == |b.Keys| && |members| == |members.Keys| && |kept| == |kept.Keys|;
  }

  /** The empty `__proto__` member replaced by a member of another name. The comparison with the
      original succeeds one way and fails the other. */
  lemma Renamed(members: map<string, Value>) returns (b: Value)
    requires "__proto__" in members && members["__proto__"] == Obj(map[])
    ensures FormJsonEqual(Obj(members), b) && !FormJsonEqual(b, Obj(members)) && Obj(members) != b
  {
    var key := LongerKey(members.Keys);
    b := Obj((members - {"__proto__"})[key := Null]);
    Exchanged(members, "__proto__", key);
    assert key != "__proto__";
    forall j | j in members
      ensures Get(b.members, j).Property? && FormJsonEqual(members[j], Get(b.members, j).v)
    {
      assert Get(b.members, j) == Property(members[j]);
      FormJsonEqualReflexive(members[j]);
    }
    hide FormJsonEqual;
    ObjectsEqual(members, b.members);
    ObjectsEqual(b.members, members);
    assert key in b.members && Get(members, key) == Undefined;
  }

  lemma ObjectsEqual(m: map<string, Value>, m': map<string, Value>)
    ensures FormJsonEqual(Obj(m), Obj(m')) <==>
      |m| == |m'| && forall k :: k in m ==> Get(m', k).Property? && FormJsonEqual(m[k], Get(m', k).v)
  {
  }

  /** The comparison is equality of JSON values, member order aside, for exactly the left
      operands that nowhere hold an empty own `__proto__`. */
  lemma FormJsonEqualExact(a: Value)
    ensures (forall b :: FormJsonEqual(a, b) <==> a == b) <==> NoEmptyProto(a)
  {
    FormJsonEqualReflexive(a);
    if NoEmptyProto(a) {
      forall b | FormJsonEqual(a, b)
        ensures a == b
      {
        EqualIsSame(a, b);
      }
    } else {
      var b := Impostor(a);
      assert FormJsonEqual(a, b) && a != b;
    }
  }

  /** On those values it is an equivalence. */
  lemma FormJsonEqualEquivalence(a: Value, b: Value, c: Value)
    requires NoEmptyProto(a) && NoEmptyProto(b)
    ensures FormJsonEqual(a, a)
    ensures FormJsonEqual(a, b) <==> FormJsonEqual(b, a)
    ensures FormJsonEqual(a, b) && FormJsonEqual(b, c) ==> FormJsonEqual(a, c)
  {
    FormJsonEqualExact(a);
    FormJsonEqualExact(b);
  }

  // Multiple choice.

  /** The answers `multi_choice` accepts: chosen values, and maybe a write-in. */
  predicate IsChoice(v: Value) {
    && v.Obj? && v.members.Keys <= {"values", "other"} && "values" in v.members
    && v.members["values"].Arr?
    && (forall i :: 0 <= i < |v.members["values"].items| ==> v.members["values"].items[i].Str?)
    && ("other" in v.members ==> v.members["other"].Str?)
  }

  function Chosen(v: Value): set<Value>
    requires IsChoice(v)
  {
    set x | x in v.members["values"].items
  }

  /** The write-in, or `undefined`. An object with no `other` of its own has none. */
  function WriteIn(v: Value): Lookup
    requires IsChoice(v)
  {
    if "other" in v.members then Property(v.members["other"]) else Undefined
  }

  /** `answersEqual` of `multi_choice`: sizes of the two sets, one inclusion, and the write-in. */
  predicate ChoicesEqual(a: Value, b: Value)
    requires IsChoice(a) && IsChoice(b)
  {
    && |Chosen(a)| == |Chosen(b)|
    && (forall x :: x in b.members["values"].items ==> x in Chosen(a))
    && WriteIn(a) == WriteIn(b)
  }

  /** Two choices are equal when the same values are chosen, in whatever order and however often,
      and the write-in is the same or absent from both. */
  lemma ChoicesEqualIsSetEquality(a: Value, b: Value)
    requires IsChoice(a) && IsChoice(b)
    ensures ChoicesEqual(a, b) <==> Chosen(a) == Chosen(b) && WriteIn(a) == WriteIn(b)
    ensures ChoicesEqual(a, b) <==> (
      && (forall x :: x in a.members["values"].items <==> x in b.members["values"].items)
      && ("other" in a.members <==> "other" in b.members)
      && ("other" in a.members ==> a.members["other"] == b.members["other"]))
  {
    if ChoicesEqual(a, b) {
      SubsetOfSameSize(Chosen(b), Chosen(a));
      forall x ensures x in a.members["values"].items <==> x in b.members["values"].items {
        assert x in Chosen(a) <==> x in Chosen(b);
      }
    }
    if forall x :: x in a.members["values"].items <==> x in b.members["values"].items {
      assert Chosen(a) == Chosen(b);
    }
  }

  // Answers.

  /** `formAnswersEqual`. `bySet` says that the question's type has its own comparison and its
      config parses; only `multi_choice` has one. */
  predicate FormAnswersEqual(bySet: bool, a: Lookup, b: Lookup) {
    var absentA := a.Undefined? || a.v == Null;
    var absentB := b.Undefined? || b.v == Null;
    if absentA || absentB then absentA && absentB
    else if bySet && IsChoice(a.v) && IsChoice(b.v) then ChoicesEqual(a.v, b.v)
    else FormJsonEqual(a.v, b.v)
  }

  predicate Plain(a: Lookup) {
    a.Property? ==> NoEmptyProto(a.v)
  }

  /** Although it switches comparison on what the schema accepts, it stays an equivalence. */
  lemma FormAnswersEqualEquivalence(bySet: bool, a: Lookup, b: Lookup, c: Lookup)
    requires Plain(a) && Plain(b) && Plain(c)
    ensures FormAnswersEqual(bySet, a, a)
    ensures FormAnswersEqual(bySet, a, b) <==> FormAnswersEqual(bySet, b, a)
    ensures FormAnswersEqual(bySet, a, b) && FormAnswersEqual(bySet, b, c) ==> FormAnswersEqual(bySet, a, c)
  {
    hide FormJsonEqual, NoEmptyProto, IsChoice, ChoicesEqual;
    Compared(bySet, a, a);
    Compared(bySet, a, b);
    Compared(bySet, b, a);
    Compared(bySet, b, c);
    Compared(bySet, a, c);
  }

  /** What an answer contributes to the comparison. */
  datatype Class = NoAnswer | Choice(chosen: set<Value>, other: Lookup) | Exactly(v: Value)

  function ClassOf(bySet: bool, a: Lookup): Class {
    if a.Undefined? || a.v == Null then NoAnswer
    else if bySet && IsChoice(a.v) then Choice(Chosen(a.v), WriteIn(a.v))
    else Exactly(a.v)
  }

  lemma PlainEqual(a: Value, b: Value)
    requires NoEmptyProto(a)
    ensures FormJsonEqual(a, b) <==> a == b
  {
    FormJsonEqualExact(a);
  }

  /** Two answers are the same when they fall in the same class. */
  lemma Compared(bySet: bool, a: Lookup, b: Lookup)
    requires Plain(a) && Plain(b)
    ensures FormAnswersEqual(bySet, a, b) <==> ClassOf(bySet, a) == ClassOf(bySet, b)
  {
    hide FormJsonEqual, NoEmptyProto, IsChoice, ChoicesEqual, Chosen, WriteIn;
    if a.Property? && b.Property? {
      PlainEqual(a.v, b.v);
      if IsChoice(a.v) && IsChoice(b.v) {
        ChoicesEqualIsSetEquality(a.v, b.v);
      }
    }
  }
}
