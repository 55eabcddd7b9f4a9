/** The worked example: a `Person` record that opts into the derivation by
    declaring its member map (`gender`, then `age`), and the facts about two
    persons that the example asserts. */
module PersonExample {
  import opened Maybe
  import Seq = Sequences
  import opened AssociativeUdt

  datatype Gender = Male | Female

  datatype Person = Person(gender: Gender, age: int)

  /** The symbolic keys standing for the two members. */
  datatype Key = GenderKey | AgeKey

  /** A field value: the members have different types. */
  datatype Value = GenderValue(gender: Gender) | AgeValue(age: int)

  /** The member map of `Person`: `gender` first, then `age`. */
  function PersonMap(): (m: MemberMap<Key, Person, Value>)
    ensures |m| == 2 && DistinctKeys(m)
    ensures forall p: Person :: FieldValues(m, p) == [GenderValue(p.gender), AgeValue(p.age)]
  {
    [(GenderKey, (p: Person) => GenderValue(p.gender)), (AgeKey, (p: Person) => AgeValue(p.age))]
  }

  const Louis := Person(Male, 22)
  const Rose := Person(Female, 21)

  /** The derived equality on persons is exactly equality of both members. */
  lemma PersonEqualIff(p: Person, q: Person)
    ensures Equal(PersonMap(), p, q) <==> p == q
  {
    var m := PersonMap();
    if Equal(m, p, q) {
      assert m[0].1(p) == m[0].1(q) && m[1].1(p) == m[1].1(q);
    }
  }

  /** `not_equal(louis, rose)`. */
  lemma LouisIsNotRose()
    ensures NotEqual(PersonMap(), Louis, Rose)
  {
    PersonEqualIff(Louis, Rose);
  }

  /** `foldr(cons, list(), louis) == list(male, 22)`. */
  lemma FoldrConsLouis()
    ensures Foldr(PersonMap(), Seq.Cons, [], Louis) == [GenderValue(Male), AgeValue(22)]
  {
    FoldrConsIsFieldValues(PersonMap(), Louis);
  }

  /** `lookup(gender, louis) == just(male)` and `lookup(age, louis) == just(22)`. */
  lemma LookupLouis()
    ensures Lookup(PersonMap(), GenderKey, Louis) == Some(GenderValue(Male))
    ensures Lookup(PersonMap(), AgeKey, Louis) == Some(AgeValue(22))
  {
    LookupDeclared(PersonMap(), 0, Louis);
    LookupDeclared(PersonMap(), 1, Louis);
  }

  /** Converting any person yields the map of its two members. */
  lemma ToMapPerson(p: Person)
    ensures ToMap(PersonMap(), p) == map[GenderKey := GenderValue(p.gender), AgeKey := AgeValue(p.age)]
  {
    var m := PersonMap();
    var expected := map[GenderKey := GenderValue(p.gender), AgeKey := AgeValue(p.age)];
    assert m[0].0 == GenderKey && m[1].0 == AgeKey;
    assert (set i | 0 <= i < |m| :: m[i].0) == {GenderKey, AgeKey};
    ToMapIsFieldMap(m, p, expected);
  }

  /** `to<Map>(louis) == map(pair(gender, male), pair(age, 22))`. */
  lemma ToMapLouis()
    ensures ToMap(PersonMap(), Louis) == map[GenderKey := GenderValue(Male), AgeKey := AgeValue(22)]
  {
    ToMapPerson(Louis);
  }
}
