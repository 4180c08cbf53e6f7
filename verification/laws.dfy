/**
  Properties that relate several dictionary operations: round trips between
  adding and removing, the total member count, the emptiness sentinels, and
  the scenarios the tests exercise.
*/
module DictionaryLaws {
  import opened Wrappers
  import opened MultiValueDictionary

  // ---------------------------------------------------------------------
  // Round trips
  // ---------------------------------------------------------------------

  /** Removing what was just added gives back the original contents. */
  lemma AddThenRemove(d: Dict, key: string, member: string)
    requires Valid(d)
    requires Add(d, key, member).Success?
    ensures Remove(Add(d, key, member).value, key, member) == Success(d)
  {
    var d' := Add(d, key, member).value;
    if key in d {
      assert d[key] != {};
      assert d'[key] != {member};
      assert d'[key] - {member} == d[key];
      assert d'[key := d'[key] - {member}] == d;
    } else {
      assert d' - {key} == d;
    }
  }

  /** Adding back what was just removed gives back the original contents. */
  lemma RemoveThenAdd(d: Dict, key: string, member: string)
    requires Remove(d, key, member).Success?
    ensures Add(Remove(d, key, member).value, key, member) == Success(d)
  {
    var d' := Remove(d, key, member).value;
    if key in d' {
      assert d'[key] + {member} == d[key];
      assert d'[key := d'[key] + {member}] == d;
    } else {
      assert d[key] == {member};
      assert d'[key := {member}] == d;
    }
  }

  /**
    A second identical add throws "value already exists"; that a throwing call
    leaves the contents as they were is `Session.Apply`'s contract.
  */
  lemma AddTwiceFails(d: Dict, key: string, member: string)
    requires Add(d, key, member).Success?
    ensures Add(Add(d, key, member).value, key, member)
            == Failure(UnsupportedOperation(ValueAlreadyExists))
  {
  }

  // ---------------------------------------------------------------------
  // Total member count (the length of GetAllMembers)
  // ---------------------------------------------------------------------

  /** Keys with equal member sets contribute equal sums. */
  lemma {:induction false} SumOfSizesFrame(d: Dict, d': Dict, ks: set<string>)
    requires ks <= d.Keys && ks <= d'.Keys
    requires forall k :: k in ks ==> d[k] == d'[k]
    ensures SumOfSizes(d, ks) == SumOfSizes(d', ks)
    decreases ks
  {
    if ks != {} {
      var k :| k in ks;
      SumOfSizesRemove(d, ks, k);
      SumOfSizesRemove(d', ks, k);
      SumOfSizesFrame(d, d', ks - {k});
    }
  }

  /** A successful add grows the total member count by exactly one. */
  lemma AddGrowsTotal(d: Dict, key: string, member: string)
    requires Add(d, key, member).Success?
    ensures SumOfSizes(Add(d, key, member).value, Add(d, key, member).value.Keys)
            == SumOfSizes(d, d.Keys) + 1
  {
    var d' := Add(d, key, member).value;
    SumOfSizesRemove(d', d'.Keys, key);
    SumOfSizesFrame(d, d', d.Keys - {key});
    if key in d {
      assert d'.Keys == d.Keys;
      SumOfSizesRemove(d, d.Keys, key);
    } else {
      assert d'.Keys - {key} == d.Keys - {key} == d.Keys;
    }
  }

  /** A successful remove shrinks the total member count by exactly one. */
  lemma RemoveShrinksTotal(d: Dict, key: string, member: string)
    requires Remove(d, key, member).Success?
    ensures SumOfSizes(Remove(d, key, member).value, Remove(d, key, member).value.Keys) + 1
            == SumOfSizes(d, d.Keys)
  {
    var d' := Remove(d, key, member).value;
    RemoveThenAdd(d, key, member);
    AddGrowsTotal(d', key, member);
  }

  // ---------------------------------------------------------------------
  // Emptiness
  // ---------------------------------------------------------------------

  /**
    An empty dictionary answers the whole-store queries with the `None`
    sentinel but a lookup of a particular key with an exception.
  */
  lemma EmptyStoreAsymmetry(d: Dict, key: string, member: string)
    requires |d| == 0
    ensures GetKeys(d) == None && GetItems(d) == None
    ensures GetMembers(d, key) == Failure(NoSuchElement(KeyDoesNotExist))
    ensures !KeyExists(d, key) && !ValueExists(d, key, member)
  {
  }

  /** Clearing twice is clearing once, and afterwards every query sees an empty dictionary. */
  lemma ClearIdempotent(d: Dict)
    ensures Clear(Clear(d)) == Clear(d)
    ensures GetItems(Clear(d)) == None
  {
  }

  // ---------------------------------------------------------------------
  // Usage scenarios
  // ---------------------------------------------------------------------

  /** Adding a member to a fresh key and removing it again leaves no trace of the key. */
  lemma OnlyMemberRemovedDropsKey(d: Dict, key: string, member: string)
    requires key !in d
    ensures Add(d, key, member).Success?
    ensures var d1 := Add(d, key, member).value;
            && Remove(d1, key, member).Success?
            && !KeyExists(Remove(d1, key, member).value, key)
            && (GetItems(Remove(d1, key, member).value).Some? ==>
                  key !in GetItems(Remove(d1, key, member).value).value)
  {
  }

  /** With two members under a key, removing one leaves the key holding just the other. */
  lemma OtherMemberSurvives(d: Dict, key: string, m1: string, m2: string)
    requires key !in d && m1 != m2
    ensures Add(d, key, m1).Success?
    ensures Add(Add(d, key, m1).value, key, m2).Success?
    ensures var d2 := Add(Add(d, key, m1).value, key, m2).value;
            && Remove(d2, key, m1).Success?
            && KeyExists(Remove(d2, key, m1).value, key)
            && GetMembers(Remove(d2, key, m1).value, key) == Success({m2})
  {
  }

  /** The worked example: two keys sharing the member "bar". */
  function Example(): (d: Dict)
    ensures Valid(d)
    ensures d.Keys == {"foo", "baz"}
  {
    map["foo" := {"bar", "baz"}, "baz" := {"bar"}]
  }

  /** On the worked example the two keys share exactly "bar". */
  lemma ExampleIntersection()
    ensures Intersection(Example(), "foo", "baz") == {"bar"}
  {
  }

  /** On the worked example the flattened members are three, "bar" twice. */
  lemma ExampleAllMembers()
    ensures |KeysHolding(Example(), "bar")| == 2
    ensures |KeysHolding(Example(), "baz")| == 1
    ensures SumOfSizes(Example(), Example().Keys) == 3
  {
    var d := Example();
    assert KeysHolding(d, "bar") == {"foo", "baz"};
    assert KeysHolding(d, "baz") == {"foo"};
    SumOfSizesRemove(d, d.Keys, "foo");
    assert d.Keys - {"foo"} == {"baz"};
    SumOfSizesRemove(d, {"baz"}, "baz");
    assert |d["foo"]| == 2;
  }

  /** On the worked example: removing one member, then a whole key, then querying. */
  lemma ExampleRemovals()
    ensures Remove(Example(), "foo", "bar")
            == Success(map["foo" := {"baz"}, "baz" := {"bar"}])
    ensures RemoveAll(map["foo" := {"baz"}, "baz" := {"bar"}], "baz")
            == Success(map["foo" := {"baz"}])
    ensures ValueExists(map["foo" := {"baz"}], "foo", "baz")
    ensures !ValueExists(map["foo" := {"baz"}], "foo", "bar")
  {
    var d := Example();
    assert d["foo"] != {"bar"};
    assert d["foo"] - {"bar"} == {"baz"};
    assert d["foo" := {"baz"}] == map["foo" := {"baz"}, "baz" := {"bar"}];
    assert map["foo" := {"baz"}, "baz" := {"bar"}] - {"baz"} == map["foo" := {"baz"}];
  }

  // ---------------------------------------------------------------------
  // Intersection
  // ---------------------------------------------------------------------

  /** Intersection is symmetric, empty for an absent key, and a key meets itself in its own set. */
  lemma IntersectionLaws(d: Dict, a: string, b: string)
    ensures Intersection(d, a, b) == Intersection(d, b, a)
    ensures a !in d || b !in d ==> Intersection(d, a, b) == {}
    ensures a in d ==> Intersection(d, a, a) == d[a]
  {
  }
}
