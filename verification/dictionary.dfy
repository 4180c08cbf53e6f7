/**
  The multi-value dictionary: string keys, each mapped to a set of unique
  string members. Every operation is a pure function of the current contents;
  a mutator returns the new contents or the exception the Java class throws,
  and a failed mutator never changes anything (check-then-act).
*/
module MultiValueDictionary {
  import opened Wrappers

  /** The contents of a dictionary: key -> member set. */
  type Dict = map<string, set<string>>

  /** The exceptions the dictionary throws, each with its message. */
  datatype StoreError =
    | NoSuchElement(message: string)
    | UnsupportedOperation(message: string)

  const KeyDoesNotExist: string := "key does not exist"
  const ValueDoesNotExist: string := "value does not exist"
  const ValueAlreadyExists: string := "value already exists"

  /** The structural invariant: a present key never maps to an empty set. */
  predicate Valid(d: Dict) {
    forall k :: k in d ==> d[k] != {}
  }

  /** `d'` agrees with `d` on every key other than `key`. */
  predicate SameExcept(d: Dict, d': Dict, key: string) {
    && (forall k :: k in d && k != key ==> k in d' && d'[k] == d[k])
    && (forall k :: k in d' && k != key ==> k in d)
  }

  // ---------------------------------------------------------------------
  // Construction
  // ---------------------------------------------------------------------

  /** The no-argument constructor: an empty dictionary. */
  function New(): (d: Dict)
    ensures Valid(d)
    ensures forall k :: !KeyExists(d, k)
    ensures GetKeys(d).None? && GetItems(d).None?
  {
    map[]
  }

  /**
    The constructor that adopts an initial pairing. The caller's map is taken
    as a value snapshot; the invariant is what callers must supply.
  */
  function FromMap(items: Dict): (d: Dict)
    requires Valid(items)
    ensures Valid(d)
    ensures forall k :: KeyExists(d, k) <==> k in items
    ensures forall k, m :: ValueExists(d, k, m) <==> k in items && m in items[k]
  {
    items
  }

  // ---------------------------------------------------------------------
  // Queries
  // ---------------------------------------------------------------------

  /** The key set, or `None` when the dictionary is empty. */
  function GetKeys(d: Dict): (r: Option<set<string>>)
    ensures r.None? <==> |d| == 0
    ensures r.Some? ==> forall k :: k in r.value <==> KeyExists(d, k)
  {
    if d == map[] || d.Keys == {} then None else Some(d.Keys)
  }

  /** The member set of `key`; a missing key raises "key does not exist". */
  function GetMembers(d: Dict, key: string): (r: Result<set<string>, StoreError>)
    ensures r.Success? <==> KeyExists(d, key)
    ensures r.Failure? ==> r.error == NoSuchElement(KeyDoesNotExist)
    ensures r.Success? ==> forall m :: m in r.value <==> ValueExists(d, key, m)
    ensures r.Success? && Valid(d) ==> r.value != {}
  {
    if d == map[] || key !in d then Failure(NoSuchElement(KeyDoesNotExist))
    else Success(d[key])
  }

  /** Whether `key` is present; never fails, false on an empty dictionary. */
  function KeyExists(d: Dict, key: string): (b: bool)
    ensures b <==> key in d
    ensures |d| == 0 ==> !b
  {
    if d == map[] then false else key in d
  }

  /** Whether `member` is present under `key`; never fails. */
  function ValueExists(d: Dict, key: string, member: string): (b: bool)
    ensures b <==> key in d && member in d[key]
    ensures b ==> KeyExists(d, key)
    ensures |d| == 0 ==> !b
  {
    if d == map[] || key !in d then false else member in d[key]
  }

  /** The whole pairing as a snapshot, or `None` when the dictionary is empty. */
  function GetItems(d: Dict): (r: Option<Dict>)
    ensures r.None? <==> |d| == 0
    ensures r.Some? ==> forall k :: k in r.value <==> KeyExists(d, k)
    ensures r.Some? ==> forall k, m :: k in r.value ==> (m in r.value[k] <==> ValueExists(d, k, m))
  {
    if d == map[] then None else Some(d)
  }

  // ---------------------------------------------------------------------
  // Mutators
  // ---------------------------------------------------------------------

  /**
    Adds `member` under `key`, creating the key with exactly `{member}` when
    it is absent. A member already present raises "value already exists".
  */
  function Add(d: Dict, key: string, member: string): (r: Result<Dict, StoreError>)
    ensures r.Failure? <==> ValueExists(d, key, member)
    ensures r.Failure? ==> r.error == UnsupportedOperation(ValueAlreadyExists)
    ensures r.Success? ==> r.value.Keys == d.Keys + {key}
    ensures r.Success? && key !in d ==> r.value[key] == {member}
    ensures r.Success? && key in d ==> r.value[key] == d[key] + {member}
    ensures r.Success? ==> |r.value[key]| == (if key in d then |d[key]| else 0) + 1
    ensures r.Success? ==> SameExcept(d, r.value, key)
    ensures r.Success? && Valid(d) ==> Valid(r.value)
  {
    if key in d && member in d[key] then
      Failure(UnsupportedOperation(ValueAlreadyExists))
    else if key in d then
      Success(d[key := d[key] + {member}])
    else
      Success(d[key := {member}])
  }

  /** A set that holds `x` and has more than one element is not `{x}`, and conversely. */
  lemma SingletonSize(s: set<string>, x: string)
    requires x in s
    ensures |s| > 1 <==> s != {x}
  {
    assert s == (s - {x}) + {x};
    if s != {x} {
      var y :| y in s && y != x;
      assert y in s - {x};
    }
  }

  /**
    Removes `member` from `key`. The key is checked first ("key does not
    exist"), the member second ("value does not exist"). Removing the last
    member removes the key itself.
  */
  function Remove(d: Dict, key: string, member: string): (r: Result<Dict, StoreError>)
    ensures key !in d ==> r == Failure(NoSuchElement(KeyDoesNotExist))
    ensures key in d && member !in d[key] ==> r == Failure(NoSuchElement(ValueDoesNotExist))
    ensures r.Success? <==> ValueExists(d, key, member)
    ensures r.Success? ==> !ValueExists(r.value, key, member)
    ensures r.Success? ==> (key in r.value <==> d[key] != {member})
    ensures r.Success? && key in r.value ==> r.value[key] == d[key] - {member}
    ensures r.Success? ==> SameExcept(d, r.value, key)
    ensures r.Success? && Valid(d) ==> Valid(r.value)
  {
    if key !in d then
      Failure(NoSuchElement(KeyDoesNotExist))
    else if member !in d[key] then
      Failure(NoSuchElement(ValueDoesNotExist))
    else
      SingletonSize(d[key], member);
      if |d[key]| > 1 then Success(d[key := d[key] - {member}])
      else Success(d - {key})
  }

  /** Removes `key` and all its members; a missing key raises "key does not exist". */
  function RemoveAll(d: Dict, key: string): (r: Result<Dict, StoreError>)
    ensures r.Failure? <==> !KeyExists(d, key)
    ensures r.Failure? ==> r.error == NoSuchElement(KeyDoesNotExist)
    ensures r.Success? ==> r.value.Keys == d.Keys - {key}
    ensures r.Success? ==> SameExcept(d, r.value, key)
    ensures r.Success? && Valid(d) ==> Valid(r.value)
  {
    if key !in d then Failure(NoSuchElement(KeyDoesNotExist))
    else Success(d - {key})
  }

  /** Empties the dictionary; always succeeds. */
  function Clear(d: Dict): (r: Dict)
    ensures Valid(r)
    ensures forall k :: !KeyExists(r, k)
    ensures GetKeys(r).None? && GetItems(r).None?
  {
    map[]
  }

  // ---------------------------------------------------------------------
  // Flattening all members
  // ---------------------------------------------------------------------

  /** The keys whose member set holds `member`. */
  ghost function KeysHolding(d: Dict, member: string): set<string> {
    set k | k in d && member in d[k]
  }

  /** The total number of members under the keys `ks`, in no particular order. */
  ghost function SumOfSizes(d: Dict, ks: set<string>): nat
    requires ks <= d.Keys
    decreases ks
  {
    if ks == {} then 0
    else
      var k :| k in ks;
      |d[k]| + SumOfSizes(d, ks - {k})
  }

  /** The sum does not depend on which key is taken out first. */
  lemma {:induction false} SumOfSizesRemove(d: Dict, ks: set<string>, j: string)
    requires ks <= d.Keys && j in ks
    ensures SumOfSizes(d, ks) == |d[j]| + SumOfSizes(d, ks - {j})
    decreases ks
  {
    var k :| k in ks && SumOfSizes(d, ks) == |d[k]| + SumOfSizes(d, ks - {k});
    if k != j {
      SumOfSizesRemove(d, ks - {k}, j);
      SumOfSizesRemove(d, ks - {j}, k);
      assert ks - {k} - {j} == ks - {j} - {k};
    }
  }

  /** Appends every element of `s`, in unspecified order, to `prefix`. */
  method AppendMembers(prefix: seq<string>, s: set<string>) returns (r: seq<string>)
    ensures |r| == |prefix| + |s|
    ensures forall m :: multiset(r)[m] == multiset(prefix)[m] + (if m in s then 1 else 0)
  {
    r := prefix;
    var left := s;
    while left != {}
      invariant left <= s
      invariant |r| == |prefix| + |s - left|
      invariant forall m :: multiset(r)[m] == multiset(prefix)[m] + (if m in s - left then 1 else 0)
      decreases left
    {
      var x :| x in left;
      assert s - (left - {x}) == (s - left) + {x};
      r := r + [x];
      left := left - {x};
    }
    assert s - left == s;
  }

  /** Moving `k` from pending to done adds the size of its member set. */
  lemma SizeStep(d: Dict, pending: set<string>, k: string)
    requires pending <= d.Keys && k in pending
    ensures SumOfSizes(d, d.Keys - (pending - {k})) == SumOfSizes(d, d.Keys - pending) + |d[k]|
  {
    var done := d.Keys - (pending - {k});
    SumOfSizesRemove(d, done, k);
    assert done - {k} == d.Keys - pending;
  }

  /** `all` holds each member once per key whose set holds it, over the keys not in `pending`. */
  ghost predicate CountsOutside(d: Dict, all: seq<string>, pending: set<string>) {
    forall m :: multiset(all)[m] == |KeysHolding(d, m) - pending|
  }

  /** Taking `k` out of the pending keys adds one holder of `m` exactly when `d[k]` holds `m`. */
  lemma HoldingStep(d: Dict, pending: set<string>, k: string, m: string)
    requires k in pending && k in d
    ensures |KeysHolding(d, m) - (pending - {k})|
            == |KeysHolding(d, m) - pending| + (if m in d[k] then 1 else 0)
  {
    if m in d[k] {
      assert KeysHolding(d, m) - (pending - {k}) == (KeysHolding(d, m) - pending) + {k};
    } else {
      assert KeysHolding(d, m) - (pending - {k}) == KeysHolding(d, m) - pending;
    }
  }

  /** Appending the members of `d[k]` moves `k` from pending to counted. */
  lemma CountsStep(d: Dict, pending: set<string>, k: string, before: seq<string>, after: seq<string>)
    requires k in pending && k in d
    requires CountsOutside(d, before, pending)
    requires forall m :: multiset(after)[m] == multiset(before)[m] + (if m in d[k] then 1 else 0)
    ensures CountsOutside(d, after, pending - {k})
  {
    forall m ensures multiset(after)[m] == |KeysHolding(d, m) - (pending - {k})| {
      HoldingStep(d, pending, k, m);
    }
  }

  /**
    Every member under every key, in unspecified order, or `None` when the
    dictionary is empty. A member shared by several keys occurs once per key.
  */
  method GetAllMembers(d: Dict) returns (r: Option<seq<string>>)
    ensures r.None? <==> |d| == 0
    ensures r.Some? ==> |r.value| == SumOfSizes(d, d.Keys)
    ensures r.Some? ==> forall m :: multiset(r.value)[m] == |KeysHolding(d, m)|
    ensures r.Some? ==> forall m :: m in r.value <==> exists k :: ValueExists(d, k, m)
  {
    if d == map[] || d.Keys == {} {
      return None;
    }
    var all: seq<string> := [];
    var pending := d.Keys;
    while pending != {}
      invariant pending <= d.Keys
      invariant |all| == SumOfSizes(d, d.Keys - pending)
      invariant CountsOutside(d, all, pending)
      decreases pending
    {
      var k :| k in pending;
      SizeStep(d, pending, k);
      var next := AppendMembers(all, d[k]);
      CountsStep(d, pending, k, all, next);
      all := next;
      pending := pending - {k};
    }
    assert d.Keys - pending == d.Keys;
    forall m ensures multiset(all)[m] == |KeysHolding(d, m)| {
      assert KeysHolding(d, m) - pending == KeysHolding(d, m);
    }
    forall m ensures m in all <==> exists k :: ValueExists(d, k, m) {
      assert m in all <==> multiset(all)[m] > 0;
      if m in all {
        var k :| k in KeysHolding(d, m);
        assert ValueExists(d, k, m);
      } else {
        assert KeysHolding(d, m) == {};
      }
    }
    return Some(all);
  }

  // ---------------------------------------------------------------------
  // Intersection
  // ---------------------------------------------------------------------

  /** The members two keys share; an absent key contributes no members. */
  function Intersection(d: Dict, a: string, b: string): (r: set<string>)
    ensures forall m :: m in r <==> ValueExists(d, a, m) && ValueExists(d, b, m)
  {
    var sa := if a in d then d[a] else {};
    var sb := if b in d then d[b] else {};
    sa * sb
  }
}
