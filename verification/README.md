# MultiValueDictionary in Dafny

This project models the `MultiValueDictionary` class of the Java multi-value
dictionary. The class is an in-memory store that maps string keys to sets of
unique string members. The model covers:

- the two constructors;
- the queries `getKeys`, `getMembers`, `keyExists`, `valueExists`,
  `getAllMembers` and `getItems`;
- the mutators `add`, `remove`, `removeAll` and `clear`.

The contents are an immutable `map<string, set<string>>` (`Dict`). Each
mutator is a pure function. It returns either the new contents or the
exception the Java method throws: `NoSuchElement` or `UnsupportedOperation`,
each carrying the exact message text ("key does not exist",
"value does not exist", "value already exists"). The Java `null` that the
whole-store queries return for an empty dictionary becomes `None`.

Files:

- `wrappers.dfy`: the `Option` and `Result` datatypes.
- `dictionary.dfy`: module `MultiValueDictionary`, with the contents, the
  invariant `Valid` (a present key never maps to an empty set), and every
  operation with its contract.
- `session.dfy`: module `Session`, the object's state after a sequence of
  mutator calls. A call that throws leaves the state as it was.
- `laws.dfy`: module `DictionaryLaws`, with the lemmas that relate several
  operations: the add/remove round trips, the total member count, the
  emptiness sentinels, the scenarios the tests exercise, and intersection.

The operations accept any map, as the Java methods do. Each mutator promises
that it preserves `Valid`. `Session.ReachableIsValid` proves that every
dictionary built from the empty one by any sequence of calls satisfies the
invariant.

`getAllMembers` is a method. It walks the keys, and the members of each key,
in an unspecified order, just as `HashMap`/`HashSet` iteration leaves the
order open. Its contract does not depend on that order:

- the length of the result is the total number of members;
- each string occurs once for every key whose set holds it.

## Model

| member | source | states |
|---|---|---|
| MultiValueDictionary.New | src/main/java/org/multivaluedictionary/MultiValueDictionary.java:23-25 | a new dictionary satisfies the invariant, has no keys, and its keys and items queries give the empty sentinel |
| MultiValueDictionary.FromMap | src/main/java/org/multivaluedictionary/MultiValueDictionary.java:31-33 | a dictionary built from an initial pairing reports exactly that pairing's keys and key/member pairs as existing |
| MultiValueDictionary.GetKeys | src/main/java/org/multivaluedictionary/MultiValueDictionary.java:39-45 | the sentinel is returned exactly when the dictionary is empty; otherwise the result holds exactly the keys for which keyExists is true |
| MultiValueDictionary.GetMembers | src/main/java/org/multivaluedictionary/MultiValueDictionary.java:53-58 | succeeds exactly when the key exists, and otherwise throws NoSuchElement("key does not exist"); the result holds exactly the members valueExists accepts under that key, and it is non-empty when the invariant holds |
| MultiValueDictionary.Add | src/main/java/org/multivaluedictionary/MultiValueDictionary.java:66-76 | throws UnsupportedOperation("value already exists") exactly when the member is already under the key; otherwise the key set grows by the key, a new key gets exactly {member}, an existing key's set gains the member and one element, other keys are untouched, and the invariant is kept |
| MultiValueDictionary.Remove | src/main/java/org/multivaluedictionary/MultiValueDictionary.java:85-97 | an absent key throws "key does not exist" before the member is looked at, and an absent member throws "value does not exist"; it succeeds exactly when the pair exists, afterwards the pair is gone, the key survives exactly when it had other members and then holds the rest, other keys are untouched, and the invariant is kept |
| MultiValueDictionary.RemoveAll | src/main/java/org/multivaluedictionary/MultiValueDictionary.java:104-110 | throws NoSuchElement("key does not exist") exactly when the key is absent; otherwise exactly that key leaves the key set, other keys are untouched, and the invariant is kept |
| MultiValueDictionary.Clear | src/main/java/org/multivaluedictionary/MultiValueDictionary.java:115-117 | afterwards no key exists, the keys and items queries give the empty sentinel, and the invariant holds |
| MultiValueDictionary.KeyExists | src/main/java/org/multivaluedictionary/MultiValueDictionary.java:124-129 | true exactly when the key is present; false on an empty dictionary; never throws |
| MultiValueDictionary.ValueExists | src/main/java/org/multivaluedictionary/MultiValueDictionary.java:137-142 | true exactly when the key is present and its set holds the member; implies keyExists; false on an empty dictionary; never throws |
| MultiValueDictionary.AppendMembers | src/main/java/org/multivaluedictionary/MultiValueDictionary.java:156 | appending a key's set adds one occurrence of each of its members and nothing else, so the list grows by the set's size |
| MultiValueDictionary.GetAllMembers | src/main/java/org/multivaluedictionary/MultiValueDictionary.java:148-159 | the sentinel is returned exactly when the dictionary is empty; otherwise the length is the sum of the set sizes, each string occurs once per key whose set holds it, and a string occurs at all exactly when some key holds it |
| MultiValueDictionary.GetItems | src/main/java/org/multivaluedictionary/MultiValueDictionary.java:165-170 | the sentinel is returned exactly when the dictionary is empty; otherwise the snapshot has exactly the existing keys and, under each, exactly the members valueExists accepts |
| MultiValueDictionary.SumOfSizesRemove | src/main/java/org/multivaluedictionary/MultiValueDictionary.java:154-157 | the total member count does not depend on the order in which keys are visited: any key can be taken out first |
| MultiValueDictionary.Intersection | src/test/java/org/multivaluedictionary/TestMultiValueDictionary.java:326-350 | a string is in the result exactly when it is a member under both keys |
| Session.Apply | src/main/java/org/multivaluedictionary/MultiValueDictionary.java:66-117 | a call that throws leaves the contents unchanged; every call keeps the invariant; clear empties the dictionary; the other mutators touch only their own key |
| Session.Run | src/main/java/org/multivaluedictionary/MultiValueDictionary.java:66-117 | a sequence of calls started from a dictionary that satisfies the invariant ends in one that satisfies it |
| Session.RunConcat | src/main/java/org/multivaluedictionary/MultiValueDictionary.java:66-117 | running two call sequences one after the other is the same as running their concatenation |
| Session.FailedCallIsNoOp | src/main/java/org/multivaluedictionary/MultiValueDictionary.java:66-110 | a call that throws anywhere in a session (each mutator validates before it mutates) can be deleted from the session without changing where it ends |
| Session.ReachableIsValid | src/main/java/org/multivaluedictionary/MultiValueDictionary.java:92-96 | every dictionary built from the empty one by any calls maps each present key to a non-empty set |
| DictionaryLaws.AddThenRemove | src/main/java/org/multivaluedictionary/MultiValueDictionary.java:66-97 | on a dictionary that satisfies the invariant, removing a member just added gives back the original contents |
| DictionaryLaws.RemoveThenAdd | src/main/java/org/multivaluedictionary/MultiValueDictionary.java:66-97 | adding back a member just removed gives back the original contents, also when the removal dropped the key |
| DictionaryLaws.AddTwiceFails | src/main/java/org/multivaluedictionary/MultiValueDictionary.java:66-69 | a second identical add throws "value already exists" |
| DictionaryLaws.SumOfSizesFrame | src/main/java/org/multivaluedictionary/MultiValueDictionary.java:154-157 | keys whose member sets agree contribute the same total count in two dictionaries |
| DictionaryLaws.AddGrowsTotal | src/main/java/org/multivaluedictionary/MultiValueDictionary.java:71-75 | a successful add grows the total member count, the length of getAllMembers, by exactly one |
| DictionaryLaws.RemoveShrinksTotal | src/main/java/org/multivaluedictionary/MultiValueDictionary.java:92-96 | a successful remove shrinks the total member count by exactly one, whether or not it drops the key |
| DictionaryLaws.EmptyStoreAsymmetry | src/main/java/org/multivaluedictionary/MultiValueDictionary.java:39-58 | on an empty dictionary the keys and items queries give the sentinel, getMembers throws "key does not exist", and both existence checks are false |
| DictionaryLaws.ClearIdempotent | src/main/java/org/multivaluedictionary/MultiValueDictionary.java:115-117 | clearing twice is the same as clearing once, and afterwards getItems gives the sentinel |
| DictionaryLaws.OnlyMemberRemovedDropsKey | src/test/java/org/multivaluedictionary/TestMultiValueDictionary.java:125-134 | adding a member under a new key and removing it again leaves the key absent from keyExists and from the items |
| DictionaryLaws.OtherMemberSurvives | src/test/java/org/multivaluedictionary/TestMultiValueDictionary.java:141-151 | after adding two distinct members under a new key and removing one, the key still exists and holds exactly the other |
| DictionaryLaws.ExampleIntersection | src/test/java/org/multivaluedictionary/TestMultiValueDictionary.java:326-337 | on {foo: {bar, baz}, baz: {bar}}, the intersection of foo and baz is exactly {bar} |
| DictionaryLaws.ExampleAllMembers | src/main/java/org/multivaluedictionary/MultiValueDictionary.java:148-159 | on {foo: {bar, baz}, baz: {bar}}, getAllMembers would list three strings, "bar" twice (once per key holding it) and "baz" once |
| DictionaryLaws.ExampleRemovals | src/main/java/org/multivaluedictionary/MultiValueDictionary.java:85-110 | on {foo: {bar, baz}, baz: {bar}}, removing bar from foo keeps foo with {baz}, then removing the key baz leaves {foo: {baz}}, where baz is a value of foo and bar is not |
| DictionaryLaws.IntersectionLaws | src/test/java/org/multivaluedictionary/TestMultiValueDictionary.java:326-350 | intersection is symmetric, is empty when either key is absent, and a key intersected with itself gives its own set |

## Left out

- `Application.java` is not part of this model. It is the console loop: it reads lines with a `Scanner`, splits them on spaces, dispatches to the dictionary and prints the results. It is I/O and formatting only.
- The `dictionary == null` state is not modelled. The second constructor accepts `null`, and then the queries give null, false or "key does not exist" while the mutators throw `NullPointerException`. The model's contents are always a map.
- Aliasing is not modelled. `getItems`, `getMembers` and `getKeys` return the live internal collections, and the second constructor keeps the caller's map by reference. The model returns value snapshots and takes the initial map by value, so no caller can mutate the contents behind the dictionary's back. It also rules out two keys sharing one `Set` object: in Java, a map such as `{x: s, y: s}` handed to the constructor would let `add("x", m)` put `m` under `y` as well, because `add` and `remove` change the set in place. The "other keys are untouched" clauses of `Add` and `Remove` hold only because the model stores values, not shared references.
- MultiValueDictionary.FromMap: requires the invariant of its argument, which the Java constructor does not check. A map with an empty member set can only come from a caller that builds one by hand, so the invariant is stated as the constructor's precondition.
- Iteration order is not modelled. The order of `HashMap` keys and `HashSet` members is left unspecified, so the model uses sets, and `getAllMembers` states its result as counts per string.
- Java `null` keys and members are not modelled. Keys and members are plain strings.
- MultiValueDictionary.Intersection: `getIntersection` is called by the tests but is not present in `MultiValueDictionary.java`. It is modelled from the tests' expectations as plain set intersection, with an absent key contributing no members.
- Keys and members may be any strings, including the empty string, because the Java code does not reject any.
