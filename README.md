# TwoWayDictionary in Dafny

A model of the C# `TwoWayDictionary<T1, T2>`, a bijective dictionary. The class keeps two
ordinary dictionaries in step: `forward` maps T1 to T2, and `backward` maps T2 to T1. Its
class invariant says each map is the inverse of the other. Every mutator checks all its
guards before it changes anything, so a call that throws leaves both maps as they were.

Files:

- `Results.dfy` turns the exceptions into values. The `Error` datatype has the cases
  `DuplicateKey`, `DuplicateValue`, `KeyNotFound` and `ValueMismatch`. `Result<T>` is the
  outcome of a lookup and `Outcome` is the outcome of a mutator.
- `Bijection.dfy` states the class invariant over two maps (`Bijective`). It proves that
  the invariant survives a paired insert and a paired delete, that both directions have
  the same size, and that the keys of one direction are the values of the other.
- `TwoWayDictionary.dfy` holds the class itself: two `map` fields, the `Valid()`
  invariant and one method per mutator. Each method returns an `Outcome` where the source
  throws. The read-only members (`Count`, `Contains`, the indexer getters and the two
  views) are functions that read the object. The nested `Exposer` class becomes a datatype
  over one map. The file ends with client methods. They replay the source's test
  scenarios and show that `Remove` undoes `Add`.

C# overloads members on the parameter type. Here the T1-keyed member ends in `First` and
the T2-keyed one ends in `Second`, e.g. `Remove(T1)` is `RemoveFirst`. The indexer
`this[T1]` becomes `GetByFirst`/`SetByFirst`.

Inside the setters and the `Overwrite`s, the source runs `Add` (and, when needed, `Remove`)
after its own guards. The model proves that these calls cannot fail (the `assert ... ==
Pass` after each call). So a setter or `Overwrite` that passes its guards never stops
halfway.

Points where the code's behaviour is easy to misread:

- `Exposer.ContainsValue` calls `Dictionary.ContainsValue`, a search of its own map's
  values. `ViewsAgree` proves that under the invariant this equals a key lookup in the
  opposite map.
- The class comment (TwoWayDictionary.cs:24) says "in backward" twice in its second
  invariant item. The model reads the second occurrence as `forward`, which is what the
  code maintains.
- `Overwrite` on an absent key fails with `KeyNotFound`: `forward[key]` throws before the
  old-value comparison runs.
- A setter refuses to re-assign a key to the value it already has: its guard
  `Contains(value)` holds for that value.

## Model

| member | source | states |
|---|---|---|
| `Bijection.Flip` | TwoWayDictionary.cs:20-25 | the invariant is symmetric: `forward`/`backward` are inverse iff `backward`/`forward` are |
| `Bijection.Injective` | TwoWayDictionary.cs:9-10 | under the invariant no two T1 elements share a counterpart (each value is used at most once) |
| `Bijection.KeysAreValues` | Tests/TwoWayDictionaryTests.cs:457-459 | under the invariant, the forward keys are exactly the backward values and the backward keys exactly the forward values |
| `Bijection.InsertKeepsBijective` | TwoWayDictionary.cs:82-83 | inserting `t1 -> t2` forward and `t2 -> t1` backward, with both unpaired, keeps the invariant |
| `Bijection.DeleteKeepsBijective` | TwoWayDictionary.cs:90-92 | deleting `t1` forward and its counterpart backward keeps the invariant |
| `Bijection.SameSize` | Tests/TwoWayDictionaryTests.cs:447-450 | under the invariant both maps have the same number of pairs |
| `TwoWayDictionary.Exposer.Get` | TwoWayDictionary.cs:132-135 | a view lookup succeeds exactly for the view's keys, returns one of its values, and otherwise fails with `KeyNotFound` |
| `Bijection.Bijective` | TwoWayDictionary.cs:20-25 | the class invariant: every pair of `forward` appears reversed in `backward`, and every pair of `backward` appears reversed in `forward` |
| `TwoWayDictionary.TwoWayDictionary.Valid` | TwoWayDictionary.cs:20-25 | the object's invariant is `Bijective` on its two fields; every constructor and mutator establishes or keeps it |
| `TwoWayDictionary.Exposer.Count` | TwoWayDictionary.cs:137 | the number of keys of the view; `ViewsAgree` states its contract: both views' counts equal the dictionary's `Count` |
| `TwoWayDictionary.Exposer.Keys` | TwoWayDictionary.cs:139 | the key set of the view; `ViewsAgree` states its contract: the forward keys are the backward view's values and vice versa |
| `TwoWayDictionary.Exposer.Values` | TwoWayDictionary.cs:140 | the value set of the view; `ViewsAgree` states its contract: the forward values are the backward view's keys and vice versa |
| `TwoWayDictionary.Exposer.ContainsKey` | TwoWayDictionary.cs:142-145 | membership among the view's keys; `Exposer.Get` succeeds exactly for these, and `ViewsAgree` ties `Get` to the dictionary's getters |
| `TwoWayDictionary.Exposer.ContainsValue` | TwoWayDictionary.cs:147-150 | a search of the view's own values; `ViewsAgree` states its contract: it agrees with `Contains` on the opposite side |
| `TwoWayDictionary.TwoWayDictionary.constructor` | TwoWayDictionary.cs:39-45 | a new dictionary is empty in both directions and satisfies the invariant |
| `TwoWayDictionary.TwoWayDictionary.Forward` | TwoWayDictionary.cs:36-43 | the forward view's keys are the backward values, its values the backward keys, and its count is the size of `backward` |
| `TwoWayDictionary.TwoWayDictionary.Backward` | TwoWayDictionary.cs:37-44 | the backward view's keys are the forward values, its values the forward keys, and its count is the size of `forward` |
| `TwoWayDictionary.TwoWayDictionary.Count` | TwoWayDictionary.cs:47 | the count is the size of `forward` and also of `backward` |
| `TwoWayDictionary.TwoWayDictionary.ContainsFirst` | TwoWayDictionary.cs:49 | a T1 element is contained iff it is the counterpart of some T2 element |
| `TwoWayDictionary.TwoWayDictionary.ContainsSecond` | TwoWayDictionary.cs:50 | a T2 element is contained iff it is the counterpart of some T1 element |
| `TwoWayDictionary.TwoWayDictionary.GetByFirst` | TwoWayDictionary.cs:52-54 | the `this[T1]` getter succeeds iff the key is contained, its result maps back to the key in `backward`, and otherwise it fails with `KeyNotFound` |
| `TwoWayDictionary.TwoWayDictionary.GetBySecond` | TwoWayDictionary.cs:64-66 | the `this[T2]` getter succeeds iff the key is contained, its result maps back to the key in `forward`, and otherwise it fails with `KeyNotFound` |
| `TwoWayDictionary.TwoWayDictionary.SetByFirst` | TwoWayDictionary.cs:52-62 | fails with `DuplicateValue` and no change iff the value is already paired; otherwise the key's old pair is removed and its old counterpart is no longer contained, then `(index, value)` is added; `Count` is unchanged for an existing key and grows by one for a new key; the invariant is kept |
| `TwoWayDictionary.TwoWayDictionary.SetBySecond` | TwoWayDictionary.cs:64-74 | the mirror of `SetByFirst` for the `this[T2]` setter |
| `TwoWayDictionary.TwoWayDictionary.Add` | TwoWayDictionary.cs:76-84 | fails with `DuplicateKey` and no change iff either element is already paired; otherwise adds exactly the pair to both maps and `Count` grows by one; the invariant is kept |
| `TwoWayDictionary.TwoWayDictionary.RemoveFirst` | TwoWayDictionary.cs:86-93 | fails with `KeyNotFound` and no change iff `t1` is absent; otherwise deletes `t1` forward and its counterpart backward, neither is contained any more, and `Count` drops by one; the invariant is kept |
| `TwoWayDictionary.TwoWayDictionary.RemoveSecond` | TwoWayDictionary.cs:95-102 | the mirror of `RemoveFirst` for `Remove(T2)` |
| `TwoWayDictionary.TwoWayDictionary.OverwriteByFirst` | TwoWayDictionary.cs:104-111 | fails with no change on an absent key (`KeyNotFound`), a stale old value (`ValueMismatch`) or an already paired new value (`DuplicateValue`), in that order; otherwise the key maps to the new value, the old value is gone, the new value maps back to the key, and `Count` is unchanged; the invariant is kept |
| `TwoWayDictionary.TwoWayDictionary.OverwriteBySecond` | TwoWayDictionary.cs:113-120 | the mirror of `OverwriteByFirst` for the T2-keyed overload |
| `TwoWayDictionary.ViewsAgree` | TwoWayDictionary.cs:122-151 | the forward keys equal the backward view's values and vice versa; both view counts equal `Count`; a view's `ContainsValue` agrees with `Contains` on the other side; a view's lookup is the dictionary's indexer getter |
| `TwoWayDictionary.AddThenRemove` | TwoWayDictionary.cs:76-102 | a successful `Add` followed by `Remove` of either element restores both maps, and the invariant holds throughout |

## Left out

- The constructor's check that `T1` and `T2` are different types, which uses .NET
  reflection. The model is generic in two type parameters and does not reject equal ones.
- Null arguments and their `ArgumentNullException`s. Dafny type parameters have no null
  value.
- Exception types and messages. They are replaced by the `Error` cases.
- The enumeration order of `Keys` and `Values`. The views give them as sets.
- Custom `Equals`/`GetHashCode` overrides. Every dictionary lookup, insert and delete on
  `forward` and `backward` uses them (TwoWayDictionary.cs:49-50, 54, 66, 79-83, 90-92,
  99-101, 149), and so does `Overwrite`'s old-value comparison (:106, :115). The model's
  maps and comparisons use Dafny's built-in equality.
- Thread-safety. The source is single-threaded and says so.
- Aliasing of the views. In C#, `Forward` and `Backward` are objects that keep a live
  reference to the inner dictionaries. Here `Forward()` and `Backward()` return a value
  built from the current maps, so a view read after a mutation must be taken again.
- `Count` is a 32-bit `int` in C#. The model uses an unbounded `nat` and ignores the
  capacity limits of .NET dictionaries.
- The xUnit harness. The client methods `ScenarioAddRemove`, `ScenarioSetters` and
  `ScenarioOverwrite` replay its scenarios as verified assertions.
