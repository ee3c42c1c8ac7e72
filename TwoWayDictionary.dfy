/**
 * A bijective dictionary: two maps, `forward: T1 -> T2` and `backward: T2 -> T1`, kept
 * inverse to each other by every mutator, with read-only views over either map.
 *
 * The source overloads `Contains`, `Remove`, `Overwrite` and the indexer on the parameter
 * type; here the T1-keyed member ends in `First` and the T2-keyed one in `Second`.
 * Exceptions become `Outcome`/`Result` values; every mutator checks all its guards
 * before it changes anything, so a refused call leaves the dictionary as it was.
 */
module TwoWayDictionary {
  import opened Results
  import opened Bijection

  /** A read-only view over one of the dictionary's two maps (the source's `Exposer`). */
  datatype Exposer<K(==), V(==)> = Exposer(dict: map<K, V>) {

    /** Indexed lookup: found exactly for the keys of this view, and the value found is one of its values. */
    function Get(index: K): (r: Result<V>)
      ensures r.Ok? <==> ContainsKey(index)
      ensures r.Ok? ==> ContainsValue(r.value)
      ensures r.Err? ==> r.error == KeyNotFound
    {
      if index in dict then Ok(dict[index]) else Err(KeyNotFound)
    }

    function Count(): (n: nat) {
      |dict|
    }

    function Keys(): (s: set<K>) {
      dict.Keys
    }

    /** The values as a set: the source's collection is in the underlying map's enumeration order. */
    function Values(): (s: set<V>) {
      dict.Values
    }

    predicate ContainsKey(key: K) {
      key in dict
    }

    /** A search among this view's own values, as the underlying map's `ContainsValue` does. */
    predicate ContainsValue(value: V) {
      value in dict.Values
    }
  }

  class TwoWayDictionary<T1(==), T2(==)> {
    var forward: map<T1, T2>
    var backward: map<T2, T1>

    /** The class invariant: each map is the inverse of the other. */
    ghost predicate Valid()
      reads this
    {
      Bijective(forward, backward)
    }

    constructor ()
      ensures Valid()
      ensures forward == map[] && backward == map[]
    {
      forward := map[];
      backward := map[];
    }

    /** The view over `forward`: its keys are the backward values, its values the backward keys. */
    function Forward(): (v: Exposer<T1, T2>)
      reads this
      requires Valid()
      ensures v.Keys() == backward.Values && v.Values() == backward.Keys
      ensures v.Count() == |backward|
    {
      KeysAreValues(forward, backward);
      SameSize(forward, backward);
      Exposer(forward)
    }

    /** The view over `backward`: its keys are the forward values, its values the forward keys. */
    function Backward(): (v: Exposer<T2, T1>)
      reads this
      requires Valid()
      ensures v.Keys() == forward.Values && v.Values() == forward.Keys
      ensures v.Count() == |forward|
    {
      KeysAreValues(forward, backward);
      SameSize(forward, backward);
      Exposer(backward)
    }

    /** The number of pairs: the size of `forward`, which is also the size of `backward`. */
    function Count(): (n: nat)
      reads this
      requires Valid()
      ensures n == |forward| && n == |backward|
    {
      SameSize(forward, backward);
      |forward|
    }

    /** Whether `t1` is paired; it is exactly when `t1` is the counterpart of some T2. */
    function ContainsFirst(t1: T1): (b: bool)
      reads this
      requires Valid()
      ensures b <==> t1 in backward.Values
    {
      KeysAreValues(forward, backward);
      t1 in forward
    }

    /** Whether `t2` is paired; it is exactly when `t2` is the counterpart of some T1. */
    function ContainsSecond(t2: T2): (b: bool)
      reads this
      requires Valid()
      ensures b <==> t2 in forward.Values
    {
      KeysAreValues(forward, backward);
      t2 in backward
    }

    /** The getter of `this[T1]`: the counterpart of `index`, which maps back to `index`. */
    function GetByFirst(index: T1): (r: Result<T2>)
      reads this
      requires Valid()
      ensures r.Ok? <==> ContainsFirst(index)
      ensures r.Ok? ==> r.value in backward && backward[r.value] == index
      ensures r.Err? ==> r.error == KeyNotFound
    {
      if index in forward then Ok(forward[index]) else Err(KeyNotFound)
    }

    /** The getter of `this[T2]`: the counterpart of `index`, which maps back to `index`. */
    function GetBySecond(index: T2): (r: Result<T1>)
      reads this
      requires Valid()
      ensures r.Ok? <==> ContainsSecond(index)
      ensures r.Ok? ==> r.value in forward && forward[r.value] == index
      ensures r.Err? ==> r.error == KeyNotFound
    {
      if index in backward then Ok(backward[index]) else Err(KeyNotFound)
    }

    /** Strict insertion: refused when either element is already paired. */
    method Add(t1: T1, t2: T2) returns (r: Outcome)
      requires Valid()
      modifies this
      ensures Valid()
      ensures r == if t1 in old(forward) || t2 in old(backward) then Fail(DuplicateKey) else Pass
      ensures r.Fail? ==> unchanged(this)
      ensures r.Pass? ==> forward == old(forward)[t1 := t2] && backward == old(backward)[t2 := t1]
      ensures r.Pass? ==> Count() == old(Count()) + 1
    {
      if t1 in forward {
        return Fail(DuplicateKey);
      }
      if t2 in backward {
        return Fail(DuplicateKey);
      }
      InsertKeepsBijective(forward, backward, t1, t2);
      forward := forward[t1 := t2];
      backward := backward[t2 := t1];
      return Pass;
    }

    /** `Remove(T1)`: deletes `t1` and its counterpart; refused when `t1` is not paired. */
    method RemoveFirst(t1: T1) returns (r: Outcome)
      requires Valid()
      modifies this
      ensures Valid()
      ensures r == if t1 in old(forward) then Pass else Fail(KeyNotFound)
      ensures r.Fail? ==> unchanged(this)
      ensures r.Pass? ==> forward == old(forward) - {t1} && backward == old(backward) - {old(forward)[t1]}
      ensures r.Pass? ==> !ContainsFirst(t1) && !ContainsSecond(old(forward)[t1])
      ensures r.Pass? ==> Count() == old(Count()) - 1
    {
      if t1 !in forward {
        return Fail(KeyNotFound);
      }
      var t2 := forward[t1];
      DeleteKeepsBijective(forward, backward, t1);
      forward := forward - {t1};
      backward := backward - {t2};
      return Pass;
    }

    /** `Remove(T2)`: deletes `t2` and its counterpart; refused when `t2` is not paired. */
    method RemoveSecond(t2: T2) returns (r: Outcome)
      requires Valid()
      modifies this
      ensures Valid()
      ensures r == if t2 in old(backward) then Pass else Fail(KeyNotFound)
      ensures r.Fail? ==> unchanged(this)
      ensures r.Pass? ==> backward == old(backward) - {t2} && forward == old(forward) - {old(backward)[t2]}
      ensures r.Pass? ==> !ContainsSecond(t2) && !ContainsFirst(old(backward)[t2])
      ensures r.Pass? ==> Count() == old(Count()) - 1
    {
      if t2 !in backward {
        return Fail(KeyNotFound);
      }
      var t1 := backward[t2];
      Flip(forward, backward);
      DeleteKeepsBijective(backward, forward, t2);
      Flip(forward - {t1}, backward - {t2});
      backward := backward - {t2};
      forward := forward - {t1};
      return Pass;
    }

    /**
     * The setter of `this[T1]` (an upsert): refused when `value` is already paired, even
     * with `index` itself; otherwise any pair of `index` is removed and `(index, value)` added.
     */
    method SetByFirst(index: T1, value: T2) returns (r: Outcome)
      requires Valid()
      modifies this
      ensures Valid()
      ensures r == if value in old(backward) then Fail(DuplicateValue) else Pass
      ensures r.Fail? ==> unchanged(this)
      ensures r.Pass? ==> forward == old(forward)[index := value]
      ensures r.Pass? ==>
        backward == (if index in old(forward) then old(backward) - {old(forward)[index]} else old(backward))[value := index]
      ensures r.Pass? ==> GetByFirst(index) == Ok(value)
      ensures r.Pass? && index in old(forward) ==> !ContainsSecond(old(forward)[index]) && Count() == old(Count())
      ensures r.Pass? && index !in old(forward) ==> Count() == old(Count()) + 1
    {
      if ContainsSecond(value) {
        return Fail(DuplicateValue);
      }
      if ContainsFirst(index) {
        var removed := RemoveFirst(index);
        assert removed == Pass;
      }
      var added := Add(index, value);
      assert added == Pass;
      return Pass;
    }

    /**
     * The setter of `this[T2]` (an upsert): refused when `value` is already paired, even
     * with `index` itself; otherwise any pair of `index` is removed and `(value, index)` added.
     */
    method SetBySecond(index: T2, value: T1) returns (r: Outcome)
      requires Valid()
      modifies this
      ensures Valid()
      ensures r == if value in old(forward) then Fail(DuplicateValue) else Pass
      ensures r.Fail? ==> unchanged(this)
      ensures r.Pass? ==> backward == old(backward)[index := value]
      ensures r.Pass? ==>
        forward == (if index in old(backward) then old(forward) - {old(backward)[index]} else old(forward))[value := index]
      ensures r.Pass? ==> GetBySecond(index) == Ok(value)
      ensures r.Pass? && index in old(backward) ==> !ContainsFirst(old(backward)[index]) && Count() == old(Count())
      ensures r.Pass? && index !in old(backward) ==> Count() == old(Count()) + 1
    {
      if ContainsFirst(value) {
        return Fail(DuplicateValue);
      }
      if ContainsSecond(index) {
        var removed := RemoveSecond(index);
        assert removed == Pass;
      }
      var added := Add(value, index);
      assert added == Pass;
      return Pass;
    }

    /**
     * `Overwrite(T1 key, T2 newValue, T2 oldValue)`, a compare-and-swap: replaces the
     * counterpart of `key` only when it is `oldValue` and `newValue` is not yet paired.
     */
    method OverwriteByFirst(key: T1, newValue: T2, oldValue: T2) returns (r: Outcome)
      requires Valid()
      modifies this
      ensures Valid()
      ensures r ==
        if key !in old(forward) then Fail(KeyNotFound)
        else if old(forward)[key] != oldValue then Fail(ValueMismatch)
        else if newValue in old(backward) then Fail(DuplicateValue)
        else Pass
      ensures r.Fail? ==> unchanged(this)
      ensures r.Pass? ==> forward == old(forward)[key := newValue]
      ensures r.Pass? ==> backward == (old(backward) - {oldValue})[newValue := key]
      ensures r.Pass? ==> GetByFirst(key) == Ok(newValue) && !ContainsSecond(oldValue) && Count() == old(Count())
    {
      if key !in forward {
        return Fail(KeyNotFound);
      }
      if forward[key] != oldValue {
        return Fail(ValueMismatch);
      }
      if newValue in backward {
        return Fail(DuplicateValue);
      }
      var removed := RemoveFirst(key);
      assert removed == Pass;
      var added := Add(key, newValue);
      assert added == Pass;
      return Pass;
    }

    /**
     * `Overwrite(T2 key, T1 newValue, T1 oldValue)`, a compare-and-swap: replaces the
     * counterpart of `key` only when it is `oldValue` and `newValue` is not yet paired.
     */
    method OverwriteBySecond(key: T2, newValue: T1, oldValue: T1) returns (r: Outcome)
      requires Valid()
      modifies this
      ensures Valid()
      ensures r ==
        if key !in old(backward) then Fail(KeyNotFound)
        else if old(backward)[key] != oldValue then Fail(ValueMismatch)
        else if newValue in old(forward) then Fail(DuplicateValue)
        else Pass
      ensures r.Fail? ==> unchanged(this)
      ensures r.Pass? ==> backward == old(backward)[key := newValue]
      ensures r.Pass? ==> forward == (old(forward) - {oldValue})[newValue := key]
      ensures r.Pass? ==> GetBySecond(key) == Ok(newValue) && !ContainsFirst(oldValue) && Count() == old(Count())
    {
      if key !in backward {
        return Fail(KeyNotFound);
      }
      if backward[key] != oldValue {
        return Fail(ValueMismatch);
      }
      if newValue in forward {
        return Fail(DuplicateValue);
      }
      var removed := RemoveSecond(key);
      assert removed == Pass;
      var added := Add(newValue, key);
      assert added == Pass;
      return Pass;
    }
  }

  /**
   * The views agree with the dictionary and with each other: membership of a value in one
   * view is membership of a key in the opposite direction, and lookups through a view are
   * the dictionary's own lookups.
   */
  lemma ViewsAgree<T1, T2>(d: TwoWayDictionary<T1, T2>)
    requires d.Valid()
    ensures d.Forward().Keys() == d.Backward().Values() && d.Backward().Keys() == d.Forward().Values()
    ensures d.Forward().Count() == d.Count() && d.Backward().Count() == d.Count()
    ensures forall y :: d.Forward().ContainsValue(y) <==> d.ContainsSecond(y)
    ensures forall x :: d.Backward().ContainsValue(x) <==> d.ContainsFirst(x)
    ensures forall x :: d.Forward().Get(x) == d.GetByFirst(x)
    ensures forall y :: d.Backward().Get(y) == d.GetBySecond(y)
  {
  }

  /** `RemoveFirst` undoes a successful `Add`, and `RemoveSecond` does too. */
  method AddThenRemove<T1, T2>(d: TwoWayDictionary<T1, T2>, t1: T1, t2: T2, bySecond: bool)
    requires d.Valid()
    modifies d
    ensures d.Valid()
    ensures d.forward == old(d.forward) && d.backward == old(d.backward)
  {
    var added := d.Add(t1, t2);
    if added == Pass {
      var removed: Outcome;
      if bySecond {
        removed := d.RemoveSecond(t2);
      } else {
        removed := d.RemoveFirst(t1);
      }
      assert removed == Pass;
      assert d.forward == old(d.forward);
    }
  }

  /** Strict adds and removes over `(int, string)` pairs, following the source's tests. */
  method ScenarioAddRemove() {
    var d := new TwoWayDictionary<int, string>();
    var r := d.Add(0, "a");
    assert r == Pass;
    r := d.Add(10, "b");
    assert r == Pass;
    assert d.Count() == 2 && d.GetByFirst(0) == Ok("a") && d.GetBySecond("b") == Ok(10);

    // a second strict Add of a paired element is refused, whichever side repeats
    r := d.Add(0, "c");
    assert r == Fail(DuplicateKey) && d.Count() == 2;
    r := d.Add(1, "a");
    assert r == Fail(DuplicateKey) && d.Count() == 2;

    r := d.RemoveFirst(0);
    assert r == Pass;
    assert d.Count() == 1 && !d.ContainsFirst(0) && !d.ContainsSecond("a");
    r := d.RemoveSecond("a");
    assert r == Fail(KeyNotFound) && d.Count() == 1;
  }

  /** The two setters: an upsert that frees the old counterpart, and the refusals. */
  method ScenarioSetters() {
    var d := new TwoWayDictionary<int, string>();
    var r := d.Add(0, "a");
    r := d.Add(10, "b");
    r := d.SetByFirst(10, "z");
    assert r == Pass;
    assert d.GetByFirst(10) == Ok("z") && !d.ContainsSecond("b") && d.Count() == 2;
    r := d.Add(10, "z");
    assert r == Fail(DuplicateKey) && d.GetByFirst(10) == Ok("z");

    // re-assigning a key to its current value is refused, and so is claiming a paired value
    r := d.SetByFirst(10, "z");
    assert r == Fail(DuplicateValue);
    r := d.SetByFirst(0, "z");
    assert r == Fail(DuplicateValue) && d.GetByFirst(0) == Ok("a");
    r := d.SetBySecond("z", 7);
    assert r == Pass;
    assert d.GetBySecond("z") == Ok(7) && !d.ContainsFirst(10) && d.Count() == 2;
  }

  /** Both overwrites: a stale old value is refused, a current one is replaced. */
  method ScenarioOverwrite() {
    var d := new TwoWayDictionary<int, string>();
    var r := d.Add(7, "z");
    r := d.OverwriteByFirst(7, "y", "q");
    assert r == Fail(ValueMismatch) && d.GetByFirst(7) == Ok("z");
    r := d.OverwriteByFirst(7, "z", "z");
    assert r == Fail(DuplicateValue);
    r := d.OverwriteByFirst(7, "y", "z");
    assert r == Pass;
    assert d.GetBySecond("y") == Ok(7) && !d.ContainsSecond("z");
    r := d.OverwriteBySecond("y", 8, 7);
    assert r == Pass;
    assert d.GetByFirst(8) == Ok("y") && !d.ContainsFirst(7) && d.Count() == 1;
    assert d.Forward().Keys() == {8} && d.Backward().Keys() == {"y"};
  }
}
