/** A multimap whose values come in classes: a key has at most one representative of
    each class. Every operation is one atomic callback on the table. */
module Multimap {
  import opened Bytes

  /** An unordered_set of values, by the class that its hash and equality look at. */
  type Values<C, V> = map<C, V>

  datatype Category<C, V> = Category(items: Values<C, V>, expires: int)

  type Table<K, C, V> = map<K, Category<C, V>>

  /** Values come with their class; times are what the clock says at the call. */
  datatype Op<K, C, V> =
    | InsertOrAssign(k: K, c: C, v: V, now: int)
    | Insert(k: K, c: C, v: V, now: int)
    | Update(k: K, c: C, v: V)
    | EraseKey(k: K)
    | EraseValue(k: K, c: C)
    | UpdateExpiration(k: K, time: int)

  function Get<K, C, V>(t: Table<K, C, V>, k: K, c: C): (r: Option<V>) {
    if k in t && c in t[k].items then Some(t[k].items[c]) else None
  }

  function Expiry<K, C, V>(t: Table<K, C, V>, k: K): (r: Option<int>) {
    if k in t then Some(t[k].expires) else None
  }

  ghost predicate NoEmptyCategory<K, C, V>(t: Table<K, C, V>) {
    forall k <- t :: t[k].items != map[]
  }

  class ConcurrentMultimap<K(==), C(==), V> {
    var data: Table<K, C, V>

    constructor ()
      ensures data == map[]
    {
      data := map[];
    }

    /** The set's emplace: an equal value already there stays. */
    static function Emplaced(items: Values<C, V>, c: C, v: V): (r: Values<C, V>) {
      if c in items then items else items[c := v]
    }

    method DoInsertOrAssign(k: K, c: C, v: V, now: int) returns (inserted: bool)
      modifies this
      ensures data == After(old(data), InsertOrAssign(k, c, v, now))
      ensures inserted <==> Get(old(data), k, c).None?
    {
      inserted := true;
      if k in data {
        var items := data[k].items;
        if c in items {
          inserted := false;
          items := items - {c};
        }
        items := Emplaced(items, c, v);
        assert items == data[k].items[c := v];
        data := data[k := data[k].(items := items)];
      } else {
        data := data[k := Category(map[c := v], now)];
      }
    }

    method DoInsert(k: K, c: C, v: V, now: int) returns (inserted: bool)
      modifies this
      ensures data == After(old(data), Insert(k, c, v, now))
      ensures inserted <==> Get(old(data), k, c).None?
    {
      inserted := true;
      if k in data {
        inserted := c !in data[k].items;
        data := data[k := data[k].(items := Emplaced(data[k].items, c, v))];
      } else {
        data := data[k := Category(map[c := v], now)];
      }
    }

    method DoUpdate(k: K, c: C, v: V) returns (updated: bool)
      modifies this
      ensures data == After(old(data), Update(k, c, v))
      ensures updated <==> Get(old(data), k, c).Some?
    {
      updated := false;
      if k in data && c in data[k].items {
        updated := true;
        assert Emplaced(data[k].items - {c}, c, v) == data[k].items[c := v];
        data := data[k := data[k].(items := Emplaced(data[k].items - {c}, c, v))];
      }
    }

    method DoEraseKey(k: K) returns (erased: nat)
      modifies this
      ensures data == After(old(data), EraseKey(k))
      ensures erased == if k in old(data) then |old(data)[k].items| else 0
    {
      erased := 0;
      if k in data {
        erased := |data[k].items|;
        data := data - {k};
      }
    }

    method DoEraseValue(k: K, c: C) returns (erased: nat)
      modifies this
      ensures data == After(old(data), EraseValue(k, c))
      ensures erased == if Get(old(data), k, c).Some? then 1 else 0
    {
      erased := 0;
      if k in data {
        erased := if c in data[k].items then 1 else 0;
        var items := data[k].items - {c};
        data := if items == map[] then data - {k} else data[k := data[k].(items := items)];
      }
    }

    method DoUpdateExpiration(k: K, time: int) returns (updated: bool)
      modifies this
      ensures data == After(old(data), UpdateExpiration(k, time))
      ensures updated <==> k in old(data)
    {
      updated := k in data;
      if updated {
        data := data[k := data[k].(expires := time)];
      }
    }
  }

  function With<C, V>(before: Option<Category<C, V>>, c: C, v: V, now: int): (r: Category<C, V>) {
    match before
    case Some(cat) => cat.(items := cat.items[c := v])
    case None => Category(map[c := v], now)
  }

  function CategoryOf<K, C, V>(t: Table<K, C, V>, k: K): (r: Option<Category<C, V>>) {
    if k in t then Some(t[k]) else None
  }

  function After<K, C, V>(t: Table<K, C, V>, op: Op<K, C, V>): (r: Table<K, C, V>) {
    match op
    case InsertOrAssign(k, c, v, now) => t[k := With(CategoryOf(t, k), c, v, now)]
    case Insert(k, c, v, now) => if Get(t, k, c).Some? then t else t[k := With(CategoryOf(t, k), c, v, now)]
    case Update(k, c, v) => if Get(t, k, c).Some? then t[k := With(CategoryOf(t, k), c, v, 0)] else t
    case EraseKey(k) => t - {k}
    case EraseValue(k, c) =>
      if k !in t then t
      else if t[k].items - {c} == map[] then t - {k}
      else t[k := t[k].(items := t[k].items - {c})]
    case UpdateExpiration(k, time) => if k in t then t[k := t[k].(expires := time)] else t
  }

  function AfterAll<K, C, V>(ops: seq<Op<K, C, V>>): (r: Table<K, C, V>) {
    if ops == [] then map[] else After(AfterAll(ops[..|ops| - 1]), ops[|ops| - 1])
  }

  /* ---- the simple view: each pair of key and class by itself ---- */

  /** What one operation does to what is stored for one key and class. */
  function Next<K(==), C(==), V>(before: Option<V>, op: Op<K, C, V>, k: K, c: C): (r: Option<V>) {
    match op
    case InsertOrAssign(k', c', v, _) => if k' == k && c' == c then Some(v) else before
    case Insert(k', c', v, _) => if k' == k && c' == c && before.None? then Some(v) else before
    case Update(k', c', v) => if k' == k && c' == c && before.Some? then Some(v) else before
    case EraseKey(k') => if k' == k then None else before
    case EraseValue(k', c') => if k' == k && c' == c then None else before
    case UpdateExpiration(_, _) => before
  }

  /** What the history says about one key and class, without any table. */
  function Latest<K(==), C(==), V>(ops: seq<Op<K, C, V>>, k: K, c: C): (r: Option<V>) {
    if ops == [] then None else Next(Latest(ops[..|ops| - 1], k, c), ops[|ops| - 1], k, c)
  }

  lemma StepRefines<K, C, V>(t: Table<K, C, V>, op: Op<K, C, V>, k: K, c: C)
    ensures Get(After(t, op), k, c) == Next(Get(t, k, c), op, k, c)
  {
    if op.EraseValue? && op.k == k && k in t {
      assert c in t[k].items && c != op.c ==> c in t[k].items - {op.c};
    }
  }

  /** After every run of operations the table answers as the history does. */
  lemma {:induction false} RefinesLatest<K, C, V>(ops: seq<Op<K, C, V>>, k: K, c: C)
    ensures Get(AfterAll(ops), k, c) == Latest(ops, k, c)
    decreases |ops|
  {
    hide After, Get, Next;
    if ops == [] {
      NothingStored<K, C, V>(k, c);
    } else {
      RefinesLatest(ops[..|ops| - 1], k, c);
      StepRefines(AfterAll(ops[..|ops| - 1]), ops[|ops| - 1], k, c);
    }
  }

  lemma NothingStored<K, C, V>(k: K, c: C)
    ensures Get<K, C, V>(map[], k, c) == None
  {
  }

  lemma StepLeavesNoneEmpty<K, C, V>(t: Table<K, C, V>, op: Op<K, C, V>)
    requires NoEmptyCategory(t)
    ensures NoEmptyCategory(After(t, op))
  {
    forall k <- After(t, op) ensures After(t, op)[k].items != map[] {
      if op.Insert? || op.InsertOrAssign? || op.Update? {
        assert k == op.k && After(t, op) != t ==> op.c in After(t, op)[k].items;
      }
    }
  }

  /** No run leaves a key with an empty set. */
  lemma {:induction false} NeverEmpty<K, C, V>(ops: seq<Op<K, C, V>>)
    ensures NoEmptyCategory(AfterAll(ops))
    decreases |ops|
  {
    hide After;
    if ops != [] {
      NeverEmpty(ops[..|ops| - 1]);
      StepLeavesNoneEmpty(AfterAll(ops[..|ops| - 1]), ops[|ops| - 1]);
    }
  }

  /** A category's time changes only with the category itself, or by UpdateExpiration. */
  lemma TimeChanges<K, C, V>(t: Table<K, C, V>, op: Op<K, C, V>, k: K)
    ensures var before, after := Expiry(t, k), Expiry(After(t, op), k);
            before != after ==>
              (op.UpdateExpiration? && op.k == k && before.Some? && after == Some(op.time))
              || ((op.Insert? || op.InsertOrAssign?) && op.k == k && before.None? && after == Some(op.now))
              || (op.EraseKey? && op.k == k && after.None?)
              || (op.EraseValue? && op.k == k && after.None? && t[k].items.Keys <= {op.c})
  {
    if op.EraseValue? && k in t {
      assert forall c <- t[k].items :: c != op.c ==> c in t[k].items - {op.c};
    }
  }

  /* ---- one operation at a time, and times from the history alone ---- */

  /** What each operation leaves for its own key and class. */
  lemma OwnPair<K, C, V>(t: Table<K, C, V>, k: K, c: C, v: V, time: int)
    ensures Get(After(t, InsertOrAssign(k, c, v, time)), k, c) == Some(v)
    ensures Get(After(t, Insert(k, c, v, time)), k, c) == if Get(t, k, c).Some? then Get(t, k, c) else Some(v)
    ensures Get(After(t, Update(k, c, v)), k, c) == if Get(t, k, c).Some? then Some(v) else None
    ensures Get(After(t, EraseKey(k)), k, c) == None == Get(After(t, EraseValue(k, c)), k, c)
    ensures Get(After(t, UpdateExpiration(k, time)), k, c) == Get(t, k, c)
  {
  }

  /** And for all others: erasing a key takes its other classes, nothing else touches
      another pair. */
  lemma OtherPairs<K, C, V>(t: Table<K, C, V>, op: Op<K, C, V>, k: K, c: C)
    requires op.k == k && (op.EraseKey? || op.UpdateExpiration? || op.c == c)
    ensures forall k', c' :: k' != k || (c' != c && !op.EraseKey? && !op.UpdateExpiration?) ==>
              Get(After(t, op), k', c') == Get(t, k', c')
    ensures forall c' :: op.UpdateExpiration? ==> Get(After(t, op), k, c') == Get(t, k, c')
    ensures forall c' :: op.EraseKey? ==> Get(After(t, op), k, c') == None
  {
    forall k', c' | k' != k || (c' != c && !op.EraseKey? && !op.UpdateExpiration?)
      ensures Get(After(t, op), k', c') == Get(t, k', c')
    {
      StepRefines(t, op, k', c');
    }
  }

  /** The time of a key after each operation on it, and of all other keys. */
  lemma OwnTime<K, C, V>(t: Table<K, C, V>, k: K, c: C, v: V, time: int)
    ensures Expiry(After(t, UpdateExpiration(k, time)), k) == if k in t then Some(time) else None
    ensures Expiry(After(t, InsertOrAssign(k, c, v, time)), k) == if k in t then Expiry(t, k) else Some(time)
    ensures Expiry(After(t, Insert(k, c, v, time)), k) == if k in t then Expiry(t, k) else Some(time)
    ensures Expiry(After(t, Update(k, c, v)), k) == Expiry(t, k)
    ensures Expiry(After(t, EraseKey(k)), k) == None
    ensures Expiry(After(t, EraseValue(k, c)), k) == if k in t && t[k].items.Keys <= {c} then None else Expiry(t, k)
  {
    if k in t {
      assert t[k].items - {c} == map[] <==> t[k].items.Keys <= {c} by {
        assert forall d <- t[k].items :: d != c ==> d in t[k].items - {c};
      }
    }
  }

  lemma OtherTimes<K, C, V>(t: Table<K, C, V>, op: Op<K, C, V>, k: K)
    requires op.k != k
    ensures Expiry(After(t, op), k) == Expiry(t, k)
  {
  }

  /** By the history the key has a value. */
  ghost predicate Has<K(!new), C(!new), V(!new)>(ops: seq<Op<K, C, V>>, k: K) {
    exists c :: Latest(ops, k, c).Some?
  }

  /** The i-th operation gives the key its time: it updates the time of a key that has a
      value, or inserts the first value of a key. */
  ghost predicate SetsTime<K(!new), C(!new), V(!new)>(ops: seq<Op<K, C, V>>, i: nat, k: K) {
    i < |ops| && ops[i].k == k &&
    match ops[i]
    case UpdateExpiration(_, _) => Has(ops[..i], k)
    case InsertOrAssign(_, _, _, _) => !Has(ops[..i], k)
    case Insert(_, _, _, _) => !Has(ops[..i], k)
    case _ => false
  }

  function TimeGiven<K, C, V>(op: Op<K, C, V>): (time: int)
    requires op.UpdateExpiration? || op.InsertOrAssign? || op.Insert?
  {
    if op.UpdateExpiration? then op.time else op.now
  }

  lemma {:induction false} HasMeansPresent<K(!new), C(!new), V(!new)>(ops: seq<Op<K, C, V>>, k: K)
    ensures Has(ops, k) <==> k in AfterAll(ops)
  {
    hide AfterAll, Latest;
    NeverEmpty(ops);
    var t := AfterAll(ops);
    if k in t {
      var c :| c in t[k].items;
      RefinesLatest(ops, k, c);
    }
    forall c ensures Latest(ops, k, c).Some? ==> k in t {
      RefinesLatest(ops, k, c);
    }
  }

  /** The last operation that gave the key its time. */
  ghost predicate LastSetting<K(!new), C(!new), V(!new)>(ops: seq<Op<K, C, V>>, i: nat, k: K) {
    SetsTime(ops, i, k) && forall j: nat :: i < j ==> !SetsTime(ops, j, k)
  }

  lemma SettingBefore<K(!new), C(!new), V(!new)>(ops: seq<Op<K, C, V>>, i: nat, k: K)
    requires ops != []
    ensures i < |ops| - 1 ==> (SetsTime(ops, i, k) <==> SetsTime(ops[..|ops| - 1], i, k))
  {
    hide Has;
    if i < |ops| - 1 {
      assert ops[..|ops| - 1][..i] == ops[..i];
    }
  }

  /** After every run, a key has a time exactly when the history gives it a value, and it
      is the time of the last operation that gave it one. */
  lemma {:induction false} TimesFromHistory<K(!new), C(!new), V(!new)>(ops: seq<Op<K, C, V>>, k: K)
    ensures Expiry(AfterAll(ops), k).Some? <==> Has(ops, k)
    ensures Has(ops, k) ==> exists i: nat :: LastSetting(ops, i, k)
    ensures forall i: nat :: Has(ops, k) && LastSetting(ops, i, k) ==>
              Expiry(AfterAll(ops), k) == Some(TimeGiven(ops[i]))
    decreases |ops|
  {
    hide After, Has, Latest;
    HasMeansPresent(ops, k);
    if Has(ops, k) {
      var i := SettingFound(ops, k);
      forall j: nat | LastSetting(ops, j, k) ensures j == i {
        assert i < j || j < i || i == j;
      }
    }
  }

  lemma {:induction false} SettingFound<K(!new), C(!new), V(!new)>(ops: seq<Op<K, C, V>>, k: K) returns (i: nat)
    requires Has(ops, k)
    ensures LastSetting(ops, i, k) && Expiry(AfterAll(ops), k) == Some(TimeGiven(ops[i]))
    decreases |ops|
  {
    hide After, Has, Latest;
    HasMeansPresent(ops, k);
    NothingHas<K, C, V>(k);
    assert ops != [];
    var n := |ops| - 1;
    var front, op := ops[..n], ops[n];
    HasMeansPresent(front, k);
    if SetsTime(ops, n, k) {
      i := n;
      OpSetsTime(AfterAll(front), op);
    } else {
      OpKeepsTime(AfterAll(front), op, k);
      i := SettingFound(front, k);
      SettingBefore(ops, i, k);
      forall j: nat | i < j ensures !SetsTime(ops, j, k) {
        SettingBefore(ops, j, k);
      }
    }
  }

  lemma NothingHas<K(!new), C(!new), V(!new)>(k: K)
    ensures !Has<K, C, V>([], k)
  {
  }

  lemma OpSetsTime<K, C, V>(t: Table<K, C, V>, op: Op<K, C, V>)
    requires if op.UpdateExpiration? then op.k in t else (op.Insert? || op.InsertOrAssign?) && op.k !in t
    ensures Expiry(After(t, op), op.k) == Some(TimeGiven(op))
  {
  }

  lemma OpKeepsTime<K, C, V>(t: Table<K, C, V>, op: Op<K, C, V>, k: K)
    requires k in After(t, op)
    requires op.k == k ==> !(op.UpdateExpiration? && k in t) && !((op.Insert? || op.InsertOrAssign?) && k !in t)
    ensures k in t && Expiry(After(t, op), k) == Expiry(t, k)
  {
  }
}
