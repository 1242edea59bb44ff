/** Whole runs of the hash table against a finite map. */
module HashTableRuns {
  import opened HashTables

  datatype Operation<K, V> =
    | Insert(key: K, value: V)
    | InsertOrAssign(key: K, value: V)
    | Index(key: K)
    | Erase(key: K)
    | Find(key: K)
    | IsExist(key: K)
    | Size

  /** What the caller of an operation sees: whether it was true, and the data of the entry it was given, if any. */
  datatype Outcome<V> = Flag(b: bool) | Data(b: bool, v: V) | Count(n: nat)

  /** An operation on a finite map. */
  ghost function Step<K(!new), V>(m: map<K, V>, op: Operation<K, V>, default: V): (map<K, V>, Outcome<V>) {
    match op
    case Insert(k, v) => if k in m then (m, Data(false, m[k])) else (m[k := v], Data(true, v))
    case InsertOrAssign(k, v) => (m[k := v], Data(true, v))
    case Index(k) => if k in m then (m, Data(true, m[k])) else (m[k := default], Data(true, default))
    case Erase(k) => (m - {k}, Flag(k in m))
    case Find(k) => (m, if k in m then Data(true, m[k]) else Flag(false))
    case IsExist(k) => (m, Flag(k in m))
    case Size => (m, Count(|m|))
  }

  ghost function Run<K(!new), V>(m: map<K, V>, ops: seq<Operation<K, V>>, default: V): (map<K, V>, seq<Outcome<V>>) {
    if ops == [] then (m, [])
    else
      var (before, outcomes) := Run(m, ops[..|ops| - 1], default);
      var (after, outcome) := Step(before, ops[|ops| - 1], default);
      (after, outcomes + [outcome])
  }

  lemma {:induction false} RunJoined<K(!new), V>(m: map<K, V>, ops: seq<Operation<K, V>>, more: seq<Operation<K, V>>,
                                                 default: V)
    ensures var (between, outcomes) := Run(m, ops, default);
            var (after, later) := Run(between, more, default);
            Run(m, ops + more, default) == (after, outcomes + later)
    decreases |more|
  {
    hide Step;
    var (between, outcomes) := Run(m, ops, default);
    if more == [] {
      assert ops + more == ops && outcomes + [] == outcomes;
    } else {
      var init := more[..|more| - 1];
      var (last, earlier) := Run(between, init, default);
      var outcome := Step(last, more[|more| - 1], default).1;
      RunJoined(m, ops, init, default);
      assert outcomes + earlier + [outcome] == outcomes + (earlier + [outcome]);
      assert (ops + more)[..|ops + more| - 1] == ops + init && (ops + more)[|ops + more| - 1] == more[|more| - 1];
    }
  }

  /** What a single operation does to a map, and what the caller sees. */
  lemma {:induction false} OneOperation<K(!new), V>(m: map<K, V>, k: K, v: V, default: V)
    ensures Run(m, [Insert(k, v)], default) ==
            if k in m then (m, [Data(false, m[k])]) else (m[k := v], [Data(true, v)])
    ensures Run(m, [InsertOrAssign(k, v)], default) == (m[k := v], [Data(true, v)])
    ensures Run(m, [Index(k)], default) ==
            if k in m then (m, [Data(true, m[k])]) else (m[k := default], [Data(true, default)])
    ensures Run(m, [Erase(k)], default) == (m - {k}, [Flag(k in m)])
    ensures Run(m, [Find(k)], default) == (m, [if k in m then Data(true, m[k]) else Flag(false)])
    ensures Run(m, [IsExist(k)], default) == (m, [Flag(k in m)])
    ensures Run(m, [Size], default) == (m, [Count(|m|)])
  {
    Single(m, Insert(k, v), default);
    Single(m, InsertOrAssign(k, v), default);
    Single(m, Index(k), default);
    Single(m, Erase(k), default);
    Single(m, Find(k), default);
    Single(m, IsExist(k), default);
    Single(m, Size, default);
  }

  lemma {:induction false} Single<K(!new), V>(m: map<K, V>, op: Operation<K, V>, default: V)
    ensures Run(m, [op], default) == (Step(m, op, default).0, [Step(m, op, default).1])
  {
    assert [op][..0] == [] && Run(m, [], default) == (m, []);
    assert [] + [Step(m, op, default).1] == [Step(m, op, default).1];
  }

  ghost function Found<K(!new), V>(m: map<K, V>, k: K): Outcome<V> {
    if k in m then Data(true, m[k]) else Flag(false)
  }

  /** What a search finds right after another operation: an insertion does not change a present key, an assignment
      does, an erased key is gone, and other keys are as they were. */
  lemma {:induction false} FindAfter<K(!new), V>(m: map<K, V>, op: Operation<K, V>, j: K, default: V)
    ensures Run(m, [op, Find(j)], default).1[1..] ==
            [match op
             case Insert(k, v) => if j == k && k !in m then Data(true, v) else Found(m, j)
             case InsertOrAssign(k, v) => if j == k then Data(true, v) else Found(m, j)
             case Index(k) => if j == k && k !in m then Data(true, default) else Found(m, j)
             case Erase(k) => if j == k then Flag(false) else Found(m, j)
             case Find(_) => Found(m, j)
             case IsExist(_) => Found(m, j)
             case Size => Found(m, j)]
  {
    assert [op] + [Find(j)] == [op, Find(j)];
    RunJoined(m, [op], [Find(j)], default);
    Single(m, op, default);
    Single(Step(m, op, default).0, Find(j), default);
  }

  method Perform<K(!new,==), V>(table: HashTable<K, V>, op: Operation<K, V>) returns (outcome: Outcome<V>)
    requires table.Valid()
    modifies table, table.mTable, table.mKeysList, table.Owned
    ensures table.Valid() && fresh(table.Owned - old(table.Owned))
    ensures table.Model() == Step(old(table.Model()), op, table.mDefault).0
    ensures outcome == Step(old(table.Model()), op, table.mDefault).1
  {
    hide HashTable.IndexValid;
    match op
    case Erase(k) =>
      var existed := table.IsExist(k);
      var _ := table.EraseKey(k);
      outcome := Flag(existed);
    case Find(_) =>
      outcome := Query(table, op);
    case IsExist(_) =>
      outcome := Query(table, op);
    case Size =>
      outcome := Query(table, op);
    case _ =>
      outcome := Enter(table, op);
  }

  /** The operations that may add an entry. */
  method Enter<K(!new,==), V>(table: HashTable<K, V>, op: Operation<K, V>) returns (outcome: Outcome<V>)
    requires table.Valid()
    requires op.Insert? || op.InsertOrAssign? || op.Index?
    modifies table, table.mTable, table.mKeysList, table.Owned
    ensures table.Valid() && fresh(table.Owned - old(table.Owned))
    ensures table.Model() == Step(old(table.Model()), op, table.mDefault).0
    ensures outcome == Step(old(table.Model()), op, table.mDefault).1
  {
    hide HashTable.IndexValid;
    match op
    case Insert(k, v) =>
      var inserted, entry := table.Insert(k, v);
      outcome := Data(inserted, entry.data.second);
    case InsertOrAssign(k, v) =>
      var entry := table.InsertOrAssign(k, v);
      outcome := Data(true, entry.data.second);
    case Index(k) =>
      var entry := table.Index(k);
      outcome := Data(true, entry.data.second);
  }

  method Query<K(!new,==), V>(table: HashTable<K, V>, op: Operation<K, V>) returns (outcome: Outcome<V>)
    requires table.Valid()
    requires op.Find? || op.IsExist? || op.Size?
    ensures (table.Model(), outcome) == Step(table.Model(), op, table.mDefault)
  {
    hide HashTable.Valid;
    match op
    case Find(k) =>
      var it := table.Find(k);
      outcome := if it == null then Flag(false) else Data(true, it.data.second);
    case IsExist(k) =>
      var exist := table.IsExist(k);
      outcome := Flag(exist);
    case Size =>
      var size := table.Size();
      outcome := Count(size);
  }

  /** Over any run of operations the table behaves as a finite map, whatever the hash function, the table size and
      so the pattern of collisions. */
  method Execute<K(!new,==), V>(table: HashTable<K, V>, ops: seq<Operation<K, V>>) returns (outcomes: seq<Outcome<V>>)
    requires table.Valid()
    modifies table, table.mTable, table.mKeysList, table.Owned
    ensures table.Valid()
    ensures (table.Model(), outcomes) == Run(old(table.Model()), ops, table.mDefault)
  {
    outcomes := [];
    for i := 0 to |ops|
      invariant table.Valid() && fresh(table.Owned - old(table.Owned))
      invariant (table.Model(), outcomes) == Run(old(table.Model()), ops[..i], table.mDefault)
    {
      var outcome := Perform(table, ops[i]);
      outcomes := outcomes + [outcome];
      assert ops[..i + 1][..i] == ops[..i];
    }
    assert ops[..|ops|] == ops;
  }
}
