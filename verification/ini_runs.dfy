/** The INI store over whole runs: any sequence of settings, deletions and tidyings refines
    a finite map from sections and keys to values. */
module IniRuns {
  import opened IniModel

  // ---------------------------------------------------------------- the invariant

  ghost predicate Distinct(v: seq<Sect>) { forall i, j | 0 <= i < j < |v| :: v[i].name != v[j].name }

  /** Sections have names of their own, and so have the named entries of each. */
  ghost predicate InOrder(v: seq<Sect>) {
    AllSized(v) && Distinct(v) && forall i | 0 <= i < |v| :: Unique(v[i].ps)
  }

  lemma SetSized(ps: seq<Pair>, key: Text, val: Text)
    requires Sized(ps) && |key| < NAME_SIZE
    ensures Sized(SetIn(ps, key, val))
  {
    hide CopyIn;
  }

  lemma PutInOrder(v: seq<Sect>, sec: Text, key: Text, val: Text)
    requires InOrder(v) && |sec| < NAME_SIZE && |key| < NAME_SIZE
    ensures InOrder(Put2(v, sec, key, val))
  {
    var k := FindSect(v, sec);
    var ps := if k < |v| then v[k].ps else [];
    SetSized(ps, key, val);
    StaysUnique(ps, key, val);
    hide SetIn, DeleteFrom, Sized, Unique;
  }

  lemma DropInOrder(v: seq<Sect>, sec: Text, key: Text)
    requires InOrder(v)
    ensures InOrder(Drop2(v, sec, key))
  {
    var k := FindSect(v, sec);
    if k < |v| {
      DeleteSized(v[k].ps, key);
      StaysUnique(v[k].ps, key, []);
    }
    hide DeleteFrom, Sized, Unique;
  }

  lemma DeleteSized(ps: seq<Pair>, key: Text)
    requires Sized(ps)
    ensures Sized(DeleteFrom(ps, key))
  {
  }

  lemma TidyInOrder(v: seq<Sect>, k: nat)
    requires InOrder(v) && k < |v|
    ensures InOrder(Tidied(v, k))
  {
    SortInOrder(v[k].ps);
    hide Sort, Sized, Unique, AnyNamed;
  }

  lemma SortInOrder(ps: seq<Pair>)
    requires Sized(ps) && Unique(ps)
    ensures Sized(Sort(ps)) && Unique(Sort(ps))
  {
    hide *;
    SortSorts(ps);
    SortedLookup(ps, Sort(ps), []);
    ShuffledSized(ps, Sort(ps));
  }

  lemma ShuffledSized(ps: seq<Pair>, qs: seq<Pair>)
    requires Shuffled(ps, qs) && Sized(ps)
    ensures Sized(qs)
  {
    forall i | 0 <= i < |qs|
      ensures |qs[i].data| == DATA_SIZE && |qs[i].name| < NAME_SIZE
    {
      assert qs[i] in multiset(ps);
    }
  }

  // ---------------------------------------------------------------- refinement

  datatype StoreOp = Put(sec: Text, key: Text, val: Text) | Drop(sec: Text, key: Text) | Tidy(k: nat)

  /** Names fit their buffers, and only sections of the store are tidied. */
  predicate Admissible(v: seq<Sect>, op: StoreOp) {
    match op
    case Put(sec, key, _) => |sec| < NAME_SIZE && |key| < NAME_SIZE
    case Drop(_, _) => true
    case Tidy(k) => k < |v|
  }

  function Effect(v: seq<Sect>, op: StoreOp): seq<Sect>
    requires AllSized(v) && Admissible(v, op)
  {
    match op
    case Put(sec, key, val) => Put2(v, sec, key, val)
    case Drop(sec, key) => Drop2(v, sec, key)
    case Tidy(k) => Tidied(v, k)
  }

  /** The store as a map: what reads back under each section and key with a name. */
  type Table = map<(Text, Text), Option<seq<Byte>>>

  function OnTable(m: Table, op: StoreOp): Table {
    match op
    case Put(sec, key, val) => if key == [] then m else m[(sec, key) := Stored(val)]
    case Drop(sec, key) => m - {(sec, key)}
    case Tidy(_) => m
  }

  predicate EntryIs(v: seq<Sect>, m: Table, sec: Text, key: Text) {
    var e := Get2(v, sec, key);
    if (sec, key) in m then e.Some? && CString(e.value) == m[(sec, key)] else e.None?
  }

  ghost predicate Represents(v: seq<Sect>, m: Table) {
    && (forall sec: Text, key: Text | key != [] :: EntryIs(v, m, sec, key))
    && forall p | p in m :: p.1 != []
  }

  lemma PutRefines(v: seq<Sect>, m: Table, sec: Text, key: Text, val: Text)
    requires AllSized(v) && Represents(v, m)
    ensures Represents(Put2(v, sec, key, val), OnTable(m, Put(sec, key, val)))
  {
    hide Put2, Get2, CString, Stored;
    forall sec': Text, key': Text | key' != []
      ensures EntryIs(Put2(v, sec, key, val), OnTable(m, Put(sec, key, val)), sec', key')
    {
      PutThenGet(v, sec, key, val, sec', key');
      assert EntryIs(v, m, sec', key');
    }
  }

  lemma DropRefines(v: seq<Sect>, m: Table, sec: Text, key: Text)
    requires InOrder(v) && Represents(v, m)
    ensures Represents(Drop2(v, sec, key), OnTable(m, Drop(sec, key)))
  {
    hide CString, Stored, Unique;
    forall sec': Text, key': Text | key' != []
      ensures EntryIs(Drop2(v, sec, key), OnTable(m, Drop(sec, key)), sec', key')
    {
      DropThenGet(v, sec, key, sec', key');
      assert EntryIs(v, m, sec', key');
    }
  }

  lemma TidyRefines(v: seq<Sect>, m: Table, k: nat)
    requires InOrder(v) && Represents(v, m) && k < |v|
    ensures Represents(Tidied(v, k), m)
  {
    hide CString, Stored, Unique, Tidied, Get2;
    forall sec: Text, key: Text | key != []
      ensures EntryIs(Tidied(v, k), m, sec, key)
    {
      TidyKeeps(v, k, sec, key);
      assert EntryIs(v, m, sec, key);
    }
  }

  lemma StepRefines(v: seq<Sect>, m: Table, op: StoreOp)
    requires InOrder(v) && Represents(v, m) && Admissible(v, op)
    ensures InOrder(Effect(v, op)) && Represents(Effect(v, op), OnTable(m, op))
  {
    hide InOrder, Represents, Put2, Drop2, Tidied;
    InOrderSized(v);
    match op
    case Put(sec, key, val) =>
      PutInOrder(v, sec, key, val);
      PutRefines(v, m, sec, key, val);
    case Drop(sec, key) =>
      DropInOrder(v, sec, key);
      DropRefines(v, m, sec, key);
    case Tidy(k) =>
      TidyInOrder(v, k);
      TidyRefines(v, m, k);
  }

  lemma InOrderSized(v: seq<Sect>)
    requires InOrder(v)
    ensures AllSized(v)
  {
  }

  ghost predicate AdmissibleRun(v: seq<Sect>, ops: seq<StoreOp>)
    decreases |ops|
  {
    ops == [] || (AllSized(v) && Admissible(v, ops[0]) && AdmissibleRun(Effect(v, ops[0]), ops[1..]))
  }

  ghost function StoreRun(v: seq<Sect>, ops: seq<StoreOp>): seq<Sect>
    requires AdmissibleRun(v, ops)
    decreases |ops|
  {
    if ops == [] then v else StoreRun(Effect(v, ops[0]), ops[1..])
  }

  function TableRun(m: Table, ops: seq<StoreOp>): Table
    decreases |ops|
  {
    if ops == [] then m else TableRun(OnTable(m, ops[0]), ops[1..])
  }

  /** Any run of settings, deletions and tidyings of a store in order keeps it in order, and
      reads back what the same run leaves in a finite map. */
  lemma {:induction false} RunRefines(v: seq<Sect>, m: Table, ops: seq<StoreOp>)
    requires InOrder(v) && Represents(v, m) && AdmissibleRun(v, ops)
    ensures InOrder(StoreRun(v, ops)) && Represents(StoreRun(v, ops), TableRun(m, ops))
    decreases |ops|
  {
    if ops != [] {
      hide InOrder, Represents, Effect, OnTable, Admissible;
      StepRefines(v, m, ops[0]);
      RunRefines(Effect(v, ops[0]), OnTable(m, ops[0]), ops[1..]);
    }
  }

  /** The store ini_new returns. */
  lemma EmptyStore()
    ensures InOrder([]) && Represents([], map[])
  {
  }

  // ---------------------------------------------------------------- from the empty store

  predicate Concerns(op: StoreOp, sec: Text, key: Text) {
    match op
    case Put(s, k, _) => s == sec && k == key
    case Drop(s, k) => s == sec && k == key
    case Tidy(_) => false
  }

  /** The last operation on that key of that section, or -1. */
  function LastOn(ops: seq<StoreOp>, sec: Text, key: Text): (i: int)
    ensures -1 <= i < |ops| && (i >= 0 ==> Concerns(ops[i], sec, key))
    ensures forall j | i < j < |ops| :: !Concerns(ops[j], sec, key)
  {
    if ops == [] then -1
    else
      var i := LastOn(ops[1..], sec, key);
      if i >= 0 then i + 1 else if Concerns(ops[0], sec, key) then 0 else -1
  }

  lemma {:induction false} LastOnTable(m: Table, ops: seq<StoreOp>, sec: Text, key: Text)
    requires key != []
    ensures var (t, i) := (TableRun(m, ops), LastOn(ops, sec, key));
            if i < 0 then ((sec, key) in t <==> (sec, key) in m) && ((sec, key) in m ==> t[(sec, key)] == m[(sec, key)])
            else if ops[i].Put? then (sec, key) in t && t[(sec, key)] == Stored(ops[i].val)
            else (sec, key) !in t
    decreases |ops|
  {
    if ops != [] {
      hide Stored;
      LastOnTable(OnTable(m, ops[0]), ops[1..], sec, key);
    }
  }

  /** After any run from an empty store, a key reads back the value put there last, and
      nothing if it was never put or has been deleted since. */
  lemma LastPut(ops: seq<StoreOp>, sec: Text, key: Text)
    requires AdmissibleRun([], ops) && key != []
    ensures var (e, i) := (Get2(StoreRun([], ops), sec, key), LastOn(ops, sec, key));
            if i >= 0 && ops[i].Put? then e.Some? && CString(e.value) == Stored(ops[i].val) else e.None?
  {
    EmptyStore();
    RunRefines([], map[], ops);
    LastOnTable(map[], ops, sec, key);
    hide StoreRun, TableRun, Get2, CString, Stored, LastOn;
    assert EntryIs(StoreRun([], ops), TableRun(map[], ops), sec, key);
  }
}
