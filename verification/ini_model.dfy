/** The INI store as values: a section is a list of named payloads, looked up by name
    and sorted by a double loop that compares every node with every node. */
module IniModel {
  type Byte = n: int | 0 <= n < 256
  /** The contents of a C string. */
  type Text = s: seq<Byte> | 0 !in s

  const NAME_SIZE := 128
  const DATA_SIZE := 512

  /** The payload of an entry: its name, and its buffer of DATA_SIZE bytes. */
  datatype Pair = Pair(name: Text, data: seq<Byte>)

  datatype Option<T> = None | Some(value: T)

  /** A section: its name and its entries in list order. */
  datatype Sect = Sect(name: Text, ps: seq<Pair>)

  // ---------------------------------------------------------------- buffers

  /** A buffer fresh from calloc. */
  function Zeros(): (b: seq<Byte>)
    ensures |b| == DATA_SIZE
  {
    seq(DATA_SIZE, _ => 0)
  }

  /** The copy of ini_section_set_string: with its terminator if that fits. */
  function CopyIn(buf: seq<Byte>, v: Text): (b: seq<Byte>)
    requires |buf| == DATA_SIZE
    ensures |b| == DATA_SIZE
  {
    if |v| + 1 <= DATA_SIZE then v + [0] + buf[|v| + 1..] else v[..DATA_SIZE]
  }

  /** The C string that starts a buffer, if the buffer terminates it. */
  function CString(buf: seq<Byte>): (t: Option<seq<Byte>>)
    ensures t.Some? ==> |t.value| < |buf| && buf[..|t.value|] == t.value && buf[|t.value|] == 0 && 0 !in t.value
    ensures t.None? <==> 0 !in buf
  {
    if buf == [] then None
    else if buf[0] == 0 then Some([])
    else
      var t := CString(buf[1..]);
      if t.None? then None else Some([buf[0]] + t.value)
  }

  /** Reading the buffer as a C string gives v. */
  predicate Reads(buf: seq<Byte>, v: Text) {
    var t := CString(buf);
    t.Some? && t.value == v
  }

  lemma {:induction false} FirstZero(buf: seq<Byte>, n: nat)
    requires n < |buf| && buf[n] == 0 && 0 !in buf[..n]
    ensures CString(buf) == Some(buf[..n])
  {
    if n > 0 {
      assert buf[..n] == [buf[0]] + buf[1..][..n - 1];
      FirstZero(buf[1..], n - 1);
    }
  }

  /** What is read back for a value: itself, or what never ends. */
  function Stored(v: Text): Option<seq<Byte>> { if |v| < DATA_SIZE then Some(v) else None }

  /** A value read back is the value written exactly when it fits with its terminator. */
  lemma CopyReads(buf: seq<Byte>, v: Text)
    requires |buf| == DATA_SIZE
    ensures Reads(CopyIn(buf, v), v) <==> |v| < DATA_SIZE
    ensures CString(CopyIn(buf, v)).None? <==> |v| >= DATA_SIZE
  {
    var b := CopyIn(buf, v);
    if |v| < DATA_SIZE {
      assert b[..|v|] == v;
      FirstZero(b, |v|);
    }
  }

  lemma CopyStored(buf: seq<Byte>, v: Text)
    requires |buf| == DATA_SIZE
    ensures CString(CopyIn(buf, v)) == Stored(v)
  {
    hide CopyIn;
    CopyReads(buf, v);
  }

  // ---------------------------------------------------------------- entries

  /** Place of the first entry of that name, or the length. */
  function Find(ps: seq<Pair>, name: Text): (k: nat)
    ensures k <= |ps| && (forall i | 0 <= i < k :: ps[i].name != name) && (k < |ps| ==> ps[k].name == name)
  {
    if ps == [] || ps[0].name == name then 0 else 1 + Find(ps[1..], name)
  }

  /** ini_section_get_string: the entry's buffer, or nothing. */
  function Get(ps: seq<Pair>, name: Text): Option<seq<Byte>> {
    var k := Find(ps, name);
    if k < |ps| then Some(ps[k].data) else None
  }

  predicate Sized(ps: seq<Pair>) { forall i | 0 <= i < |ps| :: |ps[i].data| == DATA_SIZE && |ps[i].name| < NAME_SIZE }

  /** ini_section_set_string: a missing entry is appended first. */
  function SetIn(ps: seq<Pair>, name: Text, v: Text): seq<Pair>
    requires Sized(ps)
  {
    var k := Find(ps, name);
    if k < |ps| then ps[k := Pair(name, CopyIn(ps[k].data, v))] else ps + [Pair(name, CopyIn(Zeros(), v))]
  }

  /** ini_section_delete_var. */
  function DeleteFrom(ps: seq<Pair>, name: Text): seq<Pair> {
    var k := Find(ps, name);
    if k < |ps| then ps[..k] + ps[k + 1..] else ps
  }

  lemma FindIs(ps: seq<Pair>, name: Text, k: nat)
    requires k <= |ps| && (forall i | 0 <= i < k :: ps[i].name != name) && (k < |ps| ==> ps[k].name == name)
    ensures Find(ps, name) == k
  {
  }

  /** Setting defines exactly one key; reading it back gives the value if it is short enough. */
  lemma SetThenGet(ps: seq<Pair>, name: Text, v: Text, other: Text)
    requires Sized(ps)
    ensures Get(SetIn(ps, name, v), name).Some?
    ensures CString(Get(SetIn(ps, name, v), name).value) == Stored(v)
    ensures Reads(Get(SetIn(ps, name, v), name).value, v) <==> |v| < DATA_SIZE
    ensures other != name ==> Get(SetIn(ps, name, v), other) == Get(ps, other)
  {
    var qs := SetIn(ps, name, v);
    FindIs(qs, name, Find(ps, name));
    CopyReads(if Find(ps, name) < |ps| then ps[Find(ps, name)].data else Zeros(), v);
    CopyStored(if Find(ps, name) < |ps| then ps[Find(ps, name)].data else Zeros(), v);
    hide CopyIn;
    if other != name {
      var k := Find(ps, other);
      FindIs(qs, other, if k < |ps| then k else |qs|);
    }
  }

  /** Deleting affects no other key, and removes the key exactly when one entry at most
      bears the name. */
  lemma DeleteThenGet(ps: seq<Pair>, name: Text, other: Text)
    ensures other != name ==> Get(DeleteFrom(ps, name), other) == Get(ps, other)
    ensures Get(DeleteFrom(ps, name), name).None? <==>
            forall i, j | 0 <= i < j < |ps| :: !(ps[i].name == name && ps[j].name == name)
  {
    if other != name {
      DeleteOthers(ps, name, other);
    }
    DeleteFirst(ps, name);
  }

  lemma DeletedAt(ps: seq<Pair>, name: Text, j: nat)
    requires j < |DeleteFrom(ps, name)|
    ensures j < |ps| && (Find(ps, name) <= j ==> Find(ps, name) == |ps| || j + 1 < |ps|)
    ensures j < Find(ps, name) ==> DeleteFrom(ps, name)[j] == ps[j]
    ensures Find(ps, name) <= j && j + 1 < |ps| ==> DeleteFrom(ps, name)[j] == ps[j + 1]
  {
  }

  lemma DeletedSize(ps: seq<Pair>, name: Text)
    ensures if Find(ps, name) < |ps| then |DeleteFrom(ps, name)| == |ps| - 1 else DeleteFrom(ps, name) == ps
  {
  }

  lemma DeleteOthers(ps: seq<Pair>, name: Text, other: Text)
    requires other != name
    ensures Get(DeleteFrom(ps, name), other) == Get(ps, other)
  {
    hide DeleteFrom, Find;
    DeletedSize(ps, name);
    var (d, qs) := (Find(ps, name), DeleteFrom(ps, name));
    if d < |ps| {
      var k := Find(ps, other);
      var e := if k < d then k else k - 1;
      forall i | 0 <= i < e
        ensures qs[i].name != other
      {
        DeletedAt(ps, name, i);
      }
      if e < |qs| {
        DeletedAt(ps, name, e);
      }
      FindIs(qs, other, e);
    }
  }

  lemma DeleteFirst(ps: seq<Pair>, name: Text)
    ensures Get(DeleteFrom(ps, name), name).None? <==>
            forall i, j | 0 <= i < j < |ps| :: !(ps[i].name == name && ps[j].name == name)
  {
    var qs := DeleteFrom(ps, name);
    var d := Find(ps, name);
    var e := Find(qs, name);
    if e < |qs| {
      DeletedAt(ps, name, e);
      assert d < |ps| && ps[d].name == name && d <= e && ps[e + 1].name == name;
    } else {
      forall i, j | 0 <= i < j < |ps|
        ensures !(ps[i].name == name && ps[j].name == name)
      {
        assert d < j ==> qs[j - 1] == ps[j];
      }
    }
  }

  /** No two entries share a name, other than the empty one. */
  predicate Unique(ps: seq<Pair>) {
    forall i, j | 0 <= i < j < |ps| && ps[i].name == ps[j].name :: ps[i].name == []
  }

  lemma StaysUnique(ps: seq<Pair>, name: Text, v: Text)
    requires Unique(ps) && Sized(ps)
    ensures Unique(SetIn(ps, name, v)) && Unique(DeleteFrom(ps, name))
  {
    hide CopyIn;
  }

  // ---------------------------------------------------------------- strcmp

  /** strcmp(a, b) < 0. */
  predicate Less(a: seq<Byte>, b: seq<Byte>) {
    b != [] && (a == [] || a[0] < b[0] || (a[0] == b[0] && Less(a[1..], b[1..])))
  }

  predicate AtMost(a: seq<Byte>, b: seq<Byte>) { !Less(b, a) }

  /** a and b agree before byte k, where a ends or has the smaller byte. */
  predicate SmallerAt(a: seq<Byte>, b: seq<Byte>, k: nat) {
    k <= |a| && k < |b| && a[..k] == b[..k] && (k == |a| || a[k] < b[k])
  }

  /** Dictionary order by unsigned bytes. */
  ghost predicate Precedes(a: seq<Byte>, b: seq<Byte>) { exists k: nat :: SmallerAt(a, b, k) }

  /** strcmp answers "less" for exactly the strings that come first in the dictionary. */
  lemma {:induction false} LessPrecedes(a: seq<Byte>, b: seq<Byte>)
    ensures Less(a, b) <==> Precedes(a, b)
  {
    if a == [] || b == [] || a[0] != b[0] {
      assert b != [] && (a == [] || a[0] < b[0]) ==> SmallerAt(a, b, 0);
      forall k: nat | SmallerAt(a, b, k)
        ensures Less(a, b)
      {
        SameHeads(a, b, k);
      }
    } else {
      LessPrecedes(a[1..], b[1..]);
      if Precedes(a[1..], b[1..]) {
        var k: nat :| SmallerAt(a[1..], b[1..], k);
        SmallerTail(a, b, k);
        assert SmallerAt(a, b, k + 1);
      } else {
        forall k: nat
          ensures !SmallerAt(a, b, k)
        {
          assert k > 0 ==> !SmallerAt(a[1..], b[1..], k - 1);
          SmallerTail(a, b, k);
        }
      }
    }
  }

  lemma SameHeads(a: seq<Byte>, b: seq<Byte>, k: nat)
    requires SmallerAt(a, b, k)
    ensures b != [] && (k > 0 ==> a != [] && a[0] == b[0])
  {
    assert k > 0 ==> a[..k][0] == b[..k][0];
  }

  lemma SmallerTail(a: seq<Byte>, b: seq<Byte>, k: nat)
    requires a != [] && b != [] && a[0] == b[0]
    ensures SmallerAt(a[1..], b[1..], k) ==> SmallerAt(a, b, k + 1)
    ensures k > 0 && SmallerAt(a, b, k) ==> SmallerAt(a[1..], b[1..], k - 1)
  {
    if SmallerAt(a[1..], b[1..], k) {
      assert a[..k + 1] == [a[0]] + a[1..][..k] && b[..k + 1] == [b[0]] + b[1..][..k];
    }
    if k > 0 && SmallerAt(a, b, k) {
      assert a[1..][..k - 1] == a[..k][1..] && b[1..][..k - 1] == b[..k][1..];
    }
  }

  lemma {:induction false} LessTotal(a: seq<Byte>, b: seq<Byte>)
    ensures !(Less(a, b) && Less(b, a)) && (AtMost(a, b) && AtMost(b, a) <==> a == b)
  {
    if a != [] && b != [] {
      LessTotal(a[1..], b[1..]);
      assert a == [a[0]] + a[1..] && b == [b[0]] + b[1..];
    }
  }

  lemma {:induction false} AtMostTransitive(a: seq<Byte>, b: seq<Byte>, c: seq<Byte>)
    requires AtMost(a, b) && AtMost(b, c)
    ensures AtMost(a, c)
  {
    if a != [] && b != [] && c != [] {
      if a[0] == b[0] == c[0] {
        AtMostTransitive(a[1..], b[1..], c[1..]);
      }
    }
  }

  // ---------------------------------------------------------------- the sort

  predicate Named(p: Pair) { p.name != [] }

  predicate Below(p: Pair, q: Pair) { AtMost(p.name, q.name) }

  lemma BelowTransitive(p: Pair, q: Pair, r: Pair)
    requires Below(p, q) && Below(q, r)
    ensures Below(p, r)
  {
    AtMostTransitive(p.name, q.name, r.name);
  }

  lemma BelowTotal(p: Pair, q: Pair)
    ensures Below(p, q) || Below(q, p)
  {
    LessTotal(p.name, q.name);
  }

  /** Node j is compared with node i: a greater payload at j changes places with i's. */
  function Exchange(ps: seq<Pair>, i: nat, j: nat): (qs: seq<Pair>)
    requires i < |ps| && j < |ps|
    ensures |qs| == |ps|
  {
    if Named(ps[j]) && j != i && Less(ps[i].name, ps[j].name) then ps[j := ps[i]][i := ps[j]] else ps
  }

  /** The inner loop for node i up to node n. */
  function Inner(ps: seq<Pair>, i: nat, n: nat): (qs: seq<Pair>)
    requires i < |ps| && n <= |ps|
    ensures |qs| == |ps|
  {
    if n == 0 then ps else Exchange(Inner(ps, i, n - 1), i, n - 1)
  }

  /** The outer loop up to node n; nodes without a name are skipped. */
  function Passes(ps: seq<Pair>, n: nat): (qs: seq<Pair>)
    requires n <= |ps|
    ensures |qs| == |ps|
  {
    if n == 0 then ps
    else
      var qs := Passes(ps, n - 1);
      if Named(qs[n - 1]) then Inner(qs, n - 1, |qs|) else qs
  }

  function Sort(ps: seq<Pair>): seq<Pair> { Passes(ps, |ps|) }

  /** The same payloads; nodes without a name stay as they are, the others keep a name. */
  ghost predicate Shuffled(ps: seq<Pair>, qs: seq<Pair>) {
    && |qs| == |ps| && multiset(qs) == multiset(ps)
    && forall k | 0 <= k < |ps| :: if Named(ps[k]) then Named(qs[k]) else qs[k] == ps[k]
  }

  lemma ShuffledTransitive(ps: seq<Pair>, qs: seq<Pair>, rs: seq<Pair>)
    requires Shuffled(ps, qs) && Shuffled(qs, rs)
    ensures Shuffled(ps, rs)
  {
    forall k | 0 <= k < |ps|
      ensures if Named(ps[k]) then Named(rs[k]) else rs[k] == ps[k]
    {
      assert Named(ps[k]) <==> Named(qs[k]);
    }
  }

  lemma ExchangeShuffles(ps: seq<Pair>, i: nat, j: nat)
    requires i < |ps| && j < |ps| && Named(ps[i])
    ensures Shuffled(ps, Exchange(ps, i, j))
  {
  }

  lemma {:induction false} InnerShuffles(ps: seq<Pair>, i: nat, n: nat)
    requires i < |ps| && n <= |ps| && Named(ps[i])
    ensures Shuffled(ps, Inner(ps, i, n))
  {
    hide Shuffled, Exchange, Named;
    ShuffledItself(ps);
    if n > 0 {
      var qs := Inner(ps, i, n - 1);
      InnerShuffles(ps, i, n - 1);
      StaysNamed(ps, qs, i);
      ExchangeShuffles(qs, i, n - 1);
      ShuffledTransitive(ps, qs, Inner(ps, i, n));
    }
  }

  lemma ShuffledItself(ps: seq<Pair>)
    ensures Shuffled(ps, ps)
  {
  }

  lemma StaysNamed(ps: seq<Pair>, qs: seq<Pair>, i: nat)
    requires Shuffled(ps, qs) && i < |ps| && Named(ps[i])
    ensures |qs| == |ps| && Named(qs[i])
  {
  }

  lemma {:induction false} PassesShuffle(ps: seq<Pair>, n: nat)
    requires n <= |ps|
    ensures Shuffled(ps, Passes(ps, n))
  {
    hide Shuffled, Inner, Named;
    ShuffledItself(ps);
    if n > 0 {
      PassesShuffle(ps, n - 1);
      var qs := Passes(ps, n - 1);
      if Named(qs[n - 1]) {
        InnerShuffles(qs, n - 1, |qs|);
        ShuffledTransitive(ps, qs, Passes(ps, n));
      }
    }
  }

  /** The named nodes before n are in ascending order. */
  ghost predicate Ascending(ps: seq<Pair>, n: nat)
    requires n <= |ps|
  {
    forall a, b | 0 <= a < b < n && Named(ps[a]) && Named(ps[b]) :: Below(ps[a], ps[b])
  }

  /** Of the named nodes before n none is above p. */
  ghost predicate Tops(ps: seq<Pair>, n: nat, p: Pair)
    requires n <= |ps|
  {
    forall k | 0 <= k < n && Named(ps[k]) :: Below(ps[k], p)
  }

  /** Place of the last named node before n, or -1. */
  function LastNamed(ps: seq<Pair>, n: nat): (m: int)
    requires n <= |ps|
    ensures -1 <= m < n && (m >= 0 ==> Named(ps[m])) && (forall k | m < k < n :: !Named(ps[k]))
  {
    if n == 0 then -1 else if Named(ps[n - 1]) then n - 1 else LastNamed(ps, n - 1)
  }

  /** Between two passes: ascending so far, and the last one is the greatest of all. */
  ghost predicate Passed(ps: seq<Pair>, n: nat)
    requires n <= |ps|
  {
    Ascending(ps, n) && (LastNamed(ps, n) >= 0 ==> Tops(ps, |ps|, ps[LastNamed(ps, n)]))
  }

  /** During the pass for node i, before node j: node i tops the nodes compared so far,
      the earlier ones are in order, and the greatest of all is the last of those until
      the pass has reached it, and node i from then on. m is the last named node before i. */
  ghost predicate Passing(ps: seq<Pair>, i: nat, j: nat, m: int)
    requires i < |ps| && j <= |ps| && -1 <= m < i
  {
    && Named(ps[i]) && (m >= 0 ==> Named(ps[m])) && (forall k | m < k < i :: !Named(ps[k]))
    && Ascending(ps, i) && Tops(ps, j, ps[i])
    && (m >= 0 ==> Tops(ps, |ps|, if m >= j then ps[m] else ps[i]))
  }

  lemma PassingStart(ps: seq<Pair>, i: nat)
    requires i < |ps| && Named(ps[i]) && Passed(ps, i)
    ensures Passing(ps, i, 0, LastNamed(ps, i))
  {
  }

  /** A payload below the top of a swap stays below. */
  lemma TopsSwap(ps: seq<Pair>, i: nat, j: nat, n: nat, p: Pair)
    requires i < |ps| && j < |ps| && n <= |ps| && Named(ps[i]) && Named(ps[j])
    requires Tops(ps, n, p) && Below(ps[i], p) && Below(ps[j], p)
    ensures Tops(ps[j := ps[i]][i := ps[j]], n, p)
  {
  }

  lemma TopsHigher(ps: seq<Pair>, n: nat, p: Pair, q: Pair)
    requires n <= |ps| && Tops(ps, n, p) && Below(p, q)
    ensures Tops(ps, n, q)
  {
    forall k | 0 <= k < n && Named(ps[k])
      ensures Below(ps[k], q)
    {
      BelowTransitive(ps[k], p, q);
    }
  }

  /** One comparison that exchanges. */
  lemma SwapStep(ps: seq<Pair>, i: nat, j: nat, m: int)
    requires i < |ps| && j < |ps| && -1 <= m < i && Passing(ps, i, j, m)
    requires Named(ps[j]) && j != i && Less(ps[i].name, ps[j].name)
    ensures Passing(ps[j := ps[i]][i := ps[j]], i, j + 1, m)
  {
    var qs := ps[j := ps[i]][i := ps[j]];
    BelowTotal(ps[i], ps[j]);
    hide Less;
    forall k | 0 <= k < j + 1 && Named(qs[k])
      ensures Below(qs[k], qs[i])
    {
      if k < j && k != i {
        if j < i {
          assert Below(ps[k], ps[j]);
        } else {
          BelowTransitive(ps[k], ps[i], ps[j]);
        }
      } else {
        BelowTotal(qs[i], qs[i]);
      }
    }
    forall a, b | 0 <= a < b < i && Named(qs[a]) && Named(qs[b])
      ensures Below(qs[a], qs[b])
    {
      if a == j {
        BelowTransitive(ps[i], ps[j], ps[b]);
      } else if b == j {
        assert Below(ps[a], ps[i]);
      }
    }
    if m >= 0 {
      TopsSwap(ps, i, j, |ps|, ps[m]);
    }
  }

  /** One comparison that does not. */
  lemma KeepStep(ps: seq<Pair>, i: nat, j: nat, m: int)
    requires i < |ps| && j < |ps| && -1 <= m < i && Passing(ps, i, j, m)
    requires !(Named(ps[j]) && j != i && Less(ps[i].name, ps[j].name))
    ensures Passing(ps, i, j + 1, m)
  {
    BelowTotal(ps[i], ps[i]);
    if m == j {
      TopsHigher(ps, |ps|, ps[m], ps[i]);
    }
  }

  lemma {:induction false} InnerPassing(ps: seq<Pair>, i: nat, n: nat)
    requires i < |ps| && n <= |ps| && Named(ps[i]) && Passed(ps, i)
    ensures Passing(Inner(ps, i, n), i, n, LastNamed(ps, i))
  {
    var m := LastNamed(ps, i);
    if n == 0 {
      PassingStart(ps, i);
    } else {
      InnerPassing(ps, i, n - 1);
      hide Passing, Passed;
      var qs := Inner(ps, i, n - 1);
      if Named(qs[n - 1]) && n - 1 != i && Less(qs[i].name, qs[n - 1].name) {
        SwapStep(qs, i, n - 1, m);
      } else {
        KeepStep(qs, i, n - 1, m);
      }
    }
  }

  lemma PassDone(ps: seq<Pair>, i: nat, m: int)
    requires i < |ps| && -1 <= m < i && Passing(ps, i, |ps|, m)
    ensures Passed(ps, i + 1)
  {
  }

  lemma Unnamed(ps: seq<Pair>, i: nat)
    requires i < |ps| && !Named(ps[i]) && Passed(ps, i)
    ensures Passed(ps, i + 1)
  {
  }

  /** After the pass for node n - 1 the named nodes up to it are in order and the last of
      them is the greatest in the whole section. */
  lemma {:induction false} PassesPassed(ps: seq<Pair>, n: nat)
    requires n <= |ps|
    ensures Passed(Passes(ps, n), n)
  {
    if n > 0 {
      PassesPassed(ps, n - 1);
      hide Passed, Passing;
      var qs := Passes(ps, n - 1);
      if Named(qs[n - 1]) {
        InnerPassing(qs, n - 1, |qs|);
        PassDone(Inner(qs, n - 1, |qs|), n - 1, LastNamed(qs, n - 1));
      } else {
        Unnamed(qs, n - 1);
      }
    }
  }

  /** The names of the named nodes are in dictionary order; equal names may follow each other. */
  ghost predicate InDictionaryOrder(ps: seq<Pair>) {
    forall i, j | 0 <= i < j < |ps| && Named(ps[i]) && Named(ps[j]) ::
      ps[i].name == ps[j].name || Precedes(ps[i].name, ps[j].name)
  }

  lemma AscendingOrder(ps: seq<Pair>)
    requires Ascending(ps, |ps|)
    ensures InDictionaryOrder(ps)
  {
    forall i, j | 0 <= i < j < |ps| && Named(ps[i]) && Named(ps[j])
      ensures ps[i].name == ps[j].name || Precedes(ps[i].name, ps[j].name)
    {
      assert Below(ps[i], ps[j]);
      LessTotal(ps[i].name, ps[j].name);
      LessPrecedes(ps[i].name, ps[j].name);
    }
  }

  /** The surprising sort: comparing every node with every node, always for "greater",
      leaves the named entries in dictionary order, loses or mixes no payload, and moves
      no node without a name. */
  lemma SortSorts(ps: seq<Pair>)
    ensures Shuffled(ps, Sort(ps)) && Ascending(Sort(ps), |ps|) && InDictionaryOrder(Sort(ps))
  {
    hide Shuffled, Ascending, InDictionaryOrder, Passes;
    PassesShuffle(ps, |ps|);
    PassesPassed(ps, |ps|);
    PassedAscends(Sort(ps));
    AscendingOrder(Sort(ps));
  }

  lemma PassedAscends(ps: seq<Pair>)
    requires Passed(ps, |ps|)
    ensures Ascending(ps, |ps|)
  {
  }

  /** Under unique names there is only one ascending arrangement that moves named nodes only. */
  lemma {:induction false} SortedLookup(ps: seq<Pair>, qs: seq<Pair>, name: Text)
    requires Shuffled(ps, qs) && Unique(ps)
    ensures Unique(qs) && Get(qs, name) == Get(ps, name)
  {
    hide Find;
    UniqueByCount(ps, qs);
    var (k, l) := (Find(ps, name), Find(qs, name));
    if name == [] {
      forall i | 0 <= i < |ps|
        ensures ps[i].name == name <==> qs[i].name == name
      {
        assert Named(ps[i]) <==> Named(qs[i]);
      }
      FindIs(qs, name, k);
    } else {
      if k < |ps| {
        StillThere(ps, qs, ps[k]);
      }
      if l < |qs| {
        StillThere(qs, ps, qs[l]);
      }
    }
  }

  lemma StillThere(ps: seq<Pair>, qs: seq<Pair>, p: Pair)
    requires multiset(ps) == multiset(qs) && p in ps
    ensures p in qs
  {
    assert p in multiset(ps);
  }

  /** A permutation of uniquely named payloads is uniquely named. */
  lemma UniqueByCount(ps: seq<Pair>, qs: seq<Pair>)
    requires multiset(ps) == multiset(qs) && Unique(ps)
    ensures Unique(qs)
  {
    forall i, j | 0 <= i < j < |qs| && qs[i].name == qs[j].name
      ensures qs[i].name == []
    {
      assert qs[i] in multiset(ps) && qs[j] in multiset(ps);
      var a :| 0 <= a < |ps| && ps[a] == qs[i];
      var b :| 0 <= b < |ps| && ps[b] == qs[j];
      if a == b {
        CountTwice(qs, i, j);
        assert multiset(ps)[ps[a]] >= 2;
        if qs[i].name != [] {
          CountOnce(ps, a);
        }
      }
    }
  }

  lemma CountTwice(qs: seq<Pair>, i: nat, j: nat)
    requires i < j < |qs| && qs[i] == qs[j]
    ensures multiset(qs)[qs[i]] >= 2
  {
    assert qs == qs[..i] + [qs[i]] + qs[i + 1..j] + [qs[j]] + qs[j + 1..];
  }

  lemma CountOnce(ps: seq<Pair>, a: nat)
    requires a < |ps| && Unique(ps) && ps[a].name != []
    ensures multiset(ps)[ps[a]] == 1
  {
    assert ps == ps[..a] + [ps[a]] + ps[a + 1..];
    assert ps[a] !in ps[..a] && ps[a] !in ps[a + 1..];
  }

  // ---------------------------------------------------------------- sections

  /** Number of named nodes before n. */
  function NamedBefore(ps: seq<Pair>, n: nat): (c: nat)
    requires n <= |ps|
    ensures c > 0 <==> exists k | 0 <= k < n :: Named(ps[k])
  {
    if n == 0 then 0 else NamedBefore(ps, n - 1) + if Named(ps[n - 1]) then 1 else 0
  }

  lemma {:induction false} NamedBeforeGrows(ps: seq<Pair>, i: nat, j: nat)
    requires i < j <= |ps| && Named(ps[i])
    ensures NamedBefore(ps, i) < NamedBefore(ps, j)
    decreases j
  {
    if i < j - 1 {
      NamedBeforeGrows(ps, i, j - 1);
    }
  }

  /** The counters i and j of the double loop tell named nodes apart. */
  lemma CountersTell(ps: seq<Pair>, i: nat, j: nat)
    requires i < |ps| && j < |ps| && Named(ps[i]) && Named(ps[j])
    ensures NamedBefore(ps, i) == NamedBefore(ps, j) <==> i == j
  {
    if i < j {
      NamedBeforeGrows(ps, i, j);
    } else if j < i {
      NamedBeforeGrows(ps, j, i);
    }
  }

  lemma {:induction false} CountKept(ps: seq<Pair>, qs: seq<Pair>, n: nat)
    requires n <= |ps| && Shuffled(ps, qs)
    ensures NamedBefore(qs, n) == NamedBefore(ps, n)
  {
    if n > 0 {
      CountKept(ps, qs, n - 1);
    }
  }

  predicate AnyNamed(ps: seq<Pair>) { exists k | 0 <= k < |ps| :: Named(ps[k]) }

  /** Place of the first section of that name, or the length. */
  function FindSect(v: seq<Sect>, name: Text): (k: nat)
    ensures k <= |v| && (forall i | 0 <= i < k :: v[i].name != name) && (k < |v| ==> v[k].name == name)
  {
    if v == [] || v[0].name == name then 0 else 1 + FindSect(v[1..], name)
  }

  lemma FindSectIs(v: seq<Sect>, name: Text, k: nat)
    requires k <= |v| && (forall i | 0 <= i < k :: v[i].name != name) && (k < |v| ==> v[k].name == name)
    ensures FindSect(v, name) == k
  {
  }

  predicate AllSized(v: seq<Sect>) { forall i | 0 <= i < |v| :: Sized(v[i].ps) && |v[i].name| < NAME_SIZE }

  /** The two-level map: the buffer stored under a section and a key. */
  function Get2(v: seq<Sect>, sec: Text, key: Text): Option<seq<Byte>> {
    var k := FindSect(v, sec);
    if k < |v| then Get(v[k].ps, key) else None
  }

  /** ini_set_string: the section is created if it is missing. */
  function Put2(v: seq<Sect>, sec: Text, key: Text, val: Text): seq<Sect>
    requires AllSized(v)
  {
    var k := FindSect(v, sec);
    if k < |v| then v[k := v[k].(ps := SetIn(v[k].ps, key, val))] else v + [Sect(sec, SetIn([], key, val))]
  }

  /** ini_delete_var. */
  function Drop2(v: seq<Sect>, sec: Text, key: Text): seq<Sect> {
    var k := FindSect(v, sec);
    if k < |v| then v[k := v[k].(ps := DeleteFrom(v[k].ps, key))] else v
  }

  /** ini_delete_section_if_empty: sorted, or dropped if no entry has a name. */
  function Tidied(v: seq<Sect>, k: nat): seq<Sect>
    requires k < |v|
  {
    if AnyNamed(v[k].ps) then v[k := v[k].(ps := Sort(v[k].ps))] else v[..k] + v[k + 1..]
  }

  /** The store is a two-level map: what is put under a section and a key is read back
      there if it fits its buffer, and no other key or section is affected. */
  lemma PutThenGet(v: seq<Sect>, sec: Text, key: Text, val: Text, sec': Text, key': Text)
    requires AllSized(v)
    ensures Get2(Put2(v, sec, key, val), sec, key).Some?
    ensures CString(Get2(Put2(v, sec, key, val), sec, key).value) == Stored(val)
    ensures Reads(Get2(Put2(v, sec, key, val), sec, key).value, val) <==> |val| < DATA_SIZE
    ensures sec' != sec || key' != key ==> Get2(Put2(v, sec, key, val), sec', key') == Get2(v, sec', key')
  {
    hide *;
    PutThere(v, sec, key, val, key');
    if sec' != sec {
      PutElsewhere(v, sec, key, val, sec', key');
    }
  }

  lemma PutThere(v: seq<Sect>, sec: Text, key: Text, val: Text, key': Text)
    requires AllSized(v)
    ensures var u := Put2(v, sec, key, val);
            && Get2(u, sec, key).Some? && CString(Get2(u, sec, key).value) == Stored(val)
            && (Reads(Get2(u, sec, key).value, val) <==> |val| < DATA_SIZE)
            && (key' != key ==> Get2(u, sec, key') == Get2(v, sec, key'))
  {
    hide SetIn, Reads, Stored, CString;
    var k := FindSect(v, sec);
    SetThenGet(if k < |v| then v[k].ps else [], key, val, key');
    FindSectIs(Put2(v, sec, key, val), sec, k);
  }

  lemma PutElsewhere(v: seq<Sect>, sec: Text, key: Text, val: Text, sec': Text, key': Text)
    requires AllSized(v) && sec' != sec
    ensures Get2(Put2(v, sec, key, val), sec', key') == Get2(v, sec', key')
  {
    hide SetIn, Get;
    var l := FindSect(v, sec');
    FindSectIs(Put2(v, sec, key, val), sec', if l < |v| then l else |Put2(v, sec, key, val)|);
  }

  lemma DropThenGet(v: seq<Sect>, sec: Text, key: Text, sec': Text, key': Text)
    ensures sec' != sec || key' != key ==> Get2(Drop2(v, sec, key), sec', key') == Get2(v, sec', key')
    ensures FindSect(v, sec) < |v| && Unique(v[FindSect(v, sec)].ps) && key != [] ==>
            Get2(Drop2(v, sec, key), sec, key).None?
  {
    var k := FindSect(v, sec);
    FindSectIs(Drop2(v, sec, key), sec, k);
    FindSectIs(Drop2(v, sec, key), sec', FindSect(v, sec'));
    if k < |v| {
      DeleteThenGet(v[k].ps, key, key');
    }
    hide DeleteFrom;
  }

  /** A section is gone after tidying exactly when none of its entries has a name. */
  lemma TidyDrops(v: seq<Sect>, k: nat)
    requires k < |v| && forall i, j | 0 <= i < j < |v| :: v[i].name != v[j].name
    ensures FindSect(Tidied(v, k), v[k].name) == |Tidied(v, k)| <==>
            forall i | 0 <= i < |v[k].ps| :: v[k].ps[i].name == []
  {
    hide Sort;
    var u := Tidied(v, k);
    if AnyNamed(v[k].ps) {
      assert u[k].name == v[k].name;
    } else {
      forall i | 0 <= i < |u|
        ensures u[i].name != v[k].name
      {
        assert u[i] == v[if i < k then i else i + 1];
      }
    }
  }

  /** Tidying a section changes no lookup, if names are unique. */
  lemma TidyKeeps(v: seq<Sect>, k: nat, sec: Text, key: Text)
    requires k < |v| && Unique(v[k].ps) && key != []
    requires forall i, j | 0 <= i < j < |v| :: v[i].name != v[j].name
    ensures Get2(Tidied(v, k), sec, key) == Get2(v, sec, key)
  {
    if AnyNamed(v[k].ps) {
      SortKeeps(v, k, sec, key);
    } else {
      EmptyKeeps(v, k, sec, key);
    }
  }

  lemma SortKeeps(v: seq<Sect>, k: nat, sec: Text, key: Text)
    requires k < |v| && Unique(v[k].ps)
    ensures Get2(v[k := v[k].(ps := Sort(v[k].ps))], sec, key) == Get2(v, sec, key)
  {
    SortSorts(v[k].ps);
    SortedLookup(v[k].ps, Sort(v[k].ps), key);
    hide Sort, Get;
    FindSectIs(v[k := v[k].(ps := Sort(v[k].ps))], sec, FindSect(v, sec));
  }

  lemma EmptyKeeps(v: seq<Sect>, k: nat, sec: Text, key: Text)
    requires k < |v| && !AnyNamed(v[k].ps) && key != []
    requires forall i, j | 0 <= i < j < |v| :: v[i].name != v[j].name
    ensures Get2(v[..k] + v[k + 1..], sec, key) == Get2(v, sec, key)
  {
    hide AnyNamed;
    var l := FindSect(v, sec);
    NoneNamed(v[k].ps, key);
    FindSectIs(v[..k] + v[k + 1..], sec, if l == k then |v| - 1 else if l < k then l else l - 1);
  }

  lemma NoneNamed(ps: seq<Pair>, key: Text)
    requires !AnyNamed(ps) && key != []
    ensures Get(ps, key) == None
  {
    assert Find(ps, key) < |ps| ==> Named(ps[Find(ps, key)]);
  }
}
