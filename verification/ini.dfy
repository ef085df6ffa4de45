/** The INI store in place: a list of sections, each with a list of entries, appended,
    unlinked and sorted by exchanging payloads. */
module Ini {
  import opened IniModel

  class Entry {
    var next: Entry?
    var name: Text
    var data: seq<Byte>

    /** calloc and the copy of the name. */
    constructor (name: Text)
      ensures next == null && this.name == name && data == Zeros()
    {
      next, this.name, data := null, name, Zeros();
    }
  }

  class Section {
    var next: Section?
    var name: Text
    /** entry_head.next. */
    var head: Entry?
    ghost var nodes: seq<Entry>
    ghost var ps: seq<Pair>

    constructor (name: Text)
      ensures Valid() && next == null && this.name == name && head == null && ps == [] && nodes == []
    {
      next, this.name, head := null, name, null;
      nodes, ps := [], [];
    }

    /** The name and the entries are as they were. */
    twostate predicate Stays()
      reads this
    {
      name == old(name) && head == old(head) && nodes == old(nodes) && ps == old(ps)
    }

    ghost function NodeAt(i: int): Entry?
      reads `nodes
    {
      if 0 <= i < |nodes| then nodes[i] else null
    }

    /** Node i links to the next one and holds payload i. */
    ghost predicate Holds(i: nat)
      requires i < |nodes| == |ps|
      reads `nodes, `ps, nodes[i]
    {
      nodes[i].next == NodeAt(i + 1) && nodes[i].name == ps[i].name && nodes[i].data == ps[i].data
    }

    /** The nodes form one list without a cycle and hold the payloads in order. */
    ghost predicate Valid()
      reads `head, `nodes, `ps, nodes
    {
      && head == NodeAt(0) && |ps| == |nodes| && Sized(ps)
      && (forall i, j | 0 <= i < j < |nodes| :: nodes[i] != nodes[j])
      && (forall i | 0 <= i < |nodes| :: Holds(i))
    }

    lemma HoldsAt(i: nat)
      requires Valid() && i < |nodes|
      ensures |ps| == |nodes| && nodes[i].next == NodeAt(i + 1) && nodes[i].name == ps[i].name &&
              nodes[i].data == ps[i].data
      ensures |ps[i].data| == DATA_SIZE && |ps[i].name| < NAME_SIZE
    {
      assert Holds(i);
    }

    /** find_entry. */
    method FindEntry(name: Text) returns (e: Entry?)
      requires Valid()
      ensures e == NodeAt(Find(ps, name)) && |ps| == |nodes|
    {
      hide Holds;
      e := head;
      ghost var k := 0;
      while e != null
        invariant 0 <= k <= |nodes| && e == NodeAt(k) && forall i | 0 <= i < k :: ps[i].name != name
        decreases |nodes| - k
      {
        HoldsAt(k);
        if e.name == name {
          FindIs(ps, name, k);
          return;
        }
        e := e.next;
        k := k + 1;
      }
      FindIs(ps, name, k);
    }

    /** list_add of a new entry. */
    method Append(e: Entry)
      requires Valid() && e !in nodes && |e.data| == DATA_SIZE && |e.name| < NAME_SIZE
      modifies `head, `nodes, `ps, e, nodes
      ensures Valid() && nodes == old(nodes) + [e] && ps == old(ps) + [Pair(old(e.name), old(e.data))]
    {
      if head == null {
        head := e;
      } else {
        var last: Entry := head;
        ghost var k := 0;
        while last.next != null
          invariant 0 <= k < |nodes| && last == nodes[k]
          decreases |nodes| - k
        {
          assert Holds(k);
          last := last.next;
          k := k + 1;
        }
        assert Holds(k);
        last.next := e;
      }
      e.next := null;
      nodes, ps := nodes + [e], ps + [Pair(e.name, e.data)];
      forall i | 0 <= i < |nodes|
        ensures Holds(i)
      {
        assert i < |nodes| - 1 ==> old(Holds(i));
      }
    }

    /** list_delete of node k: the node before it is found and linked past it. */
    method Remove(e: Entry, ghost k: nat)
      requires Valid() && k < |nodes| && nodes[k] == e
      modifies `head, `nodes, `ps, nodes
      ensures Valid() && nodes == old(nodes)[..k] + old(nodes)[k + 1..] && |old(ps)| == |old(nodes)|
      ensures ps == old(ps)[..k] + old(ps)[k + 1..]
    {
      assert Holds(k);
      if head == e {
        head := e.next;
      } else {
        var prev: Entry := head;
        ghost var i := 0;
        while prev.next != e
          invariant 0 <= i < k && prev == nodes[i]
          decreases k - i
        {
          assert Holds(i);
          assert Holds(i + 1);
          prev := prev.next;
          i := i + 1;
        }
        assert Holds(i);
        prev.next := e.next;
      }
      nodes, ps := nodes[..k] + nodes[k + 1..], ps[..k] + ps[k + 1..];
      forall j | 0 <= j < |nodes|
        ensures Holds(j)
      {
        assert if j < k then old(Holds(j)) else old(Holds(j + 1));
      }
    }

    /** Splice one payload. */
    method PutPayload(e: Entry, name: Text, data: seq<Byte>, ghost k: nat)
      requires Valid() && k < |nodes| && nodes[k] == e && |data| == DATA_SIZE && |name| < NAME_SIZE
      modifies e`name, e`data, `ps
      ensures Valid() && |old(ps)| == |nodes| && ps == old(ps)[k := Pair(name, data)]
    {
      e.name, e.data := name, data;
      ps := ps[k := Pair(name, data)];
      forall j | 0 <= j < |nodes|
        ensures Holds(j)
      {
        assert old(Holds(j));
      }
    }

    /** create_entry. */
    method CreateEntry(name: Text) returns (e: Entry)
      requires Valid() && |name| < NAME_SIZE
      modifies `head, `nodes, `ps, nodes
      ensures Valid() && fresh(e) && nodes == old(nodes) + [e] && ps == old(ps) + [Pair(name, Zeros())]
    {
      hide Valid, Zeros;
      e := new Entry(name);
      Append(e);
    }

    /** ini_section_set_string. */
    method SetString(key: Text, val: Text)
      requires Valid() && |key| < NAME_SIZE
      modifies `head, `nodes, `ps, nodes
      ensures Valid() && Sized(old(ps)) && ps == SetIn(old(ps), key, val) &&
              fresh(set e | e in nodes && e !in old(nodes))
    {
      hide Holds, Zeros, CopyIn;
      var ent := FindEntry(key);
      if ent == null {
        ent := CreateEntry(key);
      }
      ghost var k := Find(old(ps), key);
      HoldsAt(k);
      PutPayload(ent, ent.name, CopyIn(ent.data, val), k);
    }

    /** ini_section_get_string, with nothing for the default. */
    method GetString(key: Text) returns (r: Option<seq<Byte>>)
      requires Valid()
      ensures r == Get(ps, key)
    {
      hide Holds;
      var ent := FindEntry(key);
      if ent == null {
        return None;
      }
      HoldsAt(Find(ps, key));
      return Some(ent.data);
    }

    /** ini_section_delete_var. */
    method DeleteVar(key: Text)
      requires Valid()
      modifies `head, `nodes, `ps, nodes
      ensures Valid() && ps == DeleteFrom(old(ps), key) && forall e | e in nodes :: e in old(nodes)
    {
      hide Valid, Holds, Find;
      var ent := FindEntry(key);
      if ent != null {
        Remove(ent, Find(ps, key));
      }
    }

    /** entries_num. */
    method CountNamed() returns (n: nat)
      requires Valid()
      ensures |ps| == |nodes| && n == NamedBefore(ps, |ps|)
    {
      hide Holds;
      var ent := head;
      ghost var k := 0;
      n := 0;
      while ent != null
        invariant 0 <= k <= |nodes| && ent == NodeAt(k) && n == NamedBefore(ps, k)
        decreases |nodes| - k
      {
        HoldsAt(k);
        if |ent.name| > 0 {
          n := n + 1;
        }
        ent := ent.next;
        k := k + 1;
      }
    }

    /** Exchange the payloads of two nodes. */
    method SwapPayloads(a: Entry, b: Entry, ghost i: nat, ghost j: nat)
      requires Valid() && i < |nodes| && j < |nodes| && i != j && nodes[i] == a && nodes[j] == b
      modifies a`name, a`data, b`name, b`data, `ps
      ensures Valid() && |old(ps)| == |nodes| && ps == old(ps)[j := old(ps)[i]][i := old(ps)[j]]
    {
      hide Valid, Holds;
      HoldsAt(i);
      HoldsAt(j);
      var name, data := b.name, b.data;
      PutPayload(b, a.name, a.data, j);
      PutPayload(a, name, data, i);
    }

    /** The double loop of delete_section_if_empty. */
    method SortEntries()
      requires Valid()
      modifies `ps, nodes
      ensures Valid() && ps == Sort(old(ps)) && InDictionaryOrder(ps)
    {
      hide Valid, Holds, Inner, Shuffled, InDictionaryOrder, Ascending;
      ValidHead();
      SortSorts(ps);
      var i := 0;
      var iEnt := head;
      ghost var p, ps0 := 0, ps;
      ShuffledItself(ps0);
      while iEnt != null
        invariant Valid() && |ps| == |nodes| == |ps0| && 0 <= p <= |nodes| && iEnt == NodeAt(p)
        invariant ps == Passes(ps0, p) && Shuffled(ps0, ps) && i == NamedBefore(ps, p)
        decreases |nodes| - p
      {
        HoldsAt(p);
        var iNext := iEnt.next;
        PassesShuffle(ps0, p + 1);
        CountKept(ps0, Passes(ps0, p), p);
        CountKept(ps0, Passes(ps0, p + 1), p);
        CountStep(ps0, p);
        if |iEnt.name| > 0 {
          OnePass(iEnt, i, p);
          i := i + 1;
        }
        iEnt := iNext;
        p := p + 1;
      }
    }

    lemma CountStep(ps0: seq<Pair>, p: nat)
      requires p < |ps0|
      ensures NamedBefore(Passes(ps0, p + 1), p + 1) == NamedBefore(ps0, p) + if Named(Passes(ps0, p)[p]) then 1 else 0
      ensures NamedBefore(Passes(ps0, p), p) == NamedBefore(ps0, p)
    {
      PassesShuffle(ps0, p);
      PassesShuffle(ps0, p + 1);
      CountKept(ps0, Passes(ps0, p), p);
      CountKept(ps0, Passes(ps0, p + 1), p);
    }

    lemma ValidHead()
      requires Valid()
      ensures head == NodeAt(0) && |ps| == |nodes|
    {
    }

    /** The inner loop, for node p, the i-th with a name. */
    method OnePass(iEnt: Entry, i: int, ghost p: nat)
      requires Valid() && p < |nodes| == |ps| && nodes[p] == iEnt && Named(ps[p]) && i == NamedBefore(ps, p)
      modifies `ps, nodes
      ensures Valid() && |ps| == |old(ps)| && ps == Inner(old(ps), p, |nodes|)
    {
      hide Valid, Holds, Shuffled;
      ValidHead();
      var j := 0;
      var jEnt := head;
      ghost var q, ps0 := 0, ps;
      while jEnt != null
        invariant Valid() && |ps| == |nodes| == |ps0| && 0 <= q <= |nodes| && jEnt == NodeAt(q)
        invariant ps == Inner(ps0, p, q) && j == NamedBefore(ps0, q)
        decreases |nodes| - q
      {
        HoldsAt(p);
        HoldsAt(q);
        InnerShuffles(ps0, p, q);
        KeepsNames(ps0, ps, p, q);
        var jNext := jEnt.next;
        if |jEnt.name| > 0 {
          CountersTell(ps0, p, q);
          if j != i && Less(iEnt.name, jEnt.name) {
            SwapPayloads(iEnt, jEnt, p, q);
          }
          j := j + 1;
        }
        jEnt := jNext;
        q := q + 1;
      }
    }

    lemma KeepsNames(ps0: seq<Pair>, qs: seq<Pair>, p: nat, q: nat)
      requires Shuffled(ps0, qs) && p < |ps0| && q < |ps0| && Named(ps0[p])
      ensures |qs| == |ps0| && Named(qs[p]) && (Named(qs[q]) <==> Named(ps0[q]))
    {
    }
  }

  /** The sections share no node. */
  ghost predicate Apart(parts: seq<set<Entry>>) {
    forall i, j | 0 <= i < j < |parts| :: parts[i] !! parts[j]
  }

  lemma ApartIn(parts: seq<set<Entry>>)
    requires Apart(parts)
    ensures Apart(parts + [{}])
  {
  }

  lemma ApartOut(parts: seq<set<Entry>>, k: nat)
    requires Apart(parts) && k < |parts|
    ensures Apart(parts[..k] + parts[k + 1..])
  {
  }

  /** The store: a list of sections. */
  class Store {
    var head: Section?
    ghost var sects: seq<Section>
    /** The nodes of each section. */
    ghost var parts: seq<set<Entry>>
    /** The store as a value. */
    ghost var v: seq<Sect>
    ghost var Repr: set<object>

    /** ini_new. */
    constructor ()
      ensures Valid() && v == []
    {
      head := null;
      sects, parts, v := [], [], [];
      Repr := {};
    }

    ghost function SectAt(i: int): Section?
      reads `sects
    {
      if 0 <= i < |sects| then sects[i] else null
    }

    ghost predicate Linked(i: nat)
      requires i < |sects|
      reads `sects, sects[i]
    {
      sects[i].next == SectAt(i + 1)
    }

    /** Section i is valid and is the i-th of v. */
    ghost predicate Owns(i: nat)
      requires i < |sects| == |parts| == |v|
      reads `sects, `parts, `v, sects[i], parts[i]
    {
      var s := sects[i];
      && parts[i] == (set e | e in s.nodes) && s.Valid() && v[i] == Sect(s.name, s.ps) && |s.name| < NAME_SIZE
    }

    ghost predicate Valid()
      reads this, Repr
    {
      && |sects| == |parts| == |v| && Apart(parts) && head == SectAt(0) && this !in Repr
      && (forall i | 0 <= i < |sects| :: sects[i] in Repr && parts[i] <= Repr)
      && (forall i, j | 0 <= i < j < |sects| :: sects[i] != sects[j])
      && (forall i | 0 <= i < |sects| :: Linked(i))
      && (forall i | 0 <= i < |sects| :: Owns(i))
    }

    lemma Facts(i: nat)
      requires Valid() && i < |sects|
      ensures |sects| == |parts| == |v| && Linked(i) && Owns(i) && sects[i] in Repr && parts[i] <= Repr
      ensures sects[i].Valid() && v[i] == Sect(sects[i].name, sects[i].ps) && |sects[i].name| < NAME_SIZE
      ensures Sized(v[i].ps) && sects[i].next == SectAt(i + 1)
      ensures sects[i] in Repr && forall e | e in sects[i].nodes :: e in Repr && e in parts[i]
    {
    }

    lemma Shape()
      requires Valid()
      ensures |sects| == |parts| == |v| && head == SectAt(0) && AllSized(v)
    {
      forall i | 0 <= i < |v|
        ensures Sized(v[i].ps) && |v[i].name| < NAME_SIZE
      {
        Facts(i);
      }
    }

    /** find_section. */
    method FindSection(name: Text) returns (s: Section?)
      requires Valid()
      ensures s == SectAt(FindSect(v, name)) && |v| == |sects|
    {
      hide Valid, Owns, Linked;
      Shape();
      s := head;
      ghost var k := 0;
      while s != null
        invariant 0 <= k <= |sects| && s == SectAt(k) && forall i | 0 <= i < k :: v[i].name != name
        decreases |sects| - k
      {
        Facts(k);
        if s.name == name {
          FindSectIs(v, name, k);
          return;
        }
        s := s.next;
        k := k + 1;
      }
      FindSectIs(v, name, k);
    }

    /** Section i is as it was. */
    twostate lemma OwnsKept(i: nat)
      requires i < |sects| == |parts| == |v| && i < |old(sects)| == |old(parts)| == |old(v)|
      requires sects[i] == old(sects)[i] && parts[i] == old(parts)[i] && v[i] == old(v)[i]
      requires old(Owns(i)) && unchanged(parts[i])
      requires sects[i].Stays()
      ensures Owns(i)
    {
      assert sects[i].Valid() by {
        forall j | 0 <= j < |sects[i].nodes|
          ensures sects[i].Holds(j)
        {
          assert old(sects[i].Holds(j));
          assert sects[i].nodes[j] in parts[i];
        }
      }
    }

    /** list_add of a section that is not in the list. */
    method ChainIn(s: Section)
      requires head == SectAt(0) && s !in sects
      requires (forall i | 0 <= i < |sects| :: Linked(i)) && forall i, j | 0 <= i < j < |sects| :: sects[i] != sects[j]
      modifies `head, `sects, s, set t | t in sects
      ensures head == SectAt(0) && sects == old(sects) + [s] && forall i | 0 <= i < |sects| :: Linked(i)
      ensures s.Stays() && forall t | t in old(sects) :: t.Stays()
    {
      if head == null {
        head := s;
      } else {
        var last: Section := head;
        ghost var k := 0;
        while last.next != null
          invariant 0 <= k < |sects| && last == sects[k]
          decreases |sects| - k
        {
          assert Linked(k);
          last := last.next;
          k := k + 1;
        }
        assert Linked(k);
        last.next := s;
      }
      s.next := null;
      sects := sects + [s];
      forall i | 0 <= i < |sects|
        ensures Linked(i)
      {
        assert i < |old(sects)| ==> old(Linked(i));
      }
    }

    /** A section without entries is in order. */
    lemma OwnsNew(i: nat)
      requires i < |sects| == |parts| == |v| && parts[i] == {} && |sects[i].name| < NAME_SIZE &&
               v[i] == Sect(sects[i].name, [])
      requires sects[i].head == null && sects[i].nodes == [] && sects[i].ps == []
      ensures Owns(i)
    {
    }

    /** create_section. */
    method CreateSection(name: Text) returns (s: Section)
      requires Valid() && |name| < NAME_SIZE
      modifies this, set t | t in sects
      ensures Valid() && fresh(s) && sects == old(sects) + [s] && v == old(v) + [Sect(name, [])]
      ensures Repr == old(Repr) + {s}
    {
      hide Linked, Owns, Section.Valid, Apart;
      ApartIn(parts);
      s := new Section(name);
      ChainIn(s);
      parts, v := parts + [{}], v + [Sect(name, [])];
      Repr := Repr + {s};
      OwnsNew(|sects| - 1);
      forall i | 0 <= i < |sects|
        ensures Owns(i)
      {
        if i < |old(sects)| {
          assert old(Owns(i));
          OwnsKept(i);
        }
      }
    }

    /** ini_find_or_create_section. */
    method FindOrCreateSection(name: Text) returns (s: Section)
      requires Valid() && |name| < NAME_SIZE
      modifies this, set t | t in sects
      ensures Valid() && |v| == |sects| && FindSect(v, name) < |v| && s == sects[FindSect(v, name)]
      ensures v == if FindSect(old(v), name) < |old(v)| then old(v) else old(v) + [Sect(name, [])]
      ensures fresh(Repr - old(Repr))
    {
      hide Valid, Owns, Linked;
      Shape();
      var t := FindSection(name);
      if t == null {
        s := CreateSection(name);
        Shape();
        FindSectIs(v, name, |v| - 1);
      } else {
        s := t;
      }
    }

    /** Section k has been worked on; the others are as they were. */
    twostate lemma SectionChanged(k: nat)
      requires old(Valid()) && k < |old(sects)| && unchanged(`sects, `head)
      requires parts == old(parts)[k := set e | e in sects[k].nodes] && |v| == |sects| && v == old(v)[k := v[k]]
      requires old(Repr) <= Repr && (forall e | e in Repr :: e in old(Repr) || e in sects[k].nodes)
      requires forall e | e in sects[k].nodes :: e in Repr
      requires forall e | e in sects[k].nodes :: e in old(parts)[k] || e !in old(Repr)
      requires Owns(k) && sects[k].next == old(sects[k].next)
      requires unchanged(old(Repr) - {this, sects[k]} - old(parts)[k])
      ensures Valid()
    {
      forall i | 0 <= i < |sects|
        ensures Linked(i) && Owns(i)
      {
        assert old(Linked(i)) && old(Owns(i));
        if i != k {
          OwnsKept(i);
        }
      }
    }

    /** ini_section_set_string on section k. */
    method SetInSection(s: Section, key: Text, val: Text, ghost k: nat)
      requires Valid() && k < |sects| && sects[k] == s && |key| < NAME_SIZE
      modifies Repr, `parts, `v, `Repr
      ensures Valid() && |old(v)| == |sects| && Sized(old(v)[k].ps)
      ensures v == old(v)[k := Sect(old(v)[k].name, SetIn(old(v)[k].ps, key, val))]
    {
      hide Section.Valid, SetIn, Linked, Section.Holds;
      Facts(k);
      s.SetString(key, val);
      parts := parts[k := set e | e in s.nodes];
      v := v[k := Sect(s.name, s.ps)];
      Repr := Repr + set e | e in s.nodes;
      SectionChanged(k);
    }

    /** ini_set_string. */
    method SetString(sec: Text, key: Text, val: Text)
      requires Valid() && |sec| < NAME_SIZE && |key| < NAME_SIZE
      modifies this, Repr
      ensures Valid() && AllSized(old(v)) && v == Put2(old(v), sec, key, val)
    {
      hide *;
      Shape();
      InRepr();
      ghost var v0 := v;
      var s := FindOrCreateSection(sec);
      Shape();
      ghost var k := FindSect(v, sec);
      Facts(k);
      SetInSection(s, key, val, k);
      PutIs(v0, v, sec, key, val);
    }

    lemma InRepr()
      requires Valid()
      ensures forall s | s in sects :: s in Repr
    {
    }

    /** ini_get_string, with nothing for the default. */
    method GetString(sec: Text, key: Text) returns (r: Option<seq<Byte>>)
      requires Valid()
      ensures r == Get2(v, sec, key)
    {
      hide Valid, Owns, Linked, Section.Valid;
      var s := FindSection(sec);
      if s == null {
        return None;
      }
      Facts(FindSect(v, sec));
      r := s.GetString(key);
    }

    /** ini_delete_var. */
    method DeleteVar(sec: Text, key: Text)
      requires Valid()
      modifies Repr, `parts, `v, `Repr
      ensures Valid() && v == Drop2(old(v), sec, key)
    {
      hide Section.Valid, DeleteFrom, Linked, Section.Holds;
      var s := FindSection(sec);
      if s != null {
        ghost var k := FindSect(v, sec);
        Facts(k);
        s.DeleteVar(key);
        parts := parts[k := set e | e in s.nodes];
        v := v[k := Sect(s.name, s.ps)];
        SectionChanged(k);
      }
    }

    /** ini_delete_section_if_empty. */
    method DeleteSectionIfEmpty(s: Section, ghost k: nat)
      requires Valid() && k < |sects| == |v| && sects[k] == s
      modifies this, Repr
      ensures Valid() && v == Tidied(old(v), k)
    {
      hide Section.Valid, Sort, Linked, Section.Holds;
      Facts(k);
      var n := s.CountNamed();
      if n > 0 {
        s.SortEntries();
        v := v[k := Sect(s.name, s.ps)];
        SectionChanged(k);
      } else {
        RemoveSection(s, k);
      }
    }

    /** list_delete of section k: the one before it is linked past it. */
    method ChainOut(s: Section, ghost k: nat)
      requires head == SectAt(0) && k < |sects| && sects[k] == s
      requires (forall i | 0 <= i < |sects| :: Linked(i)) && forall i, j | 0 <= i < j < |sects| :: sects[i] != sects[j]
      modifies `head, `sects, set t | t in sects
      ensures head == SectAt(0) && sects == old(sects)[..k] + old(sects)[k + 1..] &&
              forall i | 0 <= i < |sects| :: Linked(i)
      ensures forall t | t in old(sects) :: t.Stays()
    {
      assert Linked(k);
      if head == s {
        head := s.next;
      } else {
        var prev: Section := head;
        ghost var i := 0;
        while prev.next != s
          invariant 0 <= i < k && prev == sects[i]
          decreases k - i
        {
          assert Linked(i);
          assert Linked(i + 1);
          prev := prev.next;
          i := i + 1;
        }
        assert Linked(i);
        prev.next := s.next;
      }
      sects := sects[..k] + sects[k + 1..];
      forall j | 0 <= j < |sects|
        ensures Linked(j)
      {
        assert if j < k then old(Linked(j)) else old(Linked(j + 1));
      }
    }

    method RemoveSection(s: Section, ghost k: nat)
      requires Valid() && k < |sects| == |v| && sects[k] == s
      modifies this, set t | t in sects
      ensures Valid() && sects == old(sects)[..k] + old(sects)[k + 1..] && v == old(v)[..k] + old(v)[k + 1..]
    {
      hide Owns, Linked, Section.Valid, Apart;
      ApartOut(parts, k);
      ChainOut(s, k);
      parts, v := parts[..k] + parts[k + 1..], v[..k] + v[k + 1..];
      OwnsLeft(k);
    }

    /** The other sections are owned as before. */
    twostate lemma OwnsLeft(k: nat)
      requires old(Valid()) && k < |old(sects)| == |old(parts)| == |old(v)|
      requires sects == old(sects)[..k] + old(sects)[k + 1..] && parts == old(parts)[..k] + old(parts)[k + 1..]
      requires v == old(v)[..k] + old(v)[k + 1..]
      requires forall t | t in old(sects) :: t.Stays()
      requires forall i | 0 <= i < |old(parts)| :: unchanged(old(parts)[i])
      ensures forall j | 0 <= j < |sects| :: Owns(j)
    {
      hide Owns, Linked, Section.Valid, Apart;
      forall j | 0 <= j < |sects|
        ensures Owns(j)
      {
        if j < k {
          assert old(Owns(j));
          OwnsKept(j);
        } else {
          assert old(Owns(j + 1));
          OwnsShifted(j);
        }
      }
    }

    /** The same one place lower. */
    twostate lemma OwnsShifted(j: nat)
      requires j < |sects| == |parts| == |v| && j + 1 < |old(sects)| == |old(parts)| == |old(v)|
      requires sects[j] == old(sects)[j + 1] && parts[j] == old(parts)[j + 1] && v[j] == old(v)[j + 1]
      requires old(Owns(j + 1)) && unchanged(parts[j])
      requires sects[j].Stays()
      ensures Owns(j)
    {
      assert sects[j].Valid() by {
        forall i | 0 <= i < |sects[j].nodes|
          ensures sects[j].Holds(i)
        {
          assert old(sects[j + 1].Holds(i));
          assert sects[j].nodes[i] in parts[j];
        }
      }
    }
  }

  lemma PutIs(v0: seq<Sect>, v: seq<Sect>, sec: Text, key: Text, val: Text)
    requires AllSized(v0) && |sec| < NAME_SIZE
    requires var w := if FindSect(v0, sec) < |v0| then v0 else v0 + [Sect(sec, [])];
             var k := FindSect(w, sec);
             k < |w| && AllSized(w) && v == w[k := Sect(w[k].name, SetIn(w[k].ps, key, val))]
    ensures v == Put2(v0, sec, key, val)
  {
    var k := FindSect(v0, sec);
    if k == |v0| {
      FindSectIs(v0 + [Sect(sec, [])], sec, k);
    }
  }
}
