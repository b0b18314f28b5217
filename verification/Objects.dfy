/** Building an object by assigning its properties one after another, as both decoders do. */
module Objects {
  import opened Bytes

  datatype Property<+V> = Property(name: bytes, value: V)

  /** `obj[name] = value`: overwrite in place, or append a new property. */
  function Put<V>(fields: seq<Property<V>>, name: bytes, value: V): seq<Property<V>> {
    if fields == [] then [Property(name, value)]
    else if fields[0].name == name then [Property(name, value)] + fields[1..]
    else [fields[0]] + Put(fields[1..], name, value)
  }

  function PutAll<V>(acc: seq<Property<V>>, props: seq<Property<V>>): seq<Property<V>>
    decreases |props|
  {
    if props == [] then acc else PutAll(Put(acc, props[0].name, props[0].value), props[1..])
  }

  // ---- what has been assigned ------------------------------------------------------

  /** Where a name is first assigned to; the number of assignments if it never is. */
  function FirstAt<V>(ps: seq<Property<V>>, name: bytes): (i: nat)
    ensures i <= |ps| && (i < |ps| ==> ps[i].name == name)
    ensures forall j :: 0 <= j < i ==> ps[j].name != name
  {
    if ps == [] || ps[0].name == name then 0 else 1 + FirstAt(ps[1..], name)
  }

  /** Where it is last assigned to; -1 if it never is. */
  function LastAt<V>(ps: seq<Property<V>>, name: bytes): (i: int)
    ensures -1 <= i < |ps| && (i >= 0 ==> ps[i].name == name)
    ensures forall j :: i < j < |ps| ==> ps[j].name != name
  {
    if ps == [] then -1
    else if ps[|ps| - 1].name == name then |ps| - 1
    else LastAt(ps[..|ps| - 1], name)
  }

  ghost predicate Standing<V>(fs: seq<Property<V>>, name: bytes) {
    exists a :: 0 <= a < |fs| && fs[a].name == name
  }

  ghost predicate AllStand<V>(ps: seq<Property<V>>, fs: seq<Property<V>>) {
    forall i :: 0 <= i < |ps| ==> Standing(fs, ps[i].name)
  }

  ghost predicate LastCounts<V>(ps: seq<Property<V>>, fs: seq<Property<V>>) {
    forall a :: 0 <= a < |fs| ==> LastAt(ps, fs[a].name) >= 0 && fs[a].value == ps[LastAt(ps, fs[a].name)].value
  }

  ghost predicate FirstOrders<V>(ps: seq<Property<V>>, fs: seq<Property<V>>) {
    forall a, b :: 0 <= a < b < |fs| ==> FirstAt(ps, fs[a].name) < FirstAt(ps, fs[b].name)
  }

  /**
   The object that assignments make: each name assigned to stands once, with the value last assigned
   to it, and names stand in the order of their first assignments.
   */
  ghost predicate IsObjectOf<V>(ps: seq<Property<V>>, fs: seq<Property<V>>) {
    AllStand(ps, fs) && LastCounts(ps, fs) && FirstOrders(ps, fs)
  }

  lemma {:induction false} PutOverwrites<V>(fs: seq<Property<V>>, name: bytes, value: V, i: nat)
    requires i < |fs| && fs[i].name == name && forall j :: 0 <= j < i ==> fs[j].name != name
    ensures Put(fs, name, value) == fs[i := Property(name, value)]
    decreases i
  {
    if i > 0 {
      PutOverwrites(fs[1..], name, value, i - 1);
      assert fs[0].name != name;
    }
  }

  lemma {:induction false} PutAppends<V>(fs: seq<Property<V>>, name: bytes, value: V)
    requires forall j :: 0 <= j < |fs| ==> fs[j].name != name
    ensures Put(fs, name, value) == fs + [Property(name, value)]
    decreases |fs|
  {
    if fs != [] {
      PutAppends(fs[1..], name, value);
      assert fs[0].name != name;
    }
  }

  lemma PutIs<V>(fs: seq<Property<V>>, name: bytes, value: V)
    ensures var i := FirstAt(fs, name);
            Put(fs, name, value) == if i < |fs| then fs[i := Property(name, value)] else fs + [Property(name, value)]
  {
    hide Put;
    var i := FirstAt(fs, name);
    if i < |fs| {
      PutOverwrites(fs, name, value, i);
    } else {
      PutAppends(fs, name, value);
    }
  }

  lemma {:induction false} FirstOfMore<V>(ps: seq<Property<V>>, p: Property<V>, name: bytes)
    ensures FirstAt(ps + [p], name)
         == if FirstAt(ps, name) < |ps| then FirstAt(ps, name) else if p.name == name then |ps| else |ps| + 1
  {
    if ps != [] && ps[0].name != name {
      FirstOfMore(ps[1..], p, name);
      assert (ps + [p])[1..] == ps[1..] + [p];
    }
  }

  lemma LastOfMore<V>(ps: seq<Property<V>>, p: Property<V>, name: bytes)
    ensures LastAt(ps + [p], name) == if p.name == name then |ps| else LastAt(ps, name)
  {
    assert (ps + [p])[..|ps|] == ps;
  }

  lemma StandsIffFirst<V>(fs: seq<Property<V>>, name: bytes)
    ensures Standing(fs, name) <==> FirstAt(fs, name) < |fs|
  {
  }

  lemma AssignedIffLast<V>(ps: seq<Property<V>>, name: bytes)
    ensures LastAt(ps, name) >= 0 <==> FirstAt(ps, name) < |ps|
  {
  }

  /** The names that stand are those assigned to. */
  lemma SameNames<V>(ps: seq<Property<V>>, fs: seq<Property<V>>, name: bytes)
    requires AllStand(ps, fs) && LastCounts(ps, fs)
    ensures Standing(fs, name) <==> FirstAt(ps, name) < |ps|
  {
    AssignedIffLast(ps, name);
  }

  /** No name stands twice. */
  lemma SamePlace<V>(ps: seq<Property<V>>, fs: seq<Property<V>>, a: nat, b: nat)
    requires FirstOrders(ps, fs) && a < |fs| && b < |fs| && fs[a].name == fs[b].name
    ensures a == b
  {
  }

  lemma PutStands<V>(fs: seq<Property<V>>, p: Property<V>, name: bytes)
    ensures Standing(Put(fs, p.name, p.value), name) <==> Standing(fs, name) || name == p.name
  {
    hide Put;
    var gs, at := Put(fs, p.name, p.value), FirstAt(fs, p.name);
    PutIs(fs, p.name, p.value);
    assert |gs| >= |fs| && forall a :: 0 <= a < |fs| ==> gs[a].name == fs[a].name;
    assert gs[if at < |fs| then at else |fs|].name == p.name;
  }

  lemma PutCounts<V>(ps: seq<Property<V>>, fs: seq<Property<V>>, p: Property<V>)
    requires LastCounts(ps, fs) && FirstOrders(ps, fs)
    ensures LastCounts(ps + [p], Put(fs, p.name, p.value))
  {
    hide Put, FirstOrders;
    var gs, at := Put(fs, p.name, p.value), FirstAt(fs, p.name);
    PutIs(fs, p.name, p.value);
    forall a | 0 <= a < |gs|
      ensures LastAt(ps + [p], gs[a].name) >= 0 && gs[a].value == (ps + [p])[LastAt(ps + [p], gs[a].name)].value
    {
      LastOfMore(ps, p, gs[a].name);
      if gs[a].name == p.name && at < |fs| {
        SamePlace(ps, fs, at, a);
      }
    }
  }

  lemma PutOrders<V>(ps: seq<Property<V>>, fs: seq<Property<V>>, p: Property<V>)
    requires IsObjectOf(ps, fs)
    ensures FirstOrders(ps + [p], Put(fs, p.name, p.value))
  {
    hide Put, AllStand, LastCounts, Standing;
    var gs, at := Put(fs, p.name, p.value), FirstAt(fs, p.name);
    PutIs(fs, p.name, p.value);
    forall a, b | 0 <= a < b < |gs|
      ensures FirstAt(ps + [p], gs[a].name) < FirstAt(ps + [p], gs[b].name)
    {
      FirstOfMore(ps, p, gs[a].name);
      FirstOfMore(ps, p, gs[b].name);
      SameNames(ps, fs, gs[a].name);
      SameNames(ps, fs, gs[b].name);
      StandsIffFirst(fs, gs[a].name);
      StandsIffFirst(fs, gs[b].name);
    }
  }

  lemma PutAssigns<V>(ps: seq<Property<V>>, fs: seq<Property<V>>, p: Property<V>)
    requires IsObjectOf(ps, fs)
    ensures IsObjectOf(ps + [p], Put(fs, p.name, p.value))
  {
    hide Put, Standing;
    PutCounts(ps, fs, p);
    PutOrders(ps, fs, p);
    forall i | 0 <= i < |ps + [p]|
      ensures Standing(Put(fs, p.name, p.value), (ps + [p])[i].name)
    {
      PutStands(fs, p, (ps + [p])[i].name);
    }
  }

  lemma {:induction false} PutAllGives<V>(before: seq<Property<V>>, acc: seq<Property<V>>, props: seq<Property<V>>)
    requires IsObjectOf(before, acc)
    ensures IsObjectOf(before + props, PutAll(acc, props))
    decreases |props|
  {
    hide IsObjectOf, Put;
    if props == [] {
      assert before + props == before;
    } else {
      PutAssigns(before, acc, props[0]);
      assert before + [props[0]] + props[1..] == before + props;
      PutAllGives(before + [props[0]], Put(acc, props[0].name, props[0].value), props[1..]);
    }
  }

  /** Assigning makes the object of the assignments. */
  lemma ObjectMade<V>(props: seq<Property<V>>)
    ensures IsObjectOf(props, PutAll([], props))
  {
    assert IsObjectOf<V>([], []);
    PutAllGives([], [], props);
    assert [] + props == props;
  }

  /** Names that are all different stay as they are. */
  lemma {:induction false} DistinctKept<V>(props: seq<Property<V>>)
    requires forall i, j :: 0 <= i < j < |props| ==> props[i].name != props[j].name
    ensures PutAll([], props) == props
  {
    AppendAll([], props);
    assert [] + props == props;
  }

  lemma {:induction false} AppendAll<V>(acc: seq<Property<V>>, props: seq<Property<V>>)
    requires forall i, j :: 0 <= i < j < |acc + props| ==> (acc + props)[i].name != (acc + props)[j].name
    ensures PutAll(acc, props) == acc + props
    decreases |props|
  {
    if props == [] {
      assert acc + props == acc;
    } else {
      var p := props[0];
      PutIs(acc, p.name, p.value);
      forall i | 0 <= i < |acc|
        ensures acc[i].name != p.name
      {
        assert (acc + props)[i] == acc[i] && (acc + props)[|acc|] == p;
      }
      assert acc + [p] + props[1..] == acc + props;
      AppendAll(acc + [p], props[1..]);
    }
  }
}
