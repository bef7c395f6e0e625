/** The device tables of ivc/ivc.c: publish, open, release and unpublish as the
    sections they run under the table lock, in any interleaving.  The subscriber's
    table is the same with a (publisher id, key) pair for the key, so the table is
    generic in the key. */
module DeviceTable {
  import opened Machine

  const MAX_VDEVS := 16

  /** How far a device has come: counted, visible as a device node, on the list,
      node gone, off the list. */
  datatype Phase = Reserved | Registered | Listed | Deregistered | Unlisted

  /** `opens` is history: how many open files refer to the device. */
  datatype Vdev<K> = Vdev(key: K, phase: Phase, active: bool, removing: bool, opens: nat)

  /** `devs` holds every allocated device by id; `list` is the kernel list, in order. */
  datatype Table<K> = Table(count: int, nextId: nat, devs: map<nat, Vdev<K>>, list: seq<nat>)

  datatype Action<K> =
    | Reserve(key: K)        // count the device, or -ENOSPC
    | RegisterOk(id: nat)    // misc_register succeeded
    | RegisterFailed(id: nat)
    | AddToList(id: nat)
    | Open(id: nat)
    | Release(id: nat)
    | BeginRemove(key: K)    // find the first device with the key and mark it
    | RemoveFailed(id: nat)  // the hypercall failed
    | Deregister(id: nat)    // the hypercall succeeded and misc_deregister returned
    | Unlink(id: nat)
    | Free(id: nat)

  function Empty<K>(): Table<K> {
    Table(0, 0, map[], [])
  }

  predicate At<K>(t: Table<K>, id: nat, phase: Phase) {
    id in t.devs && t.devs[id].phase == phase
  }

  /** The index of the first listed device with this key, or the length of the list. */
  function FirstWith<K(==)>(t: Table<K>, list: seq<nat>, key: K): (i: nat)
    requires forall id | id in list :: id in t.devs
    ensures i <= |list|
    ensures i < |list| ==> t.devs[list[i]].key == key
    ensures forall j :: 0 <= j < i ==> t.devs[list[j]].key != key
  {
    if list == [] then 0
    else if t.devs[list[0]].key == key then 0
    else 1 + FirstWith(t, list[1..], key)
  }

  /** A section runs when its thread has come to it. */
  predicate Enabled<K(==)>(t: Table<K>, a: Action<K>) {
    match a
    case Reserve(_) => true
    case RegisterOk(id) => At(t, id, Reserved)
    case RegisterFailed(id) => At(t, id, Reserved)
    case AddToList(id) => At(t, id, Registered)
    case Open(id) => At(t, id, Registered) || At(t, id, Listed)
    case Release(id) => id in t.devs && t.devs[id].opens > 0
    case BeginRemove(_) => forall id | id in t.list :: id in t.devs
    case RemoveFailed(id) => At(t, id, Listed) && t.devs[id].removing
    case Deregister(id) => At(t, id, Listed) && t.devs[id].removing
    case Unlink(id) => At(t, id, Deregistered)
    case Free(id) => At(t, id, Unlisted)
  }

  /** What the section answers: 0 or the errno its call returns. */
  function Answer<K(==)>(t: Table<K>, a: Action<K>): int
    requires Enabled(t, a)
  {
    match a
    case Reserve(_) => if t.count >= MAX_VDEVS then -ENOSPC else 0
    case Open(id) => if t.devs[id].removing then -ENODEV else if t.devs[id].active then -EBUSY else 0
    case BeginRemove(key) =>
      var i := FirstWith(t, t.list, key);
      if i == |t.list| then -ENOENT
      else if t.devs[t.list[i]].active || t.devs[t.list[i]].removing then -EBUSY
      else 0
    case _ => 0
  }

  function Set<K>(t: Table<K>, id: nat, v: Vdev<K>): Table<K> {
    t.(devs := t.devs[id := v])
  }

  function Without(list: seq<nat>, id: nat): seq<nat> {
    if list == [] then []
    else if list[0] == id then list[1..]
    else [list[0]] + Without(list[1..], id)
  }

  function Step<K(==)>(t: Table<K>, a: Action<K>): Table<K>
    requires Enabled(t, a)
  {
    if Answer(t, a) != 0 then t
    else
      match a
      case Reserve(key) =>
        Set(t, t.nextId, Vdev(key, Reserved, false, false, 0)).(count := t.count + 1, nextId := t.nextId + 1)
      case RegisterOk(id) => Set(t, id, t.devs[id].(phase := Registered))
      case RegisterFailed(id) => t.(count := t.count - 1, devs := t.devs - {id})
      case AddToList(id) => Set(t, id, t.devs[id].(phase := Listed)).(list := t.list + [id])
      case Open(id) => Set(t, id, t.devs[id].(active := true, opens := t.devs[id].opens + 1))
      case Release(id) => Set(t, id, t.devs[id].(active := false, opens := t.devs[id].opens - 1))
      case BeginRemove(key) =>
        var id := t.list[FirstWith(t, t.list, key)];
        Set(t, id, t.devs[id].(removing := true))
      case RemoveFailed(id) => Set(t, id, t.devs[id].(removing := false))
      case Deregister(id) => Set(t, id, t.devs[id].(phase := Deregistered))
      case Unlink(id) =>
        Set(t, id, t.devs[id].(phase := Unlisted)).(list := Without(t.list, id), count := t.count - 1)
      case Free(id) => t.(devs := t.devs - {id})
  }

  // ----- Invariant

  /** The devices the counter stands for: listed, or registrations in flight. */
  function Counted<K>(t: Table<K>): set<nat> {
    set id | id in t.devs && t.devs[id].phase != Unlisted
  }

  ghost predicate VdevOk<K>(v: Vdev<K>) {
    && v.opens == (if v.active then 1 else 0)
    && !(v.active && v.removing)
    && (v.active ==> v.phase == Registered || v.phase == Listed)
    && (v.removing ==> v.phase != Reserved && v.phase != Registered)
    && (v.phase == Deregistered || v.phase == Unlisted ==> v.removing)
  }

  predicate Linked(p: Phase) {
    p == Listed || p == Deregistered
  }

  ghost predicate Distinct(list: seq<nat>) {
    forall i, j :: 0 <= i < j < |list| ==> list[i] != list[j]
  }

  ghost predicate ListOk<K>(t: Table<K>) {
    && (forall id | id in t.list :: id in t.devs)
    && (forall id | id in t.devs :: id in t.list <==> Linked(t.devs[id].phase))
    && Distinct(t.list)
  }

  ghost predicate DevsOk<K>(t: Table<K>) {
    forall id | id in t.devs :: id < t.nextId && VdevOk(t.devs[id])
  }

  ghost predicate Inv<K>(t: Table<K>) {
    DevsOk(t) && ListOk(t) && t.count == |Counted(t)| <= MAX_VDEVS
  }

  lemma {:induction false} WithoutMembers(list: seq<nat>, id: nat)
    requires id in list && Distinct(list)
    ensures forall x :: x in Without(list, id) <==> x in list && x != id
    ensures Distinct(Without(list, id))
    decreases |list|
  {
    var first, rest := list[0], list[1..];
    assert list == [first] + rest;
    if first != id {
      WithoutMembers(rest, id);
      var kept := Without(rest, id);
      forall i, j | 0 <= i < j < |[first] + kept|
        ensures ([first] + kept)[i] != ([first] + kept)[j]
      {
        assert kept[j - 1] in kept && kept[j - 1] in rest;
      }
    }
  }

  /** A change to one device that neither counts, lists nor unlists it. */
  lemma SetKeepsInv<K>(t: Table<K>, id: nat, v: Vdev<K>)
    requires Inv(t) && id in t.devs && VdevOk(v)
    requires Linked(v.phase) == Linked(t.devs[id].phase) && v.phase != Unlisted && t.devs[id].phase != Unlisted
    ensures Inv(Set(t, id, v))
  {
    assert Counted(Set(t, id, v)) == Counted(t);
  }

  lemma ReserveKeepsInv<K>(t: Table<K>, key: K)
    requires Inv(t) && t.count < MAX_VDEVS
    ensures Inv(Step(t, Reserve(key)))
  {
    assert Counted(Step(t, Reserve(key))) == Counted(t) + {t.nextId};
  }

  lemma RegisterFailedKeepsInv<K>(t: Table<K>, id: nat)
    requires Inv(t) && At(t, id, Reserved)
    ensures Inv(Step(t, RegisterFailed(id)))
  {
    assert Counted(Step(t, RegisterFailed(id))) == Counted(t) - {id};
  }

  lemma AddToListKeepsInv<K>(t: Table<K>, id: nat)
    requires Inv(t) && At(t, id, Registered)
    ensures Inv(Step(t, AddToList(id)))
  {
    assert Counted(Step(t, AddToList(id))) == Counted(t);
  }

  lemma UnlinkKeepsInv<K>(t: Table<K>, id: nat)
    requires Inv(t) && At(t, id, Deregistered)
    ensures Inv(Step(t, Unlink(id)))
  {
    assert Counted(Step(t, Unlink(id))) == Counted(t) - {id};
    WithoutMembers(t.list, id);
  }

  lemma FreeKeepsInv<K>(t: Table<K>, id: nat)
    requires Inv(t) && At(t, id, Unlisted)
    ensures Inv(Step(t, Free(id)))
  {
    assert Counted(Step(t, Free(id))) == Counted(t);
  }

  lemma StepKeepsInv<K>(t: Table<K>, a: Action<K>)
    requires Inv(t) && Enabled(t, a)
    ensures Inv(Step(t, a))
  {
    if Answer(t, a) == 0 {
      match a
      case Reserve(key) => ReserveKeepsInv(t, key);
      case RegisterOk(id) => SetKeepsInv(t, id, t.devs[id].(phase := Registered));
      case RegisterFailed(id) => RegisterFailedKeepsInv(t, id);
      case AddToList(id) => AddToListKeepsInv(t, id);
      case Open(id) => SetKeepsInv(t, id, t.devs[id].(active := true, opens := t.devs[id].opens + 1));
      case Release(id) => SetKeepsInv(t, id, t.devs[id].(active := false, opens := t.devs[id].opens - 1));
      case BeginRemove(key) =>
        var id := t.list[FirstWith(t, t.list, key)];
        SetKeepsInv(t, id, t.devs[id].(removing := true));
      case RemoveFailed(id) => SetKeepsInv(t, id, t.devs[id].(removing := false));
      case Deregister(id) => SetKeepsInv(t, id, t.devs[id].(phase := Deregistered));
      case Unlink(id) => UnlinkKeepsInv(t, id);
      case Free(id) => FreeKeepsInv(t, id);
    }
  }

  // ----- What one section does another undoes

  lemma ReleaseUndoesOpen<K>(t: Table<K>, id: nat)
    requires Inv(t) && Enabled(t, Open(id)) && !t.devs[id].active && !t.devs[id].removing
    ensures var u := Step(t, Open(id)); Enabled(u, Release(id)) && Step(u, Release(id)) == t
  {
  }

  /** A removal that the hypervisor refuses leaves no trace: the device can be opened,
      or removed, again. */
  lemma FailureUndoesRemoval<K>(t: Table<K>, key: K)
    requires Inv(t) && Answer(t, BeginRemove(key)) == 0
    ensures var u, id := Step(t, BeginRemove(key)), t.list[FirstWith(t, t.list, key)];
            Enabled(u, RemoveFailed(id)) && Step(u, RemoveFailed(id)) == t
  {
  }

  lemma FailureUndoesReservation<K>(t: Table<K>, key: K)
    requires Inv(t) && t.count < MAX_VDEVS
    ensures var u := Step(t, Reserve(key));
            Enabled(u, RegisterFailed(t.nextId)) && Step(u, RegisterFailed(t.nextId)) == t.(nextId := t.nextId + 1)
  {
    assert (t.devs[t.nextId := Vdev(key, Reserved, false, false, 0)]) - {t.nextId} == t.devs;
  }

  // ----- Whole runs

  ghost predicate Possible<K>(t: Table<K>, run: seq<Action<K>>)
    decreases |run|
  {
    run != [] ==> Enabled(t, run[0]) && Possible(Step(t, run[0]), run[1..])
  }

  ghost function Final<K>(t: Table<K>, run: seq<Action<K>>): Table<K>
    requires Possible(t, run)
    decreases |run|
  {
    if run == [] then t else Final(Step(t, run[0]), run[1..])
  }

  lemma {:induction false} RunKeepsInv<K>(t: Table<K>, run: seq<Action<K>>)
    requires Inv(t) && Possible(t, run)
    ensures Inv(Final(t, run))
    decreases |run|
  {
    if run != [] {
      StepKeepsInv(t, run[0]);
      RunKeepsInv(Step(t, run[0]), run[1..]);
    }
  }

  /** Devices counted and not yet listed. */
  function InFlight<K>(t: Table<K>): set<nat> {
    set id | id in t.devs && (t.devs[id].phase == Reserved || t.devs[id].phase == Registered)
  }

  function Members(list: seq<nat>): set<nat> {
    set id | id in list
  }

  lemma {:induction false} DistinctSize(list: seq<nat>)
    requires Distinct(list)
    ensures |Members(list)| == |list|
    decreases |list|
  {
    if list != [] {
      var first, rest := list[0], list[1..];
      DistinctSize(rest);
      assert list == [first] + rest;
      assert first !in Members(rest);
      assert Members(list) == Members(rest) + {first};
    }
  }

  lemma CountedSize<K>(t: Table<K>)
    requires ListOk(t)
    ensures |Counted(t)| == |t.list| + |InFlight(t)|
  {
    DistinctSize(t.list);
    assert Members(t.list) !! InFlight(t);
    assert Counted(t) == Members(t.list) + InFlight(t);
  }

  /** Over every interleaving of the locked sections: the counter is the number of
      listed devices plus registrations in flight and never exceeds 16; no device is
      both active and removing; each has at most one opener, exactly while active. */
  lemma TableIsConsistent<K>(run: seq<Action<K>>)
    requires Possible(Empty(), run)
    ensures var t := Final(Empty(), run);
            && t.count == |t.list| + |InFlight(t)| <= MAX_VDEVS
            && Distinct(t.list)
            && forall id | id in t.devs ::
                 && !(t.devs[id].active && t.devs[id].removing)
                 && t.devs[id].opens <= 1 && (t.devs[id].opens == 1 <==> t.devs[id].active)
  {
    assert Counted(Empty<K>()) == {};
    RunKeepsInv(Empty(), run);
    CountedSize(Final(Empty(), run));
  }

  /** A device is freed only when nothing can reach it any more: not listed, its
      node gone or never made, and no file open on it. */
  lemma FreedIsUnreachable<K>(run: seq<Action<K>>, a: Action<K>, id: nat)
    requires Possible(Empty(), run) && Enabled(Final(Empty(), run), a)
    requires var t := Final(Empty(), run); id in t.devs && id !in Step(t, a).devs
    ensures var t := Final(Empty(), run);
            id !in t.list && t.devs[id].opens == 0 && !Enabled(t, Open(id)) && !Enabled(t, Release(id))
  {
    assert Counted(Empty<K>()) == {};
    RunKeepsInv(Empty(), run);
  }

  // ----- The locked sections as they update the tables in place

  /** list_del: the entry goes, wherever it stands, and the others keep their order. */
  method RemoveEntry(list: seq<nat>, id: nat) returns (rest: seq<nat>)
    ensures rest == Without(list, id)
  {
    var i := 0;
    while i < |list| && list[i] != id
      invariant i <= |list|
      invariant Without(list, id) == list[..i] + Without(list[i..], id)
    {
      assert list[i..][1..] == list[i + 1..];
      i := i + 1;
    }
    if i == |list| {
      return list;
    }
    assert list[i..][1..] == list[i + 1..];
    rest := list[..i] + list[i + 1..];
  }

  class Registry<K(==)> {
    var count: int
    var nextId: nat
    var devs: map<nat, Vdev<K>>
    var list: seq<nat>

    function View(): Table<K>
      reads this
    {
      Table(count, nextId, devs, list)
    }

    constructor ()
      ensures View() == Empty()
    {
      count, nextId, devs, list := 0, 0, map[], [];
    }

    method ReserveSection(key: K) returns (err: int, id: nat)
      modifies this
      ensures err == old(Answer(View(), Reserve(key))) && View() == old(Step(View(), Reserve(key)))
      ensures err == if old(count) >= 16 then -ENOSPC else 0
      ensures err == 0 ==> id == old(nextId)
    {
      if count >= MAX_VDEVS {
        return -ENOSPC, 0;
      }
      id := nextId;
      nextId := nextId + 1;
      count := count + 1;
      devs := devs[id := Vdev(key, Reserved, false, false, 0)];
      err := 0;
    }

    method OpenSection(id: nat) returns (err: int)
      requires Enabled(View(), Open(id))
      modifies this`devs
      ensures err == old(Answer(View(), Open(id))) && View() == old(Step(View(), Open(id)))
      ensures err == if old(devs[id].removing) then -ENODEV else if old(devs[id].active) then -EBUSY else 0
      ensures if err == 0 then devs[id].active && devs[id].opens == old(devs[id].opens) + 1 else devs == old(devs)
    {
      var v := devs[id];
      if v.active || v.removing {
        return if v.removing then -ENODEV else -EBUSY;
      }
      devs := devs[id := v.(active := true, opens := v.opens + 1)];
      err := 0;
    }

    method ReleaseSection(id: nat)
      requires Enabled(View(), Release(id))
      modifies this`devs
      ensures View() == old(Step(View(), Release(id)))
      ensures old(Inv(View())) ==> Inv(View()) && devs[id].opens == 0 && Answer(View(), Open(id)) == 0
    {
      if Inv(View()) {
        StepKeepsInv(View(), Release(id));
      }
      devs := devs[id := devs[id].(active := false, opens := devs[id].opens - 1)];
    }

    /** The list walk at the head of ivc_unpublish_channel. */
    method BeginRemoveSection(key: K) returns (err: int, id: nat)
      requires Enabled(View(), BeginRemove(key))
      modifies this`devs
      ensures err == old(Answer(View(), BeginRemove(key))) && View() == old(Step(View(), BeginRemove(key)))
      ensures err == 0 ==> id in devs && devs[id].key == key && devs[id].removing
      ensures err == -ENOENT <==> forall j :: 0 <= j < |list| ==> old(devs)[list[j]].key != key
      ensures err != -ENOENT ==>
                exists i :: 0 <= i < |list| && old(devs)[list[i]].key == key
                            && (forall j :: 0 <= j < i ==> old(devs)[list[j]].key != key)
                            && err == if old(devs)[list[i]].active || old(devs)[list[i]].removing then -EBUSY else 0
    {
      id := 0;
      for i := 0 to |list|
        invariant devs == old(devs)
        invariant FirstWith(View(), list, key) == i + FirstWith(View(), list[i..], key)
      {
        if devs[list[i]].key != key {
          continue;
        }
        assert FirstWith(View(), list, key) == i;
        id := list[i];
        if devs[id].active || devs[id].removing {
          return -EBUSY, id;
        }
        devs := devs[id := devs[id].(removing := true)];
        return 0, id;
      }
      err := -ENOENT;
    }

    method UnlinkSection(id: nat)
      requires Enabled(View(), Unlink(id))
      modifies this
      ensures View() == old(Step(View(), Unlink(id)))
      ensures old(Inv(View())) ==> Inv(View()) && forall x :: x in list <==> x in old(list) && x != id
    {
      if Inv(View()) {
        StepKeepsInv(View(), Unlink(id));
        WithoutMembers(list, id);
      }
      list := RemoveEntry(list, id);
      count := count - 1;
      devs := devs[id := devs[id].(phase := Unlisted)];
    }
  }
}
