/** Pool.cs: a stack of inactive items handed out again before new ones are
    instantiated. Items are named by ids; a slot of the stack may hold an item
    Unity has destroyed meanwhile, which compares equal to null. */
module Pool {
  import opened Wrappers

  type ItemId = nat

  /** A stack entry: a live item, or one destroyed by the engine. */
  datatype Slot = Live(id: ItemId) | Destroyed

  /** An item's pool-relevant state: whether its myPool is set, and whether
      its game object is active. */
  datatype Item = Item(owned: bool, active: bool)

  /** The pool: the stack of inactive items (top at the end), every item it
      knows of, and the id the next instantiated item gets. */
  datatype Pool = Pool(inactive: seq<Slot>, items: map<ItemId, Item>, next: ItemId)

  /** An item handed out, with the pool after the hand-out. */
  datatype Handout = Handout(p: Pool, id: ItemId)

  /** The stack holds only known items whose myPool is set; no id at or past
      `next` is in use. */
  predicate Valid(p: Pool) {
    && (forall i :: 0 <= i < |p.inactive| && p.inactive[i].Live? ==>
          p.inactive[i].id in p.items && p.items[p.inactive[i].id].owned)
    && (forall id :: id in p.items ==> id < p.next)
  }

  /** Every item on the stack is inactive. */
  predicate Resting(p: Pool)
    requires Valid(p)
  {
    forall i :: 0 <= i < |p.inactive| && p.inactive[i].Live? ==> !p.items[p.inactive[i].id].active
  }

  /** No live item sits on the stack twice. */
  predicate NoRepeats(p: Pool) {
    forall i, j :: 0 <= i < j < |p.inactive| && p.inactive[i].Live? ==> p.inactive[j] != p.inactive[i]
  }

  /** Preload: instantiate `n` owned, inactive items and push each. */
  function Preload(p: Pool, n: nat): (r: Pool)
    requires Valid(p)
    ensures Valid(r) && r.next == p.next + n
    ensures |r.inactive| == |p.inactive| + n && r.inactive[..|p.inactive|] == p.inactive
    ensures forall k :: |p.inactive| <= k < |r.inactive| ==> r.inactive[k] == Live(p.next + (k - |p.inactive|))
    ensures forall id :: id in p.items ==> id in r.items && r.items[id] == p.items[id]
    decreases n
  {
    if n == 0 then p
    else
      var q := Pool(p.inactive + [Live(p.next)], p.items[p.next := Item(true, false)], p.next + 1);
      Preload(q, n - 1)
  }

  /** GetPoolItem: an empty stack instantiates a new owned item; otherwise the
      top is popped, a destroyed entry is dropped and the pop retried, and the
      popped item is activated. (OnSpawn is the item's own hook.) */
  function GetPoolItem(p: Pool): (r: Handout)
    requires Valid(p)
    ensures Valid(r.p) && r.id in r.p.items && r.p.items[r.id] == Item(true, true)
    ensures r.p.items.Keys == p.items.Keys + {r.id}
    ensures forall id :: id in p.items && id != r.id ==> r.p.items[id] == p.items[id]
    ensures |r.p.inactive| <= |p.inactive| && r.p.inactive == p.inactive[..|r.p.inactive|]
    decreases |p.inactive|
  {
    if |p.inactive| == 0 then
      Handout(Pool([], p.items[p.next := Item(true, true)], p.next + 1), p.next)
    else
      var top := p.inactive[|p.inactive| - 1];
      var rest := p.inactive[..|p.inactive| - 1];
      match top
      case Destroyed =>
        var r := GetPoolItem(p.(inactive := rest));
        assert rest[..|r.p.inactive|] == p.inactive[..|r.p.inactive|];
        r
      case Live(id) =>
        Handout(p.(inactive := rest, items := p.items[id := Item(true, true)]), id)
  }

  /** RemovePoolItem: a null item is ignored; otherwise the item is
      deactivated and pushed. */
  function RemovePoolItem(p: Pool, slot: Slot): (r: Pool)
    requires Valid(p) && (slot.Live? ==> slot.id in p.items && p.items[slot.id].owned)
    ensures Valid(r) && r.next == p.next && r.items.Keys == p.items.Keys
    ensures slot.Destroyed? ==> r == p
    ensures slot.Live? ==> r.inactive == p.inactive + [slot] && r.items == p.items[slot.id := Item(true, false)]
  {
    match slot
    case Destroyed => p
    case Live(id) => Pool(p.inactive + [slot], p.items[id := Item(true, false)], p.next)
  }

  /** PoolItemMonobehaviour.Despawn: returns the item to its pool when it has
      one; an item without a pool is left alone. */
  function Despawn(p: Pool, id: ItemId): (r: Pool)
    requires Valid(p) && id in p.items
    ensures Valid(r) && r.items.Keys == p.items.Keys
    ensures !p.items[id].owned ==> r == p
    ensures p.items[id].owned ==> !r.items[id].active && |r.inactive| == |p.inactive| + 1
  {
    if p.items[id].owned then RemovePoolItem(p, Live(id)) else p
  }

  /** The topmost live entry of the stack, if any. */
  function TopLive(stack: seq<Slot>): (r: Option<nat>)
    ensures r.Some? ==> 0 <= r.value < |stack| && stack[r.value].Live?
    ensures r.Some? ==> forall k :: r.value < k < |stack| ==> stack[k].Destroyed?
    ensures r.None? ==> forall k :: 0 <= k < |stack| ==> stack[k].Destroyed?
  {
    if |stack| == 0 then None
    else if stack[|stack| - 1].Live? then Some(|stack| - 1)
    else TopLive(stack[..|stack| - 1])
  }

  /** GetPoolItem is a stack: it hands out the topmost live item, dropping the
      destroyed entries above it; with no live item left it instantiates a new
      one under a fresh id. Either way the item handed out was not in use. */
  lemma {:induction false} GetPoolItemSpec(p: Pool)
    requires Valid(p)
    ensures var r := GetPoolItem(p);
      match TopLive(p.inactive)
      case Some(k) => r.id == p.inactive[k].id && r.p.inactive == p.inactive[..k] && r.p.next == p.next
      case None => r.id == p.next && r.id !in p.items && r.p.inactive == [] && r.p.next == p.next + 1
    ensures Resting(p) && GetPoolItem(p).id in p.items ==> !p.items[GetPoolItem(p).id].active
    decreases |p.inactive|
  {
    if |p.inactive| > 0 {
      var rest := p.inactive[..|p.inactive| - 1];
      if p.inactive[|p.inactive| - 1].Destroyed? {
        var q := p.(inactive := rest);
        GetPoolItemSpec(q);
        assert TopLive(p.inactive) == TopLive(rest);
        match TopLive(rest)
        case Some(k) =>
          assert rest[..k] == p.inactive[..k];
        case None =>
      }
    }
  }

  /** Despawning an owned item and asking for one again gives the same item
      back, active, and leaves the stack as it was. */
  lemma DespawnThenGet(p: Pool, id: ItemId)
    requires Valid(p) && id in p.items && p.items[id].owned
    ensures var r := GetPoolItem(Despawn(p, id));
      r.id == id && r.p.inactive == p.inactive && r.p.items == p.items[id := Item(true, true)]
  {
    var q := Despawn(p, id);
    assert q.inactive[|q.inactive| - 1] == Live(id);
    assert q.inactive[..|q.inactive| - 1] == p.inactive;
  }

  /** While every item goes back at most once, the stack holds only inactive
      items: a hand-out keeps that, and so does returning an item that is not
      on the stack already. */
  lemma RestingKept(p: Pool, id: ItemId)
    requires Valid(p) && Resting(p) && NoRepeats(p) && id in p.items && p.items[id].owned
    ensures var r := GetPoolItem(p).p; Resting(r) && NoRepeats(r)
    ensures Live(id) !in p.inactive ==> Resting(Despawn(p, id)) && NoRepeats(Despawn(p, id))
  {
    var h := GetPoolItem(p);
    var r := h.p;
    GetPoolItemSpec(p);
    forall i | 0 <= i < |r.inactive| && r.inactive[i].Live?
      ensures !r.items[r.inactive[i].id].active
    {
      assert r.inactive[i] == p.inactive[i];
    }
    forall i, j | 0 <= i < j < |r.inactive| && r.inactive[i].Live?
      ensures r.inactive[j] != r.inactive[i]
    {
      assert r.inactive[i] == p.inactive[i] && r.inactive[j] == p.inactive[j];
    }
    if Live(id) !in p.inactive {
      var q := Despawn(p, id);
      forall i, j | 0 <= i < j < |q.inactive| && q.inactive[i].Live?
        ensures q.inactive[j] != q.inactive[i]
      {
        if j == |p.inactive| {
          assert q.inactive[i] == p.inactive[i];
        } else {
          assert q.inactive[i] == p.inactive[i] && q.inactive[j] == p.inactive[j];
        }
      }
    }
  }

  /** Despawning one item twice puts it on the stack twice, so two later
      requests hand out the same item: the pool trusts its callers to return
      each item once. */
  lemma DoubleDespawnHandsOutTwice(p: Pool, id: ItemId)
    requires Valid(p) && id in p.items && p.items[id].owned
    ensures var q := Despawn(Despawn(p, id), id);
      var first := GetPoolItem(q);
      var second := GetPoolItem(first.p);
      first.id == id && second.id == id
  {
    var q1 := Despawn(p, id);
    var q := Despawn(q1, id);
    assert q.inactive[|q.inactive| - 1] == Live(id);
    var first := GetPoolItem(q);
    assert first.p.inactive == q1.inactive;
    assert first.p.inactive[|first.p.inactive| - 1] == Live(id);
  }
}
