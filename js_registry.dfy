/**
 * JsRegistry: the table of live WebGPU objects kept by the JavaScript
 * library (lib/lib_webgpu.js). Wasm code refers to JavaScript objects by
 * integer ids; the library stores each object under a fresh id, records
 * the id in the object's `wid` field, links derived objects to their
 * parent so that destroying a parent destroys its children, and keeps
 * the special id 1 for the texture of the current canvas frame.
 *
 * JavaScript objects are modelled by handles; the per-object fields
 * `wid`, `parentObject` and `derivedObjects` are maps keyed by handle.
 */
module JsRegistry {
  import Text

  /** A JavaScript object reference; 0 stands for `null`/`undefined`. */
  type Handle = nat

  /** Id 0 means "no object", id 1 is the canvas texture, stored ids start at 2. */
  const CanvasTextureId := 1
  const FirstId := 2
  const MaxId := 2147483647

  /** The probe step of the id counter: up to `MaxId`, then back to `FirstId`. */
  function NextId(id: int): int
  {
    if id < MaxId then id + 1 else FirstId
  }

  /** Some id of the documented range is unoccupied. */
  ghost predicate FreeSlot(t: map<int, Handle>)
  {
    exists f :: FirstId <= f <= MaxId && f !in t
  }

  /**
   * Every id the probe visited from `c` before reaching `id` is occupied:
   * the stretch `[c, id)`, or, after a wrap, `[c, MaxId]` and `[FirstId, id)`.
   */
  ghost predicate ProbedBefore(t: map<int, Handle>, c: int, id: int)
  {
    if c <= id then forall j | c <= j < id :: j in t
    else c in t && (forall j | c <= j <= MaxId :: j in t) && (forall j | FirstId <= j < id :: j in t)
  }

  /** When the counter's own slot is free, the probe stops at once. */
  lemma ProbeStopsAtFreeCounter(t: map<int, Handle>, c: int, id: int)
    requires FirstId <= c && c !in t && FirstId <= id && ProbedBefore(t, c, id)
    ensures id == c
  {
  }

  /** Number of probe steps from `c` to the free id `f`. */
  function Dist(c: int, f: int): nat
    requires FirstId <= c && FirstId <= f <= MaxId
  {
    if c <= f then f - c
    else if c <= MaxId then (MaxId - c) + (f - FirstId) + 1
    else (f - FirstId) + 1
  }

  // ---------------------------------------------------------------------
  // What a cascading destroy leaves behind, as relations between states
  // ---------------------------------------------------------------------

  /** Entries only disappear; the remaining ones are untouched. */
  ghost predicate Shrunk(t0: map<int, Handle>, t1: map<int, Handle>)
  {
    forall k | k in t1 :: k in t0 && t1[k] == t0[k]
  }

  /** Child links only disappear, and only for ids no longer in the table. */
  ghost predicate LinksShrunk(d0: map<Handle, map<int, Handle>>, d1: map<Handle, map<int, Handle>>, t1: map<int, Handle>)
  {
    d1.Keys == d0.Keys &&
    forall h | h in d1 ::
      (forall k | k in d1[h] :: k in d0[h] && d1[h][k] == d0[h][k]) &&
      (forall k | k in d0[h] && k !in d1[h] :: k !in t1)
  }

  /** The children (before) of every removed id other than `root` are gone. */
  ghost predicate ChildrenGone(t0: map<int, Handle>, d0: map<Handle, map<int, Handle>>, t1: map<int, Handle>, root: int)
  {
    forall j | j in t0 && j !in t1 && j != root && t0[j] in d0 :: forall k | k in d0[t0[j]] :: k !in t1
  }

  /** The removed ids are closed under children: nothing a removed object derived survives. */
  ghost predicate Closed(t0: map<int, Handle>, d0: map<Handle, map<int, Handle>>, t1: map<int, Handle>)
  {
    forall j | j in t0 && j !in t1 && t0[j] in d0 :: forall k | k in d0[t0[j]] :: k !in t1
  }

  /**
   * `ps` is a chain of removed ids, each a child (before) of the one
   * ahead of it.
   */
  ghost predicate Chain(t0: map<int, Handle>, d0: map<Handle, map<int, Handle>>, t1: map<int, Handle>, ps: seq<int>)
  {
    (forall i | 0 <= i < |ps| :: ps[i] in t0 && ps[i] !in t1) &&
    (forall i | 0 <= i < |ps| - 1 :: t0[ps[i]] in d0 && ps[i + 1] in d0[t0[ps[i]]])
  }

  /** `ps` is such a chain leading from `root` to `j`. */
  ghost predicate ChainTo(t0: map<int, Handle>, d0: map<Handle, map<int, Handle>>, t1: map<int, Handle>,
                          root: int, j: int, ps: seq<int>)
  {
    |ps| >= 1 && ps[0] == root && ps[|ps| - 1] == j && Chain(t0, d0, t1, ps)
  }

  /**
   * Every removed id is reached from `root` through child links (before),
   * by a chain of ids that were all removed: nothing outside the tree
   * derived from `root` is touched.
   */
  ghost predicate Reached(t0: map<int, Handle>, d0: map<Handle, map<int, Handle>>, t1: map<int, Handle>, root: int)
  {
    forall j | j in t0 && j !in t1 :: exists ps :: ChainTo(t0, d0, t1, root, j, ps)
  }

  /** The objects of the removed ids. */
  ghost function RemovedObjects(t0: map<int, Handle>, t1: map<int, Handle>): set<Handle>
  {
    set j | j in t0 && j !in t1 :: t0[j]
  }

  /**
   * Every removed object has `wid == 0`; no other object's `wid` changes
   * and no other object gains one.
   */
  ghost predicate WidsCleared(t0: map<int, Handle>, w0: map<Handle, nat>, t1: map<int, Handle>, w1: map<Handle, nat>)
  {
    (forall j | j in t0 && j !in t1 :: t0[j] in w1 && w1[t0[j]] == 0) &&
    (forall h | h in w0 :: h in w1) &&
    (forall h | h in w1 && !(h in w0 && w1[h] == w0[h]) :: h in RemovedObjects(t0, t1))
  }

  /** A map without keys is the empty map. */
  lemma NoKeys(t: map<int, Handle>)
    ensures (forall k :: k !in t) ==> t == map[]
  {
    if forall k :: k !in t {
      assert t.Keys == {};
    }
  }

  lemma SubsetCard(a: set<int>, b: set<int>)
    requires a <= b
    ensures |a| <= |b|
  {
    assert b == a + (b - a);
  }

  lemma CardShrunk(t0: map<int, Handle>, t1: map<int, Handle>, id: int)
    requires Shrunk(t0, t1) && id in t0 && id !in t1
    ensures |t1| < |t0|
  {
    forall k | k in t1.Keys ensures k in t0.Keys - {id} {
    }
    SubsetCard(t1.Keys, t0.Keys - {id});
    assert |t1| == |t1.Keys| && |t0| == |t0.Keys|;
  }

  /** Ids already destroyed stay out of a table that only shrinks. */
  lemma GoneStayGone(children: set<int>, ks: set<int>, k: int, t1: map<int, Handle>, t2: map<int, Handle>)
    requires forall j | j in children && j !in ks :: j !in t1
    requires Shrunk(t1, t2) && k !in t2
    ensures forall j | j in children && j !in ks - {k} :: j !in t2
  {
  }

  lemma ComposeLinks(d0: map<Handle, map<int, Handle>>, d1: map<Handle, map<int, Handle>>, d2: map<Handle, map<int, Handle>>,
                     t1: map<int, Handle>, t2: map<int, Handle>)
    requires Shrunk(t1, t2) && LinksShrunk(d0, d1, t1) && LinksShrunk(d1, d2, t2)
    ensures LinksShrunk(d0, d2, t2)
  {
  }

  lemma ComposeGone(t0: map<int, Handle>, d0: map<Handle, map<int, Handle>>, t1: map<int, Handle>, d1: map<Handle, map<int, Handle>>,
                    t2: map<int, Handle>, root: int)
    requires Shrunk(t0, t1) && Shrunk(t1, t2) && LinksShrunk(d0, d1, t1)
    requires ChildrenGone(t0, d0, t1, root) && Closed(t1, d1, t2)
    ensures ChildrenGone(t0, d0, t2, root)
  {
    forall j | j in t0 && j !in t2 && j != root && t0[j] in d0
      ensures forall k | k in d0[t0[j]] :: k !in t2
    {
      if j in t1 {
        assert t1[j] == t0[j] && t0[j] in d1;
      }
    }
  }

  /** One entry of a shrunk table. */
  lemma ShrunkAt(t0: map<int, Handle>, t1: map<int, Handle>, k: int)
    requires Shrunk(t0, t1) && k in t1
    ensures k in t0 && t1[k] == t0[k]
  {
  }

  /** One link of shrunk links. */
  lemma LinkAt(d0: map<Handle, map<int, Handle>>, d1: map<Handle, map<int, Handle>>, t1: map<int, Handle>, h: Handle, k: int)
    requires LinksShrunk(d0, d1, t1) && h in d1 && k in d1[h]
    ensures h in d0 && k in d0[h]
  {
  }

  /** A chain of ids removed by the first destroy is still one after a second. */
  lemma WidenChain(t0: map<int, Handle>, d0: map<Handle, map<int, Handle>>, t1: map<int, Handle>, t2: map<int, Handle>,
                   ps: seq<int>)
    requires Shrunk(t1, t2) && Chain(t0, d0, t1, ps)
    ensures Chain(t0, d0, t2, ps)
  {
    forall i | 0 <= i < |ps| ensures ps[i] !in t2 {
      if ps[i] in t2 {
        ShrunkAt(t1, t2, ps[i]);
      }
    }
  }

  /** A chain over a shrunk table and shrunk links is a chain over the originals. */
  lemma LiftChain(t0: map<int, Handle>, d0: map<Handle, map<int, Handle>>, t1: map<int, Handle>, d1: map<Handle, map<int, Handle>>,
                  t2: map<int, Handle>, ps: seq<int>)
    requires Shrunk(t0, t1) && LinksShrunk(d0, d1, t1) && Chain(t1, d1, t2, ps)
    ensures Chain(t0, d0, t2, ps)
  {
    forall i | 0 <= i < |ps| ensures ps[i] in t0 && t1[ps[i]] == t0[ps[i]] {
      ShrunkAt(t0, t1, ps[i]);
    }
    forall i | 0 <= i < |ps| - 1 ensures t0[ps[i]] in d0 && ps[i + 1] in d0[t0[ps[i]]] {
      LinkAt(d0, d1, t1, t1[ps[i]], ps[i + 1]);
    }
  }

  /** A removed parent of a chain's head extends the chain. */
  lemma ConsChain(t0: map<int, Handle>, d0: map<Handle, map<int, Handle>>, t1: map<int, Handle>, root: int, ps: seq<int>)
    requires root in t0 && root !in t1 && t0[root] in d0
    requires |ps| >= 1 && ps[0] in d0[t0[root]] && Chain(t0, d0, t1, ps)
    ensures Chain(t0, d0, t1, [root] + ps)
  {
    var qs := [root] + ps;
    forall i | 0 <= i < |qs| - 1 ensures t0[qs[i]] in d0 && qs[i + 1] in d0[t0[qs[i]]] {
      if i > 0 {
        assert qs[i] == ps[i - 1] && qs[i + 1] == ps[i];
      }
    }
  }

  lemma ComposeReached(t0: map<int, Handle>, d0: map<Handle, map<int, Handle>>, t1: map<int, Handle>, d1: map<Handle, map<int, Handle>>,
                       t2: map<int, Handle>, root: int, k: int)
    requires Shrunk(t0, t1) && Shrunk(t1, t2) && LinksShrunk(d0, d1, t1)
    requires Reached(t0, d0, t1, root) && Reached(t1, d1, t2, k)
    requires root in t0 && root !in t1 && t0[root] in d0 && k in d0[t0[root]]
    ensures Reached(t0, d0, t2, root)
  {
    forall j | j in t0 && j !in t2
      ensures exists ps :: ChainTo(t0, d0, t2, root, j, ps)
    {
      if j !in t1 {
        var ps :| ChainTo(t0, d0, t1, root, j, ps);
        WidenChain(t0, d0, t1, t2, ps);
        assert ChainTo(t0, d0, t2, root, j, ps);
      } else {
        var ps :| ChainTo(t1, d1, t2, k, j, ps);
        LiftChain(t0, d0, t1, d1, t2, ps);
        ConsChain(t0, d0, t2, root, ps);
        var qs := [root] + ps;
        assert qs[|qs| - 1] == j;
        assert ChainTo(t0, d0, t2, root, j, qs);
      }
    }
  }

  lemma ComposeWids(t0: map<int, Handle>, w0: map<Handle, nat>, t1: map<int, Handle>, w1: map<Handle, nat>,
                    t2: map<int, Handle>, w2: map<Handle, nat>)
    requires Shrunk(t0, t1) && Shrunk(t1, t2)
    requires WidsCleared(t0, w0, t1, w1) && WidsCleared(t1, w1, t2, w2)
    ensures WidsCleared(t0, w0, t2, w2)
  {
    forall j | j in t0 && j !in t2 ensures t0[j] in w2 && w2[t0[j]] == 0 {
      if j in t1 {
        assert t1[j] == t0[j];
      }
    }
    forall h | h in w2 && !(h in w0 && w2[h] == w0[h]) ensures h in RemovedObjects(t0, t2) {
      if h in w1 && w2[h] == w1[h] {
        var j :| j in t0 && j !in t1 && t0[j] == h;
        assert j !in t2;
      } else {
        var j :| j in t1 && j !in t2 && t1[j] == h;
        assert j in t0 && t0[j] == h;
      }
    }
  }

  /** What a destroy of `root` has achieved part way: the root is gone and so is everything removed so far. */
  ghost predicate Progress(t0: map<int, Handle>, d0: map<Handle, map<int, Handle>>, w0: map<Handle, nat>,
                           t1: map<int, Handle>, d1: map<Handle, map<int, Handle>>, w1: map<Handle, nat>, root: int)
  {
    root !in t1 && Shrunk(t0, t1) && LinksShrunk(d0, d1, t1) &&
    ChildrenGone(t0, d0, t1, root) && Reached(t0, d0, t1, root) && WidsCleared(t0, w0, t1, w1)
  }

  /** What one completed destroy of `k` guarantees. */
  ghost predicate Destroyed(t1: map<int, Handle>, d1: map<Handle, map<int, Handle>>, w1: map<Handle, nat>,
                            t2: map<int, Handle>, d2: map<Handle, map<int, Handle>>, w2: map<Handle, nat>, k: int)
  {
    k !in t2 && Shrunk(t1, t2) && LinksShrunk(d1, d2, t2) &&
    Closed(t1, d1, t2) && Reached(t1, d1, t2, k) && WidsCleared(t1, w1, t2, w2)
  }

  /**
   * A destroy of `k` keeps every id, with its object, that no chain of
   * child links from `k` reaches: only what `k` derived is touched.
   */
  lemma DestroyKeepsUnreached(t1: map<int, Handle>, d1: map<Handle, map<int, Handle>>, w1: map<Handle, nat>,
                              t2: map<int, Handle>, d2: map<Handle, map<int, Handle>>, w2: map<Handle, nat>, k: int, j: int)
    requires Destroyed(t1, d1, w1, t2, d2, w2, k) && j in t1
    requires forall ps :: !ChainTo(t1, d1, map[], k, j, ps)
    ensures j in t2 && t2[j] == t1[j]
  {
    if j !in t2 {
      var ps :| ChainTo(t1, d1, t2, k, j, ps);
      assert ChainTo(t1, d1, map[], k, j, ps);
    }
  }

  lemma StartDestroy(t0: map<int, Handle>, d0: map<Handle, map<int, Handle>>, w0: map<Handle, nat>, root: int)
    requires root in t0
    ensures Progress(t0, d0, w0, t0 - {root}, d0, w0[t0[root] := 0], root)
  {
    assert ChainTo(t0, d0, t0 - {root}, root, root, [root]);
  }

  lemma StepDestroy(t0: map<int, Handle>, d0: map<Handle, map<int, Handle>>, w0: map<Handle, nat>,
                    t1: map<int, Handle>, d1: map<Handle, map<int, Handle>>, w1: map<Handle, nat>,
                    t2: map<int, Handle>, d2: map<Handle, map<int, Handle>>, w2: map<Handle, nat>, root: int, k: int)
    requires Progress(t0, d0, w0, t1, d1, w1, root) && Destroyed(t1, d1, w1, t2, d2, w2, k)
    requires root in t0 && t0[root] in d0 && k in d0[t0[root]]
    ensures Progress(t0, d0, w0, t2, d2, w2, root)
  {
    ComposeLinks(d0, d1, d2, t1, t2);
    ComposeGone(t0, d0, t1, d1, t2, root);
    ComposeReached(t0, d0, t1, d1, t2, root, k);
    ComposeWids(t0, w0, t1, w1, t2, w2);
  }

  lemma FinishDestroy(t0: map<int, Handle>, d0: map<Handle, map<int, Handle>>, w0: map<Handle, nat>,
                      t1: map<int, Handle>, d1: map<Handle, map<int, Handle>>, w1: map<Handle, nat>, root: int)
    requires Progress(t0, d0, w0, t1, d1, w1, root) && root in t0
    requires t0[root] in d0 ==> forall k | k in d0[t0[root]] :: k !in t1
    ensures Destroyed(t0, d0, w0, t1, d1, w1, root)
  {
    assert Closed(t0, d0, t1) by {
      forall j | j in t0 && j !in t1 && t0[j] in d0 ensures forall k | k in d0[t0[j]] :: k !in t1 {
        if j != root {
          assert ChildrenGone(t0, d0, t1, root);
        }
      }
    }
  }

  /** Dropping the destroyed id from its parent's children keeps the destroy's guarantees. */
  lemma UnlinkDestroyed(t0: map<int, Handle>, d0: map<Handle, map<int, Handle>>, w0: map<Handle, nat>,
                        t1: map<int, Handle>, d1: map<Handle, map<int, Handle>>, w1: map<Handle, nat>, root: int, p: Handle)
    requires Destroyed(t0, d0, w0, t1, d1, w1, root) && p in d1
    ensures Destroyed(t0, d0, w0, t1, d1[p := d1[p] - {root}], w1, root)
  {
    assert LinksShrunk(d0, d1[p := d1[p] - {root}], t1) by {
      assert LinksShrunk(d0, d1, t1);
    }
  }

  /** The registry: the `wgpu` table, the id counter and the per-object fields. */
  class Registry {
    /** `wgpu`: id to object. */
    var table: map<int, Handle>
    /** `wgpuIdCounter`: where the next probe starts. */
    var counter: int
    /** Each object's `wid` field. */
    var wid: map<Handle, nat>
    /** Each object's `parentObject` field. */
    var parent: map<Handle, Handle>
    /** Each object's `derivedObjects` map, child id to child. */
    var derived: map<Handle, map<int, Handle>>

    /** The counter stays in the documented range and no id holds "no object". */
    ghost predicate Valid()
      reads this
    {
      FirstId <= counter <= MaxId && 0 !in table && forall k | k in table :: table[k] != 0
    }

    /** The state when the library loads: an empty table and the counter at 2. */
    constructor ()
      ensures Valid()
      ensures table == map[] && counter == FirstId
      ensures wid == map[] && parent == map[] && derived == map[]
    {
      table := map[];
      counter := FirstId;
      wid := map[];
      parent := map[];
      derived := map[];
    }

    /** The probe of line 116: advance, wrapping to 2, while the id is taken. */
    method Probe()
      requires FirstId <= counter && FreeSlot(table)
      modifies this
      ensures counter !in table && FirstId <= counter
      ensures old(counter) <= MaxId ==> counter <= MaxId
      ensures ProbedBefore(table, old(counter), counter)
      ensures table == old(table) && wid == old(wid) && parent == old(parent) && derived == old(derived)
    {
      ghost var f :| FirstId <= f <= MaxId && f !in table;
      while counter in table
        invariant FirstId <= counter
        invariant old(counter) <= MaxId ==> counter <= MaxId
        invariant ProbedBefore(table, old(counter), counter)
        invariant table == old(table) && wid == old(wid) && parent == old(parent) && derived == old(derived)
        decreases Dist(counter, f)
      {
        counter := if counter < MaxId then counter + 1 else FirstId;
      }
    }

    /**
     * `wgpuStore` with the counter advanced by the same wrapping step
     * as the probe: a falsy object changes nothing and gives 0; otherwise
     * the object goes to the first free id from the counter, records it
     * in `wid`, and the counter moves past it.
     */
    method Store(h: Handle) returns (id: nat)
      requires Valid() && (h != 0 ==> FreeSlot(table))
      modifies this
      ensures Valid()
      ensures h == 0 ==> id == 0 && table == old(table) && counter == old(counter) && wid == old(wid)
      ensures h != 0 ==> FirstId <= id <= MaxId && id !in old(table) && ProbedBefore(old(table), old(counter), id)
      ensures h != 0 ==> table == old(table)[id := h] && wid == old(wid)[h := id] && counter == NextId(id)
      ensures parent == old(parent) && derived == old(derived)
    {
      if h == 0 {
        return 0;
      }
      Probe();
      id := counter;
      table := table[id := h];
      wid := wid[h := id];
      counter := NextId(id);
    }

    /**
     * `wgpuStore` as written: `return wgpuIdCounter++` leaves the counter
     * one past the id, even past `MaxId`.
     */
    method StoreAsWritten(h: Handle) returns (id: nat)
      requires FirstId <= counter && (h != 0 ==> FreeSlot(table))
      modifies this
      ensures h == 0 ==> id == 0 && table == old(table) && counter == old(counter) && wid == old(wid)
      ensures h != 0 ==> FirstId <= id && id !in old(table) && ProbedBefore(old(table), old(counter), id)
      ensures h != 0 ==> table == old(table)[id := h] && wid == old(wid)[h := id] && counter == id + 1
      ensures parent == old(parent) && derived == old(derived)
    {
      if h == 0 {
        return 0;
      }
      Probe();
      id := counter;
      table := table[id := h];
      wid := wid[h := id];
      counter := id + 1;
    }

    /** `wgpuLinkParentAndChild`: child to parent, and parent to child under its id. */
    method Link(p: Handle, childId: int, child: Handle)
      modifies this
      ensures parent == old(parent)[child := p]
      ensures derived == old(derived)[p := (if p in old(derived) then old(derived)[p] else map[])[childId := child]]
      ensures table == old(table) && wid == old(wid) && counter == old(counter)
    {
      parent := parent[child := p];
      var links := if p in derived then derived[p] else map[];
      derived := derived[p := links[childId := child]];
    }

    /** `wgpuStoreAndSetParent`: store a truthy object and link it under `p`. */
    method StoreAndSetParent(h: Handle, p: Handle) returns (id: nat)
      requires Valid() && (h != 0 ==> FreeSlot(table))
      modifies this
      ensures Valid()
      ensures h == 0 ==> (id == 0 && table == old(table) && counter == old(counter) && wid == old(wid) &&
                          parent == old(parent) && derived == old(derived))
      ensures h != 0 ==> FirstId <= id <= MaxId && id !in old(table) && ProbedBefore(old(table), old(counter), id)
      ensures h != 0 ==> table == old(table)[id := h] && wid == old(wid)[h := id] && counter == NextId(id)
      ensures h != 0 ==> (parent == old(parent)[h := p] &&
                          derived == old(derived)[p := (if p in old(derived) then old(derived)[p] else map[])[id := h]])
    {
      if h == 0 {
        return 0;
      }
      id := Store(h);
      Link(p, id, h);
    }

    /**
     * `wgpu_object_destroy`: 0 or an absent id changes nothing; otherwise
     * the entry and, recursively, every id it derived are removed, their
     * objects get `wid == 0`, and the object is unlinked from its parent.
     * The entry is removed before the children are visited (the source
     * removes it after): on links without cycles the outcome is the same.
     */
    method Destroy(id: int)
      modifies this
      decreases |table|, 1
      ensures id !in old(table) ==> table == old(table) && wid == old(wid) && derived == old(derived)
      ensures Destroyed(old(table), old(derived), old(wid), table, derived, wid, id)
      ensures id in old(table) && old(table)[id] in parent && parent[old(table)[id]] in derived ==>
        id !in derived[parent[old(table)[id]]]
      ensures parent == old(parent) && counter == old(counter)
    {
      if id !in table {
        return;
      }
      ghost var t0, d0, w0 := table, derived, wid;
      var o := table[id];
      wid := wid[o := 0];
      table := table - {id};
      StartDestroy(t0, d0, w0, id);
      if o in derived {
        DestroyDerived(t0, d0, w0, id, derived[o].Keys);
      }
      FinishDestroy(t0, d0, w0, table, derived, wid, id);
      var p := if o in parent then parent[o] else 0;
      if o in parent && p in derived {
        UnlinkDestroyed(t0, d0, w0, table, derived, wid, id, p);
        derived := derived[p := derived[p] - {id}];
      }
    }

    /** The `derivedObjects.forEach` step of a destroy of `root`: destroys each child id in turn. */
    method DestroyDerived(ghost t0: map<int, Handle>, ghost d0: map<Handle, map<int, Handle>>, ghost w0: map<Handle, nat>,
                          ghost root: int, children: set<int>)
      requires root in t0 && t0[root] in d0 && children == d0[t0[root]].Keys
      requires Progress(t0, d0, w0, table, derived, wid, root)
      modifies this
      decreases |t0|, 0
      ensures Progress(t0, d0, w0, table, derived, wid, root)
      ensures forall k | k in children :: k !in table
      ensures parent == old(parent) && counter == old(counter)
    {
      var ks := children;
      while ks != {}
        invariant ks <= children
        invariant Progress(t0, d0, w0, table, derived, wid, root)
        invariant forall k | k in children && k !in ks :: k !in table
        invariant parent == old(parent) && counter == old(counter)
        decreases ks
      {
        Text.HasMember(ks);
        var k :| k in ks;
        CardShrunk(t0, table, root);
        ghost var t1, d1, w1 := table, derived, wid;
        Destroy(k);
        StepDestroy(t0, d0, w0, t1, d1, w1, table, derived, wid, root, k);
        GoneStayGone(children, ks, k, t1, table);
        ks := ks - {k};
      }
    }

    /** `wgpu_get_num_live_objects`: counts the ids in the table one by one. */
    method NumLiveObjects() returns (n: nat)
      ensures n == |table|
    {
      var ks := table.Keys;
      assert |ks| == |table|;
      n := 0;
      while ks != {}
        invariant ks <= table.Keys
        invariant n + |ks| == |table|
        decreases ks
      {
        Text.HasMember(ks);
        var k :| k in ks;
        n := n + 1;
        ks := ks - {k};
      }
    }

    /** `wgpu_is_valid_object`: the id holds a truthy object. */
    function IsValidObject(o: int): (r: bool)
      reads this
      ensures Valid() ==> (r <==> o in table)
    {
      o in table && table[o] != 0
    }

    /**
     * `wgpu_destroy_all_objects`: every stored object gets `wid == 0` and
     * the table is emptied; links and the counter are left as they are.
     */
    method DestroyAll()
      requires Valid()
      modifies this
      ensures Valid() && table == map[]
      ensures forall h :: h in wid <==> h in old(wid) || h in old(table).Values
      ensures forall h | h in wid :: wid[h] == if h in old(table).Values then 0 else old(wid)[h]
      ensures parent == old(parent) && derived == old(derived) && counter == old(counter)
    {
      ghost var w0, t0 := wid, table;
      var vs := table.Values;
      while vs != {}
        invariant vs <= t0.Values && table == t0
        invariant forall h :: h in wid <==> h in w0 || (h in t0.Values && h !in vs)
        invariant forall h | h in wid :: wid[h] == if h in t0.Values && h !in vs then 0 else w0[h]
        invariant parent == old(parent) && derived == old(derived) && counter == old(counter)
        decreases vs
      {
        var h :| h in vs;
        wid := wid[h := 0];
        vs := vs - {h};
      }
      table := map[];
    }

    /**
     * `wgpu_canvas_get_webgpu_context` once the canvas has handed out its
     * context object `ctx`: a context that already has an id keeps it,
     * otherwise it is stored.
     */
    method GetContext(ctx: Handle) returns (id: nat)
      requires Valid() && ctx != 0 && ((ctx in wid && wid[ctx] != 0) || FreeSlot(table))
      modifies this
      ensures Valid()
      ensures old(ctx in wid && wid[ctx] != 0) ==>
        (id == old(wid[ctx]) && table == old(table) && counter == old(counter) && wid == old(wid))
      ensures !old(ctx in wid && wid[ctx] != 0) ==>
        (FirstId <= id <= MaxId && id !in old(table) && ProbedBefore(old(table), old(counter), id) &&
         table == old(table)[id := ctx] && wid == old(wid)[ctx := id] && counter == NextId(id))
      ensures parent == old(parent) && derived == old(derived)
    {
      if ctx in wid && wid[ctx] != 0 {
        return wid[ctx];
      }
      id := Store(ctx);
    }

    /**
     * `wgpu_canvas_context_get_current_texture` once the context has
     * handed out its frame texture `tex`: a new texture replaces the old
     * one under id 1, destroying the old one (and, through the cascade,
     * everything it derived) and linking the new one under the context;
     * the same texture changes nothing. `mt`, `md` and `mw` are the
     * table, the links and the `wid` entries right after that destroy.
     */
    method GetCurrentTexture(ctxId: int, tex: Handle)
      returns (id: int, ghost mt: map<int, Handle>, ghost md: map<Handle, map<int, Handle>>, ghost mw: map<Handle, nat>)
      requires Valid() && ctxId in table && tex != 0
      modifies this
      ensures Valid() && id == CanvasTextureId
      ensures CanvasTextureId in table && table[CanvasTextureId] == tex
      ensures old(CanvasTextureId in table && table[CanvasTextureId] == tex) ==>
        (table == old(table) && wid == old(wid) && parent == old(parent) && derived == old(derived))
      ensures !old(CanvasTextureId in table && table[CanvasTextureId] == tex) ==>
        Destroyed(old(table), old(derived), old(wid), mt, md, mw, CanvasTextureId) &&
        table == mt[CanvasTextureId := tex] && wid == mw[tex := CanvasTextureId] &&
        parent == old(parent)[tex := old(table[ctxId])] &&
        derived == md[old(table[ctxId]) := (if old(table[ctxId]) in md then md[old(table[ctxId])] else map[])[CanvasTextureId := tex]]
      ensures old(CanvasTextureId in table) && old(table[CanvasTextureId]) != tex ==>
        (old(table[CanvasTextureId]) in wid && wid[old(table[CanvasTextureId])] == 0)
      ensures forall k | k in table && k != CanvasTextureId :: k in old(table) && table[k] == old(table)[k]
      ensures counter == old(counter)
    {
      var ctx := table[ctxId];
      mt, md, mw := table, derived, wid;
      if !(CanvasTextureId in table && table[CanvasTextureId] == tex) {
        Destroy(CanvasTextureId);
        mt, md, mw := table, derived, wid;
        table := table[CanvasTextureId := tex];
        wid := wid[tex := CanvasTextureId];
        Link(ctx, CanvasTextureId, tex);
      }
      id := CanvasTextureId;
    }
  }

  // ---------------------------------------------------------------------
  // The library's own usage scenarios, as proofs
  // ---------------------------------------------------------------------

  /**
   * The set-up of the live-object count test on a fresh registry: an
   * adapter, a queue stored under its device, then the device stored
   * under the adapter, at ids 2, 3 and 4.
   */
  method StoreAdapterQueueDevice(r: Registry, adapter: Handle, device: Handle, queue: Handle) returns (a: nat, q: nat, d: nat)
    requires r.Valid() && r.table == map[] && r.counter == FirstId && r.derived == map[]
    requires adapter != 0 && device != 0 && queue != 0
    requires adapter != device && device != queue && adapter != queue
    modifies r
    ensures r.Valid() && a == 2 && q == 3 && d == 4
    ensures r.table == map[2 := adapter, 3 := queue, 4 := device]
    ensures r.derived == map[device := map[3 := queue], adapter := map[4 := device]]
  {
    assert FirstId !in r.table;
    a := r.Store(adapter);
    ProbeStopsAtFreeCounter(map[], FirstId, a);
    assert 3 !in r.table;
    q := r.StoreAndSetParent(queue, device);
    ProbeStopsAtFreeCounter(map[2 := adapter], 3, q);
    assert 4 !in r.table;
    d := r.StoreAndSetParent(device, adapter);
    ProbeStopsAtFreeCounter(map[2 := adapter, 3 := queue], 4, d);
  }

  /** Destroying the adapter of that set-up leaves nothing behind. */
  lemma AdapterTakesAll(t0: map<int, Handle>, d0: map<Handle, map<int, Handle>>, t1: map<int, Handle>,
                        adapter: Handle, device: Handle, queue: Handle)
    requires t0 == map[2 := adapter, 3 := queue, 4 := device]
    requires d0 == map[device := map[3 := queue], adapter := map[4 := device]] && adapter != device
    requires Shrunk(t0, t1) && Closed(t0, d0, t1) && 2 !in t1
    ensures t1 == map[]
  {
    assert t0[2] == adapter && d0[adapter] == map[4 := device];
    assert 4 !in t1;
    assert t0[4] == device && d0[device] == map[3 := queue];
    assert 3 !in t1;
    forall k ensures k !in t1 {
    }
    NoKeys(t1);
  }

  /**
   * The live-object count test: none before, three once stored, and
   * destroying the adapter takes the device and the queue with it.
   */
  method LiveObjectsScenario(adapter: Handle, device: Handle, queue: Handle) returns (before: nat, stored: nat, after: nat)
    requires adapter != 0 && device != 0 && queue != 0
    requires adapter != device && device != queue && adapter != queue
    ensures before == 0 && stored == 3 && after == 0
  {
    var r := new Registry();
    before := r.NumLiveObjects();
    var a, q, d := StoreAdapterQueueDevice(r, adapter, device, queue);
    stored := r.NumLiveObjects();
    ghost var t0, d0 := r.table, r.derived;
    r.Destroy(a);
    AdapterTakesAll(t0, d0, r.table, adapter, device, queue);
    after := r.NumLiveObjects();
  }

  /**
   * `wgpu_destroy_all_objects` after the same set-up: three live objects
   * and a valid device before, nothing live and an invalid device after.
   */
  method DestroyAllScenario(adapter: Handle, device: Handle, queue: Handle)
    returns (before: nat, validBefore: bool, live: nat, valid: bool)
    requires adapter != 0 && device != 0 && queue != 0
    requires adapter != device && device != queue && adapter != queue
    ensures before == 3 && validBefore
    ensures live == 0 && !valid
  {
    var r := new Registry();
    var a, q, d := StoreAdapterQueueDevice(r, adapter, device, queue);
    before := r.NumLiveObjects();
    validBefore := r.IsValidObject(d);
    r.DestroyAll();
    live := r.NumLiveObjects();
    valid := r.IsValidObject(d);
  }

  /**
   * Asking a canvas for its WebGPU context twice gives the same id; once
   * that id is destroyed, asking again stores the context under a new id.
   */
  method ContextScenario(ctx: Handle) returns (first: int, second: int, third: int)
    requires ctx != 0
    ensures first == second == FirstId && third == FirstId + 1
  {
    var r := new Registry();
    assert FirstId !in r.table;
    first := r.GetContext(ctx);
    ProbeStopsAtFreeCounter(map[], FirstId, first);
    second := r.GetContext(ctx);
    ghost var t0 := r.table;
    r.Destroy(first);
    assert t0[first] == ctx;
    assert FirstId + 1 !in r.table;
    ghost var t1 := r.table;
    third := r.GetContext(ctx);
    ProbeStopsAtFreeCounter(t1, FirstId + 1, third);
  }

  /**
   * The id counter at the top of the range, as written: the first store
   * takes `MaxId` and the second one `MaxId + 1`, outside the id range.
   */
  method WrapAsWritten(r: Registry, h1: Handle, h2: Handle) returns (first: nat, second: nat)
    requires r.table == map[] && r.counter == MaxId && h1 != 0 && h2 != 0
    modifies r
    ensures first == MaxId && second == MaxId + 1
  {
    assert MaxId !in r.table;
    first := r.StoreAsWritten(h1);
    ProbeStopsAtFreeCounter(map[], MaxId, first);
    assert FirstId !in r.table && MaxId + 1 !in r.table;
    second := r.StoreAsWritten(h2);
    ProbeStopsAtFreeCounter(map[MaxId := h1], MaxId + 1, second);
  }

  /** The same two stores with the corrected counter step: the second id wraps to `FirstId`. */
  method WrapCorrected(r: Registry, h1: Handle, h2: Handle) returns (first: nat, second: nat)
    requires r.Valid() && r.table == map[] && r.counter == MaxId && h1 != 0 && h2 != 0
    modifies r
    ensures first == MaxId && second == FirstId
  {
    assert MaxId !in r.table;
    first := r.Store(h1);
    ProbeStopsAtFreeCounter(map[], MaxId, first);
    assert FirstId !in r.table;
    second := r.Store(h2);
    ProbeStopsAtFreeCounter(map[MaxId := h1], FirstId, second);
  }
}
