/** The older bone-fixing window, BoneFixer/Editor/BoneFixer.cs. Its `DoFix` runs in one
    go: it checks the meshes, indexes both bone arrays by name, asks for confirmation,
    removes the broken bones the model lacks, creates the model bones the broken renderer
    lacks (one per round, each under a bone that already exists), and rearranges the bone
    array in the model's order. */
module EditorBoneFixer {
  import opened Wrappers
  import opened Dictionaries
  import opened Skinning
  import opened BoneFixer

  /** `KeyValuePair<string, int>`: a bone name and its index in a bone array. */
  datatype Entry = Entry(key: string, index: nat)

  // ---------------------------------------------------------------------------------------
  // Name indices

  /** The first null slot at or after `i`, or the length when there is none. */
  function FirstNull(slots: seq<Option<string>>, i: nat): (n: nat)
    requires i <= |slots|
    ensures i <= n <= |slots|
    ensures forall k :: i <= k < n ==> slots[k].Some?
    ensures n < |slots| ==> slots[n].None?
    decreases |slots| - i
  {
    if i == |slots| || slots[i].None? then i else FirstNull(slots, i + 1)
  }

  /** The (name, index) pairs the dictionary builder receives from the broken bone array
      before the lazy enumeration reaches a null slot, where reading the slot's game object
      dereferences null. */
  function Leading(slots: seq<Option<string>>): (r: seq<(string, nat)>)
    ensures |r| == FirstNull(slots, 0)
    ensures forall k :: 0 <= k < |r| ==> r[k] == (slots[k].value, k)
  {
    var n := FirstNull(slots, 0);
    seq(n, k requires 0 <= k < n => (slots[k].value, k))
  }

  /** `fixBones`: the broken bone array indexed by name. A repeated name before the first
      null slot throws; otherwise a null slot dereferences null. */
  function BrokenIndex(slots: seq<Option<string>>): Result<map<string, nat>, FixError>
  {
    match Fold(Leading(slots), true)
    case Failure(k) => Failure(Duplicated("broken", k))
    case Success(d) => if FirstNull(slots, 0) < |slots| then Failure(NullReference) else Success(d)
  }

  /** `modelBones`: the model bone array indexed by name. A repeated name throws with the
      same text as a repeated broken name. */
  function ModelIndex(model: seq<ModelBone>): Result<map<string, nat>, FixError>
  {
    match Fold(ModelPairs(model), true)
    case Failure(k) => Failure(Duplicated("broken", k))
    case Success(d) => Success(d)
  }

  /** Folding pairs whose second half is their position builds a name-to-position index. */
  lemma PositionalFold(ps: seq<(string, nat)>)
    requires forall k :: 0 <= k < |ps| ==> ps[k].1 == k
    requires DistinctKeys(ps)
    ensures Fold(ps, true).Success?
    ensures Fold(ps, true).value.Keys == KeySet(ps)
    ensures forall k :: 0 <= k < |ps| ==> Fold(ps, true).value[ps[k].0] == k
  {
    FoldThrowingSucceedsIffDistinct(ps);
    FoldKeys(ps, true);
    forall k | 0 <= k < |ps| ensures Fold(ps, true).value[ps[k].0] == k {
      FoldLastWins(ps, true, k);
    }
  }

  /** The broken index is built exactly when no slot is null and no name repeats; it then
      maps each name to its slot. A duplicate is reported only when both of its slots come
      before the first null slot. */
  lemma BrokenIndexOutcome(slots: seq<Option<string>>)
    ensures BrokenIndex(slots).Success? <==>
      (forall k :: 0 <= k < |slots| ==> slots[k].Some?) && UniqueSlots(slots)
    ensures BrokenIndex(slots).Success? ==>
      && BrokenIndex(slots).value.Keys == SlotNameSet(slots)
      && forall k :: 0 <= k < |slots| ==> BrokenIndex(slots).value[slots[k].value] == k
    ensures BrokenIndex(slots).Failure? && BrokenIndex(slots).error.Duplicated? ==>
      var e := BrokenIndex(slots).error;
      && e.of == "broken"
      && exists i, j :: 0 <= i < j < FirstNull(slots, 0) && slots[i] == slots[j] == Some(e.name)
    ensures BrokenIndex(slots).Failure? && !BrokenIndex(slots).error.Duplicated? ==>
      && BrokenIndex(slots).error == NullReference
      && FirstNull(slots, 0) < |slots|
      && UniqueSlots(slots[..FirstNull(slots, 0)])
  {
    var ps := Leading(slots);
    var n := FirstNull(slots, 0);
    FoldThrowingSucceedsIffDistinct(ps);
    LeadingDistinct(slots);
    match Fold(ps, true)
    case Failure(k) =>
      LeadingRepeat(slots);
    case Success(d) =>
      if n == |slots| {
        assert slots[..n] == slots;
        LeadingComplete(slots);
      }
  }

  /** The leading pairs have distinct names exactly when the slots before the first null
      one do. */
  lemma LeadingDistinct(slots: seq<Option<string>>)
    ensures DistinctKeys(Leading(slots)) <==> UniqueSlots(slots[..FirstNull(slots, 0)])
  {
    var ps := Leading(slots);
    var n := FirstNull(slots, 0);
    if DistinctKeys(ps) {
      forall i, j | 0 <= i < j < n ensures slots[..n][i] != slots[..n][j] {
        assert ps[i].0 != ps[j].0;
      }
    } else {
      var i, j :| 0 <= i < j < |ps| && ps[i].0 == ps[j].0;
      assert slots[..n][i] == slots[..n][j];
    }
  }

  /** The name a failing fold of the leading pairs reports sits at two slots before the
      first null one. */
  lemma LeadingRepeat(slots: seq<Option<string>>)
    requires Fold(Leading(slots), true).Failure?
    ensures exists i, j ::
      0 <= i < j < FirstNull(slots, 0) && slots[i] == slots[j] == Some(Fold(Leading(slots), true).error)
  {
    var ps := Leading(slots);
    var k := Fold(ps, true).error;
    FoldFailureIsFirstRepeat(ps, true);
    var j :| 0 <= j < |ps| && ps[j].0 == k && ps[j].0 in KeySet(ps[..j]) && DistinctKeys(ps[..j]);
    var i :| 0 <= i < j && ps[..j][i].0 == k;
    assert ps[i] == ps[..j][i];
    assert slots[i] == slots[j] == Some(k);
  }

  /** Without null slots and repeated names, the leading pairs fold into the index of
      every slot. */
  lemma LeadingComplete(slots: seq<Option<string>>)
    requires FirstNull(slots, 0) == |slots| && UniqueSlots(slots)
    ensures Fold(Leading(slots), true).Success?
    ensures Fold(Leading(slots), true).value.Keys == SlotNameSet(slots)
    ensures forall k :: 0 <= k < |slots| ==> Fold(Leading(slots), true).value[slots[k].value] == k
  {
    var ps := Leading(slots);
    assert slots[..|slots|] == slots;
    LeadingDistinct(slots);
    PositionalFold(ps);
    var d := Fold(ps, true).value;
    assert KeySet(ps) == SlotNameSet(slots) by {
      forall x | x in SlotNameSet(slots) ensures x in KeySet(ps) {
        var k :| 0 <= k < |slots| && slots[k].Some? && slots[k].value == x;
        assert ps[k].0 == x;
      }
    }
    forall k | 0 <= k < |slots| ensures d[slots[k].value] == k {
      assert ps[k].0 == slots[k].value;
    }
  }

  /** Every model bone as its name and its index, in model order. */
  function ModelPairs(model: seq<ModelBone>): (r: seq<(string, nat)>)
    ensures |r| == |model| && forall k :: 0 <= k < |model| ==> r[k] == (model[k].name, k)
  {
    seq(|model|, i requires 0 <= i < |model| => (model[i].name, i))
  }

  /** The model index is built exactly when no model name repeats, and maps each name to
      its bone; a repeated model name is reported as a repeated broken name. */
  lemma ModelIndexOutcome(model: seq<ModelBone>)
    ensures ModelIndex(model).Success? <==> UniqueNames(model)
    ensures ModelIndex(model).Success? ==>
      && ModelIndex(model).value.Keys == ModelNameSet(model)
      && forall k :: 0 <= k < |model| ==> ModelIndex(model).value[model[k].name] == k
    ensures ModelIndex(model).Failure? ==>
      var e := ModelIndex(model).error;
      && e.Duplicated? && e.of == "broken"
      && exists i, j :: 0 <= i < j < |model| && model[i].name == model[j].name == e.name
  {
    var ps := ModelPairs(model);
    FoldThrowingSucceedsIffDistinct(ps);
    assert DistinctKeys(ps) <==> UniqueNames(model) by {
      if !DistinctKeys(ps) {
        var i, j :| 0 <= i < j < |ps| && ps[i].0 == ps[j].0;
        assert model[i].name == model[j].name;
      }
    }
    match Fold(ps, true)
    case Failure(k) =>
      FoldFailureIsFirstRepeat(ps, true);
      var j :| 0 <= j < |ps| && ps[j].0 == k && ps[j].0 in KeySet(ps[..j]) && DistinctKeys(ps[..j]);
      var i :| 0 <= i < j && ps[..j][i].0 == k;
      assert model[i].name == model[j].name == k;
    case Success(d) =>
      PositionalFold(ps);
      assert KeySet(ps) == ModelNameSet(model) by {
        forall x | x in ModelNameSet(model) ensures x in KeySet(ps) {
          var k :| 0 <= k < |model| && model[k].name == x;
          assert ps[k].0 == x;
        }
      }
      forall k | 0 <= k < |model| ensures d[model[k].name] == k {
        assert ps[k].0 == model[k].name;
      }
  }

  /** The checks DoFix makes after the mesh check and before any change; None when both
      indices are built. */
  function Precheck(nodes: seq<Node>, bones: seq<Option<Handle>>, model: seq<ModelBone>): Option<FixError>
    requires HandlesIn(bones, |nodes|)
  {
    match BrokenIndex(SlotNames(nodes, bones))
    case Failure(e) => Some(e)
    case Success(_) =>
      match ModelIndex(model)
      case Failure(e) => Some(e)
      case Success(_) => None
  }

  /** DoFix gets past its checks exactly when the broken bone array has no null slot and
      neither array repeats a name; every repeated name is reported under "broken". */
  lemma PrecheckOutcome(nodes: seq<Node>, bones: seq<Option<Handle>>, model: seq<ModelBone>)
    requires HandlesIn(bones, |nodes|)
    ensures Precheck(nodes, bones, model).None? <==>
      (forall k :: 0 <= k < |bones| ==> bones[k].Some?) && UniqueSlots(SlotNames(nodes, bones)) && UniqueNames(model)
    ensures Precheck(nodes, bones, model).Some? && Precheck(nodes, bones, model).value.Duplicated? ==>
      Precheck(nodes, bones, model).value.of == "broken"
    ensures Precheck(nodes, bones, model).Some? && !Precheck(nodes, bones, model).value.Duplicated? ==>
      Precheck(nodes, bones, model).value == NullReference && exists k :: 0 <= k < |bones| && bones[k].None?
  {
    BrokenIndexOutcome(SlotNames(nodes, bones));
    ModelIndexOutcome(model);
  }

  // ---------------------------------------------------------------------------------------
  // The difference of the two arrays

  /** `removed`: the broken bones the model lacks, in the broken array's order (the
      enumeration order of `fixBones`). */
  function Removed(slots: seq<Option<string>>, model: seq<ModelBone>): (r: seq<RemovedBone>)
    ensures forall x :: x in r ==>
      && x.idx < FirstNull(slots, 0) && slots[x.idx] == Some(x.name)
      && x.name !in ModelNameSet(model) && !x.keep
    ensures forall k :: 0 <= k < |r| ==> r[k].idx < |slots| && slots[r[k].idx].Some?
    ensures forall i :: 0 <= i < FirstNull(slots, 0) && slots[i].value !in ModelNameSet(model) ==>
      RemovedBone(slots[i].value, i, false) in r
  {
    var ps := Leading(slots);
    var r := Unmatched(ps, ModelNameSet(model));
    assert forall x :: x in r ==> (x.name, x.idx) in ps;
    assert forall k :: 0 <= k < |r| ==> r[k] in r;
    assert forall i :: 0 <= i < FirstNull(slots, 0) ==> ps[i] in ps;
    r
  }

  /** A removed entry names a broken bone that is not a model bone. */
  lemma RemovedWitness(slots: seq<Option<string>>, model: seq<ModelBone>)
    ensures |Removed(slots, model)| != 0 ==> exists x :: x in SlotNameSet(slots) && x !in ModelNameSet(model)
  {
    var r := Removed(slots, model);
    if |r| != 0 {
      assert r[0] in r;
      assert slots[r[0].idx].value in SlotNameSet(slots);
    }
  }

  /** `added`: the model bones the broken array lacks. */
  function Added(slots: seq<Option<string>>, model: seq<ModelBone>): set<Entry>
  {
    set i | 0 <= i < |model| && model[i].name !in SlotNameSet(slots) :: Entry(model[i].name, i)
  }

  /** The confirmation dialog is shown exactly when the two arrays do not hold the same
      names. */
  lemma ConfirmIffNamesDiffer(slots: seq<Option<string>>, model: seq<ModelBone>)
    requires forall k :: 0 <= k < |slots| ==> slots[k].Some?
    ensures (|Removed(slots, model)| != 0 || Added(slots, model) != {}) <==> SlotNameSet(slots) != ModelNameSet(model)
  {
    var removed := Removed(slots, model);
    if SlotNameSet(slots) != ModelNameSet(model) {
      if x :| x in SlotNameSet(slots) && x !in ModelNameSet(model) {
        var k :| 0 <= k < |slots| && slots[k].Some? && slots[k].value == x;
        assert Unmatched(Leading(slots), ModelNameSet(model)) == removed;
        assert Leading(slots)[k] == (x, k);
        assert RemovedBone(x, k, false) in removed;
      } else {
        var x :| x in ModelNameSet(model) && x !in SlotNameSet(slots);
        var i :| 0 <= i < |model| && model[i].name == x;
        assert Entry(x, i) in Added(slots, model);
      }
    } else {
      forall i | 0 <= i < |model| ensures model[i].name in SlotNameSet(slots) {
        assert model[i].name in ModelNameSet(model);
      }
      if |removed| != 0 {
        RemovedWitness(slots, model);
        assert false;
      }
    }
  }
  // ---------------------------------------------------------------------------------------
  // Creating the missing bones

  /** An entry the inner foreach stops at: its model bone has no parent (so reading
      the parent's game object dereferences null), or its parent's name is resolved. */
  predicate Stopper(model: seq<ModelBone>, m: map<string, Handle>, e: Entry)
  {
    e.index < |model| && (model[e.index].parentName.None? || model[e.index].parentName.value in m)
  }

  /** How the inner foreach ends: it runs out of entries, it dereferences a null parent, or
      it reaches an entry it can create. */
  datatype Found = Stuck | NullParent | Resolvable(pair: Entry)

  /** `q` lists exactly the elements of `s`. */
  predicate Enumerates(q: seq<Entry>, s: set<Entry>)
  {
    (forall e :: e in q ==> e in s) && (forall e :: e in s ==> e in q)
  }

  /** A finite set can be enumerated. */
  lemma {:induction false} EnumerationExists(s: set<Entry>)
    ensures exists q :: Enumerates(q, s)
    decreases s
  {
    if s == {} {
      assert Enumerates([], s);
    } else {
      var x :| x in s;
      EnumerationExists(s - {x});
      var q :| Enumerates(q, s - {x});
      assert Enumerates(q + [x], s);
    }
  }

  /** The inner foreach over `added`, in the set's enumeration order, which the model
      leaves open. It returns at the first entry that is a stopper. */
  method Pick(model: seq<ModelBone>, m: map<string, Handle>, added: set<Entry>) returns (f: Found)
    requires forall e :: e in added ==> e.index < |model|
    ensures f.Stuck? <==> forall e :: e in added ==> !Stopper(model, m, e)
    ensures f.NullParent? ==> exists e :: e in added && model[e.index].parentName.None?
    ensures f.Resolvable? ==>
      f.pair in added && model[f.pair.index].parentName.Some? && model[f.pair.index].parentName.value in m
  {
    EnumerationExists(added);
    var order :| Enumerates(order, added);
    var j := 0;
    while j < |order|
      invariant 0 <= j <= |order|
      invariant forall k :: 0 <= k < j ==> !Stopper(model, m, order[k])
    {
      var pair := order[j];
      assert pair in added;
      var modelBone := model[pair.index];
      if modelBone.parentName.None? {
        return NullParent;
      }
      if modelBone.parentName.value in m {
        return Resolvable(pair);
      }
      j := j + 1;
    }
    forall e | e in added ensures !Stopper(model, m, e) {
      var k :| 0 <= k < |order| && order[k] == e;
    }
    return Stuck;
  }

  /** Entry `i` was created: its bone lies at or above `base`, is named as the model bone,
      copies its local transform and hangs under the bone resolved for its parent's name. */
  ghost predicate Made(nodes: seq<Node>, m: map<string, Handle>, model: seq<ModelBone>, i: nat, base: nat)
    requires i < |model| && model[i].name in m
  {
    var h := m[model[i].name];
    && base <= h < |nodes|
    && model[i].parentName.Some? && model[i].parentName.value in m
    && nodes[h] == Node(model[i].name, Some(m[model[i].parentName.value]), true, model[i].local)
  }

  /** The invariant of the creation loop, from the scene `nodes0` and the map `m0` it
      starts with: old nodes stay, old names keep their bones, every model name is either
      resolved or still pending, every name resolved by the loop was created, and every
      appended node is the bone the loop bound to its own, newly resolved, name. */
  ghost predicate AddInv(nodes0: seq<Node>, m0: map<string, Handle>, added0: set<Entry>, model: seq<ModelBone>,
                         nodes: seq<Node>, m: map<string, Handle>, added: set<Entry>)
  {
    && |nodes0| <= |nodes| && nodes[..|nodes0|] == nodes0
    && added <= added0
    && (forall e :: e in added0 ==> e.index < |model| && e.key == model[e.index].name)
    && (forall k :: k in m0 ==> k in m && m[k] == m0[k])
    && (forall k :: k in m ==> k in ModelNameSet(model) && m[k] < |nodes|)
    && (forall i :: 0 <= i < |model| ==> (model[i].name in m <==> Entry(model[i].name, i) !in added))
    && (forall i :: 0 <= i < |model| && model[i].name in m && model[i].name !in m0 ==>
          Made(nodes, m, model, i, |nodes0|))
    && (forall h :: |nodes0| <= h < |nodes| ==>
          nodes[h].name in m && nodes[h].name !in m0 && m[nodes[h].name] == h)
  }

  /** Some pending entry has no parent: it is always a stopper, so every round of the
      creation loop either dereferences its null parent or creates another entry, and
      the loop ends without a rank. */
  predicate HasOrphan(model: seq<ModelBone>, added: set<Entry>)
  {
    exists e :: e in added && e.index < |model| && model[e.index].parentName.None?
  }

  /** The creation loop has entries to create and none of them is parentless: only then
      does its termination depend on the parent names. */
  predicate LoopNeedsRank(slots: seq<Option<string>>, model: seq<ModelBone>)
  {
    Added(slots, model) != {} && !HasOrphan(model, Added(slots, model))
  }

  /** `rank` orders the pending entries so that each one's parent is resolved, missing
      (a null parent) or pending with a lower rank. */
  ghost predicate Pending(model: seq<ModelBone>, m: map<string, Handle>, added: set<Entry>, rank: seq<nat>)
  {
    forall e :: e in added ==>
      && e.index < |model| && e.index < |rank|
      && (|| model[e.index].parentName.None?
          || model[e.index].parentName.value in m
          || exists f :: f in added && f.key == model[e.index].parentName.value && f.index < |rank|
                         && rank[f.index] < rank[e.index])
  }

  /** An entry of least rank. */
  lemma {:induction false} MinRank(s: set<Entry>, rank: seq<nat>) returns (least: Entry)
    requires s != {} && forall e :: e in s ==> e.index < |rank|
    ensures least in s && forall e :: e in s ==> rank[least.index] <= rank[e.index]
    decreases s
  {
    var x :| x in s;
    if s == {x} {
      least := x;
    } else {
      var y := MinRank(s - {x}, rank);
      least := if rank[x.index] < rank[y.index] then x else y;
    }
  }

  /** With a parentless entry pending, or under `Pending`, a round of the creation loop
      always finds an entry to stop at. */
  lemma StopperExists(model: seq<ModelBone>, m: map<string, Handle>, added: set<Entry>, rank: seq<nat>)
    requires added != {} && (HasOrphan(model, added) || Pending(model, m, added, rank))
    ensures exists e :: e in added && Stopper(model, m, e)
  {
    if HasOrphan(model, added) {
      var e :| e in added && e.index < |model| && model[e.index].parentName.None?;
      assert Stopper(model, m, e);
    } else {
      var least := MinRank(added, rank);
      assert Stopper(model, m, least);
    }
  }

  /** Creating entry `e` under its resolved parent keeps the invariant. */
  lemma AddStep(nodes0: seq<Node>, m0: map<string, Handle>, added0: set<Entry>, model: seq<ModelBone>,
                nodes: seq<Node>, m: map<string, Handle>, added: set<Entry>, e: Entry)
    requires UniqueNames(model) && AddInv(nodes0, m0, added0, model, nodes, m, added)
    requires e in added && model[e.index].parentName.Some? && model[e.index].parentName.value in m
    ensures var parent := m[model[e.index].parentName.value];
      var nodes' := nodes + [Node(e.key, Some(parent), true, model[e.index].local)];
      AddInv(nodes0, m0, added0, model, nodes', m[e.key := |nodes|], added - {e})
  {
    var parent := m[model[e.index].parentName.value];
    var nodes' := nodes + [Node(e.key, Some(parent), true, model[e.index].local)];
    var m' := m[e.key := |nodes|];
    AddStepFrame(nodes0, m0, added0, model, nodes, m, added, e, nodes'[|nodes|]);
    AddStepNames(nodes0, m0, added0, model, nodes, m, added, e);
    AddStepMade(nodes0, m0, added0, model, nodes, m, added, e);
    AddStepAppended(nodes0, m0, added0, model, nodes, m, added, e, nodes'[|nodes|]);
    assert AddInv(nodes0, m0, added0, model, nodes', m', added - {e});
  }

  /** The parts of `AddInv` that appending one node and binding its name keeps without
      looking at the other entries. */
  lemma AddStepFrame(nodes0: seq<Node>, m0: map<string, Handle>, added0: set<Entry>, model: seq<ModelBone>,
                     nodes: seq<Node>, m: map<string, Handle>, added: set<Entry>, e: Entry, n: Node)
    requires AddInv(nodes0, m0, added0, model, nodes, m, added) && e in added
    ensures (nodes + [n])[..|nodes0|] == nodes0
    ensures e.key !in m && added - {e} <= added0
    ensures forall k :: k in m0 ==> k in m[e.key := |nodes|] && m[e.key := |nodes|][k] == m0[k]
    ensures forall k :: k in m[e.key := |nodes|] ==> k in ModelNameSet(model) && m[e.key := |nodes|][k] < |nodes| + 1
  {
    var nodes' := nodes + [n];
    assert nodes'[..|nodes|] == nodes;
    assert nodes'[..|nodes0|] == nodes'[..|nodes|][..|nodes0|];
    assert model[e.index].name == e.key;
    assert e.key in ModelNameSet(model);
  }

  /** The appended node is bound to its name, which was unresolved; the older appended
      nodes keep their bindings. */
  lemma AddStepAppended(nodes0: seq<Node>, m0: map<string, Handle>, added0: set<Entry>, model: seq<ModelBone>,
                        nodes: seq<Node>, m: map<string, Handle>, added: set<Entry>, e: Entry, n: Node)
    requires AddInv(nodes0, m0, added0, model, nodes, m, added) && e in added && n.name == e.key
    ensures forall h :: |nodes0| <= h < |nodes| + 1 ==>
      (nodes + [n])[h].name in m[e.key := |nodes|] && (nodes + [n])[h].name !in m0
      && m[e.key := |nodes|][(nodes + [n])[h].name] == h
  {
    assert model[e.index].name == e.key;
    assert e.key !in m;
  }

  lemma AddStepNames(nodes0: seq<Node>, m0: map<string, Handle>, added0: set<Entry>, model: seq<ModelBone>,
                     nodes: seq<Node>, m: map<string, Handle>, added: set<Entry>, e: Entry)
    requires UniqueNames(model) && AddInv(nodes0, m0, added0, model, nodes, m, added) && e in added
    ensures forall i :: 0 <= i < |model| ==>
      (model[i].name in m[e.key := |nodes|] <==> Entry(model[i].name, i) !in added - {e})
  {
    forall i | 0 <= i < |model|
      ensures model[i].name in m[e.key := |nodes|] <==> Entry(model[i].name, i) !in added - {e}
    {
      if model[i].name == e.key {
        assert i == e.index;
      }
    }
  }

  lemma AddStepMade(nodes0: seq<Node>, m0: map<string, Handle>, added0: set<Entry>, model: seq<ModelBone>,
                    nodes: seq<Node>, m: map<string, Handle>, added: set<Entry>, e: Entry)
    requires UniqueNames(model) && AddInv(nodes0, m0, added0, model, nodes, m, added)
    requires e in added && model[e.index].parentName.Some? && model[e.index].parentName.value in m
    ensures var parent := m[model[e.index].parentName.value];
      var nodes' := nodes + [Node(e.key, Some(parent), true, model[e.index].local)];
      forall i :: 0 <= i < |model| && model[i].name in m[e.key := |nodes|] && model[i].name !in m0 ==>
        Made(nodes', m[e.key := |nodes|], model, i, |nodes0|)
  {
    var parent := m[model[e.index].parentName.value];
    var nodes' := nodes + [Node(e.key, Some(parent), true, model[e.index].local)];
    var m' := m[e.key := |nodes|];
    assert e.key !in m by {
      assert model[e.index].name == e.key;
    }
    forall i | 0 <= i < |model| && model[i].name in m' && model[i].name !in m0
      ensures Made(nodes', m', model, i, |nodes0|)
    {
      if model[i].name == e.key {
        assert i == e.index by {
          assert Entry(model[i].name, i) in added;
        }
      } else {
        assert Made(nodes, m, model, i, |nodes0|);
        assert nodes'[m[model[i].name]] == nodes[m[model[i].name]];
      }
    }
  }

  /** Creating entry `e`, which has a parent, leaves a parentless entry pending. */
  lemma OrphanStep(model: seq<ModelBone>, added: set<Entry>, e: Entry)
    requires HasOrphan(model, added) && e.index < |model| && model[e.index].parentName.Some?
    ensures HasOrphan(model, added - {e})
  {
    var o :| o in added && o.index < |model| && model[o.index].parentName.None?;
    assert o in added - {e};
  }

  /** Creating entry `e` keeps the rank condition. */
  lemma PendingStep(model: seq<ModelBone>, m: map<string, Handle>, added: set<Entry>, rank: seq<nat>,
                    e: Entry, h: Handle)
    requires Pending(model, m, added, rank) && e in added
    ensures Pending(model, m[e.key := h], added - {e}, rank)
  {
    forall f | f in added - {e} && model[f.index].parentName.Some? && model[f.index].parentName.value !in m[e.key := h]
      ensures exists g :: g in added - {e} && g.key == model[f.index].parentName.value && g.index < |rank|
                          && rank[g.index] < rank[f.index]
    {
      var g :| g in added && g.key == model[f.index].parentName.value && g.index < |rank| && rank[g.index] < rank[f.index];
      assert g != e;
    }
  }

  /** The loop that runs while `added` is not empty: each round creates one pending bone under its
      resolved parent. `rank` stands for the termination the source does not guarantee: a
      round that finds no stopper would repeat forever; it is needed only while no pending
      entry is parentless. */
  method AddBones(scene: Scene, model: seq<ModelBone>, bonesMap0: map<string, Handle>, added0: set<Entry>,
                  ghost rank: seq<nat>)
    returns (r: Result<map<string, Handle>, FixError>)
    requires scene.Valid() && UniqueNames(model)
    requires AddInv(scene.nodes, bonesMap0, added0, model, scene.nodes, bonesMap0, added0)
    requires HasOrphan(model, added0) || Pending(model, bonesMap0, added0, rank)
    modifies scene
    ensures scene.Valid() && scene.bones == old(scene.bones)
    ensures old(scene.nodes) <= scene.nodes
    ensures r.Failure? ==> r.error == NullReference && exists e :: e in added0 && model[e.index].parentName.None?
    ensures r.Success? ==> AddInv(old(scene.nodes), bonesMap0, added0, model, scene.nodes, r.value, {})
  {
    var bonesMap := bonesMap0;
    var added := added0;
    while added != {}
      invariant scene.Valid() && scene.bones == old(scene.bones)
      invariant old(scene.nodes) <= scene.nodes
      invariant AddInv(old(scene.nodes), bonesMap0, added0, model, scene.nodes, bonesMap, added)
      invariant HasOrphan(model, added) || Pending(model, bonesMap, added, rank)
      decreases |added|
    {
      var found := Pick(model, bonesMap, added);
      match found
      case Stuck =>
        StopperExists(model, bonesMap, added, rank);
        assert false;
      case NullParent =>
        return Failure(NullReference);
      case Resolvable(pair) =>
        var modelBone := model[pair.index];
        var newParent := bonesMap[modelBone.parentName.value];
        AddStep(old(scene.nodes), bonesMap0, added0, model, scene.nodes, bonesMap, added, pair);
        if HasOrphan(model, added) {
          OrphanStep(model, added, pair);
        } else {
          PendingStep(model, bonesMap, added, rank, pair, |scene.nodes|);
        }
        added := added - {pair};
        var newBone := scene.Spawn(pair.key, newParent, modelBone.local);
        bonesMap := bonesMap[pair.key := newBone];
    }
    return Success(bonesMap);
  }
  // ---------------------------------------------------------------------------------------
  // DoFix

  /** Every name of the broken index points at a non-null slot holding a bone of that
      name. */
  lemma FixBonesPoint(nodes: seq<Node>, bones: seq<Option<Handle>>)
    requires HandlesIn(bones, |nodes|) && BrokenIndex(SlotNames(nodes, bones)).Success?
    ensures var d := BrokenIndex(SlotNames(nodes, bones)).value;
      forall x :: x in d ==> d[x] < |bones| && bones[d[x]].Some? && nodes[bones[d[x]].value].name == x
  {
    var slots := SlotNames(nodes, bones);
    BrokenIndexOutcome(slots);
    var d := BrokenIndex(slots).value;
    forall x | x in d ensures d[x] < |bones| && bones[d[x]].Some? && nodes[bones[d[x]].value].name == x {
      var k :| 0 <= k < |slots| && slots[k].Some? && slots[k].value == x;
      assert d[x] == k;
    }
  }

  /** `bonesMap` before the creation loop: the names both arrays hold, each bound to the
      broken bone of that name. */
  function Shared(bones: seq<Option<Handle>>, fixBones: map<string, nat>, modelNames: set<string>): map<string, Handle>
    requires forall k :: k in fixBones ==> fixBones[k] < |bones| && bones[fixBones[k]].Some?
  {
    map k | k in fixBones && k in modelNames :: bones[fixBones[k]].value
  }

  /** `bonesMap` before the creation loop, for the scene `nodes0`/`bones0`. */
  function InitialMap(nodes0: seq<Node>, bones0: seq<Option<Handle>>, model: seq<ModelBone>): map<string, Handle>
    requires HandlesIn(bones0, |nodes0|) && BrokenIndex(SlotNames(nodes0, bones0)).Success?
  {
    FixBonesPoint(nodes0, bones0);
    Shared(bones0, BrokenIndex(SlotNames(nodes0, bones0)).value, ModelNameSet(model))
  }

  /** Termination of the creation loop: every model bone to create either has no parent or
      has a parent name that is a model bone the broken array holds, or one of lower rank. */
  ghost predicate ERanked(slots: seq<Option<string>>, model: seq<ModelBone>, rank: seq<nat>)
  {
    && |rank| == |model|
    && forall i :: 0 <= i < |model| && model[i].name !in SlotNameSet(slots) && model[i].parentName.Some? ==>
         exists j :: 0 <= j < |model| && model[j].name == model[i].parentName.value
                     && (model[j].name in SlotNameSet(slots) || rank[j] < rank[i])
  }

  lemma PendingInit(slots: seq<Option<string>>, model: seq<ModelBone>, m: map<string, Handle>, rank: seq<nat>)
    requires ERanked(slots, model, rank)
    requires forall k :: k in m <==> k in SlotNameSet(slots) && k in ModelNameSet(model)
    ensures Pending(model, m, Added(slots, model), rank)
  {
    var added := Added(slots, model);
    forall e | e in added && model[e.index].parentName.Some? && model[e.index].parentName.value !in m
      ensures exists f :: f in added && f.key == model[e.index].parentName.value && f.index < |rank|
                          && rank[f.index] < rank[e.index]
    {
      var i := e.index;
      var j :| 0 <= j < |model| && model[j].name == model[i].parentName.value
               && (model[j].name in SlotNameSet(slots) || rank[j] < rank[i]);
      assert model[j].name in ModelNameSet(model);
      assert Entry(model[j].name, j) in added;
    }
  }

  lemma AddInit(nodes0: seq<Node>, bones0: seq<Option<Handle>>, model: seq<ModelBone>, nodes: seq<Node>)
    requires HandlesIn(bones0, |nodes0|) && |nodes| == |nodes0|
    requires BrokenIndex(SlotNames(nodes0, bones0)).Success? && UniqueNames(model)
    ensures var slots := SlotNames(nodes0, bones0);
      var m := InitialMap(nodes0, bones0, model);
      && (forall k :: k in m <==> k in SlotNameSet(slots) && k in ModelNameSet(model))
      && AddInv(nodes, m, Added(slots, model), model, nodes, m, Added(slots, model))
  {
    var slots := SlotNames(nodes0, bones0);
    BrokenIndexOutcome(slots);
    FixBonesPoint(nodes0, bones0);
    var fixBones := BrokenIndex(slots).value;
    var m := InitialMap(nodes0, bones0, model);
    var added := Added(slots, model);
    assert nodes[..|nodes0|] == nodes;
    forall i | 0 <= i < |model| ensures model[i].name in m <==> Entry(model[i].name, i) !in added {
      assert model[i].name in ModelNameSet(model);
    }
  }

  /** A bone the fix created for model bone `i`: at or above `base`, named as the model bone,
      with its local transform, under the new bone array's bone for its parent's name. */
  ghost predicate ENewBone(nodes: seq<Node>, bones: seq<Option<Handle>>, model: seq<ModelBone>, i: nat, base: nat)
    requires i < |bones| == |model| && bones[i].Some?
  {
    var h := bones[i].value;
    && base <= h < |nodes|
    && model[i].parentName.Some?
    && exists j :: 0 <= j < |model| && model[j].name == model[i].parentName.value
         && nodes[h] == Node(model[i].name, bones[j], true, model[i].local)
  }

  /** The outcome of a successful fix of `nodes0`/`bones0`: the old nodes are as removing
      the bones the model lacks left them; the new bone array has one bone per model bone,
      the broken bone of the same name when there is one, a new bone otherwise; and every
      appended node is the new bone of a model bone the broken array lacks. */
  ghost predicate ERepaired(nodes0: seq<Node>, bones0: seq<Option<Handle>>, model: seq<ModelBone>,
                            nodes: seq<Node>, bones: seq<Option<Handle>>)
    requires HandlesIn(bones0, |nodes0|)
  {
    var slots := SlotNames(nodes0, bones0);
    && |nodes0| <= |nodes|
    && nodes[..|nodes0|] == RemoveAll(nodes0, Doomed(bones0, Removed(slots, model)))
    && |bones| == |model|
    && (forall i :: 0 <= i < |model| ==> bones[i].Some? && bones[i].value < |nodes|)
    && (forall i, j :: 0 <= i < |model| && 0 <= j < |bones0| && slots[j] == Some(model[i].name) ==>
          bones[i] == bones0[j])
    && (forall i :: 0 <= i < |model| && model[i].name !in SlotNameSet(slots) ==>
          ENewBone(nodes, bones, model, i, |nodes0|))
    && AppendedAreNew(slots, model, |nodes0|, nodes, bones)
  }

  /** Every node at or above `base` carries no broken name and is the new bone of the model
      bone of its name. */
  ghost predicate AppendedAreNew(slots: seq<Option<string>>, model: seq<ModelBone>, base: nat,
                                 nodes: seq<Node>, bones: seq<Option<Handle>>)
  {
    forall h :: base <= h < |nodes| ==>
      && nodes[h].name !in SlotNameSet(slots)
      && exists i :: 0 <= i < |model| && i < |bones| && model[i].name == nodes[h].name && bones[i] == Some(h)
  }

  /** The end of DoFix: the bone array built from the final `bonesMap` is a repair. */
  lemma Finish(nodes0: seq<Node>, bones0: seq<Option<Handle>>, model: seq<ModelBone>,
               nodes1: seq<Node>, full: map<string, Handle>, nodes: seq<Node>, bones: seq<Option<Handle>>)
    requires HandlesIn(bones0, |nodes0|) && UniqueNames(model)
    requires BrokenIndex(SlotNames(nodes0, bones0)).Success?
    requires nodes1 == RemoveAll(nodes0, Doomed(bones0, Removed(SlotNames(nodes0, bones0), model)))
    requires AddInv(nodes1, InitialMap(nodes0, bones0, model), Added(SlotNames(nodes0, bones0), model), model, nodes, full, {})
    requires |bones| == |model|
    requires forall i :: 0 <= i < |model| ==> model[i].name in full && bones[i] == Some(full[model[i].name])
    ensures ERepaired(nodes0, bones0, model, nodes, bones)
    ensures HandlesIn(bones, |nodes|)
  {
    assert nodes[..|nodes0|] == nodes1;
    FinishShared(nodes0, bones0, model, nodes1, full, nodes, bones);
    FinishNew(nodes0, bones0, model, nodes1, full, nodes, bones);
    FinishAppended(nodes0, bones0, model, nodes1, full, nodes, bones);
  }

  /** The model bones the broken array holds keep their broken bones. */
  lemma FinishShared(nodes0: seq<Node>, bones0: seq<Option<Handle>>, model: seq<ModelBone>,
                     nodes1: seq<Node>, full: map<string, Handle>, nodes: seq<Node>, bones: seq<Option<Handle>>)
    requires HandlesIn(bones0, |nodes0|) && |nodes1| == |nodes0|
    requires BrokenIndex(SlotNames(nodes0, bones0)).Success?
    requires AddInv(nodes1, InitialMap(nodes0, bones0, model), Added(SlotNames(nodes0, bones0), model), model, nodes, full, {})
    requires |bones| == |model|
    requires forall i :: 0 <= i < |model| ==> model[i].name in full && bones[i] == Some(full[model[i].name])
    ensures forall i, j :: 0 <= i < |model| && 0 <= j < |bones0| && SlotNames(nodes0, bones0)[j] == Some(model[i].name) ==>
      bones[i] == bones0[j]
  {
    var slots := SlotNames(nodes0, bones0);
    BrokenIndexOutcome(slots);
    FixBonesPoint(nodes0, bones0);
    var fixBones := BrokenIndex(slots).value;
    forall i, j | 0 <= i < |model| && 0 <= j < |bones0| && slots[j] == Some(model[i].name)
      ensures bones[i] == bones0[j]
    {
      assert fixBones[model[i].name] == j;
      assert model[i].name in ModelNameSet(model);
    }
  }

  /** The model bones the broken array lacks are new bones. */
  lemma FinishNew(nodes0: seq<Node>, bones0: seq<Option<Handle>>, model: seq<ModelBone>,
                  nodes1: seq<Node>, full: map<string, Handle>, nodes: seq<Node>, bones: seq<Option<Handle>>)
    requires HandlesIn(bones0, |nodes0|) && |nodes1| == |nodes0|
    requires BrokenIndex(SlotNames(nodes0, bones0)).Success?
    requires AddInv(nodes1, InitialMap(nodes0, bones0, model), Added(SlotNames(nodes0, bones0), model), model, nodes, full, {})
    requires |bones| == |model|
    requires forall i :: 0 <= i < |model| ==> model[i].name in full && bones[i] == Some(full[model[i].name])
    ensures forall i :: 0 <= i < |model| && model[i].name !in SlotNameSet(SlotNames(nodes0, bones0)) ==>
      ENewBone(nodes, bones, model, i, |nodes0|)
  {
    var slots := SlotNames(nodes0, bones0);
    BrokenIndexOutcome(slots);
    FixBonesPoint(nodes0, bones0);
    forall i | 0 <= i < |model| && model[i].name !in SlotNameSet(slots)
      ensures ENewBone(nodes, bones, model, i, |nodes0|)
    {
      assert Made(nodes, full, model, i, |nodes1|);
      var p := model[i].parentName.value;
      var j :| 0 <= j < |model| && model[j].name == p;
      assert nodes[bones[i].value] == Node(model[i].name, bones[j], true, model[i].local);
    }
  }

  /** Every slot of the new bone array holds a bone of the scene, and every node the
      creation loop appended is the new bone of a model bone the broken array lacks. */
  lemma FinishAppended(nodes0: seq<Node>, bones0: seq<Option<Handle>>, model: seq<ModelBone>,
                       nodes1: seq<Node>, full: map<string, Handle>, nodes: seq<Node>, bones: seq<Option<Handle>>)
    requires HandlesIn(bones0, |nodes0|)
    requires BrokenIndex(SlotNames(nodes0, bones0)).Success? && |nodes1| == |nodes0|
    requires AddInv(nodes1, InitialMap(nodes0, bones0, model), Added(SlotNames(nodes0, bones0), model), model, nodes, full, {})
    requires |bones| == |model|
    requires forall i :: 0 <= i < |model| ==> model[i].name in full && bones[i] == Some(full[model[i].name])
    ensures forall i :: 0 <= i < |model| ==> bones[i].Some? && bones[i].value < |nodes|
    ensures AppendedAreNew(SlotNames(nodes0, bones0), model, |nodes0|, nodes, bones)
  {
    var slots := SlotNames(nodes0, bones0);
    BrokenIndexOutcome(slots);
    FixBonesPoint(nodes0, bones0);
    forall i | 0 <= i < |model| ensures bones[i].Some? && bones[i].value < |nodes| {
      assert bones[i] == Some(full[model[i].name]);
    }
    forall h | |nodes0| <= h < |nodes|
      ensures nodes[h].name !in SlotNameSet(slots)
      ensures exists i :: 0 <= i < |model| && model[i].name == nodes[h].name && bones[i] == Some(h)
    {
      var x := nodes[h].name;
      assert x in full && x !in InitialMap(nodes0, bones0, model);
      var i :| 0 <= i < |model| && model[i].name == x;
      assert model[i].name in ModelNameSet(model);
      assert bones[i] == Some(h);
      assert x !in SlotNameSet(slots);
    }
  }

  /** A new bone belongs to one slot of the new bone array only: the other slots hold old
      bones or new bones of other names. */
  lemma ENewBoneUnique(nodes0: seq<Node>, bones0: seq<Option<Handle>>, model: seq<ModelBone>,
                       nodes: seq<Node>, bones: seq<Option<Handle>>)
    requires HandlesIn(bones0, |nodes0|) && UniqueNames(model)
    requires ERepaired(nodes0, bones0, model, nodes, bones)
    ensures forall i, j ::
      (0 <= i < |model| && 0 <= j < |model| && i != j && model[i].name !in SlotNameSet(SlotNames(nodes0, bones0))) ==>
      bones[i] != bones[j]
  {
    var slots := SlotNames(nodes0, bones0);
    forall i, j | 0 <= i < |model| && 0 <= j < |model| && i != j && model[i].name !in SlotNameSet(slots)
      ensures bones[i] != bones[j]
    {
      assert ENewBone(nodes, bones, model, i, |nodes0|);
      if model[j].name in SlotNameSet(slots) {
        var k :| 0 <= k < |slots| && slots[k].Some? && slots[k].value == model[j].name;
        assert bones[j] == bones0[k];
      } else {
        assert ENewBone(nodes, bones, model, j, |nodes0|);
        assert nodes[bones[i].value].name != nodes[bones[j].value].name;
      }
    }
  }

  /** The state the creation loop starts from: just after the removal loop, `bonesMap` holds
      the shared names, and either a parentless model bone is pending or every pending model
      bone is ranked. */
  lemma StartCreation(nodes0: seq<Node>, bones0: seq<Option<Handle>>, model: seq<ModelBone>,
                      fixBones: map<string, nat>, modelBones: map<string, nat>, nodes1: seq<Node>, rank: seq<nat>)
    requires HandlesIn(bones0, |nodes0|) && UniqueNames(model) && |nodes1| == |nodes0|
    requires BrokenIndex(SlotNames(nodes0, bones0)) == Success(fixBones)
    requires ModelIndex(model) == Success(modelBones)
    requires LoopNeedsRank(SlotNames(nodes0, bones0), model) ==> ERanked(SlotNames(nodes0, bones0), model, rank)
    ensures forall k :: k in fixBones ==> fixBones[k] < |bones0| && bones0[fixBones[k]].Some?
    ensures Shared(bones0, fixBones, modelBones.Keys) == InitialMap(nodes0, bones0, model)
    ensures var m := InitialMap(nodes0, bones0, model);
      var added := Added(SlotNames(nodes0, bones0), model);
      AddInv(nodes1, m, added, model, nodes1, m, added)
      && (HasOrphan(model, added) || Pending(model, m, added, rank))
  {
    ModelIndexOutcome(model);
    FixBonesPoint(nodes0, bones0);
    AddInit(nodes0, bones0, model, nodes1);
    if LoopNeedsRank(SlotNames(nodes0, bones0), model) {
      PendingInit(SlotNames(nodes0, bones0), model, InitialMap(nodes0, bones0, model), rank);
    }
  }

  /** Once nothing is pending every model name is bound. */
  lemma AllCreated(nodes1: seq<Node>, m0: map<string, Handle>, added0: set<Entry>, model: seq<ModelBone>,
                   nodes: seq<Node>, full: map<string, Handle>)
    requires AddInv(nodes1, m0, added0, model, nodes, full, {})
    ensures forall i :: 0 <= i < |model| ==> model[i].name in full
  {
    forall i | 0 <= i < |model| ensures model[i].name in full {
      assert Entry(model[i].name, i) !in {};
    }
  }

  /** After a repair every slot of the new bone array holds a bone named as the model bone
      in the same slot. */
  lemma ERepairedFollowsModelOrder(nodes0: seq<Node>, bones0: seq<Option<Handle>>, model: seq<ModelBone>,
                                   nodes: seq<Node>, bones: seq<Option<Handle>>)
    requires HandlesIn(bones0, |nodes0|) && ERepaired(nodes0, bones0, model, nodes, bones)
    ensures forall i :: 0 <= i < |model| ==>
      bones[i].Some? && bones[i].value < |nodes| && nodes[bones[i].value].name == model[i].name
  {
    var slots := SlotNames(nodes0, bones0);
    RemoveAllNames(nodes0, Doomed(bones0, Removed(slots, model)));
    forall i | 0 <= i < |model| ensures nodes[bones[i].value].name == model[i].name {
      if model[i].name in SlotNameSet(slots) {
        var j :| 0 <= j < |slots| && slots[j].Some? && slots[j].value == model[i].name;
        var h := bones0[j].value;
        assert nodes[..|nodes0|][h] == nodes[h];
      }
    }
  }

  /** After a repair no removed bone is in the new bone array, and each of them is
      destroyed. */
  lemma ERepairedDropsRemoved(nodes0: seq<Node>, depth: seq<nat>, bones0: seq<Option<Handle>>, model: seq<ModelBone>,
                              nodes: seq<Node>, bones: seq<Option<Handle>>)
    requires HandlesIn(bones0, |nodes0|) && Acyclic(nodes0, depth)
    requires ERepaired(nodes0, bones0, model, nodes, bones)
    ensures var removed := Removed(SlotNames(nodes0, bones0), model);
      forall k :: 0 <= k < |removed| ==>
        && (forall i :: 0 <= i < |model| ==> bones[i] != bones0[removed[k].idx])
        && !nodes[bones0[removed[k].idx].value].alive
  {
    var slots := SlotNames(nodes0, bones0);
    var removed := Removed(slots, model);
    var hs := Doomed(bones0, removed);
    RemoveAllEffect(nodes0, depth, hs);
    forall k | 0 <= k < |removed|
      ensures (forall i :: 0 <= i < |model| ==> bones[i] != bones0[removed[k].idx])
      ensures !nodes[bones0[removed[k].idx].value].alive
    {
      var h := bones0[removed[k].idx].value;
      DoomedContains(bones0, removed, k);
      assert nodes[..|nodes0|][h] == nodes[h];
      RemovedNotInNewArray(nodes0, bones0, model, nodes, bones, removed[k]);
    }
  }

  /** A removed bone is neither a kept broken bone (its name is no model name) nor a new
      one (it is an old node). */
  lemma RemovedNotInNewArray(nodes0: seq<Node>, bones0: seq<Option<Handle>>, model: seq<ModelBone>,
                             nodes: seq<Node>, bones: seq<Option<Handle>>, x: RemovedBone)
    requires HandlesIn(bones0, |nodes0|) && ERepaired(nodes0, bones0, model, nodes, bones)
    requires x in Removed(SlotNames(nodes0, bones0), model)
    ensures forall i :: 0 <= i < |model| ==> bones[i] != bones0[x.idx]
  {
    var slots := SlotNames(nodes0, bones0);
    forall i | 0 <= i < |model| ensures bones[i] != bones0[x.idx] {
      if model[i].name in SlotNameSet(slots) {
        var j :| 0 <= j < |slots| && slots[j].Some? && slots[j].value == model[i].name;
        assert bones[i] == bones0[j];
        assert model[i].name in ModelNameSet(model);
      } else {
        assert ENewBone(nodes, bones, model, i, |nodes0|);
      }
    }
  }

  /** The rearranging loop: a fresh bone array holding, at each model slot, the bone
      `bonesMap` binds to that slot's name. */
  method Rearrange(model: seq<ModelBone>, bonesMap: map<string, Handle>) returns (bones: seq<Option<Handle>>)
    requires forall i :: 0 <= i < |model| ==> model[i].name in bonesMap
    ensures |bones| == |model|
    ensures forall i :: 0 <= i < |model| ==> bones[i] == Some(bonesMap[model[i].name])
  {
    var newBoneArray := new Option<Handle>[|model|](_ => None);
    for i := 0 to |model|
      invariant forall k :: 0 <= k < i ==> newBoneArray[k] == Some(bonesMap[model[k].name])
    {
      newBoneArray[i] := Some(bonesMap[model[i].name]);
    }
    bones := newBoneArray[..];
  }

  /** `DoFix(broken, model)` of the older window. `sameMesh` is whether the two renderers
      share their mesh and `confirm` the answer to the confirmation dialog. */
  method DoFix(scene: Scene, model: seq<ModelBone>, sameMesh: bool, confirm: bool, ghost rank: seq<nat>)
    returns (r: Result<bool, FixError>)
    requires scene.Valid()
    requires (sameMesh && Precheck(scene.nodes, scene.bones, model).None? && confirm
              && LoopNeedsRank(SlotNames(scene.nodes, scene.bones), model)) ==>
             ERanked(SlotNames(scene.nodes, scene.bones), model, rank)
    modifies scene
    ensures scene.Valid()
    ensures !sameMesh ==> r == Failure(MeshDiffer)
    ensures (!sameMesh || Precheck(old(scene.nodes), old(scene.bones), model).Some?) ==>
            scene.nodes == old(scene.nodes) && scene.bones == old(scene.bones)
    ensures sameMesh && Precheck(old(scene.nodes), old(scene.bones), model).Some? ==>
      r == Failure(Precheck(old(scene.nodes), old(scene.bones), model).value)
    ensures r.Failure? && r.error != NullReference ==> scene.nodes == old(scene.nodes) && scene.bones == old(scene.bones)
    ensures sameMesh && Precheck(old(scene.nodes), old(scene.bones), model).None? ==>
      || r == Success(true)
      || r == Failure(NullReference)
      || (r == Success(false) && !confirm
          && SlotNameSet(SlotNames(old(scene.nodes), old(scene.bones))) != ModelNameSet(model))
    ensures (sameMesh && Precheck(old(scene.nodes), old(scene.bones), model).None? && !confirm
             && SlotNameSet(SlotNames(old(scene.nodes), old(scene.bones))) != ModelNameSet(model)) ==>
            r == Success(false)
    ensures r == Success(false) ==> scene.nodes == old(scene.nodes) && scene.bones == old(scene.bones)
    ensures r == Failure(NullReference) && sameMesh && Precheck(old(scene.nodes), old(scene.bones), model).None? ==>
      exists i :: 0 <= i < |model| && model[i].parentName.None?
                  && model[i].name !in SlotNameSet(SlotNames(old(scene.nodes), old(scene.bones)))
    ensures r == Failure(NullReference) && sameMesh && Precheck(old(scene.nodes), old(scene.bones), model).None? ==>
      && scene.bones == old(scene.bones)
      && RemoveAll(old(scene.nodes), Doomed(old(scene.bones), Removed(SlotNames(old(scene.nodes), old(scene.bones)), model)))
         <= scene.nodes
    ensures r == Success(true) ==> ERepaired(old(scene.nodes), old(scene.bones), model, scene.nodes, scene.bones)
  {
    if !sameMesh {
      return Failure(MeshDiffer);
    }
    var slots := SlotNames(scene.nodes, scene.bones);
    var fixIndex := BrokenIndex(slots);
    if fixIndex.Failure? {
      return Failure(fixIndex.error);
    }
    var fixBones := fixIndex.value;
    var modelIndex := ModelIndex(model);
    if modelIndex.Failure? {
      return Failure(modelIndex.error);
    }
    var modelBones := modelIndex.value;
    BrokenIndexOutcome(slots);
    ModelIndexOutcome(model);
    PrecheckOutcome(scene.nodes, scene.bones, model);
    var removed := Removed(slots, model);
    var added := Added(slots, model);
    // `fixBones == modelBones` compares two dictionaries just built, by reference: it is
    // never true, so the "nop" return it guards is never taken.
    ConfirmIffNamesDiffer(slots, model);
    if |removed| != 0 || added != {} {
      if !confirm {
        return Success(false);
      }
    }

    r := Rebuild(scene, model, fixBones, modelBones, removed, added, rank);
  }

  /** The part of DoFix after the confirmation: the removal loop, the creation loop and the
      new bone array. */
  method Rebuild(scene: Scene, model: seq<ModelBone>, fixBones: map<string, nat>, modelBones: map<string, nat>,
                 removed: seq<RemovedBone>, added: set<Entry>, ghost rank: seq<nat>)
    returns (r: Result<bool, FixError>)
    requires scene.Valid() && UniqueNames(model)
    requires BrokenIndex(SlotNames(scene.nodes, scene.bones)) == Success(fixBones)
    requires ModelIndex(model) == Success(modelBones)
    requires removed == Removed(SlotNames(scene.nodes, scene.bones), model)
    requires added == Added(SlotNames(scene.nodes, scene.bones), model)
    requires LoopNeedsRank(SlotNames(scene.nodes, scene.bones), model) ==>
      ERanked(SlotNames(scene.nodes, scene.bones), model, rank)
    modifies scene
    ensures scene.Valid()
    ensures r == Success(true) || r == Failure(NullReference)
    ensures r == Failure(NullReference) ==>
      exists i :: 0 <= i < |model| && model[i].parentName.None?
                  && model[i].name !in SlotNameSet(SlotNames(old(scene.nodes), old(scene.bones)))
    ensures r == Failure(NullReference) ==>
      scene.bones == old(scene.bones) && RemoveAll(old(scene.nodes), Doomed(old(scene.bones), removed)) <= scene.nodes
    ensures r == Success(true) ==> ERepaired(old(scene.nodes), old(scene.bones), model, scene.nodes, scene.bones)
  {
    ghost var nodes0, bones0 := scene.nodes, scene.bones;
    RemoveBones(scene, removed);
    StartCreation(nodes0, bones0, model, fixBones, modelBones, scene.nodes, rank);
    var bonesMap := Shared(scene.bones, fixBones, modelBones.Keys);
    ghost var nodes1 := scene.nodes;
    var created := AddBones(scene, model, bonesMap, added, rank);
    if created.Failure? {
      return Failure(NullReference);
    }
    var full := created.value;
    AllCreated(nodes1, bonesMap, added, model, scene.nodes, full);
    var newBones := Rearrange(model, full);
    Finish(nodes0, bones0, model, nodes1, full, scene.nodes, newBones);
    scene.SetBones(newBones);
    return Success(true);
  }
}
