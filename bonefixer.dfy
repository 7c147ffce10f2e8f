/** The bone-fixing window of BoneFixer/BoneFixer.cs. `FindRemovedAdded` computes, from
    the broken and the model renderer, the removed bones (with a `keep` flag the user may
    toggle) and the mapping from each model bone to a broken bone (which the user may
    override); `DoFix` then removes, creates and rearranges bones. */
module BoneFixer {
  import opened Wrappers
  import opened Ordinal
  import opened Dictionaries
  import opened Skinning

  /** `(name, idx, keep)`: a broken bone absent from the model, at index `idx` of the broken
      bone array; `keep` is true when its game object is to survive. */
  datatype RemovedBone = RemovedBone(name: string, idx: nat, keep: bool)

  /** `(name, bone)`: a model bone's name and the broken bone standing for it, None while
      it still has to be created. */
  datatype MappingBone = MappingBone(name: string, bone: Option<Handle>)

  // ---------------------------------------------------------------------------------------
  // Name index

  /** No name occurs at two non-null slots. */
  predicate UniqueSlots(slots: seq<Option<string>>)
  {
    forall i, j :: 0 <= i < j < |slots| && slots[i].Some? && slots[j].Some? ==> slots[i] != slots[j]
  }

  /** The names of the non-null slots, set. */
  function SlotNameSet(slots: seq<Option<string>>): set<string>
  {
    set i | 0 <= i < |slots| && slots[i].Some? :: slots[i].value
  }

  /** The non-null slots of a bone array, each as its bone's name and its index, in index
      order: the pairs the name index is built from. */
  function IndexedNames(slots: seq<Option<string>>): (r: seq<(string, nat)>)
    ensures forall k :: 0 <= k < |r| ==> r[k].1 < |slots| && slots[r[k].1] == Some(r[k].0)
    ensures forall k, l :: 0 <= k < l < |r| ==> r[k].1 < r[l].1
    ensures forall i :: 0 <= i < |slots| && slots[i].Some? ==> (slots[i].value, i) in r
  {
    if |slots| == 0 then []
    else
      var init := IndexedNames(slots[..|slots| - 1]);
      match slots[|slots| - 1]
      case Some(n) => init + [(n, |slots| - 1)]
      case None => init
  }

  lemma IndexedNamesMembership(slots: seq<Option<string>>, n: string, i: nat)
    ensures (n, i) in IndexedNames(slots) <==> i < |slots| && slots[i] == Some(n)
  {
    if i < |slots| && slots[i] == Some(n) {
      assert (slots[i].value, i) in IndexedNames(slots);
    }
  }

  /** The three facts `IndexedNames` guarantees about its result `r`. */
  predicate IndexesSlots(slots: seq<Option<string>>, r: seq<(string, nat)>)
  {
    && (forall k :: 0 <= k < |r| ==> r[k].1 < |slots| && slots[r[k].1] == Some(r[k].0))
    && (forall k, l :: 0 <= k < l < |r| ==> r[k].1 < r[l].1)
    && (forall i :: 0 <= i < |slots| && slots[i].Some? ==> (slots[i].value, i) in r)
  }

  lemma UniqueSlotsGiveDistinct(slots: seq<Option<string>>, r: seq<(string, nat)>)
    requires IndexesSlots(slots, r) && UniqueSlots(slots)
    ensures DistinctKeys(r)
  {
    forall k, l | 0 <= k < l < |r| ensures r[k].0 != r[l].0 {
      var i, j := r[k].1, r[l].1;
      assert i < j && slots[i] == Some(r[k].0) && slots[j] == Some(r[l].0);
    }
  }

  lemma DistinctGivesUniqueSlots(slots: seq<Option<string>>, r: seq<(string, nat)>)
    requires IndexesSlots(slots, r) && DistinctKeys(r)
    ensures UniqueSlots(slots)
  {
    forall i, j | 0 <= i < j < |slots| && slots[i].Some? && slots[j].Some?
      ensures slots[i] != slots[j]
    {
      assert (slots[i].value, i) in r && (slots[j].value, j) in r;
      var k :| 0 <= k < |r| && r[k] == (slots[i].value, i);
      var l :| 0 <= l < |r| && r[l] == (slots[j].value, j);
      assert k < l;
    }
  }

  lemma IndexedNamesDistinct(slots: seq<Option<string>>)
    ensures UniqueSlots(slots) <==> DistinctKeys(IndexedNames(slots))
  {
    var r := IndexedNames(slots);
    assert IndexesSlots(slots, r);
    if UniqueSlots(slots) {
      UniqueSlotsGiveDistinct(slots, r);
    } else if DistinctKeys(r) {
      DistinctGivesUniqueSlots(slots, r);
    }
  }

  /** `BoneIndicesMap(bones, of)`: the name-to-index dictionary of the non-null slots; a
      name met twice is a `FixException` naming `of` and that name. Every recorded index
      holds a non-null slot of that name. */
  function BoneIndicesMap(slots: seq<Option<string>>, of: string): (r: Result<map<string, nat>, FixError>)
    ensures r.Success? ==> forall n :: n in r.value ==> r.value[n] < |slots| && slots[r.value[n]] == Some(n)
  {
    var ps := IndexedNames(slots);
    match Fold<string, nat>(ps, true)
    case Failure(k) => Failure(Duplicated(of, k))
    case Success(d) =>
      assert forall n :: n in d ==> d[n] < |slots| && slots[d[n]] == Some(n) by {
        forall n | n in d ensures d[n] < |slots| && slots[d[n]] == Some(n) {
          FoldValuesFromPairs(ps, true, n);
        }
      }
      Success(d)
  }

  /** The index is built exactly when no name repeats. */
  lemma BoneIndicesMapSucceedsIffUnique(slots: seq<Option<string>>, of: string)
    ensures BoneIndicesMap(slots, of).Success? <==> UniqueSlots(slots)
  {
    FoldThrowingSucceedsIffDistinct(IndexedNames(slots));
    IndexedNamesDistinct(slots);
  }

  /** With unique names, the index holds exactly the names of the non-null slots, each
      mapped to its slot. */
  lemma BoneIndicesMapContents(slots: seq<Option<string>>, of: string)
    requires UniqueSlots(slots)
    ensures BoneIndicesMap(slots, of).Success?
    ensures BoneIndicesMap(slots, of).value.Keys == SlotNameSet(slots)
    ensures forall i :: 0 <= i < |slots| && slots[i].Some? ==> BoneIndicesMap(slots, of).value[slots[i].value] == i
  {
    var ps := IndexedNames(slots);
    BoneIndicesMapSucceedsIffUnique(slots, of);
    IndexedNamesDistinct(slots);
    FoldKeys(ps, true);
    assert KeySet(ps) == SlotNameSet(slots) by {
      forall n | n in SlotNameSet(slots) ensures n in KeySet(ps) {
        var i :| 0 <= i < |slots| && slots[i].Some? && slots[i].value == n;
        assert (n, i) in ps;
      }
    }
    forall i | 0 <= i < |slots| && slots[i].Some? ensures Fold(ps, true).value[slots[i].value] == i {
      assert (slots[i].value, i) in ps;
      var k :| 0 <= k < |ps| && ps[k] == (slots[i].value, i);
      FoldLastWins(ps, true, k);
    }
  }

  /** A repeated name fails the index with a `FixException` that carries `of` and a name
      found at two non-null slots. */
  lemma BoneIndicesMapDuplicate(slots: seq<Option<string>>, of: string)
    requires !UniqueSlots(slots)
    ensures BoneIndicesMap(slots, of).Failure?
    ensures BoneIndicesMap(slots, of).error.Duplicated? && BoneIndicesMap(slots, of).error.of == of
    ensures exists i, j :: 0 <= i < j < |slots| && slots[i] == Some(BoneIndicesMap(slots, of).error.name) && slots[j] == slots[i]
  {
    var ps := IndexedNames(slots);
    BoneIndicesMapSucceedsIffUnique(slots, of);
    assert IndexesSlots(slots, ps);
    IndexedRepeat(slots, ps);
  }

  /** The name a failing fold of the indexed names reports sits at two slots. */
  lemma IndexedRepeat(slots: seq<Option<string>>, ps: seq<(string, nat)>)
    requires IndexesSlots(slots, ps) && Fold(ps, true).Failure?
    ensures exists i, j :: 0 <= i < j < |slots| && slots[i] == Some(Fold(ps, true).error) && slots[j] == slots[i]
  {
    FoldFailureIsFirstRepeat(ps, true);
    var k := Fold(ps, true).error;
    var p :| 0 <= p < |ps| && ps[p].0 == k && ps[p].0 in KeySet(ps[..p]) && DistinctKeys(ps[..p]);
    var q :| 0 <= q < |ps[..p]| && ps[..p][q].0 == k;
    assert ps[q] == ps[..p][q];
    assert ps[q].1 < ps[p].1;
  }

  // ---------------------------------------------------------------------------------------
  // Sorting the removed list by bone name

  predicate StrictlySorted(s: seq<RemovedBone>)
  {
    forall i, j :: 0 <= i < j < |s| ==> NameLe(s[i].name, s[j].name) && s[i].name != s[j].name
  }

  predicate DistinctNames(s: seq<RemovedBone>)
  {
    forall i, j :: 0 <= i < j < |s| ==> s[i].name != s[j].name
  }

  function Insert(x: RemovedBone, s: seq<RemovedBone>): (r: seq<RemovedBone>)
    ensures multiset(r) == multiset(s) + multiset{x}
  {
    if |s| == 0 then [x]
    else if NameLe(x.name, s[0].name) then [x] + s
    else
      assert s == [s[0]] + s[1..];
      [s[0]] + Insert(x, s[1..])
  }

  /** Everything in `s` comes strictly after `a`. */
  predicate AllAfter(a: string, s: seq<RemovedBone>)
  {
    forall k :: 0 <= k < |s| ==> NameLe(a, s[k].name) && a != s[k].name
  }

  lemma {:induction false} InsertAfter(a: string, x: RemovedBone, s: seq<RemovedBone>)
    requires AllAfter(a, s) && NameLe(a, x.name) && a != x.name
    ensures AllAfter(a, Insert(x, s))
  {
    if |s| == 0 {
      assert Insert(x, s) == [x];
    } else if NameLe(x.name, s[0].name) {
      AllAfterCons(a, x, s);
    } else {
      var t := s[1..];
      assert forall k :: 0 <= k < |t| ==> t[k] == s[k + 1];
      InsertAfter(a, x, t);
      AllAfterCons(a, s[0], Insert(x, t));
    }
  }

  lemma AllAfterCons(a: string, y: RemovedBone, t: seq<RemovedBone>)
    requires AllAfter(a, t) && NameLe(a, y.name) && a != y.name
    ensures AllAfter(a, [y] + t)
  {
    var r := [y] + t;
    assert forall k :: 0 < k < |r| ==> r[k] == t[k - 1];
  }

  /** A sorted list splits into its head, which comes before everything else, and a sorted
      tail. */
  lemma SortedUncons(s: seq<RemovedBone>)
    requires StrictlySorted(s) && |s| > 0
    ensures StrictlySorted(s[1..]) && AllAfter(s[0].name, s[1..])
  {
    assert forall k :: 0 <= k < |s[1..]| ==> s[1..][k] == s[k + 1];
  }

  /** Putting an element before a sorted list of later elements keeps it sorted. */
  lemma SortedCons(a: RemovedBone, t: seq<RemovedBone>)
    requires StrictlySorted(t) && AllAfter(a.name, t)
    ensures StrictlySorted([a] + t)
  {
    var r := [a] + t;
    forall i, j | 0 <= i < j < |r| ensures NameLe(r[i].name, r[j].name) && r[i].name != r[j].name {
      assert r[j] == t[j - 1];
      if i > 0 {
        assert r[i] == t[i - 1];
      }
    }
  }

  lemma {:induction false} InsertSorted(x: RemovedBone, s: seq<RemovedBone>)
    requires StrictlySorted(s)
    requires forall k :: 0 <= k < |s| ==> s[k].name != x.name
    ensures StrictlySorted(Insert(x, s))
  {
    if |s| > 0 {
      if NameLe(x.name, s[0].name) {
        forall k | 0 <= k < |s| ensures NameLe(x.name, s[k].name) {
          if k > 0 { NameLeTransitive(x.name, s[0].name, s[k].name); }
        }
        SortedCons(x, s);
      } else {
        NameLeTotal(x.name, s[0].name);
        var t := s[1..];
        SortedUncons(s);
        assert forall k :: 0 <= k < |t| ==> t[k] == s[k + 1];
        InsertSorted(x, t);
        InsertAfter(s[0].name, x, t);
        SortedCons(s[0], Insert(x, t));
      }
    }
  }

  /** A permutation of the tail of a list with distinct names never holds the head's name. */
  lemma HeadNameFresh(s: seq<RemovedBone>, t: seq<RemovedBone>)
    requires DistinctNames(s) && |s| > 0 && multiset(t) == multiset(s[1..])
    ensures forall k :: 0 <= k < |t| ==> t[k].name != s[0].name
  {
    forall k | 0 <= k < |t| ensures t[k].name != s[0].name {
      assert t[k] in multiset(s[1..]);
      var m :| 0 <= m < |s[1..]| && s[1..][m] == t[k];
      assert s[m + 1] == t[k];
    }
  }

  /** The tail of a list with distinct names has distinct names, and with the head it makes
      up the list. */
  lemma DistinctTail(s: seq<RemovedBone>)
    requires DistinctNames(s) && |s| > 0
    ensures DistinctNames(s[1..]) && multiset(s) == multiset(s[1..]) + multiset{s[0]}
  {
    assert forall k :: 0 <= k < |s[1..]| ==> s[1..][k] == s[k + 1];
    assert s == [s[0]] + s[1..];
  }

  /** Insertion sort by name. */
  function SortByName(s: seq<RemovedBone>): (r: seq<RemovedBone>)
    requires DistinctNames(s)
    ensures StrictlySorted(r) && multiset(r) == multiset(s)
  {
    if |s| == 0 then []
    else
      DistinctTail(s);
      var t := SortByName(s[1..]);
      HeadNameFresh(s, t);
      InsertSorted(s[0], t);
      Insert(s[0], t)
  }

  // ---------------------------------------------------------------------------------------
  // The diff

  /** The entries of the broken name index whose name the model lacks, each with its index
      and no `keep`, in the index's insertion order. */
  function Unmatched(ps: seq<(string, nat)>, modelNames: set<string>): (r: seq<RemovedBone>)
    ensures forall x :: x in r <==> (x.name, x.idx) in ps && x.name !in modelNames && !x.keep
    ensures DistinctKeys(ps) ==> DistinctNames(r)
  {
    if |ps| == 0 then []
    else
      var pre := ps[..|ps| - 1];
      var init := Unmatched(pre, modelNames);
      var (k, v) := ps[|ps| - 1];
      assert forall p :: p in ps <==> p in pre || p == ps[|ps| - 1] by {
        assert ps == pre + [ps[|ps| - 1]];
      }
      assert DistinctKeys(ps) ==> DistinctKeys(pre) by {
        if DistinctKeys(ps) {
          forall i, j | 0 <= i < j < |pre| ensures pre[i].0 != pre[j].0 {
            assert pre[i] == ps[i] && pre[j] == ps[j];
          }
        }
      }
      assert DistinctKeys(ps) ==> forall x :: x in init ==> x.name != k by {
        if DistinctKeys(ps) {
          forall x | x in init ensures x.name != k {
            var m :| 0 <= m < |pre| && pre[m] == (x.name, x.idx);
            assert ps[m] == (x.name, x.idx);
          }
        }
      }
      if k in modelNames then init else init + [RemovedBone(k, v, false)]
  }

  /** The model names, as the `HashSet` `modelBones`. */
  function ModelNameSet(model: seq<ModelBone>): set<string>
  {
    set i | 0 <= i < |model| :: model[i].name
  }

  /** One mapping entry per model bone, in model order: its name and the broken bone of that
      name, or None when the broken array has none. */
  function MappingOf(bones: seq<Option<Handle>>, fixBones: map<string, nat>, model: seq<ModelBone>): seq<MappingBone>
    requires forall n :: n in fixBones ==> fixBones[n] < |bones|
  {
    seq(|model|, i requires 0 <= i < |model| =>
      var name := model[i].name;
      MappingBone(name, if name in fixBones then bones[fixBones[name]] else None))
  }

  /** `FindRemovedAdded(broken, model)`. */
  function FindRemovedAdded(nodes: seq<Node>, bones: seq<Option<Handle>>, model: seq<ModelBone>)
    : Result<(seq<RemovedBone>, seq<MappingBone>), FixError>
    requires HandlesIn(bones, |nodes|)
  {
    var slots := SlotNames(nodes, bones);
    match BoneIndicesMap(slots, "broken")
    case Failure(e) => Failure(e)
    case Success(fixBones) =>
      BoneIndicesMapSucceedsIffUnique(slots, "broken");
      IndexedNamesDistinct(slots);
      var removed := SortByName(Unmatched(IndexedNames(slots), ModelNameSet(model)));
      Success((removed, MappingOf(bones, fixBones, model)))
  }

  /** The diff fails exactly on a repeated broken bone name, with a `FixException` that
      names "broken" and a repeated name. */
  lemma FindRemovedAddedFails(nodes: seq<Node>, bones: seq<Option<Handle>>, model: seq<ModelBone>)
    requires HandlesIn(bones, |nodes|)
    ensures FindRemovedAdded(nodes, bones, model).Success? <==> UniqueSlots(SlotNames(nodes, bones))
    ensures FindRemovedAdded(nodes, bones, model).Failure? ==>
      var e := FindRemovedAdded(nodes, bones, model).error;
      e.Duplicated? && e.of == "broken" &&
      exists i, j :: 0 <= i < j < |bones| && bones[i].Some? && bones[j].Some? &&
        nodes[bones[i].value].name == e.name == nodes[bones[j].value].name
  {
    var slots := SlotNames(nodes, bones);
    BoneIndicesMapSucceedsIffUnique(slots, "broken");
    if !UniqueSlots(slots) {
      BoneIndicesMapDuplicate(slots, "broken");
    }
  }

  /** The removed list holds exactly the non-null broken bones whose names are not model
      names, each with its broken index and `keep == false`, in strictly ascending order. */
  lemma FindRemovedAddedRemoved(nodes: seq<Node>, bones: seq<Option<Handle>>, model: seq<ModelBone>)
    requires HandlesIn(bones, |nodes|)
    requires FindRemovedAdded(nodes, bones, model).Success?
    ensures var removed := FindRemovedAdded(nodes, bones, model).value.0;
      StrictlySorted(removed) &&
      forall x :: x in removed <==>
        && !x.keep && x.idx < |bones| && bones[x.idx].Some?
        && nodes[bones[x.idx].value].name == x.name
        && x.name !in ModelNameSet(model)
  {
    var slots := SlotNames(nodes, bones);
    var ps := IndexedNames(slots);
    var u := Unmatched(ps, ModelNameSet(model));
    BoneIndicesMapSucceedsIffUnique(slots, "broken");
    IndexedNamesDistinct(slots);
    var removed := FindRemovedAdded(nodes, bones, model).value.0;
    assert removed == SortByName(u);
    forall x
      ensures x in removed <==>
        && !x.keep && x.idx < |bones| && bones[x.idx].Some?
        && nodes[bones[x.idx].value].name == x.name
        && x.name !in ModelNameSet(model)
    {
      assert x in removed <==> x in multiset(removed);
      assert x in u <==> (x.name, x.idx) in ps && x.name !in ModelNameSet(model) && !x.keep;
      IndexedNamesMembership(slots, x.name, x.idx);
    }
  }

  /** The mapping follows the model's order, names each model bone, and holds the broken
      bone of that name, or null when the broken renderer has none. */
  lemma FindRemovedAddedMapping(nodes: seq<Node>, bones: seq<Option<Handle>>, model: seq<ModelBone>)
    requires HandlesIn(bones, |nodes|)
    requires FindRemovedAdded(nodes, bones, model).Success?
    ensures var mapping := FindRemovedAdded(nodes, bones, model).value.1;
      && |mapping| == |model|
      && (forall i :: 0 <= i < |model| ==> mapping[i].name == model[i].name)
      && (forall i, j :: 0 <= i < |model| && 0 <= j < |bones| && bones[j].Some? && nodes[bones[j].value].name == model[i].name
            ==> mapping[i].bone == bones[j])
      && (forall i :: 0 <= i < |model| && mapping[i].bone.Some? ==>
            mapping[i].bone in bones && nodes[mapping[i].bone.value].name == model[i].name)
  {
    var slots := SlotNames(nodes, bones);
    BoneIndicesMapSucceedsIffUnique(slots, "broken");
    BoneIndicesMapContents(slots, "broken");
    var fixBones := BoneIndicesMap(slots, "broken").value;
    var mapping := FindRemovedAdded(nodes, bones, model).value.1;
    forall i, j | 0 <= i < |model| && 0 <= j < |bones| && bones[j].Some? && nodes[bones[j].value].name == model[i].name
      ensures mapping[i].bone == bones[j]
    {
      assert slots[j] == Some(model[i].name);
    }
  }
  // ---------------------------------------------------------------------------------------
  // Creating missing bones (the do-while loop of DoFix)

  /** The state the creation loop works on: the hierarchy, the bone column of `mapping`,
      the `bonesMap` dictionary of resolved names, and the `thereIsNull` flag. */
  datatype Work = Work(nodes: seq<Node>, bones: seq<Option<Handle>>, resolved: map<string, Handle>, thereIsNull: bool)

  /** Every handle in the state names a node. */
  ghost predicate WellFormed(w: Work)
  {
    HandlesIn(w.bones, |w.nodes|) && forall k :: k in w.resolved ==> w.resolved[k] < |w.nodes|
  }

  /** `bonesMap` holds exactly the names of the resolved entries, each bound to its bone. */
  ghost predicate Consistent(w: Work, model: seq<ModelBone>)
  {
    && |w.bones| == |model|
    && UniqueNames(model)
    && w.resolved.Keys == (set i | 0 <= i < |model| && w.bones[i].Some? :: model[i].name)
    && forall i :: 0 <= i < |model| && w.bones[i].Some? ==> w.resolved[model[i].name] == w.bones[i].value
  }

  /** One iteration of the inner for loop, at entry `i`. A model bone without a parent
      dereferences null when its parent's game object is read. */
  function Visit(w: Work, model: seq<ModelBone>, i: nat): (r: Result<Work, FixError>)
    requires i < |w.bones| == |model|
    ensures r.Success? ==> |r.value.bones| == |w.bones|
  {
    if w.bones[i].Some? then Success(w)
    else
      match model[i].parentName
      case None => Failure(NullReference)
      case Some(p) =>
        if p !in w.resolved then Success(w.(thereIsNull := true))
        else
          var h := |w.nodes|;
          Success(Work(w.nodes + [Node(model[i].name, Some(w.resolved[p]), true, model[i].local)],
                       w.bones[i := Some(h)],
                       w.resolved[model[i].name := h],
                       w.thereIsNull))
  }

  /** The inner for loop from entry `i` on. */
  function PassFrom(w: Work, model: seq<ModelBone>, i: nat): (r: Result<Work, FixError>)
    requires i <= |w.bones| == |model|
    ensures r.Success? ==> |r.value.bones| == |w.bones|
    decreases |w.bones| - i
  {
    if i == |w.bones| then Success(w)
    else
      match Visit(w, model, i)
      case Failure(e) => Failure(e)
      case Success(w') => PassFrom(w', model, i + 1)
  }

  /** One pass of the do-while body: the null flag is cleared, then the for loop runs. */
  function Pass(w: Work, model: seq<ModelBone>): (r: Result<Work, FixError>)
    requires |w.bones| == |model|
    ensures r.Success? ==> |r.value.bones| == |w.bones|
  {
    PassFrom(w.(thereIsNull := false), model, 0)
  }

  /** One step of the for loop. */
  lemma PassFromUnfold(w: Work, model: seq<ModelBone>, i: nat)
    requires i < |w.bones| == |model| && Visit(w, model, i).Success?
    ensures PassFrom(w, model, i) == PassFrom(Visit(w, model, i).value, model, i + 1)
  {
  }

  /** Entry `i` was filled in `w` by creating a node at or above `base`: named as the model
      bone, parented to the bone resolved for its parent's name, with the model bone's local
      transform. */
  ghost predicate Created(w: Work, model: seq<ModelBone>, i: nat, base: nat)
    requires i < |w.bones| && i < |model| && w.bones[i].Some?
  {
    var h := w.bones[i].value;
    && base <= h < |w.nodes|
    && model[i].parentName.Some? && model[i].parentName.value in w.resolved
    && w.nodes[h] == Node(model[i].name, Some(w.resolved[model[i].parentName.value]), true, model[i].local)
  }

  /** `w` is reachable from `w0` by creation: old nodes, resolved names and filled entries
      are untouched, every newly filled entry was created as `Created` says, and every
      appended node is the bone of a name that was unresolved in `w0`. */
  ghost predicate Extends(w0: Work, w: Work, model: seq<ModelBone>)
  {
    && |w.bones| == |w0.bones| == |model|
    && |w0.nodes| <= |w.nodes| && w.nodes[..|w0.nodes|] == w0.nodes
    && (forall k :: k in w0.resolved ==> k in w.resolved && w.resolved[k] == w0.resolved[k])
    && (forall i :: 0 <= i < |model| && w0.bones[i].Some? ==> w.bones[i] == w0.bones[i])
    && (forall i :: 0 <= i < |model| && w0.bones[i].None? && w.bones[i].Some? ==> Created(w, model, i, |w0.nodes|))
    && AppendedResolved(w0, w)
  }

  /** Every node of `w` beyond the nodes of `w0` is what `w` resolves its name to, and that
      name was unresolved in `w0`. */
  ghost predicate AppendedResolved(w0: Work, w: Work)
  {
    forall h :: |w0.nodes| <= h < |w.nodes| ==>
      w.nodes[h].name !in w0.resolved && w.nodes[h].name in w.resolved && w.resolved[w.nodes[h].name] == h
  }

  lemma ExtendsTransitive(w0: Work, w1: Work, w2: Work, model: seq<ModelBone>)
    requires Extends(w0, w1, model) && Extends(w1, w2, model)
    ensures Extends(w0, w2, model)
  {
    assert w2.nodes[..|w0.nodes|] == w2.nodes[..|w1.nodes|][..|w0.nodes|];
    forall i | 0 <= i < |model| && w0.bones[i].None? && w2.bones[i].Some?
      ensures Created(w2, model, i, |w0.nodes|)
    {
      if w1.bones[i].Some? {
        var h := w1.bones[i].value;
        assert w2.nodes[..|w1.nodes|][h] == w1.nodes[h];
      }
    }
    AppendedResolvedTransitive(w0, w1, w2);
  }

  lemma AppendedResolvedTransitive(w0: Work, w1: Work, w2: Work)
    requires |w0.nodes| <= |w1.nodes| <= |w2.nodes| && w2.nodes[..|w1.nodes|] == w1.nodes
    requires forall k :: k in w0.resolved ==> k in w1.resolved
    requires forall k :: k in w1.resolved ==> k in w2.resolved && w2.resolved[k] == w1.resolved[k]
    requires AppendedResolved(w0, w1) && AppendedResolved(w1, w2)
    ensures AppendedResolved(w0, w2)
  {
    forall h | |w0.nodes| <= h < |w2.nodes|
      ensures w2.nodes[h].name !in w0.resolved && w2.nodes[h].name in w2.resolved && w2.resolved[w2.nodes[h].name] == h
    {
      if h < |w1.nodes| {
        assert w2.nodes[..|w1.nodes|][h] == w1.nodes[h];
      }
    }
  }

  lemma ExtendsReflexive(w: Work, model: seq<ModelBone>)
    requires |w.bones| == |model|
    ensures Extends(w, w, model)
  {
    assert w.nodes[..|w.nodes|] == w.nodes;
  }

  /** Filling entry `i` with a new node keeps `bonesMap` consistent: the entry's name was
      not yet resolved, so no binding is overwritten. */
  lemma FillConsistent(w: Work, model: seq<ModelBone>, i: nat, h: Handle)
    requires i < |w.bones| == |model|
    requires Consistent(w, model) && w.bones[i].None?
    ensures model[i].name !in w.resolved
    ensures Consistent(w.(bones := w.bones[i := Some(h)], resolved := w.resolved[model[i].name := h]), model)
  {
    var nm := model[i].name;
    var w' := w.(bones := w.bones[i := Some(h)], resolved := w.resolved[nm := h]);
    assert nm !in w.resolved by {
      forall j | 0 <= j < |model| && w.bones[j].Some? ensures model[j].name != nm {
        assert j != i;
      }
    }
    assert w'.resolved.Keys == (set k | 0 <= k < |model| && w'.bones[k].Some? :: model[k].name) by {
      forall n | n in w'.resolved.Keys ensures n in (set k | 0 <= k < |model| && w'.bones[k].Some? :: model[k].name) {
        if n != nm {
          var j :| 0 <= j < |model| && w.bones[j].Some? && model[j].name == n;
          assert w'.bones[j].Some?;
        }
      }
    }
    forall j | 0 <= j < |model| && w'.bones[j].Some? ensures w'.resolved[model[j].name] == w'.bones[j].value {
      if j != i { assert w.bones[j].Some? && model[j].name != nm; }
    }
  }

  /** One visit keeps the state consistent, extends it, touches only entry `i`, and raises
      `thereIsNull` when it leaves entry `i` empty. */
  lemma VisitEffect(w: Work, model: seq<ModelBone>, i: nat)
    requires i < |w.bones| == |model|
    requires Consistent(w, model) && WellFormed(w)
    requires Visit(w, model, i).Success?
    ensures var w' := Visit(w, model, i).value;
      && Consistent(w', model) && WellFormed(w') && Extends(w, w', model)
      && (forall k :: 0 <= k < |model| && k != i ==> w'.bones[k] == w.bones[k])
      && (w.thereIsNull ==> w'.thereIsNull)
      && (w'.thereIsNull ==> w.thereIsNull || w.bones[i].None?)
      && (w'.thereIsNull && !w.thereIsNull ==> w'.bones[i].None?)
      && (w'.bones[i].None? ==> w'.thereIsNull)
  {
    var w' := Visit(w, model, i).value;
    if w.bones[i].Some? {
      ExtendsReflexive(w, model);
    } else if model[i].parentName.value in w.resolved {
      VisitCreates(w, model, i);
    } else {
      assert w' == w.(thereIsNull := true);
      ExtendsReflexive(w, model);
      assert w'.nodes == w.nodes && w'.bones == w.bones && w'.resolved == w.resolved;
    }
  }

  /** The visit that creates a bone for entry `i`. */
  lemma VisitCreates(w: Work, model: seq<ModelBone>, i: nat)
    requires i < |w.bones| == |model|
    requires Consistent(w, model) && WellFormed(w)
    requires w.bones[i].None? && model[i].parentName.Some? && model[i].parentName.value in w.resolved
    ensures var w' := Visit(w, model, i).value;
      && Consistent(w', model) && WellFormed(w') && Extends(w, w', model)
      && (forall k :: 0 <= k < |model| && k != i ==> w'.bones[k] == w.bones[k])
      && w'.thereIsNull == w.thereIsNull && w'.bones[i].Some?
  {
    var h := |w.nodes|;
    var p := model[i].parentName.value;
    var w' := Work(w.nodes + [Node(model[i].name, Some(w.resolved[p]), true, model[i].local)],
                   w.bones[i := Some(h)], w.resolved[model[i].name := h], w.thereIsNull);
    assert Visit(w, model, i) == Success(w');
    FillConsistent(w, model, i, h);
    assert w'.nodes[..|w.nodes|] == w.nodes;
    assert Created(w', model, i, |w.nodes|);
    assert AppendedResolved(w, w');
    assert HandlesIn(w'.bones, |w'.nodes|);
  }

  /** Entries before `i` are left as they are; `thereIsNull` is only raised; it is raised
      exactly when some entry from `i` on stays empty. */
  lemma {:induction false} PassFromEffect(w: Work, model: seq<ModelBone>, i: nat)
    requires i <= |w.bones| == |model|
    requires Consistent(w, model) && WellFormed(w)
    requires PassFrom(w, model, i).Success?
    ensures var w' := PassFrom(w, model, i).value;
      && Consistent(w', model) && WellFormed(w') && Extends(w, w', model)
      && (forall k :: 0 <= k < i ==> w'.bones[k] == w.bones[k])
      && (w.thereIsNull ==> w'.thereIsNull)
      && (w'.thereIsNull ==> w.thereIsNull || exists k :: i <= k < |model| && w.bones[k].None?)
      && (w'.thereIsNull ==> w.thereIsNull || exists k :: i <= k < |model| && w'.bones[k].None?)
      && (forall k :: i <= k < |model| && w'.bones[k].None? ==> w'.thereIsNull)
    decreases |w.bones| - i
  {
    if i == |w.bones| {
      ExtendsReflexive(w, model);
    } else {
      var w1 := Visit(w, model, i).value;
      VisitEffect(w, model, i);
      PassFromEffect(w1, model, i + 1);
      ExtendsTransitive(w, w1, PassFrom(w1, model, i + 1).value, model);
    }
  }

  /** The do-while loop ends only after a pass that found no empty entry: then every entry
      holds a bone. */
  lemma PassCompletes(w: Work, model: seq<ModelBone>)
    requires |w.bones| == |model| && Consistent(w, model) && WellFormed(w)
    requires Pass(w, model).Success? && !Pass(w, model).value.thereIsNull
    ensures forall k :: 0 <= k < |model| ==> Pass(w, model).value.bones[k].Some?
  {
    PassFromEffect(w.(thereIsNull := false), model, 0);
  }

  /** An empty entry whose parent name is resolved when its turn comes is filled. */
  lemma {:induction false} PassFromFills(w: Work, model: seq<ModelBone>, i: nat, c: nat)
    requires i <= c < |w.bones| == |model|
    requires Consistent(w, model) && WellFormed(w)
    requires w.bones[c].None? && model[c].parentName.Some? && model[c].parentName.value in w.resolved
    requires PassFrom(w, model, i).Success?
    ensures PassFrom(w, model, i).value.bones[c].Some?
    decreases |w.bones| - i
  {
    var w1 := Visit(w, model, i).value;
    VisitEffect(w, model, i);
    if i < c {
      PassFromFills(w1, model, i + 1, c);
    } else {
      PassFromEffect(w1, model, i + 1);
    }
  }

  /** A pass fails only by dereferencing the missing parent of an empty entry, and it does
      so whenever such an entry lies ahead. */
  lemma {:induction false} PassFromFailure(w: Work, model: seq<ModelBone>, i: nat)
    requires i <= |w.bones| == |model|
    requires Consistent(w, model) && WellFormed(w)
    ensures PassFrom(w, model, i).Failure? <==>
      exists k :: i <= k < |model| && w.bones[k].None? && model[k].parentName.None?
    ensures PassFrom(w, model, i).Failure? ==> PassFrom(w, model, i).error == NullReference
    decreases |w.bones| - i
  {
    if i < |w.bones| {
      match Visit(w, model, i)
      case Failure(e) =>
      case Success(w1) =>
        VisitEffect(w, model, i);
        PassFromFailure(w1, model, i + 1);
        if exists k :: i <= k < |model| && w.bones[k].None? && model[k].parentName.None? {
          var k :| i <= k < |model| && w.bones[k].None? && model[k].parentName.None?;
          assert k != i;
          assert w1.bones[k].None?;
        }
    }
  }

  // ---------------------------------------------------------------------------------------
  // Termination of the creation loop

  /** Every empty entry's parent name is eventually resolvable: it names a resolved entry
      or an empty entry of lower rank (or the entry has no parent, which fails the pass). */
  ghost predicate Ranked(bones: seq<Option<Handle>>, model: seq<ModelBone>, rank: seq<nat>)
  {
    && |bones| == |model| == |rank|
    && forall i :: 0 <= i < |model| && bones[i].None? && model[i].parentName.Some? ==>
         exists j :: 0 <= j < |model| && model[j].name == model[i].parentName.value
                     && (bones[j].Some? || rank[j] < rank[i])
  }

  /** Every empty entry's model bone has a parent name. Otherwise the first pass reaches
      an empty entry without a parent and dereferences null, so the loop ends without a
      rank. */
  predicate ParentsNamed(bones: seq<Option<Handle>>, model: seq<ModelBone>)
  {
    |bones| == |model| && forall i :: 0 <= i < |model| && bones[i].None? ==> model[i].parentName.Some?
  }

  function NullCount(bones: seq<Option<Handle>>): nat
  {
    if |bones| == 0 then 0 else (if bones[0].None? then 1 else 0) + NullCount(bones[1..])
  }

  lemma {:induction false} NullCountDecreases(a: seq<Option<Handle>>, b: seq<Option<Handle>>, c: nat)
    requires |a| == |b| && c < |a|
    requires forall k :: 0 <= k < |a| && b[k].None? ==> a[k].None?
    requires a[c].None? && b[c].Some?
    ensures NullCount(b) < NullCount(a)
  {
    if c > 0 {
      NullCountDecreases(a[1..], b[1..], c - 1);
    } else {
      NullCountNotIncreasing(a[1..], b[1..]);
    }
  }

  lemma {:induction false} NullCountNotIncreasing(a: seq<Option<Handle>>, b: seq<Option<Handle>>)
    requires |a| == |b|
    requires forall k :: 0 <= k < |a| && b[k].None? ==> a[k].None?
    ensures NullCount(b) <= NullCount(a)
  {
    if |a| > 0 {
      NullCountNotIncreasing(a[1..], b[1..]);
    }
  }

  /** Under `Ranked`, some empty entry is ready now: its parent is resolved or missing. */
  lemma {:induction false} ReadyEntry(w: Work, model: seq<ModelBone>, rank: seq<nat>, e: nat)
    requires Consistent(w, model) && Ranked(w.bones, model, rank)
    requires e < |model| && w.bones[e].None?
    ensures exists c :: (0 <= c < |model| && w.bones[c].None? &&
      (model[c].parentName.None? || model[c].parentName.value in w.resolved))
    decreases rank[e]
  {
    if model[e].parentName.Some? {
      var j :| 0 <= j < |model| && model[j].name == model[e].parentName.value && (w.bones[j].Some? || rank[j] < rank[e]);
      if w.bones[j].None? {
        ReadyEntry(w, model, rank, j);
      }
    }
  }

  /** Under `Ranked`, a successful pass over a state with an empty entry fills at least one. */
  lemma PassProgresses(w: Work, model: seq<ModelBone>, rank: seq<nat>)
    requires Consistent(w, model) && WellFormed(w) && Ranked(w.bones, model, rank)
    requires exists e :: 0 <= e < |model| && w.bones[e].None?
    requires Pass(w, model).Success?
    ensures NullCount(Pass(w, model).value.bones) < NullCount(w.bones)
  {
    var w0 := w.(thereIsNull := false);
    var w' := Pass(w, model).value;
    var e :| 0 <= e < |model| && w.bones[e].None?;
    ReadyEntry(w, model, rank, e);
    var c :| 0 <= c < |model| && w.bones[c].None? &&
      (model[c].parentName.None? || model[c].parentName.value in w.resolved);
    if model[c].parentName.None? {
      PassFromFailure(w0, model, 0);
      assert false;
    }
    PassFromFills(w0, model, 0, c);
    PassKeepsFilled(w0, model);
    NullCountDecreases(w.bones, w'.bones, c);
  }

  /** A pass never empties an entry. */
  lemma PassKeepsFilled(w: Work, model: seq<ModelBone>)
    requires |w.bones| == |model| && Consistent(w, model) && WellFormed(w)
    requires PassFrom(w, model, 0).Success?
    ensures forall k :: 0 <= k < |model| && PassFrom(w, model, 0).value.bones[k].None? ==> w.bones[k].None?
  {
    PassFromEffect(w, model, 0);
  }

  /** Creation keeps `Ranked`: a resolved parent stays resolved. */
  lemma ExtendsKeepsRanked(w: Work, w': Work, model: seq<ModelBone>, rank: seq<nat>)
    requires Extends(w, w', model) && Ranked(w.bones, model, rank)
    ensures Ranked(w'.bones, model, rank)
  {
    forall i | 0 <= i < |model| && w'.bones[i].None? && model[i].parentName.Some?
      ensures exists j :: 0 <= j < |model| && model[j].name == model[i].parentName.value
                          && (w'.bones[j].Some? || rank[j] < rank[i])
    {
      var j :| 0 <= j < |model| && model[j].name == model[i].parentName.value && (w.bones[j].Some? || rank[j] < rank[i]);
    }
  }

  // ---------------------------------------------------------------------------------------
  // Non-termination of the creation loop

  /** When no empty entry has a resolved parent, a pass changes nothing but raises
      `thereIsNull`, so the do-while loop repeats the same pass forever. */
  lemma {:induction false} StuckPassChangesNothing(w: Work, model: seq<ModelBone>, i: nat)
    requires i <= |w.bones| == |model|
    requires forall k :: 0 <= k < |model| && w.bones[k].None? ==>
      model[k].parentName.Some? && model[k].parentName.value !in w.resolved
    ensures PassFrom(w, model, i) ==
      Success(w.(thereIsNull := w.thereIsNull || exists k :: i <= k < |model| && w.bones[k].None?))
    decreases |w.bones| - i
  {
    if i < |w.bones| {
      var w1 := Visit(w, model, i).value;
      StuckPassChangesNothing(w1, model, i + 1);
      if w.bones[i].None? {
        assert w1 == w.(thereIsNull := true);
      } else {
        assert (exists k :: i <= k < |model| && w.bones[k].None?) <==> (exists k :: i + 1 <= k < |model| && w.bones[k].None?);
      }
    }
  }

  /** An empty entry whose parent name is no model bone's name stays empty after every
      pass, and the pass ends with `thereIsNull` set: the do-while loop never exits. */
  lemma DanglingParentNeverResolves(w: Work, model: seq<ModelBone>, c: nat)
    requires Consistent(w, model) && WellFormed(w)
    requires c < |model| && w.bones[c].None?
    requires model[c].parentName.Some? && model[c].parentName.value !in ModelNameSet(model)
    requires Pass(w, model).Success?
    ensures Consistent(Pass(w, model).value, model)
    ensures Pass(w, model).value.bones[c].None? && Pass(w, model).value.thereIsNull
  {
    PassFromEffect(w.(thereIsNull := false), model, 0);
  }
  // ---------------------------------------------------------------------------------------
  // DoFix

  /** The slots `BoneIndicesMap(model.bones, "model")` reads. */
  function ModelSlots(model: seq<ModelBone>): (r: seq<Option<string>>)
    ensures UniqueSlots(r) <==> UniqueNames(model)
  {
    var r := seq(|model|, i requires 0 <= i < |model| => Some(model[i].name));
    assert UniqueSlots(r) <==> UniqueNames(model) by {
      if UniqueNames(model) {
        forall i, j | 0 <= i < j < |r| ensures r[i] != r[j] {
          assert model[i].name != model[j].name;
        }
      } else {
        var i, j :| 0 <= i < j < |model| && model[i].name == model[j].name;
        assert r[i] == r[j];
      }
    }
    r
  }

  /** The two name indices DoFix builds first, before any change to the scene; None when
      both are built. */
  function NameCheck(nodes: seq<Node>, bones: seq<Option<Handle>>, model: seq<ModelBone>): Option<FixError>
    requires HandlesIn(bones, |nodes|)
  {
    match BoneIndicesMap(SlotNames(nodes, bones), "broken")
    case Failure(e) => Some(e)
    case Success(_) =>
      match BoneIndicesMap(ModelSlots(model), "model")
      case Failure(e) => Some(e)
      case Success(_) => None
  }

  /** DoFix goes past its name checks exactly when neither renderer repeats a name; a
      repeated broken name is reported first. */
  lemma NameCheckPasses(nodes: seq<Node>, bones: seq<Option<Handle>>, model: seq<ModelBone>)
    requires HandlesIn(bones, |nodes|)
    ensures NameCheck(nodes, bones, model).None? <==> UniqueSlots(SlotNames(nodes, bones)) && UniqueNames(model)
    ensures !UniqueSlots(SlotNames(nodes, bones)) ==> NameCheck(nodes, bones, model).value.of == "broken"
    ensures UniqueSlots(SlotNames(nodes, bones)) && !UniqueNames(model) ==> NameCheck(nodes, bones, model).value.of == "model"
  {
    var slots := SlotNames(nodes, bones);
    BoneIndicesMapSucceedsIffUnique(slots, "broken");
    BoneIndicesMapSucceedsIffUnique(ModelSlots(model), "model");
    if !UniqueSlots(slots) {
      BoneIndicesMapDuplicate(slots, "broken");
    } else if !UniqueNames(model) {
      BoneIndicesMapDuplicate(ModelSlots(model), "model");
    }
  }

  /** Every removed entry points at a non-null slot of the bone array. */
  predicate Removable(bones: seq<Option<Handle>>, removed: seq<RemovedBone>)
  {
    forall k :: 0 <= k < |removed| ==> removed[k].idx < |bones| && bones[removed[k].idx].Some?
  }

  /** The bones the removal loop destroys, in order: those of the entries without `keep`. */
  function Doomed(bones: seq<Option<Handle>>, removed: seq<RemovedBone>): (r: seq<Handle>)
    requires Removable(bones, removed)
    ensures forall k :: 0 <= k < |r| ==> Some(r[k]) in bones
  {
    if |removed| == 0 then []
    else
      var last := removed[|removed| - 1];
      Doomed(bones, removed[..|removed| - 1]) + (if last.keep then [] else [bones[last.idx].value])
  }

  /** The bone of every entry without `keep` is doomed. */
  lemma {:induction false} DoomedContains(bones: seq<Option<Handle>>, removed: seq<RemovedBone>, k: nat)
    requires Removable(bones, removed) && k < |removed| && !removed[k].keep
    ensures bones[removed[k].idx].value in Doomed(bones, removed)
  {
    var init := removed[..|removed| - 1];
    if k < |removed| - 1 {
      assert init[k] == removed[k];
      DoomedContains(bones, init, k);
    }
  }

  /** Only the entries without `keep` doom a bone: every doomed bone is the bone of such
      an entry, so a kept entry adds nothing. */
  lemma {:induction false} DoomedOnlyUnkept(bones: seq<Option<Handle>>, removed: seq<RemovedBone>, h: Handle)
    requires Removable(bones, removed) && h in Doomed(bones, removed)
    ensures exists k :: 0 <= k < |removed| && !removed[k].keep && bones[removed[k].idx] == Some(h)
    decreases |removed|
  {
    var init := removed[..|removed| - 1];
    var last := removed[|removed| - 1];
    if h in Doomed(bones, init) {
      DoomedOnlyUnkept(bones, init, h);
      var k :| 0 <= k < |init| && !init[k].keep && bones[init[k].idx] == Some(h);
      assert removed[k] == init[k];
    } else {
      assert !last.keep && h == bones[last.idx].value;
    }
  }

  /** What the window hands to DoFix: the mapping is in the model's order with the model's
      names, every handle names a node, and every removed entry a non-null slot. `keep` and
      the mapped bones are free, as the user may have edited them. */
  predicate ReadyFor(nodes: seq<Node>, bones: seq<Option<Handle>>, removed: seq<RemovedBone>,
                     mapping: seq<MappingBone>, model: seq<ModelBone>)
  {
    && HandlesIn(bones, |nodes|)
    && |mapping| == |model|
    && (forall i :: 0 <= i < |model| ==> mapping[i].name == model[i].name)
    && (forall i :: 0 <= i < |model| && mapping[i].bone.Some? ==> mapping[i].bone.value < |nodes|)
    && Removable(bones, removed)
  }

  /** Every bone `Doomed` lists is a node. */
  predicate DoomedBelow(bones: seq<Option<Handle>>, removed: seq<RemovedBone>, n: nat)
  {
    Removable(bones, removed) && forall k :: 0 <= k < |Doomed(bones, removed)| ==> Doomed(bones, removed)[k] < n
  }

  /** One more removed entry adds its bone, unless kept. */
  lemma DoomedStep(bones: seq<Option<Handle>>, removed: seq<RemovedBone>, i: nat, n: nat)
    requires Removable(bones, removed) && HandlesIn(bones, n) && i < |removed|
    ensures DoomedBelow(bones, removed[..i + 1], n)
    ensures Doomed(bones, removed[..i + 1])
      == Doomed(bones, removed[..i]) + (if removed[i].keep then [] else [bones[removed[i].idx].value])
  {
    assert removed[..i + 1][..i] == removed[..i];
    var r := Doomed(bones, removed[..i + 1]);
    forall k | 0 <= k < |r| ensures r[k] < n {
      assert Some(r[k]) in bones;
    }
  }

  /** The output of FindRemovedAdded is ready for DoFix. */
  lemma FindRemovedAddedIsReady(nodes: seq<Node>, bones: seq<Option<Handle>>, model: seq<ModelBone>)
    requires HandlesIn(bones, |nodes|)
    requires FindRemovedAdded(nodes, bones, model).Success?
    ensures var (removed, mapping) := FindRemovedAdded(nodes, bones, model).value;
      ReadyFor(nodes, bones, removed, mapping, model)
  {
    FindRemovedAddedRemoved(nodes, bones, model);
    FindRemovedAddedMapping(nodes, bones, model);
    var (removed, mapping) := FindRemovedAdded(nodes, bones, model).value;
    forall k | 0 <= k < |removed| ensures removed[k].idx < |bones| && bones[removed[k].idx].Some? {
      assert removed[k] in removed;
    }
  }

  /** The bone column of the mapping. */
  function Bones(mapping: seq<MappingBone>): (r: seq<Option<Handle>>)
    ensures |r| == |mapping|
  {
    seq(|mapping|, i requires 0 <= i < |mapping| => mapping[i].bone)
  }

  lemma AllBound(mapping: seq<MappingBone>)
    requires forall k :: 0 <= k < |mapping| ==> Bones(mapping)[k].Some?
    ensures forall k :: 0 <= k < |mapping| ==> mapping[k].bone.Some?
  {
    forall k | 0 <= k < |mapping| ensures mapping[k].bone.Some? {
      assert Bones(mapping)[k] == mapping[k].bone;
    }
  }

  /** The initial name-to-bone dictionary of the creation loop: the bound mapping entries.
      Their names are the model's, already known to be distinct, so building it cannot throw. */
  function Seed(mapping: seq<MappingBone>): map<string, Handle>
    requires forall i, j :: 0 <= i < j < |mapping| ==> mapping[i].name != mapping[j].name
  {
    map i | 0 <= i < |mapping| && mapping[i].bone.Some? :: mapping[i].name := mapping[i].bone.value
  }

  lemma SeedConsistent(nodes: seq<Node>, mapping: seq<MappingBone>, model: seq<ModelBone>)
    requires |mapping| == |model| && UniqueNames(model)
    requires forall i :: 0 <= i < |model| ==> mapping[i].name == model[i].name
    requires forall i :: 0 <= i < |model| && mapping[i].bone.Some? ==> mapping[i].bone.value < |nodes|
    ensures Consistent(Work(nodes, Bones(mapping), Seed(mapping), false), model)
    ensures WellFormed(Work(nodes, Bones(mapping), Seed(mapping), false))
  {
    var w := Work(nodes, Bones(mapping), Seed(mapping), false);
    forall k | k in w.resolved ensures w.resolved[k] < |nodes| {
      var i :| 0 <= i < |mapping| && mapping[i].bone.Some? && mapping[i].name == k;
    }
  }

  /** The new bone created for model bone `i`: above `base`, named as the model bone, with
      its local transform, parented to the bone the mapping holds for its parent's name. */
  ghost predicate NewBone(nodes: seq<Node>, mapping: seq<MappingBone>, model: seq<ModelBone>, i: nat, base: nat)
    requires i < |mapping| == |model| && mapping[i].bone.Some?
  {
    var h := mapping[i].bone.value;
    && base <= h < |nodes|
    && model[i].parentName.Some?
    && exists j :: 0 <= j < |model| && model[j].name == model[i].parentName.value
         && nodes[h] == Node(model[i].name, mapping[j].bone, true, model[i].local)
  }

  /** The outcome of a successful DoFix, from the scene `nodes0`/`bones0` and the window's
      `removed`/`mapping0`: the old nodes are as the removals left them, every mapping entry
      holds a bone (the old one when it had one, a new one otherwise), the bone array is
      the mapping's bone column, and every appended node is the new bone of an entry that
      was empty. */
  ghost predicate Repaired(nodes0: seq<Node>, bones0: seq<Option<Handle>>, removed: seq<RemovedBone>,
                           mapping0: seq<MappingBone>, model: seq<ModelBone>,
                           nodes: seq<Node>, bones: seq<Option<Handle>>, mapping: seq<MappingBone>)
    requires HandlesIn(bones0, |nodes0|) && Removable(bones0, removed)
  {
    && |mapping0| == |mapping| == |bones| == |model|
    && |nodes0| <= |nodes|
    && nodes[..|nodes0|] == RemoveAll(nodes0, Doomed(bones0, removed))
    && (forall i :: 0 <= i < |model| ==> mapping[i].name == model[i].name && mapping[i].bone.Some? && bones[i] == mapping[i].bone)
    && (forall i :: 0 <= i < |model| && mapping0[i].bone.Some? ==> mapping[i].bone == mapping0[i].bone)
    && (forall i :: 0 <= i < |model| && mapping0[i].bone.None? ==> NewBone(nodes, mapping, model, i, |nodes0|))
    && NewNodesFill(|nodes0|, mapping0, model, nodes, mapping)
  }

  /** Every node at or above `base` is alive and is the bone an entry empty in `mapping0`
      holds in `mapping`. */
  ghost predicate NewNodesFill(base: nat, mapping0: seq<MappingBone>, model: seq<ModelBone>,
                               nodes: seq<Node>, mapping: seq<MappingBone>)
  {
    forall h :: base <= h < |nodes| ==>
      && nodes[h].alive
      && exists i :: 0 <= i < |model| && i < |mapping0| && i < |mapping| && model[i].name == nodes[h].name
                     && mapping0[i].bone.None? && mapping[i].bone == Some(h)
  }

  /** A new bone belongs to one entry of the repaired mapping only: the other entries hold
      old bones or new bones of other names. */
  lemma NewBoneUnique(nodes0: seq<Node>, bones0: seq<Option<Handle>>, removed: seq<RemovedBone>,
                      mapping0: seq<MappingBone>, model: seq<ModelBone>,
                      nodes: seq<Node>, bones: seq<Option<Handle>>, mapping: seq<MappingBone>)
    requires HandlesIn(bones0, |nodes0|) && Removable(bones0, removed) && UniqueNames(model)
    requires HandlesIn(Bones(mapping0), |nodes0|)
    requires Repaired(nodes0, bones0, removed, mapping0, model, nodes, bones, mapping)
    ensures forall i, j ::
      (0 <= i < |model| && 0 <= j < |model| && i != j && mapping0[i].bone.None?) ==>
      mapping[i].bone != mapping[j].bone
  {
    forall i, j | 0 <= i < |model| && 0 <= j < |model| && i != j && mapping0[i].bone.None?
      ensures mapping[i].bone != mapping[j].bone
    {
      assert NewBone(nodes, mapping, model, i, |nodes0|);
      if mapping0[j].bone.Some? {
        assert Bones(mapping0)[j] == mapping0[j].bone;
      } else {
        assert NewBone(nodes, mapping, model, j, |nodes0|);
        assert nodes[mapping[i].bone.value].name != nodes[mapping[j].bone.value].name;
      }
    }
  }

  /** When every bone the mapping held was a bone of its own name (as FindRemovedAdded
      leaves it), the repaired bone array names the model's bones in the model's order. */
  lemma RepairedFollowsModelOrder(nodes0: seq<Node>, bones0: seq<Option<Handle>>, removed: seq<RemovedBone>,
                                  mapping0: seq<MappingBone>, model: seq<ModelBone>,
                                  nodes: seq<Node>, bones: seq<Option<Handle>>, mapping: seq<MappingBone>)
    requires HandlesIn(bones0, |nodes0|) && Removable(bones0, removed)
    requires Repaired(nodes0, bones0, removed, mapping0, model, nodes, bones, mapping)
    requires forall i :: 0 <= i < |model| && mapping0[i].bone.Some? ==>
      mapping0[i].bone.value < |nodes0| && nodes0[mapping0[i].bone.value].name == model[i].name
    ensures |bones| == |model|
    ensures forall i :: 0 <= i < |model| ==> bones[i].Some? && bones[i].value < |nodes| && nodes[bones[i].value].name == model[i].name
  {
    var hs := Doomed(bones0, removed);
    RemoveAllNames(nodes0, hs);
    forall i | 0 <= i < |model| ensures bones[i].value < |nodes| && nodes[bones[i].value].name == model[i].name {
      if mapping0[i].bone.Some? {
        var h := mapping0[i].bone.value;
        assert nodes[..|nodes0|][h] == nodes[h];
      }
    }
  }

  /** None of the invariants reads `thereIsNull`. */
  lemma FlagIrrelevant(start: Work, w: Work, model: seq<ModelBone>)
    requires Consistent(w, model) && WellFormed(w) && Extends(start, w, model)
    ensures var v := w.(thereIsNull := false);
      Consistent(v, model) && WellFormed(v) && Extends(start, v, model)
  {
    var v := w.(thereIsNull := false);
    forall i | 0 <= i < |model| && start.bones[i].None? && v.bones[i].Some?
      ensures Created(v, model, i, |start.nodes|)
    {
      assert Created(w, model, i, |start.nodes|);
    }
  }

  /** The invariant of DoFix's do-while loop, for the state `w` it has reached from `start`. */
  ghost predicate Progress(start: Work, w: Work, model: seq<ModelBone>, rank: seq<nat>)
  {
    && Consistent(w, model) && WellFormed(w) && Extends(start, w, model)
    && (ParentsNamed(w.bones, model) ==> Ranked(w.bones, model, rank))
  }

  /** The loop invariant of DoFix's do-while loop survives a pass, and a pass that leaves
      `thereIsNull` raised has filled at least one entry. */
  lemma PassStep(start: Work, w: Work, model: seq<ModelBone>, rank: seq<nat>, v: Work, more: bool)
    requires Progress(start, w, model, rank)
    requires !w.thereIsNull && !v.thereIsNull && Pass(w, model) == Success(v.(thereIsNull := more))
    ensures Progress(start, v, model, rank)
    ensures !more ==> forall k :: 0 <= k < |model| ==> v.bones[k].Some?
    ensures more ==> NullCount(v.bones) < NullCount(w.bones)
  {
    var w' := Pass(w, model).value;
    assert v == w'.(thereIsNull := false);
    assert w.(thereIsNull := false) == w;
    PassFromFailure(w, model, 0);
    assert ParentsNamed(w.bones, model);
    PassFromEffect(w, model, 0);
    ExtendsTransitive(start, w, w', model);
    ExtendsKeepsRanked(w, w', model, rank);
    FlagIrrelevant(start, w', model);
    if w'.thereIsNull {
      PassProgresses(w, model, rank);
    } else {
      PassCompletes(w, model);
    }
  }

  /** A pass of DoFix's do-while loop fails only with the null dereference, and only for
      an entry that was empty from the start and whose model bone has no parent. */
  lemma PassFailureBlames(start: Work, w: Work, model: seq<ModelBone>)
    requires Consistent(w, model) && WellFormed(w) && Extends(start, w, model)
    requires !w.thereIsNull && Pass(w, model).Failure?
    ensures Pass(w, model).error == NullReference
    ensures exists i :: 0 <= i < |model| && start.bones[i].None? && model[i].parentName.None?
  {
    assert w.(thereIsNull := false) == w;
    PassFromFailure(w, model, 0);
    var i :| 0 <= i < |model| && w.bones[i].None? && model[i].parentName.None?;
    assert start.bones[i].None?;
  }

  /** A finished creation loop, started from the scene the removals left, is a repair. */
  lemma ExtendsGivesRepaired(nodes0: seq<Node>, bones0: seq<Option<Handle>>, removed: seq<RemovedBone>,
                             mapping0: seq<MappingBone>, model: seq<ModelBone>, start: Work,
                             nodes: seq<Node>, mapping: seq<MappingBone>, resolved: map<string, Handle>)
    requires HandlesIn(bones0, |nodes0|) && Removable(bones0, removed)
    requires start.nodes == RemoveAll(nodes0, Doomed(bones0, removed)) && start.bones == Bones(mapping0)
    requires |mapping| == |model| && forall k :: 0 <= k < |model| ==> mapping[k].name == model[k].name && mapping[k].bone.Some?
    requires Extends(start, Work(nodes, Bones(mapping), resolved, false), model)
    requires Consistent(start, model) && Consistent(Work(nodes, Bones(mapping), resolved, false), model)
    ensures Repaired(nodes0, bones0, removed, mapping0, model, nodes, Bones(mapping), mapping)
  {
    var wf := Work(nodes, Bones(mapping), resolved, false);
    ExtendsFillsNewNodes(nodes0, mapping0, model, start, nodes, mapping, resolved);
    forall i | 0 <= i < |model| && mapping0[i].bone.None?
      ensures NewBone(nodes, mapping, model, i, |nodes0|)
    {
      assert start.bones[i].None?;
      assert Created(wf, model, i, |start.nodes|);
      var p := model[i].parentName.value;
      var j :| 0 <= j < |model| && wf.bones[j].Some? && model[j].name == p;
      assert nodes[mapping[i].bone.value] == Node(model[i].name, mapping[j].bone, true, model[i].local);
    }
  }

  /** The nodes a finished creation loop appended fill the entries that were empty. */
  lemma ExtendsFillsNewNodes(nodes0: seq<Node>, mapping0: seq<MappingBone>, model: seq<ModelBone>, start: Work,
                             nodes: seq<Node>, mapping: seq<MappingBone>, resolved: map<string, Handle>)
    requires |start.nodes| == |nodes0| && start.bones == Bones(mapping0)
    requires |mapping| == |model| && forall k :: 0 <= k < |model| ==> mapping[k].name == model[k].name
    requires Extends(start, Work(nodes, Bones(mapping), resolved, false), model)
    requires Consistent(start, model) && Consistent(Work(nodes, Bones(mapping), resolved, false), model)
    ensures NewNodesFill(|nodes0|, mapping0, model, nodes, mapping)
  {
    var wf := Work(nodes, Bones(mapping), resolved, false);
    forall h | |nodes0| <= h < |nodes|
      ensures nodes[h].alive
      ensures exists i :: 0 <= i < |model| && i < |mapping0| && i < |mapping| && model[i].name == nodes[h].name
                          && mapping0[i].bone.None? && mapping[i].bone == Some(h)
    {
      var x := nodes[h].name;
      assert x !in start.resolved && x in resolved && resolved[x] == h;
      var i :| 0 <= i < |model| && wf.bones[i].Some? && model[i].name == x;
      assert wf.bones[i] == Some(h);
      assert start.bones[i].None?;
      assert Bones(mapping0)[i] == mapping0[i].bone;
      assert Bones(mapping)[i] == mapping[i].bone;
      assert Created(wf, model, i, |start.nodes|);
    }
  }

  /** The removal loop: every entry without `keep` has its bone's children handed to the
      bone's parent, and the bone destroyed. */
  method RemoveBones(scene: Scene, removed: seq<RemovedBone>)
    requires scene.Valid() && Removable(scene.bones, removed)
    modifies scene
    ensures scene.Valid() && scene.bones == old(scene.bones) && scene.depth == old(scene.depth)
    ensures scene.nodes == RemoveAll(old(scene.nodes), Doomed(scene.bones, removed))
  {
    ghost var n := |scene.nodes|;
    var i := 0;
    while i < |removed|
      invariant 0 <= i <= |removed|
      invariant scene.Valid() && scene.bones == old(scene.bones) && scene.depth == old(scene.depth)
      invariant DoomedBelow(scene.bones, removed[..i], n)
      invariant scene.nodes == RemoveAll(old(scene.nodes), Doomed(scene.bones, removed[..i]))
    {
      DoomedStep(scene.bones, removed, i, n);
      ghost var ds := Doomed(scene.bones, removed[..i]);
      var pair := removed[i];
      if !pair.keep {
        var bone := scene.bones[pair.idx].value;
        scene.RemoveBone(bone);
        RemoveAllStep(old(scene.nodes), ds, bone);
      } else {
        assert ds + [] == ds;
      }
      i := i + 1;
    }
    assert removed[..i] == removed;
  }

  /** The window of BoneFixer/BoneFixer.cs with the state `DoFix` reads and writes. */
  class FixerWindow {
    var removed: seq<RemovedBone>
    var mapping: seq<MappingBone>

    constructor ()
      ensures removed == [] && mapping == []
    {
      removed := [];
      mapping := [];
    }

    /** One pass of the do-while loop: the null flag is cleared, then the for loop over the
        mapping, which creates the bones whose parent is already resolved. */
    method CreationPass(scene: Scene, model: seq<ModelBone>, bonesMap: map<string, Handle>)
      returns (r: Result<(map<string, Handle>, bool), FixError>)
      requires scene.Valid() && |mapping| == |model|
      requires forall i :: 0 <= i < |model| ==> mapping[i].name == model[i].name
      requires Consistent(Work(scene.nodes, Bones(mapping), bonesMap, false), model)
      requires WellFormed(Work(scene.nodes, Bones(mapping), bonesMap, false))
      modifies this, scene
      ensures scene.Valid() && scene.bones == old(scene.bones) && removed == old(removed)
      ensures |mapping| == |model| && forall i :: 0 <= i < |model| ==> mapping[i].name == model[i].name
      ensures old(scene.nodes) <= scene.nodes
      ensures r.Failure? ==> Pass(Work(old(scene.nodes), Bones(old(mapping)), bonesMap, false), model) == Failure(r.error)
      ensures r.Success? ==> Pass(Work(old(scene.nodes), Bones(old(mapping)), bonesMap, false), model)
                             == Success(Work(scene.nodes, Bones(mapping), r.value.0, r.value.1))
    {
      ghost var w0 := Work(scene.nodes, Bones(mapping), bonesMap, false);
      ghost var cur := w0;
      var resolved := bonesMap;
      var thereIsNull := false;
      for i := 0 to |mapping|
        invariant scene.Valid() && scene.bones == old(scene.bones) && removed == old(removed)
        invariant |mapping| == |model| && forall k :: 0 <= k < |model| ==> mapping[k].name == model[k].name
        invariant cur == Work(scene.nodes, Bones(mapping), resolved, thereIsNull)
        invariant old(scene.nodes) <= scene.nodes
        invariant Consistent(cur, model) && WellFormed(cur)
        invariant PassFrom(cur, model, i) == Pass(w0, model)
      {
        var step := VisitEntry(scene, model, i, resolved, thereIsNull);
        if step.Failure? {
          return Failure(step.error);
        }
        resolved, thereIsNull := step.value.0, step.value.1;
        PassFromUnfold(cur, model, i);
        VisitEffect(cur, model, i);
        cur := Work(scene.nodes, Bones(mapping), resolved, thereIsNull);
      }
      return Success((resolved, thereIsNull));
    }

    /** One iteration of the inner loop: entry `i` of the mapping list. */
    method VisitEntry(scene: Scene, model: seq<ModelBone>, i: nat,
                      resolved: map<string, Handle>, thereIsNull: bool)
      returns (r: Result<(map<string, Handle>, bool), FixError>)
      requires scene.Valid() && i < |mapping| == |model|
      requires forall k :: 0 <= k < |model| ==> mapping[k].name == model[k].name
      requires WellFormed(Work(scene.nodes, Bones(mapping), resolved, thereIsNull))
      modifies this, scene
      ensures scene.Valid() && scene.bones == old(scene.bones) && removed == old(removed)
      ensures |mapping| == |model| && forall k :: 0 <= k < |model| ==> mapping[k].name == model[k].name
      ensures old(scene.nodes) <= scene.nodes
      ensures r.Failure? ==> Visit(Work(old(scene.nodes), Bones(old(mapping)), resolved, thereIsNull), model, i) == Failure(r.error)
      ensures r.Success? ==> Visit(Work(old(scene.nodes), Bones(old(mapping)), resolved, thereIsNull), model, i)
                             == Success(Work(scene.nodes, Bones(mapping), r.value.0, r.value.1))
    {
      assert Bones(mapping)[i] == mapping[i].bone;
      var entry := mapping[i];
      if entry.bone.Some? {
        return Success((resolved, thereIsNull));
      }
      var modelBone := model[i];
      if modelBone.parentName.None? {
        return Failure(NullReference);
      }
      var parentName := modelBone.parentName.value;
      if parentName !in resolved {
        return Success((resolved, true));
      }
      var newParent := resolved[parentName];
      var newBone := scene.Spawn(entry.name, newParent, modelBone.local);
      ghost var bones0 := Bones(mapping);
      mapping := mapping[i := MappingBone(entry.name, Some(newBone))];
      assert Bones(mapping) == bones0[i := Some(newBone)];
      return Success((resolved[entry.name := newBone], thereIsNull));
    }

    /** `DoFix(broken, model)`. `rank` witnesses that every bone to create has a parent
        name that is eventually resolvable; without it the do-while loop can spin forever
        (`StuckPassChangesNothing`, `DanglingParentNeverResolves`). It is needed only when
        the loop is reached and no empty entry lacks a parent: otherwise DoFix throws
        before the loop or in its first pass. */
    method DoFix(scene: Scene, model: seq<ModelBone>, ghost rank: seq<nat>) returns (r: Result<bool, FixError>)
      requires scene.Valid() && ReadyFor(scene.nodes, scene.bones, removed, mapping, model)
      requires (NameCheck(scene.nodes, scene.bones, model).None? && ParentsNamed(Bones(mapping), model)) ==>
               Ranked(Bones(mapping), model, rank)
      modifies this, scene
      ensures scene.Valid() && removed == old(removed)
      ensures NameCheck(old(scene.nodes), old(scene.bones), model).Some? ==>
        && r == Failure(NameCheck(old(scene.nodes), old(scene.bones), model).value)
        && scene.nodes == old(scene.nodes) && scene.bones == old(scene.bones) && mapping == old(mapping)
      ensures NameCheck(old(scene.nodes), old(scene.bones), model).None? ==>
        r == Success(true) || r == Failure(NullReference)
      ensures r == Failure(NullReference) ==>
        exists i :: 0 <= i < |model| && old(mapping)[i].bone.None? && model[i].parentName.None?
      ensures r == Failure(NullReference) ==>
        scene.bones == old(scene.bones) && RemoveAll(old(scene.nodes), Doomed(old(scene.bones), old(removed))) <= scene.nodes
      ensures r.Success? ==>
        Repaired(old(scene.nodes), old(scene.bones), old(removed), old(mapping), model, scene.nodes, scene.bones, mapping)
    {
      var fixBones := BoneIndicesMap(SlotNames(scene.nodes, scene.bones), "broken");
      if fixBones.Failure? {
        return Failure(fixBones.error);
      }
      var modelBones := BoneIndicesMap(ModelSlots(model), "model");
      if modelBones.Failure? {
        return Failure(modelBones.error);
      }
      BoneIndicesMapSucceedsIffUnique(ModelSlots(model), "model");
      // `fixBones == modelBones` compares two dictionaries just built, by reference: it is
      // never true, so the "nop" return it guards is never taken.
      r := Rebuild(scene, model, rank);
    }

    /** The part of DoFix after its name checks: the removal loop, then the creation loop,
        then the new bone array. */
    method Rebuild(scene: Scene, model: seq<ModelBone>, ghost rank: seq<nat>) returns (r: Result<bool, FixError>)
      requires scene.Valid() && ReadyFor(scene.nodes, scene.bones, removed, mapping, model)
      requires UniqueNames(model)
      requires ParentsNamed(Bones(mapping), model) ==> Ranked(Bones(mapping), model, rank)
      modifies this, scene
      ensures scene.Valid() && removed == old(removed)
      ensures r == Success(true) || r == Failure(NullReference)
      ensures r == Failure(NullReference) ==>
        exists i :: 0 <= i < |model| && old(mapping)[i].bone.None? && model[i].parentName.None?
      ensures r == Failure(NullReference) ==>
        scene.bones == old(scene.bones) && RemoveAll(old(scene.nodes), Doomed(old(scene.bones), old(removed))) <= scene.nodes
      ensures r.Success? ==>
        Repaired(old(scene.nodes), old(scene.bones), old(removed), old(mapping), model, scene.nodes, scene.bones, mapping)
    {
      ghost var nodes0, bones0, mapping0 := scene.nodes, scene.bones, mapping;
      RemoveBones(scene, removed);
      var bonesMap := Seed(mapping);
      SeedConsistent(scene.nodes, mapping, model);
      ghost var start := Work(scene.nodes, Bones(mapping), bonesMap, false);
      var created := CreateMissing(scene, model, bonesMap, rank);
      if created.Failure? {
        return Failure(created.error);
      }
      ExtendsGivesRepaired(nodes0, bones0, removed, mapping0, model, start, scene.nodes, mapping, created.value);
      scene.SetBones(Bones(mapping));
      return Success(true);
    }

    /** The do-while loop: creation passes until one finds no empty entry. */
    method CreateMissing(scene: Scene, model: seq<ModelBone>, bonesMap0: map<string, Handle>, ghost rank: seq<nat>)
      returns (r: Result<map<string, Handle>, FixError>)
      requires scene.Valid() && |mapping| == |model|
      requires forall k :: 0 <= k < |model| ==> mapping[k].name == model[k].name
      requires Consistent(Work(scene.nodes, Bones(mapping), bonesMap0, false), model)
      requires WellFormed(Work(scene.nodes, Bones(mapping), bonesMap0, false))
      requires ParentsNamed(Bones(mapping), model) ==> Ranked(Bones(mapping), model, rank)
      modifies this, scene
      ensures scene.Valid() && scene.bones == old(scene.bones) && removed == old(removed)
      ensures |mapping| == |model| && forall k :: 0 <= k < |model| ==> mapping[k].name == model[k].name
      ensures old(scene.nodes) <= scene.nodes
      ensures r.Failure? ==> r.error == NullReference
      ensures r.Failure? ==> exists i :: 0 <= i < |model| && old(mapping)[i].bone.None? && model[i].parentName.None?
      ensures r.Success? ==> forall k :: 0 <= k < |model| ==> mapping[k].bone.Some?
      ensures r.Success? ==> Consistent(Work(scene.nodes, Bones(mapping), r.value, false), model)
      ensures r.Success? ==> WellFormed(Work(scene.nodes, Bones(mapping), r.value, false))
      ensures r.Success? ==> Extends(Work(old(scene.nodes), Bones(old(mapping)), bonesMap0, false),
                                     Work(scene.nodes, Bones(mapping), r.value, false), model)
    {
      ghost var start := Work(scene.nodes, Bones(mapping), bonesMap0, false);
      ghost var cur := start;
      ExtendsReflexive(start, model);
      var bonesMap := bonesMap0;
      var thereIsNull := true;
      while thereIsNull
        invariant scene.Valid() && scene.bones == old(scene.bones) && removed == old(removed)
        invariant |mapping| == |model| && forall k :: 0 <= k < |model| ==> mapping[k].name == model[k].name
        invariant cur == Work(scene.nodes, Bones(mapping), bonesMap, false)
        invariant old(scene.nodes) <= scene.nodes
        invariant Progress(start, cur, model, rank)
        invariant !thereIsNull ==> forall k :: 0 <= k < |model| ==> cur.bones[k].Some?
        decreases if thereIsNull then NullCount(cur.bones) + 1 else 0
      {
        var pass := CreationPass(scene, model, bonesMap);
        if pass.Failure? {
          PassFailureBlames(start, cur, model);
          ghost var i :| 0 <= i < |model| && start.bones[i].None? && model[i].parentName.None?;
          assert Bones(old(mapping))[i] == old(mapping)[i].bone;
          return Failure(pass.error);
        }
        bonesMap, thereIsNull := pass.value.0, pass.value.1;
        ghost var w := cur;
        cur := Work(scene.nodes, Bones(mapping), bonesMap, false);
        assert Pass(w, model) == Success(cur.(thereIsNull := thereIsNull));
        PassStep(start, w, model, rank, cur, thereIsNull);
      }
      AllBound(mapping);
      return Success(bonesMap);
    }
  }
}
