/** The scene the two editor windows work on: the broken renderer's bone hierarchy and
    bone array, and the read-only skeleton of the model renderer. The hierarchy is an arena
    of nodes addressed by handles; a node's children are those whose parent is it. */
module Skinning {
  import opened Wrappers

  type Handle = nat

  /** Position, rotation and scale are copied, never computed; their content is opaque. */
  type Vector3(==)
  type Quaternion(==)

  datatype Local = Local(position: Vector3, rotation: Quaternion, scale: Vector3)

  /** A transform of the hierarchy. `alive` becomes false when its game object is
      destroyed; destruction is deferred, so the node stays in place until then. */
  datatype Node = Node(name: string, parent: Option<Handle>, alive: bool, local: Local)

  /** A bone of the model renderer, with the name of its parent transform (None when the
      bone has no parent) and its local transform. */
  datatype ModelBone = ModelBone(name: string, parentName: Option<string>, local: Local)

  /** What `DoFix` can fail with: a `FixException`, or the null dereference that a missing
      bone or parent causes. */
  datatype FixError = Duplicated(of: string, name: string) | MeshDiffer | NullReference
  {
    /** The text of the `FixException`; a null dereference has none. */
    function Message(): Option<string>
    {
      match this
      case Duplicated(of, name) => Some("name of bones of " + of + " duplicated: " + name)
      case MeshDiffer => Some("Mesh differ")
      case NullReference => None
    }
  }

  function ModelNames(model: seq<ModelBone>): seq<string>
  {
    seq(|model|, i requires 0 <= i < |model| => model[i].name)
  }

  /** No two model bones share a name. */
  predicate UniqueNames(model: seq<ModelBone>)
  {
    forall i, j :: 0 <= i < j < |model| ==> model[i].name != model[j].name
  }

  predicate HandlesIn(bones: seq<Option<Handle>>, n: nat)
  {
    forall i :: 0 <= i < |bones| && bones[i].Some? ==> bones[i].value < n
  }

  /** The name of each slot of a bone array, None for a null slot. */
  function SlotNames(nodes: seq<Node>, bones: seq<Option<Handle>>): (r: seq<Option<string>>)
    requires HandlesIn(bones, |nodes|)
    ensures |r| == |bones|
    ensures forall i :: 0 <= i < |bones| ==> (r[i].Some? <==> bones[i].Some?)
  {
    seq(|bones|, i requires 0 <= i < |bones| =>
      if bones[i].Some? then Some(nodes[bones[i].value].name) else None)
  }

  /** The hierarchy has no cycle: every parent is a node of lower depth. */
  ghost predicate Acyclic(nodes: seq<Node>, depth: seq<nat>)
  {
    |depth| == |nodes| &&
    forall j :: 0 <= j < |nodes| && nodes[j].parent.Some? ==>
      nodes[j].parent.value < |nodes| && depth[nodes[j].parent.value] < depth[j]
  }

  /** The children of `x`, as a derived query. */
  function Children(nodes: seq<Node>, x: Handle): set<Handle>
  {
    set j | 0 <= j < |nodes| && nodes[j].parent == Some(x)
  }

  /** The hierarchy after the children of `b` have been handed to `b`'s parent and `b`'s
      game object has been destroyed. */
  function Removal(nodes: seq<Node>, b: Handle): (r: seq<Node>)
    requires b < |nodes|
    ensures |r| == |nodes|
  {
    seq(|nodes|, j requires 0 <= j < |nodes| =>
      var n := if nodes[j].parent == Some(b) then nodes[j].(parent := nodes[b].parent) else nodes[j];
      if j == b then n.(alive := false) else n)
  }

  /** Removing a bone leaves it childless and dead, hands each former child to its former
      parent, touches no other node, and keeps the hierarchy acyclic. */
  lemma RemovalEffect(nodes: seq<Node>, depth: seq<nat>, b: Handle)
    requires Acyclic(nodes, depth) && b < |nodes|
    ensures Children(Removal(nodes, b), b) == {}
    ensures forall c :: c in Children(nodes, b) ==> Removal(nodes, b)[c].parent == nodes[b].parent
    ensures Removal(nodes, b)[b] == nodes[b].(alive := false)
    ensures forall j :: 0 <= j < |nodes| && j != b && j !in Children(nodes, b) ==> Removal(nodes, b)[j] == nodes[j]
    ensures Acyclic(Removal(nodes, b), depth)
  {
    var r := Removal(nodes, b);
    forall j | 0 <= j < |nodes| ensures r[j].parent != Some(b) {
      if nodes[j].parent == Some(b) {
        assert depth[b] < depth[j];
      }
    }
  }

  function RemoveAll(nodes: seq<Node>, hs: seq<Handle>): (r: seq<Node>)
    requires forall k :: 0 <= k < |hs| ==> hs[k] < |nodes|
    ensures |r| == |nodes|
    decreases |hs|
  {
    if |hs| == 0 then nodes else Removal(RemoveAll(nodes, hs[..|hs| - 1]), hs[|hs| - 1])
  }

  /** A sequence of removals keeps names and local transforms, kills exactly the removed
      bones, keeps the hierarchy acyclic, and leaves no node under a removed bone. */
  lemma {:induction false} RemoveAllEffect(nodes: seq<Node>, depth: seq<nat>, hs: seq<Handle>)
    requires Acyclic(nodes, depth)
    requires forall k :: 0 <= k < |hs| ==> hs[k] < |nodes|
    ensures Acyclic(RemoveAll(nodes, hs), depth)
    ensures forall j :: 0 <= j < |nodes| ==>
      RemoveAll(nodes, hs)[j].name == nodes[j].name && RemoveAll(nodes, hs)[j].local == nodes[j].local
    ensures forall j :: 0 <= j < |nodes| ==> RemoveAll(nodes, hs)[j].alive == (nodes[j].alive && j !in hs)
    ensures forall k :: 0 <= k < |hs| ==> Children(RemoveAll(nodes, hs), hs[k]) == {}
  {
    if |hs| > 0 {
      var init := hs[..|hs| - 1];
      var b := hs[|hs| - 1];
      var m := RemoveAll(nodes, init);
      RemoveAllEffect(nodes, depth, init);
      RemovalEffect(m, depth, b);
      var r := Removal(m, b);
      assert r == RemoveAll(nodes, hs);
      forall j | 0 <= j < |nodes| ensures r[j].alive == (nodes[j].alive && j !in hs) {
        assert j in hs <==> j in init || j == b;
      }
      forall k | 0 <= k < |hs| ensures Children(r, hs[k]) == {} {
        if k < |hs| - 1 {
          assert hs[k] == init[k];
          forall j | 0 <= j < |nodes| ensures r[j].parent != Some(hs[k]) {
            // a node reparented now gets the parent of b, which is no removed bone
            if m[j].parent == Some(b) {
              assert m[b].parent != Some(hs[k]) by {
                assert b !in Children(m, hs[k]);
              }
            } else {
              assert j !in Children(m, hs[k]);
            }
          }
        }
      }
    }
  }

  lemma RemoveAllStep(nodes: seq<Node>, hs: seq<Handle>, b: Handle)
    requires forall k :: 0 <= k < |hs| ==> hs[k] < |nodes|
    requires b < |nodes|
    ensures RemoveAll(nodes, hs + [b]) == Removal(RemoveAll(nodes, hs), b)
  {
    assert (hs + [b])[..|hs|] == hs;
  }

  /** Removals keep every node's name. */
  lemma {:induction false} RemoveAllNames(nodes: seq<Node>, hs: seq<Handle>)
    requires forall k :: 0 <= k < |hs| ==> hs[k] < |nodes|
    ensures forall j :: 0 <= j < |nodes| ==> RemoveAll(nodes, hs)[j].name == nodes[j].name
  {
    if |hs| > 0 {
      RemoveAllNames(nodes, hs[..|hs| - 1]);
    }
  }

  /** Moving a child `c` of `b` under the parent of `b` makes it no longer a child of `b`. */
  lemma ChildMoved(nodes: seq<Node>, b: Handle, c: Handle, depth: seq<nat>)
    requires Acyclic(nodes, depth) && b < |nodes| && c in Children(nodes, b)
    ensures Children(nodes[c := nodes[c].(parent := nodes[b].parent)], b) == Children(nodes, b) - {c}
  {
    assert nodes[b].parent != Some(b);
  }

  /** Once every child of `b` has moved under the parent of `b`, destroying `b` yields the
      `Removal` of the starting hierarchy. */
  lemma RemovalReached(start: seq<Node>, moved: seq<Node>, b: Handle, depth: seq<nat>)
    requires Acyclic(start, depth) && b < |start| == |moved| && moved[b] == start[b]
    requires Children(moved, b) == {}
    requires forall j :: 0 <= j < |moved| ==>
      moved[j] == start[j] || (start[j].parent == Some(b) && moved[j] == start[j].(parent := start[b].parent))
    ensures moved[b := moved[b].(alive := false)] == Removal(start, b)
  {
    var nodes := moved[b := moved[b].(alive := false)];
    forall j | 0 <= j < |nodes| ensures nodes[j] == Removal(start, b)[j] {
      if j != b && start[j].parent == Some(b) {
        assert j !in Children(moved, b);
      }
      if j == b && start[b].parent.Some? {
        assert depth[start[b].parent.value] < depth[b];
      }
    }
  }

  /** The broken renderer's scene: the transform hierarchy and the renderer's bone array. */
  class Scene {
    var nodes: seq<Node>
    var bones: seq<Option<Handle>>
    /** Witness that the hierarchy is a forest. */
    ghost var depth: seq<nat>

    ghost predicate Valid()
      reads this
    {
      Acyclic(nodes, depth) && HandlesIn(bones, |nodes|)
    }

    constructor (nodes: seq<Node>, bones: seq<Option<Handle>>, ghost depth: seq<nat>)
      requires Acyclic(nodes, depth) && HandlesIn(bones, |nodes|)
      ensures Valid()
      ensures this.nodes == nodes && this.bones == bones && this.depth == depth
    {
      this.nodes := nodes;
      this.bones := bones;
      this.depth := depth;
    }

    /** Moves the children of `b`, one at a time, under the parent of `b`, then destroys the
        game object of `b`. Which child moves first does not change the outcome. */
    method RemoveBone(b: Handle)
      requires Valid() && b < |nodes|
      modifies this
      ensures Valid() && bones == old(bones) && depth == old(depth)
      ensures nodes == Removal(old(nodes), b)
    {
      ghost var start := nodes;
      while Children(nodes, b) != {}
        invariant Valid() && bones == old(bones) && depth == old(depth)
        invariant |nodes| == |start| && nodes[b] == start[b]
        invariant forall j :: 0 <= j < |nodes| ==>
          nodes[j] == start[j] || (start[j].parent == Some(b) && nodes[j] == start[j].(parent := start[b].parent))
        decreases |Children(nodes, b)|
      {
        var c :| c in Children(nodes, b);
        assert c != b by {
          assert depth[b] < depth[c];
        }
        ghost var before := nodes;
        SetParent(c, nodes[b].parent);
        ChildMoved(before, b, c, depth);
      }
      ghost var moved := nodes;
      nodes := nodes[b := nodes[b].(alive := false)];
      RemovalReached(start, moved, b, depth);
    }

    /** Node `c` moves under `p`, keeping its world pose (the world-space arithmetic is not
        modelled, so `local` is left as it is). */
    method SetParent(c: Handle, p: Option<Handle>)
      requires Valid() && c < |nodes|
      requires p.Some? ==> p.value < |nodes| && depth[p.value] < depth[c]
      modifies this
      ensures Valid() && bones == old(bones) && depth == old(depth)
      ensures nodes == old(nodes)[c := old(nodes)[c].(parent := p)]
    {
      nodes := nodes[c := nodes[c].(parent := p)];
    }

    /** A new game object named `name`, parented under `parent` without keeping its world
        pose, with the model bone's local position, scale and rotation: a fresh node,
        appended. */
    method Spawn(name: string, parent: Handle, local: Local) returns (h: Handle)
      requires Valid() && parent < |nodes|
      modifies this
      ensures Valid() && bones == old(bones)
      ensures h == |old(nodes)| && nodes == old(nodes) + [Node(name, Some(parent), true, local)]
    {
      h := |nodes|;
      nodes := nodes + [Node(name, Some(parent), true, local)];
      depth := depth + [depth[parent] + 1];
    }

    /** Assigning the renderer's bone array; the hierarchy is untouched. */
    method SetBones(newBones: seq<Option<Handle>>)
      requires Valid() && HandlesIn(newBones, |nodes|)
      modifies this
      ensures Valid() && nodes == old(nodes) && bones == newBones
    {
      bones := newBones;
    }
  }
}
