/**
 * The data derivations behind the render-graph debug views
 * (`RenderGraphDebug.cpp`): flag masks as text, the event-scope tree of the
 * pass view, the resource version numbering of the graph dump, and the
 * grouping of logical resources by their physical backing in the resource
 * tracker. Drawing and text output are not modelled.
 */
module RenderGraphDebug {
  import opened Common
  import opened RenderGraphDefinitions

  // ---------------------------------------------------------------------
  // Bitmask to text
  // ---------------------------------------------------------------------

  /** The callback naming one flag value; `None` stands for a null name. */
  type NameOf = nat -> Option<string>

  /** The name contributed by bit `bit`, if that bit has a name. */
  function BitName(names: NameOf, bit: nat): seq<string> {
    match names(Pow2(bit))
    case Some(n) => [n]
    case None => []
  }

  /** The names of the set bits of `value`, whose lowest bit is bit number
      `bit`, from the lowest bit up. */
  function SetBitNames(value: nat, bit: nat, names: NameOf): seq<string>
    decreases value
  {
    if value == 0 then []
    else (if value % 2 == 1 then BitName(names, bit) else []) + SetBitNames(value / 2, bit + 1, names)
  }

  /** The parts separated by '/'. */
  function Join(parts: seq<string>): string {
    if parts == [] then ""
    else if |parts| == 1 then parts[0]
    else parts[0] + "/" + Join(parts[1..])
  }

  /** The text `BitmaskToString` produces for `mask`. */
  function BitmaskText(mask: nat, names: NameOf): string {
    if mask == 0 then names(0).GetOr("NONE")
    else Join(SetBitNames(mask, 0, names))
  }

  /** Appending a part adds a separator only when something came before. */
  lemma {:induction false} JoinAppend(parts: seq<string>, s: string)
    ensures Join(parts + [s]) == Join(parts) + (if parts == [] then "" else "/") + s
  {
    if |parts| >= 1 {
      assert (parts + [s])[1..] == parts[1..] + [s];
      if |parts| > 1 {
        JoinAppend(parts[1..], s);
      }
    }
  }

  /** One step of the unfolding of `SetBitNames`, also for a zero value. */
  lemma SetBitNamesUnfold(value: nat, bit: nat, names: NameOf)
    ensures SetBitNames(value, bit, names)
         == (if value % 2 == 1 then BitName(names, bit) else []) + SetBitNames(value / 2, bit + 1, names)
  {}

  lemma HalfOfSum(a: nat, k: nat)
    requires k >= 1
    ensures (a + Pow2(k)) % 2 == a % 2
    ensures (a + Pow2(k)) / 2 == a / 2 + Pow2(k - 1)
  {}

  /** Names come out in ascending bit order: setting a bit above every set
      bit of `a` appends that bit's name at the end. */
  lemma {:induction false} HigherBitNameComesLast(a: nat, k: nat, bit: nat, names: NameOf)
    requires a < Pow2(k)
    ensures SetBitNames(a + Pow2(k), bit, names) == SetBitNames(a, bit, names) + BitName(names, bit + k)
  {
    if k == 0 {
      assert a == 0;
      SetBitNamesUnfold(1, bit, names);
    } else {
      HalfOfSum(a, k);
      HigherBitNameComesLast(a / 2, k - 1, bit + 1, names);
      SetBitNamesUnfold(a + Pow2(k), bit, names);
      SetBitNamesUnfold(a, bit, names);
    }
  }

  /** Bit number `k` of `a`. */
  function Bit(a: nat, k: nat): nat {
    if k == 0 then a % 2 else Bit(a / 2, k - 1)
  }

  /** A clear bit that has no name contributes nothing: setting it leaves the
      text unchanged. */
  lemma {:induction false} UnnamedBitContributesNothing(a: nat, k: nat, bit: nat, names: NameOf)
    requires Bit(a, k) == 0
    requires names(Pow2(bit + k)) == None
    ensures SetBitNames(a + Pow2(k), bit, names) == SetBitNames(a, bit, names)
  {
    if k == 0 {
      UnnamedLowBitContributesNothing(a, bit, names);
    } else {
      var x := a + Pow2(k);
      assert x % 2 == a % 2 by { HalfOfSum(a, k); }
      assert SetBitNames(x / 2, bit + 1, names) == SetBitNames(a / 2, bit + 1, names) by {
        HalfOfSum(a, k);
        assert Bit(a / 2, k - 1) == 0 && bit + 1 + (k - 1) == bit + k;
        UnnamedBitContributesNothing(a / 2, k - 1, bit + 1, names);
      }
      SameLowBitSameNames(x, a, bit, names);
    }
  }

  /** Two values with the same lowest bit and the same names above it have the
      same names. */
  lemma SameLowBitSameNames(x: nat, y: nat, bit: nat, names: NameOf)
    requires x % 2 == y % 2
    requires SetBitNames(x / 2, bit + 1, names) == SetBitNames(y / 2, bit + 1, names)
    ensures SetBitNames(x, bit, names) == SetBitNames(y, bit, names)
  {
    SetBitNamesUnfold(x, bit, names);
    SetBitNamesUnfold(y, bit, names);
  }

  lemma UnnamedLowBitContributesNothing(a: nat, bit: nat, names: NameOf)
    requires a % 2 == 0
    requires names(Pow2(bit)) == None
    ensures SetBitNames(a + 1, bit, names) == SetBitNames(a, bit, names)
  {
    assert (a + 1) % 2 == 1 && (a + 1) / 2 == a / 2;
    SetBitNamesUnfold(a + 1, bit, names);
    SetBitNamesUnfold(a, bit, names);
  }

  /** Splitting text at every '/'. */
  function Split(s: string): (parts: seq<string>)
    ensures |parts| >= 1
  {
    if s == [] then [""]
    else
      var rest := Split(s[1..]);
      if s[0] == '/' then [""] + rest else [[s[0]] + rest[0]] + rest[1..]
  }

  lemma {:induction false} SplitWord(w: string, t: string)
    requires '/' !in w
    ensures Split(w + t)[0] == w + Split(t)[0]
    ensures Split(w + t)[1..] == Split(t)[1..]
  {
    if w == [] {
      assert w + t == t;
    } else {
      assert (w + t)[0] == w[0] && w[0] != '/';
      assert (w + t)[1..] == w[1..] + t;
      SplitWord(w[1..], t);
      assert [w[0]] + w[1..] == w;
    }
  }

  /** Joining parts that contain no '/' can be undone by splitting. */
  lemma {:induction false} SplitJoin(parts: seq<string>)
    requires parts != []
    requires forall i :: 0 <= i < |parts| ==> '/' !in parts[i]
    ensures Split(Join(parts)) == parts
  {
    if |parts| == 1 {
      SplitWord(parts[0], []);
      assert parts[0] + [] == parts[0];
      assert Split(parts[0]) == [parts[0]];
    } else {
      SplitJoin(parts[1..]);
      var rest := Join(parts[1..]);
      SplitWord(parts[0], "/" + rest);
      assert ("/" + rest)[1..] == rest;
      assert Split("/" + rest) == [""] + Split(rest);
      assert parts[0] + "/" + rest == parts[0] + ("/" + rest);
      var r := Split(parts[0] + ("/" + rest));
      assert r[0] == parts[0];
      assert r[1..] == parts[1..];
      assert r == [r[0]] + r[1..];
    }
  }

  /** One iteration of the loop in `BitmaskToString` keeps the names seen
      plus the names still to come equal to all names. */
  lemma BitStep(seen: seq<string>, value: nat, bit: nat, names: NameOf, mask: nat)
    requires seen + SetBitNames(value, bit, names) == SetBitNames(mask, 0, names)
    ensures (seen + (if value % 2 == 1 then BitName(names, bit) else [])) + SetBitNames(value / 2, bit + 1, names)
         == SetBitNames(mask, 0, names)
  {
    SetBitNamesUnfold(value, bit, names);
  }

  /** `BitmaskToString`: for a non-zero mask, shifts the value right one bit
      at a time and appends the name of every named set bit, with '/' between
      names. */
  method BitmaskToString(mask: nat, names: NameOf) returns (s: string)
    requires mask < 0x1_0000_0000
    ensures s == BitmaskText(mask, names)
  {
    if mask == 0 {
      s := names(0).GetOr("NONE");
      return;
    }
    s := "";
    var value := mask;
    var bitIndex := 0;
    var valueIndex := 0;
    ghost var seen: seq<string> := [];
    while value > 0
      invariant seen + SetBitNames(value, bitIndex, names) == SetBitNames(mask, 0, names)
      invariant s == Join(seen) && valueIndex == |seen|
    {
      ghost var before := seen;
      ghost var head := if value % 2 == 1 then BitName(names, bitIndex) else [];
      var name := if value % 2 == 1 then names(Pow2(bitIndex)) else None;
      if name.Some? {
        if valueIndex > 0 {
          s := s + "/";
        }
        s := s + name.value;
        JoinAppend(seen, name.value);
        seen := seen + [name.value];
        valueIndex := valueIndex + 1;
        assert head == [name.value];
      } else {
        assert head == [];
        assert seen == before + head;
      }
      BitStep(before, value, bitIndex, names, mask);
      bitIndex := bitIndex + 1;
      value := value / 2;
    }
    assert seen + [] == seen;
  }

  /** The names `PassFlagToString` gives to single `RGPassFlag` values. */
  function PassFlagName(flag: nat): (r: Option<string>)
    ensures r.Some? <==> flag in {0, 1, 2, 4, 16}
  {
    if flag == 0 then Some("None")
    else if flag == 2 then Some("Compute")
    else if flag == 1 then Some("Raster")
    else if flag == 4 then Some("Copy")
    else if flag == 16 then Some("Never Cull")
    else None
  }

  method PassFlagToString(flags: nat) returns (s: string)
    requires flags < 0x1_0000_0000
    ensures s == BitmaskText(flags, PassFlagName)
  {
    s := BitmaskToString(flags, PassFlagName);
  }

  /** `Invisible` (bit 3, value 8) has no name, so it never shows in the
      text of a mask that has other bits, and alone it gives empty text. */
  lemma InvisibleFlagIsSilent(flags: nat)
    requires flags != 0 && Bit(flags, 3) == 0
    ensures BitmaskText(flags + 8, PassFlagName) == BitmaskText(flags, PassFlagName)
    ensures BitmaskText(8, PassFlagName) == ""
  {
    assert Pow2(3) == 8;
    UnnamedBitContributesNothing(flags, 3, 0, PassFlagName);
    UnnamedBitContributesNothing(0, 3, 0, PassFlagName);
  }

  // ---------------------------------------------------------------------
  // The compiled graph as the debug views see it
  // ---------------------------------------------------------------------

  /** One resource access of a pass; `Write` is `HasWriteResourceState` of
      the access's state. */
  datatype Access = Access(Resource: nat, Write: bool)

  datatype PassView = PassView(
    ID: Handle,
    IsCulled: bool,
    EventsToStart: seq<nat>,
    NumEventsToEnd: nat,
    Accesses: seq<Access>)

  datatype ResourceView = ResourceView(
    Physical: Option<PhysicalId>,
    IsImported: bool,
    IsExported: bool,
    FirstAccess: Handle,
    LastAccess: Handle)

  datatype GraphView = GraphView(
    IsCompiled: bool,
    Passes: seq<PassView>,
    Resources: seq<ResourceView>,
    EventNames: seq<string>)
  {
    /** Event ids and accessed resources name existing entries, as the
        pointers of the source always do. */
    predicate WellFormed() {
      (forall i, k :: 0 <= i < |Passes| && 0 <= k < |Passes[i].EventsToStart| ==> Passes[i].EventsToStart[k] < |EventNames|)
      && (forall i, a :: 0 <= i < |Passes| && a in Passes[i].Accesses ==> a.Resource < |Resources|)
    }
  }

  // ---------------------------------------------------------------------
  // The event-scope tree of the pass view
  // ---------------------------------------------------------------------

  /** A tree node: an event scope (`Name`), a pass (`Pass`) or the root. */
  datatype TreeNode = TreeNode(Name: Option<string>, Pass: Option<Handle>, Children: seq<nat>)

  /** Every child index lies after its parent and inside the tree. */
  ghost predicate ChildrenFollowParents(nodes: seq<TreeNode>) {
    forall i, c :: 0 <= i < |nodes| && c in nodes[i].Children ==> i < c < |nodes|
  }

  ghost predicate HasParent(nodes: seq<TreeNode>, j: nat) {
    exists i :: 0 <= i < j && i < |nodes| && j in nodes[i].Children
  }

  ghost predicate SingleParent(nodes: seq<TreeNode>) {
    forall i1, i2, c :: 0 <= i1 < i2 < |nodes| && c in nodes[i1].Children ==> c !in nodes[i2].Children
  }

  /** Every child comes after its parent, every node but the root has a
      parent, and no node has two parents. */
  ghost predicate IsTree(nodes: seq<TreeNode>) {
    ChildrenFollowParents(nodes)
    && (forall j :: 1 <= j < |nodes| ==> HasParent(nodes, j))
    && SingleParent(nodes)
  }

  /** The passes of the nodes, in node order. */
  function PassNodes(nodes: seq<TreeNode>): seq<Handle> {
    if nodes == [] then []
    else
      var last := nodes[|nodes| - 1];
      PassNodes(nodes[..|nodes| - 1]) + (if last.Pass.Some? then [last.Pass.value] else [])
  }

  /** The passes that are not culled, in order. */
  function LivePasses(passes: seq<PassView>): seq<Handle> {
    if passes == [] then []
    else
      var last := passes[|passes| - 1];
      LivePasses(passes[..|passes| - 1]) + (if last.IsCulled then [] else [last.ID])
  }

  /** The stack depth after walking `passes` from depth `depth`, or `None`
      when the top of an empty stack would be read or an empty stack
      popped. */
  function StackDepthAfter(passes: seq<PassView>, depth: nat): Option<nat> {
    if passes == [] then Some(depth)
    else
      var p := passes[0];
      if p.IsCulled then StackDepthAfter(passes[1..], depth)
      else if depth == 0 || depth + |p.EventsToStart| < p.NumEventsToEnd then None
      else StackDepthAfter(passes[1..], depth + |p.EventsToStart| - p.NumEventsToEnd)
  }

  /** Appends `node` as a new last child of `parent`. */
  function Attach(nodes: seq<TreeNode>, parent: nat, node: TreeNode): seq<TreeNode>
    requires parent < |nodes|
  {
    nodes[parent := nodes[parent].(Children := nodes[parent].Children + [|nodes|])] + [node]
  }

  lemma AttachShape(nodes: seq<TreeNode>, parent: nat, node: TreeNode)
    requires parent < |nodes|
    ensures |Attach(nodes, parent, node)| == |nodes| + 1
    ensures Attach(nodes, parent, node)[|nodes|] == node
    ensures Attach(nodes, parent, node)[parent].Children == nodes[parent].Children + [|nodes|]
    ensures forall k :: 0 <= k < |nodes| && k != parent ==> Attach(nodes, parent, node)[k] == nodes[k]
    ensures forall k :: 0 <= k < |nodes| ==>
              Attach(nodes, parent, node)[k].Pass == nodes[k].Pass && Attach(nodes, parent, node)[k].Name == nodes[k].Name
  {}

  lemma AttachKeepsTree(nodes: seq<TreeNode>, parent: nat, node: TreeNode)
    requires IsTree(nodes) && parent < |nodes| && node.Children == []
    ensures IsTree(Attach(nodes, parent, node))
    ensures |Attach(nodes, parent, node)| == |nodes| + 1
    ensures PassNodes(Attach(nodes, parent, node))
         == PassNodes(nodes) + (if node.Pass.Some? then [node.Pass.value] else [])
    ensures forall k :: 0 <= k < |nodes| ==>
              Attach(nodes, parent, node)[k].Pass == nodes[k].Pass && Attach(nodes, parent, node)[k].Name == nodes[k].Name
  {
    var r := Attach(nodes, parent, node);
    var n := |nodes|;
    AttachShape(nodes, parent, node);
    assert ChildrenFollowParents(r) by {
      forall i, c | 0 <= i < |r| && c in r[i].Children ensures i < c < |r| {
        if i == parent && c == n {
        } else if i < n {
          assert c in nodes[i].Children;
        }
      }
    }
    forall j | 1 <= j < |r| ensures HasParent(r, j) {
      if j == n {
        assert j in r[parent].Children;
      } else {
        assert HasParent(nodes, j);
        var i :| 0 <= i < j && j in nodes[i].Children;
        assert j in r[i].Children;
      }
    }
    assert SingleParent(r) by {
      forall i1, i2, c | 0 <= i1 < i2 < |r| && c in r[i1].Children ensures c !in r[i2].Children {
        if i2 == n {
        } else if c == n {
          assert i1 == parent;
          assert c !in nodes[i2].Children;
        } else {
          assert c in nodes[i1].Children;
          assert c !in nodes[i2].Children;
        }
      }
    }
    var m := nodes[parent := nodes[parent].(Children := nodes[parent].Children + [n])];
    assert r[..n] == m;
    SamePassesSamePassNodes(m, nodes);
  }

  lemma {:induction false} SamePassesSamePassNodes(a: seq<TreeNode>, b: seq<TreeNode>)
    requires |a| == |b|
    requires forall k :: 0 <= k < |a| ==> a[k].Pass == b[k].Pass
    ensures PassNodes(a) == PassNodes(b)
  {
    if a != [] {
      SamePassesSamePassNodes(a[..|a| - 1], b[..|b| - 1]);
    }
  }

  /** The names of the events pass `i` starts, in order. */
  function StartedNames(g: GraphView, i: nat): (names: seq<string>)
    requires g.WellFormed() && i < |g.Passes|
    ensures |names| == |g.Passes[i].EventsToStart|
    ensures forall k :: 0 <= k < |names| ==> names[k] == g.EventNames[g.Passes[i].EventsToStart[k]]
  {
    var events := g.Passes[i].EventsToStart;
    seq(|events|, k requires 0 <= k < |events| => g.EventNames[events[k]])
  }

  /** Every stack entry names a node. */
  ghost predicate StackInTree(nodes: seq<TreeNode>, stack: seq<nat>) {
    forall k :: 0 <= k < |stack| ==> stack[k] < |nodes|
  }

  /** The parent of the k-th scope a pass opens, when the stack was
      `stack` and the tree had `n0` nodes: the stack top for the first
      scope, the scope opened just before for the others. */
  function ScopeParent(stack: seq<nat>, n0: nat, k: nat): nat
    requires |stack| > 0
  {
    if k == 0 then stack[|stack| - 1] else n0 + k - 1
  }

  /** Reference for the scopes a pass opens: the event named `names[0]`
      becomes the last child of the stack top and is pushed, then the rest
      follow from there. */
  function OpenSpec(nodes: seq<TreeNode>, stack: seq<nat>, names: seq<string>): (r: (seq<TreeNode>, seq<nat>))
    requires |stack| >= 1 && StackInTree(nodes, stack)
    ensures |r.1| >= 1 && StackInTree(r.0, r.1)
    decreases |names|
  {
    if names == [] then (nodes, stack)
    else OpenSpec(Attach(nodes, stack[|stack| - 1], TreeNode(Some(names[0]), None, [])), stack + [|nodes|], names[1..])
  }

  /** The shape `OpenSpec` gives: the k-th event is node `|nodes0| + k`,
      named `names[k]`; the first is a child of the stack top and each later
      one a child of the one before; all of them are pushed in order; the
      existing nodes keep their labels and their children. */
  lemma {:induction false} OpenSpecNests(nodes0: seq<TreeNode>, stack0: seq<nat>, names: seq<string>)
    requires |stack0| >= 1 && StackInTree(nodes0, stack0)
    ensures var (nodes, stack) := OpenSpec(nodes0, stack0, names);
            var n0 := |nodes0|;
            && |nodes| == n0 + |names|
            && stack == stack0 + seq(|names|, k => n0 + k)
            && (forall k :: 0 <= k < |names| ==> nodes[n0 + k].Name == Some(names[k]) && nodes[n0 + k].Pass.None?)
            && (forall k :: 0 <= k < |names| ==>
                  n0 + k in nodes[ScopeParent(stack0, n0, k)].Children)
            && (forall j :: 0 <= j < n0 ==> nodes[j].Name == nodes0[j].Name && nodes[j].Pass == nodes0[j].Pass)
            && (forall j, c :: 0 <= j < n0 && c in nodes0[j].Children ==> c in nodes[j].Children)
    decreases |names|
  {
    if names != [] {
      var n0 := |nodes0|;
      var top := stack0[|stack0| - 1];
      var nodes1 := Attach(nodes0, top, TreeNode(Some(names[0]), None, []));
      var stack1 := stack0 + [n0];
      AttachShape(nodes0, top, TreeNode(Some(names[0]), None, []));
      OpenSpecNests(nodes1, stack1, names[1..]);
      var r := OpenSpec(nodes0, stack0, names);
      var nodes, stack := r.0, r.1;
      assert r == OpenSpec(nodes1, stack1, names[1..]);
      assert stack == stack0 + seq(|names|, k => n0 + k) by {
        assert stack == stack1 + seq(|names| - 1, k => n0 + 1 + k);
      }
      forall k | 0 <= k < |names|
        ensures nodes[n0 + k].Name == Some(names[k]) && nodes[n0 + k].Pass.None?
        ensures n0 + k in nodes[ScopeParent(stack0, n0, k)].Children
      {
        if k == 0 {
          assert n0 in nodes1[top].Children;
        } else {
          assert names[1..][k - 1] == names[k];
          assert nodes[n0 + 1 + (k - 1)].Name == Some(names[1..][k - 1]);
          assert n0 + 1 + (k - 1) in nodes[ScopeParent(stack1, n0 + 1, k - 1)].Children;
        }
      }
      forall j, c | 0 <= j < n0 && c in nodes0[j].Children
        ensures c in nodes[j].Children
      {
        assert c in nodes1[j].Children;
      }
    }
  }

  /** Opening scopes keeps the nodes a tree under the same root and adds
      no pass node. */
  lemma {:induction false} OpenSpecKeepsTree(nodes: seq<TreeNode>, stack: seq<nat>, names: seq<string>)
    requires |stack| >= 1 && StackInTree(nodes, stack)
    requires |nodes| >= 1 && IsTree(nodes) && nodes[0].Name.None? && nodes[0].Pass.None?
    ensures var r := OpenSpec(nodes, stack, names);
            && |r.0| >= 1 && IsTree(r.0) && r.0[0].Name.None? && r.0[0].Pass.None?
            && PassNodes(r.0) == PassNodes(nodes)
    decreases |names|
  {
    if names != [] {
      var node := TreeNode(Some(names[0]), None, []);
      var top := stack[|stack| - 1];
      AttachKeepsTree(nodes, top, node);
      OpenSpecKeepsTree(Attach(nodes, top, node), stack + [|nodes|], names[1..]);
    }
  }

  /** Reference for one live pass: its events open scopes, the pass node
      becomes the last child of the new stack top, and `NumEventsToEnd`
      scopes are popped; `None` when the stack is empty on entry or runs
      out. */
  function VisitSpec(g: GraphView, i: nat, nodes: seq<TreeNode>, stack: seq<nat>): (r: Option<(seq<TreeNode>, seq<nat>)>)
    requires g.WellFormed() && i < |g.Passes| && StackInTree(nodes, stack)
    ensures r.Some? ==> StackInTree(r.value.0, r.value.1)
  {
    if |stack| == 0 then None
    else
      var p := g.Passes[i];
      var scoped := OpenSpec(nodes, stack, StartedNames(g, i));
      var pushed := scoped.1;
      var withPass := Attach(scoped.0, pushed[|pushed| - 1], TreeNode(None, Some(p.ID), []));
      if p.NumEventsToEnd <= |pushed| then Some((withPass, pushed[..|pushed| - p.NumEventsToEnd]))
      else None
  }

  /** What one visit of pass `i` promises about its outcome `r`: it fails
      exactly when the stack is empty on entry or runs out; otherwise the
      tree stays a tree under the same root, the pass becomes node
      `|nodes0| + n` (after the `n` scopes it opens), a leaf under the
      innermost scope, it is the one pass node added, and the stack is the
      pushed scopes less the ended ones. */
  ghost predicate VisitShaped(g: GraphView, i: nat, nodes0: seq<TreeNode>, stack0: seq<nat>,
                              r: Option<(seq<TreeNode>, seq<nat>)>)
    requires g.WellFormed() && i < |g.Passes| && StackInTree(nodes0, stack0)
  {
    && (var p := g.Passes[i];
        r.None? <==> |stack0| == 0 || |stack0| + |p.EventsToStart| < p.NumEventsToEnd)
    && (r.Some? ==> var (nodes, stack) := r.value;
              var n := |g.Passes[i].EventsToStart|;
              var passIndex := |nodes0| + n;
              |stack0| >= 1
              && |nodes| >= 1 && IsTree(nodes) && nodes[0].Name.None? && nodes[0].Pass.None?
              && |nodes| == passIndex + 1
              && nodes[passIndex] == TreeNode(None, Some(g.Passes[i].ID), [])
              && passIndex in nodes[ScopeParent(stack0, |nodes0|, n)].Children
              && stack == (stack0 + seq(n, k => |nodes0| + k))[..|stack0| + n - g.Passes[i].NumEventsToEnd]
              && PassNodes(nodes) == PassNodes(nodes0) + [g.Passes[i].ID])
  }

  /** The reference visit has the shape `VisitShaped` describes. */
  lemma VisitSpecShape(g: GraphView, i: nat, nodes0: seq<TreeNode>, stack0: seq<nat>)
    requires g.WellFormed() && i < |g.Passes|
    requires |nodes0| >= 1 && IsTree(nodes0) && nodes0[0].Name.None? && nodes0[0].Pass.None?
    requires StackInTree(nodes0, stack0)
    ensures VisitShaped(g, i, nodes0, stack0, VisitSpec(g, i, nodes0, stack0))
  {
    if |stack0| > 0 {
      var names := StartedNames(g, i);
      OpenSpecKeepsTree(nodes0, stack0, names);
      OpenSpecNests(nodes0, stack0, names);
      var scoped := OpenSpec(nodes0, stack0, names);
      var passNode := TreeNode(None, Some(g.Passes[i].ID), []);
      AttachKeepsTree(scoped.0, scoped.1[|scoped.1| - 1], passNode);
      AttachShape(scoped.0, scoped.1[|scoped.1| - 1], passNode);
    }
  }

  /** Reference for the walk over the passes from pass `i`: culled passes
      are skipped, live ones visited, and the tree is kept only when the
      stack ends as the root alone. */
  function BuildFrom(g: GraphView, i: nat, nodes: seq<TreeNode>, stack: seq<nat>): Option<seq<TreeNode>>
    requires g.WellFormed() && i <= |g.Passes| && StackInTree(nodes, stack)
    decreases |g.Passes| - i
  {
    if i == |g.Passes| then (if |stack| == 1 then Some(nodes) else None)
    else if g.Passes[i].IsCulled then BuildFrom(g, i + 1, nodes, stack)
    else
      match VisitSpec(g, i, nodes, stack)
      case None => None
      case Some((next, rest)) => BuildFrom(g, i + 1, next, rest)
  }

  /** The pass tree of `g`, from the root alone on the stack. */
  function PassTree(g: GraphView): Option<seq<TreeNode>>
    requires g.WellFormed()
  {
    BuildFrom(g, 0, [TreeNode(None, None, [])], [0])
  }

  /** The walk keeps a tree exactly when the stack-depth walk over the
      same passes ends with the root alone. */
  lemma {:induction false} BuildFromSucceeds(g: GraphView, i: nat, nodes: seq<TreeNode>, stack: seq<nat>)
    requires g.WellFormed() && i <= |g.Passes| && StackInTree(nodes, stack)
    ensures BuildFrom(g, i, nodes, stack).Some? <==> StackDepthAfter(g.Passes[i..], |stack|) == Some(1)
    decreases |g.Passes| - i
  {
    if i < |g.Passes| {
      var p := g.Passes[i];
      assert g.Passes[i..][0] == p && g.Passes[i..][1..] == g.Passes[i + 1..];
      if p.IsCulled {
        BuildFromSucceeds(g, i + 1, nodes, stack);
      } else if |stack| > 0 {
        OpenSpecNests(nodes, stack, StartedNames(g, i));
        var v := VisitSpec(g, i, nodes, stack);
        if v.Some? {
          BuildFromSucceeds(g, i + 1, v.value.0, v.value.1);
        }
      }
    }
  }

  /** The pass tree exists exactly when every scope opened is closed. */
  lemma PassTreeSucceeds(g: GraphView)
    requires g.WellFormed()
    ensures PassTree(g).Some? <==> StackDepthAfter(g.Passes, 1) == Some(1)
  {
    BuildFromSucceeds(g, 0, [TreeNode(None, None, [])], [0]);
    assert g.Passes[0..] == g.Passes;
  }

  /** Opens a child scope of the stack top for each event pass `i` starts. */
  method OpenScopes(g: GraphView, i: nat, nodes0: seq<TreeNode>, stack0: seq<nat>)
    returns (nodes: seq<TreeNode>, stack: seq<nat>)
    requires g.WellFormed() && i < |g.Passes| && |stack0| >= 1
    requires |nodes0| >= 1 && IsTree(nodes0) && nodes0[0].Name.None? && nodes0[0].Pass.None?
    requires StackInTree(nodes0, stack0)
    ensures (nodes, stack) == OpenSpec(nodes0, stack0, StartedNames(g, i))
    ensures |nodes| >= 1 && IsTree(nodes) && nodes[0].Name.None? && nodes[0].Pass.None?
    ensures var n := |g.Passes[i].EventsToStart|;
            && |nodes| == |nodes0| + n
            && stack == stack0 + seq(n, k => |nodes0| + k)
            && (forall k :: 0 <= k < n ==>
                  nodes[|nodes0| + k].Name == Some(g.EventNames[g.Passes[i].EventsToStart[k]]))
            && (forall k :: 0 <= k < n ==>
                  |nodes0| + k in nodes[ScopeParent(stack0, |nodes0|, k)].Children)
    ensures PassNodes(nodes) == PassNodes(nodes0)
  {
    nodes, stack := nodes0, stack0;
    var p := g.Passes[i];
    ghost var names := StartedNames(g, i);
    var e := 0;
    while e < |p.EventsToStart|
      invariant e <= |p.EventsToStart| && |stack| >= 1
      invariant StackInTree(nodes, stack)
      invariant OpenSpec(nodes, stack, names[e..]) == OpenSpec(nodes0, stack0, names)
    {
      var newNode := TreeNode(Some(g.EventNames[p.EventsToStart[e]]), None, []);
      assert names[e..][0] == names[e] && names[e..][1..] == names[e + 1..];
      AttachShape(nodes, stack[|stack| - 1], newNode);
      nodes := Attach(nodes, stack[|stack| - 1], newNode);
      stack := stack + [|nodes| - 1];
      e := e + 1;
    }
    assert names[e..] == [];
    OpenSpecKeepsTree(nodes0, stack0, names);
    OpenSpecNests(nodes0, stack0, names);
  }

  /** Closes `n` scopes, one pop at a time; `None` when the stack runs out
      first. */
  method CloseScopes(stack0: seq<nat>, n: nat, bound: nat) returns (stack: Option<seq<nat>>)
    requires forall k :: 0 <= k < |stack0| ==> stack0[k] < bound
    ensures stack.Some? <==> n <= |stack0|
    ensures stack.Some? ==> stack.value == stack0[..|stack0| - n]
    ensures stack.Some? ==> forall k :: 0 <= k < |stack.value| ==> stack.value[k] < bound
  {
    var s: seq<nat> := stack0;
    var k := 0;
    while k < n
      invariant k <= n && |s| + k == |stack0|
      invariant s == stack0[..|s|]
    {
      if |s| == 0 {
        return None;
      }
      s := s[..|s| - 1];
      k := k + 1;
    }
    return Some(s);
  }

  /** One pass that is not culled: its events open scopes under the stack
      top, the pass is attached under the new top, and the scopes it ends
      are closed; `None` when the stack is empty on entry or runs out. */
  method VisitPass(g: GraphView, i: nat, nodes0: seq<TreeNode>, stack0: seq<nat>)
    returns (r: Option<(seq<TreeNode>, seq<nat>)>)
    requires g.WellFormed() && i < |g.Passes|
    requires |nodes0| >= 1 && IsTree(nodes0) && nodes0[0].Name.None? && nodes0[0].Pass.None?
    requires StackInTree(nodes0, stack0)
    ensures r == VisitSpec(g, i, nodes0, stack0)
    ensures VisitShaped(g, i, nodes0, stack0, r)
  {
    VisitSpecShape(g, i, nodes0, stack0);
    var p := g.Passes[i];
    if |stack0| == 0 {
      return None;
    }
    var nodes, stack := OpenScopes(g, i, nodes0, stack0);
    var passNode := TreeNode(None, Some(p.ID), []);
    AttachShape(nodes, stack[|stack| - 1], passNode);
    nodes := Attach(nodes, stack[|stack| - 1], passNode);
    var closed := CloseScopes(stack, p.NumEventsToEnd, |nodes|);
    if closed.None? {
      return None;
    }
    return Some((nodes, closed.value));
  }

  /** The tree build of the pass view: walks the passes that are not culled,
      opens a child scope of the stack top for each event the pass starts,
      attaches the pass to the stack top, and closes the scopes the pass
      ends. `None` is an invalid use of the stack, or a final stack that is
      not the root alone (the failing check). */
  method BuildPassTree(g: GraphView) returns (tree: Option<seq<TreeNode>>)
    requires g.WellFormed()
    ensures tree == PassTree(g)
    ensures tree.Some? <==> StackDepthAfter(g.Passes, 1) == Some(1)
    ensures tree.Some? ==> |tree.value| >= 1 && IsTree(tree.value)
    ensures tree.Some? ==> tree.value[0].Name.None? && tree.value[0].Pass.None?
    ensures tree.Some? ==> PassNodes(tree.value) == LivePasses(g.Passes)
  {
    PassTreeSucceeds(g);
    var nodes := [TreeNode(None, None, [])];
    var stack: seq<nat> := [0];
    var i := 0;
    while i < |g.Passes|
      invariant i <= |g.Passes|
      invariant |nodes| >= 1 && IsTree(nodes)
      invariant nodes[0].Name.None? && nodes[0].Pass.None?
      invariant StackInTree(nodes, stack)
      invariant PassNodes(nodes) == LivePasses(g.Passes[..i])
      invariant BuildFrom(g, i, nodes, stack) == PassTree(g)
    {
      var p := g.Passes[i];
      assert g.Passes[..i + 1][..i] == g.Passes[..i];
      if !p.IsCulled {
        var visited := VisitPass(g, i, nodes, stack);
        if visited.None? {
          return None;
        }
        nodes, stack := visited.value.0, visited.value.1;
      }
      i := i + 1;
    }
    assert g.Passes[..i] == g.Passes;
    if |stack| != 1 {
      return None;
    }
    return Some(nodes);
  }

  // ---------------------------------------------------------------------
  // Resource versions and edges of the graph dump
  // ---------------------------------------------------------------------

  /** An access together with the pass that makes it. */
  datatype PassAccess = PassAccess(Pass: Handle, Resource: nat, Write: bool)

  function AccessesOf(p: PassView): seq<PassAccess> {
    seq(|p.Accesses|, k requires 0 <= k < |p.Accesses| =>
      PassAccess(p.ID, p.Accesses[k].Resource, p.Accesses[k].Write))
  }

  /** Every access of every pass, in pass order and then access order. */
  function AllAccesses(passes: seq<PassView>): seq<PassAccess> {
    if passes == [] then []
    else AllAccesses(passes[..|passes| - 1]) + AccessesOf(passes[|passes| - 1])
  }

  /** The number of write accesses to `r` in `accesses`. */
  function WriteCount(accesses: seq<PassAccess>, r: nat): nat {
    if accesses == [] then 0
    else
      var last := accesses[|accesses| - 1];
      WriteCount(accesses[..|accesses| - 1], r) + (if last.Resource == r && last.Write then 1 else 0)
  }

  /** The resources that `accesses` touch. */
  function AccessedResources(accesses: seq<PassAccess>): set<nat> {
    if accesses == [] then {}
    else AccessedResources(accesses[..|accesses| - 1]) + {accesses[|accesses| - 1].Resource}
  }

  /** A dump edge: `Resource<r>_<v> -> Pass<p>` or `Pass<p> -> Resource<r>_<v>`. */
  datatype Edge = ReadEdge(Resource: nat, Version: nat, Pass: Handle)
                | WriteEdge(Pass: Handle, Resource: nat, Version: nat)

  predicate IsImported(g: GraphView, r: nat) {
    r < |g.Resources| && g.Resources[r].IsImported
  }

  /** The edges of one access made when its resource is at `version`. */
  function EdgesOfAccess(g: GraphView, a: PassAccess, version: nat): seq<Edge> {
    (if version > 0 || IsImported(g, a.Resource) then [ReadEdge(a.Resource, version, a.Pass)] else [])
    + (if a.Write then [WriteEdge(a.Pass, a.Resource, version + 1)] else [])
  }

  /** Reference definition of the dump's edges: each access sees its
      resource at the version given by the number of earlier writes. */
  function DumpEdges(g: GraphView, accesses: seq<PassAccess>): seq<Edge> {
    if accesses == [] then []
    else
      var n := |accesses| - 1;
      DumpEdges(g, accesses[..n]) + EdgesOfAccess(g, accesses[n], WriteCount(accesses[..n], accesses[n].Resource))
  }

  lemma {:induction false} UnaccessedHasNoWrites(accesses: seq<PassAccess>, r: nat)
    requires r !in AccessedResources(accesses)
    ensures WriteCount(accesses, r) == 0
  {
    if accesses != [] {
      UnaccessedHasNoWrites(accesses[..|accesses| - 1], r);
    }
  }

  lemma DumpEdgesAppend(g: GraphView, done: seq<PassAccess>, a: PassAccess)
    ensures DumpEdges(g, done + [a]) == DumpEdges(g, done) + EdgesOfAccess(g, a, WriteCount(done, a.Resource))
    ensures forall r :: WriteCount(done + [a], r) == WriteCount(done, r) + (if a.Resource == r && a.Write then 1 else 0)
    ensures AccessedResources(done + [a]) == AccessedResources(done) + {a.Resource}
  {
    assert (done + [a])[..|done|] == done;
  }

  lemma AllAccessesStep(passes: seq<PassView>, i: nat)
    requires i < |passes|
    ensures AllAccesses(passes[..i + 1]) == AllAccesses(passes[..i]) + AccessesOf(passes[i])
  {
    assert passes[..i + 1][..i] == passes[..i];
  }

  /** The version map holds exactly the accessed resources, each at the
      number of writes to it. */
  ghost predicate VersionsMatch(versions: map<nat, nat>, seen: seq<PassAccess>) {
    (forall r :: r in versions <==> r in AccessedResources(seen))
    && (forall r :: r in versions ==> versions[r] == WriteCount(seen, r))
  }

  lemma VersionsStep(versions: map<nat, nat>, seen: seq<PassAccess>, a: PassAccess)
    requires VersionsMatch(versions, seen)
    ensures a.Resource in versions ==> versions[a.Resource] == WriteCount(seen, a.Resource)
    ensures a.Resource !in versions ==> WriteCount(seen, a.Resource) == 0
    ensures VersionsMatch(versions[a.Resource := WriteCount(seen, a.Resource) + (if a.Write then 1 else 0)], seen + [a])
  {
    DumpEdgesAppend(GraphView(false, [], [], []), seen, a);
    if a.Resource !in versions {
      UnaccessedHasNoWrites(seen, a.Resource);
    }
  }

  /** The loop over one pass's accesses in `DumpDebugGraph`, continuing the
      numbering after the accesses `done` of the earlier passes. */
  method DumpPassEdges(g: GraphView, p: PassView, ghost done: seq<PassAccess>,
                       edges0: seq<Edge>, versions0: map<nat, nat>)
    returns (edges: seq<Edge>, versions: map<nat, nat>)
    requires edges0 == DumpEdges(g, done)
    requires VersionsMatch(versions0, done)
    ensures edges == DumpEdges(g, done + AccessesOf(p))
    ensures VersionsMatch(versions, done + AccessesOf(p))
  {
    edges, versions := edges0, versions0;
    ghost var accesses := AccessesOf(p);
    assert done + accesses[..0] == done;
    var j := 0;
    while j < |p.Accesses|
      invariant j <= |p.Accesses| == |accesses|
      invariant edges == DumpEdges(g, done + accesses[..j])
      invariant VersionsMatch(versions, done + accesses[..j])
    {
      var access := p.Accesses[j];
      var a := PassAccess(p.ID, access.Resource, access.Write);
      PrefixStep(done, accesses, j);
      edges, versions := DumpAccess(g, a, done + accesses[..j], edges, versions);
      j := j + 1;
    }
    assert accesses[..j] == accesses;
  }

  lemma PrefixStep<T>(done: seq<T>, s: seq<T>, j: nat)
    requires j < |s|
    ensures done + s[..j + 1] == (done + s[..j]) + [s[j]]
  {
    assert s[..j + 1] == s[..j] + [s[j]];
  }

  /** One access in `DumpDebugGraph`: the resource enters the version map
      at 0, its edges are emitted, and a write moves it one version on. */
  method DumpAccess(g: GraphView, a: PassAccess, ghost seen: seq<PassAccess>,
                    edges0: seq<Edge>, versions0: map<nat, nat>)
    returns (edges: seq<Edge>, versions: map<nat, nat>)
    requires edges0 == DumpEdges(g, seen)
    requires VersionsMatch(versions0, seen)
    ensures edges == DumpEdges(g, seen + [a])
    ensures VersionsMatch(versions, seen + [a])
  {
    versions := versions0;
    VersionsStep(versions, seen, a);
    if a.Resource !in versions {
      versions := versions[a.Resource := 0];
    }
    var version := versions[a.Resource];
    DumpEdgesAppend(g, seen, a);
    edges := edges0 + EdgesOfAccess(g, a, version);
    if a.Write {
      versions := versions[a.Resource := version + 1];
    }
    assert versions == versions0[a.Resource := WriteCount(seen, a.Resource) + (if a.Write then 1 else 0)];
  }

  /** The version numbering of `DumpDebugGraph`: a resource enters the
      version map at 0 on its first access and goes up by one on each write
      access; the edges are emitted as it goes. */
  method DumpGraphEdges(g: GraphView) returns (edges: seq<Edge>, versions: map<nat, nat>)
    requires g.IsCompiled
    ensures edges == DumpEdges(g, AllAccesses(g.Passes))
    ensures forall r :: r in versions <==> r in AccessedResources(AllAccesses(g.Passes))
    ensures forall r :: r in versions ==> versions[r] == WriteCount(AllAccesses(g.Passes), r)
  {
    edges := [];
    versions := map[];
    var i := 0;
    while i < |g.Passes|
      invariant i <= |g.Passes|
      invariant edges == DumpEdges(g, AllAccesses(g.Passes[..i]))
      invariant VersionsMatch(versions, AllAccesses(g.Passes[..i]))
    {
      AllAccessesStep(g.Passes, i);
      edges, versions := DumpPassEdges(g, g.Passes[i], AllAccesses(g.Passes[..i]), edges, versions);
      i := i + 1;
    }
    assert g.Passes[..i] == g.Passes;
  }

  /** The versions of `r` on write edges, in edge order. */
  function WriteVersions(edges: seq<Edge>, r: nat): seq<nat> {
    if edges == [] then []
    else
      var e := edges[|edges| - 1];
      WriteVersions(edges[..|edges| - 1], r) + (if e.WriteEdge? && e.Resource == r then [e.Version] else [])
  }

  /** `[1, 2, ..., n]`. */
  function OneTo(n: nat): seq<nat> {
    if n == 0 then [] else OneTo(n - 1) + [n]
  }

  lemma {:induction false} WriteVersionsAppend(a: seq<Edge>, b: seq<Edge>, r: nat)
    ensures WriteVersions(a + b, r) == WriteVersions(a, r) + WriteVersions(b, r)
    decreases |b|
  {
    if b == [] {
      assert a + b == a;
    } else {
      assert (a + b)[..|a + b| - 1] == a + b[..|b| - 1];
      WriteVersionsAppend(a, b[..|b| - 1], r);
    }
  }

  lemma WriteVersionsOfAccess(g: GraphView, a: PassAccess, version: nat, r: nat)
    ensures WriteVersions(EdgesOfAccess(g, a, version), r)
         == if a.Write && a.Resource == r then [version + 1] else []
  {
    var readPart := if version > 0 || IsImported(g, a.Resource) then [ReadEdge(a.Resource, version, a.Pass)] else [];
    var writePart := if a.Write then [WriteEdge(a.Pass, a.Resource, version + 1)] else [];
    WriteVersionsAppend(readPart, writePart, r);
    if readPart != [] {
      assert readPart[..0] == [];
    }
    if writePart != [] {
      assert writePart[..0] == [];
    }
  }

  /** The write edges of a resource carry versions 1, 2, ... in order, one
      per write: each write moves the resource to the next version. */
  lemma {:induction false} WriteEdgesCountUp(g: GraphView, accesses: seq<PassAccess>, r: nat)
    ensures WriteVersions(DumpEdges(g, accesses), r) == OneTo(WriteCount(accesses, r))
  {
    if accesses != [] {
      var n := |accesses| - 1;
      var a := accesses[n];
      var v := WriteCount(accesses[..n], a.Resource);
      WriteEdgesCountUp(g, accesses[..n], r);
      WriteVersionsAppend(DumpEdges(g, accesses[..n]), EdgesOfAccess(g, a, v), r);
      WriteVersionsOfAccess(g, a, v, r);
    }
  }

  /** A read edge only leaves a version that some pass wrote, or the
      incoming version of an imported resource; no edge names a version
      beyond the writes so far. */
  lemma {:induction false} ReadEdgesHaveAWriter(g: GraphView, accesses: seq<PassAccess>)
    ensures forall e :: e in DumpEdges(g, accesses) && e.ReadEdge? ==>
              e.Version > 0 || IsImported(g, e.Resource)
    ensures forall e :: e in DumpEdges(g, accesses) ==> e.Version <= WriteCount(accesses, e.Resource)
  {
    if accesses != [] {
      var n := |accesses| - 1;
      var a := accesses[n];
      var v := WriteCount(accesses[..n], a.Resource);
      ReadEdgesHaveAWriter(g, accesses[..n]);
      DumpEdgesAppend(g, accesses[..n], a);
      assert accesses[..n] + [a] == accesses;
      forall e | e in DumpEdges(g, accesses)
        ensures e.ReadEdge? ==> e.Version > 0 || IsImported(g, e.Resource)
        ensures e.Version <= WriteCount(accesses, e.Resource)
      {
        if e !in DumpEdges(g, accesses[..n]) {
          assert e in EdgesOfAccess(g, a, v);
        }
      }
    }
  }

  // ---------------------------------------------------------------------
  // Resource tracker: grouping by physical backing and column spans
  // ---------------------------------------------------------------------

  /** The tracker shows only non-imported resources with a physical backing. */
  predicate Tracked(r: ResourceView) {
    r.Physical.Some? && !r.IsImported
  }

  /** The backings of the tracked resources, in resource order. */
  function TrackedPhysicals(rs: seq<ResourceView>): seq<PhysicalId> {
    if rs == [] then []
    else
      var last := rs[|rs| - 1];
      TrackedPhysicals(rs[..|rs| - 1]) + (if Tracked(last) then [last.Physical.value] else [])
  }

  /** The first occurrence of every element, in order. */
  function Distinct(s: seq<PhysicalId>): seq<PhysicalId> {
    if s == [] then []
    else
      var init := s[..|s| - 1];
      Distinct(init) + (if s[|s| - 1] in init then [] else [s[|s| - 1]])
  }

  /** `Distinct` keeps every element exactly once. */
  lemma {:induction false} DistinctProperties(s: seq<PhysicalId>)
    ensures forall x :: x in Distinct(s) <==> x in s
    ensures forall i, j :: 0 <= i < j < |Distinct(s)| ==> Distinct(s)[i] != Distinct(s)[j]
  {
    if s != [] {
      var init := s[..|s| - 1];
      DistinctProperties(init);
      assert s == init + [s[|s| - 1]];
    }
  }

  /** The positions of the tracked resources backed by `p`, in order. */
  function Group(rs: seq<ResourceView>, p: PhysicalId): seq<nat> {
    if rs == [] then []
    else
      var n := |rs| - 1;
      Group(rs[..n], p) + (if Tracked(rs[n]) && rs[n].Physical.value == p then [n] else [])
  }

  /** Every tracked resource is in the group of its own backing and in no
      other, and groups list positions in ascending order. */
  lemma {:induction false} GroupMembership(rs: seq<ResourceView>, p: PhysicalId)
    ensures forall i: nat :: i in Group(rs, p) <==> i < |rs| && Tracked(rs[i]) && rs[i].Physical.value == p
    ensures forall a, b :: 0 <= a < b < |Group(rs, p)| ==> Group(rs, p)[a] < Group(rs, p)[b]
  {
    if rs != [] {
      var n := |rs| - 1;
      var init := Group(rs[..n], p);
      GroupMembership(rs[..n], p);
      assert forall i :: 0 <= i < n ==> rs[..n][i] == rs[i];
      assert forall i :: i in init ==> i < n;
      forall a, b | 0 <= a < b < |Group(rs, p)| ensures Group(rs, p)[a] < Group(rs, p)[b] {
        if b < |init| {
          assert Group(rs, p)[a] == init[a] && Group(rs, p)[b] == init[b];
        } else {
          assert Group(rs, p)[a] == init[a];
          assert init[a] in init;
        }
      }
    }
  }

  lemma TrackerStep(rs: seq<ResourceView>, r: ResourceView)
    ensures TrackedPhysicals(rs + [r]) == TrackedPhysicals(rs) + (if Tracked(r) then [r.Physical.value] else [])
    ensures forall x :: Group(rs + [r], x) == Group(rs, x) + (if Tracked(r) && r.Physical.value == x then [|rs|] else [])
  {
    assert (rs + [r])[..|rs|] == rs;
  }

  lemma {:induction false} UnseenBackingHasEmptyGroup(rs: seq<ResourceView>, p: PhysicalId)
    requires p !in TrackedPhysicals(rs)
    ensures Group(rs, p) == []
  {
    if rs != [] {
      UnseenBackingHasEmptyGroup(rs[..|rs| - 1], p);
    }
  }

  lemma DistinctStep(s: seq<PhysicalId>, x: PhysicalId)
    ensures Distinct(s + [x]) == Distinct(s) + (if x in Distinct(s) then [] else [x])
  {
    assert (s + [x])[..|s|] == s;
    DistinctProperties(s);
  }

  /** The grouping at the start of `DrawResourceTracker`: lists each
      distinct backing of a tracked resource once, in first-seen order, and
      maps it to the tracked resources it backs. */
  method GroupByPhysical(g: GraphView) returns (physicals: seq<PhysicalId>, groups: map<PhysicalId, seq<nat>>)
    requires g.IsCompiled
    ensures physicals == Distinct(TrackedPhysicals(g.Resources))
    ensures forall x :: x in groups <==> x in physicals
    ensures forall x :: x in groups ==> groups[x] == Group(g.Resources, x)
  {
    physicals := [];
    groups := map[];
    var i := 0;
    while i < |g.Resources|
      invariant i <= |g.Resources|
      invariant physicals == Distinct(TrackedPhysicals(g.Resources[..i]))
      invariant forall x :: x in groups <==> x in physicals
      invariant forall x :: x in groups ==> groups[x] == Group(g.Resources[..i], x)
    {
      assert g.Resources[..i + 1] == g.Resources[..i] + [g.Resources[i]];
      physicals, groups := GroupOne(g.Resources[..i], g.Resources[i], physicals, groups);
      i := i + 1;
    }
    assert g.Resources[..i] == g.Resources;
  }

  /** One resource in the grouping: a tracked resource with a backing not
      seen before adds that backing to the list, and its position joins the
      backing's group. */
  method GroupOne(before: seq<ResourceView>, r: ResourceView, physicals0: seq<PhysicalId>, groups0: map<PhysicalId, seq<nat>>)
    returns (physicals: seq<PhysicalId>, groups: map<PhysicalId, seq<nat>>)
    requires physicals0 == Distinct(TrackedPhysicals(before))
    requires forall x :: x in groups0 <==> x in physicals0
    requires forall x :: x in groups0 ==> groups0[x] == Group(before, x)
    ensures physicals == Distinct(TrackedPhysicals(before + [r]))
    ensures forall x :: x in groups <==> x in physicals
    ensures forall x :: x in groups ==> groups[x] == Group(before + [r], x)
  {
    physicals, groups := physicals0, groups0;
    TrackerStep(before, r);
    if Tracked(r) {
      var p := r.Physical.value;
      DistinctStep(TrackedPhysicals(before), p);
      assert p in groups <==> p in physicals;
      DistinctProperties(TrackedPhysicals(before));
      if p !in physicals {
        UnseenBackingHasEmptyGroup(before, p);
        physicals := physicals + [p];
      }
      groups := groups[p := (if p in groups then groups[p] else []) + [|before|]];
      assert groups[p] == Group(before + [r], p);
    } else {
      assert TrackedPhysicals(before + [r]) == TrackedPhysicals(before);
    }
  }

  /** The pass columns a tracker row covers, `(first, last)`, or `None` when
      the resource has no first or last access. The last column of an
      exported resource is the pass count minus one, stored in a 32-bit
      unsigned integer. */
  function ColumnSpan(r: ResourceView, numPasses: nat): (span: Option<(nat, nat)>)
    ensures span.None? <==> !r.FirstAccess.IsValid() || !r.LastAccess.IsValid()
  {
    if !r.FirstAccess.IsValid() || !r.LastAccess.IsValid() then None
    else
      var first := if r.IsImported then 0 else r.FirstAccess.GetIndex() as nat;
      var last := if r.IsExported then (numPasses - 1) % 0x1_0000_0000 else r.LastAccess.GetIndex() as nat;
      Some((first, last))
  }

  /** The span covers every pass from the first to the last access; an
      imported resource's row starts at the first pass and an exported one's
      ends at the last pass. */
  lemma ColumnSpanCoversAccesses(r: ResourceView, numPasses: nat)
    requires r.FirstAccess.IsValid() && r.LastAccess.IsValid()
    requires r.FirstAccess.GetIndex() <= r.LastAccess.GetIndex()
    requires r.LastAccess.GetIndex() as nat < numPasses < 0x8000_0000
    ensures ColumnSpan(r, numPasses).Some?
    ensures ColumnSpan(r, numPasses).value.0 <= r.FirstAccess.GetIndex() as nat
    ensures r.LastAccess.GetIndex() as nat <= ColumnSpan(r, numPasses).value.1 < numPasses
    ensures r.IsImported ==> ColumnSpan(r, numPasses).value.0 == 0
    ensures r.IsExported ==> ColumnSpan(r, numPasses).value.1 == numPasses - 1
  {}
}
