/**
 The single pass over an editor's window nodes that checks parent indices and
 derives, in place, which nodes are visible and enabled.
 */
module EditorHierarchy {
  /** `parentIndex` is one-based; zero means no parent. */
  datatype Node = Node(parentIndex: nat, flags: nat, isVisible: bool, isEnabled: bool)

  datatype Flag = Visible | Enabled

  predicate HasFlag(node: Node, flag: Flag) {
    match flag
    case Visible => node.flags % 2 == 1
    case Enabled => node.flags / 2 % 2 == 1
  }

  predicate IsPlaced(nodes: seq<Node>, i: nat)
    requires i < |nodes|
  {
    if i == 0 then nodes[i].parentIndex == 0 else 0 < nodes[i].parentIndex <= i
  }

  /** Among the first `n` nodes, only the very first has no parent, and every other's is strictly earlier. */
  predicate IsTree(nodes: seq<Node>, n: nat) {
    n <= |nodes| && forall i :: 0 <= i < n ==> IsPlaced(nodes, i)
  }

  predicate IsRoot(nodes: seq<Node>, i: nat)
    requires i < |nodes|
  {
    nodes[i].parentIndex == 0
  }

  function Parent(nodes: seq<Node>, i: nat): (p: nat)
    requires IsTree(nodes, i + 1) && !IsRoot(nodes, i)
    ensures p < i && IsTree(nodes, p + 1)
  {
    assert IsPlaced(nodes, i);
    nodes[i].parentIndex - 1
  }

  /** Where going up `steps` times from `i` leads. */
  function Ancestor(nodes: seq<Node>, i: nat, steps: nat): (a: nat)
    requires IsTree(nodes, i + 1)
    ensures a <= i && IsTree(nodes, a + 1)
    decreases steps
  {
    if steps == 0 || IsRoot(nodes, i) then i else Ancestor(nodes, Parent(nodes, i), steps - 1)
  }

  /** A node shows a flag when it and everything above it carry it. */
  ghost predicate Shows(nodes: seq<Node>, i: nat, flag: Flag)
    requires IsTree(nodes, i + 1)
  {
    forall steps: nat :: HasFlag(nodes[Ancestor(nodes, i, steps)], flag)
  }

  lemma ShowsThroughParent(nodes: seq<Node>, i: nat, flag: Flag)
    requires IsTree(nodes, i + 1)
    ensures Shows(nodes, i, flag) <==>
            HasFlag(nodes[i], flag) && (IsRoot(nodes, i) || Shows(nodes, Parent(nodes, i), flag))
  {
    if IsRoot(nodes, i) {
      assert forall steps: nat :: Ancestor(nodes, i, steps) == i;
      assert Ancestor(nodes, i, 0) == i;
    } else {
      var p := Parent(nodes, i);
      assert Ancestor(nodes, i, 0) == i;
      forall steps: nat
        ensures Ancestor(nodes, i, steps + 1) == Ancestor(nodes, p, steps)
      {
      }
      if HasFlag(nodes[i], flag) && Shows(nodes, p, flag) {
        forall steps: nat
          ensures HasFlag(nodes[Ancestor(nodes, i, steps)], flag)
        {
          if steps > 0 {
            assert Ancestor(nodes, i, steps) == Ancestor(nodes, p, steps - 1);
          }
        }
      }
    }
  }

  /** In an accepted array every node hangs below the first: climbing ends there. */
  lemma {:induction false} ClimbsToFirst(nodes: seq<Node>, i: nat, steps: nat)
    requires IsTree(nodes, i + 1) && i <= steps
    ensures Ancestor(nodes, i, steps) == 0
    decreases i
  {
    assert IsPlaced(nodes, i);
    if i > 0 {
      ClimbsToFirst(nodes, Parent(nodes, i), steps - 1);
    }
  }

  /** A node that does not show a flag hides it for everything below it. */
  lemma {:induction false} HiddenAboveHides(nodes: seq<Node>, i: nat, steps: nat, flag: Flag)
    requires IsTree(nodes, i + 1) && !Shows(nodes, Ancestor(nodes, i, steps), flag)
    ensures !Shows(nodes, i, flag)
    decreases steps
  {
    if steps > 0 && !IsRoot(nodes, i) {
      ShowsThroughParent(nodes, i, flag);
      HiddenAboveHides(nodes, Parent(nodes, i), steps - 1, flag);
    }
  }

  /** The first `n` nodes have been given their states; nothing else has changed. */
  ghost predicate Derived(was: seq<Node>, now: seq<Node>, n: nat)
    requires IsTree(was, n)
  {
    && |now| == |was|
    && (forall i :: 0 <= i < n ==>
          now[i] == was[i].(isVisible := Shows(was, i, Visible), isEnabled := Shows(was, i, Enabled)))
    && (forall i :: n <= i < |was| ==> now[i] == was[i])
  }

  /** What the pass writes to one node, given what its parent has become. */
  lemma DerivedOne(was: seq<Node>, now: seq<Node>, i: nat, next: Node)
    requires i < |was| && IsTree(was, i + 1) && Derived(was, now, i)
    requires var inherits := IsRoot(was, i) || now[Parent(was, i)].isVisible;
             next.isVisible == (HasFlag(was[i], Visible) && inherits)
    requires var inherits := IsRoot(was, i) || now[Parent(was, i)].isEnabled;
             next.isEnabled == (HasFlag(was[i], Enabled) && inherits)
    requires next == was[i].(isVisible := next.isVisible, isEnabled := next.isEnabled)
    ensures Derived(was, now[i := next], i + 1)
  {
    ShowsThroughParent(was, i, Visible);
    ShowsThroughParent(was, i, Enabled);
  }

  /** Which arrays are accepted, and which bits make a node visible and enabled, written out. */
  lemma TreeMeaning(nodes: seq<Node>)
    ensures IsTree(nodes, |nodes|) <==>
            && (nodes != [] ==> nodes[0].parentIndex == 0)
            && forall i :: 1 <= i < |nodes| ==> 1 <= nodes[i].parentIndex <= i
  {
    if nodes != [] && IsTree(nodes, |nodes|) {
      assert IsPlaced(nodes, 0);
    }
    if IsTree(nodes, |nodes|) {
      forall i: nat | 1 <= i < |nodes|
        ensures 1 <= nodes[i].parentIndex <= i
      {
        assert IsPlaced(nodes, i);
      }
    }
  }

  /** Bit 0 of the flags makes a node visible, bit 1 makes it enabled. */
  predicate Carries(flags: nat, flag: Flag) {
    match flag
    case Visible => flags % 4 == 1 || flags % 4 == 3
    case Enabled => flags % 4 == 2 || flags % 4 == 3
  }

  lemma BitsMeaning(node: Node, flag: Flag)
    ensures HasFlag(node, flag) <==> Carries(node.flags, flag)
  {
    var quarter, low := node.flags / 4, node.flags % 4;
    assert node.flags == 4 * quarter + low;
    assert node.flags / 2 == 2 * quarter + low / 2;
  }

  lemma ShowsMeaning(nodes: seq<Node>, i: nat, flag: Flag)
    requires IsTree(nodes, i + 1)
    ensures Shows(nodes, i, flag) <==> forall steps: nat :: Carries(nodes[Ancestor(nodes, i, steps)].flags, flag)
  {
    if Shows(nodes, i, flag) {
      forall steps: nat
        ensures Carries(nodes[Ancestor(nodes, i, steps)].flags, flag)
      {
        BitsMeaning(nodes[Ancestor(nodes, i, steps)], flag);
      }
    } else {
      var steps: nat :| !HasFlag(nodes[Ancestor(nodes, i, steps)], flag);
      BitsMeaning(nodes[Ancestor(nodes, i, steps)], flag);
      assert !Carries(nodes[Ancestor(nodes, i, steps)].flags, flag);
    }
  }

  /** The pass accepts exactly the trees, and a node ends visible exactly when nothing above hides it. */
  method DeriveStates(nodes: array<Node>) returns (ok: bool)
    modifies nodes
    ensures ok <==> IsTree(old(nodes[..]), nodes.Length)
    ensures ok ==> Derived(old(nodes[..]), nodes[..], nodes.Length)
  {
    ghost var was := nodes[..];
    ok := true;
    for index := 0 to nodes.Length
      invariant IsTree(was, index) && Derived(was, nodes[..], index)
    {
      ghost var now := nodes[..];
      var node := nodes[index];
      if (index == 0 && node.parentIndex != 0) || (index > 0 && (node.parentIndex == 0 || node.parentIndex > index)) {
        assert !IsPlaced(was, index);
        return false;
      }
      var isVisible, isEnabled := node.flags % 2 == 1, node.flags / 2 % 2 == 1;
      if node.parentIndex != 0 {
        var parent := nodes[node.parentIndex - 1];
        isVisible, isEnabled := isVisible && parent.isVisible, isEnabled && parent.isEnabled;
      }
      nodes[index] := node.(isVisible := isVisible, isEnabled := isEnabled);
      DerivedOne(was, now, index, nodes[index]);
      assert nodes[..] == now[index := nodes[index]];
    }
  }
}
