/** The in-memory DOM double the engine's DOM operations act on: a node keeps
    its children in `childNodes` and, redundantly, in the `parentNode` and
    `nextSibling` links of the children.  `Valid()` is the invariant that the
    two agree; `InsertBefore` and `RemoveChild` preserve it. */
module MockDom {
  import opened Seqs

  const ElementType := 1
  const TextType := 3
  const FragmentType := 11

  /** What `findChild` finds: a position, or the error it throws. */
  datatype Position = At(index: nat) | NotAChild

  /** The outcome of a mutator: done, or stopped by `findChild`'s error
      before anything changed. */
  datatype Outcome = Done | Failed(message: string)

  class Node {
    const nodeType: int
    const nodeName: string
    var parentNode: Node?
    var nextSibling: Node?
    var childNodes: seq<Node>
    var attributes: map<string, string>

    constructor (nodeType: int, nodeName: string)
      ensures this.nodeType == nodeType && this.nodeName == nodeName
      ensures parentNode == null && nextSibling == null
      ensures childNodes == [] && attributes == map[]
      ensures Valid()
    {
      this.nodeType := nodeType;
      this.nodeName := nodeName;
      parentNode := null;
      nextSibling := null;
      childNodes := [];
      attributes := map[];
    }

    /** The child list and the links agree: distinct children, each pointing
        back to this node, each linked to the next one, the last to nothing. */
    ghost predicate Valid()
      reads this`childNodes, childNodes`parentNode, childNodes`nextSibling
    {
      && Distinct(childNodes)
      && this !in childNodes
      && Adopted(childNodes, this)
      && Links(childNodes, null)
    }

    predicate IsFragment() {
      nodeType == FragmentType
    }

    function FirstChild(): (r: Node?)
      reads this`childNodes
      ensures r == null <==> childNodes == []
      ensures r != null ==> r == childNodes[0]
    {
      if |childNodes| > 0 then childNodes[0] else null
    }

    function LastChild(): (r: Node?)
      reads this`childNodes
      ensures r == null <==> childNodes == []
      ensures r != null ==> r == childNodes[|childNodes| - 1]
    {
      var length := |childNodes|;
      if length > 0 then childNodes[length - 1] else null
    }

    /** The child that comes just before the insertion point `next` (the
        last child when `next` is null), as a set: empty when there is none. */
    function ChildBefore(next: Node?): set<Node>
      reads this`childNodes
    {
      var pos := InsertionPoint(next);
      if pos > 0 then {childNodes[pos - 1]} else {}
    }

    method RemoveChild(node: Node) returns (r: Outcome)
      requires Valid()
      modifies this`childNodes, node`parentNode, node`nextSibling, ChildBefore(node)`nextSibling
      ensures Valid()
      ensures r.Done? <==> node in old(childNodes)
      ensures r.Failed? ==> unchanged(this) && unchanged(node)
      ensures r.Done? ==>
        var pos := IndexOf(old(childNodes), node);
        && childNodes == Without(old(childNodes), pos)
        && node.parentNode == null && node.nextSibling == null
        && (pos > 0 ==> old(childNodes)[pos - 1].nextSibling == old(node.nextSibling))
    {
      var found := FindChild(this, node);
      if found.NotAChild? {
        return Failed("Node is not a child");
      }
      Detach(node, found.index);
      r := Done;
    }

    /** What `removeChild` does once `findChild` has found `node` at `pos`:
        bypass it, take it out of the list and clear its links. */
    method Detach(node: Node, pos: nat)
      requires Valid() && pos < |childNodes| && childNodes[pos] == node
      modifies this`childNodes, node`parentNode, node`nextSibling
      modifies (if pos > 0 then {childNodes[pos - 1]} else {})`nextSibling
      ensures Valid()
      ensures childNodes == Without(old(childNodes), pos)
      ensures node.parentNode == null && node.nextSibling == null
      ensures pos > 0 ==> old(childNodes)[pos - 1].nextSibling == old(node.nextSibling)
    {
      if pos > 0 {
        Bypass(pos);
      } else {
        LinksSplit(childNodes, null, 1);
      }
      Cut(node, pos);
    }

    /** `childNodes[pos - 1].nextSibling = node.nextSibling`: the run before
        `pos` now leads past the node at `pos`. */
    method Bypass(pos: nat)
      requires Valid() && 0 < pos < |childNodes|
      modifies {childNodes[pos - 1]}`nextSibling
      ensures childNodes[pos - 1].nextSibling == childNodes[pos].nextSibling == old(childNodes[pos].nextSibling)
      ensures Links(childNodes[..pos], if pos + 1 < |childNodes| then childNodes[pos + 1] else null)
      ensures Links(childNodes[pos + 1..], null)
    {
      ghost var head, tail := childNodes[..pos], childNodes[pos + 1..];
      LinksSplit(childNodes, null, pos + 1);
      LinksSplit(childNodes, null, pos);
      LinksSplit(head, childNodes[pos], pos - 1);
      assert head[pos - 1] !in tail && head[pos - 1] != childNodes[pos] && head[pos - 1] !in head[..pos - 1];
      LinkLast(childNodes[..pos], childNodes[pos].nextSibling);
    }

    /** `splice(pos, 1)` and clearing the removed node's links, once the run
        before `pos` leads past it. */
    method Cut(node: Node, pos: nat)
      requires Distinct(childNodes) && this !in childNodes && Adopted(childNodes, this)
      requires pos < |childNodes| && childNodes[pos] == node
      requires Links(childNodes[..pos], if pos + 1 < |childNodes| then childNodes[pos + 1] else null)
      requires Links(childNodes[pos + 1..], null)
      modifies this`childNodes, node`parentNode, node`nextSibling
      ensures Valid()
      ensures childNodes == Without(old(childNodes), pos)
      ensures node.parentNode == null && node.nextSibling == null
    {
      ghost var before, head, tail := childNodes, childNodes[..pos], childNodes[pos + 1..];
      AdoptedSlice(before, this, 0, pos);
      AdoptedSlice(before, this, pos + 1, |before|);
      assert node !in head && node !in tail;
      assert Links(head, if tail == [] then null else tail[0]) && Links(tail, null);
      childNodes := Without(childNodes, pos);
      node.parentNode := null;
      node.nextSibling := null;
      LinksConcat(head, tail, null);
      AdoptedConcat(head, tail, this);
    }

    method InsertBefore(newNode: Node, next: Node?) returns (r: Outcome)
      requires Valid()
      requires newNode != this && newNode !in childNodes
      requires newNode.IsFragment() ==>
        && newNode.Valid()
        && this !in newNode.childNodes
        && forall k :: 0 <= k < |newNode.childNodes| ==> newNode.childNodes[k] !in childNodes
      modifies this`childNodes, newNode`childNodes, newNode`parentNode, newNode`nextSibling
      modifies (if newNode.IsFragment() then newNode.childNodes else [])`parentNode
      modifies (if newNode.IsFragment() then newNode.childNodes else [])`nextSibling
      modifies ChildBefore(next)`nextSibling
      ensures Valid()
      ensures r.Done? <==> next == null || next in old(childNodes)
      ensures r.Failed? ==> unchanged(this) && unchanged(newNode)
      ensures r.Done? ==> Inserted(newNode, next, old(InsertionPoint(next)), old(childNodes), old(newNode.childNodes))
      ensures r.Done? ==> Untouched(newNode, next, old(InsertionPoint(next)), old(childNodes), old(newNode.childNodes),
                                    old(newNode.parentNode), old(newNode.nextSibling))
    {
      var pos;
      if next != null {
        var found := FindChild(this, next);
        if found.NotAChild? {
          return Failed("Node is not a child");
        }
        pos := found.index;
      } else {
        pos := |childNodes|;
      }
      InsertAt(newNode, next, pos);
      r := Done;
    }

    /** Where `insertBefore(_, next)` puts new nodes: before `next`, or at the
        end when `next` is null. */
    function InsertionPoint(next: Node?): int
      reads this`childNodes
    {
      if next == null then |childNodes| else IndexOf(childNodes, next)
    }

    /** The state `insertBefore(newNode, next)` leaves behind, given the
        insertion point `pos`, the children `before` of this node and the
        children `moved` of `newNode` beforehand. */
    ghost predicate Inserted(newNode: Node, next: Node?, pos: int, before: seq<Node>, moved: seq<Node>)
      reads this`childNodes, newNode, moved`nextSibling, (if 0 < pos <= |before| then {before[pos - 1]} else {})`nextSibling
    {
      && 0 <= pos <= |before|
      && (!newNode.IsFragment() ==>
            && childNodes == Spliced(before, pos, [newNode])
            && newNode.parentNode == this && newNode.nextSibling == next
            && (pos > 0 ==> before[pos - 1].nextSibling == newNode))
      && (newNode.IsFragment() ==>
            && childNodes == Spliced(before, pos, moved)
            && newNode.childNodes == []
            && (moved != [] ==>
                  && moved[|moved| - 1].nextSibling == next
                  && (pos > 0 ==> before[pos - 1].nextSibling == moved[0])))
    }

    /** What `insertBefore(newNode, next)` leaves alone, given the insertion
        point `pos`, the children `before` of this node, the children `moved`
        of `newNode` and its links `parent` and `sibling` beforehand: a plain
        node keeps its own children, a fragment keeps its own links, and an
        empty fragment changes no child list and no link. */
    ghost predicate Untouched(newNode: Node, next: Node?, pos: int, before: seq<Node>, moved: seq<Node>,
                              parent: Node?, sibling: Node?)
      reads this`childNodes, newNode, (if 0 < pos <= |before| then {before[pos - 1]} else {})`nextSibling
    {
      && 0 <= pos <= |before|
      && (!newNode.IsFragment() ==> newNode.childNodes == moved)
      && (newNode.IsFragment() ==> newNode.parentNode == parent && newNode.nextSibling == sibling)
      && (newNode.IsFragment() && moved == [] ==>
            && childNodes == before && newNode.childNodes == []
            && (pos > 0 ==> before[pos - 1].nextSibling == (if pos < |before| then before[pos] else null)))
    }

    /** The two branches of `insertBefore` once the insertion point is known. */
    method InsertAt(newNode: Node, next: Node?, pos: nat)
      requires Valid()
      requires newNode != this && newNode !in childNodes
      requires newNode.IsFragment() ==>
        && newNode.Valid()
        && this !in newNode.childNodes
        && forall k :: 0 <= k < |newNode.childNodes| ==> newNode.childNodes[k] !in childNodes
      requires pos <= |childNodes| && next == (if pos < |childNodes| then childNodes[pos] else null)
      modifies this`childNodes, newNode`childNodes, newNode`parentNode, newNode`nextSibling
      modifies (if newNode.IsFragment() then newNode.childNodes else [])`parentNode
      modifies (if newNode.IsFragment() then newNode.childNodes else [])`nextSibling
      modifies (if pos > 0 then {childNodes[pos - 1]} else {})`nextSibling
      ensures Valid()
      ensures Inserted(newNode, next, pos, old(childNodes), old(newNode.childNodes))
      ensures Untouched(newNode, next, pos, old(childNodes), old(newNode.childNodes),
                        old(newNode.parentNode), old(newNode.nextSibling))
    {
      if newNode.IsFragment() {
        if |newNode.childNodes| > 0 {
          InsertFragment(newNode, next, pos);
        } else {
          assert childNodes == Spliced(childNodes, pos, []);
        }
      } else {
        InsertNode(newNode, next, pos);
      }
    }

    /** The non-fragment branch of `insertBefore`. */
    method InsertNode(newNode: Node, next: Node?, pos: nat)
      requires Valid() && newNode != this && newNode !in childNodes
      requires pos <= |childNodes| && next == (if pos < |childNodes| then childNodes[pos] else null)
      modifies this`childNodes, newNode`parentNode, newNode`nextSibling
      modifies (if pos > 0 then {childNodes[pos - 1]} else {})`nextSibling
      ensures Valid()
      ensures childNodes == Spliced(old(childNodes), pos, [newNode])
      ensures newNode.parentNode == this && newNode.nextSibling == next
      ensures pos > 0 ==> old(childNodes)[pos - 1].nextSibling == newNode
    {
      ghost var before := childNodes;
      ghost var head, tail := before[..pos], before[pos..];
      LinksSplit(before, null, pos);
      AdoptedSlice(before, this, 0, pos);
      AdoptedSlice(before, this, pos, |before|);
      if pos > 0 {
        LinksSplit(head, next, pos - 1);
        assert head[pos - 1] !in tail && head[pos - 1] !in head[..pos - 1];
        LinkLast(childNodes[..pos], newNode);
      }
      childNodes := Spliced(childNodes, pos, [newNode]);
      newNode.parentNode := this;
      newNode.nextSibling := next;
      LinksConcat(head, [newNode], next);
      LinksConcat(head + [newNode], tail, null);
      AdoptedConcat(head, [newNode], this);
      AdoptedConcat(head + [newNode], tail, this);
    }

    /** The fragment branch of `insertBefore`: link the fragment's last child
        to `next` and the node before the insertion point to its first child,
        splice the children in at `pos`, adopt them and empty the fragment. */
    method InsertFragment(frag: Node, next: Node?, pos: nat)
      requires Valid() && frag.Valid() && frag != this && frag !in childNodes
      requires |frag.childNodes| > 0 && this !in frag.childNodes
      requires forall k :: 0 <= k < |frag.childNodes| ==> frag.childNodes[k] !in childNodes
      requires pos <= |childNodes| && next == (if pos < |childNodes| then childNodes[pos] else null)
      modifies this`childNodes, frag`childNodes, frag.childNodes`parentNode, frag.childNodes`nextSibling
      modifies (if pos > 0 then {childNodes[pos - 1]} else {})`nextSibling
      ensures Valid()
      ensures childNodes == Spliced(old(childNodes), pos, old(frag.childNodes))
      ensures frag.childNodes == []
      ensures old(frag.childNodes)[|old(frag.childNodes)| - 1].nextSibling == next
      ensures pos > 0 ==> old(childNodes)[pos - 1].nextSibling == old(frag.childNodes)[0]
    {
      var kids := frag.childNodes;
      LinkEnds(frag, next, pos);
      Graft(kids, next, pos);
      frag.childNodes := [];
    }

    /** `splice(pos, 0, ...kids)` and the loop adopting the spliced nodes,
        once the nodes before and after the insertion point are linked to
        them. */
    method Graft(kids: seq<Node>, next: Node?, pos: nat)
      requires Distinct(childNodes) && this !in childNodes && Adopted(childNodes, this)
      requires Distinct(kids) && this !in kids && |kids| > 0
      requires forall k :: 0 <= k < |kids| ==> kids[k] !in childNodes
      requires pos <= |childNodes| && next == (if pos < |childNodes| then childNodes[pos] else null)
      requires Links(childNodes[..pos], kids[0]) && Links(kids, next) && Links(childNodes[pos..], null)
      modifies this`childNodes, kids`parentNode
      ensures Valid()
      ensures childNodes == Spliced(old(childNodes), pos, kids)
    {
      ghost var before := childNodes;
      ghost var head, tail := before[..pos], before[pos..];
      AdoptedSlice(before, this, 0, pos);
      AdoptedSlice(before, this, pos, |before|);
      assert forall k :: 0 <= k < |head| ==> head[k] !in kids;
      assert forall k :: 0 <= k < |tail| ==> tail[k] !in kids;
      childNodes := Spliced(childNodes, pos, kids);
      AdoptAll(kids);
      LinksConcat(head, kids, next);
      LinksConcat(head + kids, tail, null);
      AdoptedConcat(head, kids, this);
      AdoptedConcat(head + kids, tail, this);
    }

    /** The two `nextSibling` writes of the fragment branch: the fragment's
        last child now leads to `next`, and the node before the insertion
        point to the fragment's first child. */
    method LinkEnds(frag: Node, next: Node?, pos: nat)
      requires Valid() && frag.Valid() && |frag.childNodes| > 0
      requires forall k :: 0 <= k < |frag.childNodes| ==> frag.childNodes[k] !in childNodes
      requires pos <= |childNodes| && next == (if pos < |childNodes| then childNodes[pos] else null)
      modifies frag.LastChild()`nextSibling, (if pos > 0 then {childNodes[pos - 1]} else {})`nextSibling
      ensures Links(childNodes[..pos], frag.childNodes[0])
      ensures Links(frag.childNodes, next)
      ensures Links(childNodes[pos..], null)
      ensures frag.childNodes[|frag.childNodes| - 1].nextSibling == next
      ensures pos > 0 ==> childNodes[pos - 1].nextSibling == frag.childNodes[0]
    {
      var kids := frag.childNodes;
      ghost var n := |kids|;
      ghost var head, tail := childNodes[..pos], childNodes[pos..];
      LinksSplit(childNodes, null, pos);
      LinksSplit(kids, null, n - 1);
      assert kids[n - 1] !in head && kids[n - 1] !in tail && kids[n - 1] !in kids[..n - 1];
      LinkLast(kids, next);
      if pos > 0 {
        LinksSplit(head, next, pos - 1);
        assert head[pos - 1] !in tail && head[pos - 1] !in kids && head[pos - 1] !in head[..pos - 1];
        LinkLast(childNodes[..pos], frag.FirstChild());
      }
    }

    /** The loop of `insertBefore` that sets `parentNode` on every node
        taken from the fragment. */
    method AdoptAll(kids: seq<Node>)
      modifies kids`parentNode
      ensures Adopted(kids, this)
    {
      var i := 0;
      while i < |kids|
        invariant 0 <= i <= |kids|
        invariant Adopted(kids[..i], this)
      {
        kids[i].parentNode := this;
        i := i + 1;
      }
    }

    /** `setAttribute` changes the entry for `name` and no other. */
    method SetAttribute(name: string, value: string)
      modifies this`attributes
      ensures name in attributes && attributes[name] == value
      ensures forall key :: key != name ==>
        (key in attributes <==> key in old(attributes)) && (key in attributes ==> attributes[key] == old(attributes)[key])
    {
      attributes := attributes[name := value];
    }

    /** `removeAttribute` deletes the entry for `name` and no other. */
    method RemoveAttribute(name: string)
      modifies this`attributes
      ensures name !in attributes
      ensures forall key :: key != name ==>
        (key in attributes <==> key in old(attributes)) && (key in attributes ==> attributes[key] == old(attributes)[key])
    {
      attributes := attributes - {name};
    }
  }

  /** An element with one child appended to an empty parent: the parent
      holds the element, and the element still holds its child, linked. */
  method NestingScenario() returns (parent: Node, element: Node, child: Node)
    ensures parent.childNodes == [element] && element.parentNode == parent
    ensures element.childNodes == [child] && child.parentNode == element
    ensures parent.Valid() && element.Valid()
  {
    parent := new Node(ElementType, "div");
    element := new Node(ElementType, "p");
    child := new Node(TextType, "#text");
    var r := element.InsertBefore(child, null);
    r := parent.InsertBefore(element, null);
  }

  /** Every node of `s` has `parent` as its `parentNode`. */
  ghost predicate Adopted(s: seq<Node>, parent: Node)
    reads s`parentNode
  {
    forall k {:trigger s[k].parentNode} :: 0 <= k < |s| ==> s[k].parentNode == parent
  }

  lemma AdoptedSlice(s: seq<Node>, parent: Node, i: nat, j: nat)
    requires Adopted(s, parent) && i <= j <= |s|
    ensures Adopted(s[i..j], parent)
  {
    forall k | 0 <= k < j - i ensures s[i..j][k].parentNode == parent {
      assert s[i..j][k] == s[i + k];
    }
  }

  lemma AdoptedConcat(a: seq<Node>, b: seq<Node>, parent: Node)
    requires Adopted(a, parent) && Adopted(b, parent)
    ensures Adopted(a + b, parent)
  {
    forall k | 0 <= k < |a + b| ensures (a + b)[k].parentNode == parent {
      if k < |a| {
        assert (a + b)[k] == a[k];
      } else {
        assert (a + b)[k] == b[k - |a|];
      }
    }
  }

  /** Following `nextSibling` from each node of `s` reaches the node after it,
      and from the last one reaches `last`. */
  ghost predicate Links(s: seq<Node>, last: Node?)
    reads s`nextSibling
  {
    forall k {:trigger s[k].nextSibling} :: 0 <= k < |s| ==> s[k].nextSibling == (if k + 1 < |s| then s[k + 1] else last)
  }

  /** Point the last node of `run` at `target`, the rest of the run still
      leading up to that node. */
  method LinkLast(run: seq<Node>, target: Node?)
    requires |run| > 0 && Links(run[..|run| - 1], run[|run| - 1]) && run[|run| - 1] !in run[..|run| - 1]
    modifies {run[|run| - 1]}`nextSibling
    ensures Links(run, target)
  {
    var last := run[|run| - 1];
    last.nextSibling := target;
    LinksConcat(run[..|run| - 1], [last], target);
    assert run[..|run| - 1] + [last] == run;
  }

  /** A linked run cut at `pos` is two linked runs, the first ending at the
      node where the second starts. */
  lemma LinksSplit(s: seq<Node>, last: Node?, pos: nat)
    requires Links(s, last) && pos <= |s|
    ensures Links(s[..pos], if pos < |s| then s[pos] else last)
    ensures Links(s[pos..], last)
  {
    var head, tail := s[..pos], s[pos..];
    forall k | 0 <= k < |head|
      ensures head[k].nextSibling == (if k + 1 < |head| then head[k + 1] else if pos < |s| then s[pos] else last)
    {
      assert head[k] == s[k];
    }
    forall k | 0 <= k < |tail|
      ensures tail[k].nextSibling == (if k + 1 < |tail| then tail[k + 1] else last)
    {
      assert tail[k] == s[pos + k];
    }
  }

  /** Two linked runs, the first ending where the second starts, are one. */
  lemma LinksConcat(a: seq<Node>, b: seq<Node>, last: Node?)
    requires Links(a, if b == [] then last else b[0]) && Links(b, last)
    ensures Links(a + b, last)
  {
    var s := a + b;
    forall k | 0 <= k < |s|
      ensures s[k].nextSibling == (if k + 1 < |s| then s[k + 1] else last)
    {
      if k < |a| {
        assert s[k] == a[k];
      } else {
        assert s[k] == b[k - |a|];
      }
    }
  }

  /** `findChild`: the position of `node` among `parent`'s children, or the
      error `findChild` throws when it is not one of them. */
  function FindChild(parent: Node, node: Node): (r: Position)
    reads parent
    ensures r.NotAChild? <==> node !in parent.childNodes
    ensures r.At? ==> r.index < |parent.childNodes| && parent.childNodes[r.index] == node
                      && node !in parent.childNodes[..r.index]
  {
    var i := IndexOf(parent.childNodes, node);
    if i < 0 then NotAChild else At(i)
  }
}
