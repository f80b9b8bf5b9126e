/** The links of a Pintos list, enough for the end of process_exit: list_pop_front already
    unlinks the element, and the list_remove that follows finds its old links. */
module ListLinks {
  import opened Descriptors

  type Node = int

  datatype Links = Links(next: map<Node, Node>, prev: map<Node, Node>)

  ghost predicate Linked(l: Links, a: Node, b: Node) {
    a in l.next && l.next[a] == b && b in l.prev && l.prev[b] == a
  }

  /** nodes are linked in this order; the first and the last are the list's head and tail. */
  ghost predicate Chain(l: Links, nodes: seq<Node>) {
    && (forall i, j :: 0 <= i < j < |nodes| ==> nodes[i] != nodes[j])
    && (forall i :: 0 < i < |nodes| ==> Linked(l, nodes[i - 1], nodes[i]))
  }

  /** list_remove: e's neighbours are linked to each other; e keeps its own links. */
  function ListRemove(l: Links, e: Node): Links
    requires e in l.next && e in l.prev
  {
    Links(l.next[l.prev[e] := l.next[e]], l.prev[l.next[e] := l.prev[e]])
  }

  lemma RemoveKeepsChain(l: Links, nodes: seq<Node>, k: nat)
    requires Chain(l, nodes) && 0 < k < |nodes| - 1
    ensures nodes[k] in l.next && nodes[k] in l.prev
    ensures Chain(ListRemove(l, nodes[k]), nodes[..k] + nodes[k + 1..])
  {
    var rest := nodes[..k] + nodes[k + 1..];
    assert Linked(l, nodes[k - 1], nodes[k]) && Linked(l, nodes[k], nodes[k + 1]);
    forall i | 0 < i < |rest|
      ensures Linked(ListRemove(l, nodes[k]), rest[i - 1], rest[i])
    {
      if i != k {
        var m := if i < k then i else i + 1;
        assert Linked(l, nodes[m - 1], nodes[m]);
      }
    }
  }

  /** list_remove on an element that has just been removed does nothing. */
  lemma SecondRemoveIsHarmless(l: Links, nodes: seq<Node>, k: nat)
    requires Chain(l, nodes) && 0 < k < |nodes| - 1
    ensures nodes[k] in l.next && nodes[k] in l.prev
    ensures var u := ListRemove(l, nodes[k]);
            && Chain(u, nodes[..k] + nodes[k + 1..])
            && nodes[k] in u.next && nodes[k] in u.prev && ListRemove(u, nodes[k]) == u
  {
    RemoveKeepsChain(l, nodes, k);
    assert Linked(l, nodes[k - 1], nodes[k]) && Linked(l, nodes[k], nodes[k + 1]);
    hide Chain;
  }

  // ---------- The loop of process_exit on the links ----------

  function ElementsOf(nodes: seq<Node>, element: map<Node, FdElement>): seq<FdElement>
    requires forall i :: 0 <= i < |nodes| ==> nodes[i] in element
  {
    seq(|nodes|, i requires 0 <= i < |nodes| => element[nodes[i]])
  }

  /** fd_list as its links: nodes are the list elements between head and tail, and element
      gives the struct fd_element each is embedded in. */
  class FdLinks {
    var links: Links
    const head: Node
    const tail: Node
    const element: map<Node, FdElement>
    ghost var nodes: seq<Node>

    ghost predicate Valid()
      reads this
    {
      && Chain(links, [head] + nodes + [tail])
      && (forall i :: 0 <= i < |nodes| ==> nodes[i] in element)
    }

    constructor (links: Links, head: Node, tail: Node, element: map<Node, FdElement>, ghost nodes: seq<Node>)
      requires Chain(links, [head] + nodes + [tail]) && forall i :: 0 <= i < |nodes| ==> nodes[i] in element
      ensures Valid() && this.links == links && this.element == element && this.nodes == nodes
    {
      this.links, this.head, this.tail, this.element, this.nodes := links, head, tail, element, nodes;
    }

    method IsEmpty() returns (empty: bool)
      requires Valid()
      ensures empty <==> nodes == []
    {
      ListEnds(links, head, nodes, tail);
      empty := links.next[head] == tail;
    }

    /** list_pop_front; a further list_remove of its result would change nothing. */
    method PopFront() returns (e: Node)
      requires Valid() && nodes != []
      modifies this
      ensures Valid() && e == old(nodes)[0] && nodes == old(nodes)[1..]
      ensures e in links.next && e in links.prev && ListRemove(links, e) == links
    {
      ListEnds(links, head, nodes, tail);
      e := links.next[head];
      SecondRemoveIsHarmless(links, [head] + nodes + [tail], 1);
      RestOfList(head, nodes, tail);
      hide Chain;
      links := ListRemove(links, e);
      nodes := nodes[1..];
    }

    /** Closes every file on the list, in the order that CloseAll appends them, and leaves
        an empty, intact list although each element is removed twice. */
    method CloseRemaining() returns (closed: seq<File>)
      requires Valid()
      modifies this
      ensures Valid() && nodes == []
      ensures closed == FileList(ElementsOf(old(nodes), element))
      ensures forall s: Table :: s.fdList == ElementsOf(old(nodes), element) ==>
                CloseAll(s) == s.(fdList := [], everClosed := s.everClosed + closed)
    {
      closed := [];
      ghost var was, done := nodes, 0;
      var empty := IsEmpty();
      while !empty
        invariant Valid() && (empty <==> nodes == [])
        invariant done <= |was| && nodes == was[done..] && |closed| == done
        invariant forall i :: 0 <= i < done ==> closed[i] == element[was[i]].file
        decreases |nodes|
      {
        var e := PopFront();
        closed := closed + [element[e].file];
        links := ListRemove(links, e);
        done := done + 1;
        empty := IsEmpty();
      }
    }
  }

  lemma ListEnds(l: Links, head: Node, nodes: seq<Node>, tail: Node)
    requires Chain(l, [head] + nodes + [tail])
    ensures head in l.next
    ensures l.next[head] == if nodes == [] then tail else nodes[0]
    ensures nodes != [] ==> nodes[0] != tail
  {
    var all := [head] + nodes + [tail];
    assert Linked(l, all[0], all[1]);
    assert nodes != [] ==> all[1] == nodes[0] && all[|all| - 1] == tail && all[1] != all[|all| - 1];
  }

  lemma RestOfList(head: Node, nodes: seq<Node>, tail: Node)
    requires nodes != []
    ensures var all := [head] + nodes + [tail];
            all[1] == nodes[0] && all[..1] + all[2..] == [head] + nodes[1..] + [tail]
  {}
}
