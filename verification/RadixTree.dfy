/**
 The copy-on-write tree on the heap (internal/radix: node.go, tree.go, mutate.go, query.go, resolve.go).
 Rep ties a node to the trie it denotes. Nodes may be shared between versions: writers only
 write to what they allocated, so every version ever published keeps its meaning.
 */
module RadixTree {
  import opened Octets
  import opened Records
  import opened Names
  import opened Zones
  import opened Tries
  import opened Resolution
  import AnswerMeanings

  datatype Link = Link(lab: Label, node: Node)

  class Node {
    var wildcard: Node?
    var rrsets: RRSets
    var children: array<Link>

    constructor ()
      ensures wildcard == null && rrsets == [] && children.Length == 0 && fresh(children)
    {
      wildcard, rrsets := null, [];
      children := new Link[0];
    }

    constructor Copy(wildcard: Node?, rrsets: RRSets, source: array<Link>)
      ensures this.wildcard == wildcard && this.rrsets == rrsets
      ensures children[..] == source[..] && fresh(children)
    {
      this.wildcard, this.rrsets := wildcard, rrsets;
      children := new Link[source.Length](i requires 0 <= i < source.Length reads source => source[i]);
    }

    /** Shallow copy with its own edge array. */
    method Clone() returns (c: Node)
      ensures fresh(c) && fresh(c.children)
      ensures c.wildcard == wildcard && c.rrsets == rrsets && c.children[..] == children[..]
    {
      c := new Node.Copy(wildcard, rrsets, children);
    }
  }

  // ---- what a node denotes ----

  /** Node n denotes t, and everything reachable from n lies in r. */
  ghost predicate Rep(n: Node, t: Trie, r: set<object>)
    reads r
    decreases t
  {
    && n in r && n.children in r
    && n.rrsets == t.rr
    && (n.wildcard == null <==> t.wild.None?)
    && (n.wildcard != null ==> Rep(n.wildcard, t.wild.value, r))
    && n.children.Length == |t.kids|
    && forall i :: 0 <= i < |t.kids| ==>
         n.children[i].lab == t.kids[i].lab && Rep(n.children[i].node, t.kids[i].sub, r)
  }

  ghost predicate RepWild(w: Node?, t: Option<Trie>, r: set<object>)
    reads r
  {
    && (w == null <==> t.None?)
    && (w != null ==> Rep(w, t.value, r))
  }

  ghost predicate RepLinks(a: seq<Link>, kids: seq<Edge>, r: set<object>)
    reads r
  {
    && |a| == |kids|
    && forall i :: 0 <= i < |kids| ==> a[i].lab == kids[i].lab && Rep(a[i].node, kids[i].sub, r)
  }

  /** Rep for a node that is itself outside r. */
  ghost predicate Loose(n: Node, t: Trie, r: set<object>)
    reads n, n.children, r
  {
    n.rrsets == t.rr && RepWild(n.wildcard, t.wild, r) && RepLinks(n.children[..], t.kids, r)
  }

  lemma {:induction false} RepGrows(n: Node, t: Trie, r: set<object>, r': set<object>)
    requires Rep(n, t, r) && r <= r'
    ensures Rep(n, t, r')
    decreases t
  {
    if n.wildcard != null { RepGrows(n.wildcard, t.wild.value, r, r'); }
    forall i | 0 <= i < |t.kids| ensures Rep(n.children[i].node, t.kids[i].sub, r') {
      RepGrows(n.children[i].node, t.kids[i].sub, r, r');
    }
  }

  lemma RepLoose(n: Node, t: Trie, r: set<object>)
    requires Rep(n, t, r)
    ensures Loose(n, t, r)
  {
  }

  lemma LooseRep(n: Node, t: Trie, r: set<object>, r': set<object>)
    requires Loose(n, t, r) && r <= r' && n in r' && n.children in r'
    ensures Rep(n, t, r')
  {
    if n.wildcard != null { RepGrows(n.wildcard, t.wild.value, r, r'); }
    forall i | 0 <= i < |t.kids|
      ensures n.children[i].lab == t.kids[i].lab && Rep(n.children[i].node, t.kids[i].sub, r')
    {
      assert n.children[..][i] == n.children[i];
      RepGrows(n.children[i].node, t.kids[i].sub, r, r');
    }
  }

  // ---- edge search ----

  ghost predicate SortedLinks(a: seq<Link>) {
    forall i, j :: 0 <= i < j < |a| ==> Less(a[i].lab, a[j].lab)
  }

  /** Linear scan up to 16 edges, binary search above: the position of lab, or where it belongs. */
  method FindEdge(edges: array<Link>, lab: Label) returns (idx: nat, found: bool)
    requires SortedLinks(edges[..])
    ensures idx <= edges.Length
    ensures forall j :: 0 <= j < idx ==> Less(edges[j].lab, lab)
    ensures forall j :: idx <= j < edges.Length ==> !Less(edges[j].lab, lab)
    ensures found <==> exists j :: 0 <= j < edges.Length && edges[j].lab == lab
    ensures found ==> idx < edges.Length && edges[idx].lab == lab
  {
    var n := edges.Length;
    assert forall i, j :: 0 <= i < j < n ==> Less(edges[i].lab, edges[j].lab) by {
      assert forall i :: 0 <= i < n ==> edges[..][i] == edges[i];
    }
    LessIrreflexive(lab);
    if n <= 16 {
      for i := 0 to n
        invariant forall j :: 0 <= j < i ==> Less(edges[j].lab, lab)
      {
        if edges[i].lab == lab {
          AboveStays(edges[..], i, lab);
          return i, true;
        }
        if Less(lab, edges[i].lab) {
          AboveStays(edges[..], i, lab);
          return i, false;
        }
        LessTotal(edges[i].lab, lab);
      }
      return n, false;
    }
    var l: int, r: int := 0, n - 1;
    while l <= r
      invariant 0 <= l <= r + 1 <= n
      invariant forall j :: 0 <= j < l ==> Less(edges[j].lab, lab)
      invariant forall j :: r < j < n ==> Less(lab, edges[j].lab)
    {
      var m := (l + r) / 2;
      if edges[m].lab == lab {
        AboveStays(edges[..], m, lab);
        return m, true;
      }
      if Less(edges[m].lab, lab) {
        BelowStays(edges[..], m, lab);
        l := m + 1;
      } else {
        LessTotal(edges[m].lab, lab);
        AboveStays(edges[..], m, lab);
        r := m - 1;
      }
    }
    assert l == r + 1;
    AllAbove(edges[..], l, lab);
    return l, false;
  }

  lemma AboveStays(a: seq<Link>, i: nat, lab: Label)
    requires SortedLinks(a) && i < |a| && (a[i].lab == lab || Less(lab, a[i].lab))
    ensures forall j :: i < j < |a| ==> Less(lab, a[j].lab)
    ensures forall j :: i <= j < |a| ==> !Less(a[j].lab, lab)
    ensures forall j :: i < j < |a| ==> a[j].lab != lab
  {
    LessIrreflexive(lab);
    forall j | i <= j < |a|
      ensures (j > i ==> Less(lab, a[j].lab)) && !Less(a[j].lab, lab) && (j > i ==> a[j].lab != lab)
    {
      if j > i && a[i].lab != lab { LessTransitive(lab, a[i].lab, a[j].lab); }
      if Less(a[j].lab, lab) && Less(lab, a[j].lab) { LessTransitive(lab, a[j].lab, lab); }
    }
  }

  lemma AllAbove(a: seq<Link>, i: nat, lab: Label)
    requires i <= |a| && forall j :: i <= j < |a| ==> Less(lab, a[j].lab)
    ensures forall j :: i <= j < |a| ==> !Less(a[j].lab, lab) && a[j].lab != lab
  {
    LessIrreflexive(lab);
    forall j | i <= j < |a| ensures !Less(a[j].lab, lab) && a[j].lab != lab {
      if Less(a[j].lab, lab) { LessTransitive(lab, a[j].lab, lab); }
    }
  }

  lemma BelowStays(a: seq<Link>, i: nat, lab: Label)
    requires SortedLinks(a) && i < |a| && Less(a[i].lab, lab)
    ensures forall j :: 0 <= j <= i ==> Less(a[j].lab, lab)
  {
    forall j | 0 <= j < i ensures Less(a[j].lab, lab) {
      LessTransitive(a[j].lab, a[i].lab, lab);
    }
  }

  /** The position FindEdge reports is the slot of the trie's edges. */
  lemma FindEdgeIsSlot(a: seq<Link>, kids: seq<Edge>, lab: Label, idx: nat)
    requires |a| == |kids| && forall i :: 0 <= i < |a| ==> a[i].lab == kids[i].lab
    requires idx <= |a| && (forall j :: 0 <= j < idx ==> Less(a[j].lab, lab))
    requires forall j :: idx <= j < |a| ==> !Less(a[j].lab, lab)
    ensures idx == Slot(kids, lab, 0)
    ensures HasKid(kids, lab) <==> idx < |a| && a[idx].lab == lab
  {
    LessIrreflexive(lab);
  }

  /** The child of n under lab, and its edge position: one step of findNode, Get, Resolve and deletePath. */
  method StepDown(n: Node, lab: Label, ghost t: Trie, ghost r: set<object>) returns (c: Node?, idx: nat)
    requires Rep(n, t, r) && WF(t)
    ensures RepWild(c, Child(t, lab), r)
    ensures lab != WILD ==> idx == Slot(t.kids, lab, 0)
  {
    if lab == WILD {
      return n.wildcard, 0;
    }
    RepSorted(n, t, r);
    var found;
    idx, found := FindEdge(n.children, lab);
    FindEdgeIsSlot(n.children[..], t.kids, lab, idx);
    if !found { return null, idx; }
    c := n.children[idx].node;
  }

  lemma RepSorted(n: Node, t: Trie, r: set<object>)
    requires Loose(n, t, r) && Sorted(t.kids)
    ensures SortedLinks(n.children[..])
    ensures forall i :: 0 <= i < n.children.Length ==> n.children[..][i].lab == t.kids[i].lab
  {
  }

  // ---- a path under construction ----

  /** n is like t, except that its child under lab is the node c, whatever c denotes. */
  ghost predicate Hooked(n: Node, t: Trie, lab: Label, c: Node, r: set<object>)
    reads n, n.children, r
  {
    && n.rrsets == t.rr
    && if lab == WILD then
         n.wildcard == c && RepLinks(n.children[..], t.kids, r)
       else
         && RepWild(n.wildcard, t.wild, r)
         && HookedLinks(n.children[..], t.kids, lab, c, r)
  }

  ghost predicate HookedLinks(a: seq<Link>, kids: seq<Edge>, lab: Label, c: Node, r: set<object>)
    reads r
  {
    var k := SetKid(kids, lab, Some(EMPTY));
    && |a| == |k|
    && forall j :: 0 <= j < |k| ==>
         && a[j].lab == k[j].lab
         && if j == Slot(kids, lab, 0) then a[j].node == c else Rep(a[j].node, k[j].sub, r)
  }

  lemma HookedRep(n: Node, t: Trie, lab: Label, c: Node, ct: Trie, r: set<object>, r': set<object>)
    requires Hooked(n, t, lab, c, r) && Rep(c, ct, r') && r <= r' && n in r' && n.children in r'
    ensures Rep(n, SetChild(t, lab, Some(ct)), r')
  {
    var t' := SetChild(t, lab, Some(ct));
    if lab == WILD {
      forall j | 0 <= j < |t'.kids|
        ensures n.children[j].lab == t'.kids[j].lab && Rep(n.children[j].node, t'.kids[j].sub, r')
      {
        assert n.children[..][j] == n.children[j];
        RepGrows(n.children[j].node, t.kids[j].sub, r, r');
      }
    } else {
      if n.wildcard != null { RepGrows(n.wildcard, t.wild.value, r, r'); }
      var k := SetKid(t.kids, lab, Some(EMPTY));
      forall j | 0 <= j < |t'.kids|
        ensures n.children[j].lab == t'.kids[j].lab && Rep(n.children[j].node, t'.kids[j].sub, r')
      {
        assert n.children[..][j] == n.children[j];
        assert t'.kids[j] == if j == Slot(t.kids, lab, 0) then Edge(lab, ct) else k[j];
        if j != Slot(t.kids, lab, 0) { RepGrows(n.children[j].node, k[j].sub, r, r'); }
      }
    }
  }

  /** The nodes copied so far, root first, and the tries they were copied from. */
  ghost predicate Spine(spine: seq<Node>, ts: seq<Trie>, p: Path, r: set<object>, made: set<object>)
    requires |spine| == |ts| && 0 < |ts| <= |p| + 1
    reads made, r
  {
    forall j :: 0 <= j < |spine| - 1 ==>
      && spine[j] in made && spine[j].children in made
      && ts[j + 1] == OrEmpty(Child(ts[j], p[j]))
      && Hooked(spine[j], ts[j], p[j], spine[j + 1], r)
  }

  lemma SpineStarts(n: Node, t: Trie, p: Path, r: set<object>)
    ensures Spine([n], [t], p, r, {})
  {
  }

  lemma SpineGrows(spine: seq<Node>, ts: seq<Trie>, p: Path, r: set<object>, made: set<object>, child: Node)
    requires |spine| == |ts| && 0 < |ts| <= |p| && Spine(spine, ts, p, r, made)
    requires var i := |ts| - 1; Hooked(spine[i], ts[i], p[i], child, r)
    ensures var i := |ts| - 1;
            Spine(spine + [child], ts + [OrEmpty(Child(ts[i], p[i]))], p, r, made + {spine[i], spine[i].children})
  {
  }

  /** Once the last copied node denotes the updated subtree, every node above it does. */
  lemma {:induction false} SpineRep(spine: seq<Node>, ts: seq<Trie>, p: Path, r: set<object>, made: set<object>,
                                    rr: RRSets, r': set<object>, j: nat)
    requires |spine| == |ts| == |p| + 1 && j <= |p|
    requires Spine(spine, ts, p, r, made) && r <= r' && made <= r'
    requires Rep(spine[|p|], ts[|p|].(rr := rr), r')
    ensures Rep(spine[j], Put(ts[j], p[j..], rr), r')
    decreases |p| - j
  {
    if j == |p| {
      assert p[j..] == [];
    } else {
      SpineRep(spine, ts, p, r, made, rr, r', j + 1);
      assert p[j..][0] == p[j] && p[j..][1..] == p[j + 1..];
      var ct := Put(ts[j + 1], p[j + 1..], rr);
      HookedRep(spine[j], ts[j], p[j], spine[j + 1], ct, r, r');
    }
  }

  lemma InsertHooks(was: seq<Link>, kids: seq<Edge>, lab: Label, c: Node, r: set<object>)
    requires RepLinks(was, kids, r) && !HasKid(kids, lab)
    ensures var i := Slot(kids, lab, 0); HookedLinks(was[..i] + [Link(lab, c)] + was[i..], kids, lab, c, r)
  {
    var i := Slot(kids, lab, 0);
    var now := was[..i] + [Link(lab, c)] + was[i..];
    var k := SetKid(kids, lab, Some(EMPTY));
    forall j | 0 <= j < |k|
      ensures now[j].lab == k[j].lab && if j == i then now[j].node == c else Rep(now[j].node, k[j].sub, r)
    {
      if j > i { assert now[j] == was[j - 1] && k[j] == kids[j - 1]; }
    }
  }

  lemma ReplaceHooks(was: seq<Link>, kids: seq<Edge>, lab: Label, c: Node, r: set<object>)
    requires RepLinks(was, kids, r) && HasKid(kids, lab)
    ensures var i := Slot(kids, lab, 0); HookedLinks(was[i := Link(lab, c)], kids, lab, c, r)
  {
  }

  /** slices.Insert on a slice without spare capacity. */
  method InsertLink(a: array<Link>, idx: nat, e: Link) returns (b: array<Link>)
    requires idx <= a.Length
    ensures fresh(b) && b[..] == a[..idx] + [e] + a[idx..]
  {
    b := new Link[a.Length + 1](
      j requires 0 <= j <= a.Length && idx <= a.Length reads a =>
        if j < idx then a[j] else if j == idx then e else a[j - 1]);
  }

  /** slices.Delete of one element. */
  method DeleteLink(a: array<Link>, idx: nat) returns (b: array<Link>)
    requires idx < a.Length
    ensures fresh(b) && b[..] == a[..idx] + a[idx + 1..]
  {
    b := new Link[a.Length - 1](
      j requires 0 <= j < a.Length - 1 reads a => if j < idx then a[j] else a[j + 1]);
  }

  method CopyWildcard(cur: Node, ghost t: Trie, ghost r: set<object>) returns (child: Node)
    requires Loose(cur, t, r) && cur !in r && cur.children !in r
    modifies cur
    ensures Hooked(cur, t, WILD, child, r)
    ensures Loose(child, OrEmpty(t.wild), r)
    ensures fresh(child) && fresh(child.children)
    ensures cur.children == old(cur.children)
  {
    if cur.wildcard == null {
      child := new Node();
    } else {
      child := cur.wildcard.Clone();
    }
    cur.wildcard := child;
  }

  method CopyEdge(cur: Node, lab: Label, ghost t: Trie, ghost r: set<object>) returns (child: Node)
    requires Loose(cur, t, r) && WF(t) && cur !in r && cur.children !in r && lab != WILD
    modifies cur, cur.children
    ensures Hooked(cur, t, lab, child, r)
    ensures Loose(child, OrEmpty(Child(t, lab)), r)
    ensures fresh(child) && fresh(child.children) && child.children != cur.children
    ensures cur.children == old(cur.children) || fresh(cur.children)
  {
    hide SetKid, Slot, HasKid, WF, Sorted, SortedLinks, HookedLinks;
    assert Sorted(t.kids) by { WFSorted(t); }
    RepSorted(cur, t, r);
    var idx, found := FindEdge(cur.children, lab);
    FindEdgeIsSlot(cur.children[..], t.kids, lab, idx);
    if found {
      child := ReplaceEdge(cur, lab, idx, t, r);
    } else {
      child := InsertEdge(cur, lab, idx, t, r);
    }
  }

  method InsertEdge(cur: Node, lab: Label, idx: nat, ghost t: Trie, ghost r: set<object>) returns (child: Node)
    requires Loose(cur, t, r) && cur !in r && cur.children !in r && lab != WILD
    requires !HasKid(t.kids, lab) && idx == Slot(t.kids, lab, 0)
    modifies cur
    ensures Hooked(cur, t, lab, child, r)
    ensures Loose(child, OrEmpty(Child(t, lab)), r)
    ensures fresh(child) && fresh(child.children) && child.children != cur.children
    ensures fresh(cur.children)
  {
    hide SetKid, Slot, HasKid, HookedLinks;
    ghost var was := cur.children[..];
    child := new Node();
    var b := InsertLink(cur.children, idx, Link(lab, child));
    assert cur.children[..idx] == was[..idx] && cur.children[idx..] == was[idx..];
    cur.children := b;
    InsertHooks(was, t.kids, lab, child, r);
  }

  method ReplaceEdge(cur: Node, lab: Label, idx: nat, ghost t: Trie, ghost r: set<object>) returns (child: Node)
    requires Loose(cur, t, r) && cur !in r && cur.children !in r && lab != WILD
    requires HasKid(t.kids, lab) && idx == Slot(t.kids, lab, 0)
    modifies cur.children
    ensures Hooked(cur, t, lab, child, r)
    ensures Loose(child, OrEmpty(Child(t, lab)), r)
    ensures fresh(child) && fresh(child.children) && child.children != cur.children
  {
    hide SetKid, Slot, HookedLinks;
    var a := cur.children;
    ghost var was := a[..];
    child := a[idx].node.Clone();
    a[idx] := Link(lab, child);
    assert a[..] == was[idx := Link(lab, child)];
    ReplaceHooks(was, t.kids, lab, child, r);
  }

  /** Steps cur down to its child under lab, copying or creating it, and hooks the copy in. */
  method CopyChild(cur: Node, lab: Label, ghost t: Trie, ghost r: set<object>) returns (child: Node)
    requires Loose(cur, t, r) && WF(t) && cur !in r && cur.children !in r
    modifies cur, cur.children
    ensures Hooked(cur, t, lab, child, r)
    ensures Loose(child, OrEmpty(Child(t, lab)), r)
    ensures fresh(child) && fresh(child.children) && child.children != cur.children
    ensures cur.children == old(cur.children) || fresh(cur.children)
  {
    if lab == WILD {
      child := CopyWildcard(cur, t, r);
    } else {
      child := CopyEdge(cur, lab, t, r);
    }
  }

  lemma WFSorted(t: Trie)
    requires WF(t)
    ensures Sorted(t.kids)
  {
  }

  // ---- deletion ----

  /** p is what the iterator still has to hand out. */
  ghost predicate Ahead(it: DomainIterator, p: Path)
    reads it
  {
    it.Valid() && p == LabelsOf(Hops(it.domain, it.cursor))
  }

  /** One call of NextLower takes the first label off what lies ahead. */
  method NextLabel(it: DomainIterator, buf: array<Byte>, ghost p: Path) returns (lab: Label, ok: bool)
    requires Ahead(it, p)
    modifies it, buf
    ensures ok <==> p != []
    ensures ok ==> lab == p[0] && Ahead(it, p[1..])
  {
    ghost var c := it.cursor;
    lab, ok := it.NextLower(buf);
    if ok {
      LabelsOfCons(Hops(it.domain, c)[0], Hops(it.domain, it.cursor));
    }
  }

  lemma UnhookLinks(was: seq<Link>, kids: seq<Edge>, lab: Label, r: set<object>)
    requires RepLinks(was, kids, r) && HasKid(kids, lab)
    ensures var i := Slot(kids, lab, 0); RepLinks(was[..i] + was[i + 1..], SetKid(kids, lab, None), r)
  {
    var i := Slot(kids, lab, 0);
    var now, k := was[..i] + was[i + 1..], SetKid(kids, lab, None);
    forall j | 0 <= j < |k| ensures now[j].lab == k[j].lab && Rep(now[j].node, k[j].sub, r) {
      if j >= i { assert now[j] == was[j + 1] && k[j] == kids[j + 1]; }
    }
  }

  /** A copy of n whose child under lab is gone (c null) or replaced by c; null when it would be bare. */
  method CopyWithout(n: Node, lab: Label, idx: nat, c: Node?, ghost t: Trie, ghost ct: Option<Trie>,
                     ghost r: set<object>)
    returns (nn: Node?, ghost r': set<object>)
    requires Rep(n, t, r) && Child(t, lab).Some?
    requires lab != WILD ==> idx == Slot(t.kids, lab, 0)
    requires RepWild(c, ct, r)
    ensures r <= r' && fresh(r' - r)
    ensures RepWild(nn, Prune(SetChild(t, lab, ct)), r')
  {
    hide Slot, Rep, RepLinks;
    RepLoose(n, t, r);
    assert lab != WILD ==> idx < n.children.Length by { RepLength(n.children[..], t.kids, r); }
    var copy := n.Clone();
    if lab == WILD {
      copy.wildcard := c;
    } else if c == null {
      var b := DeleteLink(copy.children, idx);
      assert b[..] == n.children[..][..idx] + n.children[..][idx + 1..];
      copy.children := b;
      UnhookLinks(n.children[..], t.kids, lab, r);
    } else {
      copy.children[idx] := Link(lab, c);
      assert copy.children[..] == n.children[..][idx := Link(lab, c)];
      RehookLinks(n.children[..], t.kids, lab, c, ct.value, r);
    }
    r' := r + {copy, copy.children};
    ghost var t' := SetChild(t, lab, ct);
    assert Loose(copy, t', r);
    LooseRep(copy, t', r, r');
    RepLength(copy.children[..], t'.kids, r);
    if copy.rrsets == [] && copy.children.Length == 0 && copy.wildcard == null {
      return null, r';
    }
    return copy, r';
  }

  lemma RehookLinks(was: seq<Link>, kids: seq<Edge>, lab: Label, c: Node, ct: Trie, r: set<object>)
    requires RepLinks(was, kids, r) && HasKid(kids, lab) && Rep(c, ct, r)
    ensures var i := Slot(kids, lab, 0); RepLinks(was[i := Link(lab, c)], SetKid(kids, lab, Some(ct)), r)
  {
  }

  lemma RepLength(a: seq<Link>, kids: seq<Edge>, r: set<object>)
    requires RepLinks(a, kids, r)
    ensures |a| == |kids|
  {
  }

  /** A copy of n without records; null when it would be bare. */
  method CopyCleared(n: Node, ghost t: Trie, ghost r: set<object>) returns (nn: Node?, ghost r': set<object>)
    requires Rep(n, t, r)
    ensures r <= r' && fresh(r' - r)
    ensures RepWild(nn, Prune(t.(rr := [])), r')
  {
    RepLoose(n, t, r);
    var copy := n.Clone();
    copy.rrsets := [];
    r' := r + {copy, copy.children};
    LooseRep(copy, t.(rr := []), r, r');
    if copy.children.Length == 0 && copy.wildcard == null { return null, r'; }
    return copy, r';
  }

  /** Clears the records at the end of the path and prunes on the way back up. */
  method DeletePath(n: Node, it: DomainIterator, buf: array<Byte>, ghost p: Path, ghost t: Trie, ghost r: set<object>)
    returns (nn: Node?, deleted: bool, ghost r': set<object>)
    requires Rep(n, t, r) && WF(t) && Ahead(it, p) && it !in r && buf !in r
    modifies it, buf
    ensures r <= r' && fresh(r' - r)
    ensures deleted <==> Lookup(t, p) != []
    ensures deleted ==> RepWild(nn, Remove(t, p), r')
    decreases |p|
  {
    hide WF, Ahead, Child, SetChild;
    assert n.rrsets == t.rr;
    var lab, ok := NextLabel(it, buf, p);
    if !ok {
      if n.rrsets == [] { return n, false, r; }
      nn, r' := CopyCleared(n, t, r);
      return nn, true, r';
    }
    LookupStep(t, p);
    var c, idx := StepDown(n, lab, t, r);
    if c == null { return n, false, r; }
    ChildWF(t, lab);
    var cc, del, r1 := DeletePath(c, it, buf, p[1..], Child(t, lab).value, r);
    if !del { return n, false, r1; }
    RepGrows(n, t, r, r1);
    nn, r' := CopyWithout(n, lab, idx, cc, t, Remove(Child(t, lab).value, p[1..]), r1);
    return nn, true, r';
  }

  // ---- insertion ----

  method CopyRoot(root: Node, ghost t: Trie, ghost r: set<object>) returns (c: Node)
    requires Rep(root, t, r)
    ensures fresh(c) && fresh(c.children) && Loose(c, t, r)
  {
    RepLoose(root, t, r);
    c := root.Clone();
  }

  method SetRecords(n: Node, records: RRSets, ghost t: Trie, ghost r: set<object>) returns (wasEmpty: bool)
    requires Loose(n, t, r) && n !in r && n.children !in r
    modifies n
    ensures Loose(n, t.(rr := records), r) && n.children == old(n.children)
    ensures wasEmpty <==> t.rr == []
  {
    wasEmpty := n.rrsets == [];
    n.rrsets := records;
  }

  /** Copies the child under the next label and hooks it into the last copy. */
  method GrowSpine(cur: Node, lab: Label, ghost spine: seq<Node>, ghost ts: seq<Trie>, ghost p: Path,
                   ghost r: set<object>, ghost made: set<object>)
    returns (child: Node, ghost ts': seq<Trie>, ghost made': set<object>)
    requires |spine| == |ts| && 0 < |ts| <= |p| && Spine(spine, ts, p, r, made)
    requires var i := |ts| - 1; spine[i] == cur && lab == p[i] && WF(ts[i]) && Loose(cur, ts[i], r)
    requires cur !in r && cur.children !in r && cur !in made && cur.children !in made
    modifies cur, cur.children
    ensures var i := |ts| - 1;
            && ts' == ts + [OrEmpty(Child(ts[i], lab))] && WF(ts'[i + 1]) && Loose(child, ts'[i + 1], r)
            && Lookup(ts[i], p[i..]) == Lookup(ts'[i + 1], p[i + 1..])
    ensures made' == made + {cur, cur.children} && Spine(spine + [child], ts', p, r, made')
    ensures fresh(child) && fresh(child.children) && child.children != cur.children
    ensures cur.children == old(cur.children) || fresh(cur.children)
  {
    hide WF, Hooked, Child, Lookup, Rep, Loose, Spine;
    ghost var i := |ts| - 1;
    assert p[i..][0] == lab && p[i..][1..] == p[i + 1..];
    LookupDown(ts[i], p[i..]);
    child := CopyChild(cur, lab, ts[i], r);
    SpineGrows(spine, ts, p, r, made, child);
    ts', made' := ts + [OrEmpty(Child(ts[i], lab))], made + {cur, cur.children};
  }

  /** Sets the records of the last copy, which completes the new version. */
  method CloseSpine(cur: Node, records: RRSets, ghost spine: seq<Node>, ghost ts: seq<Trie>, ghost p: Path,
                    ghost r: set<object>, ghost made: set<object>)
    returns (wasEmpty: bool, ghost r': set<object>)
    requires |spine| == |ts| == |p| + 1 && spine[|p|] == cur && Spine(spine, ts, p, r, made)
    requires Loose(cur, ts[|p|], r) && cur !in r && cur.children !in r && cur !in made
    modifies cur
    ensures r' == r + made + {cur, cur.children} && cur.children == old(cur.children)
    ensures Rep(spine[0], Put(ts[0], p, records), r')
    ensures wasEmpty <==> Lookup(ts[|p|], []) == []
  {
    hide Hooked, Put, Rep, Loose, Spine;
    LookupHere(ts[|p|]);
    r' := r + made + {cur, cur.children};
    wasEmpty := SetRecords(cur, records, ts[|p|], r);
    LooseRep(cur, ts[|p|].(rr := records), r, r');
    assert p[0..] == p;
    SpineRep(spine, ts, p, r, made, records, r', 0);
  }

  /** Copies the nodes on the path, hooks the copies together and sets the records of the last one. */
  method UpsertPath(root: Node, domain: Bytes, records: RRSets, ghost t: Trie, ghost r: set<object>)
    returns (newRoot: Node, wasEmpty: bool, ghost r': set<object>)
    requires Rep(root, t, r) && WF(t)
    ensures r <= r' && fresh(r' - r)
    ensures Rep(newRoot, Put(t, PathOf(domain), records), r')
    ensures wasEmpty <==> Lookup(t, PathOf(domain)) == []
  {
    hide WF, Hooked, Child, Ahead, Hops, NodeAt, PathOf, Lookup, Put, Rep, Loose, Spine;
    ghost var p := PathOf(domain);
    newRoot := CopyRoot(root, t, r);
    var cur := newRoot;
    var buf := new Byte[64];
    var it := new DomainIterator(domain);
    ghost var spine, ts, made: set<object>, i := [newRoot], [t], {}, 0;
    assert p[0..] == p;
    AheadAtStart(it, p);
    SpineStarts(newRoot, t, p, r);
    while true
      invariant fresh(it) && fresh(buf) && i <= |p| && Ahead(it, p[i..])
      invariant |spine| == |ts| == i + 1 && spine[0] == newRoot && ts[0] == t && spine[i] == cur
      invariant fresh(made) && it !in made && buf !in made
      invariant fresh(cur) && fresh(cur.children) && cur !in made && cur.children !in made &&
          buf as object != cur.children
      invariant WF(ts[i]) && Loose(cur, ts[i], r)
      invariant Lookup(t, p) == Lookup(ts[i], p[i..])
      invariant Spine(spine, ts, p, r, made)
      decreases |p| - i
    {
      var lab, ok := NextLabel(it, buf, p[i..]);
      if !ok { break; }
      assert lab == p[i] && p[i..][1..] == p[i + 1..];
      var child;
      child, ts, made := GrowSpine(cur, lab, spine, ts, p, r, made);
      cur, spine, i := child, spine + [child], i + 1;
    }
    assert p[i..] == [];
    wasEmpty, r' := CloseSpine(cur, records, spine, ts, p, r, made);
  }

  lemma AheadAtStart(it: DomainIterator, p: Path)
    requires it.Valid() && it.cursor == |it.domain| && p == PathOf(it.domain)
    ensures Ahead(it, p)
  {
  }

  lemma LookupHere(t: Trie)
    ensures Lookup(t, []) == t.rr
  {
  }

  lemma LookupDown(t: Trie, p: Path)
    requires WF(t) && p != []
    ensures var c := OrEmpty(Child(t, p[0])); WF(c) && Lookup(t, p) == Lookup(c, p[1..])
  {
    LookupStep(t, p);
    LookupEmpty(p[1..]);
    if Child(t, p[0]).Some? { ChildWF(t, p[0]); }
  }

  // ---- lookup ----

  /** The exact node of a name, or null. */
  method FindNode(root: Node, domain: Bytes, ghost t0: Trie, ghost r: set<object>) returns (n: Node?)
    requires Rep(root, t0, r) && WF(t0)
    ensures RepWild(n, NodeAt(t0, PathOf(domain)), r)
  {
    hide WF, Child, Rep;
    var cur: Node := root;
    var buf := new Byte[64];
    var it := new DomainIterator(domain);
    ghost var p, t := PathOf(domain), t0;
    while true
      invariant fresh(it) && fresh(buf)
      invariant Ahead(it, p) && WF(t) && Rep(cur, t, r)
      invariant NodeAt(t, p) == NodeAt(t0, PathOf(domain))
      decreases |p|
    {
      var lab, ok := NextLabel(it, buf, p);
      if !ok { break; }
      var c, _ := StepDown(cur, lab, t, r);
      if c == null { return null; }
      ChildWF(t, lab);
      cur, t, p := c, Child(t, lab).value, p[1..];
    }
    return cur;
  }

  /** Deletes a name's records; a tree left without any node gets a new empty root. */
  method DeleteFrom(root: Node, domain: Bytes, ghost t: Trie, ghost r: set<object>)
    returns (newRoot: Node, deleted: bool, ghost r': set<object>)
    requires Rep(root, t, r) && WF(t)
    ensures r <= r' && fresh(r' - r)
    ensures deleted <==> Lookup(t, PathOf(domain)) != []
    ensures deleted ==> Rep(newRoot, OrEmpty(Remove(t, PathOf(domain))), r')
  {
    hide WF, Remove, PathOf;
    ghost var p := PathOf(domain);
    var target := FindNode(root, domain, t, r);
    LookupOfNode(t, p);
    if target == null || target.rrsets == [] { return root, false, r; }
    var buf := new Byte[64];
    var it := new DomainIterator(domain);
    AheadAtStart(it, p);
    var nn;
    nn, deleted, r' := DeletePath(root, it, buf, p, t, r);
    if nn == null {
      newRoot := new Node();
      r' := r' + {newRoot, newRoot.children};
    } else {
      newRoot := nn;
    }
  }

  lemma LookupOfNode(t: Trie, p: Path)
    ensures Lookup(t, p) == RecordsOf(NodeAt(t, p))
  {
  }

  method EvaluateNode(rr: RRSets, q: Query, cursor: nat, soaRR: RRSet, soaName: Bytes)
    returns (res: Result, stop: bool, soaRR': RRSet, soaName': Bytes)
    requires cursor <= |q.domain|
    ensures match Evaluate(rr, q, cursor, Authority(soaRR, soaName))
            case Stop(r) => stop && res == r
            case Go(a) => !stop && a == Authority(soaRR', soaName')
  {
    res, stop, soaRR', soaName' := NameErrorResult(NO_AUTHORITY), false, soaRR, soaName;
    if rr == [] { return; }
    var soa := Search(rr, TYPE_SOA);
    if soa.Some? {
      soaRR', soaName' := soa.value, FormatName(q.domain, cursor);
      return;
    }
    var ns := Search(rr, TYPE_NS);
    if ns.Some? && (q.qt != TYPE_DS || cursor != 0) {
      res, stop := Result(Success, ZERO_SET, ns.value, FormatName(q.domain, cursor)), true;
    }
  }

  method ResolveWildcard(fallback: Node?, qt: U16, soaRR: RRSet, soaName: Bytes, ghost fb: Option<Trie>,
                         ghost r: set<object>)
    returns (res: Result)
    requires RepWild(fallback, fb, r)
    ensures res == WildcardResolve(RecordsOf(fb), qt, Authority(soaRR, soaName))
  {
    if fallback == null || fallback.rrsets == [] {
      return NameErrorResult(Authority(soaRR, soaName));
    }
    return ResolveAt(fallback.rrsets, qt, Authority(soaRR, soaName));
  }

  lemma DescendDone(t: Trie, q: Query, fb: Option<Trie>, auth: Authority)
    ensures Descend(t, [], q, fb, auth) ==
            if !Bare(t) then ResolveAt(t.rr, q.qt, auth)
            else if fb.Some? then WildcardResolve(fb.value.rr, q.qt, auth)
            else NameErrorResult(auth)
  {
  }

  lemma DescendDown(t: Trie, hs: seq<Hop>, q: Query, fb: Option<Trie>, auth: Authority)
    requires HopsWithin(hs, q) && hs != []
    ensures var fb' := if t.wild.Some? then t.wild else fb;
            Descend(t, hs, q, fb, auth) ==
            match Child(t, hs[0].lab)
            case None => WildcardResolve(RecordsOf(fb'), q.qt, auth)
            case Some(c) =>
              match Evaluate(c.rr, q, hs[0].cursor, auth)
              case Stop(r) => r
              case Go(a) => Descend(c, hs[1..], q, fb', a)
  {
  }

  /** Where the walk ends: the node's own records, or the wildcard when the node is bare. */
  method AnswerAt(cur: Node, fallback: Node?, q: Query, soaRR: RRSet, soaName: Bytes, ghost t: Trie,
                  ghost fb: Option<Trie>, ghost r: set<object>)
    returns (res: Result)
    requires Rep(cur, t, r) && RepWild(fallback, fb, r)
    ensures res == Descend(t, [], q, fb, Authority(soaRR, soaName))
  {
    hide Descend, ResolveAt, WildcardResolve;
    DescendDone(t, q, fb, Authority(soaRR, soaName));
    if cur.rrsets == [] && cur.children.Length == 0 && cur.wildcard == null {
      if fallback != null {
        res := ResolveWildcard(fallback, q.qt, soaRR, soaName, fb, r);
        return;
      }
      return NameErrorResult(Authority(soaRR, soaName));
    }
    return ResolveAt(cur.rrsets, q.qt, Authority(soaRR, soaName));
  }

  /** The resolution loop over one version of the tree. */
  method ResolveFrom(root: Node, domain: Bytes, qt: U16, ghost t0: Trie, ghost r: set<object>) returns (res: Result)
    requires Rep(root, t0, r) && WF(t0)
    ensures res == ResolveTrie(t0, Query(domain, qt))
  {
    hide WF, Evaluate, ResolveAt, WildcardResolve, Hops, Child, Descend;
    var q := Query(domain, qt);
    var cur: Node := root;
    var fallback: Node? := null;
    var soaRR, soaName := ZERO_SET, [DOT];
    var stop;
    res, stop, soaRR, soaName := EvaluateNode(cur.rrsets, q, |domain|, soaRR, soaName);
    if stop { return; }
    var buf := new Byte[64];
    var it := new DomainIterator(domain);
    ghost var t, fb, hs := t0, None, QueryHops(q);
    while true
      invariant fresh(it) && fresh(buf)
      invariant it.Valid() && it.domain == domain && HopsWithin(hs, q) && hs == Hops(domain, it.cursor)
      invariant WF(t) && Rep(cur, t, r) && RepWild(fallback, fb, r)
      invariant Descend(t, hs, q, fb, Authority(soaRR, soaName)) == ResolveTrie(t0, q)
      decreases it.cursor
    {
      HopsUnfold(domain, it.cursor);
      var lab, ok := it.NextLower(buf);
      if !ok { break; }
      DescendDown(t, hs, q, fb, Authority(soaRR, soaName));
      if cur.wildcard != null { fallback, fb := cur.wildcard, t.wild; }
      var c, _ := StepDown(cur, lab, t, r);
      if c == null {
        res := ResolveWildcard(fallback, qt, soaRR, soaName, fb, r);
        return;
      }
      ChildWF(t, lab);
      cur, t := c, Child(t, lab).value;
      res, stop, soaRR, soaName := EvaluateNode(cur.rrsets, q, it.cursor, soaRR, soaName);
      if stop { return; }
      hs := hs[1..];
    }
    res := AnswerAt(cur, fallback, q, soaRR, soaName, t, fb, r);
  }

  lemma HopsUnfold(d: Bytes, c: nat)
    requires c <= |d|
    ensures match NextStep(d, c)
            case Done => Hops(d, c) == []
            case Found(l, k) => Hops(d, c) != [] && Hops(d, c)[0] == Hop(LowerAll(l), k)
                                && Hops(d, c)[1..] == Hops(d, k)
  {
  }

  // ---- the tree ----

  /** What readers load with one atomic read. */
  datatype State = State(root: Node, size: int)

  /** A root that was current at some time, and what it denoted then. */
  datatype Version = Version(root: Node, trie: Trie)

  class Tree {
    var state: State
    ghost var repr: set<object>
    ghost var trie: Trie
    ghost var contents: map<Path, RRSets>
    ghost var published: seq<Version>

    /** The tree denotes contents, counts it, and every published version still denotes what it did. */
    ghost predicate Valid()
      reads this, repr
    {
      && this !in repr
      && Rep(state.root, trie, repr)
      && WF(trie) && Denotes(trie, contents)
      && state.size == |contents|
      && (forall p :: p in contents ==> ProperPath(p))
      && (forall i :: 0 <= i < |published| ==> Rep(published[i].root, published[i].trie, repr) && WF(published[i].trie))
      && published != [] && published[|published| - 1] == Version(state.root, trie)
    }

    constructor ()
      ensures Valid() && fresh(repr) && contents == map[] && |published| == 1
    {
      var root := new Node();
      state := State(root, 0);
      trie, contents, repr := EMPTY, map[], {root, root.children};
      published := [Version(root, EMPTY)];
      new;
      EmptyDenotes();
    }

    method Len() returns (n: int)
      requires Valid()
      ensures n == |contents|
    {
      return state.size;
    }

    /** Makes root the current version. The caller has only written to what it allocated. */
    method Publish(root: Node, size: int, ghost t: Trie, ghost m: map<Path, RRSets>, ghost r: set<object>)
      requires Valid() && repr <= r && this !in r
      requires Rep(root, t, r) && WF(t) && Denotes(t, m) && size == |m|
      requires forall p :: p in m ==> ProperPath(p)
      modifies this
      ensures Valid() && contents == m && trie == t && repr == r
      ensures published == old(published) + [Version(root, t)]
    {
      hide WF, Denotes, ProperPath;
      forall i | 0 <= i < |published| ensures Rep(published[i].root, published[i].trie, r) {
        RepGrows(published[i].root, published[i].trie, repr, r);
      }
      state, trie, contents, repr := State(root, size), t, m, r;
      published := published + [Version(root, t)];
    }

    method Upsert(domain: Bytes, records: RRSets)
      requires Valid()
      modifies this
      ensures Valid() && fresh(repr - old(repr)) && old(repr) <= repr
      ensures contents ==
              if records == [] then old(contents) - {PathOf(domain)} else old(contents)[PathOf(domain) := records]
      ensures old(published) <= published
    {
      hide WF, Denotes, ProperPath, Rep, Lookup, Put, PathOf;
      if records == [] {
        DeleteDomain(domain);
        return;
      }
      ghost var p := PathOf(domain);
      var newSize := state.size;
      var newRoot, wasEmpty, r := UpsertPath(state.root, domain, records, trie, repr);
      if wasEmpty { newSize := newSize + 1; }
      LookupIsRecordsAt(trie, contents, p);
      StoredNotEmpty(trie, contents, p);
      PutDenotes(trie, contents, p, records);
      PathOfProper(domain);
      assert contents[p := records].Keys == contents.Keys + {p};
      Publish(newRoot, newSize, Put(trie, p, records), contents[p := records], r);
    }

    method DeleteDomain(domain: Bytes)
      requires Valid()
      modifies this
      ensures Valid() && fresh(repr - old(repr)) && old(repr) <= repr
      ensures contents == old(contents) - {PathOf(domain)}
      ensures old(published) <= published
    {
      hide WF, Denotes, ProperPath, Lookup, Remove, PathOf, Rep;
      ghost var p := PathOf(domain);
      StoredNotEmpty(trie, contents, p);
      var newRoot, deleted, r := DeleteFrom(state.root, domain, trie, repr);
      assert (contents - {p}).Keys == contents.Keys - {p};
      if !deleted {
        assert contents - {p} == contents;
        return;
      }
      RemoveDenotes(trie, contents, p);
      Publish(newRoot, state.size - 1, OrEmpty(Remove(trie, p)), contents - {p}, r);
    }

    method Get(domain: Bytes) returns (records: RRSets, ok: bool)
      requires Valid()
      ensures ok <==> PathOf(domain) in contents
      ensures records == if ok then contents[PathOf(domain)] else []
    {
      hide WF, PathOf, ProperPath;
      LookupIsRecordsAt(trie, contents, PathOf(domain));
      var n := FindNode(state.root, domain, trie, repr);
      if n == null || n.rrsets == [] { return [], false; }
      return n.rrsets, true;
    }

    /** Answers a query as the stored map alone determines (see Resolution.SpecResolve). */
    method Resolve(domain: Bytes, qt: U16) returns (res: Result)
      requires Valid()
      ensures res == ResolveTrie(trie, Query(domain, qt))
      ensures res == SpecResolve(contents, Query(domain, qt))
      ensures AnswerMeanings.Answers(contents, Query(domain, qt), res)
    {
      ResolveIsSpec(trie, contents, Query(domain, qt));
      AnswerMeanings.SpecAnswers(contents, Query(domain, qt));
      res := ResolveFrom(state.root, domain, qt, trie, repr);
    }
  }

  lemma StoredNotEmpty(t: Trie, m: map<Path, RRSets>, p: Path)
    requires Denotes(t, m)
    ensures p in m <==> Lookup(t, p) != []
  {
  }

  /** A reader's loop over any version published so far answers from that version, whatever was written since. */
  method ReadVersion(tree: Tree, root: Node, ghost i: nat, domain: Bytes, qt: U16) returns (res: Result)
    requires tree.Valid() && i < |tree.published| && tree.published[i].root == root
    ensures res == ResolveTrie(tree.published[i].trie, Query(domain, qt))
  {
    res := ResolveFrom(root, domain, qt, tree.published[i].trie, tree.repr);
  }
}
