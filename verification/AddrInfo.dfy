/** Sorting and freeing chains of struct addrinfo (src/utils/port.c). */
module AddrInfo {
  import opened List

  const AF_INET6: int := 10

  /** The ai_canonname value that marks the library's own allocations. */
  const ALLOCATED_BY_BCTBX: int := -1

  datatype Allocator = System | Bctbx

  class Info {
    const family: int
    const address: seq<int>      // the octets of sin6_addr when the family is AF_INET6
    const canonname: int
    ghost const owner: Allocator
    var next: Info?
    ghost var live: bool

    constructor (family: int, address: seq<int>, canonname: int, ghost owner: Allocator)
      ensures next == null && live && this.owner == owner
      ensures this.family == family && this.address == address && this.canonname == canonname
    {
      this.family, this.address, this.canonname, this.owner := family, address, canonname, owner;
      next, live := null, true;
    }

    function Next(): Info?
      requires live
      reads this
    {
      next
    }

    /** Reading ai_canonname, too, needs the node to be live. */
    predicate Marked()
      requires live
      reads this
    {
      canonname == ALLOCATED_BY_BCTBX
    }
  }

  ghost function InfoAt(s: seq<Info>, i: int): Info? {
    if 0 <= i < |s| then s[i] else null
  }

  /** The nodes s, in this order, form a NULL-terminated chain headed by head. */
  ghost predicate Chain(head: Info?, s: seq<Info>)
    reads s
  {
    && head == InfoAt(s, 0)
    && (forall i {:trigger s[i].live} :: 0 <= i < |s| ==> s[i].live)
    && (forall i {:trigger s[i].next} :: 0 <= i < |s| ==> s[i].next == InfoAt(s, i + 1))
    && DistinctNodes(s)
  }

  ghost predicate DistinctNodes(s: seq<Info>) {
    forall i, j :: 0 <= i < j < |s| ==> s[i] != s[j]
  }

  // ----- sorting -----

  datatype Kind = PlainV6 | MappedV4 | V4

  /** IN6_IS_ADDR_V4MAPPED: ten zero octets and two of 0xff. */
  predicate IsV4Mapped(address: seq<int>) {
    |address| == 16 && (forall i :: 0 <= i < 10 ==> address[i] == 0) && address[10] == address[11] == 0xff
  }

  function KindOf(ai: Info): Kind {
    if ai.family == AF_INET6 then (if IsV4Mapped(ai.address) then MappedV4 else PlainV6) else V4
  }

  /** The nodes of one kind, last one first. */
  ghost function Group(s: seq<Info>, kind: Kind): seq<Info> {
    if s == [] then []
    else
      var n := |s| - 1;
      (if KindOf(s[n]) == kind then [s[n]] else []) + Group(s[..n], kind)
  }

  ghost function Sorted(s: seq<Info>): seq<Info> {
    Group(s, PlainV6) + Group(s, MappedV4) + Group(s, V4)
  }

  lemma {:induction false} GroupSnoc(s: seq<Info>, i: nat, kind: Kind)
    requires i < |s|
    ensures Group(s[..i + 1], kind) == (if KindOf(s[i]) == kind then [s[i]] else []) + Group(s[..i], kind)
  {
    assert s[..i + 1][..i] == s[..i];
  }

  /** The result is a permutation of the input. */
  lemma {:induction false} SortedPermutes(s: seq<Info>)
    ensures multiset(Sorted(s)) == multiset(s)
  {
    if s != [] {
      var n := |s| - 1;
      SortedPermutes(s[..n]);
      assert s == s[..n] + [s[n]];
    }
  }

  lemma {:induction false} GroupOnly(s: seq<Info>, kind: Kind)
    requires DistinctNodes(s)
    ensures DistinctNodes(Group(s, kind))
    ensures forall i :: 0 <= i < |Group(s, kind)| ==> KindOf(Group(s, kind)[i]) == kind && Group(s, kind)[i] in s
  {
    if s != [] {
      var n := |s| - 1;
      GroupOnly(s[..n], kind);
      assert s == s[..n] + [s[n]] && s[n] !in s[..n];
    }
  }

  /** An IPv6 address that is not an IPv4 one in disguise. */
  predicate IsPlainV6(ai: Info) {
    ai.family == 10 && !(|ai.address| == 16 && ai.address[..12] == [0, 0, 0, 0, 0, 0, 0, 0, 0, 0, 0xff, 0xff])
  }

  lemma KindByOctets(ai: Info)
    ensures KindOf(ai) == PlainV6 <==> IsPlainV6(ai)
    ensures KindOf(ai) == V4 <==> ai.family != 10
  {
    if |ai.address| == 16 {
      var z := [0, 0, 0, 0, 0, 0, 0, 0, 0, 0, 0xff, 0xff];
      assert ai.address[..12] == z <==> forall i :: 0 <= i < 12 ==> ai.address[i] == z[i];
    }
  }

  /** Of two nodes, a plain IPv6 one never stands behind another sort, nor an IPv6 one behind one of another family. */
  lemma SortedByFamily(s: seq<Info>, i: nat, j: nat)
    requires DistinctNodes(s) && i < j < |Sorted(s)|
    ensures IsPlainV6(Sorted(s)[j]) ==> IsPlainV6(Sorted(s)[i])
    ensures Sorted(s)[j].family == 10 ==> Sorted(s)[i].family == 10
  {
    KindByOctets(Sorted(s)[i]);
    KindByOctets(Sorted(s)[j]);
    hide Group, KindOf, IsPlainV6;
    GroupOnly(s, PlainV6);
    GroupOnly(s, MappedV4);
    GroupOnly(s, V4);
  }

  /** Nodes of one group stand in reverse input order. */
  lemma {:induction false} GroupReversed(s: seq<Info>, kind: Kind, i: nat, j: nat) returns (p: nat, q: nat)
    requires i < j < |Group(s, kind)|
    ensures q < p < |s| && Group(s, kind)[i] == s[p] && Group(s, kind)[j] == s[q]
  {
    var n := |s| - 1;
    if KindOf(s[n]) == kind {
      if i == 0 {
        p := n;
        q := InGroup(s[..n], kind, j - 1);
      } else {
        p, q := GroupReversed(s[..n], kind, i - 1, j - 1);
      }
    } else {
      p, q := GroupReversed(s[..n], kind, i, j);
    }
  }

  lemma {:induction false} InGroup(s: seq<Info>, kind: Kind, i: nat) returns (p: nat)
    requires i < |Group(s, kind)|
    ensures p < |s| && Group(s, kind)[i] == s[p]
  {
    var n := |s| - 1;
    if KindOf(s[n]) == kind {
      if i == 0 {
        p := n;
      } else {
        p := InGroup(s[..n], kind, i - 1);
      }
    } else {
      p := InGroup(s[..n], kind, i);
    }
  }

  /** Two nodes of the same sort change places: the later one in the input comes first. */
  lemma SortedReverses(s: seq<Info>, i: nat, j: nat) returns (p: nat, q: nat)
    requires DistinctNodes(s) && i < j < |Sorted(s)|
    requires IsPlainV6(Sorted(s)[i]) == IsPlainV6(Sorted(s)[j])
    requires (Sorted(s)[i].family == 10) == (Sorted(s)[j].family == 10)
    ensures q < p < |s| && Sorted(s)[i] == s[p] && Sorted(s)[j] == s[q]
  {
    var x, y := Sorted(s)[i], Sorted(s)[j];
    KindByOctets(x);
    KindByOctets(y);
    hide Group, KindOf, IsPlainV6;
    GroupOnly(s, PlainV6);
    GroupOnly(s, MappedV4);
    GroupOnly(s, V4);
    var a, b := |Group(s, PlainV6)|, |Group(s, PlainV6)| + |Group(s, MappedV4)|;
    assert KindOf(x) == KindOf(y);
    var k := if j < a then 0 else if j < b then a else b;
    assert k <= i;
    p, q := GroupReversed(s, KindOf(x), i - k, j - k);
  }

  lemma SortedDistinct(s: seq<Info>)
    requires DistinctNodes(s)
    ensures DistinctNodes(Sorted(s)) && forall i :: 0 <= i < |Sorted(s)| ==> Sorted(s)[i] in s
  {
    hide Group, KindOf;
    GroupOnly(s, PlainV6);
    GroupOnly(s, MappedV4);
    GroupOnly(s, V4);
  }

  /** The three lists being built, by their heads and nodes. */
  datatype Lists = Lists(v6: Node?<Info>, mapped: Node?<Info>, v4: Node?<Info>)
  datatype Nodes = Nodes(v6: seq<Node<Info>>, mapped: seq<Node<Info>>, v4: seq<Node<Info>>)

  /** One list holds the nodes of one kind among the first k of s, last one first. */
  ghost predicate Holds(head: Node?<Info>, nodes: seq<Node<Info>>, s: seq<Info>, k: nat, kind: Kind)
    reads nodes
  {
    k <= |s| && IsList(head, nodes) && Contents(nodes) == Group(s[..k], kind)
  }

  /** All three do, and they share no list node. */
  ghost predicate HoldTo(ls: Lists, ns: Nodes, pool: set<Node<Info>>, s: seq<Info>, k: nat)
    reads pool
  {
    && Within(ns.v6, pool) && Within(ns.mapped, pool) && Within(ns.v4, pool)
    && Disjoint(ns.v6, ns.mapped) && Disjoint(ns.v6, ns.v4) && Disjoint(ns.mapped, ns.v4)
    && Holds(ls.v6, ns.v6, s, k, PlainV6)
    && Holds(ls.mapped, ns.mapped, s, k, MappedV4)
    && Holds(ls.v4, ns.v4, s, k, V4)
  }

  lemma OtherKind(head: Node?<Info>, nodes: seq<Node<Info>>, s: seq<Info>, k: nat, kind: Kind)
    requires Holds(head, nodes, s, k, kind) && k < |s| && KindOf(s[k]) != kind
    ensures Holds(head, nodes, s, k + 1, kind)
  {
    GroupSnoc(s, k, kind);
  }

  method PrependTo(ai: Info, head: Node?<Info>, ghost nodes: seq<Node<Info>>,
                   ghost s: seq<Info>, ghost k: nat, ghost kind: Kind)
    returns (h: Node?<Info>, ghost n: seq<Node<Info>>)
    requires Holds(head, nodes, s, k, kind) && k < |s| && ai == s[k] && KindOf(ai) == kind
    modifies nodes`prev
    ensures Holds(h, n, s, k + 1, kind) && |n| == |nodes| + 1 && n == [n[0]] + nodes && fresh(n[0])
  {
    hide IsList, KindOf, Group;
    GroupSnoc(s, k, kind);
    h, n := Prepend(head, ai, nodes);
  }

  /** Prepends one node to the list of its kind. */
  method Place(ai: Info, ls: Lists, ghost ns: Nodes, ghost pool: set<Node<Info>>, ghost s: seq<Info>, ghost k: nat)
    returns (ls': Lists, ghost ns': Nodes, ghost pool': set<Node<Info>>)
    requires k < |s| && ai == s[k] && HoldTo(ls, ns, pool, s, k)
    modifies pool`prev
    ensures HoldTo(ls', ns', pool', s, k + 1) && pool <= pool' && fresh(pool' - pool)
  {
    hide Holds;
    var h;
    ghost var n;
    if ai.family == AF_INET6 {
      if IsV4Mapped(ai.address) {
        h, n := PrependTo(ai, ls.mapped, ns.mapped, s, k, MappedV4);
        OtherKind(ls.v6, ns.v6, s, k, PlainV6);
        OtherKind(ls.v4, ns.v4, s, k, V4);
        ls', ns' := ls.(mapped := h), ns.(mapped := n);
      } else {
        h, n := PrependTo(ai, ls.v6, ns.v6, s, k, PlainV6);
        OtherKind(ls.mapped, ns.mapped, s, k, MappedV4);
        OtherKind(ls.v4, ns.v4, s, k, V4);
        ls', ns' := ls.(v6 := h), ns.(v6 := n);
      }
    } else {
      h, n := PrependTo(ai, ls.v4, ns.v4, s, k, V4);
      OtherKind(ls.v6, ns.v6, s, k, PlainV6);
      OtherKind(ls.mapped, ns.mapped, s, k, MappedV4);
      ls', ns' := ls.(v4 := h), ns.(v4 := n);
    }
    pool' := pool + {n[0]};
  }

  /** Puts every node into the list of its kind and cuts its link. */
  method Partition(ais: Info?, ghost chain: seq<Info>)
    returns (ls: Lists, ghost ns: Nodes, ghost pool: set<Node<Info>>)
    requires Chain(ais, chain)
    modifies chain`next
    ensures HoldTo(ls, ns, pool, chain, |chain|) && fresh(pool)
  {
    hide HoldTo;
    ls, ns, pool := Lists(null, null, null), Nodes([], [], []), {};
    NothingHeld(chain);
    var ai := ais;
    ghost var k := 0;
    while ai != null
      invariant 0 <= k <= |chain| && ai == InfoAt(chain, k)
      invariant forall i {:trigger chain[i].live} :: k <= i < |chain| ==> chain[i].live
      invariant forall i {:trigger chain[i].next} :: k <= i < |chain| ==> chain[i].next == InfoAt(chain, i + 1)
      invariant HoldTo(ls, ns, pool, chain, k) && fresh(pool)
      decreases |chain| - k
    {
      var next := ai.Next();
      ls, ns, pool := Place(ai, ls, ns, pool, chain, k);
      ai.next := null;
      ai := next;
      k := k + 1;
    }
  }

  lemma NothingHeld(s: seq<Info>)
    ensures HoldTo(Lists(null, null, null), Nodes([], [], []), {}, s, 0)
  {
  }

  /** Links the nodes found in the list, in its order. */
  method Relink(list: Node?<Info>, ghost l: seq<Node<Info>>, ghost target: seq<Info>)
    returns (res0: Info?)
    requires IsList(list, l) && Contents(l) == target && DistinctNodes(target)
    requires forall i :: 0 <= i < |target| ==> target[i].live
    modifies target`next
    ensures Chain(res0, target)
  {
    hide IsList;
    HeadAt(list, l);
    res0 := null;
    var res: Info? := null;
    var it := list;
    ghost var k := 0;
    while it != null
      invariant 0 <= k <= |l| && it == At(l, k) && IsList(list, l)
      invariant res0 == (if k == 0 then null else target[0]) && res == InfoAt(target, k - 1)
      invariant forall i {:trigger target[i].next} :: 0 <= i < k - 1 ==> target[i].next == target[i + 1]
      decreases |l| - k
    {
      ListAt(list, l, k);
      if res0 == null {
        res := it.Data();
        res0 := res;
      } else {
        res.next := it.Data();
        res := res.next;
      }
      it := it.Next();
      k := k + 1;
    }
    if res != null { res.next := null; }
  }

  lemma JoinedContents(ns: Nodes)
    ensures Contents(ns.v6 + ns.mapped + ns.v4) == Contents(ns.v6) + Contents(ns.mapped) + Contents(ns.v4)
  {
  }

  /** The three lists one behind the other. */
  method Merge(ls: Lists, ghost ns: Nodes, ghost pool: set<Node<Info>>, ghost chain: seq<Info>)
    returns (v6: Node?<Info>, ghost l: seq<Node<Info>>)
    requires HoldTo(ls, ns, pool, chain, |chain|)
    modifies pool`next, pool`prev
    ensures IsList(v6, l) && Within(l, pool) && Contents(l) == Sorted(chain)
  {
    hide Group, IsList;
    assert chain[..|chain|] == chain;
    v6 := Concat(ls.v6, ls.mapped, ns.v6, ns.mapped);
    v6 := Concat(v6, ls.v4, ns.v6 + ns.mapped, ns.v4);
    l := ns.v6 + ns.mapped + ns.v4;
    JoinedContents(ns);
    assert Contents(ns.v6) == old(Contents(ns.v6)) && Contents(ns.mapped) == old(Contents(ns.mapped))
        && Contents(ns.v4) == old(Contents(ns.v4));
  }

  /** bctbx_addrinfo_sort */
  method Sort(ais: Info?, ghost chain: seq<Info>) returns (res: Info?)
    requires Chain(ais, chain)
    modifies chain`next
    ensures Chain(res, Sorted(chain))
  {
    SortedDistinct(chain);
    hide Sorted, IsList, HoldTo, Chain;
    ghost var ns, pool, l;
    var ls, v6;
    ls, ns, pool := Partition(ais, chain);
    v6, l := Merge(ls, ns, pool, chain);
    res := RelinkAndFree(v6, l, Sorted(chain));
  }

  method RelinkAndFree(list: Node?<Info>, ghost l: seq<Node<Info>>, ghost target: seq<Info>) returns (res: Info?)
    requires IsList(list, l) && Contents(l) == target && DistinctNodes(target)
    requires forall i :: 0 <= i < |target| ==> target[i].live
    modifies target`next, l`live
    ensures Chain(res, target)
  {
    hide IsList;
    res := Relink(list, l, target);
    FreeAll(list, l);
  }

  // ----- freeing -----

  /** free() of one node by the allocator it came from, at most once. */
  method Release(it: Info, ghost allocator: Allocator)
    requires it.live && it.owner == allocator
    modifies it`live
    ensures !it.live
  {
    it.live := false;
  }

  /** Frees every node of a chain: _bctbx_freeaddrinfo for the library's nodes and, with the same contract,
      the C library's freeaddrinfo for the others. */
  method FreeRun(res: Info?, ghost run: seq<Info>, ghost allocator: Allocator)
    requires Chain(res, run) && forall i :: 0 <= i < |run| ==> run[i].owner == allocator
    modifies run`live
    ensures forall i :: 0 <= i < |run| ==> !run[i].live
  {
    var it := res;
    ghost var k := 0;
    while it != null
      invariant 0 <= k <= |run| && it == InfoAt(run, k)
      invariant forall i :: 0 <= i < |run| ==> run[i].live == (k <= i)
      decreases |run| - k
    {
      var next := it.Next();
      Release(it, allocator);
      it := next;
      k := k + 1;
    }
  }

  ghost predicate MarkTellsOwner(s: seq<Info>) {
    forall i :: 0 <= i < |s| ==> (s[i].canonname == ALLOCATED_BY_BCTBX <==> s[i].owner == Bctbx)
  }

  ghost predicate OneOwner(s: seq<Info>, b: nat, i: nat, bctbx: bool) {
    forall j {:trigger s[j].owner} :: b <= j < i && j < |s| ==> s[j].owner == if bctbx then Bctbx else System
  }

  /** The nodes before b are freed; those from b on are live, and linked except that the run b .. i-1 has been
      cut off: it ends in NULL. */
  ghost predicate CutAt(s: seq<Info>, b: nat, i: nat)
    reads s
  {
    && b <= i <= |s|
    && (forall j {:trigger s[j].live} :: 0 <= j < |s| ==> s[j].live == (b <= j))
    && (forall j {:trigger s[j].next} :: b <= j < |s| ==> s[j].next == if j + 1 == i then null else InfoAt(s, j + 1))
  }

  lemma RunIsChain(s: seq<Info>, b: nat, i: nat)
    requires CutAt(s, b, i) && b < i && DistinctNodes(s)
    ensures Chain(s[b], s[b..i]) && forall j :: 0 <= j < i - b ==> s[b..i][j] == s[b + j]
  {
    var run := s[b..i];
    forall j | 0 <= j < |run| ensures run[j].live && run[j].next == InfoAt(run, j + 1) {
      assert run[j] == s[b + j];
      if j + 1 < |run| {
        assert run[j + 1] == s[b + j + 1];
      }
    }
  }

  /** Frees the run b .. i-1 with the allocator of its owner. */
  method FreeOwned(beginit: Info, bctbx: bool, ghost s: seq<Info>, ghost b: nat, ghost i: nat)
    requires b < i && CutAt(s, b, i) && beginit == s[b] && DistinctNodes(s)
    requires OneOwner(s, b, i, bctbx)
    modifies s`live
    ensures CutAt(s, i, i)
  {
    ghost var run := s[b..i];
    RunIsChain(s, b, i);
    hide Chain;
    if bctbx {
      FreeRun(beginit, run, Bctbx);
    } else {
      FreeRun(beginit, run, System);
    }
    forall j | 0 <= j < |s| ensures s[j].live == (i <= j) {
      if b <= j < i {
        assert run[j - b] == s[j];
      }
    }
  }

  lemma ChainIsUncut(res: Info?, s: seq<Info>)
    requires Chain(res, s) && s != []
    ensures CutAt(s, 0, 0) && DistinctNodes(s) && res == s[0] && s[0].live
  {
  }

  lemma UncutNode(s: seq<Info>, b: nat, i: nat)
    requires CutAt(s, b, b) && b <= i < |s|
    ensures s[i].live && s[i].next == InfoAt(s, i + 1)
  {
  }

  lemma LastRunEnds(s: seq<Info>, b: nat)
    requires CutAt(s, b, b) && b < |s|
    ensures CutAt(s, b, |s|)
  {
  }

  lemma AllFreed(s: seq<Info>)
    requires CutAt(s, |s|, |s|)
    ensures forall j :: 0 <= j < |s| ==> !s[j].live
  {
  }

  /** previt->ai_next = NULL, then the run from beginit to previt is freed. */
  method CutAndFree(beginit: Info, previt: Info, bctbx: bool, ghost s: seq<Info>, ghost b: nat, ghost i: nat)
    requires b < i < |s| && beginit == s[b] && previt == s[i - 1] && CutAt(s, b, b) && DistinctNodes(s)
    requires OneOwner(s, b, i, bctbx)
    modifies s`next, s`live
    ensures CutAt(s, i, i)
  {
    previt.next := null;
    assert CutAt(s, b, i);
    hide CutAt;
    FreeOwned(beginit, bctbx, s, b, i);
  }

  /** bctbx_freeaddrinfo: every node is freed exactly once, by the allocator that made it, and no freed node
      is read. */
  method FreeAddrInfo(res: Info, ghost s: seq<Info>)
    requires Chain(res, s) && MarkTellsOwner(s)
    modifies s`next, s`live
    ensures forall i :: 0 <= i < |s| ==> !s[i].live
  {
    ChainIsUncut(res, s);
    hide CutAt, Chain, DistinctNodes;
    var previt: Info? := null;
    var beginit := res;
    var looking := res.Marked();
    var it: Info? := res;
    ghost var b: nat, i: nat := 0, 0;
    while it != null
      invariant b <= i <= |s| && b < |s| && (i > 0 ==> b < i) && it == InfoAt(s, i) && previt == InfoAt(s, i - 1)
      invariant beginit == s[b] && CutAt(s, b, b) && OneOwner(s, b, i, looking)
      invariant i == 0 ==> looking == (s[0].canonname == ALLOCATED_BY_BCTBX)
      decreases |s| - i
    {
      UncutNode(s, b, i);
      if looking != it.Marked() {
        if previt != null {
          CutAndFree(beginit, previt, looking, s, b, i);
          looking := !looking;
          beginit := it;
          b := i;
          UncutNode(s, b, i);
        }
      }
      previt := it;
      it := it.Next();
      i := i + 1;
    }
    LastRunEnds(s, b);
    FreeOwned(beginit, looking, s, b, i);
    AllFreed(s);
  }
}
