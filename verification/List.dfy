/** The doubly linked list of src/containers/list.c, on the heap. */
module List {
  import opened Options

  class Node<T> {
    var data: T
    var next: Node?<T>
    var prev: Node?<T>
    ghost var live: bool   // not yet given back to the allocator

    /** bctbx_list_new */
    constructor (d: T)
      ensures data == d && next == null && prev == null && live
    {
      data, next, prev, live := d, null, null, true;
    }

    /** A node is only ever read while it is live. */
    function Next(): Node?<T>
      requires live
      reads this
    {
      next
    }

    function Data(): T
      requires live
      reads this
    {
      data
    }

    /** bctbx_free: at most once. */
    method Free()
      requires live
      modifies this`live
      ensures !live
    {
      live := false;
    }
  }

  // ----- what a list head stands for -----

  /** The node at position i, or NULL behind the last one. */
  ghost function At<T>(s: seq<Node<T>>, i: int): Node?<T> {
    if 0 <= i < |s| then s[i] else null
  }

  /** The nodes s, in this order, form a NULL-terminated list with mirrored links, headed by head. */
  ghost predicate IsList<T>(head: Node?<T>, s: seq<Node<T>>)
    reads s
  {
    && head == At(s, 0)
    && (forall i {:trigger s[i].live} :: 0 <= i < |s| ==> s[i].live)
    && (forall i {:trigger s[i].next} :: 0 <= i < |s| ==> s[i].next == At(s, i + 1))
    && (forall i {:trigger s[i].prev} :: 0 <= i < |s| ==> s[i].prev == At(s, i - 1))
    && (forall i, j :: 0 <= i < j < |s| ==> s[i] != s[j])
  }

  /** The data, first to last. */
  ghost function Contents<T>(s: seq<Node<T>>): (ds: seq<T>)
    reads s
    ensures |ds| == |s| && forall i :: 0 <= i < |s| ==> ds[i] == s[i].data
  {
    seq(|s|, i requires 0 <= i < |s| reads s => s[i].data)
  }

  ghost predicate Disjoint<T>(a: seq<Node<T>>, b: seq<Node<T>>) {
    forall i, j :: 0 <= i < |a| && 0 <= j < |b| ==> a[i] != b[j]
  }

  // ----- operations -----

  /** bctbx_list_concat: walks to the end of first and links second there. */
  method Concat<T>(first: Node?<T>, second: Node?<T>, ghost a: seq<Node<T>>, ghost b: seq<Node<T>>)
    returns (r: Node?<T>)
    requires IsList(first, a) && IsList(second, b) && Disjoint(a, b)
    modifies a`next, b`prev
    ensures IsList(r, a + b)
  {
    if first == null { return second; }
    if second == null {
      assert a + b == a;
      return first;
    }
    var it := first;
    ghost var i := 0;
    while it.Next() != null
      invariant 0 <= i < |a| && it == a[i]
      decreases |a| - i
    {
      it := it.Next();
      i := i + 1;
    }
    it.next := second;
    second.prev := it;
    r := first;
  }

  /** bctbx_list_append */
  method Append<T>(list: Node?<T>, data: T, ghost a: seq<Node<T>>) returns (r: Node?<T>, ghost s: seq<Node<T>>)
    requires IsList(list, a)
    modifies a`next
    ensures IsList(r, s) && |s| == |a| + 1 && s == a + [s[|a|]] && fresh(s[|a|])
    ensures Contents(s) == old(Contents(a)) + [data]
  {
    var n := new Node(data);
    s := a + [n];
    r := Concat(list, n, a, [n]);
  }

  /** bctbx_list_prepend */
  method Prepend<T>(list: Node?<T>, data: T, ghost a: seq<Node<T>>) returns (r: Node?<T>, ghost s: seq<Node<T>>)
    requires IsList(list, a)
    modifies a`prev
    ensures IsList(r, s) && |s| == |a| + 1 && s == [s[0]] + a && fresh(s[0])
    ensures Contents(s) == [data] + old(Contents(a))
  {
    var n := new Node(data);
    s := [n] + a;
    r := Concat(n, list, [n], a);
  }

  /** s without its element at position k, if it has one. */
  ghost function Without<E>(s: seq<E>, k: nat): seq<E> {
    if k < |s| then s[..k] + s[k + 1..] else s
  }

  lemma WithoutAt<E>(s: seq<E>, k: nat)
    ensures k >= |s| ==> Without(s, k) == s
    ensures k < |s| ==> |Without(s, k)| == |s| - 1
    ensures k < |s| ==> forall i {:trigger Without(s, k)[i]} :: 0 <= i < |s| - 1 ==>
                          Without(s, k)[i] == if i < k then s[i] else s[i + 1]
  {
  }

  /** bctbx_list_unlink of the node at position k; a NULL node leaves the list alone. */
  method Unlink<T>(list: Node?<T>, elem: Node?<T>, ghost a: seq<Node<T>>, ghost k: nat) returns (r: Node?<T>)
    requires IsList(list, a) && elem == At(a, k)
    modifies a`next, a`prev
    ensures IsList(r, Without(a, k))
    ensures elem != null ==> elem.next == null && elem.prev == null
  {
    hide Without;
    WithoutAt(a, k);
    if elem == null {
      r := list;
    } else if elem == list {
      r := elem.next;
      elem.prev := null;
      elem.next := null;
      if r != null { r.prev := null; }
    } else {
      elem.prev.next := elem.next;
      if elem.next != null { elem.next.prev := elem.prev; }
      elem.next := null;
      elem.prev := null;
      r := list;
    }
  }

  ghost function Itself<T>(n: Node?<T>): set<Node<T>> {
    if n == null then {} else {n}
  }

  /** bctbx_list_erase_link: unlinked, then freed. */
  method EraseLink<T>(list: Node?<T>, elem: Node?<T>, ghost a: seq<Node<T>>, ghost k: nat) returns (r: Node?<T>)
    requires IsList(list, a) && elem == At(a, k)
    modifies a`next, a`prev, Itself(elem)`live
    ensures IsList(r, Without(a, k)) && (elem != null ==> !elem.live)
  {
    if elem != null {
      r := Unlink(list, elem, a, k);
      elem.Free();
    } else {
      r := list;
    }
  }

  /** The position of the first element equal to d, or the length. */
  ghost function FirstOf<T>(ds: seq<T>, d: T): (k: nat)
    ensures k <= |ds| && (k < |ds| ==> ds[k] == d) && forall i :: 0 <= i < k ==> ds[i] != d
  {
    if ds == [] || ds[0] == d then 0 else FirstOf(ds[1..], d) + 1
  }

  lemma FirstOfIs<T>(ds: seq<T>, d: T, k: nat)
    requires k <= |ds| && (k < |ds| ==> ds[k] == d) && forall i :: 0 <= i < k ==> ds[i] != d
    ensures FirstOf(ds, d) == k
  {
    hide FirstOf;
  }

  /** bctbx_list_find: the first node with this data. */
  method FindNode<T(==)>(list: Node?<T>, data: T, ghost a: seq<Node<T>>) returns (r: Node?<T>)
    requires IsList(list, a)
    ensures r == At(a, FirstOf(Contents(a), data))
  {
    r := list;
    ghost var k := 0;
    while r != null
      invariant 0 <= k <= |a| && r == At(a, k)
      invariant forall i :: 0 <= i < k ==> a[i].data != data
      decreases |a| - k
    {
      if r.Data() == data { break; }
      r := r.Next();
      k := k + 1;
    }
    FirstOfIs(Contents(a), data, k);
  }

  ghost function RemoveFirst<T, E>(s: seq<E>, ds: seq<T>, d: T): seq<E>
    requires |s| == |ds|
  {
    Without(s, FirstOf(ds, d))
  }

  /** The node that removing by data erases. */
  ghost function Victim<T>(a: seq<Node<T>>, data: T): (v: set<Node<T>>)
    reads a
    ensures forall x :: x in v ==> x in a
  {
    var k := FirstOf(Contents(a), data);
    if k < |a| then {a[k]} else {}
  }

  /** What removing by data hands to the free function: the data of the node it erases. */
  ghost function HandedOver<T>(hasFree: bool, ds: seq<T>, data: T): seq<T> {
    if hasFree && FirstOf(ds, data) < |ds| then [ds[FirstOf(ds, data)]] else []
  }

  /** _bctbx_list_remove: erases the first node with this data, if there is one, after handing its data to
      the free function, if there is one. The calls of the free function are `handed`. */
  method Remove<T(==)>(list: Node?<T>, data: T, hasFree: bool, ghost a: seq<Node<T>>)
    returns (r: Node?<T>, handed: seq<T>)
    requires IsList(list, a)
    modifies a`next, a`prev, Victim(a, data)`live
    ensures IsList(r, RemoveFirst(a, old(Contents(a)), data))
    ensures forall x :: x in old(Victim(a, data)) ==> !x.live
    ensures handed == HandedOver(hasFree, old(Contents(a)), data)
  {
    var it := FindNode(list, data, a);
    handed := [];
    if it != null {
      if hasFree {
        handed := [data];
      }
      r := EraseLink(list, it, a, FirstOf(Contents(a), data));
    } else {
      r := list;
    }
  }

  /** bctbx_list_free: each successor is read before its predecessor is freed. */
  method FreeAll<T>(list: Node?<T>, ghost a: seq<Node<T>>)
    requires IsList(list, a)
    modifies a`live
    ensures forall i :: 0 <= i < |a| ==> !a[i].live
  {
    if list == null { return; }
    var elem := list;
    ghost var k := 0;
    while elem.Next() != null
      invariant 0 <= k < |a| && elem == a[k]
      invariant forall i :: 0 <= i < |a| ==> a[i].live == (k <= i)
      decreases |a| - k
    {
      var tmp := elem;
      elem := elem.Next();
      tmp.Free();
      k := k + 1;
    }
    elem.Free();
  }

  // ----- removing by predicate -----

  /** The elements of a whose counterpart in ds does not match. */
  ghost function Kept<E, T>(a: seq<E>, ds: seq<T>, matches: T -> bool): seq<E>
    requires |a| == |ds|
  {
    if a == [] then []
    else
      var n := |a| - 1;
      Kept(a[..n], ds[..n], matches) + if matches(ds[n]) then [] else [a[n]]
  }

  ghost function Matching<T>(ds: seq<T>, matches: T -> bool): seq<T> {
    Kept(ds, ds, d => !matches(d))
  }

  lemma {:induction false} KeptSnoc<E, T>(a: seq<E>, ds: seq<T>, i: nat, matches: T -> bool)
    requires |a| == |ds| && i < |a|
    ensures Kept(a[..i + 1], ds[..i + 1], matches)
         == Kept(a[..i], ds[..i], matches) + if matches(ds[i]) then [] else [a[i]]
  {
    assert a[..i + 1][..i] == a[..i] && ds[..i + 1][..i] == ds[..i];
  }

  /** Keeping nodes keeps their data. */
  lemma {:induction false} KeptContents<T>(a: seq<Node<T>>, matches: T -> bool)
    ensures Contents(Kept(a, Contents(a), matches)) == Kept(Contents(a), Contents(a), matches)
  {
    if a != [] {
      var n := |a| - 1;
      KeptContents(a[..n], matches);
      assert Contents(a)[..n] == Contents(a[..n]);
    }
  }

  ghost predicate Within<T>(s: seq<Node<T>>, frame: set<Node<T>>) {
    forall i :: 0 <= i < |s| ==> s[i] in frame
  }

  ghost function Matcher<T, U>(compare: (T, U) -> int, user: U): T -> bool {
    d => compare(d, user) == 0
  }

  lemma ListAt<T>(head: Node?<T>, s: seq<Node<T>>, i: nat)
    requires IsList(head, s) && i < |s|
    ensures s[i].live && s[i].next == At(s, i + 1)
  {
  }

  /** Searching for the data of the current node finds that node when nothing before it has the same data. */
  method RemoveCurrent<T(==)>(list: Node?<T>, cur: Node<T>, hasFree: bool,
                              ghost frame: set<Node<T>>, ghost kept: seq<Node<T>>, ghost rest: seq<Node<T>>)
    returns (first: Node?<T>, handed: seq<T>)
    requires rest != [] && cur == rest[0] && IsList(list, kept + rest)
    requires forall i :: 0 <= i < |kept| ==> kept[i].data != cur.data
    requires Within(kept + rest, frame)
    modifies frame`next, frame`prev, cur`live
    ensures IsList(first, kept + rest[1..]) && !cur.live
    ensures handed == if hasFree then [old(cur.data)] else []
  {
    ghost var a := kept + rest;
    ListAt(list, a, |kept|);
    FirstOfIs(Contents(a), cur.data, |kept|);
    first, handed := Remove(list, cur.Data(), hasFree, a);
    assert Without(a, |kept|) == kept + rest[1..];
  }

  /** The list is now the nodes kept so far followed by those of a from position i on. */
  ghost predicate Standing<T>(head: Node?<T>, kept: seq<Node<T>>, a: seq<Node<T>>, i: nat)
    reads kept, a
  {
    i <= |a| && IsList(head, kept + a[i..])
  }

  /** Matching nodes before position i have been erased, and none of the kept ones matches. */
  ghost predicate Sifted<T>(kept: seq<Node<T>>, a: seq<Node<T>>, ds: seq<T>, matches: T -> bool, i: nat)
    requires i <= |a| == |ds|
    reads kept, a
  {
    && (forall j :: 0 <= j < |kept| ==> !matches(kept[j].data))
    && (forall j :: 0 <= j < i && matches(ds[j]) ==> !a[j].live)
  }

  /** One node of the walk: erased when it matches, passed over when it does not. */
  method Visit<T(==), U>(list: Node?<T>, compare: (T, U) -> int, hasFree: bool, user: U,
                         ghost frame: set<Node<T>>, ghost kept: seq<Node<T>>, ghost a: seq<Node<T>>, ghost i: nat,
                         ghost ds: seq<T>, cur: Node<T>)
    returns (first: Node?<T>, handed: seq<T>, ghost kept': seq<Node<T>>)
    requires i < |a| && cur == a[i] && Standing(list, kept, a, i) && Within(kept, frame) && Within(a, frame)
    requires Contents(a) == ds && Sifted(kept, a, ds, Matcher(compare, user), i)
    modifies frame`next, frame`prev, cur`live
    ensures Standing(first, kept', a, i + 1) && Within(kept', frame)
    ensures Contents(a) == ds && Sifted(kept', a, ds, Matcher(compare, user), i + 1)
    ensures kept' == kept + if Matcher(compare, user)(ds[i]) then [] else [a[i]]
    ensures handed == if hasFree && Matcher(compare, user)(ds[i]) then [ds[i]] else []
  {
    ghost var rest := a[i..];
    ListAt(list, kept + rest, |kept|);
    assert rest[1..] == a[i + 1..];
    if compare(cur.Data(), user) == 0 {
      kept' := kept;
      assert Within(kept + rest, frame);
      first, handed := RemoveCurrent(list, cur, hasFree, frame, kept, rest);
    } else {
      kept' := kept + [a[i]];
      assert kept' + rest[1..] == kept + rest;
      first, handed := list, [];
    }
    assert Contents(a) == ds;
  }

  /** The whole state of the walk when it stands at position i. */
  ghost predicate Walk<T>(head: Node?<T>, kept: seq<Node<T>>, a: seq<Node<T>>, ds: seq<T>, matches: T -> bool,
                          hasFree: bool, freed: seq<T>, frame: set<Node<T>>, i: nat)
    reads kept, a
  {
    && i <= |a| == |ds| && Contents(a) == ds
    && Standing(head, kept, a, i) && Within(kept, frame) && Within(a, frame)
    && Sifted(kept, a, ds, matches, i) && Progress(a, ds, matches, i, kept, hasFree, freed)
  }

  lemma WalkStarts<T>(head: Node?<T>, a: seq<Node<T>>, ds: seq<T>, matches: T -> bool, hasFree: bool,
                      frame: set<Node<T>>)
    requires IsList(head, a) && Contents(a) == ds && Within(a, frame)
    ensures Walk(head, [], a, ds, matches, hasFree, [], frame, 0) && head == At(a, 0)
  {
    ProgressEnds(a, ds, matches, hasFree);
    StandingEnds(head, [], a);
  }

  lemma WalkEnds<T>(head: Node?<T>, kept: seq<Node<T>>, a: seq<Node<T>>, ds: seq<T>, matches: T -> bool,
                    hasFree: bool, freed: seq<T>, frame: set<Node<T>>)
    requires Walk(head, kept, a, ds, matches, hasFree, freed, frame, |a|) && |a| == |ds|
    ensures IsList(head, kept) && kept == Kept(a, ds, matches)
    ensures freed == if hasFree then Matching(ds, matches) else []
    ensures forall j :: 0 <= j < |a| && matches(ds[j]) ==> !a[j].live
  {
    ProgressIs(a, ds, matches, kept, hasFree, freed);
    StandingEnds(head, kept, a);
    SiftedErased(kept, a, ds, matches);
  }

  /** One turn of the loop: the successor is read first, then the node is dealt with. */
  method WalkOn<T(==), U>(list: Node?<T>, compare: (T, U) -> int, hasFree: bool, user: U, cur: Node<T>, freed: seq<T>,
                          ghost frame: set<Node<T>>, ghost kept: seq<Node<T>>, ghost a: seq<Node<T>>, ghost i: nat,
                          ghost ds: seq<T>)
    returns (first: Node?<T>, elem: Node?<T>, freed': seq<T>, ghost kept': seq<Node<T>>)
    requires i < |a| && cur == a[i]
    requires Walk(list, kept, a, ds, Matcher(compare, user), hasFree, freed, frame, i)
    modifies frame`next, frame`prev, cur`live
    ensures elem == At(a, i + 1)
    ensures Walk(first, kept', a, ds, Matcher(compare, user), hasFree, freed', frame, i + 1)
  {
    hide IsList, Kept, Matching, Matcher, Progress, Standing, Sifted, Within, Contents;
    NextInRest(list, kept, a, i);
    elem := cur.Next();
    ProgressStep(a, ds, Matcher(compare, user), i, kept, hasFree, freed);
    var handed;
    first, handed, kept' := Visit(list, compare, hasFree, user, frame, kept, a, i, ds, cur);
    freed' := freed + handed;
  }

  /** _bctbx_list_remove_custom: the calls of the free function, if there is one, are `freed`. Each search by
      data stops at the current node, so the node saved as next stays in the list. */
  method RemoveCustom<T(==), U>(list: Node?<T>, compare: (T, U) -> int, hasFree: bool, user: U, ghost a: seq<Node<T>>)
    returns (first: Node?<T>, freed: seq<T>, ghost s: seq<Node<T>>)
    requires IsList(list, a)
    modifies a`next, a`prev, a`live
    ensures IsList(first, s)
    ensures s == Kept(a, old(Contents(a)), Matcher(compare, user))
    ensures freed == if hasFree then Matching(old(Contents(a)), Matcher(compare, user)) else []
    ensures forall i :: 0 <= i < |a| && Matcher(compare, user)(old(Contents(a))[i]) ==> !a[i].live
    ensures forall i :: 0 <= i < |a| ==> (a[i] in s <==> compare(old(Contents(a))[i], user) != 0)
  {
    ghost var matches := Matcher(compare, user);
    ghost var ds := Contents(a);
    ghost var frame := set x | x in a;
    first, freed := list, [];
    var elem := list;
    ghost var i := 0;
    ghost var kept: seq<Node<T>> := [];
    assert Within(a, frame) && NoRepeats(a);
    hide NoRepeats, IsList, Kept, Matching, Matcher, Within, Contents, Walk;
    WalkStarts(list, a, ds, matches, hasFree, frame);
    while elem != null
      invariant 0 <= i <= |a| && elem == At(a, i) && Walk(first, kept, a, ds, matches, hasFree, freed, frame, i)
      decreases |a| - i
    {
      first, elem, freed, kept := WalkOn(first, compare, hasFree, user, elem, freed, frame, kept, a, i, ds);
      i := i + 1;
    }
    WalkEnds(first, kept, a, ds, matches, hasFree, freed, frame);
    s := kept;
    KeptByCompare(a, ds, compare, user);
  }

  lemma KeptByCompare<E, T, U>(a: seq<E>, ds: seq<T>, compare: (T, U) -> int, user: U)
    requires |a| == |ds| && NoRepeats(a)
    ensures forall i :: 0 <= i < |a| ==>
              (a[i] in Kept(a, ds, Matcher(compare, user)) <==> compare(ds[i], user) != 0)
  {
    var matches := Matcher(compare, user);
    assert forall i :: 0 <= i < |a| ==> (matches(ds[i]) <==> compare(ds[i], user) == 0);
    hide Kept, NoRepeats, Matcher;
    forall i | 0 <= i < |a| ensures a[i] in Kept(a, ds, matches) <==> !matches(ds[i]) {
      KeptMembers(a, ds, matches, i);
    }
  }

  lemma SiftedErased<T>(kept: seq<Node<T>>, a: seq<Node<T>>, ds: seq<T>, matches: T -> bool)
    requires |a| == |ds| && Sifted(kept, a, ds, matches, |a|)
    ensures forall j :: 0 <= j < |a| && matches(ds[j]) ==> !a[j].live
  {
  }

  lemma StandingEnds<T>(head: Node?<T>, kept: seq<Node<T>>, a: seq<Node<T>>)
    ensures Standing(head, kept, a, |a|) ==> IsList(head, kept)
    ensures kept == [] && IsList(head, a) ==> Standing(head, kept, a, 0) && head == At(a, 0)
  {
    assert kept + a[|a|..] == kept && [] + a[0..] == a;
  }

  /** What the walk has established when it stands at position i. */
  ghost predicate Progress<E, T>(a: seq<E>, ds: seq<T>, matches: T -> bool, i: nat, kept: seq<E>,
                                 hasFree: bool, freed: seq<T>)
    requires i <= |a| == |ds|
  {
    kept == Kept(a[..i], ds[..i], matches) && freed == if hasFree then Matching(ds[..i], matches) else []
  }

  lemma {:induction false} ProgressEnds<E, T>(a: seq<E>, ds: seq<T>, matches: T -> bool, hasFree: bool)
    requires |a| == |ds|
    ensures Progress(a, ds, matches, 0, [], hasFree, [])
  {
    assert a[..0] == [] && ds[..0] == [];
  }

  lemma ProgressIs<E, T>(a: seq<E>, ds: seq<T>, matches: T -> bool, kept: seq<E>, hasFree: bool, freed: seq<T>)
    requires |a| == |ds| && Progress(a, ds, matches, |a|, kept, hasFree, freed)
    ensures kept == Kept(a, ds, matches) && freed == if hasFree then Matching(ds, matches) else []
  {
    assert a[..|a|] == a && ds[..|a|] == ds;
  }

  lemma {:induction false} ProgressStep<E, T>(a: seq<E>, ds: seq<T>, matches: T -> bool, i: nat,
                                              kept: seq<E>, hasFree: bool, freed: seq<T>)
    requires i < |a| == |ds| && Progress(a, ds, matches, i, kept, hasFree, freed)
    ensures Progress(a, ds, matches, i + 1, kept + if matches(ds[i]) then [] else [a[i]],
                     hasFree, freed + if hasFree && matches(ds[i]) then [ds[i]] else [])
  {
    KeptSnoc(a, ds, i, matches);
    MatchingSnoc(ds, i, matches);
  }

  /** The positions of the elements that are kept. */
  ghost function KeptPositions<T>(ds: seq<T>, matches: T -> bool): (ps: seq<nat>)
    ensures forall i :: 0 <= i < |ps| ==> ps[i] < |ds| && !matches(ds[ps[i]])
  {
    if ds == [] then []
    else
      var n := |ds| - 1;
      KeptPositions(ds[..n], matches) + if matches(ds[n]) then [] else [n]
  }

  /** They are all such positions, in ascending order, and what is kept is what stands there. */
  lemma {:induction false} KeptInOrder<E, T>(a: seq<E>, ds: seq<T>, matches: T -> bool)
    requires |a| == |ds|
    ensures var ps := KeptPositions(ds, matches);
            && (forall i, j :: 0 <= i < j < |ps| ==> ps[i] < ps[j])
            && (forall p: nat :: p < |ds| && !matches(ds[p]) ==> p in ps)
            && |Kept(a, ds, matches)| == |ps|
            && forall i :: 0 <= i < |ps| ==> Kept(a, ds, matches)[i] == a[ps[i]]
  {
    if a != [] {
      var n := |a| - 1;
      KeptInOrder(a[..n], ds[..n], matches);
      var front, ps := KeptPositions(ds[..n], matches), KeptPositions(ds, matches);
      var was, now := Kept(a[..n], ds[..n], matches), Kept(a, ds, matches);
      assert ps == front + if matches(ds[n]) then [] else [n];
      assert now == was + if matches(ds[n]) then [] else [a[n]];
      hide Kept, KeptPositions;
      forall p: nat | p < |ds| && !matches(ds[p]) ensures p in ps {
        if p < n {
          assert p in front;
        }
      }
      forall i | 0 <= i < |ps| ensures now[i] == a[ps[i]] {
        if i < |front| {
          assert was[i] == a[..n][front[i]];
        }
      }
    }
  }

  /** With distinct elements: one is kept if and only if its counterpart does not match. */
  lemma {:induction false} KeptMembers<E, T>(a: seq<E>, ds: seq<T>, matches: T -> bool, i: nat)
    requires |a| == |ds| && NoRepeats(a) && i < |a|
    ensures a[i] in Kept(a, ds, matches) <==> !matches(ds[i])
  {
    KeptInOrder(a, ds, matches);
    var ps, kept := KeptPositions(ds, matches), Kept(a, ds, matches);
    hide Kept, KeptPositions;
    if a[i] in kept {
      var q :| 0 <= q < |kept| && kept[q] == a[i];
      assert a[ps[q]] == a[i] && ps[q] == i;
    }
    if !matches(ds[i]) {
      var q :| 0 <= q < |ps| && ps[q] == i;
      assert kept[q] == a[i];
    }
  }

  ghost predicate NoRepeats<T>(ds: seq<T>) {
    forall i, j :: 0 <= i < j < |ds| ==> ds[i] != ds[j]
  }

  /** No two matching positions hold the same element. */
  ghost predicate MatchesDiffer<T>(ds: seq<T>, matches: T -> bool) {
    forall i, j :: 0 <= i < j < |ds| && matches(ds[i]) && matches(ds[j]) ==> ds[i] != ds[j]
  }

  lemma MatchesDifferSnoc<T>(ds: seq<T>, d: T, matches: T -> bool)
    ensures MatchesDiffer(ds + [d], matches) <==> MatchesDiffer(ds, matches) && !(matches(d) && d in ds)
  {
    var all := ds + [d];
    assert forall i :: 0 <= i < |ds| ==> all[i] == ds[i];
    if MatchesDiffer(all, matches) && matches(d) {
      forall i | 0 <= i < |ds| ensures ds[i] != d {
        assert all[i] == ds[i] && all[|ds|] == d;
      }
    }
    if MatchesDiffer(all, matches) {
      forall i, j | 0 <= i < j < |ds| && matches(ds[i]) && matches(ds[j]) ensures ds[i] != ds[j] {
        assert all[i] == ds[i] && all[j] == ds[j];
      }
    }
  }

  /** The free function gets no pointer twice if and only if no two matching positions hold the same one. */
  lemma {:induction false} FreedOnce<T(!new)>(ds: seq<T>, matches: T -> bool)
    ensures NoRepeats(Matching(ds, matches)) <==> MatchesDiffer(ds, matches)
  {
    if ds != [] {
      var n := |ds| - 1;
      var front := Matching(ds[..n], matches);
      FreedOnce(ds[..n], matches);
      assert ds[..n + 1] == ds == ds[..n] + [ds[n]];
      MatchingSnoc(ds, n, matches);
      InMatching(ds[..n], matches, ds[n]);
      MatchesDifferSnoc(ds[..n], ds[n], matches);
      RepeatsSnoc(front, ds[n]);
      hide *;
      assert front + [] == front;
    }
  }

  lemma RepeatsSnoc<T>(ds: seq<T>, d: T)
    ensures NoRepeats(ds + [d]) <==> NoRepeats(ds) && d !in ds
  {
    if NoRepeats(ds + [d]) {
      forall i | 0 <= i < |ds| ensures ds[i] != d {
        assert (ds + [d])[i] != (ds + [d])[|ds|];
      }
      forall i, j | 0 <= i < j < |ds| ensures ds[i] != ds[j] {
        assert (ds + [d])[i] != (ds + [d])[j];
      }
    }
  }

  lemma {:induction false} InMatching<T(!new)>(ds: seq<T>, matches: T -> bool, d: T)
    ensures d in Matching(ds, matches) <==> d in ds && matches(d)
  {
    if ds != [] {
      var n := |ds| - 1;
      InMatching(ds[..n], matches, d);
      assert ds[..n + 1] == ds;
      MatchingSnoc(ds, n, matches);
      hide Matching;
      assert ds == ds[..n] + [ds[n]];
    }
  }

  lemma {:induction false} InKept<T(!new)>(ds: seq<T>, matches: T -> bool, d: T)
    ensures d in Kept(ds, ds, matches) <==> d in ds && !matches(d)
  {
    if ds != [] {
      var n := |ds| - 1;
      InKept(ds[..n], matches, d);
      assert ds == ds[..n] + [ds[n]];
    }
  }

  /** No element that stays in the list has had its data freed, duplicates or not. */
  lemma KeptNotFreed<T(!new)>(ds: seq<T>, matches: T -> bool, d: T)
    requires d in Kept(ds, ds, matches)
    ensures d !in Matching(ds, matches)
  {
    hide *;
    InKept(ds, matches, d);
    InMatching(ds, matches, d);
  }

  lemma NextInRest<T>(head: Node?<T>, kept: seq<Node<T>>, a: seq<Node<T>>, i: nat)
    requires i < |a| && Standing(head, kept, a, i)
    ensures a[i].live && a[i].next == At(a, i + 1)
  {
    var s := kept + a[i..];
    assert s[|kept|] == a[i];
    ListAt(head, s, |kept|);
  }

  lemma {:induction false} MatchingSnoc<T>(ds: seq<T>, i: nat, matches: T -> bool)
    requires i < |ds|
    ensures Matching(ds[..i + 1], matches) == Matching(ds[..i], matches) + if matches(ds[i]) then [ds[i]] else []
  {
    KeptSnoc(ds, ds, i, (d: T) => !matches(d));
  }

  // ----- inserting -----

  ghost function Inserted<E>(s: seq<E>, k: nat, x: E): seq<E>
    requires k <= |s|
  {
    s[..k] + [x] + s[k..]
  }

  lemma InsertedIndex<T>(ds: seq<T>, k: nat, d: T, i: nat)
    requires k <= |ds| && i <= |ds|
    ensures |Inserted(ds, k, d)| == |ds| + 1
    ensures Inserted(ds, k, d)[i] == if i < k then ds[i] else if i == k then d else ds[i - 1]
  {
  }

  lemma ContentsInserted<T>(a: seq<Node<T>>, k: nat, n: Node<T>)
    requires k <= |a|
    ensures Contents(Inserted(a, k, n)) == Inserted(Contents(a), k, n.data)
  {
    assert Contents(Inserted(a, k, n)) == Contents(a)[..k] + [n.data] + Contents(a)[k..];
  }

  /** Links a new node in front of the node at position k. */
  method LinkBefore<T>(list: Node?<T>, data: T, it: Node<T>, ghost a: seq<Node<T>>, ghost k: nat)
    returns (r: Node?<T>, nelem: Node<T>)
    requires IsList(list, a) && k < |a| && it == a[k]
    modifies a`next, a`prev
    ensures IsList(r, Inserted(a, k, nelem)) && fresh(nelem) && nelem.data == data
  {
    nelem := new Node(data);
    r := list;
    nelem.prev := it.prev;
    nelem.next := it;
    if it.prev != null {
      it.prev.next := nelem;
    } else {
      r := nelem;
    }
    it.prev := nelem;
    ghost var s := Inserted(a, k, nelem);
    InsertedDistinct(a, k, nelem);
    hide Inserted;
    forall i | 0 <= i < |s| ensures s[i].live && s[i].next == At(s, i + 1) && s[i].prev == At(s, i - 1) {
      InsertedIndex(a, k, nelem, i);
      if i > 0 { InsertedIndex(a, k, nelem, i - 1); }
      if i < |a| { InsertedIndex(a, k, nelem, i + 1); }
    }
    InsertedIndex(a, k, nelem, 0);
  }

  lemma InsertedDistinct<E>(s: seq<E>, k: nat, x: E)
    requires k <= |s| && x !in s && forall i, j :: 0 <= i < j < |s| ==> s[i] != s[j]
    ensures var r := Inserted(s, k, x); |r| == |s| + 1 && forall i, j :: 0 <= i < j < |r| ==> r[i] != r[j]
  {
    var r := Inserted(s, k, x);
    forall i, j | 0 <= i < j < |r| ensures r[i] != r[j] {
      InsertedIndex(s, k, x, i);
      InsertedIndex(s, k, x, j);
    }
  }

  /** Links a new node behind the last one. */
  method LinkLast<T>(list: Node<T>, data: T, last: Node<T>, ghost a: seq<Node<T>>) returns (nelem: Node<T>)
    requires IsList(list, a) && a != [] && last == a[|a| - 1]
    modifies a`next
    ensures IsList(list, Inserted(a, |a|, nelem)) && fresh(nelem) && nelem.data == data
  {
    nelem := new Node(data);
    last.next := nelem;
    nelem.prev := last;
    assert Inserted(a, |a|, nelem) == a + [nelem];
  }

  /** Where insert_sorted puts d: in front of the first element that d does not exceed. */
  ghost function SortedPosition<T>(ds: seq<T>, d: T, compare: (T, T) -> int): (k: nat)
    ensures k <= |ds| && (k < |ds| ==> compare(d, ds[k]) <= 0) && forall i :: 0 <= i < k ==> compare(d, ds[i]) > 0
  {
    if ds == [] || compare(d, ds[0]) <= 0 then 0 else SortedPosition(ds[1..], d, compare) + 1
  }

  lemma SortedPositionIs<T>(ds: seq<T>, d: T, compare: (T, T) -> int, k: nat)
    requires k <= |ds| && (k < |ds| ==> compare(d, ds[k]) <= 0) && forall i :: 0 <= i < k ==> compare(d, ds[i]) > 0
    ensures SortedPosition(ds, d, compare) == k
  {
    hide SortedPosition;
  }

  method InsertSorted<T>(list: Node?<T>, data: T, compare: (T, T) -> int, ghost a: seq<Node<T>>)
    returns (r: Node?<T>, ghost s: seq<Node<T>>)
    requires IsList(list, a)
    modifies a`next, a`prev
    ensures IsList(r, s)
    ensures var k := SortedPosition(old(Contents(a)), data, compare);
            && k < |s| && fresh(s[k]) && s == Inserted(a, k, s[k])
            && Contents(s) == Inserted(old(Contents(a)), k, data)
  {
    hide IsList, Inserted, SortedPosition;
    ghost var ds := Contents(a);
    HeadAt(list, a);
    if list == null {
      r, s := AppendInserted(list, data, a);
      SortedPositionIs(ds, data, compare, 0);
      return;
    }
    var it := list;
    var previt := list;
    ghost var k := 0;
    while it != null
      invariant 0 <= k <= |a| && it == At(a, k) && previt == a[if k == 0 then 0 else k - 1] && IsList(list, a)
      invariant forall i :: 0 <= i < k ==> compare(data, ds[i]) > 0
      decreases |a| - k
    {
      ListAt(list, a, k);
      previt := it;
      if compare(data, it.Data()) <= 0 {
        SortedPositionIs(ds, data, compare, k);
        var nelem;
        r, nelem := LinkBefore(list, data, it, a, k);
        s := Inserted(a, k, nelem);
        ContentsInserted(a, k, nelem);
        InsertedAt(a, k, nelem);
        assert Contents(a) == ds;
        return;
      }
      it := it.Next();
      k := k + 1;
    }
    SortedPositionIs(ds, data, compare, k);
    var nelem := LinkLast(list, data, previt, a);
    s := Inserted(a, k, nelem);
    ContentsInserted(a, k, nelem);
    InsertedAt(a, k, nelem);
    assert Contents(a) == ds;
    r := list;
  }

  method AppendInserted<T>(list: Node?<T>, data: T, ghost a: seq<Node<T>>) returns (r: Node?<T>, ghost s: seq<Node<T>>)
    requires IsList(list, a)
    modifies a`next
    ensures IsList(r, s) && |s| == |a| + 1 && fresh(s[|a|]) && s == Inserted(a, |a|, s[|a|])
    ensures Contents(s) == Inserted(old(Contents(a)), |a|, data)
  {
    r, s := Append(list, data, a);
  }

  lemma HeadAt<T>(head: Node?<T>, s: seq<Node<T>>)
    requires IsList(head, s)
    ensures head == At(s, 0)
  {
  }

  lemma InsertedAt<E>(s: seq<E>, k: nat, x: E)
    requires k <= |s|
    ensures |Inserted(s, k, x)| == |s| + 1 && Inserted(s, k, x)[k] == x
  {
  }

  /** bctbx_list_insert: in front of a given node; at the end when there is no node or no list; nowhere when
      the node is not in the list. */
  method Insert<T>(list: Node?<T>, before: Node?<T>, data: T, ghost a: seq<Node<T>>)
    returns (r: Node?<T>, ghost s: seq<Node<T>>, ghost k: nat)
    requires IsList(list, a)
    modifies a`next, a`prev
    ensures IsList(r, s)
    ensures list == null || before == null ==> k == |a|
    ensures before != null && before in a ==> k < |a| && a[k] == before
    ensures if list != null && before != null && before !in a then s == a
            else && |s| == |a| + 1 && fresh(s[k]) && s == Inserted(a, k, s[k])
                 && Contents(s) == Inserted(old(Contents(a)), k, data)
  {
    hide IsList, Inserted;
    HeadAt(list, a);
    if list == null || before == null {
      r, s := AppendInserted(list, data, a);
      k := |a|;
      return;
    }
    var elem := list;
    ghost var i := 0;
    s, k, r := a, 0, list;
    while elem != null
      invariant 0 <= i <= |a| && elem == At(a, i) && IsList(list, a)
      invariant forall j :: 0 <= j < i ==> a[j] != before
      decreases |a| - i
    {
      ListAt(list, a, i);
      if elem == before {
        k := i;
        if elem.prev == null {
          PrevNullIsHead(list, a, i);
          assert Contents(a) == old(Contents(a));
          r, s := PrependInserted(list, data, a);
          return;
        } else {
          var nelem;
          r, nelem := LinkBefore(list, data, elem, a, i);
          s := Inserted(a, i, nelem);
          ContentsInserted(a, i, nelem);
          InsertedAt(a, i, nelem);
          assert Contents(a) == old(Contents(a));
          return; // the source walks on, but no later node can be the same one
        }
      }
      elem := elem.Next();
      i := i + 1;
    }
  }

  lemma PrevNullIsHead<T>(head: Node?<T>, s: seq<Node<T>>, i: nat)
    requires IsList(head, s) && i < |s| && s[i].prev == null
    ensures i == 0
  {
  }

  method PrependInserted<T>(list: Node?<T>, data: T, ghost a: seq<Node<T>>) returns (r: Node?<T>, ghost s: seq<Node<T>>)
    requires IsList(list, a)
    modifies a`prev
    ensures IsList(r, s) && |s| == |a| + 1 && fresh(s[0]) && s == Inserted(a, 0, s[0])
    ensures Contents(s) == Inserted(old(Contents(a)), 0, data)
  {
    hide IsList, Inserted;
    ghost var ds := Contents(a);
    r, s := Prepend(list, data, a);
    InsertedFirst(a, s[0]);
    InsertedFirst(ds, data);
  }

  lemma InsertedFirst<E>(s: seq<E>, x: E)
    ensures Inserted(s, 0, x) == [x] + s
  {
  }

  // ----- sortedness -----

  ghost predicate TotalPreorder<T(!new)>(compare: (T, T) -> int) {
    && (forall x, y :: compare(x, y) <= 0 || compare(y, x) <= 0)
    && (forall x, y, z :: compare(x, y) <= 0 && compare(y, z) <= 0 ==> compare(x, z) <= 0)
  }

  ghost predicate Sorted<T>(ds: seq<T>, compare: (T, T) -> int) {
    forall i, j :: 0 <= i < j < |ds| ==> compare(ds[i], ds[j]) <= 0
  }

  lemma Ordered<T(!new)>(compare: (T, T) -> int, x: T, y: T, z: T)
    requires TotalPreorder(compare)
    ensures compare(x, y) <= 0 || compare(y, x) <= 0
    ensures compare(x, y) <= 0 && compare(y, z) <= 0 ==> compare(x, z) <= 0
  {
  }

  lemma InsertedPair<T(!new)>(ds: seq<T>, d: T, compare: (T, T) -> int, i: nat, j: nat)
    requires TotalPreorder(compare) && Sorted(ds, compare) && i < j <= |ds|
    ensures var r := Inserted(ds, SortedPosition(ds, d, compare), d);
            |r| == |ds| + 1 && compare(r[i], r[j]) <= 0
  {
    hide TotalPreorder, SortedPosition, Inserted;
    var k := SortedPosition(ds, d, compare);
    InsertedIndex(ds, k, d, i);
    InsertedIndex(ds, k, d, j);
    if j == k {
      Ordered(compare, d, ds[i], d);
    } else if i == k {
      Ordered(compare, d, ds[k], ds[j - 1]);
    }
  }

  /** insert_sorted keeps a sorted list sorted and adds exactly one element, before its equals. */
  lemma InsertSortedKeepsOrder<T(!new)>(ds: seq<T>, d: T, compare: (T, T) -> int)
    requires TotalPreorder(compare) && Sorted(ds, compare)
    ensures var k := SortedPosition(ds, d, compare);
            && Sorted(Inserted(ds, k, d), compare)
            && multiset(Inserted(ds, k, d)) == multiset(ds) + multiset{d}
            && forall i :: 0 <= i < |ds| && compare(d, ds[i]) <= 0 ==> k <= i
  {
    hide TotalPreorder;
    var k := SortedPosition(ds, d, compare);
    hide SortedPosition;
    var r := Inserted(ds, k, d);
    InsertedElements(ds, k, d);
    forall i, j | 0 <= i < j < |r| ensures compare(r[i], r[j]) <= 0 {
      InsertedPair(ds, d, compare, i, j);
    }
  }

  lemma InsertedElements<T>(ds: seq<T>, k: nat, d: T)
    requires k <= |ds|
    ensures multiset(Inserted(ds, k, d)) == multiset(ds) + multiset{d}
  {
    assert ds == ds[..k] + ds[k..];
  }

  // ----- copying -----

  ghost function Mapped<T, U>(ds: seq<T>, f: T -> U): (r: seq<U>)
    ensures |r| == |ds| && forall i :: 0 <= i < |ds| ==> r[i] == f(ds[i])
  {
    seq(|ds|, i requires 0 <= i < |ds| => f(ds[i]))
  }

  /** bctbx_list_copy and its variants: new nodes with the copied data; the original is not touched. */
  method Copy<T, U>(list: Node?<T>, f: T -> U, ghost a: seq<Node<T>>)
    returns (copy: Node?<U>, ghost c: seq<Node<U>>)
    requires IsList(list, a)
    ensures IsList(copy, c) && Contents(c) == Mapped(Contents(a), f)
    ensures forall i :: 0 <= i < |c| ==> fresh(c[i])
  {
    copy, c := null, [];
    var last: Node?<U> := null;
    var iter := list;
    while iter != null
      invariant |c| <= |a| && iter == At(a, |c|) && IsList(copy, c) && last == At(c, |c| - 1)
      invariant forall i :: 0 <= i < |c| ==> fresh(c[i]) && c[i].data == f(a[i].data)
      decreases |a| - |c|
    {
      var item: Node<U>;
      if copy == null {
        item := new Node(f(iter.Data()));
        copy := item;
      } else {
        item := LinkLast(copy, f(iter.Data()), last, c);
        assert Inserted(c, |c|, item) == c + [item];
      }
      last := item;
      c := c + [item];
      iter := iter.Next();
    }
  }

  ghost function Reversed<T>(ds: seq<T>): seq<T> {
    if ds == [] then [] else [ds[|ds| - 1]] + Reversed(ds[..|ds| - 1])
  }

  /** The first of the reversed elements is the last one, and so on. */
  lemma {:induction false} ReversedAt<T>(ds: seq<T>, i: nat)
    requires i < |ds|
    ensures |Reversed(ds)| == |ds| && Reversed(ds)[i] == ds[|ds| - 1 - i]
  {
    var n := |ds| - 1;
    if i > 0 {
      ReversedAt(ds[..n], i - 1);
    } else if n > 0 {
      ReversedAt(ds[..n], 0);
    }
  }

  /** bctbx_list_copy_reverse_with_data */
  method CopyReverse<T, U>(list: Node?<T>, f: T -> U, ghost a: seq<Node<T>>)
    returns (copy: Node?<U>, ghost c: seq<Node<U>>)
    requires IsList(list, a)
    ensures IsList(copy, c) && Contents(c) == Reversed(Mapped(Contents(a), f))
    ensures forall i :: 0 <= i < |c| ==> fresh(c[i])
  {
    copy, c := null, [];
    assert IsList(copy, c);
    hide IsList;
    HeadAt(list, a);
    var iter := list;
    ghost var m := Mapped(Contents(a), f);
    ghost var k := 0;
    assert m[..0] == [];
    while iter != null
      invariant 0 <= k <= |a| && iter == At(a, k) && IsList(copy, c)
      invariant forall i :: 0 <= i < |c| ==> fresh(c[i])
      invariant Contents(c) == Reversed(m[..k])
      decreases |a| - k
    {
      assert m[..k + 1][..k] == m[..k];
      ListAt(list, a, k);
      copy, c := Prepend(copy, f(iter.Data()), c);
      iter := iter.Next();
      k := k + 1;
    }
    assert m[..k] == m;
  }

  // ----- runs of operations -----

  /** bctbx_list_pop_front */
  method PopFront<T>(list: Node?<T>, ghost a: seq<Node<T>>) returns (r: Node?<T>, front: Option<T>)
    requires IsList(list, a)
    modifies a`next, a`prev, a`live
    ensures IsList(r, Tail(a)) && (a == [] <==> front.None?)
    ensures a != [] ==> front == Some(old(a[0].data)) && !a[0].live
  {
    if list == null {
      return null, None;
    }
    front := Some(list.Data());
    r := Unlink(list, list, a, 0);
    assert Without(a, 0) == a[1..];
    list.Free();
  }

  ghost function Tail<E>(s: seq<E>): seq<E> {
    if s == [] then [] else s[1..]
  }

  /** Positions stand for the caller's handles on nodes; one behind the end stands for NULL. */
  datatype Op<T, U> =
    | AppendOp(data: T) | PrependOp(data: T) | InsertOp(position: nat, data: T) | InsertSortedOp(data: T)
    | RemoveOp(data: T) | RemoveCustomOp(user: U) | PopFrontOp | UnlinkOp(position: nat) | EraseLinkOp(position: nat)
    | ConcatOp(other: seq<T>) | CopyOp | CopyReverseOp

  /** The functions that callers hand in: to sort by, to remove by and to copy data with. */
  datatype Callbacks<!T, !U> = Callbacks(order: (T, T) -> int, compare: (T, U) -> int, copy: T -> T)

  ghost function Apply<T, U>(ds: seq<T>, op: Op<T, U>, cb: Callbacks<T, U>): seq<T> {
    match op
    case AppendOp(d) => ds + [d]
    case PrependOp(d) => [d] + ds
    case InsertOp(k, d) => Inserted(ds, if k < |ds| then k else |ds|, d)
    case InsertSortedOp(d) => Inserted(ds, SortedPosition(ds, d, cb.order), d)
    case RemoveOp(d) => RemoveFirst(ds, ds, d)
    case RemoveCustomOp(u) => Kept(ds, ds, Matcher(cb.compare, u))
    case PopFrontOp => Tail(ds)
    case UnlinkOp(k) => Without(ds, k)
    case EraseLinkOp(k) => Without(ds, k)
    case ConcatOp(other) => ds + other
    case CopyOp => Mapped(ds, cb.copy)
    case CopyReverseOp => Reversed(Mapped(ds, cb.copy))
  }

  ghost function Run<T, U>(ds: seq<T>, ops: seq<Op<T, U>>, cb: Callbacks<T, U>): seq<T>
    decreases ops
  {
    if ops == [] then ds else Run(Apply(ds, ops[0], cb), ops[1..], cb)
  }

  /** Nodes that were there at the start or have been allocated since. */
  twostate predicate Owned<T>(a: seq<Node<T>>, new s: seq<Node<T>>) {
    forall i :: 0 <= i < |s| ==> s[i] in a || fresh(s[i])
  }

  method PerformRemove<T(==)>(list: Node?<T>, d: T, ghost a: seq<Node<T>>) returns (r: Node?<T>, ghost s: seq<Node<T>>)
    requires IsList(list, a)
    modifies a`next, a`prev, a`live
    ensures IsList(r, s) && Owned(a, s) && Contents(s) == RemoveFirst(old(Contents(a)), old(Contents(a)), d)
  {
    hide IsList, RemoveFirst, FirstOf;
    ghost var ds := Contents(a);
    var handed;
    r, handed := Remove(list, d, false, a);
    s := RemoveFirst(a, ds, d);
    assert Contents(a) == ds;
    RemoveFirstContents(a, d);
    RemoveFirstWithin(a, ds, d);
  }

  method PerformRemoveCustom<T(==), U>(list: Node?<T>, compare: (T, U) -> int, u: U, ghost a: seq<Node<T>>)
    returns (r: Node?<T>, ghost s: seq<Node<T>>)
    requires IsList(list, a)
    modifies a`next, a`prev, a`live
    ensures IsList(r, s) && Owned(a, s)
    ensures Contents(s) == Kept(old(Contents(a)), old(Contents(a)), Matcher(compare, u))
  {
    hide IsList, Kept, Matcher, Matching;
    ghost var ds := Contents(a);
    var freed;
    r, freed, s := RemoveCustom(list, compare, false, u, a);
    assert Contents(a) == ds;
    KeptContents(a, Matcher(compare, u));
    KeptWithin(a, ds, Matcher(compare, u));
  }

  method PerformPopFront<T>(list: Node?<T>, ghost a: seq<Node<T>>) returns (r: Node?<T>, ghost s: seq<Node<T>>)
    requires IsList(list, a)
    modifies a`next, a`prev, a`live
    ensures IsList(r, s) && Owned(a, s) && Contents(s) == Tail(old(Contents(a)))
  {
    hide IsList;
    var front;
    r, front := PopFront(list, a);
    s := Tail(a);
  }

  /** The caller's handle on the node at position k, reached by bctbx_list_next. */
  method NodeAt<T>(list: Node?<T>, k: nat, ghost a: seq<Node<T>>) returns (n: Node?<T>)
    requires IsList(list, a)
    ensures n == At(a, k)
  {
    n := list;
    var i := 0;
    while i < k && n != null
      invariant 0 <= i <= k && n == At(a, i)
    {
      n := n.Next();
      i := i + 1;
    }
  }

  method PerformInsert<T>(list: Node?<T>, k: nat, d: T, ghost a: seq<Node<T>>)
    returns (r: Node?<T>, ghost s: seq<Node<T>>)
    requires IsList(list, a)
    modifies a`next, a`prev
    ensures IsList(r, s) && Owned(a, s)
    ensures Contents(s) == Inserted(old(Contents(a)), if k < |a| then k else |a|, d)
  {
    var before := NodeAt(list, k, a);
    ghost var p;
    SamePlace(list, a);
    hide IsList;
    r, s, p := Insert(list, before, d, a);
  }

  lemma SamePlace<T>(head: Node?<T>, s: seq<Node<T>>)
    requires IsList(head, s)
    ensures forall i, j :: 0 <= i < |s| && 0 <= j < |s| && s[i] == s[j] ==> i == j
    ensures head == null ==> s == []
  {
  }

  method PerformUnlink<T>(list: Node?<T>, k: nat, erase: bool, ghost a: seq<Node<T>>)
    returns (r: Node?<T>, ghost s: seq<Node<T>>)
    requires IsList(list, a)
    modifies a`next, a`prev, a`live
    ensures IsList(r, s) && Owned(a, s) && Contents(s) == Without(old(Contents(a)), k)
  {
    hide IsList, Without;
    ghost var ds := Contents(a);
    var elem := NodeAt(list, k, a);
    if erase {
      r := EraseLink(list, elem, a, k);
    } else {
      r := Unlink(list, elem, a, k);
    }
    s := Without(a, k);
    assert Contents(a) == ds;
    WithoutContents(a, k);
  }

  lemma WithoutContents<T>(a: seq<Node<T>>, k: nat)
    ensures Contents(Without(a, k)) == Without(Contents(a), k)
    ensures forall i :: 0 <= i < |Without(a, k)| ==> Without(a, k)[i] in a
  {
  }

  /** A list of new nodes with the given data, built by appending. */
  method Build<T>(data: seq<T>) returns (r: Node?<T>, ghost s: seq<Node<T>>)
    ensures IsList(r, s) && Contents(s) == data && forall k :: 0 <= k < |s| ==> fresh(s[k])
  {
    r, s := null, [];
    assert IsList(r, s);
    hide IsList;
    for i := 0 to |data|
      invariant IsList(r, s) && Contents(s) == data[..i]
      invariant forall k :: 0 <= k < |s| ==> fresh(s[k])
    {
      r, s := Append(r, data[i], s);
    }
  }

  /** Another list is linked behind this one. */
  method PerformConcat<T>(list: Node?<T>, other: seq<T>, ghost a: seq<Node<T>>)
    returns (r: Node?<T>, ghost s: seq<Node<T>>)
    requires IsList(list, a)
    modifies a`next
    ensures IsList(r, s) && Owned(a, s) && Contents(s) == old(Contents(a)) + other
  {
    hide IsList;
    ghost var ds := Contents(a);
    var second;
    ghost var b;
    second, b := Build(other);
    r := Concat(list, second, a, b);
    s := a + b;
    assert Contents(a) == ds && Contents(b) == other;
  }

  method PerformCopy<T>(list: Node?<T>, reverse: bool, copy: T -> T, ghost a: seq<Node<T>>)
    returns (r: Node?<T>, ghost s: seq<Node<T>>)
    requires IsList(list, a)
    ensures IsList(r, s) && Owned(a, s)
    ensures Contents(s) == if reverse then Reversed(Mapped(Contents(a), copy)) else Mapped(Contents(a), copy)
  {
    hide IsList, Reversed;
    if reverse {
      r, s := CopyReverse(list, copy, a);
    } else {
      r, s := Copy(list, copy, a);
    }
  }

  /** One operation of a run. */
  method Perform<T(==), U>(list: Node?<T>, op: Op<T, U>, cb: Callbacks<T, U>, ghost a: seq<Node<T>>)
    returns (r: Node?<T>, ghost s: seq<Node<T>>)
    requires IsList(list, a)
    modifies a`next, a`prev, a`live
    ensures IsList(r, s) && Owned(a, s)
    ensures Contents(s) == Apply(old(Contents(a)), op, cb)
  {
    hide IsList, SortedPosition, Kept, Matcher, RemoveFirst, Tail, Without, Inserted, Reversed, Mapped;
    match op
    case AppendOp(d) => r, s := Append(list, d, a);
    case PrependOp(d) => r, s := Prepend(list, d, a);
    case InsertOp(k, d) => r, s := PerformInsert(list, k, d, a);
    case InsertSortedOp(d) => r, s := PerformInsertSorted(list, d, cb.order, a);
    case RemoveOp(d) => r, s := PerformRemove(list, d, a);
    case RemoveCustomOp(u) => r, s := PerformRemoveCustom(list, cb.compare, u, a);
    case PopFrontOp => r, s := PerformPopFront(list, a);
    case UnlinkOp(k) => r, s := PerformUnlink(list, k, false, a);
    case EraseLinkOp(k) => r, s := PerformUnlink(list, k, true, a);
    case ConcatOp(other) => r, s := PerformConcat(list, other, a);
    case CopyOp => r, s := PerformCopy(list, false, cb.copy, a);
    case CopyReverseOp => r, s := PerformCopy(list, true, cb.copy, a);
  }

  method PerformInsertSorted<T>(list: Node?<T>, d: T, order: (T, T) -> int, ghost a: seq<Node<T>>)
    returns (r: Node?<T>, ghost s: seq<Node<T>>)
    requires IsList(list, a)
    modifies a`next, a`prev
    ensures IsList(r, s) && Owned(a, s)
    ensures Contents(s) == Inserted(old(Contents(a)), SortedPosition(old(Contents(a)), d, order), d)
  {
    hide IsList, SortedPosition;
    r, s := InsertSorted(list, d, order, a);
  }

  lemma RemoveFirstContents<T>(a: seq<Node<T>>, d: T)
    ensures Contents(RemoveFirst(a, Contents(a), d)) == RemoveFirst(Contents(a), Contents(a), d)
  {
    hide FirstOf;
  }

  lemma RemoveFirstWithin<E, T>(a: seq<E>, ds: seq<T>, d: T)
    requires |a| == |ds|
    ensures forall i :: 0 <= i < |RemoveFirst(a, ds, d)| ==> RemoveFirst(a, ds, d)[i] in a
  {
    hide FirstOf;
  }

  lemma {:induction false} KeptWithin<E, T>(a: seq<E>, ds: seq<T>, matches: T -> bool)
    requires |a| == |ds|
    ensures forall i :: 0 <= i < |Kept(a, ds, matches)| ==> Kept(a, ds, matches)[i] in a
  {
    if a != [] {
      var n := |a| - 1;
      KeptWithin(a[..n], ds[..n], matches);
      assert forall x :: x in a[..n] ==> x in a;
    }
  }

  /** Every run of operations on a list head keeps a well-formed list that holds what the run on plain
      sequences yields. */
  method Execute<T(==), U>(list: Node?<T>, ops: seq<Op<T, U>>, cb: Callbacks<T, U>, ghost a: seq<Node<T>>)
    returns (r: Node?<T>, ghost s: seq<Node<T>>)
    requires IsList(list, a)
    modifies a`next, a`prev, a`live
    ensures IsList(r, s) && Contents(s) == Run(old(Contents(a)), ops, cb)
  {
    hide IsList, Apply;
    r, s := list, a;
    for i := 0 to |ops|
      invariant IsList(r, s) && Owned(a, s)
      invariant Run(Contents(s), ops[i..], cb) == Run(old(Contents(a)), ops, cb)
    {
      assert ops[i..][1..] == ops[i + 1..];
      r, s := Perform(r, ops[i], cb, s);
    }
  }
}
