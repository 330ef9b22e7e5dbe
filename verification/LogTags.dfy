/** Per-thread log tags: a run-length compressed stack per tag type and a cached view
    (src/logging/log-tags.cc). */
module LogTags {

  // ----- iteration order of std::map<string, ...> -----

  /** std::string's operator<. */
  predicate Less(a: string, b: string) {
    b != "" && (a == "" || a[0] < b[0] || (a[0] == b[0] && Less(a[1..], b[1..])))
  }

  /** The first octet that differs decides; a proper prefix comes first. */
  predicate DecidedAt(a: string, b: string, k: nat) {
    && k <= |a| && k < |b| && a[..k] == b[..k]
    && (k == |a| || a[k] < b[k])
  }

  ghost predicate Before(a: string, b: string) {
    exists k :: DecidedAt(a, b, k)
  }

  lemma {:induction false} LessByOctets(a: string, b: string)
    ensures Less(a, b) <==> Before(a, b)
  {
    if b != "" && a != "" && a[0] == b[0] {
      LessByOctets(a[1..], b[1..]);
      if k: nat :| DecidedAt(a[1..], b[1..], k) {
        assert a == [a[0]] + a[1..] && b == [b[0]] + b[1..];
        assert a[..k + 1] == [a[0]] + a[1..][..k] && b[..k + 1] == [b[0]] + b[1..][..k];
        assert DecidedAt(a, b, k + 1);
      }
      if k: nat :| DecidedAt(a, b, k) {
        assert k > 0;
        assert a[1..][..k - 1] == a[..k][1..] && b[1..][..k - 1] == b[..k][1..];
        assert DecidedAt(a[1..], b[1..], k - 1);
      }
    } else if Less(a, b) {
      assert DecidedAt(a, b, 0);
    } else {
      forall k: nat ensures !DecidedAt(a, b, k) {
        if k > 0 && k <= |a| && k < |b| {
          assert a[..k][0] == a[0] && b[..k][0] == b[0];
        }
      }
    }
  }

  lemma {:induction false} LessTransitive(a: string, b: string, c: string)
    requires Less(a, b) && Less(b, c)
    ensures Less(a, c)
  {
    if a != "" && a[0] == b[0] == c[0] {
      LessTransitive(a[1..], b[1..], c[1..]);
    }
  }

  lemma {:induction false} LessTotal(a: string, b: string)
    requires a != b
    ensures Less(a, b) || Less(b, a)
  {
    if a != "" && b != "" && a[0] == b[0] {
      assert a == [a[0]] + a[1..] && b == [b[0]] + b[1..];
      LessTotal(a[1..], b[1..]);
    }
  }

  lemma {:induction false} LessIrreflexive(a: string)
    ensures !Less(a, a)
  {
    if a != "" {
      LessIrreflexive(a[1..]);
    }
  }

  ghost predicate Ascending(ks: seq<string>) {
    forall i, j :: 0 <= i < j < |ks| ==> Less(ks[i], ks[j])
  }

  /** Where k goes in an ascending sequence. */
  function Insert(k: string, ks: seq<string>): (r: seq<string>)
    ensures forall x :: x in r <==> x == k || x in ks
  {
    if ks == [] || Less(k, ks[0]) then [k] + ks
    else
      var r := [ks[0]] + Insert(k, ks[1..]);
      assert forall x :: x in r <==> x == ks[0] || x in Insert(k, ks[1..]);
      assert ks == [ks[0]] + ks[1..];
      r
  }

  lemma {:induction false} InsertAscending(k: string, ks: seq<string>)
    requires Ascending(ks) && k !in ks
    ensures Ascending(Insert(k, ks))
  {
    if ks == [] {
    } else if Less(k, ks[0]) {
      forall j | 0 <= j < |ks| ensures Less(k, ks[j]) {
        if j > 0 {
          LessTransitive(k, ks[0], ks[j]);
        }
      }
    } else {
      InsertAscending(k, ks[1..]);
      LessTotal(k, ks[0]);
      var t := Insert(k, ks[1..]);
      forall j | 0 <= j < |t| ensures Less(ks[0], t[j]) {
        assert t[j] in t;
        if t[j] != k {
          var i :| 0 <= i < |ks[1..]| && ks[1..][i] == t[j];
          assert Less(ks[0], ks[i + 1]);
        }
      }
    }
  }

  ghost predicate Lists(ks: seq<string>, s: set<string>) {
    Ascending(ks) && forall x :: x in ks <==> x in s
  }

  lemma LeastFirst(ks: seq<string>, x: string)
    requires Ascending(ks) && x in ks
    ensures x == ks[0] || Less(ks[0], x)
  {
  }

  lemma {:induction false} TailLists(ks: seq<string>, s: set<string>)
    requires Lists(ks, s) && ks != []
    ensures Lists(ks[1..], s - {ks[0]})
  {
    forall x ensures x in ks[1..] <==> x in s - {ks[0]} {
      if x in ks[1..] {
        var i :| 0 <= i < |ks[1..]| && ks[1..][i] == x;
        assert Less(ks[0], ks[i + 1]);
        LessIrreflexive(x);
      }
      assert ks == [ks[0]] + ks[1..];
    }
  }

  lemma ListsNothing(ks: seq<string>, s: set<string>)
    requires Lists(ks, s)
    ensures ks == [] <==> s == {}
  {
    if ks != [] {
      assert ks[0] in s;
    }
  }

  /** The ascending listing of a set is unique. */
  lemma {:induction false} ListingUnique(ks: seq<string>, ls: seq<string>, s: set<string>)
    requires Lists(ks, s) && Lists(ls, s)
    ensures ks == ls
    decreases |ks|
  {
    ListsNothing(ks, s);
    ListsNothing(ls, s);
    if ks != [] {
      assert ks[0] in s && ks[0] in ls;
      assert ls[0] in s && ls[0] in ks;
      LeastFirst(ks, ls[0]);
      LeastFirst(ls, ks[0]);
      if ks[0] != ls[0] {
        LessTransitive(ks[0], ls[0], ks[0]);
        LessIrreflexive(ks[0]);
        assert false;
      }
      TailLists(ks, s);
      TailLists(ls, s);
      ListingUnique(ks[1..], ls[1..], s - {ks[0]});
      assert ks == [ks[0]] + ks[1..] && ls == [ls[0]] + ls[1..];
    }
  }

  /** The keys of an ordered map, first to last. */
  method KeysInOrder(s: set<string>) returns (ks: seq<string>)
    ensures Lists(ks, s)
  {
    ks := [];
    var rest := s;
    while rest != {}
      invariant rest <= s && Lists(ks, s - rest)
      decreases rest
    {
      var k :| k in rest;
      InsertAscending(k, ks);
      ks := Insert(k, ks);
      rest := rest - {k};
    }
  }

  ghost function SortedKeys(s: set<string>): (ks: seq<string>)
    ensures Lists(ks, s)
  {
    if s == {} then [] else
      var k :| k in s;
      var rest := SortedKeys(s - {k});
      InsertAscending(k, rest);
      Insert(k, rest)
  }

  // ----- plain stacks: what the header promises -----

  /** One non-empty stack of values per tag type in use; its last element is the current value. */
  type Plain = map<string, seq<string>>

  function StackOf(m: Plain, k: string): seq<string> {
    if k in m then m[k] else []
  }

  function Push(m: Plain, k: string, v: string): Plain {
    m[k := StackOf(m, k) + [v]]
  }

  function Pop(m: Plain, k: string): Plain {
    if k !in m || |m[k]| == 0 then m
    else if |m[k]| == 1 then m - {k}
    else m[k := m[k][..|m[k]| - 1]]
  }

  predicate NoEmptyStack(m: Plain) {
    forall k :: k in m ==> m[k] != []
  }

  function Top(st: seq<string>): string
    requires st != []
  {
    st[|st| - 1]
  }

  /** The current values, in the order of their tag types. */
  ghost function View(m: Plain): seq<string>
    requires NoEmptyStack(m)
  {
    var ks := SortedKeys(m.Keys);
    seq(|ks|, i requires 0 <= i < |ks| => assert ks[i] in ks; Top(m[ks[i]]))
  }

  datatype Op = PushOp(key: string, value: string) | PopOp(key: string)

  function Apply(m: Plain, op: Op): Plain {
    match op
    case PushOp(k, v) => Push(m, k, v)
    case PopOp(k) => Pop(m, k)
  }

  function Run(m: Plain, ops: seq<Op>): Plain
    decreases ops
  {
    if ops == [] then m else Run(Apply(m, ops[0]), ops[1..])
  }

  lemma {:induction false} RunAppend(m: Plain, xs: seq<Op>, ys: seq<Op>)
    ensures Run(m, xs + ys) == Run(Run(m, xs), ys)
    decreases xs
  {
    if xs == [] {
      assert xs + ys == ys;
    } else {
      assert (xs + ys)[1..] == xs[1..] + ys;
      RunAppend(Apply(m, xs[0]), xs[1..], ys);
    }
  }

  /** Code blocks that push a tag, run nested blocks and pop it again, one after the other. */
  datatype Blocks = Done | Block(key: string, value: string, inner: Blocks, next: Blocks)

  function Ops(bs: Blocks): seq<Op> {
    match bs
    case Done => []
    case Block(k, v, inner, next) => [PushOp(k, v)] + Ops(inner) + [PopOp(k)] + Ops(next)
  }

  lemma PopUndoesPush(m: Plain, k: string, v: string)
    requires NoEmptyStack(m)
    ensures NoEmptyStack(Push(m, k, v)) && Pop(Push(m, k, v), k) == m
  {
    var p := Push(m, k, v);
    if k in m {
      assert p[k][..|p[k]| - 1] == m[k];
    }
  }

  /** What was pushed last is shown, and no other tag changes; popping it uncovers what was there. */
  lemma PushedShows(m: Plain, k: string, v: string, other: string)
    requires NoEmptyStack(m)
    ensures k in Push(m, k, v) && |Push(m, k, v)[k]| > 0 && Push(m, k, v)[k][|Push(m, k, v)[k]| - 1] == v
    ensures other != k ==> (other in Push(m, k, v) <==> other in m)
    ensures other != k && other in m ==> Push(m, k, v)[other] == m[other]
    ensures Pop(Push(m, k, v), k) == m
  {
    PopUndoesPush(m, k, v);
  }

  /** Leaving properly nested blocks restores every tag. */
  lemma {:induction false} BlocksRestore(m: Plain, bs: Blocks)
    requires NoEmptyStack(m)
    ensures Run(m, Ops(bs)) == m
    decreases bs
  {
    match bs
    case Done =>
    case Block(k, v, inner, next) =>
      var a, b, c, d := [PushOp(k, v)], Ops(inner), [PopOp(k)], Ops(next);
      RunAppend(m, a + b + c, d);
      RunAppend(m, a + b, c);
      RunAppend(m, a, b);
      PopUndoesPush(m, k, v);
      RunOne(m, a[0]);
      BlocksRestore(Push(m, k, v), inner);
      RunOne(Push(m, k, v), c[0]);
      BlocksRestore(m, next);
  }

  lemma RunOne(m: Plain, op: Op)
    ensures Run(m, [op]) == Apply(m, op)
  {
    assert [op][1..] == [];
  }

  // ----- the compressed representation -----

  datatype TagValue = TagValue(value: string, count: int)

  function Repeat(v: string, n: nat): (r: seq<string>)
    ensures |r| == n && forall i :: 0 <= i < n ==> r[i] == v
  {
    seq(n, _ => v)
  }

  /** Counts are positive and no two neighbours hold the same value. */
  predicate Compressed(st: seq<TagValue>) {
    && (forall i :: 0 <= i < |st| ==> st[i].count >= 1)
    && (forall i :: 0 <= i < |st| - 1 ==> st[i].value != st[i + 1].value)
  }

  function Expand(st: seq<TagValue>): (r: seq<string>)
    requires Compressed(st)
    ensures st == [] <==> r == []
    ensures st != [] ==> Top(r) == st[|st| - 1].value
  {
    if st == [] then []
    else Expand(st[..|st| - 1]) + Repeat(st[|st| - 1].value, st[|st| - 1].count)
  }

  /** tagStack.push or ++tagStack.top().mCount */
  function PushCompressed(st: seq<TagValue>, v: string): (r: seq<TagValue>)
    requires Compressed(st)
    ensures Compressed(r)
  {
    var n := |st|;
    if n == 0 || st[n - 1].value != v then st + [TagValue(v, 1)]
    else st[n - 1 := TagValue(v, st[n - 1].count + 1)]
  }

  lemma {:induction false} PushExpands(st: seq<TagValue>, v: string)
    requires Compressed(st)
    ensures Expand(PushCompressed(st, v)) == Expand(st) + [v]
  {
    var n, r := |st|, PushCompressed(st, v);
    if n == 0 || st[n - 1].value != v {
      assert r[..n] == st;
      assert Repeat(v, 1) == [v];
    } else {
      assert r[..n - 1] == st[..n - 1];
      assert Repeat(v, st[n - 1].count + 1) == Repeat(v, st[n - 1].count) + [v];
    }
  }

  /** --tagStack.top().mCount, and tagStack.pop() when it reaches 0 */
  function PopCompressed(st: seq<TagValue>): (r: seq<TagValue>)
    requires Compressed(st) && st != []
    ensures Compressed(r)
  {
    var n := |st|;
    if st[n - 1].count == 1 then st[..n - 1]
    else st[n - 1 := TagValue(st[n - 1].value, st[n - 1].count - 1)]
  }

  lemma DropLast(a: seq<string>, b: seq<string>)
    requires b != []
    ensures (a + b)[..|a + b| - 1] == a + b[..|b| - 1]
  {
  }

  lemma {:induction false} PopExpands(st: seq<TagValue>)
    requires Compressed(st) && st != []
    ensures Expand(PopCompressed(st)) == Expand(st)[..|Expand(st)| - 1]
  {
    var n, r := |st|, PopCompressed(st);
    var v, k := st[n - 1].value, st[n - 1].count;
    var front := Expand(st[..n - 1]);
    assert Expand(st) == front + Repeat(v, k);
    assert Expand(r) == front + Repeat(v, k - 1) by {
      if k > 1 {
        assert r[..n - 1] == st[..n - 1];
      } else {
        assert front + Repeat(v, 0) == front;
      }
    }
    hide Expand, Compressed, PopCompressed;
    DropLast(front, Repeat(v, k));
    assert Repeat(v, k - 1) == Repeat(v, k)[..k - 1];
  }

  type Stacks = map<string, seq<TagValue>>

  predicate AllCompressed(tags: Stacks) {
    forall k :: k in tags ==> Compressed(tags[k])
  }

  /** The plain stacks that the compressed ones stand for; emptied ones count as absent. */
  ghost function Meaning(tags: Stacks): (m: Plain)
    requires AllCompressed(tags)
    ensures NoEmptyStack(m)
  {
    map k | k in tags && tags[k] != [] :: Expand(tags[k])
  }

  /** Updating one stack updates its meaning and nothing else. */
  lemma {:induction false} MeaningUpdate(tags: Stacks, k: string, st: seq<TagValue>)
    requires AllCompressed(tags) && Compressed(st)
    ensures AllCompressed(tags[k := st])
    ensures Meaning(tags[k := st]) == if st == [] then Meaning(tags) - {k} else Meaning(tags)[k := Expand(st)]
  {
    hide Expand, Compressed;
    var m, m' := Meaning(tags), Meaning(tags[k := st]);
    assert m'.Keys == if st == [] then m.Keys - {k} else m.Keys + {k};
  }

  lemma {:induction false} PushMeaning(tags: Stacks, k: string, v: string)
    requires AllCompressed(tags)
    ensures var st := if k in tags then tags[k] else [];
            var tags' := tags[k := PushCompressed(st, v)];
            AllCompressed(tags') && Meaning(tags') == Push(Meaning(tags), k, v)
  {
    var st := if k in tags then tags[k] else [];
    assert PushCompressed(st, v) != [];
    hide PushCompressed, Expand, Compressed, AllCompressed;
    PushExpands(st, v);
    MeaningUpdate(tags, k, PushCompressed(st, v));
    MeaningAt(tags, k);
    assert StackOf(Meaning(tags), k) == Expand(st);
  }

  lemma {:induction false} MeaningAt(tags: Stacks, k: string)
    requires AllCompressed(tags)
    ensures k in Meaning(tags) <==> k in tags && tags[k] != []
    ensures k in Meaning(tags) ==> Meaning(tags)[k] == Expand(tags[k])
    ensures k in tags && tags[k] == [] ==> Expand(tags[k]) == []
    ensures Expand([]) == []
  {
  }

  lemma {:induction false} PopMeaning(tags: Stacks, k: string)
    requires AllCompressed(tags)
    ensures !InUse(tags, k) ==>
              AllCompressed(tags[k := []]) && Pop(Meaning(tags), k) == Meaning(tags) == Meaning(tags[k := []])
    ensures InUse(tags, k) ==>
              var tags' := tags[k := PopCompressed(tags[k])];
              AllCompressed(tags') && Meaning(tags') == Pop(Meaning(tags), k)
  {
    MeaningAt(tags, k);
    hide Expand, Compressed;
    var m := Meaning(tags);
    if InUse(tags, k) {
      var r := PopCompressed(tags[k]);
      PopExpands(tags[k]);
      MeaningUpdate(tags, k, r);
      assert r == [] <==> Expand(r) == [];
    } else {
      MeaningUpdate(tags, k, []);
      assert m - {k} == m;
    }
  }

  predicate InUse(tags: Stacks, k: string) {
    k in tags && tags[k] != []
  }

  // ----- the cached view -----

  /** The tag types in use, among ks. */
  ghost function Filtered(tags: Stacks, ks: seq<string>): (r: seq<string>)
    ensures forall x :: x in r <==> x in ks && InUse(tags, x)
  {
    if ks == [] then [] else
      var rest := Filtered(tags, ks[1..]);
      assert ks == [ks[0]] + ks[1..];
      if InUse(tags, ks[0]) then
        assert forall x :: x in [ks[0]] + rest <==> x == ks[0] || x in rest;
        [ks[0]] + rest
      else rest
  }

  lemma {:induction false} FilteredAscending(tags: Stacks, ks: seq<string>)
    requires Ascending(ks)
    ensures Ascending(Filtered(tags, ks))
  {
    if ks != [] {
      FilteredAscending(tags, ks[1..]);
      var rest := Filtered(tags, ks[1..]);
      forall j | 0 <= j < |rest| ensures Less(ks[0], rest[j]) {
        assert rest[j] in ks[1..];
        var i :| 0 <= i < |ks[1..]| && ks[1..][i] == rest[j];
        assert Less(ks[0], ks[i + 1]);
      }
    }
  }

  /** The values that getTags collects from the stacks listed in ks. */
  function Tops(tags: Stacks, ks: seq<string>): seq<string> {
    if ks == [] then []
    else if InUse(tags, ks[0]) then [tags[ks[0]][|tags[ks[0]]| - 1].value] + Tops(tags, ks[1..])
    else Tops(tags, ks[1..])
  }

  lemma {:induction false} TopsAt(tags: Stacks, ks: seq<string>)
    requires AllCompressed(tags)
    ensures var f := Filtered(tags, ks);
            && |Tops(tags, ks)| == |f|
            && forall i :: 0 <= i < |f| ==> f[i] in Meaning(tags) && Tops(tags, ks)[i] == Top(Meaning(tags)[f[i]])
  {
    hide Expand;
    if ks != [] {
      TopsAt(tags, ks[1..]);
      var f, rest := Filtered(tags, ks), Filtered(tags, ks[1..]);
      if InUse(tags, ks[0]) {
        assert f == [ks[0]] + rest;
        forall i | 0 <= i < |f|
          ensures f[i] in Meaning(tags) && Tops(tags, ks)[i] == Top(Meaning(tags)[f[i]]) {
          if i > 0 {
            assert f[i] == rest[i - 1] && Tops(tags, ks)[i] == Tops(tags, ks[1..])[i - 1];
          }
        }
      } else {
        assert f == rest;
      }
    }
  }

  /** Collecting the tops in key order yields the view of the plain stacks. */
  lemma {:induction false} TopsAreView(tags: Stacks, ks: seq<string>)
    requires AllCompressed(tags) && Lists(ks, tags.Keys)
    ensures Tops(tags, ks) == View(Meaning(tags))
  {
    hide Tops, Filtered, SortedKeys;
    var f, m := Filtered(tags, ks), Meaning(tags);
    FilteredAscending(tags, ks);
    assert Lists(f, m.Keys);
    ListingUnique(f, SortedKeys(m.Keys), m.Keys);
    TopsAt(tags, ks);
  }

  /** The view: for each tag type in use, by ascending type, its last value. */
  lemma ViewByOctets(m: Plain) returns (ks: seq<string>)
    requires NoEmptyStack(m)
    ensures |View(m)| == |ks| && (forall k :: k in ks <==> k in m)
    ensures forall i, j :: 0 <= i < j < |ks| ==> Before(ks[i], ks[j])
    ensures forall i :: 0 <= i < |ks| ==> ks[i] in m && m[ks[i]] != [] && View(m)[i] == m[ks[i]][|m[ks[i]]| - 1]
  {
    ks := SortedKeys(m.Keys);
    assert Lists(ks, m.Keys);
    hide SortedKeys, Less, Before;
    forall k ensures k in ks <==> k in m {
      assert k in ks <==> k in m.Keys;
    }
    forall i | 0 <= i < |ks| ensures ks[i] in m {
      assert ks[i] in ks;
    }
    forall i, j | 0 <= i < j < |ks| ensures Before(ks[i], ks[j]) {
      LessByOctets(ks[i], ks[j]);
    }
  }

  // ----- copying a context -----

  ghost function CopyOf(m: Plain): map<string, string>
    requires NoEmptyStack(m)
  {
    map k | k in m :: Top(m[k])
  }

  ghost function PasteOn(m: Plain, ctx: map<string, string>): (r: Plain)
    ensures NoEmptyStack(m) ==> NoEmptyStack(r)
  {
    map k | k in m.Keys + ctx.Keys :: if k in ctx then StackOf(m, k) + [ctx[k]] else StackOf(m, k)
  }

  /** The view depends on the tops only. */
  lemma SameTopsSameView(m: Plain, m': Plain)
    requires NoEmptyStack(m) && NoEmptyStack(m') && m.Keys == m'.Keys
    requires forall k :: k in m ==> Top(m[k]) == Top(m'[k])
    ensures View(m) == View(m')
  {
    hide SortedKeys, Top;
    var ks := SortedKeys(m.Keys);
    forall i | 0 <= i < |ks| ensures ks[i] in m && Top(m'[ks[i]]) == Top(m[ks[i]]) {
      assert ks[i] in ks;
    }
  }

  /** A tag type less to list is a shorter listing. */
  lemma {:induction false} ListingLength(ks: seq<string>, ls: seq<string>, s: set<string>, t: set<string>)
    requires Lists(ks, s) && Lists(ls, t) && s <= t
    ensures |ks| <= |ls| && (|ks| == |ls| ==> s == t)
    decreases |ks|
  {
    ListsNothing(ks, s);
    ListsNothing(ls, t);
    if ks != [] {
      var x := ks[0];
      assert x in s;
      var i :| 0 <= i < |ls| && ls[i] == x;
      ListsWithout(ls, t, i);
      TailLists(ks, s);
      ListingLength(ks[1..], ls[..i] + ls[i + 1..], s - {x}, t - {x});
      assert s == (s - {x}) + {x} && t == (t - {x}) + {x};
    }
  }

  lemma ListsWithout(ls: seq<string>, t: set<string>, i: nat)
    requires Lists(ls, t) && i < |ls|
    ensures Lists(ls[..i] + ls[i + 1..], t - {ls[i]})
  {
    var r := ls[..i] + ls[i + 1..];
    assert forall j :: 0 <= j < |r| ==> r[j] == ls[if j < i then j else j + 1];
    forall x ensures x in r <==> x in t - {ls[i]} {
      if x in r {
        var j :| 0 <= j < |r| && r[j] == x;
        LessIrreflexive(ls[i]);
        assert x == ls[if j < i then j else j + 1] && x in ls;
      }
      if x in t - {ls[i]} {
        var j :| 0 <= j < |ls| && ls[j] == x;
        assert r[if j < i then j else j - 1] == x;
      }
    }
  }

  lemma ViewLength(m: Plain, m': Plain)
    requires NoEmptyStack(m) && NoEmptyStack(m') && m.Keys <= m'.Keys && View(m) == View(m')
    ensures m.Keys == m'.Keys
  {
    hide Top;
    ListingLength(SortedKeys(m.Keys), SortedKeys(m'.Keys), m.Keys, m'.Keys);
  }

  lemma PastedTop(m0: Plain, m: Plain, k: string)
    requires NoEmptyStack(m) && k in m
    ensures k in PasteOn(m0, CopyOf(m)) && PasteOn(m0, CopyOf(m))[k] != []
    ensures Top(PasteOn(m0, CopyOf(m))[k]) == Top(m[k])
  {
  }

  /** A copy pasted into a context shows the tags it was made of if and only if that context has no tag type
      of its own; tags of the same types do not matter, they are covered. */
  lemma PasteShowsCopy(m0: Plain, m: Plain)
    requires NoEmptyStack(m0) && NoEmptyStack(m)
    ensures View(PasteOn(m0, CopyOf(m))) == View(m) <==> m0.Keys <= m.Keys
  {
    hide View, Top;
    var p := PasteOn(m0, CopyOf(m));
    assert p.Keys == m0.Keys + m.Keys;
    if m0.Keys <= m.Keys {
      forall k | k in m ensures Top(m[k]) == Top(p[k]) {
        PastedTop(m0, m, k);
      }
      SameTopsSameView(m, p);
    } else if View(p) == View(m) {
      ViewLength(m, p);
    }
  }

  /** A fresh context shows the same tags. */
  lemma PasteOfCopy(m: Plain)
    requires NoEmptyStack(m)
    ensures View(PasteOn(map[], CopyOf(m))) == View(m)
  {
    PasteShowsCopy(map[], m);
  }

  /** The message that a paste prints, that the tags already there are lost, is right only when there are none. */
  lemma PasteLosesNothing(m0: Plain, m: Plain)
    requires NoEmptyStack(m0) && NoEmptyStack(m)
    ensures PasteOn(m0, CopyOf(m)) == PasteOn(map[], CopyOf(m)) <==> m0 == map[]
  {
    hide Top;
    var p, q := PasteOn(m0, CopyOf(m)), PasteOn(map[], CopyOf(m));
    if m0 != map[] {
      assert m0.Keys != {} by { assert m0.Keys == {} ==> m0 == map[]; }
      var k :| k in m0;
      assert k in p;
      assert k in q ==> |p[k]| == |m0[k]| + 1 && |q[k]| == 1;
    }
  }

  /** Pasting puts each copied value on top of what its type has, and touches nothing else. */
  lemma PasteCovers(m0: Plain, ctx: map<string, string>, k: string)
    requires NoEmptyStack(m0)
    ensures k in ctx ==> k in PasteOn(m0, ctx) && |PasteOn(m0, ctx)[k]| > 0
    ensures k in ctx ==> PasteOn(m0, ctx)[k][|PasteOn(m0, ctx)[k]| - 1] == ctx[k]
    ensures k in ctx ==> StackOf(Pop(PasteOn(m0, ctx), k), k) == StackOf(m0, k)
    ensures k !in ctx ==> StackOf(PasteOn(m0, ctx), k) == StackOf(m0, k)
  {
    if k in ctx {
      var p := PasteOn(m0, ctx);
      assert p[k][..|p[k]| - 1] == StackOf(m0, k);
    }
  }

  class LogContext {
    var tags: Stacks
    var currentTags: seq<string>
    var currentTagsCList: seq<string>
    var tagsModified: bool

    ghost predicate Valid()
      reads this
    {
      && AllCompressed(tags)
      && (!tagsModified ==> currentTags == currentTagsCList == View(Meaning(tags)))
    }

    ghost function Contents(): (m: Plain)
      requires Valid()
      reads this
      ensures NoEmptyStack(m)
    {
      Meaning(tags)
    }

    constructor ()
      ensures Valid() && Contents() == map[]
    {
      tags := map[];
      currentTags, currentTagsCList, tagsModified := [], [], false;
      new;
      var noTags: Stacks := map[];
      TopsAreView(noTags, []);
    }

    method PushTag(tagType: string, tagValue: string)
      requires Valid()
      modifies this
      ensures Valid() && Contents() == Push(old(Contents()), tagType, tagValue)
    {
      hide Meaning;
      PushMeaning(tags, tagType, tagValue);
      if tagType !in tags {
        tags := tags[tagType := []];
      }
      var st := tags[tagType];
      ghost var r := PushCompressed(st, tagValue);
      assert tags[tagType := r] == old(tags)[tagType := r];
      if st == [] || st[|st| - 1].value != tagValue {
        tags := tags[tagType := st + [TagValue(tagValue, 1)]];
      } else {
        tags := tags[tagType := st[|st| - 1 := TagValue(tagValue, st[|st| - 1].count + 1)]];
      }
      tagsModified := true;
    }

    /** The view is marked stale only when an entry disappears; a mere decrement leaves every top alone. */
    method PopTag(tagType: string)
      requires Valid()
      modifies this
      ensures Valid() && Contents() == Pop(old(Contents()), tagType)
    {
      hide Meaning, Expand, View;
      PopMeaning(tags, tagType);
      if tagType !in tags {
        tags := tags[tagType := []];
      }
      var st := tags[tagType];
      if st == [] {
        return;
      }
      var top := st[|st| - 1].(count := st[|st| - 1].count - 1);
      ghost var r := PopCompressed(st);
      if top.count == 0 {
        assert r == st[..|st| - 1];
        tags := tags[tagType := st[..|st| - 1]];
        tagsModified := true;
      } else {
        DecrementKeepsView(tags, tagType);
        assert r == st[|st| - 1 := top];
        tags := tags[tagType := st[|st| - 1 := top]];
      }
    }

    method GetTags() returns (r: seq<string>)
      requires Valid()
      modifies this`currentTags, this`currentTagsCList, this`tagsModified
      ensures Valid() && !tagsModified && r == currentTags == currentTagsCList == View(Contents())
    {
      if tagsModified {
        currentTags, currentTagsCList := [], [];
        var ks := KeysInOrder(tags.Keys);
        for i := |ks| downto 0
          invariant tags == old(tags)
          invariant currentTags == currentTagsCList == Tops(tags, ks[i..])
        {
          assert ks[i] in ks && ks[i..][1..] == ks[i + 1..];
          var st := tags[ks[i]];
          if st != [] {
            currentTags := [st[|st| - 1].value] + currentTags;
            currentTagsCList := [st[|st| - 1].value] + currentTagsCList;
          }
        }
        assert ks[0..] == ks;
        TopsAreView(tags, ks);
        tagsModified := false;
      }
      r := currentTags;
    }

    method CreateCopy() returns (ctx: map<string, string>)
      requires Valid()
      ensures ctx == CopyOf(Contents())
    {
      hide Expand;
      ctx := map k | k in tags && tags[k] != [] :: tags[k][|tags[k]| - 1].value;
    }

    /** Tags already present stay underneath. */
    method Paste(ctx: map<string, string>)
      requires Valid()
      modifies this
      ensures Valid() && Contents() == PasteOn(old(Contents()), ctx)
    {
      hide Meaning;
      var rest := ctx.Keys;
      ghost var m := Contents();
      PasteNothing(m, ctx);
      while rest != {}
        invariant rest <= ctx.Keys && Valid() && Contents() == PasteOn(m, ctx - rest)
        decreases rest
      {
        var k :| k in rest;
        PasteOne(m, ctx, rest, k);
        PushTag(k, ctx[k]);
        rest := rest - {k};
      }
      assert ctx - {} == ctx;
    }

    /** Any run of pushes and pops. */
    method Execute(ops: seq<Op>)
      requires Valid()
      modifies this
      ensures Valid() && Contents() == Run(old(Contents()), ops)
    {
      hide Meaning;
      for i := 0 to |ops|
        invariant Valid() && Run(Contents(), ops[i..]) == Run(old(Contents()), ops)
      {
        assert ops[i..][1..] == ops[i + 1..];
        match ops[i]
        case PushOp(k, v) => PushTag(k, v);
        case PopOp(k) => PopTag(k);
      }
    }
  }

  lemma PasteNothing(m: Plain, ctx: map<string, string>)
    ensures PasteOn(m, ctx - ctx.Keys) == m
  {
    var p := PasteOn(m, ctx - ctx.Keys);
    assert p.Keys == m.Keys;
  }

  lemma PasteOne(m: Plain, ctx: map<string, string>, rest: set<string>, k: string)
    requires k in rest && rest <= ctx.Keys
    ensures PasteOn(m, ctx - (rest - {k})) == Push(PasteOn(m, ctx - rest), k, ctx[k])
  {
    var a, b := ctx - rest, ctx - (rest - {k});
    var p, q := PasteOn(m, a), PasteOn(m, b);
    var pushed := Push(p, k, ctx[k]);
    assert StackOf(p, k) == StackOf(m, k);
    assert q.Keys == pushed.Keys;
    forall x | x in q ensures q[x] == pushed[x] {
      if x != k {
        assert x in a <==> x in b;
      }
    }
  }

  /** Popping an entry whose count stays positive changes no top, hence not the view. */
  lemma {:induction false} DecrementKeepsView(tags: Stacks, k: string)
    requires AllCompressed(tags) && InUse(tags, k) && tags[k][|tags[k]| - 1].count > 1
    ensures AllCompressed(tags[k := PopCompressed(tags[k])])
    ensures View(Meaning(tags[k := PopCompressed(tags[k])])) == View(Meaning(tags))
  {
    hide View;
    var st := tags[k];
    var r := PopCompressed(st);
    MeaningUpdate(tags, k, r);
    MeaningAt(tags, k);
    assert Top(Expand(r)) == Top(Expand(st)) && Expand(r) != [];
    hide Expand, Meaning, Top;
    SameTopsSameView(Meaning(tags), Meaning(tags[k := r]));
  }
}
