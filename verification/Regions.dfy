/** Ranges of virtual pages: the live ones, and the free ones in a list. */
module Regions {
  import opened Bytes

  /** `pages` pages from page `first` on. */
  datatype Span = Span(first: nat, pages: nat)

  /** A live range: its length and the first of the consecutive frames behind it. */
  datatype Live = Live(pages: nat, frame: nat)

  predicate Apart(a: Span, b: Span)
  {
    a.first + a.pages <= b.first || b.first + b.pages <= a.first
  }

  predicate Within(a: Span, lo: nat, hi: nat)
  {
    0 < a.pages && lo <= a.first && a.first + a.pages <= hi
  }

  function SpanOf(live: map<nat, Live>, s: nat): Span
    requires s in live
  {
    Span(s, live[s].pages)
  }

  /** Free and live ranges lie between lo and next, and no two of them overlap. */
  ghost predicate Spaced(lo: nat, next: nat, free: seq<Span>, live: map<nat, Live>)
  {
    && lo <= next
    && (forall i :: 0 <= i < |free| ==> Within(free[i], lo, next))
    && (forall s :: s in live ==> Within(SpanOf(live, s), lo, next))
    && (forall i, j :: 0 <= i < j < |free| ==> Apart(free[i], free[j]))
    && (forall i, s :: 0 <= i < |free| && s in live ==> Apart(free[i], SpanOf(live, s)))
    && (forall s, r :: s in live && r in live && s != r ==> Apart(SpanOf(live, s), SpanOf(live, r)))
  }

  /** A range that overlaps none of them. */
  ghost predicate Unclaimed(a: Span, free: seq<Span>, live: map<nat, Live>)
  {
    && (forall i :: 0 <= i < |free| ==> Apart(a, free[i]))
    && (forall s :: s in live ==> Apart(a, SpanOf(live, s)))
  }

  /** The free ranges after n pages were taken off the front of range k. */
  function Carved(free: seq<Span>, k: nat, n: nat): seq<Span>
    requires k < |free| && n <= free[k].pages
  {
    if free[k].pages == n then free[..k] + free[k + 1..]
    else free[k := Span(free[k].first + n, free[k].pages - n)]
  }

  lemma CarvedSpaced(lo: nat, next: nat, free: seq<Span>, live: map<nat, Live>, k: nat, n: nat)
    requires Spaced(lo, next, free, live) && k < |free| && 0 < n <= free[k].pages
    ensures Spaced(lo, next, Carved(free, k, n), live)
    ensures var a := Span(free[k].first, n); Within(a, lo, next) && Unclaimed(a, Carved(free, k, n), live)
  {
    var free' := Carved(free, k, n);
    if free[k].pages == n {
      forall i | 0 <= i < |free'| ensures free'[i] == free[if i < k then i else i + 1] {
      }
    }
  }

  lemma LiveSpaced(lo: nat, next: nat, free: seq<Span>, live: map<nat, Live>, v: nat, l: Live)
    requires Spaced(lo, next, free, live) && Within(Span(v, l.pages), lo, next)
             && Unclaimed(Span(v, l.pages), free, live)
    ensures v !in live && Spaced(lo, next, free, live[v := l])
  {
    if v in live {
      SameStart(Span(v, l.pages), SpanOf(live, v));
    }
  }

  lemma SameStart(a: Span, b: Span)
    requires a.first == b.first && 0 < a.pages && 0 < b.pages
    ensures !Apart(a, b)
  {
  }

  lemma GrownSpaced(lo: nat, next: nat, free: seq<Span>, live: map<nat, Live>, n: nat)
    requires Spaced(lo, next, free, live) && 0 < n
    ensures Spaced(lo, next + n, free, live)
    ensures var a := Span(next, n); Within(a, lo, next + n) && Unclaimed(a, free, live)
  {
  }

  lemma FreedSpaced(lo: nat, next: nat, free: seq<Span>, live: map<nat, Live>, s: nat)
    requires Spaced(lo, next, free, live) && s in live
    ensures Spaced(lo, next, free, live - {s})
    ensures Spaced(lo, next, [SpanOf(live, s)] + free, live - {s})
  {
  }

  /** The first range of at least n pages. */
  function FirstFit(free: seq<Span>, n: nat): (r: Option<nat>)
    ensures r.Some? ==> r.value < |free| && n <= free[r.value].pages
    ensures r.Some? ==> forall i :: 0 <= i < r.value ==> free[i].pages < n
    ensures r.None? ==> forall i :: 0 <= i < |free| ==> free[i].pages < n
  {
    if free == [] then None
    else if n <= free[0].pages then Some(0)
    else
      var r := FirstFit(free[1..], n);
      if r.None? then None else Some(r.value + 1)
  }

  lemma FirstFitIs(free: seq<Span>, n: nat, k: nat)
    requires k <= |free| && (forall i :: 0 <= i < k ==> free[i].pages < n) && (k < |free| ==> n <= free[k].pages)
    ensures FirstFit(free, n) == if k < |free| then Some(k) else None
  {
    hide FirstFit;
  }

  /** No range in the list is empty or out of bounds. */
  lemma SomePages(lo: nat, next: nat, free: seq<Span>, live: map<nat, Live>, k: nat)
    requires Spaced(lo, next, free, live) && k < |free|
    ensures 0 < free[k].pages && lo <= free[k].first && free[k].first + free[k].pages <= next
  {
    assert Within(free[k], lo, next);
  }

  lemma LivePagesSome(lo: nat, next: nat, free: seq<Span>, live: map<nat, Live>, s: nat)
    requires Spaced(lo, next, free, live) && s in live
    ensures 0 < live[s].pages && forall i :: 0 <= i < |free| ==> Apart(free[i], SpanOf(live, s))
  {
    assert Within(SpanOf(live, s), lo, next);
  }

  // ----- the pages of live ranges

  predicate InSpan(x: nat, a: Span)
  {
    a.first <= x < a.first + a.pages
  }

  lemma ApartPages(x: nat, a: Span, b: Span)
    requires Apart(a, b)
    ensures !(InSpan(x, a) && InSpan(x, b))
  {
  }

  /** `mapped` takes the pages of the live ranges, and no others, to their frames. */
  ghost predicate Backs(live: map<nat, Live>, mapped: map<nat, nat>)
  {
    && (forall s, x: nat :: s in live && InSpan(x, SpanOf(live, s)) ==>
          x in mapped && mapped[x] == live[s].frame + x - s)
    && (forall x: nat :: x in mapped ==> exists s :: s in live && InSpan(x, SpanOf(live, s)))
    && OneToOne(mapped)
  }

  /** No two pages share a frame. */
  ghost predicate OneToOne(mapped: map<nat, nat>)
  {
    forall x, y :: x in mapped && y in mapped && mapped[x] == mapped[y] ==> x == y
  }

  /** The pages of a live range, and their frames. */
  function PagesTo(v: nat, n: nat, frame: nat): map<nat, nat>
  {
    map x: nat | v <= x < v + n && InSpan(x, Span(v, n)) :: frame + x - v
  }

  lemma NewPages(live: map<nat, Live>, mapped: map<nat, nat>, free: seq<Span>, v: nat, l: Live)
    requires Backs(live, mapped) && Unclaimed(Span(v, l.pages), free, live)
    ensures mapped.Keys !! PagesTo(v, l.pages, l.frame).Keys
  {
    hide Apart, Unclaimed;
    var a := Span(v, l.pages);
    forall x: nat | x in mapped ensures !InSpan(x, a) {
      var s :| s in live && InSpan(x, SpanOf(live, s));
      UnclaimedLive(a, free, live, s);
      ApartPages(x, a, SpanOf(live, s));
    }
  }

  lemma NewBacked(live: map<nat, Live>, mapped: map<nat, nat>, v: nat, l: Live)
    requires Backs(live, mapped) && v !in live && mapped.Keys !! PagesTo(v, l.pages, l.frame).Keys
    requires forall x :: x in mapped ==> !InSpan(mapped[x], Span(l.frame, l.pages))
    ensures Backs(live[v := l], mapped + PagesTo(v, l.pages, l.frame))
  {
    hide OneToOne;
    var live', added := live[v := l], PagesTo(v, l.pages, l.frame);
    var mapped' := mapped + added;
    forall x: nat | x in mapped'
      ensures exists s :: s in live' && InSpan(x, SpanOf(live', s))
    {
      if x in mapped {
        var s :| s in live && InSpan(x, SpanOf(live, s));
        assert s in live' && InSpan(x, SpanOf(live', s));
      } else {
        assert v in live' && InSpan(x, SpanOf(live', v));
      }
    }
    forall s, x: nat | s in live' && InSpan(x, SpanOf(live', s))
      ensures x in mapped' && mapped'[x] == live'[s].frame + x - s
    {
      if s != v {
        assert InSpan(x, SpanOf(live, s));
        assert x in mapped && x !in added;
      }
    }
    StillOneToOne(mapped, v, l);
  }

  lemma StillOneToOne(mapped: map<nat, nat>, v: nat, l: Live)
    requires OneToOne(mapped) && mapped.Keys !! PagesTo(v, l.pages, l.frame).Keys
    requires forall x :: x in mapped ==> !InSpan(mapped[x], Span(l.frame, l.pages))
    ensures OneToOne(mapped + PagesTo(v, l.pages, l.frame))
  {
    var added := PagesTo(v, l.pages, l.frame);
    forall x | x in added ensures InSpan(added[x], Span(l.frame, l.pages)) {
    }
  }

  lemma UnclaimedLive(a: Span, free: seq<Span>, live: map<nat, Live>, s: nat)
    requires Unclaimed(a, free, live) && s in live
    ensures Apart(a, SpanOf(live, s))
  {
  }

  lemma LiveApart(lo: nat, next: nat, free: seq<Span>, live: map<nat, Live>, r: nat, s: nat)
    requires Spaced(lo, next, free, live) && r in live && s in live && r != s
    ensures Apart(SpanOf(live, r), SpanOf(live, s))
  {
  }

  lemma FewerOneToOne(mapped: map<nat, nat>, gone: set<nat>)
    requires OneToOne(mapped)
    ensures OneToOne(mapped - gone)
  {
  }

  lemma FreedBacked(lo: nat, next: nat, free: seq<Span>, live: map<nat, Live>, mapped: map<nat, nat>, s: nat)
    requires Spaced(lo, next, free, live) && Backs(live, mapped) && s in live
    ensures Backs(live - {s}, mapped - PagesTo(s, live[s].pages, live[s].frame).Keys)
  {
    hide Apart, Spaced, OneToOne;
    var gone := PagesTo(s, live[s].pages, live[s].frame).Keys;
    var live', mapped' := live - {s}, mapped - gone;
    forall r, x: nat | r in live' && InSpan(x, SpanOf(live', r))
      ensures x in mapped' && mapped'[x] == live'[r].frame + x - r
    {
      assert InSpan(x, SpanOf(live, r));
      LiveApart(lo, next, free, live, r, s);
      ApartPages(x, SpanOf(live, r), SpanOf(live, s));
    }
    FewerOneToOne(mapped, gone);
    forall x: nat | x in mapped'
      ensures exists r :: r in live' && InSpan(x, SpanOf(live', r))
    {
      var r :| r in live && InSpan(x, SpanOf(live, r));
      assert r in live' && InSpan(x, SpanOf(live', r));
    }
  }

  // ----- the list of free ranges

  /** A node of the pool. */
  datatype Node = Node(start: U64, size: U64, next: Option<nat>)

  const PAGE_SIZE := 4096

  /** The i-th node of a list, if there is one. */
  function NodeAt(list: seq<nat>, i: nat): Option<nat>
  {
    if i < |list| then Some(list[i]) else None
  }

  /** A node in use that holds whole pages and links to the right node. */
  predicate NodeOk(pool: seq<Node>, inUse: nat, n: nat, next: Option<nat>)
  {
    n < inUse <= |pool| && pool[n].next == next && pool[n].start % PAGE_SIZE == 0 && pool[n].size % PAGE_SIZE == 0
  }

  predicate LinkOk(pool: seq<Node>, inUse: nat, list: seq<nat>, i: nat)
    requires i < |list|
  {
    NodeOk(pool, inUse, list[i], NodeAt(list, i + 1))
  }

  /** Following the links from `head` meets exactly the nodes in `list`, which are different. */
  ghost predicate Linked(pool: seq<Node>, inUse: nat, head: Option<nat>, list: seq<nat>)
  {
    && inUse <= |pool| && head == NodeAt(list, 0)
    && (forall i :: 0 <= i < |list| ==> LinkOk(pool, inUse, list, i))
    && Distinct(list)
  }

  predicate Distinct(list: seq<nat>)
  {
    forall i, j :: 0 <= i < j < |list| ==> list[i] != list[j]
  }

  lemma OtherNode(list: seq<nat>, k: nat)
    requires Distinct(list) && k < |list|
    ensures forall i :: 0 <= i < |list| && i != k ==> list[i] != list[k]
  {
  }

  lemma WithoutDistinct(list: seq<nat>, k: nat)
    requires Distinct(list) && k < |list|
    ensures Distinct(Without(list, k))
  {
    hide Without;
  }

  /** The range a node holds. */
  function Held(n: Node): Span
  {
    Span(n.start / PAGE_SIZE, n.size / PAGE_SIZE)
  }

  /** The ranges in the list. */
  function Spans(pool: seq<Node>, list: seq<nat>): (r: seq<Span>)
    ensures |r| == |list|
  {
    seq(|list|, i requires 0 <= i < |list| => if list[i] < |pool| then Held(pool[list[i]]) else Span(0, 0))
  }

  /** The list without its k-th node. */
  function Without(list: seq<nat>, k: nat): (r: seq<nat>)
    requires k < |list|
    ensures |r| == |list| - 1
    ensures forall i :: 0 <= i < |r| ==> r[i] == list[if i < k then i else i + 1]
  {
    list[..k] + list[k + 1..]
  }

  lemma NodeIn(pool: seq<Node>, inUse: nat, head: Option<nat>, list: seq<nat>, k: nat)
    requires Linked(pool, inUse, head, list) && k < |list|
    ensures LinkOk(pool, inUse, list, k) && Spans(pool, list)[k] == Held(pool[list[k]])
            && (k == 0 ==> head == Some(list[0]))
    ensures k > 0 ==> LinkOk(pool, inUse, list, k - 1)
  {
    assert LinkOk(pool, inUse, list, k);
    assert k > 0 ==> LinkOk(pool, inUse, list, k - 1);
  }

  /** The first node is taken out by moving the head. */
  lemma HeadUnlinked(pool: seq<Node>, inUse: nat, head: Option<nat>, list: seq<nat>)
    requires Linked(pool, inUse, head, list) && list != []
    ensures NodeOk(pool, inUse, list[0], NodeAt(list, 1))
    ensures Linked(pool, inUse, NodeAt(list, 1), list[1..]) && Spans(pool, list[1..]) == Spans(pool, list)[1..]
  {
    assert LinkOk(pool, inUse, list, 0);
    forall i | 0 <= i < |list| - 1
      ensures LinkOk(pool, inUse, list[1..], i)
    {
      assert LinkOk(pool, inUse, list, i + 1);
    }
  }

  /** Any other node is taken out by changing the link of the node before it. */
  lemma Unlinked(pool: seq<Node>, inUse: nat, head: Option<nat>, list: seq<nat>, k: nat)
    requires Linked(pool, inUse, head, list) && 0 < k < |list|
    ensures NodeOk(pool, inUse, list[k - 1], Some(list[k])) && NodeOk(pool, inUse, list[k], NodeAt(list, k + 1))
    ensures var pool' := pool[list[k - 1] := pool[list[k - 1]].(next := NodeAt(list, k + 1))];
            && Linked(pool', inUse, head, Without(list, k))
            && Spans(pool', Without(list, k)) == Spans(pool, list)[..k] + Spans(pool, list)[k + 1..]
  {
    hide Spans, Distinct;
    OtherNode(list, k - 1);
    assert LinkOk(pool, inUse, list, k - 1) && LinkOk(pool, inUse, list, k);
    var list' := Without(list, k);
    var pool' := pool[list[k - 1] := pool[list[k - 1]].(next := NodeAt(list, k + 1))];
    forall i | 0 <= i < |list'|
      ensures LinkOk(pool', inUse, list', i) && Held(pool'[list'[i]]) == Held(pool[list'[i]])
    {
      assert LinkOk(pool, inUse, list, if i < k then i else i + 1);
    }
    WithoutDistinct(list, k);
    SpansWithout(pool, pool', list, k);
  }

  lemma SpansWithout(pool: seq<Node>, pool': seq<Node>, list: seq<nat>, k: nat)
    requires k < |list| && |pool'| == |pool|
    requires forall i :: 0 <= i < |list| - 1 ==>
               Without(list, k)[i] < |pool| && Held(pool'[Without(list, k)[i]]) == Held(pool[Without(list, k)[i]])
    ensures Spans(pool', Without(list, k)) == Spans(pool, list)[..k] + Spans(pool, list)[k + 1..]
  {
  }

  /** Taking n pages off the front of a range. */
  lemma LessPages(a: nat, n: nat)
    requires a % PAGE_SIZE == 0 && n <= a / PAGE_SIZE
    ensures PAGE_SIZE * n <= a && (a - PAGE_SIZE * n) / PAGE_SIZE == a / PAGE_SIZE - n
            && (a - PAGE_SIZE * n) % PAGE_SIZE == 0
    ensures n < a / PAGE_SIZE ==> PAGE_SIZE * n < a
  {
  }

  lemma MorePages(a: nat, n: nat)
    requires a % PAGE_SIZE == 0
    ensures (a + PAGE_SIZE * n) / PAGE_SIZE == a / PAGE_SIZE + n && (a + PAGE_SIZE * n) % PAGE_SIZE == 0
  {
  }

  /** Shrinking the range of node k. */
  lemma Shrunk(pool: seq<Node>, inUse: nat, head: Option<nat>, list: seq<nat>, k: nat, e: Node)
    requires Linked(pool, inUse, head, list) && k < |list| && LinkOk(pool, inUse, list, k)
    requires NodeOk(pool[list[k] := e], inUse, list[k], NodeAt(list, k + 1))
    ensures Linked(pool[list[k] := e], inUse, head, list)
    ensures Spans(pool[list[k] := e], list) == Spans(pool, list)[k := Held(e)]
  {
    var pool' := pool[list[k] := e];
    OtherNode(list, k);
    forall i | 0 <= i < |list|
      ensures LinkOk(pool', inUse, list, i) && (i != k ==> Spans(pool', list)[i] == Spans(pool, list)[i])
    {
      assert LinkOk(pool, inUse, list, i);
    }
  }

  /** Pushing a new node to the front of the list. */
  lemma Pushed(pool: seq<Node>, inUse: nat, head: Option<nat>, list: seq<nat>, start: U64, size: U64)
    requires Linked(pool, inUse, head, list) && inUse < |pool| && start % PAGE_SIZE == 0 && size % PAGE_SIZE == 0
    ensures var pool' := pool[inUse := Node(start, size, head)];
            && Linked(pool', inUse + 1, Some(inUse), [inUse] + list)
            && Spans(pool', [inUse] + list) == [Span(start / PAGE_SIZE, size / PAGE_SIZE)] + Spans(pool, list)
  {
    var pool', list', n := pool[inUse := Node(start, size, head)], [inUse] + list, inUse + 1;
    forall i | 0 <= i < |list'|
      ensures LinkOk(pool', n, list', i)
    {
      if i > 0 {
        assert LinkOk(pool, inUse, list, i - 1);
      } else {
        assert NodeAt(list', 1) == NodeAt(list, 0);
      }
    }
    forall i | 0 <= i < |list| ensures list[i] != inUse {
      assert LinkOk(pool, inUse, list, i);
    }
    forall i, j | 0 <= i < j < |list'| ensures list'[i] != list'[j] {
      assert list'[j] == list[j - 1] && (i > 0 ==> list'[i] == list[i - 1]);
    }
    assert Spans(pool', list') == [Span(start / PAGE_SIZE, size / PAGE_SIZE)] + Spans(pool, list);
  }
}
