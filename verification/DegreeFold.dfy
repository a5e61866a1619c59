/** Folding any number of sidecars into one with a heap of cursors, and streaming the result. */
module DegreeFold {
  import opened Bytes
  import opened DegreeLookup
  import opened DegreeSidecar

  /** Adding deltas, whatever the weight sums round to. */
  type Add = (Delta, Delta) -> Delta

  type Lists = seq<seq<Entry>>

  // ---- What a fold is ----

  predicate Mentions(list: seq<Entry>, node: nat) { exists i | 0 <= i < |list| :: list[i].node == node }

  /** The sum over the first k lists, in their order, starting from zero. */
  function SumOf(add: Add, lists: Lists, node: nat, k: nat): Delta
    requires k <= |lists|
  {
    if k == 0 then ZERO
    else if Mentions(lists[k - 1], node) then add(SumOf(add, lists, node, k - 1), Find(lists[k - 1], node))
    else SumOf(add, lists, node, k - 1)
  }

  ghost predicate Mentioned(lists: Lists, node: nat) { exists c | 0 <= c < |lists| :: Mentions(lists[c], node) }

  /** What belongs in a fold. */
  ghost predicate Belongs(add: Add, lists: Lists, e: Entry) {
    Mentioned(lists, e.node) && e.delta == SumOf(add, lists, e.node, |lists|) && !IsZero(e.delta)
  }

  /** The nodes below a limit whose sums are not zero, each once and ascending. */
  ghost predicate FoldsBelow(add: Add, lists: Lists, limit: nat, out: seq<Entry>) {
    && Ascends(out)
    && forall e: Entry :: e in out <==> e.node < limit && Belongs(add, lists, e)
  }

  ghost predicate Folds(add: Add, lists: Lists, out: seq<Entry>) { FoldsBelow(add, lists, 0x1_0000_0000_0000_0000, out) }

  /** There is only one fold, so two passes over the same sidecars cannot differ. */
  lemma {:induction false} SortedSetsEqual(a: seq<Entry>, b: seq<Entry>)
    requires Ascends(a) && Ascends(b) && forall e: Entry :: e in a <==> e in b
    ensures a == b
    decreases |a|
  {
    assert a != [] ==> a[0] in b;
    assert b != [] ==> b[0] in a;
    if a != [] {
      SameFirst(a, b);
      var a', b' := a[1..], b[1..];
      assert a == [a[0]] + a' && b == [b[0]] + b';
      WithoutFirst(a);
      WithoutFirst(b);
      SortedSetsEqual(a', b');
    }
  }

  lemma WithoutFirst(a: seq<Entry>)
    requires Ascends(a) && a != []
    ensures forall e: Entry :: e in a[1..] <==> e in a && e != a[0]
  {
    assert a == [a[0]] + a[1..];
    assert forall i | 0 < i < |a| :: a[i] != a[0];
  }

  lemma SameFirst(a: seq<Entry>, b: seq<Entry>)
    requires Ascends(a) && Ascends(b) && a != [] && b != [] && a[0] in b && b[0] in a
    ensures a[0] == b[0]
  {
    var i :| 0 <= i < |b| && b[i] == a[0];
    var j :| 0 <= j < |a| && a[j] == b[0];
    FirstIsLeast(b, i);
    FirstIsLeast(a, j);
  }

  lemma FirstIsLeast(a: seq<Entry>, i: nat)
    requires Ascends(a) && i < |a|
    ensures i > 0 ==> a[0].node < a[i].node
  {
  }

  lemma FoldIsUnique(add: Add, lists: Lists, a: seq<Entry>, b: seq<Entry>)
    requires Folds(add, lists, a) && Folds(add, lists, b)
    ensures a == b
  {
    SortedSetsEqual(a, b);
  }

  // ---- Cursors and the heap ----

  /** What the heap is ordered by: the node, then the number of the cursor. */
  datatype HeapEntry = HeapEntry(node: nat, cursor: nat)

  predicate Before(a: HeapEntry, b: HeapEntry) { a.node < b.node || (a.node == b.node && a.cursor < b.cursor) }

  type Cursors = seq<nat>

  predicate CursorsOk(lists: Lists, at: Cursors) {
    |at| == |lists| && forall c | 0 <= c < |lists| :: at[c] <= |lists[c]|
  }

  /** The heap holds every cursor that has an entry left, at that entry's node, and nothing else. */
  ghost predicate HeapMatches(lists: Lists, at: Cursors, heap: set<HeapEntry>)
    requires CursorsOk(lists, at)
  {
    forall h: HeapEntry :: h in heap <==>
      h.cursor < |lists| && at[h.cursor] < |lists[h.cursor]| && h.node == lists[h.cursor][at[h.cursor]].node
  }

  ghost predicate IsFirst(h: HeapEntry, heap: set<HeapEntry>) {
    h in heap && forall g | g in heap && g != h :: Before(h, g)
  }

  lemma FirstOfMore(h: HeapEntry, x: HeapEntry, rest: set<HeapEntry>)
    requires IsFirst(h, rest) && x !in rest
    ensures IsFirst(if Before(x, h) then x else h, rest + {x})
  {
  }

  lemma FirstExists(heap: set<HeapEntry>) returns (h: HeapEntry)
    requires heap != {}
    ensures IsFirst(h, heap)
    decreases |heap|
  {
    var x :| x in heap;
    var rest := heap - {x};
    assert heap == rest + {x};
    if rest == {} {
      h := x;
    } else {
      h := FirstExists(rest);
      FirstOfMore(h, x, rest);
      h := if Before(x, h) then x else h;
    }
  }

  method Pop(heap: set<HeapEntry>) returns (first: HeapEntry, rest: set<HeapEntry>)
    requires heap != {}
    ensures IsFirst(first, heap) && rest == heap - {first}
  {
    ghost var h := FirstExists(heap);
    first :| first in heap && forall g | g in heap && g != first :: Before(first, g);
    rest := heap - {first};
  }

  // ---- The loop ----

  /** Every cursor has passed exactly the entries below the limit. */
  ghost predicate AllAt(lists: Lists, at: Cursors, limit: nat) {
    CursorsOk(lists, at) && forall c | 0 <= c < |lists| :: CursorAt(lists[c], at[c], limit)
  }

  ghost predicate CursorAt(list: seq<Entry>, at: nat, limit: nat) {
    && at <= |list|
    && (forall i | 0 <= i < at :: list[i].node < limit)
    && (forall i | at <= i < |list| :: limit <= list[i].node)
  }

  /** While a node is summed: the first k cursors are past it and the others are not. */
  ghost predicate PartlyAt(lists: Lists, at: Cursors, node: nat, k: nat) {
    && CursorsOk(lists, at) && k <= |lists|
    && (forall c | 0 <= c < k :: CursorAt(lists[c], at[c], node + 1))
    && (forall c | k <= c < |lists| :: CursorAt(lists[c], at[c], node))
  }

  /** Takes the current entry of a cursor into the sum and moves on. */
  method Consume(add: Add, lists: Lists, at: Cursors, heap: set<HeapEntry>, c: nat, sum: Delta)
    returns (at': Cursors, heap': set<HeapEntry>, sum': Delta)
    requires CursorsOk(lists, at) && c < |lists| && at[c] < |lists[c]| && Ascends(lists[c])
    requires HeapMatches(lists, at, heap + {HeapEntry(lists[c][at[c]].node, c)})
    requires HeapEntry(lists[c][at[c]].node, c) !in heap
    ensures at' == at[c := at[c] + 1] && CursorsOk(lists, at') && HeapMatches(lists, at', heap')
    ensures sum' == add(sum, lists[c][at[c]].delta)
  {
    sum' := add(sum, lists[c][at[c]].delta);
    at' := at[c := at[c] + 1];
    heap' := heap;
    if at'[c] < |lists[c]| {
      heap' := heap' + {HeapEntry(lists[c][at'[c]].node, c)};
    }
    assert forall h | h in heap :: h.cursor != c;
  }

  lemma CursorMoves(list: seq<Entry>, at: nat, node: nat)
    requires Ascends(list) && CursorAt(list, at, node)
    ensures at < |list| && list[at].node == node ==>
              CursorAt(list, at + 1, node + 1) && Mentions(list, node) && Find(list, node) == list[at].delta
    ensures !(at < |list| && list[at].node == node) ==> CursorAt(list, at, node + 1) && !Mentions(list, node)
  {
    if at < |list| && list[at].node == node {
      FindAt(list, at);
      forall i | at + 1 <= i < |list|
        ensures node + 1 <= list[i].node
      {
        assert list[at].node < list[i].node;
      }
    } else {
      forall i | at <= i < |list|
        ensures node + 1 <= list[i].node
      {
        assert i == at || list[at].node < list[i].node;
      }
    }
  }

  /** Cursors that are not at the node add nothing to its sum. */
  lemma {:induction false} SkipCursors(add: Add, lists: Lists, at: Cursors, node: nat, k: nat, k': nat)
    requires (forall c | 0 <= c < |lists| :: Ascends(lists[c])) && PartlyAt(lists, at, node, k) && k <= k' <= |lists|
    requires forall c | k <= c < k' :: !(at[c] < |lists[c]| && lists[c][at[c]].node == node)
    ensures PartlyAt(lists, at, node, k') && SumOf(add, lists, node, k') == SumOf(add, lists, node, k)
    decreases k' - k
  {
    if k < k' {
      CursorMoves(lists[k], at[k], node);
      SkipCursors(add, lists, at, node, k + 1, k');
    }
  }

  lemma TakeCursor(add: Add, lists: Lists, at: Cursors, node: nat, c: nat)
    requires (forall c | 0 <= c < |lists| :: Ascends(lists[c])) && PartlyAt(lists, at, node, c) && c < |lists|
    requires at[c] < |lists[c]| && lists[c][at[c]].node == node
    ensures PartlyAt(lists, at[c := at[c] + 1], node, c + 1)
    ensures SumOf(add, lists, node, c + 1) == add(SumOf(add, lists, node, c), lists[c][at[c]].delta)
  {
    CursorMoves(lists[c], at[c], node);
  }

  /** Entries no cursor has taken yet. */
  ghost function Remaining(lists: Lists, at: Cursors, k: nat): nat
    requires CursorsOk(lists, at) && k <= |lists|
  {
    if k == 0 then 0 else Remaining(lists, at, k - 1) + (|lists[k - 1]| - at[k - 1])
  }

  lemma {:induction false} TakingReduces(lists: Lists, at: Cursors, c: nat, k: nat)
    requires CursorsOk(lists, at) && c < |lists| && at[c] < |lists[c]| && k <= |lists|
    ensures CursorsOk(lists, at[c := at[c] + 1])
    ensures Remaining(lists, at[c := at[c] + 1], k) == Remaining(lists, at, k) - if c < k then 1 else 0
    decreases k
  {
    if k > 0 {
      TakingReduces(lists, at, c, k - 1);
    }
  }

  ghost predicate AllAscend(lists: Lists) { forall c | 0 <= c < |lists| :: Ascends(lists[c]) }

  /** No cursor is before the node. */
  ghost predicate HeadsFrom(lists: Lists, at: Cursors, node: nat)
    requires CursorsOk(lists, at)
  {
    forall c | 0 <= c < |lists| && at[c] < |lists[c]| :: node <= lists[c][at[c]].node
  }

  lemma FirstHeads(lists: Lists, at: Cursors, heap: set<HeapEntry>, first: HeapEntry)
    requires CursorsOk(lists, at) && HeapMatches(lists, at, heap) && IsFirst(first, heap)
    ensures HeadsFrom(lists, at, first.node)
    ensures forall c | 0 <= c < first.cursor && c < |lists| && at[c] < |lists[c]| :: lists[c][at[c]].node != first.node
  {
    forall c | 0 <= c < |lists| && at[c] < |lists[c]|
      ensures first.node <= lists[c][at[c]].node
      ensures c < first.cursor ==> lists[c][at[c]].node != first.node
    {
      assert HeapEntry(lists[c][at[c]].node, c) in heap;
    }
  }

  /** With nothing between the limit and the node, being at the one is being at the other. */
  lemma {:induction false} LimitRises(lists: Lists, at: Cursors, limit: nat, node: nat)
    requires AllAscend(lists) && AllAt(lists, at, limit) && HeadsFrom(lists, at, node) && limit <= node
    ensures PartlyAt(lists, at, node, 0)
  {
    forall c | 0 <= c < |lists|
      ensures CursorAt(lists[c], at[c], node)
    {
      forall i | at[c] <= i < |lists[c]|
        ensures node <= lists[c][i].node
      {
        assert i == at[c] || lists[c][at[c]].node < lists[c][i].node;
      }
    }
  }

  lemma NothingBetween(lists: Lists, at: Cursors, limit: nat, node: nat, n: nat)
    requires AllAscend(lists) && AllAt(lists, at, limit) && HeadsFrom(lists, at, node) && limit <= n < node
    ensures !Mentioned(lists, n)
  {
    LimitRises(lists, at, limit, node);
    forall c | 0 <= c < |lists|
      ensures !Mentions(lists[c], n)
    {
      assert CursorAt(lists[c], at[c], limit) && CursorAt(lists[c], at[c], node);
    }
  }

  /** Between the limit and the next one only the node itself can belong. */
  lemma BelongsBelow(add: Add, lists: Lists, at: Cursors, limit: nat, node: U64, sum: Delta, e: Entry)
    requires AllAscend(lists) && AllAt(lists, at, limit) && HeadsFrom(lists, at, node) && limit <= node
    requires Mentioned(lists, node) && sum == SumOf(add, lists, node, |lists|)
    ensures e.node < node + 1 && Belongs(add, lists, e) <==>
            (e.node < limit && Belongs(add, lists, e)) || (!IsZero(sum) && e == Entry(node, sum))
  {
    if limit <= e.node < node {
      NothingBetween(lists, at, limit, node, e.node);
    }
  }

  lemma AscendsSnoc(out: seq<Entry>, limit: nat, e: Entry)
    requires Ascends(out) && limit <= e.node && forall x | x in out :: x.node < limit
    ensures Ascends(out + [e])
  {
    assert forall i | 0 <= i < |out| :: out[i] in out;
  }

  /** The output grows by the node's sum, or by nothing when that is zero. */
  lemma FoldExtends(add: Add, lists: Lists, at: Cursors, limit: nat, node: U64, out: seq<Entry>, sum: Delta)
    requires AllAscend(lists) && AllAt(lists, at, limit) && HeadsFrom(lists, at, node) && limit <= node
    requires Mentioned(lists, node) && sum == SumOf(add, lists, node, |lists|) && FoldsBelow(add, lists, limit, out)
    ensures FoldsBelow(add, lists, node + 1, if IsZero(sum) then out else out + [Entry(node, sum)])
  {
    var next := if IsZero(sum) then out else out + [Entry(node, sum)];
    AscendsSnoc(out, limit, Entry(node, sum));
    forall e: Entry
      ensures e in next <==> e.node < node + 1 && Belongs(add, lists, e)
    {
      BelongsBelow(add, lists, at, limit, node, sum, e);
      assert e in next <==> e in out || (!IsZero(sum) && e == Entry(node, sum));
    }
  }

  lemma HeapCovers(lists: Lists, at: Cursors, heap: set<HeapEntry>, c: nat)
    requires CursorsOk(lists, at) && HeapMatches(lists, at, heap) && c < |lists|
    ensures at[c] < |lists[c]| ==> heap != {}
  {
    if at[c] < |lists[c]| {
      assert HeapEntry(lists[c][at[c]].node, c) in heap;
    }
  }

  lemma PassedCursors(lists: Lists, at: Cursors, heap: set<HeapEntry>, node: nat, k: nat, h: HeapEntry)
    requires PartlyAt(lists, at, node, k) && HeapMatches(lists, at, heap) && h in heap
    ensures h.cursor < k ==> node < h.node
  {
    if h.cursor < k {
      assert CursorAt(lists[h.cursor], at[h.cursor], node + 1);
    }
  }

  /** Past the last node every cursor is at its end. */
  lemma NothingLeft(add: Add, lists: Lists, at: Cursors, heap: set<HeapEntry>, limit: nat, out: seq<Entry>)
    requires AllAt(lists, at, limit) && HeapMatches(lists, at, heap) && heap == {} && FoldsBelow(add, lists, limit, out)
    ensures Folds(add, lists, out)
  {
    forall c | 0 <= c < |lists|
      ensures at[c] == |lists[c]|
    {
      HeapCovers(lists, at, heap, c);
    }
    forall node: nat | Mentioned(lists, node)
      ensures node < limit
    {
      var c :| 0 <= c < |lists| && Mentions(lists[c], node);
      assert CursorAt(lists[c], at[c], limit);
    }
  }

  method StartCursors(lists: Lists) returns (at: Cursors, heap: set<HeapEntry>)
    ensures AllAt(lists, at, 0) && HeapMatches(lists, at, heap)
  {
    at, heap := seq(|lists|, c => 0), {};
    for c := 0 to |lists|
      invariant forall h: HeapEntry :: h in heap <==>
                  h.cursor < c && |lists[h.cursor]| > 0 && h.node == lists[h.cursor][0].node
    {
      if |lists[c]| > 0 {
        heap := heap + {HeapEntry(lists[c][0].node, c)};
      }
    }
  }

  /** Taking the heap's first entry, when it is at the node, adds the next list that has the node. */
  lemma FirstTaken(add: Add, lists: Lists, at: Cursors, heap: set<HeapEntry>, node: nat, k: nat, first: HeapEntry)
    requires AllAscend(lists) && PartlyAt(lists, at, node, k) && HeapMatches(lists, at, heap)
    requires IsFirst(first, heap) && first.node == node
    ensures var c := first.cursor;
            && c < |lists| && at[c] < |lists[c]| && PartlyAt(lists, at[c := at[c] + 1], node, c + 1)
            && SumOf(add, lists, node, c + 1) == add(SumOf(add, lists, node, k), lists[c][at[c]].delta)
            && Remaining(lists, at[c := at[c] + 1], |lists|) == Remaining(lists, at, |lists|) - 1
  {
    var c := first.cursor;
    PassedCursors(lists, at, heap, node, k, first);
    FirstHeads(lists, at, heap, first);
    SkipCursors(add, lists, at, node, k, c);
    TakeCursor(add, lists, at, node, c);
    TakingReduces(lists, at, c, |lists|);
  }

  lemma NoneLeftAt(add: Add, lists: Lists, at: Cursors, heap: set<HeapEntry>, node: nat, k: nat)
    requires AllAscend(lists) && PartlyAt(lists, at, node, k) && HeapMatches(lists, at, heap)
    requires forall h | h in heap :: h.node != node
    ensures AllAt(lists, at, node + 1) && SumOf(add, lists, node, |lists|) == SumOf(add, lists, node, k)
  {
    forall c | k <= c < |lists|
      ensures !(at[c] < |lists[c]| && lists[c][at[c]].node == node)
    {
      assert at[c] < |lists[c]| ==> HeapEntry(lists[c][at[c]].node, c) in heap;
    }
    SkipCursors(add, lists, at, node, k, |lists|);
  }

  /** Part way through a node: the first k lists are summed and their cursors moved. */
  ghost predicate Summing(add: Add, lists: Lists, at: Cursors, heap: set<HeapEntry>, node: nat, k: nat, sum: Delta) {
    PartlyAt(lists, at, node, k) && HeapMatches(lists, at, heap) && sum == SumOf(add, lists, node, k)
  }

  /** Takes the heap's first entry, which is at the node. */
  method TakeFirst(add: Add, lists: Lists, at: Cursors, heap: set<HeapEntry>, node: nat, ghost k: nat, sum: Delta,
                   first: HeapEntry)
    returns (at': Cursors, heap': set<HeapEntry>, sum': Delta)
    requires AllAscend(lists) && Summing(add, lists, at, heap, node, k, sum)
    requires IsFirst(first, heap) && first.node == node
    ensures first.cursor < |lists| && Summing(add, lists, at', heap', node, first.cursor + 1, sum')
    ensures Remaining(lists, at', |lists|) < Remaining(lists, at, |lists|)
  {
    FirstTaken(add, lists, at, heap, node, k, first);
    assert heap == (heap - {first}) + {first};
    at', heap', sum' := Consume(add, lists, at, heap - {first}, first.cursor, sum);
  }

  /** Takes every cursor at the node, in order, beginning with the heap's first entry. */
  method SumNode(add: Add, lists: Lists, at0: Cursors, heap0: set<HeapEntry>, first: HeapEntry)
    returns (at: Cursors, heap: set<HeapEntry>, sum: Delta)
    requires AllAscend(lists) && PartlyAt(lists, at0, first.node, 0) && HeapMatches(lists, at0, heap0)
    requires IsFirst(first, heap0)
    ensures AllAt(lists, at, first.node + 1) && HeapMatches(lists, at, heap)
    ensures sum == SumOf(add, lists, first.node, |lists|)
    ensures Remaining(lists, at, |lists|) < Remaining(lists, at0, |lists|)
  {
    var node := first.node;
    at, heap, sum := TakeFirst(add, lists, at0, heap0, node, 0, ZERO, first);
    ghost var k: nat := first.cursor + 1;
    while heap != {}
      invariant Summing(add, lists, at, heap, node, k, sum)
      invariant Remaining(lists, at, |lists|) < Remaining(lists, at0, |lists|)
      decreases Remaining(lists, at, |lists|)
    {
      var next, _ := Pop(heap);
      if next.node != node {
        PastNode(lists, at, heap, node, k, next);
        NoneLeftAt(add, lists, at, heap, node, k);
        return;
      }
      at, heap, sum := TakeFirst(add, lists, at, heap, node, k, sum, next);
      k := next.cursor + 1;
    }
    NoneLeftAt(add, lists, at, heap, node, k);
  }

  /** When the heap's first entry is not at the node, none is. */
  lemma PastNode(lists: Lists, at: Cursors, heap: set<HeapEntry>, node: nat, k: nat, first: HeapEntry)
    requires PartlyAt(lists, at, node, k) && HeapMatches(lists, at, heap) && IsFirst(first, heap) && first.node != node
    ensures forall h | h in heap :: h.node != node
  {
    forall h | h in heap
      ensures h.node != node
    {
      FirstIsPast(lists, at, heap, node, k, first);
      assert h == first || Before(first, h);
    }
  }

  lemma FirstIsPast(lists: Lists, at: Cursors, heap: set<HeapEntry>, node: nat, k: nat, first: HeapEntry)
    requires PartlyAt(lists, at, node, k) && HeapMatches(lists, at, heap) && first in heap && first.node != node
    ensures node < first.node
  {
    PassedCursors(lists, at, heap, node, k, first);
    if first.cursor >= k {
      assert CursorAt(lists[first.cursor], at[first.cursor], node);
    }
  }

  /** The heap's first entry gives the next node, which some list mentions. */
  lemma NextNode(lists: Lists, at: Cursors, heap: set<HeapEntry>, limit: nat, first: HeapEntry)
    requires AllAscend(lists) && AllAt(lists, at, limit) && HeapMatches(lists, at, heap) && IsFirst(first, heap)
    ensures first.cursor < |lists| && at[first.cursor] < |lists[first.cursor]|
    ensures first.node == lists[first.cursor][at[first.cursor]].node >= limit
    ensures Mentions(lists[first.cursor], first.node) && AllAt(lists, at, first.node)
  {
    FirstHeads(lists, at, heap, first);
    assert CursorAt(lists[first.cursor], at[first.cursor], limit);
    LimitRises(lists, at, limit, first.node);
  }

  /** Folds the sidecars' entries: the sum of each node once, ascending, zero sums left out. */
  method FoldEntries(add: Add, lists: Lists) returns (out: seq<Entry>)
    requires AllAscend(lists)
    ensures Folds(add, lists, out)
  {
    out := [];
    var at, heap := StartCursors(lists);
    ghost var limit: nat := 0;
    while heap != {}
      invariant AllAt(lists, at, limit) && HeapMatches(lists, at, heap)
      invariant FoldsBelow(add, lists, limit, out)
      decreases Remaining(lists, at, |lists|)
    {
      var first, _ := Pop(heap);
      var node: U64 := lists[first.cursor][at[first.cursor]].node;
      NextNode(lists, at, heap, limit, first);
      var at', heap', sum := SumNode(add, lists, at, heap, first);
      FoldExtends(add, lists, at, limit, node, out, sum);
      if !IsZero(sum) {
        out := out + [Entry(node, sum)];
      }
      at, heap, limit := at', heap', node + 1;
    }
    NothingLeft(add, lists, at, heap, limit, out);
  }

  // ---- The streaming writer ----

  /** The bytes written so far; the hasher has seen exactly them. */
  datatype Stream = Stream(written: Data, hashed: Data)

  function Put(s: Stream, bytes: Data): Stream { Stream(s.written + bytes, s.hashed + bytes) }

  /** One pass: the number of entries and the first node and position of each block. */
  method CountAndIndex(out: seq<Entry>) returns (count: nat, index: seq<(U64, nat)>)
    ensures count == |out| && |index| == BlockCount(|out|)
    ensures forall b | 0 <= b < |index| :: b * BLOCK < |out| && index[b] == (out[b * BLOCK].node, b * BLOCK)
  {
    count, index := 0, [];
    for i := 0 to |out|
      invariant count == i && |index| == BlockCount(i)
      invariant forall b | 0 <= b < |index| :: b * BLOCK < i && index[b] == (out[b * BLOCK].node, b * BLOCK)
    {
      if count % BLOCK == 0 {
        index := index + [(out[i].node, count)];
      }
      count := count + 1;
    }
  }

  method PutIndex(s0: Stream, entries: seq<Entry>, index: seq<(U64, nat)>) returns (s: Stream)
    requires |index| == BlockCount(|entries|)
    requires forall b | 0 <= b < |index| :: b * BLOCK < |entries| && index[b] == (entries[b * BLOCK].node, b * BLOCK)
    ensures s == Put(s0, IndexBytes(entries))
  {
    ghost var rows := seq(BlockCount(|entries|), b requires 0 <= b < BlockCount(|entries|) => IndexRow(entries, b));
    s := PutRows(s0, index, rows);
  }

  method PutRows(s0: Stream, index: seq<(U64, nat)>, ghost rows: seq<Data>) returns (s: Stream)
    requires |index| == |rows| && forall b | 0 <= b < |rows| :: |rows[b]| == INDEX_SIZE
    requires forall b | 0 <= b < |rows| :: rows[b] == LE(index[b].0, 8) + LE(index[b].1, 8)
    ensures s == Put(s0, Joined(rows))
  {
    s := s0;
    for b := 0 to |index|
      invariant Put(s, Joined(rows[b..])) == Put(s0, Joined(rows))
    {
      assert rows[b..][1..] == rows[b + 1..];
      PutParts(s, rows[b], Joined(rows[b + 1..]));
      PutParts(s, LE(index[b].0, 8), LE(index[b].1, 8));
      s := Put(s, LE(index[b].0, 8));
      s := Put(s, LE(index[b].1, 8));
    }
    assert Put(s, []) == s;
  }

  method PutEntries(s0: Stream, entries: seq<Entry>) returns (s: Stream)
    ensures s == Put(s0, EntriesBytes(entries))
  {
    s := s0;
    for i := 0 to |entries|
      invariant Put(s, EntriesBytes(entries[i..])) == Put(s0, EntriesBytes(entries))
    {
      assert entries[i..][1..] == entries[i + 1..];
      ghost var rest := EntriesBytes(entries[i + 1..]);
      assert EntriesBytes(entries[i..]) == EntryBytes(entries[i]) + rest;
      PutParts(s, EntryBytes(entries[i]), rest);
      s := Put(s, EntryBytes(entries[i]));
    }
    assert Put(s, []) == s;
  }

  lemma PutParts(s: Stream, a: Data, b: Data)
    ensures Put(Put(s, a), b) == Put(s, a + b)
  {
  }

  /** Folds twice, once for the block index and once for the entries, and ends with the checksum of
      everything before it. The bytes are the plain encoding of the fold. */
  method WriteFold(add: Add, crc: Checksum, lists: Lists) returns (bytes: Data, ghost fold: seq<Entry>)
    requires AllAscend(lists)
    ensures Folds(add, lists, fold) && bytes == Encode(crc, fold)
  {
    var first := FoldEntries(add, lists);
    var count, index := CountAndIndex(first);
    var s := Put(Stream([], []), HeaderBytes(count));
    s := PutIndex(s, first, index);
    var second := FoldEntries(add, lists);
    FoldIsUnique(add, lists, first, second);
    s := PutEntries(s, second);
    fold := first;
    ThreeParts(HeaderBytes(|fold|), IndexBytes(fold), EntriesBytes(fold));
    bytes := s.written + LE(crc(s.hashed), 4);
  }

  lemma ThreeParts(a: Data, b: Data, c: Data)
    ensures Put(Put(Put(Stream([], []), a), b), c) == Stream(a + (b + c), a + (b + c))
  {
    PutParts(Put(Stream([], []), a), b, c);
    PutParts(Stream([], []), a, b + c);
    assert [] + (a + (b + c)) == a + (b + c);
  }

  method ValidateAll(crc: Checksum, sidecars: seq<Data>) returns (ok: bool)
    ensures ok <==> forall c | 0 <= c < |sidecars| :: Accepts(crc, sidecars[c])
  {
    for c := 0 to |sidecars|
      invariant forall k | 0 <= k < c :: Accepts(crc, sidecars[k])
    {
      var accepted := Validate(crc, sidecars[c]);
      if !accepted {
        return false;
      }
    }
    return true;
  }

  function AllListed(sidecars: seq<Data>): Lists {
    seq(|sidecars|, c requires 0 <= c < |sidecars| => Listed(sidecars[c]))
  }

  /** Validates every sidecar and writes their fold. Looking a node up in the written file gives the
      sum of what the sidecars have for it. */
  method WriteFolded(add: Add, crc: Checksum, sidecars: seq<Data>) returns (r: Result<Data>, ghost fold: seq<Entry>)
    ensures r.Ok? <==> forall c | 0 <= c < |sidecars| :: Accepts(crc, sidecars[c])
    ensures r.Ok? ==> Folds(add, AllListed(sidecars), fold) && r.value == Encode(crc, fold)
    ensures r.Ok? && CountFits(fold) ==> forall node: U64 :: FileHas(crc, r.value, node, FoldedDelta(add, AllListed(sidecars), node))
  {
    fold := [];
    var ok := ValidateAll(crc, sidecars);
    if !ok {
      return Err, fold;
    }
    forall c | 0 <= c < |sidecars|
      ensures Ascends(Listed(sidecars[c]))
    {
      AcceptedIsEncoding(crc, sidecars[c]);
    }
    var bytes;
    bytes, fold := WriteFold(add, crc, AllListed(sidecars));
    r := Ok(bytes);
    if CountFits(fold) {
      forall node: U64
        ensures FileHas(crc, bytes, node, FoldedDelta(add, AllListed(sidecars), node))
      {
        FoldedFileFinds(add, crc, AllListed(sidecars), fold, node);
      }
    }
  }

  /** The entries of a sidecar that was accepted. */
  function Listed(data: Data): seq<Entry> {
    match ReadShape(data)
    case Err => []
    case Ok(shape) => EntriesOf(data, shape)
  }

  /** The sum of what the lists have for a node, in their order; zero when none has it or it sums to zero. */
  ghost function FoldedDelta(add: Add, lists: Lists, node: U64): Delta {
    var sum := SumOf(add, lists, node, |lists|);
    if Mentioned(lists, node) && !IsZero(sum) then sum else ZERO
  }

  /** The file passes the full check and is in the order the two-level lookup needs to find this delta. */
  ghost predicate FileHas(crc: Checksum, data: Data, node: U64, delta: Delta) {
    && Accepts(crc, data) && InOrder(data, ReadShape(data).value)
    && Find(EntriesOf(data, ReadShape(data).value), node) == delta
  }

  /** The file of a fold has the sum of what the sidecars have for each node. */
  lemma FoldedFileFinds(add: Add, crc: Checksum, lists: Lists, out: seq<Entry>, node: U64)
    requires Folds(add, lists, out) && CountFits(out)
    ensures FileHas(crc, Encode(crc, out), node, FoldedDelta(add, lists, node))
  {
    FoldIsCanonical(add, lists, out);
    EncodingIsAccepted(crc, out);
    WrittenIsInOrder(crc, out);
    FoldLooksUpSums(add, lists, out, node);
  }

  /** Looking a node up in a fold gives the sum of what the sidecars have for it, in their order. */
  lemma FoldLooksUpSums(add: Add, lists: Lists, out: seq<Entry>, node: U64)
    requires Folds(add, lists, out)
    ensures Find(out, node) == FoldedDelta(add, lists, node)
  {
    if Mentioned(lists, node) && !IsZero(SumOf(add, lists, node, |lists|)) {
      var e := Entry(node, SumOf(add, lists, node, |lists|));
      assert e in out;
      var i :| 0 <= i < |out| && out[i] == e;
      FindAt(out, i);
    } else {
      assert forall i | 0 <= i < |out| :: out[i] in out;
      FindMissing(out, node);
    }
  }

  /** A fold can be written: strictly ascending and without zeros. */
  lemma FoldIsCanonical(add: Add, lists: Lists, out: seq<Entry>)
    requires Folds(add, lists, out)
    ensures Canonical(out)
  {
    assert forall i | 0 <= i < |out| :: out[i] in out;
  }
}
