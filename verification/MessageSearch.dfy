/** Searching stored messages: filter, exchange sort, offset and limit. */
module MessageSearch {
  import opened Chunking
  import opened FileStore
  import opened GoStrings
  import opened Messages
  import opened Sorting

  datatype SearchCriteria = SearchCriteria(
    sourceAddr: GoString, destAddr: GoString, status: Option<MessageStatus>,
    fromDate: Option<int>, toDate: Option<int>,
    limit: int, offset: int, sortBy: GoString, sortOrder: GoString)

  const SUBMIT_TIME: GoString := Ascii("submit_time")
  const STATUS: GoString := Ascii("status")
  const DESC: GoString := Ascii("desc")

  /** An empty or absent criterion admits every message; dates are inclusive. */
  predicate MatchesCriteria(m: Message, c: SearchCriteria) {
    && (c.sourceAddr != [] ==> m.sourceAddr.addr == c.sourceAddr)
    && (c.destAddr != [] ==> m.destAddr.addr == c.destAddr)
    && (c.status.Some? ==> m.status == c.status.value)
    && (c.fromDate.Some? ==> c.fromDate.value <= m.submitTime)
    && (c.toDate.Some? ==> m.submitTime <= c.toDate.value)
  }

  function Ordinal(status: MessageStatus): nat {
    match status
    case Submitted => 0
    case Enroute => 1
    case Delivered => 2
    case Expired => 3
    case Deleted => 4
    case Undeliverable => 5
    case Accepted => 6
    case Unknown => 7
    case Rejected => 8
    case Split => 9
  }

  /** What the results are ordered by; all alike when the field is not one the search sorts on. */
  function SortKey(c: SearchCriteria): Message -> int {
    var sign := if c.sortOrder == DESC then -1 else 1;
    if c.sortBy == SUBMIT_TIME then (m: Message) => sign * m.submitTime
    else if c.sortBy == STATUS then (m: Message) => sign * Ordinal(m.status)
    else (m: Message) => 0
  }

  function Matching(messages: Store, c: SearchCriteria): set<Message> {
    set id | id in messages && MatchesCriteria(messages[id], c) :: messages[id]
  }

  /** All the matching messages, each once, in the order asked for. */
  ghost predicate Ranking(all: seq<Message>, messages: Store, c: SearchCriteria) {
    multiset(all) == multiset(Matching(messages, c)) && Sorted(all, SortKey(c))
  }

  function Page<T>(all: seq<T>, offset: int, limit: int): (page: seq<T>) {
    var start := if offset > 0 then offset else 0;
    if start >= |all| then []
    else if limit > 0 && start + limit < |all| then all[start..start + limit]
    else all[start..]
  }

  /** k times the limit, by addition. */
  function Offset(k: nat, limit: nat): nat {
    if k == 0 then 0 else Offset(k - 1, limit) + limit
  }

  lemma {:induction false} OffsetIsProduct(k: nat, limit: nat)
    ensures Offset(k, limit) == k * limit
  {
    if k > 0 {
      OffsetIsProduct(k - 1, limit);
    }
  }

  lemma {:induction false} PageIsChunk<T>(all: seq<T>, limit: nat, k: nat)
    requires limit > 0
    ensures Page(all, Offset(k, limit), limit) == if k < |Chunks(all, limit)| then Chunks(all, limit)[k] else []
    decreases k
  {
    if k > 0 && |all| > limit {
      PageOfTail(all, Offset(k - 1, limit), limit);
      PageIsChunk(all[limit..], limit, k - 1);
      assert Chunks(all, limit)[1..] == Chunks(all[limit..], limit);
    }
  }

  /** Pages of one ranking at multiples of the limit are its chunks. */
  lemma PagesTile<T>(all: seq<T>, limit: nat, k: nat)
    requires limit > 0
    ensures Page(all, k * limit, limit) == if k < |Chunks(all, limit)| then Chunks(all, limit)[k] else []
  {
    OffsetIsProduct(k, limit);
    PageIsChunk(all, limit, k);
  }

  lemma PageOfTail<T>(all: seq<T>, offset: nat, limit: nat)
    requires 0 < limit < |all|
    ensures Page(all, offset + limit, limit) == Page(all[limit..], offset, limit)
  {
  }

  // ---------------------------------------------------------------- rankings of separate searches

  ghost predicate DistinctKeys(messages: Store, c: SearchCriteria) {
    forall x, y | x in Matching(messages, c) && y in Matching(messages, c) && x != y :: SortKey(c)(x) != SortKey(c)(y)
  }

  lemma RankedOnce(all: seq<Message>, messages: Store, c: SearchCriteria)
    requires multiset(all) == multiset(Matching(messages, c))
    ensures forall m :: m in all <==> m in Matching(messages, c)
    ensures forall i, j | 0 <= i < j < |all| :: all[i] != all[j]
  {
    forall m ensures m in all <==> m in Matching(messages, c) {
      assert m in all <==> m in multiset(all);
    }
    forall i, j | 0 <= i < j < |all| ensures all[i] != all[j] {
      TwiceCounts(all, i, j);
      assert multiset(Matching(messages, c))[all[i]] <= 1;
    }
  }

  lemma TwiceCounts<T>(s: seq<T>, i: nat, j: nat)
    requires i < j < |s|
    ensures s[i] == s[j] ==> multiset(s)[s[i]] >= 2
  {
    assert s == s[..j] + [s[j]] + s[j + 1..];
    assert s[..j][i] == s[i] && s[i] in multiset(s[..j]);
  }

  lemma MultisetOfCons<T>(s: seq<T>)
    requires s != []
    ensures multiset(s) == multiset{s[0]} + multiset(s[1..])
  {
    assert s == [s[0]] + s[1..];
  }

  /** Sorted without ties. */
  ghost predicate Strict<T>(s: seq<T>, key: T -> int) {
    forall i, j | 0 <= i < j < |s| :: key(s[i]) < key(s[j])
  }

  lemma SameFirst<T>(a: seq<T>, b: seq<T>, key: T -> int)
    requires a != [] && b != [] && multiset(a) == multiset(b) && Strict(a, key) && Sorted(b, key)
    ensures a[0] == b[0]
  {
    assert a[0] in multiset(b) && b[0] in multiset(a);
    var i :| 0 <= i < |b| && b[i] == a[0];
    var j :| 0 <= j < |a| && a[j] == b[0];
    assert key(b[0]) <= key(b[i]);
  }

  lemma TailsOf<T>(a: seq<T>, b: seq<T>, key: T -> int)
    requires a != [] && b != [] && a[0] == b[0] && multiset(a) == multiset(b) && Strict(a, key) && Sorted(b, key)
    ensures multiset(a[1..]) == multiset(b[1..]) && Strict(a[1..], key) && Sorted(b[1..], key)
  {
    MultisetOfCons(a);
    MultisetOfCons(b);
    assert multiset(a[1..]) == multiset(a) - multiset{a[0]} && multiset(b[1..]) == multiset(b) - multiset{b[0]};
  }

  /** Two sorted permutations without ties are the same. */
  lemma {:induction false} SameRanking<T>(a: seq<T>, b: seq<T>, key: T -> int)
    requires multiset(a) == multiset(b) && Strict(a, key) && Sorted(b, key)
    ensures a == b
  {
    assert |multiset(a)| == |a| && |multiset(b)| == |b|;
    if a != [] {
      SameFirst(a, b, key);
      TailsOf(a, b, key);
      SameRanking(a[1..], b[1..], key);
      ConsEqual(a, b);
    }
  }

  lemma ConsEqual<T>(a: seq<T>, b: seq<T>)
    requires a != [] && b != [] && a[0] == b[0] && a[1..] == b[1..]
    ensures a == b
  {
    assert a == [a[0]] + a[1..] && b == [b[0]] + b[1..];
  }

  lemma SortedTail<T>(s: seq<T>, key: T -> int)
    requires s != [] && Sorted(s, key)
    ensures Sorted(s[1..], key)
  {
  }

  lemma StrictRanking(a: seq<Message>, messages: Store, c: SearchCriteria)
    requires DistinctKeys(messages, c) && Ranking(a, messages, c)
    ensures Strict(a, SortKey(c))
  {
    RankedOnce(a, messages, c);
    forall i, j | 0 <= i < j < |a| ensures SortKey(c)(a[i]) < SortKey(c)(a[j]) {
      assert a[i] in a && a[j] in a;
    }
  }

  lemma DistinctRankings(messages: Store, c: SearchCriteria, a: seq<Message>, b: seq<Message>)
    requires DistinctKeys(messages, c) && Ranking(a, messages, c) && Ranking(b, messages, c)
    ensures a == b
  {
    StrictRanking(a, messages, c);
    SameRanking(a, b, SortKey(c));
  }

  /** Two messages with equal keys change places: another ranking. */
  lemma TiedSwap(messages: Store, c: SearchCriteria, a: seq<Message>, i: nat, j: nat)
    requires Ranking(a, messages, c) && i < j < |a| && SortKey(c)(a[i]) == SortKey(c)(a[j])
    ensures Ranking(Swap(a, i, j), messages, c)
  {
    var b, key := Swap(a, i, j), SortKey(c);
    forall p, q | 0 <= p < q < |b| ensures key(b[p]) <= key(b[q]) {
      assert key(b[p]) == key(a[p]) && key(b[q]) == key(a[q]);
    }
  }

  lemma TiedPlaces(messages: Store, c: SearchCriteria, a: seq<Message>) returns (i: nat, j: nat)
    requires Ranking(a, messages, c) && !DistinctKeys(messages, c)
    ensures i < j < |a| && a[i] != a[j] && SortKey(c)(a[i]) == SortKey(c)(a[j])
  {
    var x, y :| x in Matching(messages, c) && y in Matching(messages, c) && x != y && SortKey(c)(x) == SortKey(c)(y);
    RankedOnce(a, messages, c);
    var p :| 0 <= p < |a| && a[p] == x;
    var q :| 0 <= q < |a| && a[q] == y;
    i, j := if p < q then p else q, if p < q then q else p;
  }

  lemma PagesOfSwap<T>(a: seq<T>, i: nat, j: nat)
    requires i < j < |a|
    ensures Page(Swap(a, i, j), j, 1) == Page(a, i, 1) == [a[i]]
    ensures forall k | 0 <= k < |a| && k != i && k != j :: Page(Swap(a, i, j), k, 1) == Page(a, k, 1)
  {
    var b := Swap(a, i, j);
    OneOnPage(a, i);
    OneOnPage(b, j);
    forall k | 0 <= k < |a| && k != i && k != j ensures Page(b, k, 1) == Page(a, k, 1) {
      OneOnPage(a, k);
      OneOnPage(b, k);
    }
  }

  /** Whatever ranking the first search makes, the second may make another that shows one of the tied
      messages again on a later page, in the place of the other. */
  lemma TiedPagesRepeat(messages: Store, c: SearchCriteria, a: seq<Message>) returns (b: seq<Message>, i: nat, j: nat)
    requires Ranking(a, messages, c) && !DistinctKeys(messages, c)
    ensures Ranking(b, messages, c) && i < j < |a| && a[i] != a[j]
    ensures Page(b, j, 1) == Page(a, i, 1) == [a[i]]
    ensures forall k | 0 <= k < |a| && k != i && k != j :: Page(b, k, 1) == Page(a, k, 1)
  {
    i, j := TiedPlaces(messages, c, a);
    b := Swap(a, i, j);
    TiedSwap(messages, c, a, i, j);
    PagesOfSwap(a, i, j);
  }

  lemma OneOnPage<T>(all: seq<T>, k: nat)
    requires k < |all|
    ensures Page(all, k, 1) == [all[k]]
  {
  }

  // ---------------------------------------------------------------- there is a ranking

  function Insert<T>(x: T, s: seq<T>, key: T -> int): seq<T> {
    if s == [] || key(x) <= key(s[0]) then [x] + s else [s[0]] + Insert(x, s[1..], key)
  }

  lemma {:induction false} InsertKeeps<T>(x: T, s: seq<T>, key: T -> int)
    ensures multiset(Insert(x, s, key)) == multiset(s) + multiset{x}
    ensures forall y | y in Insert(x, s, key) :: y in s || y == x
  {
    if s != [] && key(x) > key(s[0]) {
      InsertKeeps(x, s[1..], key);
      MultisetOfCons(s);
    }
  }

  lemma SortedCons<T>(x: T, s: seq<T>, key: T -> int)
    requires Sorted(s, key) && forall y | y in s :: key(x) <= key(y)
    ensures Sorted([x] + s, key)
  {
    var all := [x] + s;
    forall i, j | 0 <= i < j < |all| ensures key(all[i]) <= key(all[j]) {
      assert all[j] == s[j - 1] && s[j - 1] in s;
      assert i > 0 ==> all[i] == s[i - 1];
    }
  }

  lemma {:induction false} InsertSorted<T>(x: T, s: seq<T>, key: T -> int)
    requires Sorted(s, key)
    ensures Sorted(Insert(x, s, key), key)
  {
    if s == [] || key(x) <= key(s[0]) {
      assert forall y | y in s :: key(x) <= key(y);
      SortedCons(x, s, key);
    } else {
      SortedTail(s, key);
      InsertSorted(x, s[1..], key);
      InsertKeeps(x, s[1..], key);
      assert forall y | y in s[1..] :: key(s[0]) <= key(y);
      SortedCons(s[0], Insert(x, s[1..], key), key);
    }
  }

  lemma {:induction false} RankingExists(found: set<Message>, key: Message -> int) returns (all: seq<Message>)
    ensures multiset(all) == multiset(found) && Sorted(all, key)
    decreases |found|
  {
    if found == {} {
      all := [];
    } else {
      var x :| x in found;
      var rest := RankingExists(found - {x}, key);
      InsertSorted(x, rest, key);
      InsertKeeps(x, rest, key);
      all := Insert(x, rest, key);
      assert found == (found - {x}) + {x};
    }
  }

  /** Separate searches are sure to make one ranking exactly when no two matching messages tie. */
  lemma OneRankingExactly(messages: Store, c: SearchCriteria)
    ensures (forall a, b | Ranking(a, messages, c) && Ranking(b, messages, c) :: a == b) <==> DistinctKeys(messages, c)
  {
    if DistinctKeys(messages, c) {
      forall a, b | Ranking(a, messages, c) && Ranking(b, messages, c) ensures a == b {
        DistinctRankings(messages, c, a, b);
      }
    } else {
      var a := RankingExists(Matching(messages, c), SortKey(c));
      var b, i, j := TiedPagesRepeat(messages, c, a);
      OneOnPage(a, j);
      assert Ranking(a, messages, c) && Ranking(b, messages, c) && a != b;
    }
  }

  /** The k-th page of the k-th ranking. */
  function PagesOf(rankings: seq<seq<Message>>, limit: nat): (pages: seq<seq<Message>>)
    ensures |pages| == |rankings|
    ensures forall k | 0 <= k < |pages| :: pages[k] == Page(rankings[k], k * limit, limit)
  {
    seq(|rankings|, k requires 0 <= k < |rankings| => Page(rankings[k], k * limit, limit))
  }

  /** Without ties the pages of separate searches are together one ranking. */
  lemma SeparatePagesTile(messages: Store, c: SearchCriteria, rankings: seq<seq<Message>>, all: seq<Message>, limit: nat)
    requires DistinctKeys(messages, c) && Ranking(all, messages, c) && limit > 0
    requires |rankings| == CeilDiv(|all|, limit)
    requires forall k | 0 <= k < |rankings| :: Ranking(rankings[k], messages, c)
    ensures Flatten(PagesOf(rankings, limit)) == all
  {
    ChunksCover(all, limit);
    forall k | 0 <= k < |rankings| ensures PagesOf(rankings, limit)[k] == Chunks(all, limit)[k] {
      DistinctRankings(messages, c, rankings[k], all);
      PagesTile(all, limit, k);
    }
    assert PagesOf(rankings, limit) == Chunks(all, limit);
  }

  // ---------------------------------------------------------------- the code

  /** The matching messages in the order the map is walked. */
  method Filter(messages: Store, c: SearchCriteria) returns (results: seq<Message>)
    requires Keyed(messages)
    ensures multiset(results) == multiset(Matching(messages, c))
  {
    results := [];
    var left := messages.Keys;
    ghost var done: set<GoString> := {};
    while left != {}
      invariant done + left == messages.Keys && done !! left
      invariant multiset(results) == multiset(Matching(Restrict(messages, done), c))
      decreases |left|
    {
      var id :| id in left;
      Extend(messages, done, id, c);
      if MatchesCriteria(messages[id], c) {
        results := results + [messages[id]];
      }
      left := left - {id};
      done := done + {id};
    }
    assert Restrict(messages, done) == messages;
  }

  function Restrict(messages: Store, ids: set<GoString>): Store {
    map id | id in messages && id in ids :: messages[id]
  }

  lemma Extend(messages: Store, ids: set<GoString>, id: GoString, c: SearchCriteria)
    requires Keyed(messages) && id in messages && id !in ids
    ensures multiset(Matching(Restrict(messages, ids + {id}), c)) ==
            multiset(Matching(Restrict(messages, ids), c)) +
            if MatchesCriteria(messages[id], c) then multiset{messages[id]} else multiset{}
  {
    var before, after := Matching(Restrict(messages, ids), c), Matching(Restrict(messages, ids + {id}), c);
    assert messages[id] !in before by {
      forall other | other in ids && other in messages ensures messages[other] != messages[id] {}
    }
    if MatchesCriteria(messages[id], c) {
      assert after == before + {messages[id]} by {
        assert id in Restrict(messages, ids + {id});
        forall m | m in before ensures m in after {
          var other :| other in Restrict(messages, ids) && Restrict(messages, ids)[other] == m && MatchesCriteria(m, c);
          assert other in Restrict(messages, ids + {id});
        }
      }
    } else {
      assert after == before by {
        forall m | m in before ensures m in after {
          var other :| other in Restrict(messages, ids) && Restrict(messages, ids)[other] == m && MatchesCriteria(m, c);
          assert other in Restrict(messages, ids + {id});
        }
      }
    }
  }

  /** The results are a page of some ranking of exactly the matching messages. */
  method SearchSMS(messages: Store, c: SearchCriteria) returns (results: seq<Message>)
    requires Keyed(messages)
    ensures exists all :: Ranking(all, messages, c) && results == Page(all, c.offset, c.limit)
  {
    var found := Filter(messages, c);
    var a := new Message[|found|](i requires 0 <= i < |found| => found[i]);
    assert a[..] == found;
    if c.sortBy == SUBMIT_TIME || c.sortBy == STATUS {
      ExchangeSort(a, SortKey(c));
    }
    ghost var all := a[..];
    assert Ranking(all, messages, c);
    var start := 0;
    if c.offset > 0 {
      start := c.offset;
      if start >= a.Length {
        return [];
      }
    }
    var end := a.Length;
    if c.limit > 0 {
      var requestedEnd := start + c.limit;
      if requestedEnd < end {
        end := requestedEnd;
      }
    }
    results := a[start..end];
  }

  // ---------------------------------------------------------------- criteria, order and page, spelled out

  /** A message is left out exactly when a criterion that is set speaks against it. */
  lemma LeftOutExactly(m: Message, c: SearchCriteria)
    ensures !MatchesCriteria(m, c) <==>
            || c.sourceAddr !in {[], m.sourceAddr.addr}
            || c.destAddr !in {[], m.destAddr.addr}
            || c.status !in {None, Some(m.status)}
            || (c.fromDate.Some? && m.submitTime < c.fromDate.value)
            || (c.toDate.Some? && c.toDate.value < m.submitTime)
  {
  }

  /** The statuses in the order of their numbers. */
  const STATUSES: seq<MessageStatus> :=
    [Submitted, Enroute, Delivered, Expired, Deleted, Undeliverable, Accepted, Unknown, Rejected, Split]

  lemma StatusOrder(k: nat)
    requires k < |STATUSES|
    ensures Ordinal(STATUSES[k]) == k
  {
  }

  /** Which of two results comes first: ascending unless descending is asked for. */
  lemma RankedInOrder(all: seq<Message>, messages: Store, c: SearchCriteria, i: nat, j: nat)
    requires Ranking(all, messages, c) && i < j < |all|
    ensures c.sortBy == SUBMIT_TIME && c.sortOrder != DESC ==> all[i].submitTime <= all[j].submitTime
    ensures c.sortBy == SUBMIT_TIME && c.sortOrder == DESC ==> all[i].submitTime >= all[j].submitTime
    ensures c.sortBy == STATUS && c.sortOrder != DESC ==> Ordinal(all[i].status) <= Ordinal(all[j].status)
    ensures c.sortBy == STATUS && c.sortOrder == DESC ==> Ordinal(all[i].status) >= Ordinal(all[j].status)
  {
    assert SUBMIT_TIME != STATUS by { assert |SUBMIT_TIME| != |STATUS|; }
    assert SortKey(c)(all[i]) <= SortKey(c)(all[j]);
  }

  /** What is on a page: the results from the offset on, no more than the limit if there is one. */
  lemma PageExactly<T>(all: seq<T>, offset: int, limit: int)
    ensures var start := if offset > 0 then offset else 0;
            var left := if start < |all| then |all| - start else 0;
            && |Page(all, offset, limit)| == (if 0 < limit < left then limit else left)
            && forall k | 0 <= k < |Page(all, offset, limit)| :: Page(all, offset, limit)[k] == all[start + k]
  {
  }
}
