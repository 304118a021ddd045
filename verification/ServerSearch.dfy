/** Openstack#search_for with its backoff, and the server lists built from search results. */
module ServerSearch {
  import opened Wrappers
  import opened Text

  // ---------- search_for ----------

  function Pow2(n: nat): nat {
    if n == 0 then 1 else 2 * Pow2(n - 1)
  }

  /** How many of the attempts from `count` on, below `sum`, answer nil before the first other answer. */
  function LeadingNils<T>(search: nat -> Option<seq<T>>, count: nat, sum: nat): (k: nat)
    ensures count <= sum ==> count + k <= sum
    ensures forall i :: count <= i < count + k ==> search(i).None?
    ensures count + k < sum ==> search(count + k).Some?
    decreases sum - count
  {
    if count < sum && search(count).None? then 1 + LeadingNils(search, count + 1, sum) else 0
  }

  /** `search(i)` is the answer to attempt i, counted from 1. After k nil answers the loop has slept
      exactly 2 + 4 + … + 2^k seconds; the result is the first other answer, or [] when all allowed
      attempts answered nil. */
  method SearchLoop<T>(search: nat -> Option<seq<T>>, sum: nat) returns (result: seq<T>, searches: nat, slept: nat)
    requires sum >= 1
    ensures var k := LeadingNils(search, 1, sum);
      && slept == Pow2(k + 1) - 2
      && (k + 1 < sum ==> search(k + 1) == Some(result) && searches == k + 1)
      && (k + 1 == sum ==> result == [] && searches == k)
  {
    var count := 1;
    var resp: Option<seq<T>> := None;
    searches, slept := 0, 0;
    while count < sum
      invariant 1 <= count <= sum
      invariant resp.None? && searches == count - 1
      invariant LeadingNils(search, 1, sum) == count - 1 + LeadingNils(search, count, sum)
      invariant slept == Pow2(count) - 2
    {
      resp := search(count);
      searches := searches + 1;
      if resp.Some? {
        break;
      }
      slept := slept + Pow2(count);
      count := count + 1;
    }
    result := resp.GetOr([]);
  }

  /** The pauses are the powers of two. */
  lemma {:induction false} PowerLaw(m: nat, n: nat)
    ensures Pow2(1) == 2 && Pow2(m + n) == Pow2(m) * Pow2(n)
  {
    if m == 0 {
    } else {
      PowerLaw(m - 1, n);
      assert Pow2(m + n) == 2 * Pow2(m - 1 + n);
    }
  }

  lemma {:induction false} Pow2Grows(m: nat, n: nat)
    requires m <= n
    ensures Pow2(m) <= Pow2(n)
    decreases n - m
  {
    if m == n {
    } else {
      Pow2Grows(m + 1, n);
    }
  }

  /** With the library's limit: at most 6 searches and 126 seconds. */
  method SearchFor<T>(search: nat -> Option<seq<T>>) returns (result: seq<T>, searches: nat, slept: nat)
    ensures searches <= 6 && slept <= 126
    ensures (exists i :: 1 <= i <= 6 && search(i).Some?) ==>
      1 <= searches && search(searches) == Some(result) && slept == [0, 2, 6, 14, 30, 62][searches - 1]
      && forall i :: 1 <= i < searches ==> search(i).None?
    ensures (forall i :: 1 <= i <= 6 ==> search(i).None?) ==> result == [] && searches == 6 && slept == 126
  {
    result, searches, slept := SearchLoop(search, 7);
    ghost var k := LeadingNils(search, 1, 7);
    Pow2Grows(k + 1, 7);
    assert Pow2(2) == 4 && Pow2(3) == 8 && Pow2(4) == 16 && Pow2(5) == 32 && Pow2(6) == 64 && Pow2(7) == 128;
  }

  // ---------- the string order ----------

  predicate Le(a: string, b: string) {
    a == "" || (b != "" && (a[0] < b[0] || (a[0] == b[0] && Le(a[1..], b[1..]))))
  }

  /** Both strings agree up to position k, and there a has the smaller character. */
  ghost predicate SmallerAt(a: string, b: string, k: int) {
    0 <= k < |a| && k < |b| && a[..k] == b[..k] && a[k] < b[k]
  }

  /** The order of a dictionary: a prefix comes first, otherwise the first difference decides, by
      character code. */
  ghost predicate InOrder(a: string, b: string) {
    a <= b || exists k :: SmallerAt(a, b, k)
  }

  lemma {:induction false} LeMeaning(a: string, b: string)
    ensures Le(a, b) <==> InOrder(a, b)
  {
    if a == "" || b == "" {
    } else if a[0] != b[0] {
      assert a[0] < b[0] ==> SmallerAt(a, b, 0);
      forall k | 0 < k < |a| && k < |b| ensures a[..k] != b[..k] {
        assert a[..k][0] == a[0] && b[..k][0] == b[0];
      }
    } else {
      var a', b' := a[1..], b[1..];
      LeMeaning(a', b');
      assert a == [a[0]] + a' && b == [b[0]] + b';
      forall k ensures SmallerAt(a, b, k) <==> SmallerAt(a', b', k - 1) {
        if 0 < k < |a| && k < |b| {
          assert a[..k] == [a[0]] + a'[..k - 1] && b[..k] == [b[0]] + b'[..k - 1];
          assert a[..k][1..] == a'[..k - 1] && b[..k][1..] == b'[..k - 1];
        }
      }
      if k :| SmallerAt(a', b', k) {
        assert SmallerAt(a, b, k + 1);
      }
    }
  }

  lemma {:induction false} LeTotal(a: string, b: string)
    ensures Le(a, b) || Le(b, a)
  {
    if a == "" || b == "" {
    } else {
      LeTotal(a[1..], b[1..]);
    }
  }

  lemma {:induction false} LeAntisymmetric(a: string, b: string)
    requires Le(a, b) && Le(b, a)
    ensures a == b
  {
    if a == "" || b == "" {
    } else {
      LeAntisymmetric(a[1..], b[1..]);
      assert a == [a[0]] + a[1..] && b == [b[0]] + b[1..];
    }
  }

  lemma {:induction false} LeTransitive(a: string, b: string, c: string)
    requires Le(a, b) && Le(b, c)
    ensures Le(a, c)
  {
    if a == "" || a[0] != b[0] || b[0] != c[0] {
    } else {
      LeTransitive(a[1..], b[1..], c[1..]);
    }
  }

  // ---------- sorting ----------

  function Insert(x: string, s: seq<string>): seq<string> {
    if s == [] || Le(x, s[0]) then [x] + s else [s[0]] + Insert(x, s[1..])
  }

  function Sort(s: seq<string>): seq<string> {
    if s == [] then [] else Insert(s[0], Sort(s[1..]))
  }

  ghost predicate Sorted(s: seq<string>) {
    forall i, j :: 0 <= i < j < |s| ==> Le(s[i], s[j])
  }

  lemma {:induction false} InsertKeeps(x: string, s: seq<string>)
    ensures multiset(Insert(x, s)) == multiset(s) + multiset{x}
  {
    if s == [] || Le(x, s[0]) {
      assert multiset([x] + s) == multiset([x]) + multiset(s);
    } else {
      InsertKeeps(x, s[1..]);
      assert s == [s[0]] + s[1..];
      assert multiset(s) == multiset([s[0]]) + multiset(s[1..]);
    }
  }

  lemma MembersBySame(a: seq<string>, b: seq<string>, x: string)
    requires multiset(a) == multiset(b) && x in a
    ensures x in b
  {
    assert x in multiset(a);
  }

  lemma {:induction false} InsertSorted(x: string, s: seq<string>)
    requires Sorted(s)
    ensures Sorted(Insert(x, s))
  {
    if s == [] {
    } else if Le(x, s[0]) {
      forall j | 0 <= j < |s| ensures Le(x, s[j]) {
        if j > 0 {
          LeTransitive(x, s[0], s[j]);
        }
      }
    } else {
      var r := Insert(x, s[1..]);
      InsertSorted(x, s[1..]);
      InsertKeeps(x, s[1..]);
      forall j | 0 <= j < |r| ensures Le(s[0], r[j]) {
        LeTotal(x, s[0]);
        assert r[j] in multiset(r);
        if r[j] != x {
          assert r[j] in s[1..];
        }
      }
    }
  }

  lemma RemoveFirst<T>(s: seq<T>)
    requires s != []
    ensures multiset(s) == multiset(s[1..]) + multiset{s[0]}
  {
    assert s == [s[0]] + s[1..];
  }

  /** Sorting orders the list and keeps every string with its multiplicity. */
  lemma SortMeaning(s: seq<string>)
    ensures Sorted(Sort(s)) && multiset(Sort(s)) == multiset(s)
    ensures forall i, j :: 0 <= i < j < |Sort(s)| ==> InOrder(Sort(s)[i], Sort(s)[j])
  {
    SortSorts(s);
    forall i, j | 0 <= i < j < |Sort(s)| ensures InOrder(Sort(s)[i], Sort(s)[j]) {
      LeMeaning(Sort(s)[i], Sort(s)[j]);
    }
  }

  lemma {:induction false} SortSorts(s: seq<string>)
    ensures Sorted(Sort(s)) && multiset(Sort(s)) == multiset(s)
  {
    if s == [] {
    } else {
      SortSorts(s[1..]);
      InsertSorted(s[0], Sort(s[1..]));
      InsertKeeps(s[0], Sort(s[1..]));
      RemoveFirst(s);
    }
  }

  lemma Cancel<T>(a: multiset<T>, b: multiset<T>, x: T)
    requires a + multiset{x} == b + multiset{x}
    ensures a == b
  {
    forall y ensures a[y] == b[y] {
      assert (a + multiset{x})[y] == (b + multiset{x})[y];
    }
  }

  /** There is only one way to sort. */
  lemma {:induction false} SortedUnique(a: seq<string>, b: seq<string>)
    requires Sorted(a) && Sorted(b) && multiset(a) == multiset(b)
    ensures a == b
  {
    if a == [] {
      assert |multiset(b)| == |b|;
    } else {
      MembersBySame(a, b, a[0]);
      MembersBySame(b, a, b[0]);
      HeadIsLeast(a, b[0]);
      HeadIsLeast(b, a[0]);
      LeAntisymmetric(a[0], b[0]);
      RemoveFirst(a);
      RemoveFirst(b);
      Cancel(multiset(a[1..]), multiset(b[1..]), a[0]);
      SortedUnique(a[1..], b[1..]);
      assert a == [a[0]] + a[1..] && b == [b[0]] + b[1..];
    }
  }

  lemma {:induction false} LeReflexive(a: string)
    ensures Le(a, a)
  {
    if a == "" {
    } else {
      LeReflexive(a[1..]);
    }
  }

  lemma HeadIsLeast(a: seq<string>, x: string)
    requires Sorted(a) && x in a
    ensures Le(a[0], x)
  {
    LeReflexive(x);
  }

  // ---------- server lists ----------

  datatype CacheNode = CacheNode(listen: string, port: Option<string>)

  datatype QueueNode = QueueNode(listen: string, port: string)

  function CacheEndpoint(n: CacheNode): string {
    n.listen + ":" + n.port.GetOr("11211")
  }

  function QueueEndpoint(n: QueueNode): string {
    n.listen + ":" + n.port
  }

  function MapAll<T>(f: T -> string, items: seq<T>): seq<string> {
    if items == [] then [] else [f(items[0])] + MapAll(f, items[1..])
  }

  /** The configured list when there is one, otherwise the sorted endpoints found. */
  function MemcachedServers(configured: Option<seq<string>>, found: seq<CacheNode>): seq<string> {
    match configured
    case None => Sort(MapAll(CacheEndpoint, found))
    case Some(servers) => if |servers| != 0 then servers else []
  }

  function RabbitServers(configured: Option<seq<string>>, port: string, found: seq<QueueNode>): string {
    match configured
    case Some(servers) => Join(MapAll((s: string) => s + ":" + port, servers), ",")
    case None => Join(Sort(MapAll(QueueEndpoint, found)), ",")
  }

  lemma {:induction false} MapIs<T>(f: T -> string, items: seq<T>, r: seq<string>)
    requires |r| == |items| && forall k :: 0 <= k < |items| ==> r[k] == f(items[k])
    ensures r == MapAll(f, items)
  {
    if items == [] {
    } else {
      MapIs(f, items[1..], r[1..]);
    }
  }

  lemma {:induction false} MapConcat<T>(f: T -> string, a: seq<T>, b: seq<T>)
    ensures MapAll(f, a + b) == MapAll(f, a) + MapAll(f, b)
  {
    if a == [] {
      assert a + b == b;
    } else {
      assert (a + b)[1..] == a[1..] + b;
      MapConcat(f, a[1..], b);
    }
  }

  lemma Middle<T>(a: seq<T>, x: T, b: seq<T>)
    ensures multiset(a + ([x] + b)) == multiset(a + b) + multiset{x}
  {
  }

  lemma RemoveAt<T>(s: seq<T>, i: nat)
    requires i < |s|
    ensures multiset(s) == multiset(s[..i] + s[i + 1..]) + multiset{s[i]}
  {
    assert s == s[..i] + ([s[i]] + s[i + 1..]);
    Middle(s[..i], s[i], s[i + 1..]);
  }

  lemma MapRemoveAt<T>(f: T -> string, s: seq<T>, i: nat)
    requires i < |s|
    ensures multiset(MapAll(f, s)) == multiset(MapAll(f, s[..i] + s[i + 1..])) + multiset{f(s[i])}
  {
    var a, x, b := s[..i], s[i], s[i + 1..];
    assert s == a + ([x] + b);
    MapConcat(f, a, [x] + b);
    MapConcat(f, a, b);
    MapCons(f, x, b);
    Middle(MapAll(f, a), f(x), MapAll(f, b));
  }

  lemma MapCons<T>(f: T -> string, x: T, b: seq<T>)
    ensures MapAll(f, [x] + b) == [f(x)] + MapAll(f, b)
  {
    assert ([x] + b)[1..] == b;
  }

  lemma {:induction false} MapPermuted<T>(f: T -> string, a: seq<T>, b: seq<T>)
    requires multiset(a) == multiset(b)
    ensures multiset(MapAll(f, a)) == multiset(MapAll(f, b))
    decreases |a|
  {
    if a == [] {
      assert |multiset(b)| == |b|;
    } else {
      var x, tail := a[0], a[1..];
      assert x in multiset(b);
      var i :| 0 <= i < |b| && b[i] == x;
      var rest := b[..i] + b[i + 1..];
      RemoveFirst(a);
      RemoveAt(b, i);
      Cancel(multiset(tail), multiset(rest), x);
      MapPermuted(f, tail, rest);
      assert a == [x] + tail;
      MapCons(f, x, tail);
      MapRemoveAt(f, b, i);
    }
  }

  /** The order of the search response does not show in the server lists. */
  lemma CanonicalMemcached(a: seq<CacheNode>, b: seq<CacheNode>)
    requires multiset(a) == multiset(b)
    ensures MemcachedServers(None, a) == MemcachedServers(None, b)
    ensures multiset(MemcachedServers(None, a)) == multiset(MapAll(CacheEndpoint, a))
  {
    MapPermuted(CacheEndpoint, a, b);
    SortMeaning(MapAll(CacheEndpoint, a));
    SortMeaning(MapAll(CacheEndpoint, b));
    SortedUnique(Sort(MapAll(CacheEndpoint, a)), Sort(MapAll(CacheEndpoint, b)));
  }

  /** The same for the comma list of rabbit servers; splitting it at the commas gives back every
      endpoint with its multiplicity exactly when none of them holds a comma. */
  lemma CanonicalRabbit(a: seq<QueueNode>, b: seq<QueueNode>, port: string)
    requires multiset(a) == multiset(b)
    ensures RabbitServers(None, port, a) == RabbitServers(None, port, b)
    ensures a != [] ==>
      (Split(RabbitServers(None, port, a), ',') == Sort(MapAll(QueueEndpoint, a))
       <==> AllFree(Sort(MapAll(QueueEndpoint, a)), ','))
    ensures multiset(Sort(MapAll(QueueEndpoint, a))) == multiset(MapAll(QueueEndpoint, a))
  {
    MapPermuted(QueueEndpoint, a, b);
    SortMeaning(MapAll(QueueEndpoint, a));
    SortMeaning(MapAll(QueueEndpoint, b));
    SortedUnique(Sort(MapAll(QueueEndpoint, a)), Sort(MapAll(QueueEndpoint, b)));
    if a != [] {
      var e := MapAll(QueueEndpoint, a);
      assert e[0] in multiset(e);
      SplitJoin(Sort(e), ',');
    }
  }

  /** A configured list, empty or not, comes back as it is; otherwise the answer is the sorted list of
      the addresses found, each with its port or 11211. */
  lemma MemcachedMeaning(configured: Option<seq<string>>, found: seq<CacheNode>, endpoints: seq<string>)
    requires |endpoints| == |found|
    requires forall k :: 0 <= k < |found| ==>
               endpoints[k] == found[k].listen + ":" + (if found[k].port.Some? then found[k].port.value else "11211")
    ensures var servers := MemcachedServers(configured, found);
      if configured.Some? then servers == configured.value
      else Sorted(servers) && multiset(servers) == multiset(endpoints)
  {
    MapIs(CacheEndpoint, found, endpoints);
    SortMeaning(endpoints);
  }

  /** The servers of the rabbit string: the configured hosts in order, each with the configured port,
      or the sorted list of the addresses found, each with its own port. Splitting at the commas gives
      them back exactly when none of them holds a comma. */
  lemma RabbitMeaning(configured: Option<seq<string>>, port: string, found: seq<QueueNode>, endpoints: seq<string>)
    returns (servers: seq<string>)
    requires |endpoints| == if configured.Some? then |configured.value| else |found|
    requires forall k :: 0 <= k < |endpoints| ==>
               endpoints[k] == if configured.Some? then configured.value[k] + ":" + port
                               else found[k].listen + ":" + found[k].port
    ensures if configured.Some? then servers == endpoints
            else Sorted(servers) && multiset(servers) == multiset(endpoints)
    ensures RabbitServers(configured, port, found) == Join(servers, ",")
    ensures servers != [] ==>
      (Split(RabbitServers(configured, port, found), ',') == servers <==> AllFree(servers, ','))
  {
    if configured.Some? {
      servers := endpoints;
      MapIs((s: string) => s + ":" + port, configured.value, endpoints);
    } else {
      servers := Sort(endpoints);
      MapIs(QueueEndpoint, found, endpoints);
      SortMeaning(endpoints);
    }
    if servers != [] {
      SplitJoin(servers, ',');
    }
  }
}
