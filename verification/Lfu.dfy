/**
 * The eviction cache: least frequently used, with dynamic aging.  One list holds all nodes,
 * those in use first; a key map and an ordered multimap of use counts point into it.
 */
module Lfu {
  import opened Base

  /** List nodes are allocated once and only ever relinked, so a number identifies them. */
  type Node = nat

  datatype Element<K, V> = Element(key: K, count: nat, age: int, value: V)

  datatype Allow = Insert | Update | InsertOrUpdate

  predicate InsertAllowed(a: Allow) {
    a != Update
  }

  predicate UpdateAllowed(a: Allow) {
    a != Insert
  }

  // ---------------------------------------------------------------- the list

  ghost predicate Distinct<T>(s: seq<T>) {
    forall i, j :: 0 <= i < j < |s| ==> s[i] != s[j]
  }

  ghost function Elems<T>(s: seq<T>): set<T> {
    set x | x in s
  }

  /** The position of `x`, or the end. */
  function IndexOf<T(==)>(s: seq<T>, x: T): (i: nat)
    ensures i <= |s| && (i < |s| ==> s[i] == x)
    ensures forall j :: 0 <= j < i ==> s[j] != x
  {
    if s == [] then 0 else if s[0] == x then 0 else 1 + IndexOf(s[1..], x)
  }

  /** std::list::splice of the single node `x` to the place before `before`. */
  function Splice(s: seq<Node>, before: Node, x: Node): seq<Node> {
    var i := IndexOf(s, x);
    if i == |s| then s
    else
      var r := s[..i] + s[i + 1..];
      var j := IndexOf(r, before);
      r[..j] + [x] + r[j..]
  }

  /** The element at `i` moves to just before position `j`. */
  function Move<T>(s: seq<T>, i: nat, j: nat): (r: seq<T>)
    requires i < j <= |s|
    ensures |r| == |s| && r[j - 1] == s[i]
    ensures forall k :: 0 <= k < i || j <= k < |s| ==> r[k] == s[k]
    ensures forall k :: i <= k < j - 1 ==> r[k] == s[k + 1]
  {
    s[..i] + s[i + 1..j] + [s[i]] + s[j..]
  }

  lemma IndexIs<T>(s: seq<T>, x: T, i: nat)
    requires i <= |s| && (i < |s| ==> s[i] == x) && forall j :: 0 <= j < i ==> s[j] != x
    ensures IndexOf(s, x) == i
  {
    var k := IndexOf(s, x);
  }

  /** Splicing forward is a move of positions. */
  lemma SpliceMoves(s: seq<Node>, i: nat, j: nat, before: Node)
    requires Distinct(s) && i < j <= |s| && (if j < |s| then before == s[j] else before !in s)
    ensures Splice(s, before, s[i]) == Move(s, i, j)
  {
    hide IndexOf;
    IndexIs(s, s[i], i);
    var r := s[..i] + s[i + 1..];
    BeforeInRest(s, i, j, before);
    IndexIs(r, before, j - 1);
    assert r[..j - 1] == s[..i] + s[i + 1..j];
    assert r[j - 1..] == s[j..];
  }

  lemma BeforeInRest(s: seq<Node>, i: nat, j: nat, before: Node)
    requires Distinct(s) && i < j <= |s| && (if j < |s| then before == s[j] else before !in s)
    ensures var r := s[..i] + s[i + 1..];
            (j < |s| ==> r[j - 1] == before) && (forall k :: 0 <= k < j - 1 ==> r[k] != before)
  {
    var r := s[..i] + s[i + 1..];
    forall k | 0 <= k < j - 1
      ensures r[k] != before
    {
      assert r[k] == s[if k < i then k else k + 1];
    }
  }

  /** Moving inside a prefix keeps its elements and the rest. */
  lemma MoveKeeps<T>(s: seq<T>, i: nat, j: nat, n: nat)
    requires Distinct(s) && i < j <= n <= |s|
    ensures Distinct(Move(s, i, j))
    ensures Elems(Move(s, i, j)[..n]) == Elems(s[..n]) && Move(s, i, j)[n..] == s[n..]
    ensures Elems(Move(s, i, j)) == Elems(s)
  {
    var r := Move(s, i, j);
    forall x
      ensures x in r[..n] <==> x in s[..n]
    {
      if x in s[..n] {
        var k :| 0 <= k < n && s[k] == x;
        var k' := if k < i || k >= j then k else if k == i then j - 1 else k - 1;
        assert r[..n][k'] == x;
      }
      if x in r[..n] {
        var k :| 0 <= k < n && r[k] == x;
        var k' := if k < i || k >= j then k else if k == j - 1 then i else k + 1;
        assert s[..n][k'] == x;
      }
    }
    assert r == r[..n] + r[n..] && s == s[..n] + s[n..];
  }

  /** The node before the marker; the last one when the marker is the end. */
  function Prev(s: seq<Node>, x: Node): Node
    requires IndexOf(s, x) > 0
  {
    s[IndexOf(s, x) - 1]
  }

  // ---------------------------------------------------------------- agreement of the structures

  /** All nodes are linked once, and the marker separates the used ones from the rest. */
  ghost predicate Listed(capacity: nat, order: seq<Node>, used: nat, open: Node) {
    |order| == capacity && Distinct(order) && (forall i :: 0 <= i < capacity ==> order[i] < capacity) &&
    used <= capacity && open == (if used < capacity then order[used] else capacity)
  }

  /** The key map names exactly the used nodes, each under its own key. */
  ghost predicate Keyed<K, V>(nodes: set<Node>, element: map<Node, Element<K, V>>, keyed: map<K, Node>) {
    nodes <= element.Keys &&
    (forall k :: k in keyed ==> keyed[k] in nodes && element[keyed[k]].key == k) &&
    (forall n :: n in nodes ==> element[n].key in keyed && keyed[element[n].key] == n)
  }

  datatype Rank = Rank(count: nat, node: Node)

  ghost predicate Sorted(lfu: seq<Rank>) {
    forall i, j :: 0 <= i < j < |lfu| ==> lfu[i].count <= lfu[j].count
  }

  ghost function Ranks<K, V>(nodes: set<Node>, element: map<Node, Element<K, V>>): set<Rank>
    requires nodes <= element.Keys
  {
    set n | n in nodes :: Rank(element[n].count, n)
  }

  /** The multimap holds exactly the use counts of the used nodes, in order. */
  ghost predicate Ranked<K, V>(nodes: set<Node>, element: map<Node, Element<K, V>>, lfu: seq<Rank>) {
    nodes <= element.Keys && Sorted(lfu) && multiset(lfu) == multiset(Ranks(nodes, element))
  }

  /** The three structures agree on what is used. */
  ghost predicate Agree<K, V>(capacity: nat, order: seq<Node>, used: nat, open: Node,
                              element: map<Node, Element<K, V>>, keyed: map<K, Node>, lfu: seq<Rank>) {
    Listed(capacity, order, used, open) &&
    Keyed(Elems(order[..used]), element, keyed) &&
    Ranked(Elems(order[..used]), element, lfu) &&
    |keyed| == used
  }

  /** What the cache holds, by key. */
  ghost function Held<K, V>(element: map<Node, Element<K, V>>, keyed: map<K, Node>): map<K, Element<K, V>>
    requires forall k :: k in keyed ==> keyed[k] in element
  {
    map k | k in keyed :: element[keyed[k]]
  }

  /** The keys of a piece of the list, in list order. */
  ghost function KeysOf<K, V>(nodes: seq<Node>, element: map<Node, Element<K, V>>): (q: seq<K>)
    requires forall n :: n in nodes ==> n in element
    ensures |q| == |nodes| && forall i :: 0 <= i < |q| ==> q[i] == element[nodes[i]].key
  {
    seq(|nodes|, i requires 0 <= i < |nodes| => element[nodes[i]].key)
  }

  /** Changing the count of one node moves one rank. */
  lemma RankChanges<K, V>(nodes: set<Node>, element: map<Node, Element<K, V>>, n: Node, e: Element<K, V>)
    requires nodes <= element.Keys && n in nodes
    ensures var r := Rank(element[n].count, n);
            r in Ranks(nodes, element) &&
            multiset(Ranks(nodes, element[n := e])) ==
            multiset(Ranks(nodes, element)) - multiset{r} + multiset{Rank(e.count, n)}
  {
    var r, r' := Rank(element[n].count, n), Rank(e.count, n);
    assert Ranks(nodes, element[n := e]) == Ranks(nodes, element) - {r} + {r'};
  }

  lemma RankAdded<K, V>(nodes: set<Node>, element: map<Node, Element<K, V>>, n: Node, e: Element<K, V>)
    requires nodes <= element.Keys && n !in nodes
    ensures multiset(Ranks(nodes + {n}, element[n := e])) ==
            multiset(Ranks(nodes, element)) + multiset{Rank(e.count, n)}
  {
    assert Ranks(nodes + {n}, element[n := e]) == Ranks(nodes, element) + {Rank(e.count, n)};
  }

  lemma RankDropped<K, V>(nodes: set<Node>, element: map<Node, Element<K, V>>, n: Node)
    requires nodes <= element.Keys && n in nodes
    ensures var r := Rank(element[n].count, n);
            r in Ranks(nodes, element) &&
            multiset(Ranks(nodes - {n}, element)) == multiset(Ranks(nodes, element)) - multiset{r}
  {
    assert Ranks(nodes - {n}, element) == Ranks(nodes, element) - {Rank(element[n].count, n)};
  }

  /** `r` stands behind all ranks of its count. */
  ghost predicate InsertedAt(before: seq<Rank>, after: seq<Rank>, r: Rank, i: nat) {
    i <= |before| && after == before[..i] + [r] + before[i..] &&
    (forall j :: 0 <= j < i ==> before[j].count <= r.count) &&
    (forall j :: i <= j < |before| ==> before[j].count > r.count)
  }

  /** One rank has given way to another, which stands behind all of its count. */
  ghost predicate RankMoved(before: seq<Rank>, r: Rank, r': Rank, after: seq<Rank>) {
    exists i :: InsertedAt(Dropped(before, r), after, r', i)
  }

  lemma RankInserted(lfu: seq<Rank>, i: nat, r: Rank)
    requires Sorted(lfu) && i <= |lfu| && (forall j :: 0 <= j < i ==> lfu[j].count <= r.count)
    requires i < |lfu| ==> lfu[i].count > r.count
    ensures var lfu' := lfu[..i] + [r] + lfu[i..];
            Sorted(lfu') && multiset(lfu') == multiset(lfu) + multiset{r} && InsertedAt(lfu, lfu', r, i)
  {
    assert lfu == lfu[..i] + lfu[i..];
  }

  lemma RankRemoved(lfu: seq<Rank>, i: nat)
    requires Sorted(lfu) && i < |lfu|
    ensures var r := lfu[..i] + lfu[i + 1..]; Sorted(r) && multiset(r) == multiset(lfu) - multiset{lfu[i]}
  {
    var r := lfu[..i] + lfu[i + 1..];
    assert lfu == lfu[..i] + [lfu[i]] + lfu[i + 1..];
    forall a, b | 0 <= a < b < |r|
      ensures r[a].count <= r[b].count
    {
      assert r[a] == lfu[if a < i then a else a + 1] && r[b] == lfu[if b < i then b else b + 1];
    }
  }

  lemma RankMissing(lfu: seq<Rank>, i: nat, r: Rank)
    requires Sorted(lfu) && i <= |lfu| && (forall j :: 0 <= j < i ==> lfu[j] != r)
    requires i < |lfu| ==> lfu[i].count > r.count
    ensures multiset(lfu) - multiset{r} == multiset(lfu) && forall j :: 0 <= j < |lfu| ==> lfu[j] != r
  {
    assert forall j :: 0 <= j < |lfu| ==> lfu[j] != r;
    assert r !in multiset(lfu);
  }

  /** The first rank belongs to a node with the least use count. */
  lemma FirstIsLeast<K, V>(nodes: set<Node>, element: map<Node, Element<K, V>>, lfu: seq<Rank>)
    requires Ranked(nodes, element, lfu) && nodes != {}
    ensures lfu != [] && lfu[0].node in nodes && element[lfu[0].node].count == lfu[0].count
    ensures forall n :: n in nodes ==> element[lfu[0].node].count <= element[n].count
  {
    forall n | n in nodes
      ensures Rank(element[n].count, n) in lfu
    {
      assert Rank(element[n].count, n) in multiset(Ranks(nodes, element));
    }
    assert lfu != [];
    assert lfu[0] in multiset(lfu);
    assert lfu[0] in Ranks(nodes, element);
  }

  ghost predicate Named<K, V>(lfu: seq<Rank>, element: map<Node, Element<K, V>>) {
    forall i :: 0 <= i < |lfu| ==> lfu[i].node in element
  }

  /** The keys in the order of the multimap. */
  ghost function NamesOf<K, V>(lfu: seq<Rank>, element: map<Node, Element<K, V>>): (r: seq<K>)
    requires Named(lfu, element)
    ensures |r| == |lfu| && forall i :: 0 <= i < |r| ==> r[i] == element[lfu[i].node].key
  {
    seq(|lfu|, i requires 0 <= i < |lfu| => element[lfu[i].node].key)
  }

  /** The multimap has one rank for each used node. */
  lemma RankNodes<K, V>(nodes: set<Node>, element: map<Node, Element<K, V>>, lfu: seq<Rank>)
    requires Ranked(nodes, element, lfu)
    ensures Named(lfu, element)
    ensures forall i :: 0 <= i < |lfu| ==> lfu[i].node in nodes && element[lfu[i].node].count == lfu[i].count
    ensures forall i, j :: 0 <= i < j < |lfu| ==> lfu[i].node != lfu[j].node
    ensures forall n :: n in nodes ==> Rank(element[n].count, n) in lfu
  {
    var ranks := multiset(Ranks(nodes, element));
    forall i | 0 <= i < |lfu|
      ensures lfu[i] in Ranks(nodes, element)
    {
      assert lfu[i] in multiset(lfu);
    }
    forall i, j | 0 <= i < j < |lfu|
      ensures lfu[i] != lfu[j]
    {
      assert lfu == lfu[..j] + [lfu[j]] + lfu[j + 1..];
      assert lfu[..j][i] in multiset(lfu[..j]);
      assert ranks[lfu[j]] <= 1;
    }
    forall n | n in nodes
      ensures Rank(element[n].count, n) in lfu
    {
      assert Rank(element[n].count, n) in ranks;
      assert Rank(element[n].count, n) in multiset(lfu);
    }
  }

  // ---------------------------------------------------------------- steps

  lemma MarkerPosition(capacity: nat, order: seq<Node>, used: nat, open: Node)
    requires Listed(capacity, order, used, open)
    ensures IndexOf(order, open) == used
  {
    IndexIs(order, open, used);
  }

  /** The position of a used node. */
  lemma UsedPosition(capacity: nat, order: seq<Node>, used: nat, open: Node, n: Node) returns (i: nat)
    requires Listed(capacity, order, used, open) && n in Elems(order[..used])
    ensures i < used && order[i] == n && IndexOf(order, n) == i
  {
    i :| 0 <= i < used && order[i] == n;
    IndexIs(order, n, i);
  }

  /** Rewriting one node under the same key. */
  lemma NodeRewritten<K, V>(nodes: set<Node>, element: map<Node, Element<K, V>>, keyed: map<K, Node>,
                            lfu: seq<Rank>, n: Node, e: Element<K, V>, lfu': seq<Rank>)
    requires Keyed(nodes, element, keyed) && Ranked(nodes, element, lfu) && n in nodes && e.key == element[n].key
    requires Sorted(lfu') &&
             multiset(lfu') == multiset(lfu) - multiset{Rank(element[n].count, n)} + multiset{Rank(e.count, n)}
    ensures Keyed(nodes, element[n := e], keyed) && Ranked(nodes, element[n := e], lfu')
    ensures Held(element[n := e], keyed) == Held(element, keyed)[e.key := e]
  {
    RankChanges(nodes, element, n, e);
    var element' := element[n := e];
    var m, m' := Held(element, keyed)[e.key := e], Held(element', keyed);
    assert m'.Keys == m.Keys;
    assert forall k :: k in m' ==> m'[k] == m[k];
  }

  lemma KeysUnchanged<K, V>(s: seq<Node>, element: map<Node, Element<K, V>>, n: Node, e: Element<K, V>)
    requires (forall x :: x in s ==> x in element) && n in element && e.key == element[n].key
    ensures KeysOf(s, element[n := e]) == KeysOf(s, element)
  {
  }

  /** Moving a used node towards the marker. */
  lemma UsedMoved(capacity: nat, order: seq<Node>, used: nat, open: Node, i: nat, j: nat)
    requires Listed(capacity, order, used, open) && i < j <= used
    ensures Listed(capacity, Move(order, i, j), used, open)
    ensures Elems(Move(order, i, j)[..used]) == Elems(order[..used])
  {
    MoveKeeps(order, i, j, used);
    var r := Move(order, i, j);
    assert forall k :: 0 <= k < capacity ==> r[k] in Elems(order);
  }

  /** The keys of the list move as its nodes do. */
  lemma KeysMoved<K, V>(order: seq<Node>, used: nat, element: map<Node, Element<K, V>>, i: nat, j: nat)
    requires i < j <= used <= |order|
    requires forall n :: n in order[..used] ==> n in element
    requires forall n :: n in Move(order, i, j)[..used] ==> n in element
    ensures KeysOf(Move(order, i, j)[..used], element) == Move(KeysOf(order[..used], element), i, j)
  {
    var a, b := KeysOf(Move(order, i, j)[..used], element), Move(KeysOf(order[..used], element), i, j);
    assert forall k :: 0 <= k < used ==> a[k] == b[k];
  }

  /** A key has the place of its node. */
  lemma KeyPosition<K, V>(order: seq<Node>, used: nat, element: map<Node, Element<K, V>>, keyed: map<K, Node>, i: nat)
    requires Distinct(order) && used <= |order| && i < used && Keyed(Elems(order[..used]), element, keyed)
    ensures forall n :: n in order[..used] ==> n in element
    ensures IndexOf(KeysOf(order[..used], element), element[order[i]].key) == i
  {
    assert forall n :: n in order[..used] ==> n in Elems(order[..used]);
    var q := KeysOf(order[..used], element);
    forall j | 0 <= j < i
      ensures q[j] != q[i]
    {
      assert order[..used][j] in Elems(order[..used]) && order[..used][i] in Elems(order[..used]);
      assert keyed[q[j]] == order[j] && keyed[q[i]] == order[i];
    }
    IndexIs(q, q[i], i);
  }

  // ---------------------------------------------------------------- specification

  /** The use count after aging: truncated towards zero. */
  function Decayed(count: nat, ratio: real): (r: nat)
    requires 0.0 <= ratio <= 1.0
    ensures r as real <= count as real * ratio < r as real + 1.0
    ensures r <= count
  {
    assert 0.0 <= count as real * ratio <= count as real;
    (count as real * ratio).Floor
  }

  predicate Stale<K, V>(e: Element<K, V>, tick: nat, now: int) {
    e.age + tick < now
  }

  function Aged<K, V>(e: Element<K, V>, ratio: real, now: int): Element<K, V>
    requires 0.0 <= ratio <= 1.0
  {
    e.(count := Decayed(e.count, ratio), age := now)
  }

  /** `p` is the length of the longest prefix of the queue that is stale throughout. */
  ghost predicate StalePrefix<K, V>(q: seq<K>, c: map<K, Element<K, V>>, tick: nat, now: int, p: nat) {
    p <= |q| && (forall i :: 0 <= i < |q| ==> q[i] in c) &&
    (forall i :: 0 <= i < p ==> Stale(c[q[i]], tick, now)) &&
    (p < |q| ==> !Stale(c[q[p]], tick, now))
  }

  /** Contents after the first `p` keys of the queue have aged, once each. */
  ghost function AgedContents<K, V>(c: map<K, Element<K, V>>, aged: set<K>, ratio: real,
                                    now: int): map<K, Element<K, V>>
    requires 0.0 <= ratio <= 1.0
  {
    map k | k in c :: if k in aged then Aged(c[k], ratio, now) else c[k]
  }

  function Reversed<T>(s: seq<T>): (r: seq<T>)
    ensures |r| == |s|
    ensures forall i :: 0 <= i < |s| ==> r[i] == s[|s| - 1 - i]
  {
    if s == [] then [] else Reversed(s[1..]) + [s[0]]
  }

  /** Aged keys go behind the others, the last aged first. */
  function AgedQueue<K>(q: seq<K>, p: nat): seq<K>
    requires p <= |q|
  {
    q[p..] + Reversed(q[..p])
  }

  /** The keys that have not aged keep their order in front; of the others the last aged comes first. */
  lemma AgedPlaces<K>(q: seq<K>, p: nat, i: nat)
    requires p <= |q| && i < |q|
    ensures |AgedQueue(q, p)| == |q|
    ensures if i < p then AgedQueue(q, p)[|q| - 1 - i] == q[i] else AgedQueue(q, p)[i - p] == q[i]
  {
  }

  function Dropped<K(==)>(q: seq<K>, k: K): seq<K> {
    var i := IndexOf(q, k);
    if i == |q| then q else q[..i] + q[i + 1..]
  }

  /** How many leading keys have been used at most `n` times. */
  ghost function PlaceOf<K, V>(r: seq<K>, c: map<K, Element<K, V>>, n: nat): (i: nat)
    ensures i <= |r|
    ensures forall j :: 0 <= j < i ==> r[j] in c && c[r[j]].count <= n
    ensures i < |r| && r[i] in c ==> c[r[i]].count > n
  {
    if r == [] || r[0] !in c || c[r[0]].count > n then 0 else 1 + PlaceOf(r[1..], c, n)
  }

  lemma PlaceIs<K, V>(r: seq<K>, c: map<K, Element<K, V>>, n: nat, i: nat)
    requires i <= |r| && (forall j :: 0 <= j < |r| ==> r[j] in c)
    requires (forall j :: 0 <= j < i ==> c[r[j]].count <= n) && (i < |r| ==> c[r[i]].count > n)
    ensures PlaceOf(r, c, n) == i
  {
    var k := PlaceOf(r, c, n);
  }

  /** A key that has just reached the count `n` goes behind all keys that had it before. */
  ghost function Placed<K, V>(r: seq<K>, c: map<K, Element<K, V>>, k: K, n: nat): (r': seq<K>)
    ensures |r'| == |r| + 1 && r'[PlaceOf(r, c, n)] == k
  {
    var i := PlaceOf(r, c, n);
    r[..i] + [k] + r[i..]
  }

  ghost function Reranked<K, V>(r: seq<K>, c: map<K, Element<K, V>>, k: K, n: nat): seq<K> {
    Placed(Dropped(r, k), c, k, n)
  }

  /** The ranking after the first `p` keys of the queue have aged, one after the other. */
  ghost function AgedRanking<K, V>(r: seq<K>, c: map<K, Element<K, V>>, q: seq<K>, p: nat, ratio: real,
                                   now: int): seq<K>
    requires 0.0 <= ratio <= 1.0
  {
    if p == 0 || p > |q| || q[p - 1] !in c then r
    else
      Reranked(AgedRanking(r, c, q, p - 1, ratio, now), AgedContents(c, Elems(q[..p - 1]), ratio, now), q[p - 1],
               Decayed(c[q[p - 1]].count, ratio))
  }

  /** An accessed key goes to the last place but one; the last key stays last. */
  function Promoted<K(==)>(q: seq<K>, k: K): seq<K> {
    var i := IndexOf(q, k);
    if i + 1 >= |q| then q else Move(q, i, |q| - 1)
  }

  /** The rank of a node and its key have the same place. */
  lemma NamePosition<K, V>(nodes: set<Node>, element: map<Node, Element<K, V>>, keyed: map<K, Node>, lfu: seq<Rank>,
                           n: Node) returns (i: nat)
    requires Ranked(nodes, element, lfu) && Keyed(nodes, element, keyed) && n in nodes
    ensures Named(lfu, element) && i < |lfu| && lfu[i] == Rank(element[n].count, n)
    ensures IndexOf(lfu, lfu[i]) == i && IndexOf(NamesOf(lfu, element), element[n].key) == i
  {
    RankNodes(nodes, element, lfu);
    hide Ranked, IndexOf;
    i :| 0 <= i < |lfu| && lfu[i] == Rank(element[n].count, n);
    IndexIs(lfu, lfu[i], i);
    var r := NamesOf(lfu, element);
    forall j | 0 <= j < i
      ensures r[j] != r[i]
    {
      assert keyed[r[j]] == lfu[j].node && keyed[r[i]] == n;
    }
    IndexIs(r, element[n].key, i);
  }

  lemma NamesRemoved<K, V>(lfu: seq<Rank>, element: map<Node, Element<K, V>>, i: nat)
    requires Named(lfu, element) && i < |lfu|
    ensures var mid, r := lfu[..i] + lfu[i + 1..], NamesOf(lfu, element);
            Named(mid, element) && NamesOf(mid, element) == r[..i] + r[i + 1..]
  {
    var mid, r := lfu[..i] + lfu[i + 1..], NamesOf(lfu, element);
    assert forall j :: 0 <= j < |mid| ==> mid[j] == lfu[if j < i then j else j + 1];
  }

  lemma NamesInserted<K, V>(mid: seq<Rank>, element: map<Node, Element<K, V>>, n: Node, e: Element<K, V>, i: nat)
    requires Named(mid, element) && i <= |mid| && forall j :: 0 <= j < |mid| ==> mid[j].node != n
    ensures var lfu, r := mid[..i] + [Rank(e.count, n)] + mid[i..], NamesOf(mid, element);
            Named(lfu, element[n := e]) && NamesOf(lfu, element[n := e]) == r[..i] + [e.key] + r[i..]
  {
    var lfu, r := mid[..i] + [Rank(e.count, n)] + mid[i..], NamesOf(mid, element);
    assert forall j :: 0 <= j < |lfu| ==>
        lfu[j] == if j < i then mid[j] else if j == i then Rank(e.count, n) else mid[j - 1];
  }

  /** Taking a rank away takes its key away. */
  lemma RankingDropped<K, V>(nodes: set<Node>, element: map<Node, Element<K, V>>, keyed: map<K, Node>, lfu: seq<Rank>,
                             n: Node, mid: seq<Rank>)
    requires Ranked(nodes, element, lfu) && Keyed(nodes, element, keyed) && n in nodes
    requires mid == Dropped(lfu, Rank(element[n].count, n))
    ensures Named(lfu, element) && Named(mid, element)
    ensures NamesOf(mid, element) == Dropped(NamesOf(lfu, element), element[n].key)
    ensures RanksOf(mid, nodes - {n}, element)
  {
    hide IndexOf, NamesOf, Keyed, Ranked, Named, RanksOf;
    var i := NamePosition(nodes, element, keyed, lfu, n);
    NamesRemoved(lfu, element, i);
    RanksRemoved(nodes, element, lfu, i);
  }

  lemma RanksRemoved<K, V>(nodes: set<Node>, element: map<Node, Element<K, V>>, lfu: seq<Rank>, i: nat)
    requires Ranked(nodes, element, lfu) && i < |lfu|
    ensures RanksOf(lfu[..i] + lfu[i + 1..], nodes - {lfu[i].node}, element)
  {
    RankNodes(nodes, element, lfu);
    hide Ranked;
    var mid := lfu[..i] + lfu[i + 1..];
    assert forall j :: 0 <= j < |mid| ==> mid[j] == lfu[if j < i then j else j + 1];
  }

  /** The ranks belong to some of the nodes. */
  ghost predicate RanksOf<K, V>(lfu: seq<Rank>, nodes: set<Node>, element: map<Node, Element<K, V>>) {
    forall j :: 0 <= j < |lfu| ==>
      lfu[j].node in nodes && lfu[j].node in element && element[lfu[j].node].count == lfu[j].count
  }

  /** Adding a rank adds its key at the same place. */
  lemma RankingPlaced<K, V>(nodes: set<Node>, element: map<Node, Element<K, V>>, keyed: map<K, Node>, mid: seq<Rank>,
                            n: Node, e: Element<K, V>, lfu: seq<Rank>, i: nat)
    requires InsertedAt(mid, lfu, Rank(e.count, n), i) && Keyed(nodes, element, keyed)
    requires RanksOf(mid, nodes - {n}, element)
    ensures Named(mid, element) && Named(lfu, element[n := e])
    ensures NamesOf(lfu, element[n := e]) == Placed(NamesOf(mid, element), Held(element, keyed), e.key, e.count)
  {
    hide NamesOf, PlaceOf;
    NamesInserted(mid, element, n, e, i);
    PlaceIs(NamesOf(mid, element), Held(element, keyed), e.count, i);
  }

  /** A node that changes its count moves in the ranking as its rank moves in the multimap. */
  lemma RankingMoved<K, V>(capacity: nat, order: seq<Node>, used: nat, open: Node, element: map<Node, Element<K, V>>,
                           keyed: map<K, Node>, lfu: seq<Rank>, n: Node, e: Element<K, V>, lfu': seq<Rank>)
    requires Agree(capacity, order, used, open, element, keyed, lfu) && n in order[..used]
    requires n in element && e.key == element[n].key
    requires RankMoved(lfu, Rank(element[n].count, n), Rank(e.count, n), lfu')
    ensures (forall k :: k in keyed ==> keyed[k] in element) && Named(lfu, element) && Named(lfu', element[n := e])
    ensures NamesOf(lfu', element[n := e]) ==
            Reranked(NamesOf(lfu, element), Held(element, keyed), e.key, e.count)
  {
    hide Ranked, Dropped, Placed, NamesOf, RanksOf;
    InElems(order[..used], n);
    var mid := Dropped(lfu, Rank(element[n].count, n));
    RankingDropped(Elems(order[..used]), element, keyed, lfu, n, mid);
    var i :| InsertedAt(mid, lfu', Rank(e.count, n), i);
    RankingPlaced(Elems(order[..used]), element, keyed, mid, n, e, lfu', i);
  }

  /** A new node joins the ranking as its rank joins the multimap. */
  lemma RankingJoined<K, V>(capacity: nat, order: seq<Node>, used: nat, open: Node, element: map<Node, Element<K, V>>,
                            keyed: map<K, Node>, lfu: seq<Rank>, e: Element<K, V>, lfu': seq<Rank>, i: nat)
    requires Agree(capacity, order, used, open, element, keyed, lfu) && used < capacity
    requires InsertedAt(lfu, lfu', Rank(e.count, open), i)
    ensures (forall k :: k in keyed ==> keyed[k] in element) && Named(lfu, element) && Named(lfu', element[open := e])
    ensures NamesOf(lfu', element[open := e]) == Placed(NamesOf(lfu, element), Held(element, keyed), e.key, e.count)
  {
    hide Ranked, Placed, NamesOf, InsertedAt;
    RankNodes(Elems(order[..used]), element, lfu);
    InsertList(capacity, order, used, open);
    RankingPlaced(Elems(order[..used]), element, keyed, lfu, open, e, lfu', i);
  }

  /** A node that leaves the multimap leaves the ranking. */
  lemma RankingLeft<K, V>(capacity: nat, order: seq<Node>, used: nat, open: Node, element: map<Node, Element<K, V>>,
                          keyed: map<K, Node>, lfu: seq<Rank>, n: Node, lfu': seq<Rank>)
    requires Agree(capacity, order, used, open, element, keyed, lfu) && n in order[..used]
    requires n in element && lfu' == Dropped(lfu, Rank(element[n].count, n))
    ensures Named(lfu, element) && Named(lfu', element)
    ensures NamesOf(lfu', element) == Dropped(NamesOf(lfu, element), element[n].key)
  {
    hide Ranked, Dropped, NamesOf, Keyed;
    InElems(order[..used], n);
    RankingDropped(Elems(order[..used]), element, keyed, lfu, n, lfu');
  }

  lemma RankingSame<K, V>(capacity: nat, order: seq<Node>, used: nat, open: Node, element: map<Node, Element<K, V>>,
                          keyed: map<K, Node>, lfu: seq<Rank>, n: Node, e: Element<K, V>)
    requires Agree(capacity, order, used, open, element, keyed, lfu) && n in element && e.key == element[n].key
    ensures Named(lfu, element) && NamesOf(lfu, element[n := e]) == NamesOf(lfu, element)
  {
    hide Ranked, Keyed;
    RankNodes(Elems(order[..used]), element, lfu);
  }

  /** What the operations may rely on. */
  lemma Usable<K, V>(capacity: nat, order: seq<Node>, used: nat, open: Node,
                     element: map<Node, Element<K, V>>, keyed: map<K, Node>, lfu: seq<Rank>, n: Node)
    requires Agree(capacity, order, used, open, element, keyed, lfu) && n in order[..used]
    ensures used > 0 && IndexOf(order, open) == used && n in element && Sorted(lfu)
    ensures element[n].key in keyed && keyed[element[n].key] == n && Listed(capacity, order, used, open)
  {
    MarkerPosition(capacity, order, used, open);
    assert n in Elems(order[..used]);
  }

  lemma KeysDefined<K, V>(capacity: nat, order: seq<Node>, used: nat, open: Node,
                          element: map<Node, Element<K, V>>, keyed: map<K, Node>, lfu: seq<Rank>)
    requires Agree(capacity, order, used, open, element, keyed, lfu)
    ensures used <= |order| && (forall n :: n in order[..used] ==> n in element)
    ensures forall k :: k in keyed ==> keyed[k] in element
  {
    assert forall n :: n in order[..used] ==> n in Elems(order[..used]);
  }

  /** An access keeps the structures in agreement and promotes the key. */
  lemma AccessOutcome<K, V>(capacity: nat, order: seq<Node>, used: nat, open: Node,
                            element: map<Node, Element<K, V>>, keyed: map<K, Node>, lfu: seq<Rank>,
                            n: Node, e: Element<K, V>, lfu': seq<Rank>, order': seq<Node>)
    requires Agree(capacity, order, used, open, element, keyed, lfu) && n in order[..used]
    requires n in element && e.key == element[n].key && IndexOf(order, open) == used > 0
    requires Sorted(lfu') &&
             multiset(lfu') == multiset(lfu) - multiset{Rank(element[n].count, n)} + multiset{Rank(e.count, n)}
    requires order' == if n == Prev(order, open) then order else Splice(order, Prev(order, open), n)
    ensures Agree(capacity, order', used, open, element[n := e], keyed, lfu')
    ensures (forall k :: k in keyed ==> keyed[k] in element) &&
            Held(element[n := e], keyed) == Held(element, keyed)[e.key := e]
    ensures used <= |order| && used <= |order'| && (forall x :: x in order[..used] ==> x in element)
    ensures (forall x :: x in order'[..used] ==> x in element) &&
            KeysOf(order'[..used], element[n := e]) == Promoted(KeysOf(order[..used], element), e.key)
  {
    hide IndexOf, Splice, Sorted, Ranked, Keyed, Move, Distinct, Elems, Held, KeysOf, Promoted;
    InElems(order[..used], n);
    var i := AccessList(capacity, order, used, open, n, order');
    KeysDefined(capacity, order, used, open, element, keyed, lfu);
    AccessKeys(order, used, element, keyed, i, order');
    KeysUnchanged(order'[..used], element, n, e);
    NodeRewritten(Elems(order[..used]), element, keyed, lfu, n, e, lfu');
  }

  /** The list part of an access. */
  lemma AccessList(capacity: nat, order: seq<Node>, used: nat, open: Node, n: Node, order': seq<Node>) returns (i: nat)
    requires Listed(capacity, order, used, open) && n in order[..used] && IndexOf(order, open) == used > 0
    requires order' == if n == Prev(order, open) then order else Splice(order, Prev(order, open), n)
    ensures i < used && order[i] == n && order' == (if i == used - 1 then order else Move(order, i, used - 1))
    ensures Listed(capacity, order', used, open) && Elems(order'[..used]) == Elems(order[..used])
  {
    hide IndexOf, Splice;
    InElems(order[..used], n);
    i := UsedPosition(capacity, order, used, open, n);
    if n != Prev(order, open) {
      SpliceMoves(order, i, used - 1, Prev(order, open));
      UsedMoved(capacity, order, used, open, i, used - 1);
    }
  }

  lemma AccessKeys<K, V>(order: seq<Node>, used: nat, element: map<Node, Element<K, V>>, keyed: map<K, Node>, i: nat,
                         order': seq<Node>)
    requires Distinct(order) && i < used <= |order| && Keyed(Elems(order[..used]), element, keyed)
    requires order' == (if i == used - 1 then order else Move(order, i, used - 1))
    requires Elems(order'[..used]) == Elems(order[..used])
    ensures (forall x :: x in order[..used] ==> x in element) && (forall x :: x in order'[..used] ==> x in element) &&
            KeysOf(order'[..used], element) == Promoted(KeysOf(order[..used], element), element[order[i]].key)
  {
    hide IndexOf, Move, KeysOf, Keyed;
    KeyPosition(order, used, element, keyed, i);
    assert forall x :: x in order'[..used] ==> x in Elems(order'[..used]);
    if i < used - 1 {
      KeysMoved(order, used, element, i, used - 1);
    }
  }

  /** The list part of erasing: the node becomes the first free one. */
  lemma EraseList(capacity: nat, order: seq<Node>, used: nat, open: Node, n: Node, order': seq<Node>) returns (i: nat)
    requires Listed(capacity, order, used, open) && n in order[..used] && IndexOf(order, open) == used > 0
    requires order' == if n == Prev(order, open) then order else Splice(order, open, n)
    ensures i < used && order[i] == n && order' == Move(order, i, used)
    ensures IndexOf(order', open) == used && Prev(order', open) == n
    ensures Listed(capacity, order', used - 1, n) && Listed(capacity, order', used, open)
    ensures Elems(order'[..used]) == Elems(order[..used]) && Elems(order'[..used - 1]) == Elems(order[..used]) - {n}
  {
    hide IndexOf, Splice;
    assert n in Elems(order[..used]);
    i := UsedPosition(capacity, order, used, open, n);
    if n == Prev(order, open) {
      assert Move(order, i, used) == order;
    } else {
      SpliceMoves(order, i, used, open);
    }
    UsedMoved(capacity, order, used, open, i, used);
    MarkerPosition(capacity, order', used, open);
    assert order'[..used] == order'[..used - 1] + [order'[used - 1]];
  }

  /** The keys after erasing. */
  lemma EraseKeys<K, V>(order: seq<Node>, used: nat, element: map<Node, Element<K, V>>, keyed: map<K, Node>, i: nat)
    requires Distinct(order) && i < used <= |order| && Keyed(Elems(order[..used]), element, keyed)
    requires Elems(Move(order, i, used)[..used]) == Elems(order[..used])
    ensures (forall x :: x in order[..used] ==> x in element) &&
            (forall x :: x in Move(order, i, used)[..used - 1] ==> x in element) &&
            KeysOf(Move(order, i, used)[..used - 1], element) ==
            Dropped(KeysOf(order[..used], element), element[order[i]].key)
  {
    hide IndexOf, Move, KeysOf, Keyed;
    KeyPosition(order, used, element, keyed, i);
    var order' := Move(order, i, used);
    assert forall x :: x in order'[..used] ==> x in Elems(order'[..used]);
    KeysMoved(order, used, element, i, used);
    assert order'[..used][..used - 1] == order'[..used - 1];
    KeysPrefix(order'[..used], element, used - 1);
    MoveToEnd(KeysOf(order[..used], element), i);
  }

  lemma KeysPrefix<K, V>(nodes: seq<Node>, element: map<Node, Element<K, V>>, n: nat)
    requires n <= |nodes| && forall x :: x in nodes ==> x in element
    ensures KeysOf(nodes[..n], element) == KeysOf(nodes, element)[..n]
  {
  }

  lemma MoveToEnd<T>(q: seq<T>, i: nat)
    requires i < |q|
    ensures Move(q, i, |q|)[..|q| - 1] == q[..i] + q[i + 1..]
  {
  }

  /** Erasing keeps the structures in agreement. */
  lemma EraseOutcome<K, V>(capacity: nat, order: seq<Node>, used: nat, open: Node,
                           element: map<Node, Element<K, V>>, keyed: map<K, Node>, lfu: seq<Rank>,
                           n: Node, lfu': seq<Rank>, order': seq<Node>)
    requires Agree(capacity, order, used, open, element, keyed, lfu) && n in order[..used]
    requires n in element && IndexOf(order, open) == used > 0
    requires Sorted(lfu') && multiset(lfu') == multiset(lfu) - multiset{Rank(element[n].count, n)}
    requires order' == if n == Prev(order, open) then order else Splice(order, open, n)
    ensures Agree(capacity, order', used - 1, n, element, keyed - {element[n].key}, lfu')
    ensures (forall k :: k in keyed ==> keyed[k] in element) &&
            Held(element, keyed - {element[n].key}) == Held(element, keyed) - {element[n].key}
    ensures used <= |order| && used <= |order'| && (forall x :: x in order[..used] ==> x in element)
    ensures (forall x :: x in order'[..used - 1] ==> x in element) &&
            KeysOf(order'[..used - 1], element) == Dropped(KeysOf(order[..used], element), element[n].key)
  {
    hide IndexOf, Splice, Sorted, Ranked, Keyed, Move, Distinct, Elems, Held, KeysOf, Dropped;
    assert n in Elems(order[..used]) by { InElems(order[..used], n); }
    var i := EraseList(capacity, order, used, open, n, order');
    KeysDefined(capacity, order, used, open, element, keyed, lfu);
    EraseKeys(order, used, element, keyed, i);
    NodeForgotten(Elems(order[..used]), element, keyed, lfu, n, lfu');
  }

  lemma InElems<T>(s: seq<T>, x: T)
    requires x in s
    ensures x in Elems(s)
  {
  }

  lemma HeldAt<K, V>(capacity: nat, order: seq<Node>, used: nat, open: Node, element: map<Node, Element<K, V>>,
                     keyed: map<K, Node>, lfu: seq<Rank>, n: Node)
    requires Agree(capacity, order, used, open, element, keyed, lfu) && n in order[..used]
    ensures (forall k :: k in keyed ==> keyed[k] in element) && n in element
    ensures element[n].key in Held(element, keyed) && Held(element, keyed)[element[n].key] == element[n]
  {
    hide Ranked;
    InElems(order[..used], n);
  }

  lemma SortedNow<K, V>(capacity: nat, order: seq<Node>, used: nat, open: Node,
                        element: map<Node, Element<K, V>>, keyed: map<K, Node>, lfu: seq<Rank>)
    requires Agree(capacity, order, used, open, element, keyed, lfu)
    ensures Sorted(lfu)
  {
  }

  lemma NodeForgotten<K, V>(nodes: set<Node>, element: map<Node, Element<K, V>>, keyed: map<K, Node>,
                            lfu: seq<Rank>, n: Node, lfu': seq<Rank>)
    requires Keyed(nodes, element, keyed) && Ranked(nodes, element, lfu) && n in nodes
    requires Sorted(lfu') && multiset(lfu') == multiset(lfu) - multiset{Rank(element[n].count, n)}
    ensures var key := element[n].key;
            Keyed(nodes - {n}, element, keyed - {key}) && Ranked(nodes - {n}, element, lfu') &&
            Held(element, keyed - {key}) == Held(element, keyed) - {key} && |keyed - {key}| == |keyed| - 1
  {
    RankDropped(nodes, element, n);
    var key := element[n].key;
    assert keyed == (keyed - {key})[key := n];
  }

  /** The list part of inserting: the marker moves on. */
  lemma InsertList(capacity: nat, order: seq<Node>, used: nat, open: Node)
    requires Listed(capacity, order, used, open) && used < capacity
    ensures IndexOf(order, open) == used < |order| && open !in Elems(order[..used])
    ensures Listed(capacity, order, used + 1, Next(order, open, capacity))
    ensures Elems(order[..used + 1]) == Elems(order[..used]) + {open}
    ensures order[..used + 1] == order[..used] + [open]
  {
    hide IndexOf;
    MarkerPosition(capacity, order, used, open);
    assert order[..used + 1] == order[..used] + [open];
  }

  lemma InsertKeys<K, V>(nodes: seq<Node>, open: Node, element: map<Node, Element<K, V>>, e: Element<K, V>)
    requires open !in Elems(nodes) && forall x :: x in nodes ==> x in element
    ensures var nodes', element' := nodes + [open], element[open := e];
            (forall x :: x in nodes' ==> x in element') &&
            KeysOf(nodes', element') == KeysOf(nodes, element) + [e.key]
  {
    var a, b := KeysOf(nodes + [open], element[open := e]), KeysOf(nodes, element) + [e.key];
    assert forall i :: 0 <= i < |a| ==> a[i] == b[i];
  }

  /** Filling the first free node with a new key. */
  lemma InsertOutcome<K, V>(capacity: nat, order: seq<Node>, used: nat, open: Node,
                            element: map<Node, Element<K, V>>, keyed: map<K, Node>, lfu: seq<Rank>,
                            e: Element<K, V>, lfu': seq<Rank>)
    requires Agree(capacity, order, used, open, element, keyed, lfu) && used < capacity && e.key !in keyed
    requires Sorted(lfu') && multiset(lfu') == multiset(lfu) + multiset{Rank(e.count, open)}
    ensures IndexOf(order, open) == used < |order|
    ensures Agree(capacity, order, used + 1, Next(order, open, capacity), element[open := e], keyed[e.key := open],
                  lfu')
    ensures (forall k :: k in keyed ==> keyed[k] in element) &&
            Held(element[open := e], keyed[e.key := open]) == Held(element, keyed)[e.key := e]
    ensures var nodes, element' := order[..used + 1], element[open := e];
            (forall x :: x in order[..used] ==> x in element) && (forall x :: x in nodes ==> x in element') &&
            KeysOf(nodes, element') == KeysOf(order[..used], element) + [e.key]
  {
    hide IndexOf, Sorted, Ranked, Keyed, Listed, Elems, KeysOf, Held, Next;
    InsertList(capacity, order, used, open);
    KeysDefined(capacity, order, used, open, element, keyed, lfu);
    InsertKeys(order[..used], open, element, e);
    NodeFilled(Elems(order[..used]), element, keyed, lfu, open, e, lfu');
  }

  lemma NodeFilled<K, V>(nodes: set<Node>, element: map<Node, Element<K, V>>, keyed: map<K, Node>,
                         lfu: seq<Rank>, n: Node, e: Element<K, V>, lfu': seq<Rank>)
    requires Keyed(nodes, element, keyed) && Ranked(nodes, element, lfu) && n !in nodes && e.key !in keyed
    requires Sorted(lfu') && multiset(lfu') == multiset(lfu) + multiset{Rank(e.count, n)}
    ensures Keyed(nodes + {n}, element[n := e], keyed[e.key := n]) && Ranked(nodes + {n}, element[n := e], lfu')
    ensures Held(element[n := e], keyed[e.key := n]) == Held(element, keyed)[e.key := e]
    ensures |keyed[e.key := n]| == |keyed| + 1
  {
    RankAdded(nodes, element, n, e);
    var a, b := Held(element[n := e], keyed[e.key := n]), Held(element, keyed)[e.key := e];
    assert a.Keys == b.Keys;
    assert forall k :: k in a ==> a[k] == b[k];
  }

  /** The node after `x`; the end is numbered `end`. */
  function Next(s: seq<Node>, x: Node, end: Node): Node {
    if IndexOf(s, x) + 1 < |s| then s[IndexOf(s, x) + 1] else end
  }

  /** Replacing a value changes neither ranks nor keys. */
  lemma ValueRewritten<K, V>(capacity: nat, order: seq<Node>, used: nat, open: Node, element: map<Node, Element<K, V>>,
                             keyed: map<K, Node>, lfu: seq<Rank>, n: Node, e: Element<K, V>)
    requires Agree(capacity, order, used, open, element, keyed, lfu) && n in order[..used]
    requires n in element && e.key == element[n].key && e.count == element[n].count
    ensures Agree(capacity, order, used, open, element[n := e], keyed, lfu)
    ensures (forall k :: k in keyed ==> keyed[k] in element) &&
            Held(element[n := e], keyed) == Held(element, keyed)[e.key := e]
    ensures used <= |order| && (forall x :: x in order[..used] ==> x in element) &&
            KeysOf(order[..used], element[n := e]) == KeysOf(order[..used], element)
  {
    hide Sorted, Ranks, Keyed, KeysOf, Held, Elems;
    InElems(order[..used], n);
    KeysDefined(capacity, order, used, open, element, keyed, lfu);
    KeysUnchanged(order[..used], element, n, e);
    RankChanges(Elems(order[..used]), element, n, e);
    assert Rank(e.count, n) in multiset(Ranks(Elems(order[..used]), element));
    assert multiset(lfu) - multiset{Rank(e.count, n)} + multiset{Rank(e.count, n)} == multiset(lfu);
    NodeRewritten(Elems(order[..used]), element, keyed, lfu, n, e, lfu);
  }

  // ---------------------------------------------------------------- aging

  /** The list after the first `p` used nodes have aged. */
  ghost function AgedOrder(order: seq<Node>, used: nat, p: nat): seq<Node>
    requires p <= used <= |order|
  {
    AgedQueue(order[..used], p) + order[used..]
  }

  /** The node that aged last, before which the next one goes; at first the marker. */
  ghost function AgedLast(order: seq<Node>, open: Node, p: nat): Node
    requires p <= |order|
  {
    if p == 0 then open else order[p - 1]
  }

  lemma AgedOrderAt(order: seq<Node>, used: nat, p: nat)
    requires p <= used <= |order|
    ensures |AgedOrder(order, used, p)| == |order|
    ensures forall i :: 0 <= i < used - p ==> AgedOrder(order, used, p)[i] == order[p + i]
    ensures forall i :: used - p <= i < used ==> AgedOrder(order, used, p)[i] == order[used - 1 - i]
    ensures forall i :: used <= i < |order| ==> AgedOrder(order, used, p)[i] == order[i]
  {
    var r := Reversed(order[..used][..p]);
    assert forall i :: 0 <= i < p ==> r[i] == order[p - 1 - i];
    assert forall i :: 0 <= i < used - p ==> order[..used][p..][i] == order[p + i];
  }

  /** One aging step moves the head to the right place. */
  lemma AgeStep(capacity: nat, order: seq<Node>, used: nat, open: Node, p: nat, now_: seq<Node>)
    requires Listed(capacity, order, used, open) && p < used && now_ == AgedOrder(order, used, p)
    requires Listed(capacity, now_, used, open)
    ensures now_[0] == order[p] && order[p] != AgedLast(order, open, p)
    ensures Splice(now_, AgedLast(order, open, p), order[p]) == AgedOrder(order, used, p + 1)
    ensures Listed(capacity, AgedOrder(order, used, p + 1), used, open)
    ensures Elems(AgedOrder(order, used, p + 1)[..used]) == Elems(now_[..used])
  {
    hide Splice, AgedOrder, Elems, Reversed, IndexOf;
    AgedOrderAt(order, used, p);
    AgedOrderAt(order, used, p + 1);
    SpliceMoves(now_, 0, used - p, AgedLast(order, open, p));
    UsedMoved(capacity, now_, used, open, 0, used - p);
    var r, next := Move(now_, 0, used - p), AgedOrder(order, used, p + 1);
    assert forall i :: 0 <= i < |order| ==> r[i] == next[i];
    assert r == next;
  }

  /** After `p` steps: the list, and each element aged or untouched. */
  ghost predicate Aging<K, V>(capacity: nat, order0: seq<Node>, used: nat, open: Node,
                              element0: map<Node, Element<K, V>>, order: seq<Node>,
                              element: map<Node, Element<K, V>>, p: nat, ratio: real, now: int, tick: nat)
    requires 0.0 <= ratio <= 1.0
  {
    Listed(capacity, order0, used, open) && p <= used && order == AgedOrder(order0, used, p) && capacity > 0 &&
    (forall i :: 0 <= i < used ==> order0[i] in element0) &&
    (forall i :: 0 <= i < p ==> Stale(element0[order0[i]], tick, now)) &&
    element.Keys == element0.Keys &&
    (forall n :: n in element ==>
       element[n] == if n in order0[..p] then Aged(element0[n], ratio, now) else element0[n])
  }

  lemma AgingStarts<K, V>(capacity: nat, order: seq<Node>, used: nat, open: Node, element: map<Node, Element<K, V>>,
                          keyed: map<K, Node>, lfu: seq<Rank>, ratio: real, now: int, tick: nat)
    requires 0.0 <= ratio <= 1.0 && capacity > 0 && Agree(capacity, order, used, open, element, keyed, lfu)
    ensures Aging(capacity, order, used, open, element, order, element, 0, ratio, now, tick)
    ensures |order| > 0 && AgedLast(order, open, 0) == open && (order[0] != open ==> order[0] in element)
  {
    hide Keyed, Ranked;
    KeysDefined(capacity, order, used, open, element, keyed, lfu);
    AgedOrderAt(order, used, 0);
    assert AgedOrder(order, used, 0) == order;
    assert forall i :: 0 <= i < used ==> order[i] in order[..used];
  }

  /** A stale head is a used node that has not aged yet. */
  lemma AgingHead<K, V>(capacity: nat, order0: seq<Node>, used: nat, open: Node, element0: map<Node, Element<K, V>>,
                        order: seq<Node>, element: map<Node, Element<K, V>>, p: nat, ratio: real, now: int, tick: nat)
    requires 0.0 <= ratio <= 1.0
    requires Aging(capacity, order0, used, open, element0, order, element, p, ratio, now, tick)
    requires |order| > 0 && order[0] != open && order[0] in element && Stale(element[order[0]], tick, now)
    ensures p < used && order[0] == order0[p] && element[order[0]] == element0[order0[p]]
  {
    hide AgedOrder;
    AgedOrderAt(order0, used, p);
    assert p < used ==> order0[p] !in order0[..p];
  }

  lemma AgingStep<K, V>(capacity: nat, order0: seq<Node>, used: nat, open: Node, element0: map<Node, Element<K, V>>,
                        order: seq<Node>, element: map<Node, Element<K, V>>, p: nat, ratio: real, now: int, tick: nat,
                        keyed: map<K, Node>, lfu: seq<Rank>, order': seq<Node>, lfu': seq<Rank>)
    requires 0.0 <= ratio <= 1.0
    requires Aging(capacity, order0, used, open, element0, order, element, p, ratio, now, tick)
    requires Agree(capacity, order, used, open, element, keyed, lfu)
    requires |order| > 0 && order[0] != open && order[0] in element && Stale(element[order[0]], tick, now)
    requires var n := order[0];
             order' == (if n == AgedLast(order0, open, p) then order
                        else Splice(order, AgedLast(order0, open, p), n)) &&
             Sorted(lfu') &&
             multiset(lfu') == multiset(lfu) - multiset{Rank(element[n].count, n)} +
                               multiset{Rank(Decayed(element[n].count, ratio), n)}
    ensures p < used && order[0] == AgedLast(order0, open, p + 1) && |order'| > 0
    ensures var element' := element[order[0] := Aged(element[order[0]], ratio, now)];
            Aging(capacity, order0, used, open, element0, order', element', p + 1, ratio, now, tick) &&
            Agree(capacity, order', used, open, element', keyed, lfu') && (order'[0] != open ==> order'[0] in element')
  {
    hide AgedOrder, Splice, Keyed, Ranked, Sorted, Elems, Decayed;
    AgingHead(capacity, order0, used, open, element0, order, element, p, ratio, now, tick);
    AgeStep(capacity, order0, used, open, p, order);
    var n, e := order[0], Aged(element[order[0]], ratio, now);
    InElems(order[..used], n);
    NodeRewritten(Elems(order[..used]), element, keyed, lfu, n, e, lfu');
    KeysDefined(capacity, order', used, open, element[n := e], keyed, lfu');
    assert order0[..p + 1] == order0[..p] + [n];
  }

  lemma AgingParts<K, V>(capacity: nat, order0: seq<Node>, used: nat, open: Node, element0: map<Node, Element<K, V>>,
                         order: seq<Node>, element: map<Node, Element<K, V>>, p: nat, ratio: real, now: int, tick: nat)
    requires 0.0 <= ratio <= 1.0
    requires Aging(capacity, order0, used, open, element0, order, element, p, ratio, now, tick)
    ensures used <= |order0| == |order| && p <= used && element.Keys == element0.Keys
    ensures forall i :: 0 <= i < used ==> order0[i] in element0
  {
    AgedOrderAt(order0, used, p);
  }

  lemma AgedPrefix<K, V>(capacity: nat, order0: seq<Node>, used: nat, open: Node, element0: map<Node, Element<K, V>>,
                         order: seq<Node>, element: map<Node, Element<K, V>>, p: nat, ratio: real, now: int, tick: nat,
                         keyed: map<K, Node>, lfu: seq<Rank>)
    requires 0.0 <= ratio <= 1.0
    requires Aging(capacity, order0, used, open, element0, order, element, p, ratio, now, tick)
    requires Agree(capacity, order0, used, open, element0, keyed, lfu)
    requires (forall x :: x in order0[..used] ==> x in element0) && (forall k :: k in keyed ==> keyed[k] in element0)
    requires |order| > 0 && (order[0] == open || (order[0] in element && !Stale(element[order[0]], tick, now)))
    ensures StalePrefix(KeysOf(order0[..used], element0), Held(element0, keyed), tick, now, p)
  {
    hide AgedOrder, Ranked, KeysOf;
    AgedOrderAt(order0, used, p);
    var q, c := KeysOf(order0[..used], element0), Held(element0, keyed);
    forall i | 0 <= i < used
      ensures q[i] in c && c[q[i]] == element0[order0[i]]
    {
      InElems(order0[..used], order0[..used][i]);
      assert q[i] == element0[order0[i]].key;
    }
    if p < used {
      assert order[0] == order0[p] && order0[p] !in order0[..p];
      assert order[0] != open;
    }
  }

  lemma AgedKeys<K, V>(capacity: nat, order0: seq<Node>, used: nat, open: Node, element0: map<Node, Element<K, V>>,
                       order: seq<Node>, element: map<Node, Element<K, V>>, p: nat, ratio: real, now: int, tick: nat)
    requires 0.0 <= ratio <= 1.0
    requires Aging(capacity, order0, used, open, element0, order, element, p, ratio, now, tick)
    requires used <= |order| && used <= |order0|
    requires (forall x :: x in order0[..used] ==> x in element0) && (forall x :: x in order[..used] ==> x in element)
    ensures KeysOf(order[..used], element) == AgedQueue(KeysOf(order0[..used], element0), p)
  {
    hide AgedOrder, KeysOf;
    AgedOrderAt(order0, used, p);
    var q := KeysOf(order0[..used], element0);
    var a, b := KeysOf(order[..used], element), AgedQueue(q, p);
    assert forall i :: 0 <= i < used ==> q[i] == element0[order0[i]].key;
    assert forall i :: 0 <= i < used ==> a[i] == element[order[i]].key == element0[order[i]].key;
    assert forall i :: 0 <= i < used - p ==> b[i] == q[p + i];
    assert forall i :: used - p <= i < used ==> b[i] == q[used - 1 - i];
  }

  lemma AgedHeld<K, V>(capacity: nat, order0: seq<Node>, used: nat, open: Node, element0: map<Node, Element<K, V>>,
                       order: seq<Node>, element: map<Node, Element<K, V>>, p: nat, ratio: real, now: int, tick: nat,
                       keyed: map<K, Node>, lfu: seq<Rank>)
    requires 0.0 <= ratio <= 1.0
    requires Aging(capacity, order0, used, open, element0, order, element, p, ratio, now, tick)
    requires Agree(capacity, order0, used, open, element0, keyed, lfu)
    requires (forall x :: x in order0[..used] ==> x in element0)
    requires forall k :: k in keyed ==> keyed[k] in element && keyed[k] in element0
    ensures var q, c := KeysOf(order0[..used], element0), Held(element0, keyed);
            Held(element, keyed) == AgedContents(c, Elems(q[..p]), ratio, now)
  {
    hide AgedOrder, Ranked, KeysOf, Decayed, Elems, Listed, Keyed;
    AgedMembers(capacity, order0, used, open, element0, keyed, lfu, p);
  }

  lemma AgedMembers<K, V>(capacity: nat, order: seq<Node>, used: nat, open: Node, element: map<Node, Element<K, V>>,
                          keyed: map<K, Node>, lfu: seq<Rank>, p: nat)
    requires Agree(capacity, order, used, open, element, keyed, lfu) && p <= used
    requires forall x :: x in order[..used] ==> x in element
    ensures var q := KeysOf(order[..used], element);
            forall k :: k in keyed ==> (k in Elems(q[..p]) <==> keyed[k] in order[..p])
  {
    hide Ranked, KeysOf;
    var q := KeysOf(order[..used], element);
    forall k | k in keyed
      ensures k in Elems(q[..p]) <==> keyed[k] in order[..p]
    {
      if k in Elems(q[..p]) {
        var i :| 0 <= i < p && q[i] == k;
        InElems(order[..used], order[..used][i]);
        assert keyed[k] == order[i] && order[i] in order[..p];
      }
      if keyed[k] in order[..p] {
        var i :| 0 <= i < p && order[i] == keyed[k];
        assert q[..p][i] == k;
      }
    }
  }

  /** What the loop has done when it stops. */
  lemma AgingEnds<K, V>(capacity: nat, order0: seq<Node>, used: nat, open: Node, element0: map<Node, Element<K, V>>,
                        order: seq<Node>, element: map<Node, Element<K, V>>, p: nat, ratio: real, now: int, tick: nat,
                        keyed: map<K, Node>, lfu0: seq<Rank>, lfu: seq<Rank>)
    requires 0.0 <= ratio <= 1.0
    requires Aging(capacity, order0, used, open, element0, order, element, p, ratio, now, tick)
    requires Agree(capacity, order0, used, open, element0, keyed, lfu0) &&
             Agree(capacity, order, used, open, element, keyed, lfu)
    requires |order| > 0 && (order[0] == open || (order[0] in element && !Stale(element[order[0]], tick, now)))
    ensures used <= |order0| && used <= |order|
    ensures (forall x :: x in order0[..used] ==> x in element0) && (forall x :: x in order[..used] ==> x in element)
    ensures forall k :: k in keyed ==> keyed[k] in element && keyed[k] in element0
    ensures var q, c := KeysOf(order0[..used], element0), Held(element0, keyed);
            StalePrefix(q, c, tick, now, p) && KeysOf(order[..used], element) == AgedQueue(q, p) &&
            Held(element, keyed) == AgedContents(c, Elems(q[..p]), ratio, now)
  {
    hide *;
    AgingParts(capacity, order0, used, open, element0, order, element, p, ratio, now, tick);
    KeysDefined(capacity, order0, used, open, element0, keyed, lfu0);
    KeysDefined(capacity, order, used, open, element, keyed, lfu);
    AgedPrefix(capacity, order0, used, open, element0, order, element, p, ratio, now, tick, keyed, lfu0);
    AgedKeys(capacity, order0, used, open, element0, order, element, p, ratio, now, tick);
    AgedHeld(capacity, order0, used, open, element0, order, element, p, ratio, now, tick, keyed, lfu0);
  }

  lemma AgedNone<K, V>(r: seq<K>, c: map<K, Element<K, V>>, q: seq<K>, ratio: real, now: int)
    requires 0.0 <= ratio <= 1.0
    ensures AgedRanking(r, c, q, 0, ratio, now) == r
  {
  }

  /** One aging step moves the key in the ranking. */
  lemma AgingRanking<K, V>(capacity: nat, order0: seq<Node>, used: nat, open: Node, element0: map<Node, Element<K, V>>,
                           order: seq<Node>, element: map<Node, Element<K, V>>, p: nat, ratio: real, now: int,
                           tick: nat, keyed: map<K, Node>, lfu0: seq<Rank>, lfu: seq<Rank>, lfu': seq<Rank>)
    requires 0.0 <= ratio <= 1.0
    requires Aging(capacity, order0, used, open, element0, order, element, p, ratio, now, tick)
    requires Agree(capacity, order0, used, open, element0, keyed, lfu0) &&
             Agree(capacity, order, used, open, element, keyed, lfu)
    requires |order| > 0 && order[0] != open && order[0] in element && Stale(element[order[0]], tick, now)
    requires var n := order[0];
             RankMoved(lfu, Rank(element[n].count, n), Rank(Decayed(element[n].count, ratio), n), lfu')
    ensures used <= |order0| && (forall n :: n in order0[..used] ==> n in element0) && Named(lfu, element)
    ensures forall k :: k in keyed ==> keyed[k] in element0
    ensures var q, c := KeysOf(order0[..used], element0), Held(element0, keyed);
            var element' := element[order[0] := Aged(element[order[0]], ratio, now)];
            Named(lfu', element') &&
            forall r :: NamesOf(lfu, element) == AgedRanking(r, c, q, p, ratio, now) ==>
              NamesOf(lfu', element') == AgedRanking(r, c, q, p + 1, ratio, now)
  {
    hide Aging, Agree, AgedOrder, Elems, Decayed, NamesOf, Reranked, RankMoved, Held, KeysOf, AgedContents;
    AgingHead(capacity, order0, used, open, element0, order, element, p, ratio, now, tick);
    KeysDefined(capacity, order0, used, open, element0, keyed, lfu0);
    KeysDefined(capacity, order, used, open, element, keyed, lfu);
    var n := order[0];
    var e, q := Aged(element[n], ratio, now), KeysOf(order0[..used], element0);
    AgedHeld(capacity, order0, used, open, element0, order, element, p, ratio, now, tick, keyed, lfu0);
    AgingMembers(capacity, order0, used, open, element0, order, element, p, ratio, now, tick, keyed, lfu0);
    RankingMoved(capacity, order, used, open, element, keyed, lfu, n, e, lfu');
  }

  lemma AgingMembers<K, V>(capacity: nat, order0: seq<Node>, used: nat, open: Node, element0: map<Node, Element<K, V>>,
                           order: seq<Node>, element: map<Node, Element<K, V>>, p: nat, ratio: real, now: int,
                           tick: nat, keyed: map<K, Node>, lfu0: seq<Rank>)
    requires 0.0 <= ratio <= 1.0 && p < used
    requires Aging(capacity, order0, used, open, element0, order, element, p, ratio, now, tick)
    requires Agree(capacity, order0, used, open, element0, keyed, lfu0)
    requires used <= |order0| && (forall n :: n in order0[..used] ==> n in element0)
    requires forall k :: k in keyed ==> keyed[k] in element0
    requires used <= |order| && order[0] == order0[p]
    ensures order[0] in order[..used]
    ensures var q, c := KeysOf(order0[..used], element0), Held(element0, keyed);
            q[p] in c && c[q[p]] == element0[order0[p]] && element0[order0[p]].key == q[p]
  {
    hide Ranked, AgedOrder;
    InElems(order0[..used], order0[..used][p]);
    assert order[..used][0] == order[0];
  }

  /** Aging is complete: a second round at the same time finds nothing stale at the head. */
  lemma AgingIsDone<K, V>(q: seq<K>, c: map<K, Element<K, V>>, tick: nat, ratio: real, now: int, p: nat)
    requires 0.0 <= ratio <= 1.0 && Distinct(q) && StalePrefix(q, c, tick, now, p)
    ensures StalePrefix(AgedQueue(q, p), AgedContents(c, Elems(q[..p]), ratio, now), tick, now, 0)
  {
    hide Decayed;
    var q', c' := AgedQueue(q, p), AgedContents(c, Elems(q[..p]), ratio, now);
    forall i | 0 <= i < |q'|
      ensures q'[i] in q && (i < |q| - p ==> q'[i] == q[p + i]) && (i >= |q| - p ==> q'[i] in q[..p])
    {
      if i >= |q| - p {
        assert q'[i] == q[..p][|q| - 1 - i];
      }
    }
    if p < |q| {
      assert q[p] !in q[..p];
    }
  }

  /** Every stale key has aged exactly when the stale keys come first in the queue. */
  lemma AgesAllStaleIff<K, V>(q: seq<K>, c: map<K, Element<K, V>>, tick: nat, now: int, p: nat)
    requires Distinct(q) && StalePrefix(q, c, tick, now, p)
    ensures (forall j :: 0 <= j < |q| && Stale(c[q[j]], tick, now) ==> j < p) <==>
            (forall i, j :: 0 <= i < j < |q| && Stale(c[q[j]], tick, now) ==> Stale(c[q[i]], tick, now))
  {
  }

  /**
   * They need not: an access puts a key before the last one.  Whenever the last key goes stale
   * while the accessed one is fresh, aging stops before it and it keeps its count.
   */
  lemma AccessHidesStale<K, V>(q: seq<K>, c: map<K, Element<K, V>>, k: K, tick: nat, now: int, later: int, p: nat)
    requires Distinct(q) && |q| > 1 && k in q[..|q| - 1] && k in c
    requires var e := c[k].(count := c[k].count + 1, age := now);
             StalePrefix(Promoted(q, k), c[k := e], tick, later, p) && !Stale(e, tick, later)
    requires q[|q| - 1] in c && Stale(c[q[|q| - 1]], tick, later)
    ensures Promoted(q, k)[|q| - 1] == q[|q| - 1] && p < |q| - 1
  {
    var i :| 0 <= i < |q| - 1 && q[i] == k;
    IndexIs(q, k, i);
    var last := |q| - 1;
    assert Promoted(q, k) == Move(q, i, last);
    assert Promoted(q, k)[last - 1] == k && Promoted(q, k)[last] == q[last];
  }

  lemma DropPlaced<K, V>(r: seq<K>, c: map<K, Element<K, V>>, k: K, n: nat)
    ensures k !in r ==> Dropped(Placed(r, c, k, n), k) == r
  {
    hide PlaceOf, IndexOf;
    var i := PlaceOf(r, c, n);
    if k !in r {
      IndexIs(Placed(r, c, k, n), k, i);
    }
  }

  lemma DropMoved<K>(q: seq<K>, k: K)
    requires Distinct(q)
    ensures Dropped(Promoted(q, k), k) == Dropped(q, k)
  {
    hide IndexOf;
    var i, n := IndexOf(q, k), |q| - 1;
    if i < n {
      var m := Move(q, i, n);
      assert forall j :: 0 <= j < n - 1 ==> m[j] == q[if j < i then j else j + 1];
      IndexIs(m, k, n - 1);
      assert m[..n - 1] + m[n..] == q[..i] + q[i + 1..];
    }
  }

  lemma DroppedOnce<K>(q: seq<K>, k: K)
    requires Distinct(q)
    ensures k !in Dropped(q, k)
  {
    hide IndexOf;
    var i := IndexOf(q, k);
    if i < |q| {
      var r := Dropped(q, k);
      assert forall j :: 0 <= j < |r| ==> r[j] == q[if j < i then j else j + 1];
    }
  }

  /**
   * What the cache remembers, over keys: the order of aging, the order of eviction, and every
   * resident key's element.
   */
  datatype Residents<K, V> = Residents(queue: seq<K>, ranking: seq<K>, contents: map<K, Element<K, V>>)

  /** One more use of a resident key. */
  ghost function Accessed<K, V>(b: Residents<K, V>, k: K, now: int): Residents<K, V>
    requires k in b.contents
  {
    var e := b.contents[k];
    Residents(Promoted(b.queue, k), Reranked(b.ranking, b.contents, k, e.count + 1),
              b.contents[k := e.(count := e.count + 1, age := now)])
  }

  /** An access counts one use of its key and leaves the elements and the relative order of the others alone. */
  lemma AccessedMeans<K, V>(b: Residents<K, V>, k: K, now: int)
    requires k in b.contents && b.contents[k].key == k
    ensures var a := Accessed(b, k, now);
            a.contents.Keys == b.contents.Keys && a.contents[k].count == b.contents[k].count + 1 &&
            a.contents[k].age == now && a.contents[k].value == b.contents[k].value &&
            (forall x :: x in b.contents && x != k ==> a.contents[x] == b.contents[x])
    ensures Distinct(b.ranking) ==> Dropped(Accessed(b, k, now).ranking, k) == Dropped(b.ranking, k)
    ensures Distinct(b.queue) ==> Dropped(Accessed(b, k, now).queue, k) == Dropped(b.queue, k)
  {
    hide PlaceOf, IndexOf;
    if Distinct(b.ranking) {
      DroppedOnce(b.ranking, k);
      DropPlaced(Dropped(b.ranking, k), b.contents, k, b.contents[k].count + 1);
    }
    if Distinct(b.queue) {
      DropMoved(b.queue, k);
    }
  }

  /** One more use of a resident key, with a new value. */
  ghost function Updated<K, V>(b: Residents<K, V>, k: K, value: V, now: int): Residents<K, V>
    requires k in b.contents
  {
    Accessed(b.(contents := b.contents[k := b.contents[k].(value := value)]), k, now)
  }

  /** A new key comes in. */
  ghost function Joined<K, V>(b: Residents<K, V>, k: K, value: V, now: int): Residents<K, V> {
    Residents(b.queue + [k], Placed(b.ranking, b.contents, k, 1), b.contents[k := Element(k, 1, now, value)])
  }

  ghost function Left<K, V>(b: Residents<K, V>, k: K): Residents<K, V> {
    Residents(Dropped(b.queue, k), Dropped(b.ranking, k), b.contents - {k})
  }

  /** The first `p` keys of the queue have aged. */
  ghost function AgedBy<K, V>(b: Residents<K, V>, p: nat, ratio: real, now: int): Residents<K, V>
    requires 0.0 <= ratio <= 1.0 && p <= |b.queue|
  {
    Residents(AgedQueue(b.queue, p), AgedRanking(b.ranking, b.contents, b.queue, p, ratio, now),
              AgedContents(b.contents, Elems(b.queue[..p]), ratio, now))
  }

  /**
   * The whole effect of an eviction: aging first, then a least used key goes, the one among
   * them that reached its count first.
   */
  ghost predicate Evicts<K, V>(b: Residents<K, V>, tick: nat, ratio: real, now: int, aged: nat, victim: K,
                               a: Residents<K, V>)
    requires 0.0 <= ratio <= 1.0
  {
    StalePrefix(b.queue, b.contents, tick, now, aged) &&
    var m := AgedBy(b, aged, ratio, now);
    m.ranking != [] && victim == m.ranking[0] && victim in m.contents &&
    (forall k :: k in m.contents ==> m.contents[victim].count <= m.contents[k].count) && a == Left(m, victim)
  }

  /** What a key that comes in does: one more use, or a fresh entry, after an eviction if one was needed. */
  ghost predicate Admitted<K, V>(b: Residents<K, V>, tick: nat, ratio: real, now: int, key: K, value: V,
                                 victim: Option<K>, a: Residents<K, V>)
    requires 0.0 <= ratio <= 1.0
  {
    if key in b.contents then victim.None? && a == Updated(b, key, value, now)
    else if victim.None? then a == Joined(b, key, value, now)
    else
      exists aged: nat :: aged <= |b.queue| &&
        var m := Left(AgedBy(b, aged, ratio, now), victim.value);
        Evicts(b, tick, ratio, now, aged, victim.value, m) && a == Joined(m, key, value, now)
  }

  lemma EvictedKeys<K, V>(b: Residents<K, V>, tick: nat, ratio: real, now: int, aged: nat, victim: K,
                          a: Residents<K, V>)
    requires 0.0 <= ratio <= 1.0 && Evicts(b, tick, ratio, now, aged, victim, a)
    ensures victim in b.contents && a.contents.Keys == b.contents.Keys - {victim}
    ensures aged <= |b.queue| && a == Left(AgedBy(b, aged, ratio, now), victim)
  {
    hide Dropped, AgedQueue, Decayed, AgedRanking;
  }

  // ---------------------------------------------------------------- what the ranking means

  /** The keys `r` by use count and, within a count, by the time since which they have had it. */
  ghost predicate Ordered<K, V>(r: seq<K>, c: map<K, Element<K, V>>, since: map<K, nat>) {
    (forall i :: 0 <= i < |r| ==> r[i] in c && r[i] in since) &&
    forall i, j :: 0 <= i < j < |r| ==>
      c[r[i]].count < c[r[j]].count || (c[r[i]].count == c[r[j]].count && since[r[i]] < since[r[j]])
  }

  ghost predicate Before<K>(r: seq<K>, since: map<K, nat>, time: nat) {
    forall i :: 0 <= i < |r| ==> r[i] in since && since[r[i]] < time
  }

  lemma DroppedIsOrdered<K, V>(r: seq<K>, c: map<K, Element<K, V>>, since: map<K, nat>, time: nat, k: K)
    requires Ordered(r, c, since) && Before(r, since, time)
    ensures Ordered(Dropped(r, k), c, since) && Before(Dropped(r, k), since, time) && k !in Dropped(r, k)
  {
    hide IndexOf;
    var i, r' := IndexOf(r, k), Dropped(r, k);
    if i < |r| {
      assert forall j :: 0 <= j < |r'| ==> r'[j] == r[if j < i then j else j + 1];
    }
  }

  /** A key that reaches a count goes behind those that have had it for longer. */
  lemma PlacedIsOrdered<K, V>(r: seq<K>, c: map<K, Element<K, V>>, since: map<K, nat>, time: nat, e: Element<K, V>)
    requires Ordered(r, c, since) && Before(r, since, time) && e.key !in r
    ensures Ordered(Placed(r, c, e.key, e.count), c[e.key := e], since[e.key := time])
    ensures Before(Placed(r, c, e.key, e.count), since[e.key := time], time + 1)
  {
    hide PlaceOf;
    var i, r' := PlaceOf(r, c, e.count), Placed(r, c, e.key, e.count);
    assert forall j :: 0 <= j < |r'| ==> r'[j] == if j < i then r[j] else if j == i then e.key else r[j - 1];
    assert forall j :: i <= j < |r| ==> c[r[j]].count >= c[r[i]].count;
  }

  lemma RerankedIsOrdered<K, V>(r: seq<K>, c: map<K, Element<K, V>>, since: map<K, nat>, time: nat, e: Element<K, V>)
    requires Ordered(r, c, since) && Before(r, since, time)
    ensures Ordered(Reranked(r, c, e.key, e.count), c[e.key := e], since[e.key := time])
    ensures Before(Reranked(r, c, e.key, e.count), since[e.key := time], time + 1)
  {
    hide Dropped, Placed, Ordered, Before;
    DroppedIsOrdered(r, c, since, time, e.key);
    PlacedIsOrdered(Dropped(r, e.key), c, since, time, e);
  }

  /** Since when each key has had its count, after the first `p` of the queue aged one by one. */
  ghost function AgedSince<K>(since: map<K, nat>, time: nat, q: seq<K>, p: nat): map<K, nat> {
    if p == 0 || p > |q| then since else AgedSince(since, time, q, p - 1)[q[p - 1] := time + p - 1]
  }

  /** Aging counts as reaching the new count, in the order of the queue. */
  lemma {:induction false} AgedIsOrdered<K, V>(b: Residents<K, V>, p: nat, ratio: real, now: int, since: map<K, nat>,
                                               time: nat)
    requires 0.0 <= ratio <= 1.0 && p <= |b.queue| && Distinct(b.queue)
    requires (forall i :: 0 <= i < |b.queue| ==> b.queue[i] in b.contents) && Before(b.ranking, since, time)
    requires forall k :: k in b.contents ==> b.contents[k].key == k
    requires Ordered(b.ranking, b.contents, since)
    ensures var a, since' := AgedBy(b, p, ratio, now), AgedSince(since, time, b.queue, p);
            Ordered(a.ranking, a.contents, since') && Before(a.ranking, since', time + p)
  {
    hide Ordered, Before, Reranked, Decayed, Distinct;
    if p == 0 {
      assert AgedContents(b.contents, Elems(b.queue[..0]), ratio, now) == b.contents;
    } else {
      AgedIsOrdered(b, p - 1, ratio, now, since, time);
      var a, k := AgedBy(b, p - 1, ratio, now), b.queue[p - 1];
      var e := Aged(b.contents[k], ratio, now);
      RerankedIsOrdered(a.ranking, a.contents, AgedSince(since, time, b.queue, p - 1), time + p - 1, e);
      AgedOneMore(b, p - 1, ratio, now);
    }
  }

  lemma AgedOneMore<K, V>(b: Residents<K, V>, p: nat, ratio: real, now: int)
    requires 0.0 <= ratio <= 1.0 && p < |b.queue| && Distinct(b.queue) && b.queue[p] in b.contents
    ensures AgedContents(b.contents, Elems(b.queue[..p + 1]), ratio, now) ==
            AgedContents(b.contents, Elems(b.queue[..p]), ratio, now)[b.queue[p] := Aged(b.contents[b.queue[p]], ratio,
                                                                                         now)]
  {
    hide Decayed;
    assert b.queue[..p + 1] == b.queue[..p] + [b.queue[p]];
  }

  // ---------------------------------------------------------------- the cache

  class Cache<K(==), V> {
    const capacity: nat
    const tick: nat
    const ratio: real
    var used: nat
    var keyed: map<K, Node>
    var lfu: seq<Rank>
    var order: seq<Node>
    var element: map<Node, Element<K, V>>
    var open: Node

    ghost predicate Valid()
      reads this
    {
      0.0 <= ratio <= 1.0 && capacity > 0 && Agree(capacity, order, used, open, element, keyed, lfu)
    }

    ghost function Contents(): map<K, Element<K, V>>
      requires Valid()
      reads this
    {
      Held(element, keyed)
    }

    /** The resident keys in the order of the list. */
    ghost function Queue(): seq<K>
      requires Valid()
      reads this
    {
      KeysOf(order[..used], element)
    }

    /** The resident keys by use count and, within a count, by when they reached it. */
    ghost function Ranking(): seq<K>
      requires Valid()
      reads this
    {
      RankNodes(Elems(order[..used]), element, lfu);
      NamesOf(lfu, element)
    }

    method EraseEntry(count: nat, n: Node)
      requires Sorted(lfu)
      modifies this`lfu
      ensures Sorted(lfu) && multiset(lfu) == multiset(old(lfu)) - multiset{Rank(count, n)}
      ensures lfu == Dropped(old(lfu), Rank(count, n))
    {
      hide IndexOf;
      var i := 0;
      while i < |lfu| && lfu[i].count < count
        invariant 0 <= i <= |lfu| && lfu == old(lfu) && forall j :: 0 <= j < i ==> lfu[j].count < count
      {
        i := i + 1;
      }
      while i < |lfu| && lfu[i].count == count
        invariant 0 <= i <= |lfu| && lfu == old(lfu) && forall j :: 0 <= j < i ==> lfu[j] != Rank(count, n)
      {
        if lfu[i].node == n {
          RankRemoved(lfu, i);
          IndexIs(lfu, Rank(count, n), i);
          lfu := lfu[..i] + lfu[i + 1..];
          return;
        }
        i := i + 1;
      }
      RankMissing(lfu, i, Rank(count, n));
      IndexIs(lfu, Rank(count, n), |lfu|);
    }

    /** Equal counts keep their insertion order. */
    method Emplace(count: nat, n: Node)
      requires Sorted(lfu)
      modifies this`lfu
      ensures Sorted(lfu) && multiset(lfu) == multiset(old(lfu)) + multiset{Rank(count, n)}
      ensures exists i :: InsertedAt(old(lfu), lfu, Rank(count, n), i)
    {
      var i := 0;
      while i < |lfu| && lfu[i].count <= count
        invariant 0 <= i <= |lfu| && forall j :: 0 <= j < i ==> lfu[j].count <= count
      {
        i := i + 1;
      }
      RankInserted(lfu, i, Rank(count, n));
      lfu := lfu[..i] + [Rank(count, n)] + lfu[i..];
    }

    method Rerank(n: Node, count: nat, count': nat)
      requires Sorted(lfu)
      modifies this`lfu
      ensures Sorted(lfu)
      ensures multiset(lfu) == multiset(old(lfu)) - multiset{Rank(count, n)} + multiset{Rank(count', n)}
      ensures RankMoved(old(lfu), Rank(count, n), Rank(count', n), lfu)
    {
      hide Sorted, Dropped, InsertedAt;
      EraseEntry(count, n);
      Emplace(count', n);
    }

    ghost function Now(): Residents<K, V>
      requires Valid()
      reads this
    {
      Residents(Queue(), Ranking(), Contents())
    }

    constructor (capacity: nat, tick: nat, ratio: real)
      requires capacity > 0 && 0.0 <= ratio <= 1.0
      ensures this.capacity == capacity && this.tick == tick && this.ratio == ratio
      ensures Valid() && Now() == Residents([], [], map[])
    {
      this.capacity, this.tick, this.ratio := capacity, tick, ratio;
      used, keyed, lfu, element, open := 0, map[], [], map[], 0;
      order := seq(capacity, i => i);
      new;
      assert Elems(order[..0]) == {};
      assert Ranks({}, element) == {};
    }

    /** Counts a use and moves the node to the last place but one. */
    method DoAccess(n: Node, now: int)
      requires Valid() && n in order[..used]
      modifies this`lfu, this`element, this`order
      ensures Valid()
      ensures var e := old(element)[n];
              e.key in old(Contents()) && old(Contents())[e.key] == e && Now() == Accessed(old(Now()), e.key, now)
      ensures n in element && element[n] == old(element)[n].(count := old(element)[n].count + 1, age := now)
    {
      hide Agree, Sorted, Splice, IndexOf, Held, KeysOf, Promoted, NamesOf, Reranked, RankMoved;
      ghost var order0, element0, lfu0 := order, element, lfu;
      Usable(capacity, order, used, open, element, keyed, lfu, n);
      HeldAt(capacity, order, used, open, element, keyed, lfu, n);
      var e := element[n];
      Rerank(n, e.count, e.count + 1);
      element := element[n := element[n].(count := e.count + 1)];
      var last := Prev(order, open);
      if n != last {
        order := Splice(order, last, n);
      }
      element := element[n := element[n].(age := now)];
      ghost var e' := e.(count := e.count + 1, age := now);
      assert element == element0[n := e'];
      AccessOutcome(capacity, order0, used, open, element0, keyed, lfu0, n, e', lfu, order);
      RankingMoved(capacity, order0, used, open, element0, keyed, lfu0, n, e', lfu);
    }

    method DoErase(n: Node)
      requires Valid() && n in order[..used]
      modifies this`lfu, this`keyed, this`order, this`open, this`used
      ensures Valid()
      ensures Now() == Left(old(Now()), old(element)[n].key)
      ensures used == old(used) - 1
    {
      hide Agree, Sorted, Splice, IndexOf, Held, KeysOf, Dropped, NamesOf;
      ghost var order0, lfu0, keyed0, open0 := order, lfu, keyed, open;
      Usable(capacity, order, used, open, element, keyed, lfu, n);
      var e := element[n];
      if n != Prev(order, open) {
        order := Splice(order, open, n);
      }
      ghost var _ := EraseList(capacity, order0, used, open, n, order);
      open := Prev(order, open);
      keyed := keyed - {e.key};
      EraseEntry(e.count, n);
      used := used - 1;
      EraseOutcome(capacity, order0, used + 1, open0, element, keyed0, lfu0, n, lfu, order);
      RankingLeft(capacity, order0, used + 1, open0, element, keyed0, lfu0, n, lfu);
    }

    method DoInsert(key: K, value: V, now: int)
      requires Valid() && key !in keyed && used < capacity
      modifies this
      ensures Valid()
      ensures Now() == Joined(old(Now()), key, value, now)
    {
      hide Agree, Sorted, IndexOf, Held, KeysOf, NamesOf, Placed, InsertedAt;
      ghost var order0, lfu0, keyed0, open0, element0 := order, lfu, keyed, open, element;
      SortedNow(capacity, order, used, open, element, keyed, lfu);
      keyed := keyed[key := open];
      Emplace(1, open);
      ghost var i :| InsertedAt(lfu0, lfu, Rank(1, open0), i);
      element := element[open := Element(key, 1, now, value)];
      open := Next(order, open, capacity);
      used := used + 1;
      ghost var e := Element(key, 1, now, value);
      InsertOutcome(capacity, order0, used - 1, open0, element0, keyed0, lfu0, e, lfu);
      RankingJoined(capacity, order0, used - 1, open0, element0, keyed0, lfu0, e, lfu, i);
    }

    /**
     * Ages the stale head of the list, element by element.  Terminates because an aged
     * element is not stale any more.
     */
    method DynamicAge(now: int) returns (aged: nat)
      requires Valid()
      modifies this`lfu, this`element, this`order
      ensures Valid()
      ensures StalePrefix(old(Queue()), old(Contents()), tick, now, aged)
      ensures Now() == AgedBy(old(Now()), aged, ratio, now)
    {
      hide Agree, Aging, Sorted, Splice, Held, KeysOf, AgedOrder, Elems, StalePrefix, AgedQueue, AgedContents,
           Decayed, AgedLast, NamesOf, Reranked, AgedRanking, RankMoved;
      ghost var order0, element0, lfu0 := order, element, lfu;
      ghost var b := Now();
      aged := 0;
      AgingStarts(capacity, order, used, open, element, keyed, lfu, ratio, now, tick);
      AgedNone(b.ranking, b.contents, b.queue, ratio, now);
      var daStart, daLast := order[0], open;
      while daStart != open && element[daStart].age + tick < now
        invariant aged <= used && Aging(capacity, order0, used, open, element0, order, element, aged, ratio, now, tick)
        invariant Agree(capacity, order, used, open, element, keyed, lfu)
        invariant aged <= |order0| && |order| > 0 && daStart == order[0] && daLast == AgedLast(order0, open, aged)
        invariant daStart != open ==> daStart in element
        invariant Ranking() == AgedRanking(b.ranking, b.contents, b.queue, aged, ratio, now)
        decreases used - aged
      {
        ghost var order1, element1, lfu1 := order, element, lfu;
        SortedNow(capacity, order, used, open, element, keyed, lfu);
        AgingParts(capacity, order0, used, open, element0, order, element, aged, ratio, now, tick);
        AgeNode(daStart, daLast, now);
        AgingStep(capacity, order0, used, open, element0, order1, element1, aged, ratio, now, tick, keyed, lfu1,
                  order, lfu);
        AgingRanking(capacity, order0, used, open, element0, order1, element1, aged, ratio, now, tick, keyed, lfu0,
                     lfu1,
                     lfu);
        daLast := daStart;
        daStart := order[0];
        aged := aged + 1;
      }
      AgingEnds(capacity, order0, used, open, element0, order, element, aged, ratio, now, tick, keyed, lfu0, lfu);
    }

    /** One round of the aging loop. */
    method AgeNode(n: Node, last: Node, now: int)
      requires Sorted(lfu) && n in element && 0.0 <= ratio <= 1.0
      modifies this`lfu, this`element, this`order
      ensures order == if n == last then old(order) else Splice(old(order), last, n)
      ensures element == old(element)[n := Aged(old(element)[n], ratio, now)]
      ensures Sorted(lfu)
      ensures multiset(lfu) == multiset(old(lfu)) - multiset{Rank(old(element)[n].count, n)} +
                               multiset{Rank(Decayed(old(element)[n].count, ratio), n)}
      ensures RankMoved(old(lfu), Rank(old(element)[n].count, n), Rank(Decayed(old(element)[n].count, ratio), n), lfu)
    {
      hide Sorted, Splice, Decayed, RankMoved;
      if n != last {
        order := Splice(order, last, n);
      }
      var e, count := element[n], Decayed(element[n].count, ratio);
      Rerank(n, e.count, count);
      element := element[n := e.(count := count, age := now)];
    }

    /** Makes room; the victim is handed to the eviction callback. */
    method DoPrune(now: int) returns (victim: K, value: V, ghost aged: nat)
      requires Valid() && used > 0
      modifies this
      ensures Valid() && victim in old(Contents()) && value == old(Contents())[victim].value
      ensures Evicts(old(Now()), tick, ratio, now, aged, victim, Now())
      ensures used == old(used) - 1 && keyed.Keys == old(keyed).Keys - {victim}
    {
      hide Agree, Held, KeysOf, StalePrefix, AgedQueue, Dropped, Decayed, NamesOf, AgedRanking;
      aged := DynamicAge(now);
      var n := Victim();
      victim, value := element[n].key, element[n].value;
      SizeIsUsed();
      DoErase(n);
      SizeIsUsed();
    }

    lemma SizeIsUsed()
      requires Valid()
      ensures Contents().Keys == keyed.Keys && |Contents()| == used == |Queue()| <= capacity
      ensures capacity > 0 && 0.0 <= ratio <= 1.0
      ensures forall k :: k in keyed ==> keyed[k] in order[..used] && keyed[k] in element && element[keyed[k]].key == k
      ensures forall k :: k in keyed ==> Contents()[k] == element[keyed[k]]
    {
      assert Contents().Keys == keyed.Keys;
      assert |Contents()| == |Contents().Keys| && |keyed| == |keyed.Keys|;
      forall k | k in keyed
        ensures keyed[k] in order[..used]
      {
        assert keyed[k] in Elems(order[..used]);
      }
    }

    /** The queue lists every resident key exactly once. */
    lemma QueueListsKeys()
      requires Valid()
      ensures Distinct(Queue()) && Elems(Queue()) == Contents().Keys
    {
      hide Ranked, KeysOf;
      var q := Queue();
      KeysDefined(capacity, order, used, open, element, keyed, lfu);
      forall i | 0 <= i < |q|
        ensures q[i] in keyed && keyed[q[i]] == order[i]
      {
        InElems(order[..used], order[..used][i]);
      }
      forall k | k in keyed
        ensures k in q
      {
        var i :| 0 <= i < used && order[i] == keyed[k];
        assert q[i] == k;
      }
    }

    /** The ranking lists every resident key exactly once, by use count. */
    lemma RankingListsKeys()
      requires Valid()
      ensures Distinct(Ranking()) && Elems(Ranking()) == Contents().Keys
      ensures forall i, j :: 0 <= i < j < |Ranking()| ==>
                Contents()[Ranking()[i]].count <= Contents()[Ranking()[j]].count
    {
      RankNodes(Elems(order[..used]), element, lfu);
      hide Ranks;
      var r := Ranking();
      forall i | 0 <= i < |r|
        ensures r[i] in keyed && keyed[r[i]] == lfu[i].node && Contents()[r[i]].count == lfu[i].count
      {
      }
      forall k | k in keyed
        ensures k in r
      {
        var i :| 0 <= i < |lfu| && lfu[i] == Rank(element[keyed[k]].count, keyed[k]);
        assert r[i] == k;
      }
    }

    method DoUpdate(key: K, value: V, now: int)
      requires Valid() && key in keyed
      modifies this`lfu, this`element, this`order
      ensures Valid()
      ensures key in old(Contents()) && Now() == Updated(old(Now()), key, value, now)
    {
      hide Agree, Held, KeysOf, Accessed, NamesOf;
      SizeIsUsed();
      var n := keyed[key];
      ghost var e := element[n].(value := value);
      ValueRewritten(capacity, order, used, open, element, keyed, lfu, n, e);
      RankingSame(capacity, order, used, open, element, keyed, lfu, n, e);
      element := element[n := element[n].(value := value)];
      DoAccess(n, now);
    }

    method Find(key: K, peek: bool, now: int) returns (r: Option<V>)
      requires Valid()
      modifies this`lfu, this`element, this`order
      ensures Valid()
      ensures r == if key in old(Contents()) then Some(old(Contents())[key].value) else None
      ensures Now() == if key in old(Contents()) && !peek then Accessed(old(Now()), key, now) else old(Now())
    {
      hide Agree, Held, KeysOf, Accessed, NamesOf;
      SizeIsUsed();
      if key in keyed {
        var n := keyed[key];
        if !peek {
          DoAccess(n, now);
        }
        return Some(element[n].value);
      }
      return None;
    }

    method Erase(key: K) returns (erased: bool)
      requires Valid()
      modifies this
      ensures Valid() && erased == (key in old(Contents()))
      ensures Now() == if erased then Left(old(Now()), key) else old(Now())
    {
      hide Agree, Held, KeysOf, Left, NamesOf;
      SizeIsUsed();
      if key in keyed {
        DoErase(keyed[key]);
        return true;
      }
      return false;
    }

    /** The first node in the order of use counts. */
    method Victim() returns (n: Node)
      requires Valid() && used > 0
      ensures Ranking() != [] && n in element && element[n].key == Ranking()[0]
      ensures n in order[..used] && n in element && element[n].key in Contents() &&
              Contents()[element[n].key] == element[n]
      ensures forall k :: k in Contents() ==> element[n].count <= Contents()[k].count
    {
      assert order[..used][0] in Elems(order[..used]);
      FirstIsLeast(Elems(order[..used]), element, lfu);
      n := lfu[0].node;
    }

    method Insert(key: K, value: V, now: int, a: Allow) returns (ok: bool, evicted: Option<(K, V)>)
      requires Valid()
      modifies this
      ensures Valid() && |Contents()| <= capacity
      ensures ok == if key in old(Contents()) then UpdateAllowed(a) else InsertAllowed(a)
      ensures !ok ==> Now() == old(Now())
      // Evicts exactly when a new key comes into a full cache; the callback gets key and value.
      ensures evicted.Some? <==> ok && key !in old(Contents()) && |old(Contents())| == capacity
      ensures evicted.Some? ==>
                evicted.value.0 in old(Contents()) && evicted.value.0 != key &&
                evicted.value.1 == old(Contents())[evicted.value.0].value
      ensures ok ==> Contents().Keys == old(Contents()).Keys + {key} - Outgoing(evicted)
      ensures ok ==>
                Admitted(old(Now()), tick, ratio, now, key, value,
                         if evicted.Some? then Some(evicted.value.0) else None, Now())
    {
      hide Agree, Evicts, Updated, Joined, Valid, Contents, Queue, Ranking;
      ok, evicted := false, None;
      SizeIsUsed();
      if key in keyed {
        if UpdateAllowed(a) {
          DoUpdate(key, value, now);
          ok := true;
          UpdatedKeys(old(Now()), key, value, now);
        }
      } else if InsertAllowed(a) {
        evicted := InsertNew(key, value, now);
        ok := true;
      }
      SizeIsUsed();
    }

    /** Inserts a key that is not resident, making room first if there is none. */
    method InsertNew(key: K, value: V, now: int) returns (evicted: Option<(K, V)>)
      requires Valid() && key !in keyed
      modifies this
      ensures Valid()
      ensures evicted.Some? <==> |old(Contents())| == capacity
      ensures evicted.Some? ==>
                evicted.value.0 in old(Contents()) && evicted.value.0 != key &&
                evicted.value.1 == old(Contents())[evicted.value.0].value
      ensures Contents().Keys == old(Contents()).Keys + {key} - Outgoing(evicted)
      ensures Admitted(old(Now()), tick, ratio, now, key, value,
                       if evicted.Some? then Some(evicted.value.0) else None, Now())
    {
      hide Agree, Evicts, Admitted, Joined, Valid, Contents, Queue, Ranking;
      evicted := None;
      SizeNow();
      ghost var b, m, aged := Now(), Now(), 0;
      if used >= capacity {
        var victim, v;
        victim, v, aged := DoPrune(now);
        evicted := Some((victim, v));
        m := Now();
        SizeNow();
      }
      DoInsert(key, value, now);
      NewAdmitted(b, tick, ratio, now, key, value, evicted, aged, m);
    }

    lemma SizeNow()
      requires Valid()
      ensures Contents().Keys == keyed.Keys && |Contents()| == used <= capacity && capacity > 0 && 0.0 <= ratio <= 1.0
    {
      hide Agree, Held;
      SizeIsUsed();
    }
  }

  ghost function Outgoing<K, V>(evicted: Option<(K, V)>): set<K> {
    if evicted.Some? then {evicted.value.0} else {}
  }

  /** A new key is admitted, after the eviction if there was one. */
  lemma NewAdmitted<K, V>(b: Residents<K, V>, tick: nat, ratio: real, now: int, key: K, value: V,
                          evicted: Option<(K, V)>, aged: nat, m: Residents<K, V>)
    requires 0.0 <= ratio <= 1.0 && key !in b.contents
    requires if evicted.None? then m == b else Evicts(b, tick, ratio, now, aged, evicted.value.0, m)
    ensures var a, victim := Joined(m, key, value, now), if evicted.Some? then Some(evicted.value.0) else None;
            Admitted(b, tick, ratio, now, key, value, victim, a) &&
            a.contents.Keys == b.contents.Keys + {key} - Outgoing(evicted)
  {
    hide Evicts, Placed, Left, AgedBy;
    if evicted.Some? {
      EvictedKeys(b, tick, ratio, now, aged, evicted.value.0, m);
    }
  }

  lemma UpdatedKeys<K, V>(b: Residents<K, V>, k: K, value: V, now: int)
    requires k in b.contents
    ensures Updated(b, k, value, now).contents.Keys == b.contents.Keys + {k} - {}
  {
    hide Promoted, Reranked;
  }
}
