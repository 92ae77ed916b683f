/** The doubly linked list of common/Common.c. Every operation takes the node sequence and the data sequence that
    its argument stands for as ghosts, and is proved to act on them as the corresponding sequence operation. */
module MSList {

  class Node<T> {
    var next: Node?<T>
    var prev: Node?<T>
    var data: T

    constructor (data: T)
      ensures this.data == data && next == null && prev == null
    {
      this.data := data;
      next, prev := null, null;
    }
  }

  ghost predicate Distinct<T>(ns: seq<Node<T>>) {
    forall i, j | 0 <= i < j < |ns| :: ns[i] != ns[j]
  }

  /** `head` is a list of exactly the nodes `ns`: `next` and `prev` are each other's inverse along it, both ends
      are null, and no node occurs twice, so the list is acyclic. */
  ghost predicate IsList<T>(head: Node?<T>, ns: seq<Node<T>>)
    reads ns`next, ns`prev
  {
    && head == (if ns == [] then null else ns[0])
    && Distinct(ns)
    && (forall i {:trigger ns[i].next} | 0 <= i < |ns| :: ns[i].next == if i + 1 < |ns| then ns[i + 1] else null)
    && (forall i {:trigger ns[i].prev} | 0 <= i < |ns| :: ns[i].prev == if i > 0 then ns[i - 1] else null)
  }

  /** The nodes carry the data `ds`, in order. No operation writes a `data` field. */
  ghost predicate Carries<T>(ns: seq<Node<T>>, ds: seq<T>)
    reads ns`data
  {
    |ns| == |ds| && forall i | 0 <= i < |ns| :: ns[i].data == ds[i]
  }

  /** The last node of a non-empty list. */
  method Last<T>(list: Node<T>, ghost ns: seq<Node<T>>) returns (it: Node<T>)
    requires IsList(list, ns)
    ensures it == ns[|ns| - 1]
  {
    it := list;
    ghost var i := 0;
    while it.next != null
      invariant 0 <= i < |ns| && it == ns[i]
      decreases |ns| - i
    {
      it := it.next;
      i := i + 1;
    }
  }

  /** The step `append` and `concat` share: the last node of one list meets the first of another. */
  method LinkEnds<T>(first: Node<T>, it: Node<T>, second: Node<T>, ghost ns: seq<Node<T>>, ghost ms: seq<Node<T>>)
    requires IsList(first, ns) && IsList(second, ms) && it == ns[|ns| - 1]
    requires Distinct(ns + ms)
    modifies it`next, second`prev
    ensures IsList(first, ns + ms)
  {
    it.next := second;
    second.prev := it;
    ghost var all, m := ns + ms, |ns|;
    assert forall i | 0 <= i < m :: all[i] == ns[i];
    assert forall i | 0 <= i < |ms| :: all[m + i] == ms[i];
    forall i | 0 <= i < |all|
      ensures all[i].next == if i + 1 < |all| then all[i + 1] else null
    {
      assert i != m - 1 ==> all[i] != all[m - 1];
    }
    forall i | 0 <= i < |all|
      ensures all[i].prev == if i > 0 then all[i - 1] else null
    {
      assert i != m ==> all[i] != all[m];
    }
  }

  method Append<T>(elem: Node?<T>, data: T, ghost ns: seq<Node<T>>, ghost ds: seq<T>)
    returns (r: Node<T>, ghost n: Node<T>)
    requires IsList(elem, ns) && Carries(ns, ds)
    modifies ns`next, ns`prev
    ensures fresh(n) && IsList(r, ns + [n]) && Carries(ns + [n], ds + [data])
  {
    var newElem := new Node(data);
    n := newElem;
    assert IsList(n, [n]) && Distinct(ns + [n]);
    if elem == null {
      assert ns + [n] == [n];
      return newElem, n;
    }
    var it := Last(elem, ns);
    LinkEnds(elem, it, newElem, ns, [n]);
    r := elem;
  }

  method Prepend<T>(elem: Node?<T>, data: T, ghost ns: seq<Node<T>>, ghost ds: seq<T>) returns (r: Node<T>)
    requires IsList(elem, ns) && Carries(ns, ds)
    modifies ns`next, ns`prev
    ensures fresh(r) && IsList(r, [r] + ns) && Carries([r] + ns, [data] + ds)
  {
    r := new Node(data);
    if elem != null {
      r.next := elem;
      elem.prev := r;
    }
  }

  /** `faults` exactly for an empty second list behind a non-empty first one: there the source writes through a
      null pointer, and no list has changed until then. */
  method Concat<T>(first: Node?<T>, second: Node?<T>,
                   ghost ns: seq<Node<T>>, ghost ds: seq<T>, ghost ms: seq<Node<T>>, ghost es: seq<T>)
    returns (faults: bool, r: Node?<T>)
    requires IsList(first, ns) && Carries(ns, ds) && IsList(second, ms) && Carries(ms, es)
    requires Distinct(ns + ms)
    modifies ns`next, ns`prev, ms`next, ms`prev
    ensures faults <==> first != null && second == null
    ensures if faults then r == first && IsList(r, ns) && Carries(ns, ds)
            else IsList(r, ns + ms) && Carries(ns + ms, ds + es)
  {
    faults, r := false, first;
    if first == null {
      assert ns + ms == ms;
      return false, second;
    }
    var it := Last(first, ns);
    if second == null {
      it.next := second;
      return true, r;
    }
    LinkEnds(first, it, second, ns, ms);
  }

  function InsertAt<T>(s: seq<T>, k: nat, x: T): (r: seq<T>)
    requires k <= |s|
    ensures |r| == |s| + 1
    ensures forall i | 0 <= i < |r| :: r[i] == if i < k then s[i] else if i == k then x else s[i - 1]
  {
    s[..k] + [x] + s[k..]
  }

  function RemoveAt<T>(s: seq<T>, k: nat): (r: seq<T>)
    requires k < |s|
    ensures |r| == |s| - 1
    ensures forall i | 0 <= i < |r| :: r[i] == if i < k then s[i] else s[i + 1]
  {
    s[..k] + s[k + 1..]
  }

  lemma CarriesInserted<T>(ns: seq<Node<T>>, ds: seq<T>, k: nat, n: Node<T>)
    requires Carries(ns, ds) && k <= |ns|
    ensures Carries(InsertAt(ns, k, n), InsertAt(ds, k, n.data))
  {
  }

  /** Linking a new node in front of the node at position `k`. */
  method LinkBefore<T>(list: Node<T>, it: Node<T>, n: Node<T>, ghost ns: seq<Node<T>>, ghost k: nat)
    returns (r: Node<T>)
    requires IsList(list, ns) && k < |ns| && it == ns[k] && n !in ns
    modifies ns`next, ns`prev, n`next, n`prev
    ensures IsList(r, InsertAt(ns, k, n))
  {
    r := list;
    n.prev := it.prev;
    n.next := it;
    if it.prev != null {
      it.prev.next := n;
    } else {
      r := n;
    }
    it.prev := n;
  }

  method RemoveLink<T>(list: Node<T>, elem: Node<T>, ghost ns: seq<Node<T>>, ghost ds: seq<T>, ghost k: nat)
    returns (r: Node?<T>)
    requires IsList(list, ns) && Carries(ns, ds) && k < |ns| && elem == ns[k]
    modifies ns`next, ns`prev
    ensures IsList(r, RemoveAt(ns, k)) && Carries(RemoveAt(ns, k), RemoveAt(ds, k))
    ensures elem.next == null && elem.prev == null
  {
    if elem == list {
      r := elem.next;
      elem.prev := null;
      elem.next := null;
      if r != null {
        r.prev := null;
      }
    } else {
      UnlinkInner(list, elem, ns, k);
      r := list;
    }
  }

  method UnlinkInner<T>(list: Node<T>, elem: Node<T>, ghost ns: seq<Node<T>>, ghost k: nat)
    requires IsList(list, ns) && 0 < k < |ns| && elem == ns[k]
    modifies ns`next, ns`prev
    ensures IsList(list, RemoveAt(ns, k))
    ensures elem.next == null && elem.prev == null
  {
    elem.prev.next := elem.next;
    if elem.next != null {
      elem.next.prev := elem.prev;
    }
    elem.next := null;
    elem.prev := null;
  }

  // ---------------------------------------------------------------- insertion

  ghost predicate Total<T(!new)>(cmp: (T, T) -> int) {
    forall a, b :: cmp(a, b) <= 0 || cmp(b, a) <= 0
  }

  ghost predicate Transitive<T(!new)>(cmp: (T, T) -> int) {
    forall a, b, c :: cmp(a, b) <= 0 && cmp(b, c) <= 0 ==> cmp(a, c) <= 0
  }

  ghost predicate Sorted<T>(ds: seq<T>, cmp: (T, T) -> int) {
    forall i, j | 0 <= i < j < |ds| :: cmp(ds[i], ds[j]) <= 0
  }

  /** Where a sorted insertion goes: in front of the first element that is not smaller. */
  ghost predicate InsertPosition<T>(ds: seq<T>, x: T, cmp: (T, T) -> int, k: nat) {
    && k <= |ds|
    && (forall i | 0 <= i < k :: cmp(x, ds[i]) > 0)
    && (k < |ds| ==> cmp(x, ds[k]) <= 0)
  }

  lemma SortedAround<T(!new)>(ds: seq<T>, x: T, cmp: (T, T) -> int, k: nat, i: nat)
    requires Total(cmp) && Transitive(cmp) && Sorted(ds, cmp) && InsertPosition(ds, x, cmp, k) && i < |ds|
    ensures if i < k then cmp(ds[i], x) <= 0 else cmp(x, ds[i]) <= 0
  {
    if i > k {
      assert cmp(x, ds[k]) <= 0 && cmp(ds[k], ds[i]) <= 0;
    }
  }

  lemma InsertedIsSorted<T>(ds: seq<T>, x: T, cmp: (T, T) -> int, k: nat)
    requires Sorted(ds, cmp) && k <= |ds|
    requires forall i | 0 <= i < |ds| :: if i < k then cmp(ds[i], x) <= 0 else cmp(x, ds[i]) <= 0
    ensures Sorted(InsertAt(ds, k, x), cmp)
  {
  }

  lemma InsertedMultiset<T>(ds: seq<T>, k: nat, x: T)
    requires k <= |ds|
    ensures multiset(InsertAt(ds, k, x)) == multiset(ds) + multiset{x}
  {
    assert ds == ds[..k] + ds[k..];
  }

  /** Inserting there keeps a list sorted, adds exactly one element, and puts it before all its equals. */
  lemma InsertKeepsSorted<T(!new)>(ds: seq<T>, x: T, cmp: (T, T) -> int, k: nat)
    requires Total(cmp) && Transitive(cmp) && Sorted(ds, cmp) && InsertPosition(ds, x, cmp, k)
    ensures Sorted(InsertAt(ds, k, x), cmp)
    ensures multiset(InsertAt(ds, k, x)) == multiset(ds) + multiset{x}
    ensures forall i | 0 <= i < |ds| && cmp(x, ds[i]) <= 0 :: k <= i
  {
    forall i | 0 <= i < |ds|
      ensures if i < k then cmp(ds[i], x) <= 0 else cmp(x, ds[i]) <= 0
    {
      SortedAround(ds, x, cmp, k, i);
    }
    InsertedIsSorted(ds, x, cmp, k);
    InsertedMultiset(ds, k, x);
  }

  method InsertSorted<T>(list: Node?<T>, data: T, cmp: (T, T) -> int, ghost ns: seq<Node<T>>, ghost ds: seq<T>)
    returns (r: Node<T>, ghost n: Node<T>, ghost k: nat)
    requires IsList(list, ns) && Carries(ns, ds)
    modifies ns`next, ns`prev
    ensures InsertPosition(ds, data, cmp, k)
    ensures fresh(n) && IsList(r, InsertAt(ns, k, n)) && Carries(InsertAt(ns, k, n), InsertAt(ds, k, data))
  {
    k := 0;
    if list == null {
      r, n := Append(list, data, ns, ds);
      return;
    }
    var found, it;
    found, it, k := FindPlace(list, data, cmp, ns, ds);
    var nelem := new Node(data);
    n := nelem;
    if found {
      r := LinkBefore(list, it, nelem, ns, k);
    } else {
      LinkBehind(list, it, nelem, ns);
      assert InsertAt(ns, k, n) == ns + [n];
      r := list;
    }
    CarriesInserted(ns, ds, k, n);
  }

  /** A new node goes behind the last one. */
  method LinkBehind<T>(list: Node<T>, it: Node<T>, n: Node<T>, ghost ns: seq<Node<T>>)
    requires IsList(list, ns) && it == ns[|ns| - 1] && n !in ns && n.next == null && n.prev == null
    modifies it`next, n`prev
    ensures IsList(list, ns + [n])
  {
    assert IsList(n, [n]) && Distinct(ns + [n]);
    LinkEnds(list, it, n, ns, [n]);
  }

  /** The search of `ms_list_insert_sorted`: the node to go in front of, or else the last one. */
  method FindPlace<T>(list: Node<T>, data: T, cmp: (T, T) -> int, ghost ns: seq<Node<T>>, ghost ds: seq<T>)
    returns (found: bool, at: Node<T>, ghost k: nat)
    requires IsList(list, ns) && Carries(ns, ds)
    ensures InsertPosition(ds, data, cmp, k)
    ensures if found then k < |ns| && at == ns[k] else k == |ns| && at == ns[k - 1]
  {
    k, at := 0, list;
    var it: Node?<T> := list;
    while it != null
      invariant 0 <= k <= |ns| && it == (if k < |ns| then ns[k] else null)
      invariant k > 0 ==> at == ns[k - 1]
      invariant forall i | 0 <= i < k :: cmp(data, ds[i]) > 0
      decreases |ns| - k
    {
      at := it;
      if cmp(data, it.data) <= 0 {
        return true, at, k;
      }
      it := it.next;
      k := k + 1;
    }
    found := false;
  }

  /** `before` is null: append. `before` is the node at `k`: insert there. A node that is not in a non-empty
      list: nothing happens, and the data is dropped. `n` is the one new node, if there is one. */
  method Insert<T>(list: Node?<T>, before: Node?<T>, data: T, ghost ns: seq<Node<T>>, ghost ds: seq<T>)
    returns (r: Node?<T>, ghost ms: seq<Node<T>>, ghost n: Node<T>)
    requires IsList(list, ns) && Carries(ns, ds)
    modifies ns`next, ns`prev
    ensures IsList(r, ms)
    ensures before == null || list == null ==> fresh(n) && ms == ns + [n] && Carries(ms, ds + [data])
    ensures forall k | 0 <= k < |ns| && ns[k] == before ::
              fresh(n) && ms == InsertAt(ns, k, n) && Carries(ms, InsertAt(ds, k, data))
    ensures before != null && list != null && before !in ns ==> r == list && ms == ns && Carries(ms, ds)
  {
    if list == null || before == null {
      r, n := Append(list, data, ns, ds);
      ms := ns + [n];
      return;
    }
    var elem: Node?<T> := list;
    ghost var i := 0;
    while elem != null
      invariant 0 <= i <= |ns| && elem == (if i < |ns| then ns[i] else null)
      invariant before !in ns[..i]
      decreases |ns| - i
    {
      if elem == before {
        // Behind this point the loop of the source walks on to the end, where `before` cannot occur again.
        r, n := InsertHere(list, elem, data, ns, ds, i);
        ms := InsertAt(ns, i, n);
        return;
      }
      elem := elem.next;
      i := i + 1;
    }
    r, ms, n := list, ns, list;
  }

  method InsertHere<T>(list: Node<T>, elem: Node<T>, data: T, ghost ns: seq<Node<T>>, ghost ds: seq<T>, ghost k: nat)
    returns (r: Node<T>, ghost n: Node<T>)
    requires IsList(list, ns) && Carries(ns, ds) && k < |ns| && elem == ns[k]
    modifies ns`next, ns`prev
    ensures fresh(n) && IsList(r, InsertAt(ns, k, n)) && Carries(InsertAt(ns, k, n), InsertAt(ds, k, data))
  {
    if elem.prev == null {
      r := Prepend(list, data, ns, ds);
      n := r;
      assert InsertAt(ns, k, n) == [n] + ns;
      assert InsertAt(ds, k, data) == [data] + ds;
    } else {
      var nelem := new Node(data);
      n := nelem;
      r := LinkBefore(list, elem, nelem, ns, k);
      CarriesInserted(ns, ds, k, n);
    }
  }

  method Copy<T>(list: Node?<T>, ghost ns: seq<Node<T>>, ghost ds: seq<T>)
    returns (copy: Node?<T>, ghost ms: seq<Node<T>>)
    requires IsList(list, ns) && Carries(ns, ds)
    ensures fresh(ms) && IsList(copy, ms) && Carries(ms, ds)
  {
    copy, ms := null, [];
    var iter := list;
    ghost var i := 0;
    while iter != null
      invariant 0 <= i <= |ns| && iter == (if i < |ns| then ns[i] else null)
      invariant forall j | 0 <= j < |ms| :: fresh(ms[j])
      invariant IsList(copy, ms) && Carries(ms, ds[..i])
      decreases |ns| - i
    {
      ghost var n;
      copy, n := Append(copy, iter.data, ms, ds[..i]);
      ms := ms + [n];
      assert ds[..i] + [iter.data] == ds[..i + 1];
      iter := iter.next;
      i := i + 1;
    }
    assert ds[..i] == ds;
  }
}
