/** The doubly linked list `task::list` of list/src/list.h, over `int`
    elements. Each list owns two sentinel nodes, `head` and `tail`, that are
    part of the list object itself; the element nodes lie between them and
    are relinked in place by every operation. The ghost sequence `nodes`
    names the whole chain, sentinels included, so that the contents of the
    list are the values of `nodes` without its two ends. An iterator is a
    node reference; each method that takes one also takes, as a ghost
    parameter, the index of that node in `nodes`. */
module LinkedList {
  import opened Sequences

  /** `BaseNode` and `Node`: the links and the value. The value of an
      element node is never reassigned by the list's own operations, so it is
      a constant; the sentinels carry a value of 0 that is never read. */
  class Node {
    const value: int
    var prev: Node?
    var next: Node?

    constructor (v: int)
      ensures value == v && prev == null && next == null
    {
      value := v;
      prev := null;
      next := null;
    }

    /** `connect(other)`: links `this` to `other` in both directions. */
    method Connect(other: Node)
      modifies this`next, other`prev
      ensures next == other && other.prev == this
    {
      next := other;
      other.prev := this;
    }
  }

  /** Consecutive nodes of `ns` point at each other. */
  ghost predicate Linked(ns: seq<Node>)
    reads ns
  {
    forall i, j :: 0 <= i && j == i + 1 < |ns| ==> ns[i].next == ns[j] && ns[j].prev == ns[i]
  }

  /** No node occurs twice in `ns`. */
  ghost predicate Distinct(ns: seq<Node>)
  {
    forall i, j :: 0 <= i < j < |ns| ==> ns[i] != ns[j]
  }

  /** `a` and `b` have no node in common. */
  ghost predicate Apart(a: seq<Node>, b: seq<Node>)
  {
    forall i, j :: 0 <= i < |a| && 0 <= j < |b| ==> a[i] != b[j]
  }

  /** The values held by `ns`, in order. */
  ghost function Values(ns: seq<Node>): (vs: seq<int>)
    ensures |vs| == |ns|
    ensures forall i :: 0 <= i < |ns| ==> vs[i] == ns[i].value
  {
    seq(|ns|, i requires 0 <= i < |ns| => ns[i].value)
  }

  /** `count` copies of `v`. */
  ghost function Repeat(v: int, count: nat): (vs: seq<int>)
    ensures |vs| == count
    ensures forall i :: 0 <= i < count ==> vs[i] == v
  {
    seq(count, _ => v)
  }

  /** `ns` is linked at every position except `p` and `q`, where
      `ns[p]`/`ns[q]` need not yet point at their successors. */
  ghost predicate LinkedBut(ns: seq<Node>, p: int, q: int)
    reads ns
  {
    forall i, j :: 0 <= i && j == i + 1 < |ns| && i != p && i != q ==> ns[i].next == ns[j] && ns[j].prev == ns[i]
  }

  /** A chain cut in two gives two chains. */
  lemma LinkedSlices(ns: seq<Node>, k: nat)
    requires Linked(ns) && k <= |ns|
    ensures Linked(ns[..k]) && Linked(ns[k..])
  {
  }

  /** Three chains whose ends point at each other form one chain. */
  lemma LinkedJoin(a: seq<Node>, b: seq<Node>, c: seq<Node>)
    requires Linked(a) && Linked(b) && Linked(c)
    requires a != [] && b != [] && c != []
    requires a[|a| - 1].next == b[0] && b[0].prev == a[|a| - 1]
    requires b[|b| - 1].next == c[0] && c[0].prev == b[|b| - 1]
    ensures Linked(a + b + c)
  {
    var ns := a + b + c;
    forall i | 0 <= i < |ns| - 1
      ensures ns[i].next == ns[i + 1] && ns[i + 1].prev == ns[i]
    {
      if i < |a| - 1 {
        assert ns[i] == a[i] && ns[i + 1] == a[i + 1];
      } else if i == |a| - 1 {
        assert ns[i] == a[i] && ns[i + 1] == b[0];
      } else if i < |a| + |b| - 1 {
        assert ns[i] == b[i - |a|] && ns[i + 1] == b[i - |a| + 1];
      } else if i == |a| + |b| - 1 {
        assert ns[i] == b[|b| - 1] && ns[i + 1] == c[0];
      } else {
        assert ns[i] == c[i - |a| - |b|] && ns[i + 1] == c[i - |a| - |b| + 1];
      }
    }
  }

  /** The ends of a joined chain are the ends of its outer parts. */
  lemma JoinEnds(a: seq<Node>, b: seq<Node>, c: seq<Node>)
    requires a != [] && c != []
    ensures (a + b + c)[0] == a[0] && (a + b + c)[|a| + |b| + |c| - 1] == c[|c| - 1]
    ensures |a + b + c| == |a| + |b| + |c|
  {
  }

  /** The first node of `chain`, or `a` when it is empty. */
  ghost function FirstOr(a: Node, chain: seq<Node>): Node
  {
    if chain == [] then a else chain[0]
  }

  /** The last node of `chain`, or `b` when it is empty. */
  ghost function LastOr(b: Node, chain: seq<Node>): Node
  {
    if chain == [] then b else chain[|chain| - 1]
  }

  /** Three chains laid end to end are linked everywhere except, possibly,
      where one meets the next. */
  lemma LinkedExcept(a: seq<Node>, b: seq<Node>, c: seq<Node>)
    requires Linked(a) && Linked(b) && Linked(c)
    ensures LinkedBut(a + b + c, |a| - 1, |a| + |b| - 1)
  {
    var ns := a + b + c;
    forall i | 0 <= i < |ns| - 1 && i != |a| - 1 && i != |a| + |b| - 1
      ensures ns[i].next == ns[i + 1] && ns[i + 1].prev == ns[i]
    {
      if i < |a| - 1 {
        assert ns[i] == a[i] && ns[i + 1] == a[i + 1];
      } else if i < |a| + |b| - 1 {
        assert ns[i] == b[i - |a|] && ns[i + 1] == b[i - |a| + 1];
      } else {
        assert ns[i] == c[i - |a| - |b|] && ns[i + 1] == c[i - |a| - |b| + 1];
      }
    }
  }

  /** Links `ns[p]` to `ns[p + 1]` and `ns[q]` to `ns[q + 1]`, the two
      places where `ns` is not yet linked; no other node changes. */
  method Relink(ghost ns: seq<Node>, ghost p: nat, ghost q: nat, a: Node, b: Node, c: Node, d: Node)
    requires Distinct(ns) && p < q < |ns| - 1
    requires ns[p] == a && ns[p + 1] == b && ns[q] == c && ns[q + 1] == d
    requires LinkedBut(ns, p, q)
    modifies a`next, b`prev, c`next, d`prev
    ensures Linked(ns)
  {
    a.Connect(b);
    c.Connect(d);
    forall i | 0 <= i < |ns| - 1
      ensures ns[i].next == ns[i + 1] && ns[i + 1].prev == ns[i]
    {
      if i != p && i != q {
        assert ns[i] != a && ns[i] != c && ns[i + 1] != b && ns[i + 1] != d;
      }
    }
  }

  /** Closes the one gap of `ns`, at `p`, by pointing `b` back at `a` and
      `a` on to `b`; no other node changes. */
  method Bridge(ghost ns: seq<Node>, ghost p: nat, a: Node, b: Node)
    requires Distinct(ns) && p < |ns| - 1
    requires ns[p] == a && ns[p + 1] == b
    requires LinkedBut(ns, p, p)
    modifies a`next, b`prev
    ensures Linked(ns)
  {
    b.prev := a;
    a.next := b;
    forall i | 0 <= i < |ns| - 1
      ensures ns[i].next == ns[i + 1] && ns[i + 1].prev == ns[i]
    {
      if i != p {
        assert ns[i] != a && ns[i + 1] != b;
      }
    }
  }

  /** Cutting the nodes `i..j-1` out of a chain leaves a chain with one
      gap, at `i - 1`, and no repeats. */
  lemma LinkedCut(ns: seq<Node>, i: nat, j: nat)
    requires Linked(ns) && Distinct(ns) && 0 < i <= j < |ns|
    ensures LinkedBut(ns[..i] + ns[j..], i - 1, i - 1)
    ensures Distinct(ns[..i] + ns[j..])
  {
    var ms := ns[..i] + ns[j..];
    forall x | 0 <= x < |ms|
      ensures ms[x] == (if x < i then ns[x] else ns[x + j - i])
    {
    }
  }

  /** Two chains with no node in common keep their elements apart when
      each one's elements are hung between the other's two ends. */
  lemma CrossHung(a: seq<Node>, b: seq<Node>)
    requires |a| >= 2 && |b| >= 2 && Distinct(a) && Distinct(b) && Apart(a, b)
    ensures Distinct([b[0]] + a[1..|a| - 1] + [b[|b| - 1]])
    ensures Distinct([a[0]] + b[1..|b| - 1] + [a[|a| - 1]])
    ensures Apart(b[1..|b| - 1], [b[0]] + a[1..|a| - 1] + [b[|b| - 1]])
    ensures Apart([b[0]] + a[1..|a| - 1] + [b[|b| - 1]], [a[0]] + b[1..|b| - 1] + [a[|a| - 1]])
    ensures forall i :: 0 < i < |a| - 1 ==> a[i] !in {a[0], a[|a| - 1], b[0], b[|b| - 1]}
    ensures forall i :: 0 < i < |b| - 1 ==> b[i] !in {a[0], a[|a| - 1], b[0], b[|b| - 1]}
  {
    var ha, hb := [b[0]] + a[1..|a| - 1] + [b[|b| - 1]], [a[0]] + b[1..|b| - 1] + [a[|a| - 1]];
    assert forall i :: 0 <= i < |ha| ==> ha[i] == (if 0 < i < |a| - 1 then a[i] else b[if i == 0 then 0 else |b| - 1]);
    assert forall i :: 0 <= i < |hb| ==> hb[i] == (if 0 < i < |b| - 1 then b[i] else a[if i == 0 then 0 else |a| - 1]);
    forall i, j | 0 <= i < j < |ha|
      ensures ha[i] != ha[j]
    {
      if 0 < i && j < |a| - 1 {
        assert ha[i] == a[i] && ha[j] == a[j];
      } else if 0 < i < |a| - 1 {
        assert ha[i] == a[i] && ha[j] == b[|b| - 1];
      } else if 0 < j < |a| - 1 {
        assert ha[i] == b[0] && ha[j] == a[j];
      } else {
        assert ha[i] == b[0] && ha[j] == b[|b| - 1];
      }
    }
    forall i, j | 0 <= i < j < |hb|
      ensures hb[i] != hb[j]
    {
      if 0 < i && j < |b| - 1 {
        assert hb[i] == b[i] && hb[j] == b[j];
      } else if 0 < i < |b| - 1 {
        assert hb[i] == b[i] && hb[j] == a[|a| - 1];
      } else if 0 < j < |b| - 1 {
        assert hb[i] == a[0] && hb[j] == b[j];
      } else {
        assert hb[i] == a[0] && hb[j] == a[|a| - 1];
      }
    }
    forall i, j | 0 <= i < |ha| && 0 <= j < |hb|
      ensures ha[i] != hb[j]
    {
      var x := if 0 < i < |a| - 1 then i else if i == 0 then 0 else |b| - 1;
      var y := if 0 < j < |b| - 1 then j else if j == 0 then 0 else |a| - 1;
      if 0 < i < |a| - 1 && 0 < j < |b| - 1 {
        assert ha[i] == a[x] && hb[j] == b[y];
      } else if 0 < i < |a| - 1 {
        assert ha[i] == a[x] && hb[j] == a[y] && x != y;
      } else if 0 < j < |b| - 1 {
        assert ha[i] == b[x] && hb[j] == b[y] && x != y;
      } else {
        assert ha[i] == b[x] && hb[j] == a[y];
      }
    }
    var inner := b[1..|b| - 1];
    forall i, j | 0 <= i < |inner| && 0 <= j < |ha|
      ensures inner[i] != ha[j]
    {
      assert inner[i] == hb[i + 1];
    }
  }

  /** The values of the elements of a chain: all but its two ends. */
  ghost function Inner(ns: seq<Node>): seq<int>
  {
    if |ns| < 2 then [] else Values(ns[1..|ns| - 1])
  }

  /** Splicing `chain` in before position `k` splices its values in before
      element `k - 1`. */
  lemma InnerInsert(before: seq<Node>, k: nat, chain: seq<Node>)
    requires 1 <= k < |before|
    ensures Inner(before[..k] + chain + before[k..]) == Inner(before)[..k - 1] + Values(chain) + Inner(before)[k - 1..]
  {
    var ns := before[..k] + chain + before[k..];
    var inner, lhs := Inner(before), Inner(ns);
    var rhs := inner[..k - 1] + Values(chain) + inner[k - 1..];
    forall i | 0 <= i < |lhs|
      ensures lhs[i] == rhs[i]
    {
      if i < k - 1 {
        assert ns[i + 1] == before[i + 1] && rhs[i] == inner[i];
      } else if i < k - 1 + |chain| {
        assert ns[i + 1] == chain[i - k + 1] && rhs[i] == Values(chain)[i - k + 1];
      } else {
        assert ns[i + 1] == before[i + 1 - |chain|] && rhs[i] == inner[i - |chain|];
      }
    }
  }

  /** Dropping the nodes `i..j-1` drops the elements `i-1..j-2`. */
  lemma InnerCut(before: seq<Node>, i: nat, j: nat)
    requires 1 <= i <= j < |before|
    ensures Inner(before[..i] + before[j..]) == Inner(before)[..i - 1] + Inner(before)[j - 1..]
  {
    var ns := before[..i] + before[j..];
    var lhs, rhs := Inner(ns), Inner(before)[..i - 1] + Inner(before)[j - 1..];
    assert |lhs| == |rhs|;
    forall x | 0 <= x < |lhs|
      ensures lhs[x] == rhs[x]
    {
      if x < i - 1 {
        assert lhs[x] == ns[x + 1].value == before[x + 1].value;
      } else {
        assert lhs[x] == ns[x + 1].value == before[x + 1 + j - i].value;
      }
    }
  }

  /** The elements of a chain hung between two ends are the chain's. */
  lemma InnerEnclosed(a: Node, chain: seq<Node>, b: Node)
    ensures Inner([a] + chain + [b]) == Values(chain)
  {
    assert ([a] + chain + [b])[1..|chain| + 1] == chain;
  }

  /** The nodes left when `before[i..i + r]` has been cut out; cutting one
      more takes out `before[i + r]`. */
  lemma CutAt(before: seq<Node>, i: nat, r: nat)
    requires 1 <= i && i + r + 1 < |before|
    ensures |before[..i] + before[i + r..]| == |before| - r
    ensures (before[..i] + before[i + r..])[i] == before[i + r] && (before[..i] + before[i + r..])[i + 1] == before[i + r + 1]
    ensures (before[..i] + before[i + r..])[..i] + (before[..i] + before[i + r..])[i + 1..] == before[..i] + before[i + r + 1..]
  {
    var ns := before[..i] + before[i + r..];
    assert ns[..i] == before[..i] && ns[i + 1..] == before[i + r + 1..];
  }


  /** A chain without repeats hung between two other nodes has none. */
  lemma HangDistinct(a: Node, chain: seq<Node>, b: Node)
    requires Distinct(chain) && a != b
    requires forall k :: 0 <= k < |chain| ==> chain[k] != a && chain[k] != b
    ensures Distinct([a] + chain + [b])
  {
    var ns := [a] + chain + [b];
    forall i, j | 0 <= i < j < |ns|
      ensures ns[i] != ns[j]
    {
      if 0 < i && j < |ns| - 1 {
        assert ns[i] == chain[i - 1] && ns[j] == chain[j - 1];
      }
    }
  }

  /** Three chains without a node in common are one chain without repeats. */
  lemma DistinctJoin(a: seq<Node>, b: seq<Node>, c: seq<Node>)
    requires Distinct(a + c) && Distinct(b)
    requires forall n :: n in b ==> n !in a + c
    ensures Distinct(a + b + c)
  {
    var ns := a + b + c;
    forall i, j | 0 <= i < j < |ns|
      ensures ns[i] != ns[j]
    {
      if i < |a| && j < |a| {
        assert ns[i] == (a + c)[i] && ns[j] == (a + c)[j];
      } else if i < |a| && j >= |a| + |b| {
        assert ns[i] == (a + c)[i] && ns[j] == (a + c)[j - |b|];
      } else if i >= |a| + |b| {
        assert ns[i] == (a + c)[i - |b|] && ns[j] == (a + c)[j - |b|];
      } else if i < |a| {
        assert ns[j] == b[j - |a|] && ns[i] in a + c;
      } else if j < |a| + |b| {
        assert ns[i] == b[i - |a|] && ns[j] == b[j - |a|];
      } else {
        assert ns[i] == b[i - |a|] && ns[j] in a + c;
      }
    }
  }

  /** The chain `ns` with its elements, but not its two ends, in the
      opposite order. */
  ghost function Turned(ns: seq<Node>): (r: seq<Node>)
    requires |ns| >= 2
    ensures |r| == |ns| && r[0] == ns[0] && r[|ns| - 1] == ns[|ns| - 1]
    ensures forall k :: 0 < k < |ns| - 1 ==> r[k] == ns[|ns| - 1 - k]
  {
    [ns[0]] + Reversed(ns[1..|ns| - 1]) + [ns[|ns| - 1]]
  }

  /** Turning a chain without repeats gives one without repeats. */
  lemma TurnedDistinct(ns: seq<Node>)
    requires |ns| >= 2 && Distinct(ns)
    ensures Distinct(Turned(ns))
  {
    var r, n := Turned(ns), |ns|;
    forall i, j | 0 <= i < j < n
      ensures r[i] != r[j]
    {
      var a := if i == 0 || i == n - 1 then i else n - 1 - i;
      var b := if j == 0 || j == n - 1 then j else n - 1 - j;
      assert r[i] == ns[a] && r[j] == ns[b] && a != b;
    }
  }

  /** Once every element of `ns` has had its two links exchanged, the
      turned chain is linked everywhere except at its two ends. */
  lemma TurnedLinked(ns: seq<Node>)
    requires |ns| >= 2
    requires Flipped(ns, |ns| - 1)
    ensures LinkedBut(Turned(ns), 0, |ns| - 2)
  {
    var r, n := Turned(ns), |ns|;
    forall k, l | 0 <= k && l == k + 1 < n && k != 0 && k != n - 2
      ensures r[k].next == r[l] && r[l].prev == r[k]
    {
      assert r[k] == ns[n - 1 - k] && r[l] == ns[n - 2 - k];
    }
  }

  /** The nodes `ns[1..i]` have had their two links exchanged. */
  ghost predicate Flipped(ns: seq<Node>, i: nat)
    reads ns
  {
    forall x :: 1 <= x < i && x + 1 < |ns| ==> ns[x].next == ns[x - 1] && ns[x].prev == ns[x + 1]
  }

  /** The nodes from `ns[i]` on are still linked as a chain. */
  ghost predicate LinkedFrom(ns: seq<Node>, i: nat)
    reads ns
  {
    forall x :: i <= x < |ns| - 1 ==> ns[x].next == ns[x + 1] && ns[x + 1].prev == ns[x]
  }

  /** The step of the loop of `reverse`: `node`, the `i`-th node of the
      chain, exchanges its two links. */
  method Flip(node: Node, ghost ns: seq<Node>, ghost i: nat)
    requires Distinct(ns) && 1 <= i < |ns| - 1 && node == ns[i]
    requires Flipped(ns, i) && LinkedFrom(ns, i) && node.prev == ns[i - 1]
    modifies node
    ensures Flipped(ns, i + 1) && LinkedFrom(ns, i + 1)
    ensures node.prev == ns[i + 1] && ns[i + 1].prev == node
  {
    node.next, node.prev := node.prev, node.next;
  }

  /** The values of a turned chain are its values reversed. */
  lemma TurnedInner(ns: seq<Node>)
    requires |ns| >= 2
    ensures Inner(Turned(ns)) == Reversed(Inner(ns))
  {
    var a, b := Inner(Turned(ns)), Reversed(Inner(ns));
    assert |a| == |b|;
    forall k | 0 <= k < |a|
      ensures a[k] == b[k]
    {
      assert a[k] == Turned(ns)[k + 1].value;
    }
  }

  /** The key `merge` and `sort` compare nodes by: their value. */
  function Key(n: Node): int
  {
    n.value
  }

  /** Merging nodes by value and then reading their values is merging the
      values. */
  lemma {:induction false} ValuesMerged(xs: seq<Node>, ys: seq<Node>)
    ensures Values(Merged(xs, ys, Key)) == Merged(Values(xs), Values(ys), IntKey)
    decreases |xs| + |ys|
  {
    if xs != [] && ys != [] {
      var vx, vy := Values(xs), Values(ys);
      if Key(ys[0]) < Key(xs[0]) {
        var rest := Merged(xs, ys[1..], Key);
        ValuesMerged(xs, ys[1..]);
        ValuesCons(ys[0], rest);
        assert vy[1..] == Values(ys[1..]);
        assert Merged(vx, vy, IntKey) == [vy[0]] + Merged(vx, vy[1..], IntKey);
      } else {
        var rest := Merged(xs[1..], ys, Key);
        ValuesMerged(xs[1..], ys);
        ValuesCons(xs[0], rest);
        assert vx[1..] == Values(xs[1..]);
        assert Merged(vx, vy, IntKey) == [vx[0]] + Merged(vx[1..], vy, IntKey);
      }
    }
  }

  /** The values of a node followed by a chain. */
  lemma ValuesCons(n: Node, ns: seq<Node>)
    ensures Values([n] + ns) == [n.value] + Values(ns)
  {
  }

  /** `acc` shares no node with `ns[i..]`. */
  ghost predicate ApartFrom(acc: seq<Node>, ns: seq<Node>, i: nat)
  {
    forall a, k :: 0 <= a < |acc| && i <= k < |ns| ==> acc[a] != ns[k]
  }

  /** The nodes `ns[i..]` still point at their successors in `ns`. */
  ghost predicate Untouched(ns: seq<Node>, i: nat)
    reads ns
  {
    forall k :: i <= k < |ns| - 1 ==> ns[k].next == ns[k + 1]
  }

  /** The linking step of the loop of `merge`: `node`, the next node `xs[i]`
      of one list, gets `prev`, the last node of the chain `acc` built so
      far, as its `prev`, and `prev` gets `node` as its `next`; with no
      `prev` yet, the node starts the chain. The nodes not yet taken from
      either list keep their `next` links. */
  method MergeStep(ghost xs: seq<Node>, ghost i: nat, ghost ys: seq<Node>, ghost j: nat, ghost acc: seq<Node>, prev: Node?, node: Node)
    requires Distinct(xs) && Distinct(ys) && Apart(xs, ys)
    requires 1 <= i < |xs| - 1 && 1 <= j < |ys| && node == xs[i]
    requires Untouched(xs, i) && Untouched(ys, j)
    requires Linked(acc) && Distinct(acc) && ApartFrom(acc, xs, i) && ApartFrom(acc, ys, j)
    requires forall a :: 0 <= a < |acc| ==> acc[a] != xs[0] && acc[a] != ys[0]
    requires prev == (if acc == [] then null else acc[|acc| - 1])
    modifies node`prev, if prev == null then {} else {prev}
    ensures node.prev == prev && node.next == old(node.next)
    ensures Untouched(xs, i + 1) && Untouched(ys, j)
    ensures Linked(acc + [node]) && Distinct(acc + [node])
    ensures ApartFrom(acc + [node], xs, i + 1) && ApartFrom(acc + [node], ys, j)
    ensures forall a :: 0 <= a < |acc| + 1 ==> (acc + [node])[a] != xs[0] && (acc + [node])[a] != ys[0]
  {
    node.prev := prev;
    if prev != null {
      prev.next := node;
    }
    var ns := acc + [node];
    forall a, k | 0 <= a < |ns| && i + 1 <= k < |xs|
      ensures ns[a] != xs[k]
    {
      if a < |acc| {
        assert ns[a] == acc[a];
      }
    }
    forall a, k | 0 <= a < |ns| && j <= k < |ys|
      ensures ns[a] != ys[k]
    {
      if a < |acc| {
        assert ns[a] == acc[a];
      }
    }
    forall k | i + 1 <= k < |xs| - 1
      ensures xs[k].next == xs[k + 1]
    {
      assert prev != xs[k];
    }
    forall k | j <= k < |ys| - 1
      ensures ys[k].next == ys[k + 1]
    {
      assert prev != ys[k];
    }
    forall a, b | 0 <= a && b == a + 1 < |ns|
      ensures ns[a].next == ns[b] && ns[b].prev == ns[a]
    {
      if b < |acc| {
        assert ns[a] == acc[a] && ns[b] == acc[b] && ns[a] != prev && ns[b] != node;
      }
    }
  }

  /** The state of the loop of `merge` over the chains `N1` and `N2`
      (sentinels included) once the nodes `acc` are taken and linked from
      `begin` to `last`: the fronts left are `N1[i1]` and `N2[i2]`, whose
      nodes still point at their successors, the taken nodes are none of
      those left nor a `head`, and they followed by the merge of what is
      left make the merge of both lists. */
  ghost predicate Merging(N1: seq<Node>, N2: seq<Node>, i1: int, i2: int, acc: seq<Node>, begin: Node?, last: Node?)
    reads N1, N2, acc
  {
    && 1 <= i1 <= |N1| - 1 && 1 <= i2 <= |N2| - 1
    && Untouched(N1, i1) && Untouched(N2, i2)
    && |acc| == i1 + i2 - 2 && Linked(acc) && Distinct(acc)
    && ApartFrom(acc, N1, i1) && ApartFrom(acc, N2, i2)
    && (forall a :: 0 <= a < |acc| ==> acc[a] != N1[0] && acc[a] != N2[0])
    && (acc == [] ==> begin == null && last == null)
    && (acc != [] ==> begin == acc[0] && last == acc[|acc| - 1])
    && (begin != null ==> begin in N1 || begin in N2)
    && (last != null ==> last in N1 || last in N2)
    && acc + Merged(N1[i1..|N1| - 1], N2[i2..|N2| - 1], Key) == Merged(N1[1..|N1| - 1], N2[1..|N2| - 1], Key)
  }

  /** The choice made by one pass of the loop of `merge`: of the fronts
      `it1` and `it2` of the rest of the two lists (ending at `end1` and
      `end2`), the front of the second when both are there and its value is
      strictly smaller, and otherwise the front that is there; the iterator
      of that list moves on. The merge of what was left is the chosen node
      followed by the merge of what is left now. */
  method MergePick(ghost N1: seq<Node>, ghost N2: seq<Node>, ghost i1: nat, ghost i2: nat, it1: Node, end1: Node, it2: Node, end2: Node)
    returns (node: Node, next1: Node, next2: Node, ghost j1: nat, ghost j2: nat, ghost from1: bool)
    requires Distinct(N1) && Distinct(N2)
    requires 1 <= i1 <= |N1| - 1 && 1 <= i2 <= |N2| - 1 && Untouched(N1, i1) && Untouched(N2, i2)
    requires it1 == N1[i1] && end1 == N1[|N1| - 1] && it2 == N2[i2] && end2 == N2[|N2| - 1]
    requires it1 != end1 || it2 != end2
    ensures from1 ==> j1 == i1 + 1 && j2 == i2 && node == N1[i1]
    ensures !from1 ==> j1 == i1 && j2 == i2 + 1 && node == N2[i2]
    ensures j1 <= |N1| - 1 && next1 == N1[j1] && j2 <= |N2| - 1 && next2 == N2[j2]
    ensures Merged(N1[i1..|N1| - 1], N2[i2..|N2| - 1], Key) == [node] + Merged(N1[j1..|N1| - 1], N2[j2..|N2| - 1], Key)
  {
    ghost var r1, r2 := N1[i1..|N1| - 1], N2[i2..|N2| - 1];
    MergedFirst(r1, r2, Key);
    assert it1 != end1 ==> i1 < |N1| - 1 && it1.next == N1[i1 + 1];
    assert it2 != end2 ==> i2 < |N2| - 1 && it2.next == N2[i2 + 1];
    next1, next2 := it1, it2;
    if it1 != end1 && it2 != end2 && it2.value < it1.value {
      assert r2[0] == it2 && r1[0] == it1 && r2[1..] == N2[i2 + 1..|N2| - 1];
      node, from1 := it2, false;
      next2 := it2.next;
      j1, j2 := i1, i2 + 1;
      assert Merged(r1, r2, Key) == [node] + Merged(N1[j1..|N1| - 1], N2[j2..|N2| - 1], Key);
    } else if it1 != end1 {
      assert r1[0] == it1 && r1[1..] == N1[i1 + 1..|N1| - 1];
      node, from1 := it1, true;
      next1 := it1.next;
      j1, j2 := i1 + 1, i2;
      assert Merged(r1, r2, Key) == [node] + Merged(N1[j1..|N1| - 1], N2[j2..|N2| - 1], Key);
    } else {
      assert r2[0] == it2 && r2[1..] == N2[i2 + 1..|N2| - 1];
      node, from1 := it2, false;
      next2 := it2.next;
      j1, j2 := i1, i2 + 1;
      assert Merged(r1, r2, Key) == [node] + Merged(N1[j1..|N1| - 1], N2[j2..|N2| - 1], Key);
    }
  }

  /** One pass of the loop of `merge`: the node chosen by `MergePick` is
      linked after `last` (see `MergeStep`), or starts the chain at `begin`
      when there is no `last` yet. */
  method MergeNext(ghost N1: seq<Node>, ghost N2: seq<Node>, ghost i1: nat, ghost i2: nat, ghost acc: seq<Node>,
                   it1: Node, end1: Node, it2: Node, end2: Node, begin: Node?, last: Node?)
    returns (next1: Node, next2: Node, begin': Node?, last': Node?, ghost j1: nat, ghost j2: nat, ghost acc': seq<Node>)
    requires Distinct(N1) && Distinct(N2) && Apart(N1, N2) && Apart(N2, N1)
    requires Merging(N1, N2, i1, i2, acc, begin, last)
    requires it1 == N1[i1] && end1 == N1[|N1| - 1] && it2 == N2[i2] && end2 == N2[|N2| - 1]
    requires it1 != end1 || it2 != end2
    modifies it1`prev, it2`prev, if last == null then {} else {last}
    ensures Merging(N1, N2, j1, j2, acc', begin', last')
    ensures next1 == N1[j1] && next2 == N2[j2] && j1 + j2 == i1 + i2 + 1
  {
    var node;
    ghost var from1;
    node, next1, next2, j1, j2, from1 := MergePick(N1, N2, i1, i2, it1, end1, it2, end2);
    ghost var rest := Merged(N1[j1..|N1| - 1], N2[j2..|N2| - 1], Key);
    ghost var xs, i, ys, j := if from1 then N1 else N2, if from1 then i1 else i2, if from1 then N2 else N1, if from1 then i2 else i1;
    MergeStep(xs, i, ys, j, acc, last, node);
    begin' := if last == null then node else begin;
    last' := node;
    AppendAssoc(acc, [node], rest);
    acc' := acc + [node];
  }

  /** The loop of `merge` over the chains `N1` and `N2` (sentinels
      included): walks both at once from `it1` and `it2`, each time taking
      the front of the second when its value is strictly smaller than the
      front of the first and the front of the first otherwise (see
      `MergeNext`), and links the taken nodes into one chain from `begin`
      to `last`, which is the merge of the two lists' elements. */
  method LinkMerged(ghost N1: seq<Node>, ghost N2: seq<Node>, it1: Node, end1: Node, it2: Node, end2: Node)
    returns (begin: Node?, last: Node?, ghost acc: seq<Node>)
    requires |N1| >= 2 && |N2| >= 2 && Distinct(N1) && Distinct(N2) && Apart(N1, N2)
    requires Untouched(N1, 1) && Untouched(N2, 1)
    requires it1 == N1[1] && end1 == N1[|N1| - 1] && it2 == N2[1] && end2 == N2[|N2| - 1]
    modifies N1, N2
    ensures acc == Merged(N1[1..|N1| - 1], N2[1..|N2| - 1], Key) && Linked(acc) && Distinct(acc)
    ensures forall a :: 0 <= a < |acc| ==> acc[a] != N1[0] && acc[a] != N1[|N1| - 1] && acc[a] != N2[0] && acc[a] != N2[|N2| - 1]
    ensures acc == [] ==> begin == null && last == null
    ensures acc != [] ==> begin == acc[0] && last == acc[|acc| - 1]
    ensures begin != null ==> begin in N1 || begin in N2
    ensures last != null ==> last in N1 || last in N2
  {
    assert Apart(N2, N1);
    last := null;
    begin := null;
    var next1, next2 := it1, it2;
    ghost var i1, i2 := 1, 1;
    acc := [];
    while next1 != end1 || next2 != end2
      invariant Merging(N1, N2, i1, i2, acc, begin, last)
      invariant next1 == N1[i1] && next2 == N2[i2]
      decreases |N1| - i1 + |N2| - i2
    {
      next1, next2, begin, last, i1, i2, acc := MergeNext(N1, N2, i1, i2, acc, next1, end1, next2, end2, begin, last);
    }
    assert i1 == |N1| - 1 && i2 == |N2| - 1;
  }

  /** Sorting nodes by value and then reading their values is sorting the
      values. */
  lemma {:induction false} ValuesMergeSorted(xs: seq<Node>)
    ensures Values(MergeSorted(xs, Key)) == MergeSorted(Values(xs), IntKey)
    decreases |xs|
  {
    if |xs| >= 2 {
      var h := |xs| / 2;
      var l, r := xs[..h], xs[h..];
      ValuesMergeSorted(l);
      ValuesMergeSorted(r);
      ValuesMerged(MergeSorted(l, Key), MergeSorted(r, Key));
      var vs := Values(xs);
      assert vs[..h] == Values(l) && vs[h..] == Values(r);
    }
  }

  /** A rearrangement of nodes of `ns` holds only nodes of `ns`. */
  lemma PermutedWithin(a: seq<Node>, b: seq<Node>, ns: seq<Node>)
    requires multiset(b) == multiset(a) && forall k :: 0 <= k < |a| ==> a[k] in ns
    ensures forall k :: 0 <= k < |b| ==> b[k] in ns
  {
    forall k | 0 <= k < |b|
      ensures b[k] in ns
    {
      assert b[k] in multiset(b);
      var i :| 0 <= i < |a| && a[i] == b[k];
    }
  }

  /** Rearranging the inner nodes of a chain hung between `a` and `b`
      keeps it apart from any chain `c` it was apart from. */
  lemma PermutedHung(a: Node, xs: seq<Node>, ys: seq<Node>, b: Node, c: seq<Node>)
    requires multiset(ys) == multiset(xs) && Apart([a] + xs + [b], c)
    ensures Apart([a] + ys + [b], c) && Apart(c, [a] + ys + [b])
  {
    var l, r := [a] + xs + [b], [a] + ys + [b];
    forall i, j | 0 <= i < |r| && 0 <= j < |c|
      ensures r[i] != c[j]
    {
      if i == 0 {
        assert r[i] == l[0];
      } else if i == |r| - 1 {
        assert r[i] == l[|l| - 1];
      } else {
        assert r[i] == ys[i - 1] && ys[i - 1] in multiset(ys);
        var k :| 0 <= k < |xs| && xs[k] == ys[i - 1];
        assert r[i] == l[k + 1];
      }
    }
  }

  /** Rearranging the inner nodes of a chain hung between `a` and `b`
      leaves only nodes of the chain. */
  lemma PermutedHungWithin(a: Node, xs: seq<Node>, ys: seq<Node>, b: Node)
    requires multiset(ys) == multiset(xs)
    ensures forall k :: 0 <= k < |ys| + 2 ==> ([a] + ys + [b])[k] in [a] + xs + [b]
  {
    var l, r := [a] + xs + [b], [a] + ys + [b];
    forall k | 0 <= k < |r|
      ensures r[k] in l
    {
      if k == 0 {
        assert r[k] == l[0];
      } else if k == |r| - 1 {
        assert r[k] == l[|l| - 1];
      } else {
        assert r[k] == ys[k - 1] && ys[k - 1] in multiset(ys);
        var i :| 0 <= i < |xs| && xs[i] == ys[k - 1];
        assert r[k] == l[i + 1];
      }
    }
  }

  /** Two chains hung between two pairs of ends share no node when none of
      their parts do. */
  lemma ApartHung(a: Node, xs: seq<Node>, b: Node, c: Node, ys: seq<Node>, d: Node)
    requires Apart(xs, ys) && Apart(xs, [c, d]) && Apart(ys, [a, b]) && Apart([a, b], [c, d])
    ensures Apart([a] + xs + [b], [c] + ys + [d])
  {
    var l, r := [a] + xs + [b], [c] + ys + [d];
    forall i, j | 0 <= i < |l| && 0 <= j < |r|
      ensures l[i] != r[j]
    {
      var x := if i == 0 then a else if i == |l| - 1 then b else xs[i - 1];
      var y := if j == 0 then c else if j == |r| - 1 then d else ys[j - 1];
      assert l[i] == x && r[j] == y;
      if 0 < i < |l| - 1 && 0 < j < |r| - 1 {
        assert x == xs[i - 1] && y == ys[j - 1];
      } else if 0 < i < |l| - 1 {
        assert x == xs[i - 1] && y == [c, d][if j == 0 then 0 else 1];
      } else if 0 < j < |r| - 1 {
        assert y == ys[j - 1] && x == [a, b][if i == 0 then 0 else 1];
      } else {
        assert x == [a, b][if i == 0 then 0 else 1] && y == [c, d][if j == 0 then 0 else 1];
      }
    }
  }

  /** The parts `sort` cuts a chain `[h] + E + [t]` into, hung between the
      sentinels of two other lists, share no node with each other or with
      `h` and `t`. */
  lemma SplitApart(h: Node, E: seq<Node>, t: Node, half: nat, h1: Node, t1: Node, h2: Node, t2: Node)
    requires 1 <= half < |E| && Distinct([h] + E + [t]) && h1 != t1 && h2 != t2
    requires Apart([h] + E + [t], [h1, t1]) && Apart([h] + E + [t], [h2, t2]) && Apart([h1, t1], [h2, t2])
    ensures Distinct([h1] + E[..half] + [t1]) && Distinct([h2] + E[half..] + [t2])
    ensures Apart(E[..half], [h2] + E[half..] + [t2]) && Apart([h1, t1], [h2] + E[half..] + [t2])
    ensures Apart([h2] + E[half..] + [t2], [h1] + E[..half] + [t1])
    ensures Apart([h1] + E[..half] + [t1], [h, t]) && Apart([h2] + E[half..] + [t2], [h, t])
  {
    var N := [h] + E + [t];
    var E1, E2 := E[..half], E[half..];
    assert forall k :: 0 <= k < |E1| ==> E1[k] == N[k + 1];
    assert forall k :: 0 <= k < |E2| ==> E2[k] == N[half + k + 1];
    assert N[0] == h && N[|N| - 1] == t;
    assert forall k :: 0 <= k < |E1| ==> E1[k] != [h1, t1][0] && E1[k] != [h1, t1][1];
    assert forall k :: 0 <= k < |E2| ==> E2[k] != [h2, t2][0] && E2[k] != [h2, t2][1];
    HangDistinct(h1, E1, t1);
    HangDistinct(h2, E2, t2);
    assert Apart(E1, E2);
    assert [h1] + [] + [t1] == [h1, t1] && [h] + [] + [t] == [h, t];
    ApartHung(h2, E2, t2, h1, E1, t1);
    ApartHung(h1, E1, t1, h, [], t);
    ApartHung(h2, E2, t2, h, [], t);
    ApartHung(h1, [], t1, h2, E2, t2);
    var S2 := [h2] + E2 + [t2];
    forall i, j | 0 <= i < |E1| && 0 <= j < |S2|
      ensures E1[i] != S2[j]
    {
      assert E1[i] == ([h1] + E1 + [t1])[i + 1];
    }
  }

  /** The relinking `insert_nodes` does at the end of an empty list with
      sentinels `a` and `b`: the chain `first..last` is hung between them.
      Chains `keep1` and `keep2`, which share no node with the sentinels or
      the chain's ends, stay linked. */
  method HangChain(a: Node, first: Node, last: Node, b: Node, ghost chain: seq<Node>, ghost keep1: seq<Node>, ghost keep2: seq<Node>)
    requires |chain| > 0 && chain[0] == first && chain[|chain| - 1] == last
    requires Linked(chain) && Distinct([a] + chain + [b])
    requires Linked(keep1) && Apart(keep1, [a] + chain + [b])
    requires Linked(keep2) && Apart(keep2, [a] + chain + [b])
    modifies a`next, first`prev, last`next, b`prev
    ensures Linked([a] + chain + [b]) && Linked(keep1) && Linked(keep2)
  {
    ghost var ns := [a] + chain + [b];
    forall i | 1 <= i < |chain|
      ensures ns[i].next == ns[i + 1] && ns[i + 1].prev == ns[i]
    {
      assert ns[i] == chain[i - 1] && ns[i + 1] == chain[i];
    }
    assert ns[0] == a && ns[1] == first && ns[|chain|] == last && ns[|chain| + 1] == b;
    Relink(ns, 0, |chain|, a, first, last, b);
    forall i | 0 <= i < |keep1| - 1
      ensures keep1[i].next == keep1[i + 1] && keep1[i + 1].prev == keep1[i]
    {
      assert keep1[i] != ns[0] && keep1[i] != ns[|chain|];
      assert keep1[i + 1] != ns[|chain| + 1] && keep1[i + 1] != ns[1];
      assert old(keep1[i].next) == keep1[i + 1] && old(keep1[i + 1].prev) == keep1[i];
    }
    forall i | 0 <= i < |keep2| - 1
      ensures keep2[i].next == keep2[i + 1] && keep2[i + 1].prev == keep2[i]
    {
      assert keep2[i] != ns[0] && keep2[i] != ns[|chain|];
      assert keep2[i + 1] != ns[|chain| + 1] && keep2[i + 1] != ns[1];
      assert old(keep2[i].next) == keep2[i + 1] && old(keep2[i + 1].prev) == keep2[i];
    }
  }

  class List {
    const head: Node
    const tail: Node
    var size: nat
    /** The chain from `head` to `tail`, both included. */
    ghost var nodes: seq<Node>

    /** `nodes` runs from `head` to `tail`, linked both ways, with no node
        twice. */
    ghost predicate Chained()
      reads this`nodes, nodes
    {
      && |nodes| >= 2
      && nodes[0] == head
      && nodes[|nodes| - 1] == tail
      && Linked(nodes)
      && Distinct(nodes)
    }

    /** The chain is well formed and `size_` counts its elements. */
    ghost predicate Valid()
      reads this, nodes
    {
      Chained() && size == |nodes| - 2
    }

    /** The element nodes, in order. */
    ghost function Elements(): seq<Node>
      reads this`nodes
    {
      if |nodes| < 2 then [] else nodes[1..|nodes| - 1]
    }

    /** A walk from `head` meets `tail` only at the last place. */
    lemma AtTail(idx: nat)
      requires Chained() && idx < |nodes| && nodes[idx] == tail
      ensures idx == |nodes| - 1 && |Contents()| == idx - 1
    {
    }

    /** The elements of the list, front to back. */
    ghost function Contents(): seq<int>
      reads this`nodes
    {
      Inner(nodes)
    }

    /** `list()`: two sentinels linked to each other and no elements. */
    constructor ()
      ensures Valid() && fresh(head) && fresh(tail)
      ensures size == 0 && Contents() == []
      ensures head.next == tail && tail.prev == head
    {
      head := new Node(0);
      tail := new Node(0);
      size := 0;
      nodes := [];
      new;
      InitEnds(0);
    }

    /** `init_ends(new_size)`: links the sentinels to each other and sets
        `size_` to `new_size`; the list is empty, and consistent, exactly
        when `new_size` is 0. */
    method InitEnds(newSize: nat)
      requires head != tail
      modifies this`size, this`nodes, head`next, tail`prev
      ensures head.next == tail && tail.prev == head
      ensures size == newSize && nodes == [head, tail]
      ensures Valid() <==> newSize == 0
    {
      tail.prev := head;
      head.next := tail;
      size := newSize;
      nodes := [head, tail];
    }

    /** `create_nodes(count, args)`: `count` fresh nodes holding `value`,
        linked to each other; the first one's `prev` is null. With a count of
        0 both ends are null. */
    static method CreateNodes(count: nat, value: int) returns (first: Node?, last: Node?, ghost chain: seq<Node>)
      ensures |chain| == count && Linked(chain) && Distinct(chain)
      ensures forall n :: n in chain ==> fresh(n)
      ensures Values(chain) == Repeat(value, count)
      ensures count == 0 ==> first == null && last == null
      ensures count > 0 ==> first == chain[0] && last == chain[count - 1] && first.prev == null
      ensures count > 0 ==> first != null && fresh(first) && last != null && fresh(last)
    {
      var prev: Node? := null;
      first := null;
      chain := [];
      for i := 0 to count
        invariant |chain| == i && Linked(chain) && Distinct(chain)
        invariant forall n :: n in chain ==> fresh(n)
        invariant Values(chain) == Repeat(value, i)
        invariant i == 0 ==> prev == null && first == null
        invariant i > 0 ==> prev == chain[i - 1] && first == chain[0] && first.prev == null
        invariant prev != null ==> fresh(prev)
        invariant first != null ==> fresh(first)
      {
        var node := new Node(value);
        node.prev := prev;
        if prev != null {
          prev.Connect(node);
        } else {
          first := node;
        }
        prev := node;
        chain := chain + [node];
      }
      last := prev;
    }

    /** `insert_nodes(pos, count, first, last)`: splices the chain
        `first..last` in before `pos` and adds `count` to `size_`. Both
        ends are dereferenced, so the chain must not be empty. */
    method InsertNodes(pos: Node, ghost k: nat, count: nat, first: Node, last: Node, ghost chain: seq<Node>)
      requires Valid() && 1 <= k < |nodes| && nodes[k] == pos
      requires |chain| == count > 0 && chain[0] == first && chain[count - 1] == last
      requires Linked(chain) && Distinct(chain)
      requires forall n :: n in chain ==> n !in nodes
      modifies this`size, this`nodes, pos.prev, pos, first, last
      ensures Valid()
      ensures nodes == old(nodes)[..k] + chain + old(nodes)[k..]
    {
      ghost var before := nodes;
      ghost var left, right := before[..k], before[k..];
      assert before == left + right;
      LinkedSlices(before, k);
      assert pos.prev == before[k - 1];
      var tailNode := pos;
      var headNode := pos.prev;
      DistinctJoin(left, chain, right);
      LinkedExcept(left, chain, right);
      JoinEnds(left, chain, right);
      ghost var ns := left + chain + right;
      Relink(ns, |left| - 1, |left| + |chain| - 1, headNode, first, last, tailNode);
      size := size + count;
      nodes := ns;
    }

    /** `list(count, value)`: `count` copies of `value`. A count of 0 hands a
        null chain to `insert_nodes`, so the count must be positive. */
    constructor Fill(count: nat, value: int)
      requires count > 0
      ensures Valid() && Contents() == Repeat(value, count)
    {
      head := new Node(0);
      tail := new Node(0);
      size := 0;
      nodes := [];
      new;
      InitEnds(0);
      var first, last, chain := CreateNodes(count, value);
      InsertNodes(tail, 1, count, first, last, chain);
      InnerInsert([head, tail], 1, chain);
    }

    /** `list(count)`: `count` value-initialised elements (0 for `int`); the
        same positive count is demanded. */
    constructor Sized(count: nat)
      requires count > 0
      ensures Valid() && Contents() == Repeat(0, count)
    {
      head := new Node(0);
      tail := new Node(0);
      size := 0;
      nodes := [];
      new;
      InitEnds(0);
      var first, last, chain := CreateNodes(count, 0);
      InsertNodes(tail, 1, count, first, last, chain);
      InnerInsert([head, tail], 1, chain);
    }

    /** The copy constructor `list(const list& other)`: a chain of fresh
        nodes with the values of `other` (see `CloneNodes`) handed to
        `insert_nodes`. An empty `other` leaves the chain null, which
        `insert_nodes` dereferences, so `other` must not be empty. */
    constructor Copy(other: List)
      requires other.Valid() && other.size > 0
      ensures Valid() && Contents() == other.Contents()
      ensures fresh(head) && fresh(tail) && forall k :: 0 <= k < |nodes| ==> fresh(nodes[k])
    {
      head := new Node(0);
      tail := new Node(0);
      size := 0;
      nodes := [];
      new;
      InitEnds(0);
      assert forall k :: 0 <= k < |other.nodes| ==> other.nodes[k] != head && other.nodes[k] != tail;
      ghost var chain := AppendClones(other);
      forall k | 0 <= k < |nodes|
        ensures fresh(nodes[k])
      {
        if 0 < k < |nodes| - 1 {
          assert nodes[k] == chain[k - 1];
        }
      }
    }

    /** The body of the copy constructor after `init_ends`: the clones of
        `other`'s elements are handed to `insert_nodes` at the end. */
    method AppendClones(other: List) returns (ghost chain: seq<Node>)
      requires Valid() && size == 0 && nodes == [head, tail] && other.Valid() && other.size > 0
      requires forall k :: 0 <= k < |other.nodes| ==> other.nodes[k] != head && other.nodes[k] != tail
      modifies this`size, this`nodes, head, tail
      ensures Valid() && Contents() == other.Contents()
      ensures nodes == [head] + chain + [tail]
      ensures forall k :: 0 <= k < |chain| ==> fresh(chain[k])
    {
      assert other.nodes[0] != head;
      var first, last;
      first, last, chain := CloneNodes(other);
      assert forall k :: 0 <= k < |chain| ==> chain[k] != head && chain[k] != tail;
      HangClones(first, last, other.size, chain);
    }

    /** `insert_nodes(end(), ...)` on an empty list: the chain `first..last`
        becomes the list's elements. */
    method HangClones(first: Node, last: Node, count: nat, ghost chain: seq<Node>)
      requires Valid() && nodes == [head, tail]
      requires |chain| == count > 0 && chain[0] == first && chain[|chain| - 1] == last
      requires Linked(chain) && Distinct(chain)
      requires forall k :: 0 <= k < |chain| ==> chain[k] != head && chain[k] != tail
      modifies this`size, this`nodes, head, tail, first, last
      ensures Valid() && nodes == [head] + chain + [tail]
      ensures Contents() == Values(chain)
    {
      InsertNodes(tail, 1, count, first, last, chain);
      assert nodes == [head] + chain + [tail];
      HungContents(chain);
    }

    /** The loop of the copy constructor: walks `other` from front to back,
        linking one fresh node with the same value after another; the first
        one's `prev` is null. With no elements both ends are null. */
    static method CloneNodes(other: List) returns (first: Node?, last: Node?, ghost chain: seq<Node>)
      requires other.Valid()
      ensures |chain| == other.size && Linked(chain) && Distinct(chain)
      ensures forall k :: 0 <= k < |chain| ==> fresh(chain[k])
      ensures Values(chain) == other.Contents()
      ensures other.size == 0 ==> first == null && last == null
      ensures other.size > 0 ==> first == chain[0] && last == chain[other.size - 1]
    {
      var prevNode: Node? := null;
      first := null;
      chain := [];
      assert other.head.next == other.nodes[1];
      var node := other.head.next;
      ghost var i := 1;
      while node != other.tail
        invariant 1 <= i < |other.nodes| && node == other.nodes[i]
        invariant |chain| == i - 1 && Linked(chain) && Distinct(chain)
        invariant forall k :: 0 <= k < |chain| ==> fresh(chain[k])
        invariant forall k :: 0 <= k < |chain| ==> chain[k].value == other.nodes[k + 1].value
        invariant chain == [] ==> prevNode == null && first == null
        invariant chain != [] ==> prevNode == chain[|chain| - 1] && first == chain[0]
        decreases |other.nodes| - i
      {
        var newNode := new Node(node.value);
        newNode.prev := prevNode;
        if prevNode != null {
          prevNode.Connect(newNode);
        } else {
          first := newNode;
        }
        prevNode := newNode;
        chain := chain + [newNode];
        assert node.next == other.nodes[i + 1];
        node := node.next;
        i := i + 1;
      }
      last := prevNode;
      forall k | 0 <= k < |chain|
        ensures Values(chain)[k] == other.Contents()[k]
      {
        other.ValueAt(k + 1);
      }
    }

    /** The move constructor `list(list&& other)`: see `TakeOver`. */
    constructor Move(other: List)
      requires other.Valid()
      modifies other, other.nodes
      ensures Valid() && nodes == [head] + old(other.Elements()) + [tail]
      ensures Contents() == old(other.Contents())
      ensures other.Valid() && other.nodes == [other.head, other.tail] && other.Contents() == []
    {
      head := new Node(0);
      tail := new Node(0);
      size := 0;
      nodes := [];
      new;
      ghost var chain := other.Elements();
      assert forall k :: 0 <= k < |other.nodes| ==> other.nodes[k] != head && other.nodes[k] != tail;
      TakeOver(other, chain);
      HungContents(chain);
    }

    /** The body of the move constructor: `size_` is taken from `other`,
        the first and last elements of `other` (`chain`) are pointed at this
        list's sentinels and the sentinels at them, and `other` is reset to
        empty. When `other` is empty the four link assignments pass through
        `other`'s own `tail` and leave this list's sentinels linked to each
        other. */
    method TakeOver(other: List, ghost chain: seq<Node>)
      requires other.Valid() && chain == other.Elements() && head != tail
      requires forall k :: 0 <= k < |other.nodes| ==> other.nodes[k] != head && other.nodes[k] != tail
      modifies this`size, this`nodes, head`next, tail`prev, other`size, other`nodes, other.nodes
      ensures Valid() && nodes == [head] + chain + [tail]
      ensures other.Valid() && other.nodes == [other.head, other.tail]
    {
      other.Hanging();
      assert other.nodes[0] == other.head && other.nodes[|other.nodes| - 1] == other.tail;
      assert forall k :: 0 <= k < |chain| ==> chain[k] == other.nodes[k + 1];
      InitEnds(other.size);
      nodes := [head] + chain + [tail];
      other.head.next.prev := head;
      head.next := other.head.next;
      other.tail.prev.next := tail;
      tail.prev := other.tail.prev;
      other.InitEnds(0);
      forall i, j | 0 <= i && j == i + 1 < |chain|
        ensures chain[i].next == chain[j] && chain[j].prev == chain[i]
      {
        assert chain[i] != chain[|chain| - 1] && chain[j] != chain[0];
      }
      if |chain| > 0 {
        LinkedJoin([head], chain, [tail]);
      }
      HangDistinct(head, chain, tail);
    }

    /** `front()`: the first element. */
    function Front(): (v: int)
      reads this, nodes
      requires Valid() && size > 0
      ensures v == Contents()[0]
    {
      assert nodes[0].next == nodes[1];
      head.next.value
    }

    /** `back()`: the last element. */
    function Back(): (v: int)
      reads this, nodes
      requires Valid() && size > 0
      ensures v == Contents()[|Contents()| - 1]
    {
      assert nodes[|nodes| - 1].prev == nodes[|nodes| - 2];
      tail.prev.value
    }

    /** `empty()`. */
    function Empty(): (b: bool)
      reads this, nodes
      requires Valid()
      ensures b <==> Contents() == []
    {
      size == 0
    }

    /** `size()`. */
    function Size(): (n: nat)
      reads this, nodes
      requires Valid()
      ensures n == |Contents()|
    {
      size
    }

    /** `max_size()`: returns `size_`, not a capacity bound. */
    function MaxSize(): (n: nat)
      reads this, nodes
      requires Valid()
      ensures n == |Contents()|
    {
      size
    }

    /** `clear()`: the sentinels are linked to each other again. The loop
        that frees the nodes one by one changes no link that is still
        reachable and is not modelled. */
    method Clear()
      requires Valid()
      modifies this, nodes
      ensures Valid() && Contents() == [] && nodes == [head, tail]
    {
      InitEnds(0);
    }

    /** `insert(pos, value)`: a new node holding `value` before `pos` (node
        `k` of the chain); returns it. */
    method Insert(pos: Node, ghost k: nat, value: int) returns (it: Node)
      requires Valid() && 1 <= k < |nodes| && nodes[k] == pos
      modifies this, nodes
      ensures nodes == old(nodes)[..k] + [it] + old(nodes)[k..]
      ensures Valid() && fresh(it)
      ensures Contents() == old(Contents())[..k - 1] + [value] + old(Contents())[k - 1..]
    {
      assert pos.prev == nodes[k - 1];
      var first, last, chain := CreateNodes(1, value);
      InsertNodes(pos, k, 1, first, last, chain);
      InnerInsert(old(nodes), k, chain);
      it := first;
    }

    /** `insert(pos, count, value)`: `count` copies of `value` before `pos`;
        returns the first new node. A count of 0 hands a null chain to
        `insert_nodes`, so the count must be positive. */
    method InsertCount(pos: Node, ghost k: nat, count: nat, value: int) returns (it: Node)
      requires Valid() && 1 <= k < |nodes| && nodes[k] == pos
      requires count > 0
      modifies this, nodes
      ensures Valid() && fresh(it) && k < |nodes| && it == nodes[k]
      ensures Contents() == old(Contents())[..k - 1] + Repeat(value, count) + old(Contents())[k - 1..]
    {
      assert pos.prev == nodes[k - 1];
      var first, last, chain := CreateNodes(count, value);
      InsertNodes(pos, k, count, first, last, chain);
      InnerInsert(old(nodes), k, chain);
      it := first;
    }

    /** `erase(pos)`: unlinks node `k`, an element, and returns its
        successor. */
    method Erase(pos: Node, ghost k: nat) returns (it: Node)
      requires Valid() && 1 <= k < |nodes| - 1 && nodes[k] == pos
      modifies this, pos.prev, pos.next
      ensures nodes == old(nodes)[..k] + old(nodes)[k + 1..]
      ensures Valid() && it == nodes[k] && it == old(nodes)[k + 1]
      ensures Contents() == old(Contents())[..k - 1] + old(Contents())[k..]
    {
      ghost var before := nodes;
      var node := pos;
      var next, prev := node.next, node.prev;
      LinkedCut(before, k, k + 1);
      ghost var ns := before[..k] + before[k + 1..];
      assert ns[k - 1] == prev && ns[k] == next;
      Bridge(ns, k - 1, prev, next);
      size := size - 1;
      nodes := ns;
      InnerCut(before, k, k + 1);
      it := next;
    }

    /** `erase(first, last)`: erases node after node from `first` (node `i`)
        up to `last` (node `j`), and returns `last`. */
    method EraseRange(first: Node, ghost i: nat, last: Node, ghost j: nat) returns (it: Node)
      requires Valid() && 1 <= i <= j < |nodes| && nodes[i] == first && nodes[j] == last
      modifies this, nodes
      ensures Valid() && it == last
      ensures nodes == old(nodes)[..i] + old(nodes)[j..]
      ensures Contents() == old(Contents())[..i - 1] + old(Contents())[j - 1..]
    {
      ghost var before := nodes;
      EraseWalk(first, i, last, j);
      InnerCut(before, i, j);
      it := last;
    }

    /** The loop of `erase(first, last)`: the nodes from `first` up to
        `last` are erased one at a time. */
    method EraseWalk(first: Node, ghost i: nat, last: Node, ghost j: nat)
      requires Valid() && 1 <= i <= j < |nodes| && nodes[i] == first && nodes[j] == last
      modifies this, nodes
      ensures Valid() && nodes == old(nodes)[..i] + old(nodes)[j..]
    {
      ghost var before := nodes;
      assert Distinct(before);
      var cursor := first;
      ghost var removed := 0;
      while cursor != last
        invariant 0 <= removed <= j - i
        invariant Valid() && nodes == before[..i] + before[i + removed..]
        invariant cursor == before[i + removed] && last == before[j]
        decreases j - i - removed
      {
        assert i + removed < j < |before|;
        cursor := EraseStep(cursor, i, before, removed);
        removed := removed + 1;
      }
      assert before[i + removed] == before[j] && i + removed == j;
    }

    /** The step of the loop of `erase(first, last)`: the node at `cursor`,
        the `removed`-th of the range, is erased and the cursor moves on to
        the next node. */
    method EraseStep(cursor: Node, ghost i: nat, ghost before: seq<Node>, ghost removed: nat) returns (next: Node)
      requires Valid() && 1 <= i && i + removed + 1 < |before|
      requires nodes == before[..i] + before[i + removed..] && cursor == before[i + removed]
      modifies this, before
      ensures Valid() && nodes == before[..i] + before[i + removed + 1..] && next == before[i + removed + 1]
    {
      CutAt(before, i, removed);
      var current := cursor;
      next := cursor.next;
      assert current.prev == nodes[i - 1] == before[i - 1] && next == nodes[i + 1];
      var _ := Erase(current, i);
    }

    /** `resize(count)`: appends `count - size` value-initialised elements
        (0 for `int`), or walks to node `count + 1`, cuts the chain after
        node `count` and relinks it to `tail`. */
    method Resize(count: nat)
      requires Valid()
      modifies this, nodes
      ensures Valid() && size == count
      ensures count <= |old(Contents())| ==> Contents() == old(Contents())[..count]
      ensures count > |old(Contents())| ==> Contents() == old(Contents()) + Repeat(0, count - |old(Contents())|)
    {
      ghost var before := nodes;
      if count > size {
        var first, last, chain := CreateNodes(count - size, 0);
        assert tail.prev == nodes[|nodes| - 2];
        InsertNodes(tail, |nodes| - 1, count - size, first, last, chain);
        GrownContents(before, chain);
      } else if count < size {
        Truncate(count);
      }
      size := count;
    }

    /** The shrinking branch of `resize`: walks to node `count + 1`, and
        links the node before it, the last one kept, to `tail`. The nodes
        cut off are released in the source; here they are simply no longer
        part of the chain. `size_` is left for the caller to set. */
    method Truncate(count: nat)
      requires Valid() && count < size
      modifies this`nodes, nodes[count], tail
      ensures Chained() && nodes == old(nodes)[..count + 1] + [tail]
      ensures Contents() == old(Contents())[..count]
    {
      ghost var before := nodes;
      var node := Walk(count + 1);
      assert node.prev == nodes[count];
      var nodeLast := node.prev;
      LinkedCut(before, count + 1, |before| - 1);
      ghost var ns := before[..count + 1] + before[|before| - 1..];
      assert ns[count] == nodeLast && ns[count + 1] == tail;
      nodes := ns;
      Bridge(ns, count, nodeLast, tail);
      ShrunkContents(before, count);
    }

    /** `std::advance` from `head`: the node `steps` links along the
        chain. */
    method Walk(steps: nat) returns (node: Node)
      requires Valid() && steps < |nodes|
      ensures node == nodes[steps]
    {
      node := head;
      for i := 0 to steps
        invariant node == nodes[i]
      {
        assert node.next == nodes[i + 1];
        node := node.next;
      }
    }

    /** The element nodes form a chain of their own, hung between the
        sentinels. */
    lemma Parts()
      requires Valid()
      ensures nodes == [head] + Elements() + [tail] && |Elements()| == size
      ensures Linked(Elements()) && Distinct(Elements()) && head != tail
      ensures head !in Elements() && tail !in Elements()
      ensures size > 0 ==> head.next == Elements()[0] && tail.prev == Elements()[size - 1]
      ensures size == 0 ==> head.next == tail && tail.prev == head
      ensures Contents() == Values(Elements())
    {
      LinkedSlices(nodes, 1);
      LinkedSlices(nodes[1..], |nodes| - 2);
      assert nodes == [head] + Elements() + [tail];
      HungContents(Elements());
    }

    /** The element nodes, by index: a chain of their own, hung between the
        sentinels and apart from them. */
    lemma Hanging()
      requires Valid()
      ensures |Elements()| == size && head != tail
      ensures Linked(Elements()) && Distinct(Elements())
      ensures forall k :: 0 <= k < size ==> Elements()[k] != head && Elements()[k] != tail
      ensures size > 0 ==> head.next == Elements()[0] && tail.prev == Elements()[size - 1]
      ensures size == 0 ==> head.next == tail && tail.prev == head
    {
      LinkedSlices(nodes, 1);
      LinkedSlices(nodes[1..], |nodes| - 2);
      assert nodes[1..][..|nodes| - 2] == Elements();
      forall k | 0 <= k < size
        ensures Elements()[k] != head && Elements()[k] != tail
      {
        assert Elements()[k] == nodes[k + 1];
      }
    }

    /** One side of `swap` once the sentinels' links are exchanged: for a
        side that held `count == 0` elements the sentinels are linked to each
        other, and otherwise the two `connect` calls hook the chain, whose
        ends the sentinels' links already name, back onto them. A chain
        `keep` sharing no node with this side stays linked. */
    method Rehang(count: nat, ghost chain: seq<Node>, ghost keep: seq<Node>)
      requires |chain| == count && Linked(chain) && Distinct([head] + chain + [tail])
      requires count > 0 ==> head.next == chain[0] && tail.prev == chain[count - 1]
      requires Linked(keep) && Apart(keep, [head] + chain + [tail])
      modifies this`size, this`nodes, head`next, tail`prev
      modifies FirstOr(head, chain)`prev, LastOr(tail, chain)`next
      ensures nodes == [head] + chain + [tail]
      ensures Linked(nodes) && Linked(keep)
    {
      ghost var ns := [head] + chain + [tail];
      assert head == ns[0] && tail == ns[count + 1];
      assert count > 0 ==> ns[1] == chain[0] && ns[count] == chain[count - 1];
      if count == 0 {
        InitEnds(0);
      } else {
        LinkedExcept([head], chain, [tail]);
        Relink(ns, 0, count, head, head.next, tail.prev, tail);
        nodes := ns;
      }
      forall i | 0 <= i < |keep| - 1
        ensures keep[i].next == keep[i + 1] && keep[i + 1].prev == keep[i]
      {
        assert old(keep[i].next) == keep[i + 1] && old(keep[i + 1].prev) == keep[i];
      }
    }

    /** The `std::swap` of the two lists' sentinels: every link field of
        `head` and `tail` trades places with the one of `other`'s. The
        chains hanging off them are untouched. */
    method ExchangeEnds(other: List, ghost mine: seq<Node>, ghost theirs: seq<Node>)
      requires Linked(mine) && Linked(theirs) && head != tail && other.head != other.tail
      requires head != other.head && head != other.tail && tail != other.head && tail != other.tail
      requires forall i :: 0 <= i < |mine| ==> mine[i] !in {head, tail, other.head, other.tail}
      requires forall i :: 0 <= i < |theirs| ==> theirs[i] !in {head, tail, other.head, other.tail}
      modifies head, tail, other.head, other.tail
      ensures head.prev == old(other.head.prev) && other.head.prev == old(head.prev)
      ensures head.next == old(other.head.next) && other.head.next == old(head.next)
      ensures tail.prev == old(other.tail.prev) && other.tail.prev == old(tail.prev)
      ensures tail.next == old(other.tail.next) && other.tail.next == old(tail.next)
      ensures Linked(mine) && Linked(theirs)
    {
      head.prev, other.head.prev := other.head.prev, head.prev;
      head.next, other.head.next := other.head.next, head.next;
      tail.prev, other.tail.prev := other.tail.prev, tail.prev;
      tail.next, other.tail.next := other.tail.next, tail.next;
      forall i | 0 <= i < |mine| - 1
        ensures mine[i].next == mine[i + 1] && mine[i + 1].prev == mine[i]
      {
        assert old(mine[i].next) == mine[i + 1] && old(mine[i + 1].prev) == mine[i];
      }
      forall i | 0 <= i < |theirs| - 1
        ensures theirs[i].next == theirs[i + 1] && theirs[i + 1].prev == theirs[i]
      {
        assert old(theirs[i].next) == theirs[i + 1] && old(theirs[i + 1].prev) == theirs[i];
      }
    }

    /** What `swap` relies on about two lists with no node in common: each
        chain of elements, hung between the other list's sentinels, has no
        repeats and shares nothing with the other new chain. */
    lemma SwapReady(other: List)
      requires Valid() && other.Valid() && Apart(nodes, other.nodes)
      ensures nodes == [head] + Elements() + [tail] && other.nodes == [other.head] + other.Elements() + [other.tail]
      ensures |Elements()| == size && |other.Elements()| == other.size
      ensures Linked(Elements()) && Linked(other.Elements())
      ensures size > 0 ==> head.next == Elements()[0] && tail.prev == Elements()[size - 1]
      ensures other.size > 0 ==> other.head.next == other.Elements()[0] && other.tail.prev == other.Elements()[other.size - 1]
      ensures size == 0 ==> head.next == tail && tail.prev == head
      ensures other.size == 0 ==> other.head.next == other.tail && other.tail.prev == other.head
      ensures Contents() == Values(Elements()) && other.Contents() == Values(other.Elements())
      ensures head != tail && other.head != other.tail
      ensures head != other.head && head != other.tail && tail != other.head && tail != other.tail
      ensures Distinct([other.head] + Elements() + [other.tail])
      ensures Distinct([head] + other.Elements() + [tail])
      ensures forall i :: 0 <= i < size ==> Elements()[i] !in {head, tail, other.head, other.tail}
      ensures forall i :: 0 <= i < other.size ==> other.Elements()[i] !in {head, tail, other.head, other.tail}
      ensures Apart(other.Elements(), [other.head] + Elements() + [other.tail])
      ensures Apart([other.head] + Elements() + [other.tail], [head] + other.Elements() + [tail])
    {
      Parts();
      other.Parts();
      CrossHung(nodes, other.nodes);
      forall i | 0 <= i < size
        ensures Elements()[i] !in {head, tail, other.head, other.tail}
      {
        assert Elements()[i] == nodes[i + 1];
      }
      forall i | 0 <= i < other.size
        ensures other.Elements()[i] !in {head, tail, other.head, other.tail}
      {
        assert other.Elements()[i] == other.nodes[i + 1];
      }
    }

    /** A list whose chain is `chain` hung between its sentinels holds the
        values of `chain`. */
    lemma HungContents(chain: seq<Node>)
      requires nodes == [head] + chain + [tail]
      ensures Contents() == Values(chain)
    {
      InnerEnclosed(head, chain, tail);
    }

    /** What `splice` relies on about a list `other` with no node in
        common with this one: its elements form a chain that shares no node
        with this list, and neither of its sentinels is among them. */
    lemma SpliceReady(other: List)
      requires Valid() && other.Valid() && Apart(nodes, other.nodes)
      ensures |other.Elements()| == other.size
      ensures Linked(other.Elements()) && Distinct(other.Elements())
      ensures other.size > 0 ==> other.head.next == other.Elements()[0] && other.tail.prev == other.Elements()[other.size - 1]
      ensures other.Contents() == Values(other.Elements()) && other.head != other.tail
      ensures forall n :: n in other.Elements() ==> n !in nodes
      ensures other.head !in nodes && other.tail !in nodes
      ensures other.head !in other.Elements() && other.tail !in other.Elements()
    {
      other.Parts();
      assert other.nodes[0] == other.head && other.nodes[|other.nodes| - 1] == other.tail;
      forall n | n in other.Elements()
        ensures n !in nodes
      {
        var i :| 0 <= i < |other.Elements()| && other.Elements()[i] == n;
        assert n == other.nodes[i + 1];
      }
    }

    /** A chain spliced in before node `k` puts its values before element
        `k - 1`. */
    lemma InsertedContents(before: seq<Node>, k: nat, chain: seq<Node>)
      requires 1 <= k < |before| && nodes == before[..k] + chain + before[k..]
      ensures Contents() == Inner(before)[..k - 1] + Values(chain) + Inner(before)[k - 1..]
    {
      InnerInsert(before, k, chain);
    }

    /** A chain spliced in before `tail` appends its values. */
    lemma GrownContents(before: seq<Node>, chain: seq<Node>)
      requires |before| >= 2 && nodes == before[..|before| - 1] + chain + before[|before| - 1..]
      ensures Contents() == Inner(before) + Values(chain)
    {
      InnerInsert(before, |before| - 1, chain);
      assert Inner(before)[..|before| - 2] == Inner(before);
    }

    /** Keeping the first `count + 1` nodes and `tail` keeps the first
        `count` values. */
    lemma ShrunkContents(before: seq<Node>, count: nat)
      requires count + 2 <= |before| && nodes == before[..count + 1] + before[|before| - 1..]
      ensures Contents() == Inner(before)[..count]
    {
      InnerCut(before, count + 1, |before| - 1);
    }

    /** The relinking half of `swap` for two lists not both empty: the
        sentinels' links are exchanged and each side is hung back on its new
        chain, the test on each side being the size that side had on
        entry. */
    method ExchangeChains(other: List, n: nat, m: nat)
      requires Valid() && other.Valid() && other != this
      requires Apart(nodes, other.nodes) && n == size && m == other.size
      modifies this`size, this`nodes, other`size, other`nodes, nodes, other.nodes
      ensures nodes == [head] + old(other.Elements()) + [tail] && Chained()
      ensures other.nodes == [other.head] + old(Elements()) + [other.tail] && other.Chained()
      ensures Contents() == old(other.Contents()) && other.Contents() == old(Contents())
    {
      ghost var mine, theirs := HandOver(other, n, m);
      ghost var hung := other.nodes;
      HangOn(m, theirs, hung);
    }

    /** The first half of the exchange: the sentinels trade their links and
        `other` hangs on the elements this list had, leaving this list's
        sentinels pointing at the ends of `other`'s former elements. */
    method HandOver(other: List, n: nat, m: nat) returns (ghost mine: seq<Node>, ghost theirs: seq<Node>)
      requires Valid() && other.Valid() && other != this
      requires Apart(nodes, other.nodes) && n == size && m == other.size
      modifies other`size, other`nodes, head, tail, other.head, other.tail
      modifies FirstOr(other.head, Elements())`prev, LastOr(other.tail, Elements())`next
      ensures mine == old(Elements()) && theirs == old(other.Elements())
      ensures other.nodes == [other.head] + mine + [other.tail] && other.Chained()
      ensures other.Contents() == old(Contents()) && Values(theirs) == old(other.Contents())
      ensures |theirs| == m && Linked(theirs) && Distinct([head] + theirs + [tail])
      ensures m > 0 ==> head.next == theirs[0] && tail.prev == theirs[m - 1]
      ensures Apart(other.nodes, [head] + theirs + [tail])
    {
      mine, theirs := Elements(), other.Elements();
      ghost var ours, others := Contents(), other.Contents();
      SwapReady(other);
      assert ours == Values(mine) && others == Values(theirs);
      ExchangeEnds(other, mine, theirs);
      other.HangOn(n, mine, theirs);
    }

    /** `init_ends` after the sentinels' links were exchanged: the list
        hangs on the chain its sentinels now point to, and a chain `keep`
        apart from it stays linked. */
    method HangOn(count: nat, ghost chain: seq<Node>, ghost keep: seq<Node>)
      requires |chain| == count && Linked(chain) && Distinct([head] + chain + [tail])
      requires count > 0 ==> head.next == chain[0] && tail.prev == chain[count - 1]
      requires Linked(keep) && Apart(keep, [head] + chain + [tail])
      modifies this`size, this`nodes, head`next, tail`prev
      modifies FirstOr(head, chain)`prev, LastOr(tail, chain)`next
      ensures nodes == [head] + chain + [tail] && Chained()
      ensures Contents() == Values(chain) && Linked(keep)
    {
      Rehang(count, chain, keep);
      HungContents(chain);
      JoinEnds([head], chain, [tail]);
    }

    /** `swap(other)`: exchanges the two chains (see `ExchangeChains`) unless
        both lists are empty, then exchanges the sizes. Swapping a list with
        itself changes nothing: every step then trades a field with itself.
        The sizes exchanged are those the lists had on entry; the source
        reads `other.size_` after `init_ends` has reset it, which
        `SwapAsWritten` models. */
    method Swap(other: List)
      requires Valid() && other.Valid()
      requires other != this ==> Apart(nodes, other.nodes)
      modifies this, nodes, other, other.nodes
      ensures Valid() && other.Valid()
      ensures nodes == [head] + old(other.Elements()) + [tail]
      ensures other.nodes == [other.head] + old(Elements()) + [other.tail]
      ensures Contents() == old(other.Contents()) && other.Contents() == old(Contents())
    {
      if other == this {
        Parts();
        return;
      }
      var n, m := size, other.size;
      if n != 0 || m != 0 {
        ExchangeChains(other, n, m);
      } else {
        assert nodes == [head, tail] && other.nodes == [other.head, other.tail];
      }
      SetSizes(other, m, n);
    }

    /** The closing `std::swap(size_, other.size_)` of `swap`, given the
        sizes the two lists had on entry: each list takes the size of the
        chain it now holds. */
    method SetSizes(other: List, count: nat, otherCount: nat)
      requires other != this && Chained() && other.Chained()
      requires count == |nodes| - 2 && otherCount == |other.nodes| - 2
      modifies this`size, other`size
      ensures Valid() && other.Valid()
      ensures size == count && other.size == otherCount
    {
      size, other.size := count, otherCount;
    }

    /** Copy assignment `operator=(const list& other)`: nothing for a
        self-assignment; otherwise a copy of `other` is built and swapped
        with this list by the corrected `Swap` (the source's swap leaves an
        empty target with size 0: `CopyAssignAsWritten`). The copy
        constructor demands a non-empty `other`. */
    method CopyAssign(other: List)
      requires Valid() && other.Valid()
      requires other != this ==> other.size > 0 && Apart(nodes, other.nodes)
      modifies this, nodes
      ensures Valid() && Contents() == old(other.Contents())
      ensures other.Valid() && other.Contents() == old(other.Contents())
    {
      if this == other {
        return;
      }
      var temp := new List.Copy(other);
      temp.Swap(this);
    }

    /** Move assignment `operator=(list&& other)`: nothing for a
        self-assignment; otherwise this list is cleared and swapped with
        `other` by the corrected `Swap`, and `other` is left empty (the
        source's swap leaves this list with size 0: `MoveAssignAsWritten`). */
    method MoveAssign(other: List)
      requires Valid() && other.Valid()
      requires other != this ==> Apart(nodes, other.nodes)
      modifies this, nodes, other, other.nodes
      ensures Valid() && Contents() == old(other.Contents())
      ensures other != this ==> other.Valid() && other.Contents() == []
    {
      if this == other {
        return;
      }
      Clear();
      other.Swap(this);
    }

    /** `splice(pos, other)`: moves every node of `other`, in order, before
        `pos` (node `k`) and leaves `other` empty; nothing happens when
        `other` is empty. */
    method Splice(pos: Node, ghost k: nat, other: List)
      requires Valid() && other.Valid() && other != this
      requires 1 <= k < |nodes| && nodes[k] == pos
      requires Apart(nodes, other.nodes)
      modifies this, nodes, other, other.nodes
      ensures Valid() && other.Valid()
      ensures nodes == old(nodes)[..k] + old(other.Elements()) + old(nodes)[k..]
      ensures other.nodes == [other.head, other.tail]
      ensures Contents() == old(Contents())[..k - 1] + old(other.Contents()) + old(Contents())[k - 1..]
      ensures other.Contents() == []
    {
      ghost var before, chain := nodes, other.Elements();
      ghost var ours, theirs := Contents(), other.Contents();
      SpliceReady(other);
      if other.Empty() {
        assert before == before[..k] + chain + before[k..];
        InsertedContents(before, k, chain);
        return;
      }
      assert pos.prev == nodes[k - 1];
      InsertNodes(pos, k, other.size, other.head.next, other.tail.prev, chain);
      assert other.head !in nodes && other.tail !in nodes;
      other.InitEnds(0);
      InsertedContents(before, k, chain);
    }

    /** Element `i - 1` of the list is the value of node `i`. */
    lemma ValueAt(i: nat)
      requires Valid() && 1 <= i < |nodes| - 1
      ensures |Contents()| == |nodes| - 2 && Contents()[i - 1] == nodes[i].value
    {
    }

    /** One pass of the loops of `remove` and `unique`: `it`, node `idx`,
        holds the next value `xs[p]` of a walk that has so far left `done`
        in front of it; the node is erased when `drop` holds and stepped
        over otherwise. Returns the node the walk goes on with. */
    method EraseOrSkip(it: Node, drop: bool, ghost idx: nat, ghost xs: seq<int>, ghost p: nat, ghost done: seq<int>)
      returns (next: Node, ghost idx': nat, ghost done': seq<int>)
      requires Valid() && 1 <= idx < |nodes| - 1 && it == nodes[idx]
      requires p <= |xs| && Contents() == done + xs[p..] && |done| == idx - 1
      modifies this, it.prev, it.next
      ensures Valid() && p < |xs| && it.value == xs[p]
      ensures 1 <= idx' < |nodes| && next == nodes[idx']
      ensures nodes[idx' - 1] == (if drop then old(nodes)[idx - 1] else it)
      ensures Contents() == done' + xs[p + 1..] && |done'| == idx' - 1
      ensures done' == done + (if drop then [] else [xs[p]])
      ensures forall n :: n in nodes ==> n in old(nodes)
    {
      ValueAt(idx);
      WalkStep(done, xs, p);
      if drop {
        assert it.prev == nodes[idx - 1] && it.next == nodes[idx + 1];
        next := Erase(it, idx);
        idx', done' := idx, done;
      } else {
        assert it.next == nodes[idx + 1];
        next := it.next;
        idx', done' := idx + 1, done + [xs[p]];
      }
    }

    /** `remove(value)`: walks the list once, erasing every node that holds
        `value` and stepping over the others. */
    method Remove(value: int)
      requires Valid()
      modifies this, nodes
      ensures Valid() && Contents() == Filtered(old(Contents()), value)
    {
      ghost var xs := Contents();
      assert head.next == nodes[1];
      var it := head.next;
      ghost var p, idx, done := 0, 1, [];
      assert xs[..0] == [] && xs[0..] == xs;
      while it != tail
        invariant Valid() && 0 <= p <= |xs| && 1 <= idx < |nodes| && it == nodes[idx]
        invariant Contents() == done + xs[p..] && |done| == idx - 1
        invariant done == Filtered(xs[..p], value)
        invariant forall k :: 0 <= k < |nodes| ==> nodes[k] in old(nodes)
        decreases |xs| - p
      {
        it, idx, done := RemoveStep(it, value, idx, xs, p, done);
        p := p + 1;
      }
      AtTail(idx);
      WalkDone(done, xs, p);
    }

    /** One step of `remove`: erases `it` when it holds `value` and steps
        over it otherwise, so that the values walked past stay the filtered
        prefix. */
    method RemoveStep(it: Node, value: int, ghost idx: nat, ghost xs: seq<int>, ghost p: nat, ghost done: seq<int>)
      returns (next: Node, ghost idx': nat, ghost done': seq<int>)
      requires Valid() && 1 <= idx < |nodes| && it == nodes[idx] && it != tail
      requires p <= |xs| && Contents() == done + xs[p..] && |done| == idx - 1
      requires done == Filtered(xs[..p], value)
      modifies this, nodes
      ensures Valid() && p < |xs| && 1 <= idx' < |nodes| && next == nodes[idx']
      ensures Contents() == done' + xs[p + 1..] && |done'| == idx' - 1
      ensures done' == Filtered(xs[..p + 1], value)
      ensures forall k :: 0 <= k < |nodes| ==> nodes[k] in old(nodes)
    {
      assert idx < |nodes| - 1;
      assert it.prev == nodes[idx - 1] && it.next == nodes[idx + 1];
      var drop := it.value == value;
      next, idx', done' := EraseOrSkip(it, drop, idx, xs, p, done);
      FilterStep(xs, p, value);
    }

    /** `unique()`: with at least two elements, walks the list with the last
        node kept, erasing each node whose value equals that node's and
        keeping the others. */
    method Unique()
      requires Valid()
      modifies this, nodes
      ensures Valid() && Contents() == Dedup(old(Contents()))
    {
      ghost var xs := Contents();
      if size < 2 {
        return;
      }
      assert head.next == nodes[1] && nodes[1].next == nodes[2];
      var prevIt := head.next;
      var it := prevIt.next;
      ghost var p, idx, done := 1, 2, [xs[0]];
      ValueAt(1);
      assert xs[..1] == [xs[0]] && xs == [xs[0]] + xs[1..];
      while it != tail
        invariant Valid() && 1 <= p <= |xs| && 2 <= idx < |nodes| && it == nodes[idx]
        invariant prevIt == nodes[idx - 1] && prevIt.value == xs[p - 1]
        invariant Contents() == done + xs[p..] && |done| == idx - 1
        invariant done == Dedup(xs[..p])
        invariant forall n :: n in nodes ==> n in old(nodes)
        decreases |xs| - p
      {
        assert idx < |nodes| - 1;
        assert it.prev == nodes[idx - 1] && it.next == nodes[idx + 1];
        assert it.prev in nodes && it.next in nodes;
        var drop := it.value == prevIt.value;
        if !drop {
          prevIt := it;
        }
        it, idx, done := EraseOrSkip(it, drop, idx, xs, p, done);
        DedupStep(xs, p);
        p := p + 1;
      }
      assert xs[..p] == xs;
    }

    /** `reverse()`: with at least two elements, walks the chain exchanging
        each element's two links, moving on through the exchanged `prev`
        (the old `next`), and then reconnects `head` to the old last element
        and the old first element to `tail`. */
    method Reverse()
      requires Valid()
      modifies this, nodes
      ensures Valid() && nodes == Turned(old(nodes))
      ensures Contents() == Reversed(old(Contents()))
    {
      ghost var chain := nodes;
      TurnedInner(chain);
      if size < 2 {
        assert Turned(chain) == chain;
        return;
      }
      assert head.next == chain[1];
      var node := head.next;
      ghost var i := 1;
      while node != tail
        invariant 1 <= i < |chain| && node == chain[i] && nodes == chain && size == |chain| - 2
        invariant head.next == chain[1] && tail.prev == chain[|chain| - 2] && chain[i].prev == chain[i - 1]
        invariant Flipped(chain, i) && LinkedFrom(chain, i)
        decreases |chain| - i
      {
        Flip(node, chain, i);
        node := node.prev;
        i := i + 1;
      }
      CloseTurned(tail.prev, head.next, chain);
    }

    /** The end of `reverse`: once every element has exchanged its links,
        the sentinels point at the former last and first elements. */
    method CloseTurned(newFirst: Node, newLast: Node, ghost chain: seq<Node>)
      requires |chain| >= 4 && nodes == chain && Distinct(chain) && Flipped(chain, |chain| - 1)
      requires head == chain[0] && tail == chain[|chain| - 1] && size == |chain| - 2
      requires newFirst == chain[|chain| - 2] && newLast == chain[1]
      modifies this`nodes, head`next, tail`prev, newLast`next, newFirst`prev
      ensures Valid() && nodes == Turned(chain)
    {
      ghost var ns := Turned(chain);
      TurnedLinked(chain);
      TurnedDistinct(chain);
      Relink(ns, 0, |ns| - 2, head, newFirst, newLast, tail);
      nodes := ns;
    }

    /** `merge(other)`: the chain of both lists' elements (see
        `LinkMerged`) replaces them; both lists are reset and the chain is
        handed to `insert_nodes`. Merging a list with itself does nothing.
        With two empty lists the chain is null, which `insert_nodes`
        dereferences, so at least one of them must hold an element. */
    method Merge(other: List)
      requires Valid() && other.Valid()
      requires other != this ==> Apart(nodes, other.nodes) && size + other.size > 0
      modifies this, nodes, other, other.nodes
      ensures Valid()
      ensures other == this ==> nodes == old(nodes)
      ensures other != this ==> Elements() == Merged(old(Elements()), old(other.Elements()), Key)
      ensures other != this ==> Contents() == Merged(old(Contents()), old(other.Contents()), IntKey)
      ensures other != this ==> other.Valid() && other.nodes == [other.head, other.tail] && other.Contents() == []
    {
      if this == other {
        return;
      }
      ghost var N1, N2 := nodes, other.nodes;
      ghost var E1, E2, C1, C2 := Elements(), other.Elements(), Contents(), other.Contents();
      assert N1[1..|N1| - 1] == E1 && N2[1..|N2| - 1] == E2;
      assert C1 == Values(E1) && C2 == Values(E2);
      assert Untouched(N1, 1) && Untouched(N2, 1);
      assert head.next == N1[1] && other.head.next == N2[1];
      assert head == N1[0] && tail == N1[|N1| - 1] && other.head == N2[0] && other.tail == N2[|N2| - 1];
      var begin, last, acc := LinkMerged(N1, N2, head.next, tail, other.head.next, other.tail);
      var newSize := size + other.size;
      HangMerged(other, newSize, begin, last, acc);
      HungContents(acc);
      ValuesMerged(E1, E2);
      assert Elements() == acc == Merged(E1, E2, Key);
      assert Contents() == Merged(C1, C2, IntKey);
    }

    /** The end of `merge`: both lists are reset by `init_ends` and the
        chain `acc` from `begin` to `last`, made of their former elements,
        is handed to `insert_nodes`. */
    method HangMerged(other: List, newSize: nat, begin: Node?, last: Node?, ghost acc: seq<Node>)
      requires other != this && head != tail && other.head != other.tail
      requires head != other.head && head != other.tail && tail != other.head && tail != other.tail
      requires |acc| == newSize > 0 && Linked(acc) && Distinct(acc) && begin == acc[0] && last == acc[|acc| - 1]
      requires forall a :: 0 <= a < |acc| ==> acc[a] != head && acc[a] != tail && acc[a] != other.head && acc[a] != other.tail
      modifies this`size, this`nodes, head, tail, other`size, other`nodes, other.head`next, other.tail`prev, begin, last
      ensures Valid() && nodes == [head] + acc + [tail]
      ensures other.Valid() && other.nodes == [other.head, other.tail] && other.Contents() == []
    {
      InitEnds(0);
      other.InitEnds(0);
      assert forall n :: n in acc ==> n !in nodes;
      InsertNodes(tail, 1, newSize, begin, last, acc);
      assert nodes == [head] + acc + [tail];
    }

    /** `sort()`: a list of fewer than two elements is left alone;
        otherwise the first `size_ / 2` elements and the rest are moved into
        two fresh lists (see `Halve`), each is sorted, the first is spliced
        back and the second is merged into it (see `Rejoin`). */
    method Sort()
      requires Valid()
      modifies this, nodes
      ensures Valid() && Elements() == MergeSorted(old(Elements()), Key)
      ensures Contents() == MergeSorted(old(Contents()), IntKey)
      decreases size, 4
    {
      ghost var E := Elements();
      Parts();
      if size < 2 {
        ValuesMergeSorted(E);
        return;
      }
      var temp1 := new List();
      var temp2 := new List();
      assert Apart(nodes, temp1.nodes) && Apart(nodes, temp2.nodes) && Apart(temp1.nodes, temp2.nodes);
      SortInto(temp1, temp2);
      ValuesMergeSorted(E);
    }

    /** The body of `sort` for two or more elements, given the two empty
        lists `temp1` and `temp2`: halve, sort both halves, rejoin. */
    method SortInto(temp1: List, temp2: List)
      requires Valid() && size >= 2
      requires temp1.size == 0 && temp1.nodes == [temp1.head, temp1.tail] && temp1.head != temp1.tail
      requires temp2.size == 0 && temp2.nodes == [temp2.head, temp2.tail] && temp2.head != temp2.tail
      requires temp1 != this && temp2 != this && temp1 != temp2
      requires Apart(nodes, temp1.nodes) && Apart(nodes, temp2.nodes) && Apart(temp1.nodes, temp2.nodes)
      modifies this, nodes, temp1, temp1.nodes, temp2, temp2.nodes
      ensures Valid()
      ensures Elements() == Merged(MergeSorted(old(Elements())[..old(size) / 2], Key),
                                   MergeSorted(old(Elements())[old(size) / 2..], Key), Key)
      decreases size, 3
    {
      ghost var N, E := nodes, Elements();
      ghost var h := size / 2;
      ghost var E1, E2 := E[..h], E[h..];
      Halve(temp1, temp2);
      assert forall k :: 0 < k < |temp1.nodes| - 1 ==> temp1.nodes[k] == N[k];
      assert forall k :: 0 < k < |temp2.nodes| - 1 ==> temp2.nodes[k] == N[h + k];
      SortRest(temp1, temp2, E1, E2);
    }

    /** The rest of `sort` once this list is emptied into `temp1` (holding
        `E1`) and `temp2` (holding `E2`): sort both, then rejoin them here. */
    method SortRest(temp1: List, temp2: List, ghost E1: seq<Node>, ghost E2: seq<Node>)
      requires Valid() && nodes == [head, tail]
      requires temp1.Valid() && temp1.nodes == [temp1.head] + E1 + [temp1.tail] && |E1| > 0
      requires temp2.Valid() && temp2.nodes == [temp2.head] + E2 + [temp2.tail] && |E2| > 0
      requires temp1 != this && temp2 != this && temp1 != temp2
      requires Apart(temp1.nodes, nodes) && Apart(temp2.nodes, nodes) && Apart(temp2.nodes, temp1.nodes)
      modifies this, nodes, temp1, temp1.nodes, temp2, temp2.nodes
      ensures Valid() && Elements() == Merged(MergeSorted(E1, Key), MergeSorted(E2, Key), Key)
      decreases |E1| + |E2|, 2
    {
      temp1.Parts();
      temp2.Parts();
      SortBoth(temp1, temp2, E1, E2, this);
      Rejoin(temp1, temp2, E1, E2);
    }

    /** The two recursive calls of `sort`, `temp1.sort()` and
        `temp2.sort()`, on lists holding `E1` and `E2`. Each list keeps its
        own nodes, so the two stay apart from each other and from the
        emptied list `keep`, which they leave as it is. */
    static method SortBoth(temp1: List, temp2: List, ghost E1: seq<Node>, ghost E2: seq<Node>, keep: List)
      requires temp1.Valid() && temp1.Elements() == E1 && |E1| > 0
      requires temp2.Valid() && temp2.Elements() == E2 && |E2| > 0
      requires keep.Valid() && keep != temp1 && keep != temp2 && temp1 != temp2
      requires Apart(temp2.nodes, temp1.nodes) && Apart(temp1.nodes, keep.nodes) && Apart(temp2.nodes, keep.nodes)
      modifies temp1, temp1.nodes, temp2, temp2.nodes
      ensures temp1.Valid() && temp1.Elements() == MergeSorted(E1, Key)
      ensures temp2.Valid() && temp2.Elements() == MergeSorted(E2, Key)
      ensures keep.Valid() && keep.nodes == old(keep.nodes)
      ensures Apart(temp2.nodes, temp1.nodes) && Apart(temp1.nodes, keep.nodes) && Apart(temp2.nodes, keep.nodes)
      ensures forall k :: 0 <= k < |temp1.nodes| ==> temp1.nodes[k] in old(temp1.nodes)
      ensures forall k :: 0 <= k < |temp2.nodes| ==> temp2.nodes[k] in old(temp2.nodes)
      decreases |E1| + |E2|, 1
    {
      SortOne(temp1, E1, temp2, keep);
      SortOne(temp2, E2, temp1, keep);
    }

    /** One recursive call of `sort` on a list `t` holding `E`: `t` keeps
        its own nodes, rearranged, so the lists `other1` and `other2` it
        was apart from are left as they were and stay apart from it. */
    static method SortOne(t: List, ghost E: seq<Node>, other1: List, other2: List)
      requires t.Valid() && t.Elements() == E && |E| > 0
      requires other1.Valid() && other2.Valid() && other1 != t && other2 != t
      requires Apart(t.nodes, other1.nodes) && Apart(t.nodes, other2.nodes)
      modifies t, t.nodes
      ensures t.Valid() && t.Elements() == MergeSorted(E, Key)
      ensures other1.Valid() && other1.nodes == old(other1.nodes)
      ensures other2.Valid() && other2.nodes == old(other2.nodes)
      ensures Apart(t.nodes, other1.nodes) && Apart(other1.nodes, t.nodes)
      ensures Apart(t.nodes, other2.nodes) && Apart(other2.nodes, t.nodes)
      ensures forall k :: 0 <= k < |t.nodes| ==> t.nodes[k] in old(t.nodes)
      decreases |E|, 5
    {
      ghost var O1, O2 := other1.nodes, other2.nodes;
      t.Parts();
      t.Sort();
      ghost var M := t.Elements();
      t.Parts();
      MergeSortedPermutes(E, Key);
      PermutedHung(t.head, E, M, t.tail, O1);
      PermutedHung(t.head, E, M, t.tail, O2);
      PermutedHungWithin(t.head, E, M, t.tail);
    }

    /** The end of `sort`: `splice(cend(), temp1)` and then `merge(temp2)`,
        with `temp1` and `temp2` the sorted halves `E1` and `E2`, leave this
        list, empty before, holding their merge. */
    method Rejoin(temp1: List, temp2: List, ghost E1: seq<Node>, ghost E2: seq<Node>)
      requires Valid() && nodes == [head, tail]
      requires temp1.Valid() && temp1.Elements() == MergeSorted(E1, Key) && |E1| > 0
      requires temp2.Valid() && temp2.Elements() == MergeSorted(E2, Key)
      requires temp1 != this && temp2 != this && temp1 != temp2
      requires Apart(temp1.nodes, nodes) && Apart(temp2.nodes, nodes) && Apart(temp2.nodes, temp1.nodes)
      modifies this, nodes, temp1, temp1.nodes, temp2, temp2.nodes
      ensures Valid() && Elements() == Merged(MergeSorted(E1, Key), MergeSorted(E2, Key), Key)
    {
      SpliceKeeping(temp1, temp2);
      Merge(temp2);
    }

    /** `splice(cend(), temp1)` into this empty list: it then holds
        `temp1`'s elements, and `keep`, apart from both, is left as it is. */
    method SpliceKeeping(temp1: List, keep: List)
      requires Valid() && nodes == [head, tail]
      requires temp1.Valid() && keep.Valid()
      requires temp1 != this && keep != this && temp1 != keep
      requires Apart(temp1.nodes, nodes) && Apart(keep.nodes, nodes) && Apart(keep.nodes, temp1.nodes)
      modifies this, nodes, temp1, temp1.nodes
      ensures Valid() && Elements() == old(temp1.Elements()) && size == old(temp1.size)
      ensures keep.Valid() && keep.nodes == old(keep.nodes) && Apart(nodes, keep.nodes)
      ensures forall k :: 0 <= k < |nodes| ==> nodes[k] in old(nodes) || nodes[k] in old(temp1.nodes)
    {
      ghost var M1 := temp1.Elements();
      RejoinReady(temp1, keep);
      Splice(tail, 1, temp1);
      assert nodes == [head] + M1 + [tail];
    }

    /** The disjointness `merge` needs once `temp1` is spliced into this
        empty list. */
    lemma RejoinReady(temp1: List, temp2: List)
      requires Valid() && nodes == [head, tail] && temp1.Valid()
      requires Apart(temp1.nodes, nodes) && Apart(temp2.nodes, nodes) && Apart(temp2.nodes, temp1.nodes)
      ensures Apart(nodes, temp1.nodes) && |temp1.Elements()| == temp1.size
      ensures Apart([head] + temp1.Elements() + [tail], temp2.nodes)
      ensures forall k :: 0 <= k < temp1.size ==> temp1.Elements()[k] in temp1.nodes
    {
      var M1 := temp1.Elements();
      var l := [head] + M1 + [tail];
      assert forall k :: 0 <= k < |M1| ==> M1[k] == temp1.nodes[k + 1];
      forall i, j | 0 <= i < |l| && 0 <= j < |temp2.nodes|
        ensures l[i] != temp2.nodes[j]
      {
        if i == 0 {
          assert l[i] == nodes[0];
        } else if i == |l| - 1 {
          assert l[i] == nodes[1];
        } else {
          assert l[i] == temp1.nodes[i];
        }
      }
    }

    /** `insert_nodes(end(), count, first, last)` on an empty list: `size_`
        grows by `count` and the chain `first..last` is hung between the
        sentinels. Chains `keep1` and `keep2` that share no node with the
        result stay linked. */
    method Adopt(count: nat, first: Node, last: Node, ghost chain: seq<Node>, ghost keep1: seq<Node>, ghost keep2: seq<Node>)
      requires size == 0 && nodes == [head, tail]
      requires |chain| == count > 0 && chain[0] == first && chain[count - 1] == last
      requires Linked(chain) && Distinct([head] + chain + [tail])
      requires Linked(keep1) && Apart(keep1, [head] + chain + [tail])
      requires Linked(keep2) && Apart(keep2, [head] + chain + [tail])
      modifies this`size, this`nodes, head`next, first`prev, last`next, tail`prev
      ensures Valid() && nodes == [head] + chain + [tail] && size == count
      ensures Linked(keep1) && Linked(keep2)
    {
      size := size + count;
      nodes := [head] + chain + [tail];
      HangChain(head, first, last, tail, chain, keep1, keep2);
    }

    /** `init_ends(0)`; two other lists that share no node with the
        sentinels are left as they were. */
    method Reset(other1: List, other2: List)
      requires head != tail && other1 != this && other2 != this
      requires other1.Valid() && Apart(other1.nodes, [head, tail])
      requires other2.Valid() && Apart(other2.nodes, [head, tail])
      modifies this`size, this`nodes, head`next, tail`prev
      ensures Valid() && nodes == [head, tail]
      ensures other1.Valid() && other1.nodes == old(other1.nodes)
      ensures other2.Valid() && other2.nodes == old(other2.nodes)
    {
      ghost var keep1, keep2 := other1.nodes, other2.nodes;
      InitEnds(0);
      forall i | 0 <= i < |keep1| - 1
        ensures keep1[i].next == keep1[i + 1] && keep1[i + 1].prev == keep1[i]
      {
        assert keep1[i] != [head, tail][0] && keep1[i + 1] != [head, tail][1];
        assert old(keep1[i].next) == keep1[i + 1] && old(keep1[i + 1].prev) == keep1[i];
      }
      forall i | 0 <= i < |keep2| - 1
        ensures keep2[i].next == keep2[i + 1] && keep2[i + 1].prev == keep2[i]
      {
        assert keep2[i] != [head, tail][0] && keep2[i + 1] != [head, tail][1];
        assert old(keep2[i].next) == keep2[i + 1] && old(keep2[i + 1].prev) == keep2[i];
      }
    }

    /** The first half of `sort`: `half_size` is `size_ / 2`; the iterator
        advanced `half_size - 1` times from `begin()` (`half_size` links from
        `head`) ends the first half; the second half and then the first are
        handed to `insert_nodes` of the empty lists `temp2` and `temp1`
        (`Adopt`), and this list is reset by
        `init_ends`. */
    method Halve(temp1: List, temp2: List)
      requires Valid() && size >= 2
      requires temp1.size == 0 && temp1.nodes == [temp1.head, temp1.tail] && temp1.head != temp1.tail
      requires temp2.size == 0 && temp2.nodes == [temp2.head, temp2.tail] && temp2.head != temp2.tail
      requires temp1 != this && temp2 != this && temp1 != temp2
      requires Apart(nodes, temp1.nodes) && Apart(nodes, temp2.nodes) && Apart(temp1.nodes, temp2.nodes)
      modifies this, nodes, temp1, temp1.nodes, temp2, temp2.nodes
      ensures Valid() && nodes == [head, tail]
      ensures temp1.Valid() && temp1.nodes == [temp1.head] + old(Elements())[..old(size) / 2] + [temp1.tail]
      ensures temp2.Valid() && temp2.nodes == [temp2.head] + old(Elements())[old(size) / 2..] + [temp2.tail]
      ensures Apart(temp1.nodes, nodes) && Apart(temp2.nodes, nodes) && Apart(temp2.nodes, temp1.nodes)
    {
      var half := size / 2;
      var it := Walk(half);
      Distribute(temp1, temp2, half, it);
      Reset(temp1, temp2);
    }

    /** The hand-over of `Halve`: the elements after node `half` (`it`) go
        to `temp2`, those up to it to `temp1`; this list's own nodes keep
        their place in the heap but are no longer its chain. */
    method Distribute(temp1: List, temp2: List, half: nat, it: Node)
      requires Valid() && 1 <= half < size && it == nodes[half]
      requires temp1.size == 0 && temp1.nodes == [temp1.head, temp1.tail] && temp1.head != temp1.tail
      requires temp2.size == 0 && temp2.nodes == [temp2.head, temp2.tail] && temp2.head != temp2.tail
      requires temp1 != this && temp2 != this && temp1 != temp2
      requires Apart(nodes, temp1.nodes) && Apart(nodes, temp2.nodes) && Apart(temp1.nodes, temp2.nodes)
      modifies nodes, temp1, temp1.nodes, temp2, temp2.nodes
      ensures head != tail
      ensures temp1.Valid() && temp1.nodes == [temp1.head] + old(Elements())[..half] + [temp1.tail]
      ensures temp2.Valid() && temp2.nodes == [temp2.head] + old(Elements())[half..] + [temp2.tail]
      ensures Apart(temp1.nodes, [head, tail]) && Apart(temp2.nodes, [head, tail]) && Apart(temp2.nodes, temp1.nodes)
    {
      ghost var E := Elements();
      ghost var E1, E2 := E[..half], E[half..];
      SplitReady(temp1, temp2, half, it);
      ghost var S1, S2 := [temp1.head] + E1 + [temp1.tail], [temp2.head] + E2 + [temp2.tail];
      ghost var N := nodes;
      assert it.next in N && tail.prev in N && it in N && head.next in N;
      assert temp1.head in temp1.nodes && temp1.tail in temp1.nodes;
      assert temp2.head in temp2.nodes && temp2.tail in temp2.nodes;
      temp2.Adopt(size - half, it.next, tail.prev, E2, E1, []);
      assert head.next == N[1];
      temp1.Adopt(half, head.next, it, E1, S2, []);
    }

    /** What `Halve` needs about this list cut after `h` elements, with
        `it` its node `h`, and the empty lists `temp1` and `temp2`. */
    lemma SplitReady(temp1: List, temp2: List, h: nat, it: Node)
      requires Valid() && 1 <= h < size && it == nodes[h]
      requires temp1.nodes == [temp1.head, temp1.tail] && temp1.head != temp1.tail
      requires temp2.nodes == [temp2.head, temp2.tail] && temp2.head != temp2.tail
      requires Apart(nodes, temp1.nodes) && Apart(nodes, temp2.nodes) && Apart(temp1.nodes, temp2.nodes)
      ensures it == Elements()[..h][h - 1] && it.next == Elements()[h..][0] && head.next == Elements()[..h][0]
      ensures tail.prev == Elements()[h..][size - h - 1]
      ensures it == nodes[h] && it.next == nodes[h + 1] && tail.prev == nodes[size] && head.next == nodes[1]
      ensures Linked(Elements()[..h]) && Linked(Elements()[h..]) && head != tail
      ensures Distinct([temp1.head] + Elements()[..h] + [temp1.tail])
      ensures Distinct([temp2.head] + Elements()[h..] + [temp2.tail])
      ensures Apart(Elements()[..h], [temp2.head] + Elements()[h..] + [temp2.tail])
      ensures Apart([temp2.head] + Elements()[h..] + [temp2.tail], [temp1.head] + Elements()[..h] + [temp1.tail])
      ensures Apart([temp1.head] + Elements()[..h] + [temp1.tail], [head, tail])
      ensures Apart([temp2.head] + Elements()[h..] + [temp2.tail], [head, tail])
      ensures head != temp2.head && head != Elements()[size - 1]
    {
      var E := Elements();
      Hanging();
      LinkedSlices(E, h);
      assert nodes == [head] + E + [tail];
      assert temp1.head == temp1.nodes[0] && temp1.tail == temp1.nodes[1];
      assert temp2.head == temp2.nodes[0] && temp2.tail == temp2.nodes[1];
      assert E[h - 1] == nodes[h] && E[h] == nodes[h + 1] && E[size - 1] == nodes[size] && E[0] == nodes[1];
      SplitApart(head, E, tail, h, temp1.head, temp1.tail, temp2.head, temp2.tail);
      var S2 := [temp2.head] + E[h..] + [temp2.tail];
      assert S2[0] == temp2.head && S2[size - h] == E[size - 1];
      assert [head, tail][0] == head;
    }

    /** `push_back(value)`: `insert(end(), value)`. */
    method PushBack(value: int)
      requires Valid()
      modifies this, nodes
      ensures Valid() && Contents() == old(Contents()) + [value]
    {
      var _ := Insert(tail, |nodes| - 1, value);
    }

    /** `push_front(value)`: `insert(begin(), value)`. */
    method PushFront(value: int)
      requires Valid()
      modifies this, nodes
      ensures Valid() && Contents() == [value] + old(Contents())
    {
      assert head.next == nodes[1];
      var _ := Insert(head.next, 1, value);
    }

    /** `pop_back()`: `erase(--end())`; the list must not be empty. */
    method PopBack()
      requires Valid() && size > 0
      modifies this, nodes
      ensures Valid() && Contents() == old(Contents())[..|old(Contents())| - 1]
    {
      assert tail.prev == nodes[|nodes| - 2];
      assert tail.prev.prev == nodes[|nodes| - 3];
      var _ := Erase(tail.prev, |nodes| - 2);
    }

    /** `pop_front()`: `erase(begin())`; the list must not be empty. */
    method PopFront()
      requires Valid() && size > 0
      modifies this, nodes
      ensures Valid() && Contents() == old(Contents())[1..]
    {
      assert head.next == nodes[1] && head.next.next == nodes[2];
      var _ := Erase(head.next, 1);
    }
  }

  // ---------------------------------------------------------------------
  // `swap` as the source writes it

  /** A list as `swap` sees it: the values of its chain and its `size_`
      field, which the source keeps apart. */
  datatype Shape = Shape(chain: seq<int>, size: nat)

  /** A list whose `size_` counts its chain. */
  predicate Counted(s: Shape)
  {
    s.size == |s.chain|
  }

  /** `this.swap(other)` step by step, with `a` this list and `b` the
      other: nothing but the sizes is exchanged when both are empty;
      otherwise the sentinels, and with them the chains, are exchanged,
      `other` is reset by `init_ends` when this list's `size_` is 0 (which
      also sets `other.size_` to 0), this list is reset when `other.size_`
      as it now stands is 0, and last the two `size_` fields are
      exchanged. */
  function SwapAsWritten(a: Shape, b: Shape): (r: (Shape, Shape))
    ensures Counted(a) && Counted(b) && (a.size == 0) == (b.size == 0) ==> r == (b, a)
  {
    if a.size == 0 && b.size == 0 then (Shape(a.chain, b.size), Shape(b.chain, a.size))
    else
      var other := if a.size == 0 then Shape([], 0) else Shape(a.chain, b.size);
      var self := if other.size == 0 then Shape([], 0) else Shape(b.chain, a.size);
      (Shape(self.chain, other.size), Shape(other.chain, self.size))
  }

  /** An empty list swapped with a non-empty one: both end up empty, and
      the other list's elements are lost. */
  lemma SwapAsWrittenLosesElements(b: Shape)
    requires Counted(b) && b.size > 0
    ensures SwapAsWritten(Shape([], 0), b) == (Shape([], 0), Shape([], 0))
  {
  }

  /** A non-empty list swapped with an empty one: the other list receives
      the chain but a `size_` of 0. */
  lemma SwapAsWrittenDropsSize(a: Shape)
    requires Counted(a) && a.size > 0
    ensures SwapAsWritten(a, Shape([], 0)) == (Shape([], 0), Shape(a.chain, 0))
    ensures !Counted(SwapAsWritten(a, Shape([], 0)).1)
  {
  }

  /** The smallest instances: `{}` swapped with `{7}`, and the reverse. */
  lemma SwapAsWrittenExamples()
    ensures SwapAsWritten(Shape([], 0), Shape([7], 1)) == (Shape([], 0), Shape([], 0))
    ensures SwapAsWritten(Shape([7], 1), Shape([], 0)) == (Shape([], 0), Shape([7], 0))
  {
    SwapAsWrittenLosesElements(Shape([7], 1));
    SwapAsWrittenDropsSize(Shape([7], 1));
  }

  /** `a = std::move(b)` with `b` non-empty: `clear()` empties `a`, then
      `b.swap(a)` hands `a` the chain of `b` with a `size_` of 0. */
  lemma MoveAssignAsWritten(b: Shape)
    requires Counted(b) && b.size > 0
    ensures SwapAsWritten(b, Shape([], 0)).1 == Shape(b.chain, 0)
    ensures SwapAsWritten(b, Shape([], 0)).0 == Shape([], 0)
  {
    SwapAsWrittenDropsSize(b);
  }

  /** `a = b` with `a` empty and `b` non-empty: the copy `temp` of `b`
      is swapped with `a`, which receives the copied chain with a `size_`
      of 0; with both non-empty it receives the copy in full. */
  lemma CopyAssignAsWritten(copy: Shape, a: Shape)
    requires Counted(copy) && copy.size > 0 && Counted(a)
    ensures a.size == 0 ==> SwapAsWritten(copy, a).1 == Shape(copy.chain, 0)
    ensures a.size > 0 ==> SwapAsWritten(copy, a).1 == copy
  {
    if a.size == 0 {
      assert a == Shape([], 0);
      SwapAsWrittenDropsSize(copy);
    }
  }
}
