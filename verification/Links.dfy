/**
 Singly linked lists in memory: `next` holds the link word of every node and `node` its contents.
 `Strung` says that the words from `head` on spell out a sequence of nodes.
 */
module Links {
  import opened Prelude

  type Ptr = nat

  const NULL: Ptr := 0

  type Words = map<Ptr, Ptr>

  /** The node at position `k`, or the null pointer behind the last one. */
  function NodeAt(ps: seq<Ptr>, k: nat): Ptr {
    if k < |ps| then ps[k] else NULL
  }

  /** The node in front of position `k`; none in front of the first. */
  function NodeBefore(ps: seq<Ptr>, k: nat): Ptr
    requires k <= |ps|
  {
    if k == 0 then NULL else ps[k - 1]
  }

  function Cut<T>(s: seq<T>, k: nat): seq<T>
    requires k < |s|
  {
    s[..k] + s[k + 1..]
  }

  ghost predicate Distinct(ps: seq<Ptr>) {
    forall i, j | 0 <= i < j < |ps| :: ps[i] != ps[j]
  }

  ghost predicate Knot<T(!new)>(next: Words, node: map<Ptr, T>, ps: seq<Ptr>, es: seq<T>, k: nat)
    requires k < |ps| == |es|
  {
    && ps[k] != NULL && ps[k] in next && ps[k] in node
    && next[ps[k]] == NodeAt(ps, k + 1) && node[ps[k]] == es[k]
  }

  ghost predicate Strung<T(!new)>(next: Words, node: map<Ptr, T>, head: Ptr, ps: seq<Ptr>, es: seq<T>) {
    && |ps| == |es| && head == NodeAt(ps, 0) && Distinct(ps)
    && forall k | 0 <= k < |ps| :: Knot(next, node, ps, es, k)
  }

  lemma StrungAt<T(!new)>(next: Words, node: map<Ptr, T>, head: Ptr, ps: seq<Ptr>, es: seq<T>, k: nat)
    requires Strung(next, node, head, ps, es) && k < |ps|
    ensures |ps| == |es| && Knot(next, node, ps, es, k)
  {
  }

  /** A list does not notice changes to other nodes. */
  lemma StrungElsewhere<T(!new)>(next: Words, node: map<Ptr, T>, next': Words, node': map<Ptr, T>,
                                 head: Ptr, ps: seq<Ptr>, es: seq<T>)
    requires Strung(next, node, head, ps, es)
    requires forall p | p in ps :: p in next' && p in node'
    requires forall p | p in ps :: (p in next ==> next'[p] == next[p]) && (p in node ==> node'[p] == node[p])
    ensures Strung(next', node', head, ps, es)
  {
    forall k | 0 <= k < |ps| ensures Knot(next', node', ps, es, k) {
      assert Knot(next, node, ps, es, k) && ps[k] in ps;
    }
  }

  lemma StrungPush<T(!new)>(next: Words, node: map<Ptr, T>, head: Ptr, ps: seq<Ptr>, es: seq<T>, p: Ptr, e: T)
    requires Strung(next, node, head, ps, es) && p != NULL && p !in ps
    ensures Strung(next[p := head], node[p := e], p, [p] + ps, [e] + es)
  {
    var ps', es', next', node' := [p] + ps, [e] + es, next[p := head], node[p := e];
    forall k | 0 <= k < |ps'| ensures Knot(next', node', ps', es', k) {
      if k > 0 { assert Knot(next, node, ps, es, k - 1); }
    }
  }

  lemma StrungPop<T(!new)>(next: Words, node: map<Ptr, T>, head: Ptr, ps: seq<Ptr>, es: seq<T>)
    requires Strung(next, node, head, ps, es) && ps != []
    ensures head == ps[0] != NULL && head in next && head in node && node[head] == es[0]
    ensures Strung(next, node, next[head], ps[1..], es[1..]) && head !in ps[1..]
  {
    assert Knot(next, node, ps, es, 0);
    forall k | 0 <= k < |ps| - 1 ensures Knot(next, node, ps[1..], es[1..], k) {
      assert Knot(next, node, ps, es, k + 1);
    }
  }

  /** Unlinking node `k` through the word that leads to it: the head, or the link of the node in front. */
  lemma StrungCut<T(!new)>(next: Words, node: map<Ptr, T>, head: Ptr, ps: seq<Ptr>, es: seq<T>, k: nat)
    requires Strung(next, node, head, ps, es) && k < |ps|
    ensures ps[k] in next && ps[k] !in Cut(ps, k)
    ensures k == 0 ==> Strung(next, node, next[ps[0]], Cut(ps, 0), Cut(es, 0))
    ensures k > 0 ==> Strung(next[ps[k - 1] := next[ps[k]]], node, head, Cut(ps, k), Cut(es, k))
  {
    assert Knot(next, node, ps, es, k);
    var ps', es' := Cut(ps, k), Cut(es, k);
    assert forall j | 0 <= j < |ps'| :: ps'[j] == ps[if j < k then j else j + 1];
    if k == 0 {
      StrungPop(next, node, head, ps, es);
      assert ps' == ps[1..] && es' == es[1..];
    } else {
      var next' := next[ps[k - 1] := next[ps[k]]];
      forall j | 0 <= j < |ps'| ensures Knot(next', node, ps', es', j) {
        assert Knot(next, node, ps, es, if j < k then j else j + 1);
      }
    }
  }

  lemma StrungChange<T(!new)>(next: Words, node: map<Ptr, T>, head: Ptr, ps: seq<Ptr>, es: seq<T>, k: nat, e: T)
    requires Strung(next, node, head, ps, es) && k < |ps|
    ensures Strung(next, node[ps[k] := e], head, ps, es[k := e])
  {
    var node', es' := node[ps[k] := e], es[k := e];
    forall j | 0 <= j < |ps| ensures Knot(next, node', ps, es', j) {
      assert Knot(next, node, ps, es, j);
    }
  }

  /** There is always an address that is not in use. */
  lemma {:induction false} Bounded(s: set<Ptr>) returns (m: Ptr)
    ensures m != NULL && forall p | p in s :: p < m
  {
    if s == {} {
      m := 1;
    } else {
      var p :| p in s;
      m := Bounded(s - {p});
      m := Max(m, p + 1);
      assert forall q | q in s :: q == p || q in s - {p};
    }
  }
}
