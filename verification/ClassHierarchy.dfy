/**
 Class hierarchies: the superclasses of a class, found breadth first, and the subclass relation, asked recursively.
 */
module ClassHierarchy {
  /** The direct parents of each class, in order. */
  datatype Hierarchy = Hierarchy(parents: map<string, seq<string>>)

  /** Parents are known classes, and `rank` shows that inheritance has no cycle. */
  ghost predicate Acyclic(h: Hierarchy, rank: string -> nat) {
    forall c, p :: c in h.parents && p in h.parents[c] ==> p in h.parents && rank(p) < rank(c)
  }

  function Parents(h: Hierarchy, c: string): seq<string> {
    if c in h.parents then h.parents[c] else []
  }

  /** IsSubclassOf: first the parents themselves, then each of them is asked. */
  predicate IsSubclassOf(h: Hierarchy, ghost rank: string -> nat, c: string, d: string)
    requires Acyclic(h, rank)
    decreases rank(c)
  {
    (exists p :: p in Parents(h, c) && p == d) || (exists p :: p in Parents(h, c) && IsSubclassOf(h, rank, p, d))
  }

  /** The class itself and its superclasses. */
  ghost predicate Above(h: Hierarchy, rank: string -> nat, c: string, x: string)
    requires Acyclic(h, rank)
  {
    x == c || IsSubclassOf(h, rank, c, x)
  }

  lemma {:induction false} SubclassRank(h: Hierarchy, rank: string -> nat, c: string, d: string)
    requires Acyclic(h, rank) && IsSubclassOf(h, rank, c, d)
    ensures rank(d) < rank(c) && d in h.parents
    decreases rank(c)
  {
    if d !in Parents(h, c) {
      var p :| p in Parents(h, c) && IsSubclassOf(h, rank, p, d);
      SubclassRank(h, rank, p, d);
    }
  }

  /** A superclass of a superclass. */
  lemma {:induction false} SubclassTransitive(h: Hierarchy, rank: string -> nat, c: string, d: string, e: string)
    requires Acyclic(h, rank) && IsSubclassOf(h, rank, c, d) && IsSubclassOf(h, rank, d, e)
    ensures IsSubclassOf(h, rank, c, e)
    decreases rank(c)
  {
    if d !in Parents(h, c) {
      var p :| p in Parents(h, c) && IsSubclassOf(h, rank, p, d);
      SubclassTransitive(h, rank, p, d, e);
    }
  }

  /** A set with the parents of `c` that is closed under parents has all superclasses of `c`. */
  lemma {:induction false} ClosedHasAll(h: Hierarchy, rank: string -> nat, s: set<string>, c: string, d: string)
    requires Acyclic(h, rank) && IsSubclassOf(h, rank, c, d)
    requires (forall p :: p in Parents(h, c) ==> p in s) && forall x, p :: x in s && p in Parents(h, x) ==> p in s
    ensures d in s
    decreases rank(c)
  {
    if d !in Parents(h, c) {
      var p :| p in Parents(h, c) && IsSubclassOf(h, rank, p, d);
      ClosedHasAll(h, rank, s, p, d);
    }
  }

  ghost predicate NoDuplicates<T(!new)>(s: seq<T>) {
    forall i, j :: 0 <= i < j < |s| ==> s[i] != s[j]
  }

  lemma NoDuplicatesSnoc<T(!new)>(s: seq<T>, x: T)
    requires NoDuplicates(s) && x !in s
    ensures NoDuplicates(s + [x])
  {
  }

  /** What the search keeps: the classes queued so far, in order, are `c` and its superclasses; the parents of those that
      have left the queue have been queued. */
  ghost predicate Searching(h: Hierarchy, rank: string -> nat, c: string, result: seq<string>, queued: set<string>, k: nat)
    requires Acyclic(h, rank)
  {
    var order := [c] + result;
    && k <= |order| && NoDuplicates(order)
    && (forall x :: x in queued <==> x in order)
    && (forall x :: x in result ==> x in h.parents && IsSubclassOf(h, rank, c, x))
    && (forall i, p :: 0 <= i < k && p in Parents(h, order[i]) ==> p in queued)
  }

  ghost function Known(h: Hierarchy, c: string): set<string> {
    h.parents.Keys + {c}
  }

  /** The loop over the parents of one class. */
  method QueueParents(h: Hierarchy, ghost rank: string -> nat, ghost c: string, cur: string, classQueue: seq<string>,
                      queued: set<string>, result: seq<string>, ghost k: nat)
    returns (classQueue': seq<string>, queued': set<string>, result': seq<string>)
    requires Acyclic(h, rank) && Searching(h, rank, c, result, queued, k)
    requires k < |[c] + result| && cur == ([c] + result)[k] && classQueue == ([c] + result)[k + 1..] && queued <= Known(h, c)
    ensures k <= |result'| && Searching(h, rank, c, result', queued', k + 1) && classQueue' == ([c] + result')[k + 1..]
    ensures queued <= queued' <= Known(h, c) && (queued' == queued ==> classQueue' == classQueue)
  {
    hide Searching, IsSubclassOf, NoDuplicates, Acyclic;
    classQueue', queued', result' := classQueue, queued, result;
    var parents := Parents(h, cur);
    var i := 0;
    while i < |parents|
      invariant 0 <= i <= |parents| && queued <= queued' <= Known(h, c) && result <= result'
      invariant queued' == queued ==> classQueue' == classQueue
      invariant Searching(h, rank, c, result', queued', k) && classQueue' == ([c] + result')[k + 1..]
      invariant forall j :: 0 <= j < i ==> parents[j] in queued'
    {
      var p := parents[i];
      QueueOne(h, rank, c, result', queued', k, cur, p);
      if p !in queued' {
        assert ([c] + (result' + [p]))[k + 1..] == classQueue' + [p];
        classQueue' := classQueue' + [p];
        queued' := queued' + {p};
        result' := result' + [p];
      }
      i := i + 1;
    }
    assert ([c] + result')[k] == cur;
    OneDone(h, rank, c, result', queued', k);
  }

  lemma QueueOne(h: Hierarchy, rank: string -> nat, c: string, result: seq<string>, queued: set<string>, k: nat, cur: string, p: string)
    requires Acyclic(h, rank) && Searching(h, rank, c, result, queued, k) && k < |[c] + result|
    requires cur == ([c] + result)[k] && p in Parents(h, cur)
    ensures p in h.parents && (p !in queued ==> Searching(h, rank, c, result + [p], queued + {p}, k))
  {
    hide IsSubclassOf, NoDuplicates;
    assert cur == c || cur in result by { if k > 0 { assert cur == result[k - 1]; } }
    ParentIsSuperclass(h, rank, c, cur, p);
    assert [c] + (result + [p]) == [c] + result + [p];
    if p !in queued { NoDuplicatesSnoc([c] + result, p); }
  }

  lemma OneDone(h: Hierarchy, rank: string -> nat, c: string, result: seq<string>, queued: set<string>, k: nat)
    requires Acyclic(h, rank) && Searching(h, rank, c, result, queued, k) && k < |[c] + result|
    requires forall p :: p in Parents(h, ([c] + result)[k]) ==> p in queued
    ensures Searching(h, rank, c, result, queued, k + 1)
  {
  }

  lemma ParentIsSuperclass(h: Hierarchy, rank: string -> nat, c: string, cur: string, p: string)
    requires Acyclic(h, rank) && p in Parents(h, cur) && (cur == c || IsSubclassOf(h, rank, c, cur))
    ensures p in h.parents && IsSubclassOf(h, rank, c, p)
  {
    if cur != c { SubclassTransitive(h, rank, c, cur, p); }
  }

  /** GetAllSuperclasses: breadth first, each class once. */
  method GetAllSuperclasses(h: Hierarchy, ghost rank: string -> nat, c: string) returns (result: seq<string>)
    requires Acyclic(h, rank)
    ensures NoDuplicates(result)
    ensures forall d :: d in result <==> IsSubclassOf(h, rank, c, d)
  {
    hide Searching, IsSubclassOf, NoDuplicates, Acyclic, Known;
    result := [];
    var classQueue, queued := [c], {c};
    ghost var k := 0;
    SearchBegins(h, rank, c);
    while |classQueue| > 0
      invariant k <= |result| + 1 && classQueue == ([c] + result)[k..]
      invariant Searching(h, rank, c, result, queued, k) && queued <= Known(h, c)
      decreases |Known(h, c) - queued|, |classQueue|
    {
      var cur := classQueue[0];
      PopFront([c] + result, classQueue, k);
      ghost var before := queued;
      classQueue, queued, result := QueueParents(h, rank, c, cur, classQueue[1..], queued, result, k);
      if queued != before { Shrinks(Known(h, c), before, queued); }
      k := k + 1;
    }
    SearchEnds(h, rank, c, result, queued, k);
  }

  lemma PopFront(order: seq<string>, queue: seq<string>, k: nat)
    requires k <= |order| && queue == order[k..] && queue != []
    ensures k < |order| && queue[0] == order[k] && queue[1..] == order[k + 1..] && |queue[1..]| < |queue|
  {
  }

  lemma SearchBegins(h: Hierarchy, rank: string -> nat, c: string)
    requires Acyclic(h, rank)
    ensures Searching(h, rank, c, [], {c}, 0) && {c} <= Known(h, c)
  {
  }

  lemma SearchEnds(h: Hierarchy, rank: string -> nat, c: string, result: seq<string>, queued: set<string>, k: nat)
    requires Acyclic(h, rank) && Searching(h, rank, c, result, queued, k) && k == |[c] + result|
    ensures NoDuplicates(result)
    ensures forall d :: d in result <==> IsSubclassOf(h, rank, c, d)
  {
    var order := [c] + result;
    assert forall i :: 0 <= i < |result| ==> result[i] == order[i + 1];
    forall x, p | x in queued && p in Parents(h, x) ensures p in queued {
      var i :| 0 <= i < |order| && order[i] == x;
    }
    assert order[0] == c;
    forall d | IsSubclassOf(h, rank, c, d) ensures d in result {
      ClosedHasAll(h, rank, queued, c, d);
      SubclassRank(h, rank, c, d);
    }
  }

  lemma Shrinks(all: set<string>, a: set<string>, b: set<string>)
    requires a < b <= all
    ensures |all - b| < |all - a|
  {
    assert all - a == (all - b) + (b - a) && (all - b) !! (b - a);
    var x :| x in b && x !in a;
    assert x in b - a;
  }
}
