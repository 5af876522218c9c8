/** dag_traverse of export_targets.py: a depth-first walk whose callbacks act on a captured state
    and decide where the recursion goes on. */
module Traversal {

  // What pre_recurse_func does: raise, or update the captured state and return the keys to visit next.
  datatype Outcome<S> = Raise | Return(state: S, next: seq<string>)

  datatype Event = Pre(key: string) | Post(key: string)

  // ---- Paths along the returned successors ----

  ghost predicate IsPath(succ: string -> seq<string>, p: seq<string>) {
    |p| > 0 && forall i :: 0 <= i < |p| - 1 ==> p[i + 1] in succ(p[i])
  }

  ghost predicate PathBetween(succ: string -> seq<string>, p: seq<string>, a: string, b: string) {
    IsPath(succ, p) && p[0] == a && p[|p| - 1] == b
  }

  ghost predicate Reaches(succ: string -> seq<string>, a: string, b: string) {
    exists p :: PathBetween(succ, p, a, b)
  }

  ghost predicate Reachable(succ: string -> seq<string>, roots: seq<string>, k: string) {
    exists r :: r in roots && Reaches(succ, r, k)
  }

  ghost predicate Acyclic(succ: string -> seq<string>) {
    forall k, x :: x in succ(k) ==> !Reaches(succ, x, k)
  }

  lemma ReachesSelf(succ: string -> seq<string>, a: string)
    ensures Reaches(succ, a, a)
  {
    assert PathBetween(succ, [a], a, a);
  }

  lemma ReachesThrough(succ: string -> seq<string>, a: string, x: string, b: string)
    requires x in succ(a) && Reaches(succ, x, b)
    ensures Reaches(succ, a, b)
  {
    var p :| PathBetween(succ, p, x, b);
    assert PathBetween(succ, [a] + p, a, b);
  }

  lemma ReachesStep(succ: string -> seq<string>, a: string, b: string, x: string)
    requires Reaches(succ, a, b) && x in succ(b)
    ensures Reaches(succ, a, x)
  {
    var p :| PathBetween(succ, p, a, b);
    assert PathBetween(succ, p + [x], a, x);
  }

  // A set closed under succ contains everything its members reach.
  lemma {:induction false} ClosedContainsPath(succ: string -> seq<string>, s: set<string>, p: seq<string>)
    requires IsPath(succ, p) && p[0] in s
    requires forall k, x :: k in s && x in succ(k) ==> x in s
    ensures p[|p| - 1] in s
  {
    if |p| > 1 {
      assert p[0 + 1] in succ(p[0]);
      forall i | 0 <= i < |p[1..]| - 1 ensures p[1..][i + 1] in succ(p[1..][i]) {
        assert p[(i + 1) + 1] in succ(p[i + 1]);
      }
      ClosedContainsPath(succ, s, p[1..]);
    }
  }

  // A traversal under way: the callbacks, the state they captured, and the successors they return.
  datatype Walk<!S> = Walk(pre: (S, string) -> Outcome<S>, post: (S, string) -> S, initial: S,
                           succ: string -> seq<string>)

  lemma ClosedContains(succ: string -> seq<string>, s: set<string>, roots: seq<string>, k: string)
    requires forall r :: r in roots ==> r in s
    requires forall k, x :: k in s && x in succ(k) ==> x in s
    requires Reachable(succ, roots, k)
    ensures k in s
  {
    var r :| r in roots && Reaches(succ, r, k);
    var p :| PathBetween(succ, p, r, k);
    ClosedContainsPath(succ, s, p);
  }

  // ---- What a log of callback events means ----

  // The captured state after the events of a log.
  ghost function Replay<S>(pre: (S, string) -> Outcome<S>, post: (S, string) -> S, s: S, log: seq<Event>): S {
    if log == [] then s
    else
      var t := Replay(pre, post, s, log[..|log| - 1]);
      var e := log[|log| - 1];
      if e.Post? then post(t, e.key) else if pre(t, e.key).Return? then pre(t, e.key).state else t
  }

  // Every pre-callback of the log returned.
  ghost predicate AllReturned<S>(pre: (S, string) -> Outcome<S>, post: (S, string) -> S, s: S, log: seq<Event>) {
    forall i :: 0 <= i < |log| && log[i].Pre? ==> pre(Replay(pre, post, s, log[..i]), log[i].key).Return?
  }

  ghost predicate Once(log: seq<Event>) {
    forall i, j :: 0 <= i < j < |log| ==> log[i] != log[j]
  }

  // A post-callback runs after the pre-callback of its key and after the post-callbacks of all
  // successors, except along an edge that closes a cycle.
  ghost predicate PostOrder(succ: string -> seq<string>, log: seq<Event>) {
    && (forall i :: 0 <= i < |log| && log[i].Post? ==> Pre(log[i].key) in log[..i])
    && (forall i, x :: 0 <= i < |log| && log[i].Post? && x in succ(log[i].key) ==>
          Post(x) in log[..i] || Reaches(succ, x, log[i].key))
  }

  // A run to completion: one pre-callback and one post-callback for each reachable key, and no other.
  ghost predicate Complete<S>(w: Walk<S>, roots: seq<string>, log: seq<Event>) {
    && AllReturned(w.pre, w.post, w.initial, log)
    && Once(log)
    && PostOrder(w.succ, log)
    && (forall k :: Pre(k) in log <==> Reachable(w.succ, roots, k))
    && (forall k :: Post(k) in log <==> Reachable(w.succ, roots, k))
  }

  // The callback raised on key k, in the state that the log accounts for.
  ghost predicate RaisedOn<S>(w: Walk<S>, state: S, log: seq<Event>, k: string) {
    && AllReturned(w.pre, w.post, w.initial, log)
    && state == Replay(w.pre, w.post, w.initial, log)
    && w.pre(state, k).Raise?
  }

  lemma AcyclicPostOrder<S>(w: Walk<S>, roots: seq<string>, log: seq<Event>)
    requires Complete(w, roots, log) && Acyclic(w.succ)
    ensures forall i, x :: 0 <= i < |log| && log[i].Post? && x in w.succ(log[i].key) ==> Post(x) in log[..i]
  {}

  // The log so far accounts for the captured state and the visited keys. The keys whose pre-callback
  // has run but not yet their post-callback form the recursion stack, a path of the graph.
  ghost predicate Consistent<S>(w: Walk<S>, visited: set<string>, state: S, log: seq<Event>, stack: seq<string>) {
    && state == Replay(w.pre, w.post, w.initial, log)
    && AllReturned(w.pre, w.post, w.initial, log)
    && Once(log)
    && PostOrder(w.succ, log)
    && (forall k :: k in visited <==> Pre(k) in log)
    && (forall k :: Post(k) in log ==> k in visited)
    && (forall k :: k in stack <==> k in visited && Post(k) !in log)
    && (forall k, x :: Post(k) in log && x in w.succ(k) ==> x in visited)
    && (forall i :: 0 <= i < |stack| - 1 ==> stack[i + 1] in w.succ(stack[i]))
    && (forall i, j :: 0 <= i < j < |stack| ==> stack[i] != stack[j])
  }

  lemma {:induction false} StackReachesTop(succ: string -> seq<string>, stack: seq<string>, i: int)
    requires 0 <= i < |stack|
    requires forall i :: 0 <= i < |stack| - 1 ==> stack[i + 1] in succ(stack[i])
    ensures Reaches(succ, stack[i], stack[|stack| - 1])
    decreases |stack| - i
  {
    if i == |stack| - 1 {
      ReachesSelf(succ, stack[i]);
    } else {
      StackReachesTop(succ, stack, i + 1);
      ReachesThrough(succ, stack[i], stack[i + 1], stack[|stack| - 1]);
    }
  }

  lemma ReplaySnoc<S>(w: Walk<S>, log: seq<Event>, e: Event)
    requires AllReturned(w.pre, w.post, w.initial, log)
    requires e.Pre? ==> w.pre(Replay(w.pre, w.post, w.initial, log), e.key).Return?
    ensures AllReturned(w.pre, w.post, w.initial, log + [e])
    ensures var s := Replay(w.pre, w.post, w.initial, log);
            Replay(w.pre, w.post, w.initial, log + [e]) == if e.Pre? then w.pre(s, e.key).state else w.post(s, e.key)
  {
    var l := log + [e];
    assert l[..|l| - 1] == log;
    forall i | 0 <= i < |l| && l[i].Pre? ensures w.pre(Replay(w.pre, w.post, w.initial, l[..i]), l[i].key).Return? {
      assert l[..i] == log[..i];
      if i < |log| { assert l[i] == log[i]; } else { assert log[..i] == log; }
    }
  }

  // Taking the last event off again.
  lemma ReplayLast<S>(pre: (S, string) -> Outcome<S>, post: (S, string) -> S, s: S, log: seq<Event>)
    requires log != [] && AllReturned(pre, post, s, log)
    ensures var l, e := log[..|log| - 1], log[|log| - 1];
            var t := Replay(pre, post, s, l);
            && AllReturned(pre, post, s, l)
            && (e.Pre? ==> pre(t, e.key).Return?)
            && Replay(pre, post, s, log) == if e.Pre? then pre(t, e.key).state else post(t, e.key)
  {
    var l := log[..|log| - 1];
    forall i | 0 <= i < |l| && l[i].Pre? ensures pre(Replay(pre, post, s, l[..i]), l[i].key).Return? {
      assert l[..i] == log[..i] && l[i] == log[i];
    }
  }

  lemma PostOrderSnoc(succ: string -> seq<string>, log: seq<Event>, e: Event)
    requires PostOrder(succ, log)
    requires e.Post? ==> Pre(e.key) in log
    requires e.Post? ==> forall x :: x in succ(e.key) ==> Post(x) in log || Reaches(succ, x, e.key)
    ensures PostOrder(succ, log + [e])
  {
    var l := log + [e];
    forall i | 0 <= i < |l| && l[i].Post? ensures Pre(l[i].key) in l[..i] {
      assert l[..i] == log[..i];
      if i < |log| { assert l[i] == log[i]; } else { assert log[..i] == log; }
    }
    forall i, x | 0 <= i < |l| && l[i].Post? && x in succ(l[i].key)
      ensures Post(x) in l[..i] || Reaches(succ, x, l[i].key)
    {
      assert l[..i] == log[..i];
      if i < |log| { assert l[i] == log[i]; } else { assert log[..i] == log; }
    }
  }

  lemma Enter<S>(w: Walk<S>, visited: set<string>, state: S, log: seq<Event>, stack: seq<string>, key: string)
    requires Consistent(w, visited, state, log, stack)
    requires key !in visited && w.pre(state, key).Return?
    requires |stack| > 0 ==> key in w.succ(stack[|stack| - 1])
    ensures Consistent(w, visited + {key}, w.pre(state, key).state, log + [Pre(key)], stack + [key])
  {
    hide Replay, AllReturned, PostOrder;
    ReplaySnoc(w, log, Pre(key));
    PostOrderSnoc(w.succ, log, Pre(key));
  }

  lemma Leave<S>(w: Walk<S>, visited: set<string>, state: S, log: seq<Event>, stack: seq<string>)
    requires Consistent(w, visited, state, log, stack)
    requires |stack| > 0 && forall x :: x in w.succ(stack[|stack| - 1]) ==> x in visited
    ensures var key := stack[|stack| - 1];
      Consistent(w, visited, w.post(state, key), log + [Post(key)], stack[..|stack| - 1])
  {
    hide Replay, AllReturned, PostOrder, Reaches;
    var key := stack[|stack| - 1];
    ReplaySnoc(w, log, Post(key));
    forall x | x in w.succ(key) ensures Post(x) in log || Reaches(w.succ, x, key) {
      if Post(x) !in log {
        assert x in stack;
        var i :| 0 <= i < |stack| && stack[i] == x;
        StackReachesTop(w.succ, stack, i);
      }
    }
    PostOrderSnoc(w.succ, log, Post(key));
    assert key in stack;
    assert stack == stack[..|stack| - 1] + [key];
  }

  lemma ReachableFromRoot(succ: string -> seq<string>, roots: seq<string>, i: nat, k: string)
    requires i < |roots| && Reaches(succ, roots[i], k)
    ensures Reachable(succ, roots, k)
  {}

  ghost predicate AllReachable(succ: string -> seq<string>, roots: seq<string>, s: set<string>) {
    forall k :: k in s ==> Reachable(succ, roots, k)
  }

  lemma WidenReachable(succ: string -> seq<string>, roots: seq<string>, i: nat, s: set<string>, t: set<string>)
    requires i < |roots| && AllReachable(succ, roots, s)
    requires forall k :: k in t - s ==> Reaches(succ, roots[i], k)
    ensures AllReachable(succ, roots, t)
  {
    forall k | k in t ensures Reachable(succ, roots, k) {
      if k !in s { ReachableFromRoot(succ, roots, i, k); }
    }
  }

  lemma Finish<S>(w: Walk<S>, visited: set<string>, state: S, log: seq<Event>, roots: seq<string>)
    requires Consistent(w, visited, state, log, [])
    requires forall r :: r in roots ==> r in visited
    requires AllReachable(w.succ, roots, visited)
    ensures Complete(w, roots, log) && state == Replay(w.pre, w.post, w.initial, log)
    ensures forall k :: k in visited <==> Reachable(w.succ, roots, k)
  {
    hide AllReturned, PostOrder, Reachable;
    forall k | Reachable(w.succ, roots, k) ensures k in visited {
      forall k, x | k in visited && x in w.succ(k) ensures x in visited {
        assert k !in [];
      }
      ClosedContains(w.succ, visited, roots, k);
    }
    forall k | k in visited ensures Post(k) in log {
      assert k !in [];
    }
  }

  class DagTraverse<S(!new)> {
    const w: Walk<S>
    ghost const universe: set<string>
    var visitedKeys: set<string>
    var state: S
    ghost var log: seq<Event>
    ghost var stack: seq<string>

    ghost predicate Valid()
      reads this
    {
      && (forall s, k :: w.pre(s, k).Return? ==> k in universe && w.pre(s, k).next == w.succ(k))
      && Consistent(w, visitedKeys, state, log, stack)
    }

    // The callback raises outside a finite universe of keys, and otherwise returns the successors of its key.
    constructor (w: Walk<S>, ghost universe: set<string>)
      requires forall s, k :: w.pre(s, k).Return? ==> k in universe && w.pre(s, k).next == w.succ(k)
      ensures Valid() && log == [] && stack == [] && this.w == w
    {
      this.w, this.universe, visitedKeys, state, log, stack := w, universe, {}, w.initial, [], [];
    }

    // On success every key newly visited is reachable from key; on failure a reachable key raised.
    method Recurse(key: string) returns (ok: bool, ghost bad: string)
      requires Valid()
      requires |stack| > 0 ==> key in w.succ(stack[|stack| - 1])
      modifies this
      decreases universe - visitedKeys
      ensures old(visitedKeys) <= visitedKeys
      ensures forall k :: k in visitedKeys - old(visitedKeys) ==> Reaches(w.succ, key, k)
      ensures ok ==> Valid() && key in visitedKeys && stack == old(stack)
      ensures !ok ==> Reaches(w.succ, key, bad) && RaisedOn(w, state, log, bad)
    {
      hide Consistent, Reaches;
      bad := key;
      if key in visitedKeys {
        return true, bad;
      }
      ReachesSelf(w.succ, key);
      var t := w.pre(state, key);
      if t.Raise? {
        assert RaisedOn(w, state, log, key) by { LogAccountsForState(); }
        visitedKeys := visitedKeys + {key};
        return false, bad;
      }
      Enter(w, visitedKeys, state, log, stack, key);
      visitedKeys, state, log, stack := visitedKeys + {key}, t.state, log + [Pre(key)], stack + [key];
      var i := 0;
      while i < |t.next|
        invariant 0 <= i <= |t.next|
        invariant Valid() && stack == old(stack) + [key]
        invariant old(visitedKeys) + {key} <= visitedKeys
        invariant forall k :: k in visitedKeys - old(visitedKeys) ==> Reaches(w.succ, key, k)
        invariant forall j :: 0 <= j < i ==> t.next[j] in visitedKeys
      {
        label before:
        ok, bad := Recurse(t.next[i]);
        forall k | k in visitedKeys - old@before(visitedKeys) ensures Reaches(w.succ, key, k) {
          ReachesThrough(w.succ, key, t.next[i], k);
        }
        if !ok {
          ReachesThrough(w.succ, key, t.next[i], bad);
          return false, bad;
        }
        i := i + 1;
      }
      Leave(w, visitedKeys, state, log, stack);
      state, log, stack := w.post(state, key), log + [Post(key)], stack[..|stack| - 1];
      return true, bad;
    }

    // The whole of dag_traverse.
    method Traverse(roots: seq<string>) returns (ok: bool, ghost bad: string)
      requires Valid() && log == [] && stack == []
      modifies this
      ensures ok ==> Complete(w, roots, log) && state == Replay(w.pre, w.post, w.initial, log)
      ensures ok ==> forall k :: k in visitedKeys <==> Reachable(w.succ, roots, k)
      ensures !ok ==> Reachable(w.succ, roots, bad) && RaisedOn(w, state, log, bad)
    {
      hide Consistent, Reachable, Reaches, Complete, RaisedOn, AllReturned, Replay, PostOrder, Once, AllReachable;
      NothingVisited(roots);
      var i := 0;
      while i < |roots|
        invariant 0 <= i <= |roots|
        invariant Valid() && stack == []
        invariant AllReachable(w.succ, roots, visitedKeys)
        invariant forall j :: 0 <= j < i ==> roots[j] in visitedKeys
      {
        ghost var before := visitedKeys;
        ok, bad := Recurse(roots[i]);
        if !ok {
          ReachableFromRoot(w.succ, roots, i, bad);
          return;
        }
        WidenReachable(w.succ, roots, i, before, visitedKeys);
        i := i + 1;
      }
      Finish(w, visitedKeys, state, log, roots);
      ok, bad := true, "";
    }

    lemma LogAccountsForState()
      requires Valid()
      ensures AllReturned(w.pre, w.post, w.initial, log) && state == Replay(w.pre, w.post, w.initial, log)
    {}

    lemma NothingVisited(roots: seq<string>)
      requires Valid() && log == []
      ensures AllReachable(w.succ, roots, visitedKeys)
    {}
  }
}
