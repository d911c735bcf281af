/** The initial table stacks of the two inference modes
    (heart/inference/FixedOrderInference.java and GoalDrivenInference.java). A
    table is identified by its position in the model's table list; a stack is a
    sequence of positions whose last element is the top, so tables fire in the
    reverse of the stack's order. */
module Ordering {
  import opened Errors
  import opened Values
  import opened Rules

  function Reverse(s: seq<nat>): (r: seq<nat>)
    ensures |r| == |s| && forall i :: 0 <= i < |s| ==> r[i] == s[|s| - 1 - i]
    decreases |s|
  {
    if |s| == 0 then [] else [s[|s| - 1]] + Reverse(s[..|s| - 1])
  }

  lemma ReverseConcat(a: seq<nat>, b: seq<nat>)
    ensures Reverse(a + b) == Reverse(b) + Reverse(a)
  {
  }

  /** The order in which the tables of a stack fire. */
  function Popped(stack: seq<nat>): seq<nat> {
    Reverse(stack)
  }

  /** The positions, in model order, of the tables satisfying `p`. */
  function Indices(tables: seq<Table>, p: Table -> bool): (r: seq<nat>)
    ensures forall i :: 0 <= i < |r| ==> r[i] < |tables| && p(tables[r[i]])
    ensures forall k :: 0 <= k < |tables| && p(tables[k]) ==> k in r
    ensures forall i, j :: 0 <= i < j < |r| ==> r[i] < r[j]
    decreases |tables|
  {
    if |tables| == 0 then []
    else
      var init := tables[..|tables| - 1];
      var prev := Indices(init, p);
      assert forall k :: 0 <= k < |init| ==> init[k] == tables[k];
      if p(tables[|tables| - 1]) then prev + [|tables| - 1] else prev
  }

  // FixedOrderInference

  /** initStackForAttributes: the fixed order cannot start from goal attributes. */
  function FixedForAttributes(names: seq<string>): (r: Result<seq<nat>>)
    ensures r.Fail? && r.error == UnsupportedOperation
  {
    Fail(UnsupportedOperation)
  }

  /** The tables named `name`, in model order. */
  function Named(tables: seq<Table>, name: string): (r: seq<nat>)
    ensures forall k: nat :: k in r <==> k < |tables| && tables[k].name == name
  {
    Indices(tables, (t: Table) => t.name == name)
  }

  /** The intended firing order of a fixed-order inference: the tables of each
      listed name in turn; the tables sharing a name fire last-defined first. */
  function FiringOrder(tables: seq<Table>, names: seq<string>): seq<nat>
    decreases |names|
  {
    if |names| == 0 then [] else Reverse(Named(tables, names[0])) + FiringOrder(tables, names[1..])
  }

  /** The inner loop of initStackForTables: every model table named `name` is
      pushed, in model order. */
  method PushNamed(tables: seq<Table>, name: string, before: seq<nat>) returns (stack: seq<nat>)
    ensures stack == before + Named(tables, name)
  {
    stack := before;
    var j := 0;
    while j < |tables|
      invariant 0 <= j <= |tables|
      invariant stack == before + Named(tables[..j], name)
    {
      assert tables[..j + 1][..j] == tables[..j];
      if tables[j].name == name {
        stack := stack + [j];
      }
      j := j + 1;
    }
    assert tables[..|tables|] == tables;
  }

  /** initStackForTables: the names are walked from last to first, and for each
      every model table of that name is pushed, in model order. */
  method FixedForTables(tables: seq<Table>, names: seq<string>) returns (stack: seq<nat>)
    ensures Popped(stack) == FiringOrder(tables, names)
    ensures InRange(tables, stack)
  {
    stack := [];
    var i := |names|;
    while i > 0
      invariant 0 <= i <= |names|
      invariant Popped(stack) == FiringOrder(tables, names[i..])
      invariant InRange(tables, stack)
    {
      i := i - 1;
      var before := stack;
      stack := PushNamed(tables, names[i], before);
      ReverseConcat(before, Named(tables, names[i]));
      assert names[i..][1..] == names[i + 1..];
    }
  }

  /** Listing two name sequences one after the other fires their tables one after
      the other; so a repeated name fires its tables again. */
  lemma {:induction false} FiringOrderConcat(tables: seq<Table>, a: seq<string>, b: seq<string>)
    ensures FiringOrder(tables, a + b) == FiringOrder(tables, a) + FiringOrder(tables, b)
    decreases |a|
  {
    if |a| == 0 {
      assert a + b == b;
    } else {
      assert (a + b)[0] == a[0];
      assert (a + b)[1..] == a[1..] + b;
      FiringOrderConcat(tables, a[1..], b);
    }
  }

  /** A name no table carries contributes nothing; a name carried by exactly the
      table at `k` fires that table alone. */
  lemma FiringOrderOfOneName(tables: seq<Table>, name: string, k: nat)
    ensures (forall i :: 0 <= i < |tables| ==> tables[i].name != name) ==> FiringOrder(tables, [name]) == []
    ensures k < |tables| && (forall i :: 0 <= i < |tables| ==> (tables[i].name == name <==> i == k)) ==>
              FiringOrder(tables, [name]) == [k]
  {
    var r := Named(tables, name);
    assert FiringOrder(tables, [name]) == Reverse(r) + FiringOrder(tables, []);
    if k < |tables| && (forall i :: 0 <= i < |tables| ==> (tables[i].name == name <==> i == k)) {
      assert k in r;
      assert forall i :: 0 <= i < |r| ==> r[i] == k;
      assert |r| == 1 by {
        if |r| > 1 {
          assert false;
        }
      }
    }
  }

  // GoalDrivenInference

  /** findTablesWithConclusions: the tables, in model order, concluding `a`. */
  function Producers(tables: seq<Table>, a: Attribute): (r: seq<nat>)
    ensures forall k: nat :: k in r <==> k < |tables| && a in tables[k].conclusion
    ensures forall i, j :: 0 <= i < j < |r| ==> r[i] < r[j]
  {
    Indices(tables, (t: Table) => a in t.conclusion)
  }

  /** resolveTable: the first table of that name. */
  function ResolveTable(tables: seq<Table>, name: string): (r: Option<nat>)
    ensures r.None? <==> forall i :: 0 <= i < |tables| ==> tables[i].name != name
    ensures r.Some? ==> r.value < |tables| && tables[r.value].name == name &&
                        forall i :: 0 <= i < r.value ==> tables[i].name != name
  {
    var r := Named(tables, name);
    if |r| == 0 then None
    else
      assert forall x :: x in r ==> r[0] <= x;
      Some(r[0])
  }

  predicate Distinct(s: seq<nat>) {
    forall i, j :: 0 <= i < j < |s| ==> s[i] != s[j]
  }

  lemma DistinctConcat(a: seq<nat>, b: seq<nat>)
    requires Distinct(a) && Distinct(b) && forall x :: x in a ==> x !in b
    ensures Distinct(a + b)
  {
    forall i, j | 0 <= i < j < |a + b| ensures (a + b)[i] != (a + b)[j] {
      if j >= |a| && i < |a| {
        assert (a + b)[i] in a && (a + b)[j] in b;
      }
    }
  }

  /** LinkedList.removeAll: `s` without the elements of `t`, in order. */
  function Without(s: seq<nat>, t: seq<nat>): (r: seq<nat>)
    ensures forall x :: x in r <==> x in s && x !in t
    ensures Distinct(s) ==> Distinct(r)
    decreases |s|
  {
    if |s| == 0 then []
    else
      var last := s[|s| - 1];
      var rest := Without(s[..|s| - 1], t);
      assert Distinct(s) ==> last !in s[..|s| - 1] by {
        if Distinct(s) {
          assert forall j :: 0 <= j < |s| - 1 ==> s[..|s| - 1][j] == s[j] != last;
        }
      }
      if last in t then rest else
        assert Distinct(s) ==> Distinct(rest + [last]) by {
          if Distinct(s) {
            DistinctConcat(rest, [last]);
          }
        }
        rest + [last]
  }

  /** Some attribute of `pre` is among those the table concludes. */
  predicate Feeds(t: Table, pre: seq<Attribute>)
    decreases |pre|
  {
    |pre| > 0 && (pre[|pre| - 1] in t.conclusion || Feeds(t, pre[..|pre| - 1]))
  }

  /** `Feeds` is the existence of a shared attribute. */
  lemma {:induction false} FeedsShares(t: Table, pre: seq<Attribute>)
    ensures Feeds(t, pre) <==> exists a :: a in pre && a in t.conclusion
    decreases |pre|
  {
    if |pre| > 0 {
      var init := pre[..|pre| - 1];
      FeedsShares(t, init);
      assert pre == init + [pre[|pre| - 1]];
      if Feeds(t, init) {
        var a :| a in init && a in t.conclusion;
        assert a in pre;
      }
      if exists a :: a in pre && a in t.conclusion {
        var a :| a in pre && a in t.conclusion;
        assert a in init || a == pre[|pre| - 1];
      }
    }
  }

  /** The neighbourhood loop of BFSDive over the attributes `pre`: the producers of
      each attribute, moved to the end when already present. */
  function NeighboursOf(tables: seq<Table>, pre: seq<Attribute>): (r: seq<nat>)
    ensures forall x: nat :: x in r <==> x < |tables| && Feeds(tables[x], pre)
    ensures forall i :: 0 <= i < |r| ==> r[i] < |tables|
    ensures Distinct(r)
    decreases |pre|
  {
    if |pre| == 0 then []
    else
      var init, last := pre[..|pre| - 1], pre[|pre| - 1];
      var prev := NeighboursOf(tables, init);
      var partial := Producers(tables, last);
      var kept := Without(prev, partial);
      assert forall i :: 0 <= i < |kept| ==> kept[i] in prev;
      DistinctConcat(kept, partial);
      kept + partial
  }

  /** The tables producing what the table at `v` reads. */
  function Neighbours(tables: seq<Table>, v: nat): (r: seq<nat>)
    requires v < |tables|
    ensures forall x: nat :: x in r <==> x < |tables| && Feeds(tables[x], tables[v].precondition)
    ensures forall i :: 0 <= i < |r| ==> r[i] < |tables|
    ensures Distinct(r)
  {
    var pre := tables[v].precondition;
    assert pre[..|pre|] == pre;
    NeighboursOf(tables, pre)
  }

  /** The positions below `n`. */
  function Universe(n: nat): (u: set<nat>)
    ensures forall x: nat :: x in u <==> x < n
  {
    if n == 0 then {} else Universe(n - 1) + {n - 1}
  }

  /** Taking away more of a finite set leaves fewer elements outside. */
  lemma FewerOutside(u: set<nat>, grey: set<nat>, grey1: set<nat>)
    requires grey <= grey1 <= u && grey1 != grey
    ensures |u - grey1| < |u - grey|
  {
    var x :| x in grey1 && x !in grey;
    var d := (u - grey) - (u - grey1);
    assert x in d;
    assert u - grey == (u - grey1) + d;
    assert (u - grey1) * d == {};
  }

  /** The enqueueing loop of BFSDive over a neighbourhood `ns`: a neighbour that is
      neither grey nor visited becomes grey and is pushed onto the head of the
      queue. The result is the grey set after the loop and the pushed tables in
      their order in the queue, the last pushed first. */
  function Enqueue(ns: seq<nat>, grey: set<nat>, visited: seq<nat>): (r: (set<nat>, seq<nat>))
    ensures grey <= r.0
    ensures forall x :: x in r.0 ==> x in grey || x in ns
    ensures r.0 == grey ==> r.1 == []
    ensures forall i :: 0 <= i < |r.1| ==> r.1[i] in ns && r.1[i] !in grey && r.1[i] !in visited
    decreases |ns|
  {
    if |ns| == 0 then (grey, [])
    else if ns[0] !in grey && ns[0] !in visited then
      var rest := Enqueue(ns[1..], grey + {ns[0]}, visited);
      (rest.0, rest.1 + [ns[0]])
    else Enqueue(ns[1..], grey, visited)
  }

  /** The positions are those of tables. */
  predicate InRange(tables: seq<Table>, s: seq<nat>) {
    forall i :: 0 <= i < |s| ==> s[i] < |tables|
  }

  /** The state BFSDive ends in: the visited tables in visiting order, and the
      grey set shared by the dives. */
  datatype Dived = Dived(visited: seq<nat>, grey: set<nat>)

  /** One round of BFSDive's loop: the neighbours of the head of the queue are
      enqueued, and the new grey set and queue are returned. It takes a table
      away from the rest of the model, or, when nothing is enqueued, shortens the
      queue. */
  function Step(tables: seq<Table>, visited: seq<nat>, grey: set<nat>, q: seq<nat>): (e: (set<nat>, seq<nat>))
    requires InRange(tables, q) && |q| > 0 && grey <= Universe(|tables|)
    ensures grey <= e.0 <= Universe(|tables|)
    ensures InRange(tables, e.1)
    ensures e.0 == grey ==> |e.1| < |q|
    ensures e.0 != grey ==> |Universe(|tables|) - e.0| < |Universe(|tables|) - grey|
    ensures |e.1| >= |q| - 1
  {
    var ns := Neighbours(tables, q[0]);
    var r := Enqueue(ns, grey, visited);
    assert r.0 != grey ==> |Universe(|tables|) - r.0| < |Universe(|tables|) - grey| by {
      if r.0 != grey {
        FewerOutside(Universe(|tables|), grey, r.0);
      }
    }
    (r.0, r.1 + q[1..])
  }

  /** BFSDive from the queue `q`: the head is popped, its neighbours enqueued, and
      it is then appended to the visited tables. The vertex is only checked
      against grey and visited when it is enqueued, so the starter, which is
      never grey, can be visited a second time. */
  function Dive(tables: seq<Table>, visited: seq<nat>, grey: set<nat>, q: seq<nat>): (r: Dived)
    requires InRange(tables, q) && grey <= Universe(|tables|)
    ensures grey <= r.grey <= Universe(|tables|)
    ensures |visited| + |q| <= |r.visited| && r.visited[..|visited|] == visited
    decreases |Universe(|tables|) - grey|, |q|
  {
    if |q| == 0 then Dived(visited, grey)
    else
      var e := Step(tables, visited, grey, q);
      var v1 := visited + [q[0]];
      var r := Dive(tables, v1, e.0, e.1);
      assert |r.visited| >= |v1| + |e.1| >= |visited| + |q|;
      assert r.visited[..|visited|] == r.visited[..|v1|][..|visited|] == v1[..|visited|] == visited;
      r
  }

  /** BFSDive: the dive from a starter, with no table visited yet. The starter is
      visited first. */
  function BFSDive(tables: seq<Table>, grey: set<nat>, starter: nat): (r: Dived)
    requires starter < |tables| && grey <= Universe(|tables|)
    ensures grey <= r.grey <= Universe(|tables|)
    ensures |r.visited| >= 1 && r.visited[0] == starter
    ensures InRange(tables, r.visited)
  {
    DiveInRange(tables, [], grey, [starter]);
    DiveFromOne(tables, [], grey, starter);
    var e := Step(tables, [], grey, [starter]);
    var r := Dive(tables, [] + [starter], e.0, e.1);
    assert r.visited[..1] == [starter];
    r
  }

  /** The table at `producer` concludes something the table at `consumer` reads. */
  predicate Edge(tables: seq<Table>, consumer: nat, producer: nat) {
    consumer < |tables| && producer < |tables| && Feeds(tables[producer], tables[consumer].precondition)
  }

  /** `parent` names, for every visited table after the first, a table visited
      before it that it produces something for. */
  predicate ChainedBy(tables: seq<Table>, visited: seq<nat>, parent: seq<nat>) {
    |parent| == |visited| &&
    forall k {:trigger parent[k]} :: 1 <= k < |visited| ==>
      parent[k] < k && Edge(tables, visited[parent[k]], visited[k])
  }

  /** Every visited table after the first produces something for a table visited
      before it. */
  ghost predicate Chained(tables: seq<Table>, visited: seq<nat>) {
    exists parent :: ChainedBy(tables, visited, parent)
  }

  /** `parent` names, for every queued table, a visited table it produces
      something for. */
  predicate ParentedBy(tables: seq<Table>, visited: seq<nat>, q: seq<nat>, parent: seq<nat>) {
    |parent| == |q| &&
    forall i {:trigger parent[i]} :: 0 <= i < |q| ==>
      parent[i] < |visited| && Edge(tables, visited[parent[i]], q[i])
  }

  /** The queue after a round holds the new neighbours of the popped table, then
      the rest of the old queue. */
  lemma StepShape(tables: seq<Table>, visited: seq<nat>, grey: set<nat>, q: seq<nat>)
    requires InRange(tables, q) && |q| > 0 && grey <= Universe(|tables|)
    ensures var e := Step(tables, visited, grey, q);
      var added := |e.1| - (|q| - 1);
      && added >= 0
      && (forall i :: 0 <= i < added ==> Edge(tables, q[0], e.1[i]) && e.1[i] !in grey && e.1[i] !in visited)
      && (forall i :: added <= i < |e.1| ==> e.1[i] == q[i - added + 1])
  {
    var ns := Neighbours(tables, q[0]);
    var r := Enqueue(ns, grey, visited);
    var e := Step(tables, visited, grey, q);
    assert e.1 == r.1 + q[1..];
    forall i | 0 <= i < |r.1| ensures Edge(tables, q[0], e.1[i]) && e.1[i] !in grey && e.1[i] !in visited {
      var x := r.1[i];
      assert x in ns;
      assert e.1[i] == x;
    }
    forall i | |r.1| <= i < |e.1| ensures e.1[i] == q[i - |r.1| + 1] {
      assert e.1[i] == q[1..][i - |r.1|];
      assert q[1..][i - |r.1|] == q[i - |r.1| + 1];
    }
  }

  /** Visiting the head of the queue keeps every visited table chained to an
      earlier one: the head's parent is the one the queue recorded. */
  lemma ChainedByExtend(tables: seq<Table>, visited: seq<nat>, parent: seq<nat>, q: seq<nat>, qParent: seq<nat>)
    requires |q| > 0 && ChainedBy(tables, visited, parent) && ParentedBy(tables, visited, q, qParent)
    ensures ChainedBy(tables, visited + [q[0]], parent + [qParent[0]])
  {
    var v1 := visited + [q[0]];
    var parent1 := parent + [qParent[0]];
    forall k | 1 <= k < |v1| ensures parent1[k] < k && Edge(tables, v1[parent1[k]], v1[k]) {
      if k < |visited| {
        assert parent1[k] == parent[k];
      } else {
        assert parent1[k] == qParent[0];
      }
    }
  }

  /** After a round, the new neighbours have the popped table as parent and the
      rest of the queue keeps its parents. */
  lemma ParentedAfterStep(tables: seq<Table>, visited: seq<nat>, grey: set<nat>, q: seq<nat>, qParent: seq<nat>)
    requires InRange(tables, q) && |q| > 0 && grey <= Universe(|tables|)
    requires ParentedBy(tables, visited, q, qParent)
    ensures var nq := Step(tables, visited, grey, q).1;
      |nq| >= |q| - 1 &&
      ParentedBy(tables, visited + [q[0]], nq, seq(|nq| - (|q| - 1), _ => |visited|) + qParent[1..])
  {
    var nq := Step(tables, visited, grey, q).1;
    StepShape(tables, visited, grey, q);
    var added := |nq| - (|q| - 1);
    var v1 := visited + [q[0]];
    var qParent1 := seq(added, _ => |visited|) + qParent[1..];
    forall i | 0 <= i < |nq| ensures qParent1[i] < |v1| && Edge(tables, v1[qParent1[i]], nq[i]) {
      if i < added {
        assert qParent1[i] == |visited|;
      } else {
        assert qParent1[i] == qParent[i - added + 1];
        assert nq[i] == q[i - added + 1];
      }
    }
  }

  /** A dive only visits tables of the model. */
  lemma {:induction false} DiveInRange(tables: seq<Table>, visited: seq<nat>, grey: set<nat>, q: seq<nat>)
    requires InRange(tables, q) && grey <= Universe(|tables|) && InRange(tables, visited)
    ensures InRange(tables, Dive(tables, visited, grey, q).visited)
    decreases |Universe(|tables|) - grey|, |q|
  {
    if |q| > 0 {
      var e := Step(tables, visited, grey, q);
      DiveInRange(tables, visited + [q[0]], e.0, e.1);
    }
  }

  /** The dive keeps the chain: a table is only ever queued as a producer for the
      table being visited. */
  lemma {:induction false} DiveChains(tables: seq<Table>, visited: seq<nat>, grey: set<nat>, q: seq<nat>,
                                      parent: seq<nat>, qParent: seq<nat>)
    requires InRange(tables, q) && grey <= Universe(|tables|)
    requires ChainedBy(tables, visited, parent) && ParentedBy(tables, visited, q, qParent)
    ensures Chained(tables, Dive(tables, visited, grey, q).visited)
    decreases |Universe(|tables|) - grey|, |q|
  {
    if |q| == 0 {
      assert Dive(tables, visited, grey, q).visited == visited;
    } else {
      var e := Step(tables, visited, grey, q);
      var v1 := visited + [q[0]];
      var parent1 := parent + [qParent[0]];
      ChainedByExtend(tables, visited, parent, q, qParent);
      ParentedAfterStep(tables, visited, grey, q, qParent);
      var qParent1 := seq(|e.1| - (|q| - 1), _ => |visited|) + qParent[1..];
      DiveChains(tables, v1, e.0, e.1, parent1, qParent1);
      assert Dive(tables, visited, grey, q) == Dive(tables, v1, e.0, e.1);
    }
  }

  /** A table the dive enqueues was not grey when the dive began. */
  lemma {:induction false} DiveAvoidsGrey(tables: seq<Table>, visited: seq<nat>, grey: set<nat>, q: seq<nat>, grey0: set<nat>)
    requires InRange(tables, q) && grey <= Universe(|tables|)
    requires grey0 <= grey && forall i :: 0 <= i < |q| ==> q[i] !in grey0
    ensures var r := Dive(tables, visited, grey, q).visited;
      forall k :: |visited| <= k < |r| ==> r[k] !in grey0
    decreases |Universe(|tables|) - grey|, |q|
  {
    if |q| > 0 {
      var e := Step(tables, visited, grey, q);
      StepShape(tables, visited, grey, q);
      var added := |e.1| - (|q| - 1);
      assert forall i :: 0 <= i < |e.1| ==> e.1[i] !in grey0 by {
        forall i | 0 <= i < |e.1| ensures e.1[i] !in grey0 {
          if i >= added {
            assert e.1[i] == q[i - added + 1];
          }
        }
      }
      DiveAvoidsGrey(tables, visited + [q[0]], e.0, e.1, grey0);
      assert forall k :: |visited + [q[0]]| <= k < |Dive(tables, visited + [q[0]], e.0, e.1).visited| ==> Dive(tables, visited + [q[0]], e.0, e.1).visited[k] !in grey0;
      var r := Dive(tables, visited + [q[0]], e.0, e.1).visited;
      assert Dive(tables, visited, grey, q).visited == r;
      assert r[..|visited| + 1] == visited + [q[0]];
      assert r[|visited|] == q[0] by {
        assert r[..|visited| + 1][|visited|] == r[|visited|];
      }
      assert |visited + [q[0]]| == |visited| + 1;
      assert forall k :: |visited| + 1 <= k < |r| ==> r[k] !in grey0;
      forall k | |visited| <= k < |r| ensures r[k] !in grey0 {
        if k == |visited| {
          assert r[k] == q[0];
        }
      }
    }
  }

  /** BFSDive visits producers after their consumers: every table it visits after
      the starter produces something for a table visited earlier, and was not grey
      when the dive began. */
  lemma BFSDiveOrder(tables: seq<Table>, grey: set<nat>, starter: nat)
    requires starter < |tables| && grey <= Universe(|tables|)
    ensures var r := BFSDive(tables, grey, starter).visited;
      && Chained(tables, r)
      && forall k :: 1 <= k < |r| ==> r[k] !in grey
  {
    var q := [starter];
    var e := Step(tables, [], grey, q);
    StepShape(tables, [], grey, q);
    var none: seq<nat> := [];
    assert none + [q[0]] == [starter];
    assert Dive(tables, none, grey, q) == Dive(tables, [starter], e.0, e.1);
    var qParent := seq(|e.1|, _ => 0);
    assert ParentedBy(tables, [starter], e.1, qParent) by {
      forall i | 0 <= i < |e.1| ensures qParent[i] < 1 && Edge(tables, [starter][qParent[i]], e.1[i]) {
        assert qParent[i] == 0;
      }
    }
    DiveChains(tables, [starter], e.0, e.1, [0], qParent);
    assert forall i :: 0 <= i < |e.1| ==> e.1[i] !in grey;
    DiveAvoidsGrey(tables, [starter], e.0, e.1, grey);
    var v1 := [starter];
    assert forall k :: |v1| <= k < |Dive(tables, v1, e.0, e.1).visited| ==> Dive(tables, v1, e.0, e.1).visited[k] !in grey;
  }

  /** The private initStackForTables over the starters: a dive from each starter
      in turn, sharing one grey set, with each branch put in front of the result
      so far. The stack pushes the result in order. */
  function FromStarters(tables: seq<Table>, starters: seq<nat>, grey: set<nat>): (r: Dived)
    requires InRange(tables, starters) && grey <= Universe(|tables|)
    ensures grey <= r.grey <= Universe(|tables|)
    ensures InRange(tables, r.visited)
    ensures forall i :: 0 <= i < |starters| ==> starters[i] in r.visited
    decreases |starters|
  {
    if |starters| == 0 then Dived([], grey)
    else
      var branch := BFSDive(tables, grey, starters[0]);
      var rest := FromStarters(tables, starters[1..], branch.grey);
      var v := rest.visited + branch.visited;
      assert InRange(tables, v) by {
        forall i | 0 <= i < |v| ensures v[i] < |tables| {
          if i < |rest.visited| {
            assert v[i] == rest.visited[i];
          } else {
            assert v[i] == branch.visited[i - |rest.visited|];
          }
        }
      }
      assert forall i :: 0 <= i < |starters| ==> starters[i] in v by {
        forall i | 0 <= i < |starters| ensures starters[i] in v {
          if i == 0 {
            assert v[|rest.visited|] == branch.visited[0];
          } else {
            assert starters[i] == starters[1..][i - 1];
          }
        }
      }
      Dived(v, rest.grey)
  }

  /** The branch of the first starter fires first, deepest producer first and the
      starter itself last; then the branches of the later starters. */
  lemma FirstStarterFiresFirst(tables: seq<Table>, starters: seq<nat>, grey: set<nat>)
    requires InRange(tables, starters) && grey <= Universe(|tables|) && |starters| > 0
    ensures var branch := BFSDive(tables, grey, starters[0]).visited;
      var order := Popped(FromStarters(tables, starters, grey).visited);
      && |branch| <= |order|
      && order[..|branch|] == Reverse(branch)
      && order[|branch| - 1] == starters[0]
      && order[|branch|..] == Popped(FromStarters(tables, starters[1..], BFSDive(tables, grey, starters[0]).grey).visited)
  {
    var b := BFSDive(tables, grey, starters[0]);
    var rest := FromStarters(tables, starters[1..], b.grey);
    ReverseConcat(rest.visited, b.visited);
  }

  /** GoalDrivenInference.initStackForTables: the names are resolved in order, a
      name no table carries is skipped, and each resolved table is pushed onto the
      front of the starters. */
  function PushResolved(tables: seq<Table>, names: seq<string>, starters: seq<nat>): (r: seq<nat>)
    requires InRange(tables, starters)
    ensures InRange(tables, r)
    decreases |names|
  {
    if |names| == 0 then starters
    else
      match ResolveTable(tables, names[0])
      case None => PushResolved(tables, names[1..], starters)
      case Some(t) => PushResolved(tables, names[1..], [t] + starters)
  }

  /** The tables the names resolve to, in the order of the names. */
  function Resolved(tables: seq<Table>, names: seq<string>): seq<nat>
    decreases |names|
  {
    if |names| == 0 then []
    else
      match ResolveTable(tables, names[0])
      case None => Resolved(tables, names[1..])
      case Some(t) => [t] + Resolved(tables, names[1..])
  }

  /** Pushing onto the front reverses: the starters are the resolved tables, last
      name first. */
  lemma {:induction false} PushResolvedReverses(tables: seq<Table>, names: seq<string>, starters: seq<nat>)
    requires InRange(tables, starters)
    ensures PushResolved(tables, names, starters) == Reverse(Resolved(tables, names)) + starters
    decreases |names|
  {
    if |names| > 0 {
      var rest := names[1..];
      match ResolveTable(tables, names[0])
      case None =>
        assert PushResolved(tables, names, starters) == PushResolved(tables, rest, starters);
        assert Resolved(tables, names) == Resolved(tables, rest);
        PushResolvedReverses(tables, rest, starters);
      case Some(t) =>
        var rs := Resolved(tables, rest);
        assert PushResolved(tables, names, starters) == PushResolved(tables, rest, [t] + starters);
        assert Resolved(tables, names) == [t] + rs;
        PushResolvedReverses(tables, rest, [t] + starters);
        ReverseConcat([t], rs);
        assert Reverse([t]) == [t];
        assert Reverse(rs) + ([t] + starters) == (Reverse(rs) + [t]) + starters;
    }
  }


  function GoalForTables(tables: seq<Table>, names: seq<string>): (stack: seq<nat>)
    ensures InRange(tables, stack)
  {
    FromStarters(tables, PushResolved(tables, names, []), {}).visited
  }

  /** initStackForAttributes: the producers of each goal attribute, looked up by
      name among the model's attributes, in the order of the goals; a name the
      model does not define has no producers. */
  function GoalStarters(tables: seq<Table>, attrs: seq<Attribute>, goals: seq<string>): (r: seq<nat>)
    ensures InRange(tables, r)
    ensures forall k: nat :: k in r <==> (k < |tables| &&
              exists g, a :: g in goals && AttributeNamed(attrs, g) == Some(a) && a in tables[k].conclusion)
    decreases |goals|
  {
    if |goals| == 0 then []
    else
      var ps := match AttributeNamed(attrs, goals[0]) case None => [] case Some(a) => Producers(tables, a);
      var rest := GoalStarters(tables, attrs, goals[1..]);
      assert forall g :: g in goals <==> g == goals[0] || g in goals[1..];
      ps + rest
  }

  function GoalForAttributes(tables: seq<Table>, attrs: seq<Attribute>, goals: seq<string>): (stack: seq<nat>)
    ensures InRange(tables, stack)
  {
    FromStarters(tables, GoalStarters(tables, attrs, goals), {}).visited
  }

  /** With a goal attribute that some table concludes, the first such table's
      branch fires first, deepest producer first, ending with that table. */
  lemma FirstGoalProducerFiresFirst(tables: seq<Table>, attrs: seq<Attribute>, goals: seq<string>)
    ensures var ss := GoalStarters(tables, attrs, goals);
      |ss| > 0 ==>
      var branch := BFSDive(tables, {}, ss[0]).visited;
      var order := Popped(GoalForAttributes(tables, attrs, goals));
      && |branch| <= |order|
      && order[..|branch|] == Reverse(branch)
      && order[|branch| - 1] == ss[0]
  {
    var ss := GoalStarters(tables, attrs, goals);
    if |ss| > 0 {
      var none: set<nat> := {};
      assert none <= Universe(|tables|);
      assert GoalForAttributes(tables, attrs, goals) == FromStarters(tables, ss, none).visited;
      FirstStarterFiresFirst(tables, ss, none);
    }
  }

  /** A duplicate-free sequence holding exactly one position is that position. */
  lemma Singleton(r: seq<nat>, k: nat)
    requires Distinct(r) && forall x: nat :: x in r <==> x == k
    ensures r == [k]
  {
    assert k in r;
    FirstTwo(r);
  }

  lemma FirstTwo(r: seq<nat>)
    ensures |r| > 1 ==> r[0] in r && r[1] in r
  {
  }

  /** A name of the goal list resolves to a table; the last resolving name is
      pushed last, so its branch fires first, and its own table last within that
      branch. With the goal tables [X, Y], Y and what it needs fire before X. */
  lemma LastGoalTableFiresFirst(tables: seq<Table>, names: seq<string>)
    requires |Resolved(tables, names)| > 0
    ensures var rs := Resolved(tables, names);
      var last := rs[|rs| - 1];
      last < |tables| &&
      var branch := BFSDive(tables, {}, last).visited;
      var order := Popped(GoalForTables(tables, names));
      && |branch| <= |order|
      && order[..|branch|] == Reverse(branch)
      && order[|branch| - 1] == last
  {
    var rs := Resolved(tables, names);
    PushResolvedReverses(tables, names, []);
    var starters := PushResolved(tables, names, []);
    assert starters == Reverse(rs) + [];
    assert starters[0] == rs[|rs| - 1];
    FirstStarterFiresFirst(tables, starters, {});
  }

  lemma ReverseThree(x: nat, y: nat, z: nat)
    ensures Reverse([x, y, z]) == [z, y, x]
  {
    assert [x, y, z][..2] == [x, y];
    assert [x, y][..1] == [x];
  }

  /** A neighbour that is neither grey nor visited is enqueued and made grey. */
  lemma EnqueueOne(x: nat, grey: set<nat>, visited: seq<nat>)
    requires x !in grey && x !in visited
    ensures Enqueue([x], grey, visited) == (grey + {x}, [x])
  {
    var none: seq<nat> := [];
    assert [x][0] == x && [x][1..] == none;
    assert Enqueue(none, grey + {x}, visited) == (grey + {x}, none);
    assert none + [x] == [x];
  }

  /** A round from a queue of one table whose only neighbour is new. */
  lemma StepToOne(tables: seq<Table>, visited: seq<nat>, grey: set<nat>, v: nat, w: nat)
    requires v < |tables| && grey <= Universe(|tables|)
    requires Neighbours(tables, v) == [w] && w !in grey && w !in visited
    ensures Step(tables, visited, grey, [v]) == (grey + {w}, [w])
  {
    var none: seq<nat> := [];
    EnqueueOne(w, grey, visited);
    assert [v][0] == v && [v][1..] == none;
    assert [w] + none == [w];
  }

  /** A round from a queue of one table without neighbours. */
  lemma StepToNone(tables: seq<Table>, visited: seq<nat>, grey: set<nat>, v: nat)
    requires v < |tables| && grey <= Universe(|tables|)
    requires Neighbours(tables, v) == []
    ensures Step(tables, visited, grey, [v]) == (grey, [])
  {
    var none: seq<nat> := [];
    assert [v][0] == v && [v][1..] == none;
    assert Enqueue(none, grey, visited) == (grey, none);
  }

  /** A dive from a queue of one table visits it, then dives on. */
  lemma DiveFromOne(tables: seq<Table>, visited: seq<nat>, grey: set<nat>, v: nat)
    requires v < |tables| && grey <= Universe(|tables|)
    ensures var e := Step(tables, visited, grey, [v]);
      Dive(tables, visited, grey, [v]) == Dive(tables, visited + [v], e.0, e.1)
  {
    assert [v][0] == v;
  }

  /** The last round of the dive along the path 0 -> 1 -> 2: table 2 has no
      neighbours, so it is visited and the dive ends. */
  lemma PathDiveLast(tables: seq<Table>)
    requires |tables| == 3
    requires Neighbours(tables, 2) == []
    ensures Dive(tables, [0, 1], {1, 2}, [2]).visited == [0, 1, 2]
  {
    var none: seq<nat> := [];
    StepToNone(tables, [0, 1], {1, 2}, 2);
    DiveFromOne(tables, [0, 1], {1, 2}, 2);
    assert [0, 1] + [2] == [0, 1, 2];
    assert Dive(tables, [0, 1, 2], {1, 2}, none) == Dived([0, 1, 2], {1, 2});
  }

  /** The last two rounds of the dive along the path 0 -> 1 -> 2. */
  lemma PathDiveTail(tables: seq<Table>)
    requires |tables| == 3
    requires Neighbours(tables, 1) == [2] && Neighbours(tables, 2) == []
    ensures Dive(tables, [0], {1}, [1]).visited == [0, 1, 2]
  {
    StepToOne(tables, [0], {1}, 1, 2);
    DiveFromOne(tables, [0], {1}, 1);
    assert [0] + [1] == [0, 1] && {1} + {2} == {1, 2};
    PathDiveLast(tables);
  }

  /** When the three tables form a path 0 -> 1 -> 2 of producers, the dive from 0
      visits them in that order. */
  lemma PathDive(tables: seq<Table>)
    requires |tables| == 3
    requires Neighbours(tables, 0) == [1] && Neighbours(tables, 1) == [2] && Neighbours(tables, 2) == []
    ensures FromStarters(tables, [0], {}).visited == [0, 1, 2]
  {
    var none: seq<nat> := [];
    var empty: set<nat> := {};
    StepToOne(tables, none, empty, 0, 1);
    DiveFromOne(tables, none, empty, 0);
    assert none + [0] == [0] && empty + {1} == {1};
    PathDiveTail(tables);
    var branch := BFSDive(tables, empty, 0);
    assert branch.visited == [0, 1, 2];
    assert [0][1..] == none;
    assert FromStarters(tables, none, branch.grey).visited == none;
  }

  /** The neighbours in the chain C -> B -> A. */
  lemma ChainNeighbours(tables: seq<Table>, a: Attribute, b: Attribute, c: Attribute)
    requires a != b && b != c && a != c
    requires tables == [Table("A", [b], [a], []), Table("B", [c], [b], []), Table("C", [], [c], [])]
    ensures Neighbours(tables, 0) == [1] && Neighbours(tables, 1) == [2] && Neighbours(tables, 2) == []
    ensures Producers(tables, a) == [0]
  {
    Singleton(Producers(tables, a), 0);
    assert forall x: nat :: x < |tables| ==> (Feeds(tables[x], [b]) <==> x == 1);
    Singleton(Neighbours(tables, 0), 1);
    assert forall x: nat :: x < |tables| ==> (Feeds(tables[x], [c]) <==> x == 2);
    Singleton(Neighbours(tables, 1), 2);
  }

  /** The chain of three tables C -> B -> A, where A reads b and concludes a, B
      reads c and concludes b, and C reads nothing and concludes c. With the goal
      attribute a the tables fire C, B, A: every producer before its consumer. */
  lemma ChainFiresProducersFirst()
    ensures var ty := Type("t", NumericBase, Value(Any, 1.0, 0));
      var a := Attribute("a", None, "a", ty, Simple);
      var b := Attribute("b", None, "b", ty, Simple);
      var c := Attribute("c", None, "c", ty, Simple);
      var tables := [Table("A", [b], [a], []), Table("B", [c], [b], []), Table("C", [], [c], [])];
      Popped(GoalForAttributes(tables, [a, b, c], ["a"])) == [2, 1, 0]
  {
    var ty := Type("t", NumericBase, Value(Any, 1.0, 0));
    var a := Attribute("a", None, "a", ty, Simple);
    var b := Attribute("b", None, "b", ty, Simple);
    var c := Attribute("c", None, "c", ty, Simple);
    var tables := [Table("A", [b], [a], []), Table("B", [c], [b], []), Table("C", [], [c], [])];
    assert AttributeNamed([a, b, c], "a") == Some(a);
    ChainNeighbours(tables, a, b, c);
    assert GoalStarters(tables, [a, b, c], ["a"]) == [0];
    PathDive(tables);
    ReverseThree(0, 1, 2);
  }
}
