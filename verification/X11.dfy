/** The X11 connections of `x11.c`: a linked list of channels that a callback appends to, and that
    the main loop walks while it removes the connections that have ended. The callback fires inside
    the calls the walk makes, so the list grows during the walk. */
module X11 {

  /** A connection that the callback has made. */
  datatype Conn = Conn(chan: int, sock: int)

  class Node {
    const conn: Conn
    var next: Node?

    constructor (conn: Conn)
      ensures this.conn == conn && next == null
    {
      this.conn, next := conn, null;
    }
  }

  /** What happens in one call of `x11_send_receive`: the connections made meanwhile, and whether the
      call returns -1. */
  datatype Visit = Visit(arrivals: seq<Conn>, lost: bool)

  const QUIET := Visit([], false)

  /** The visit number `i`. Where the script ends, nothing happens any more. */
  function At(script: seq<Visit>, i: nat): Visit {
    if i < |script| then script[i] else QUIET
  }

  function Later(script: seq<Visit>, n: nat): seq<Visit> {
    if n < |script| then script[n..] else []
  }

  lemma NextVisit(script: seq<Visit>, i: nat)
    ensures At(Later(script, i), 0) == At(script, i) && Later(Later(script, i), 1) == Later(script, i + 1)
  {
  }

  /** The connections made during the first `n` visits. */
  function Arrived(script: seq<Visit>, n: nat): seq<Conn> {
    if n == 0 then [] else Arrived(script, n - 1) + At(script, n - 1).arrivals
  }

  /** Those of the first `n` elements whose visit reported the loss of the connection, or did not. */
  function Chosen<T>(all: seq<T>, script: seq<Visit>, lost: bool, n: nat): seq<T>
    requires n <= |all|
  {
    if n == 0 then []
    else Chosen(all, script, lost, n - 1) + (if At(script, n - 1).lost == lost then [all[n - 1]] else [])
  }

  /** The list during the walk: the visited elements that are kept, then those still to be visited. */
  function KeptAndRest<T>(all: seq<T>, script: seq<Visit>, i: nat): seq<T>
    requires i <= |all|
  {
    Chosen(all, script, false, i) + all[i..]
  }

  lemma {:induction false} ChosenOfMore<T>(all: seq<T>, more: seq<T>, script: seq<Visit>, lost: bool, n: nat)
    requires n <= |all|
    ensures Chosen(all + more, script, lost, n) == Chosen(all, script, lost, n)
  {
    if n > 0 {
      ChosenOfMore(all, more, script, lost, n - 1);
    }
  }

  /** Arrivals are appended to the list. */
  lemma ListGrows<T>(all: seq<T>, more: seq<T>, script: seq<Visit>, i: nat)
    requires i <= |all|
    ensures KeptAndRest(all + more, script, i) == KeptAndRest(all, script, i) + more
    ensures Chosen(all + more, script, true, i) == Chosen(all, script, true, i)
  {
    ChosenOfMore(all, more, script, false, i);
    ChosenOfMore(all, more, script, true, i);
    assert (all + more)[i..] == all[i..] + more;
  }

  /** A visit leaves the list as it is, or takes the visited element out of it. */
  lemma ListAfterVisit<T>(all: seq<T>, script: seq<Visit>, i: nat)
    requires i < |all|
    ensures var k, list := |Chosen(all, script, false, i)|, KeptAndRest(all, script, i);
            && k < |list| && list[k] == all[i]
            && (k + 1 < |list| <==> i + 1 < |all|) && (i + 1 < |all| ==> list[k + 1] == all[i + 1])
            && KeptAndRest(all, script, i + 1)
               == if At(script, i).lost then list[..k] + list[k + 1..] else list
    ensures Chosen(all, script, true, i + 1)
         == Chosen(all, script, true, i) + if At(script, i).lost then [all[i]] else []
  {
    assert all[i..] == [all[i]] + all[i + 1..];
  }

  /** Every visited element is chosen on one side. */
  lemma {:induction false} ChosenPartition<T>(all: seq<T>, script: seq<Visit>, n: nat)
    requires n <= |all|
    ensures |Chosen(all, script, false, n)| + |Chosen(all, script, true, n)| == n
  {
    if n > 0 {
      ChosenPartition(all, script, n - 1);
    }
  }

  /** What is chosen keeps its order: an element's place among the chosen is the number of elements
      chosen before it. */
  lemma {:induction false} ChosenInOrder<T>(all: seq<T>, script: seq<Visit>, lost: bool, i: nat, n: nat)
    requires i < n <= |all| && At(script, i).lost == lost
    ensures var place := |Chosen(all, script, lost, i)|;
            place < |Chosen(all, script, lost, n)| && Chosen(all, script, lost, n)[place] == all[i]
  {
    if i + 1 < n {
      ChosenInOrder(all, script, lost, i, n - 1);
    }
  }

  /** The number of visits of a walk over `q` nodes that are still to come. */
  function VisitCount(q: nat, script: seq<Visit>): nat
    decreases |script|, q
  {
    if q == 0 then 0
    else if script == [] then q
    else 1 + VisitCount(q - 1 + |script[0].arrivals|, script[1..])
  }

  /** One visit: of `q` nodes to come, one is visited and the arrivals are new. */
  lemma CountVisit(total: nat, i: nat, q: nat, q': nat, script: seq<Visit>)
    requires total == i + VisitCount(q, Later(script, i))
    requires 0 < q && q' == q - 1 + |At(script, i).arrivals|
    ensures total == i + 1 + VisitCount(q', Later(script, i + 1))
  {
    if i < |script| {
      assert Later(script, i)[1..] == Later(script, i + 1);
    }
  }

  /** The nodes are for these connections, in this order. */
  ghost predicate AreFor(nodes: seq<Node>, conns: seq<Conn>) {
    |nodes| == |conns| && forall i {:trigger nodes[i].conn} :: 0 <= i < |nodes| ==> nodes[i].conn == conns[i]
  }

  ghost function Conns(nodes: seq<Node>): (conns: seq<Conn>)
    ensures AreFor(nodes, conns)
  {
    seq(|nodes|, i requires 0 <= i < |nodes| => nodes[i].conn)
  }

  ghost predicate Distinct(s: seq<Node>) {
    forall i, j {:trigger s[i].conn, s[j].conn} :: 0 <= i < j < |s| ==> s[i] != s[j]
  }

  /** The node after position `i`. */
  ghost function After(nodes: seq<Node>, i: int): Node? {
    if 0 <= i + 1 < |nodes| then nodes[i + 1] else null
  }

  /** The walk has made `i` visits to the elements of `all`, in order, each once: the list holds those
      that were kept and those still to come, and the lost ones have been closed and freed. */
  ghost predicate Progress<T>(all: seq<T>, script: seq<Visit>, i: nat,
                              nodes: seq<T>, visited: seq<T>, closed: seq<T>, freed: seq<T>)
  {
    && i <= |all|
    && nodes == KeptAndRest(all, script, i)
    && visited == all[..i] && closed == Chosen(all, script, true, i)
    && freed == closed
  }

  lemma DistinctFrom(s: seq<Node>, k: nat)
    requires Distinct(s) && k < |s|
    ensures forall i :: 0 <= i < |s| && i != k ==> s[i] != s[k]
  {
    forall i | 0 <= i < |s| && i != k ensures s[i] != s[k] {
      assert s[i].conn == s[i].conn && s[k].conn == s[k].conn;
    }
  }

  lemma DistinctWithout(s: seq<Node>, k: nat)
    requires Distinct(s) && k < |s|
    ensures Distinct(s[..k] + s[k + 1..])
  {
    var r := s[..k] + s[k + 1..];
    forall i, j | 0 <= i < j < |r| ensures r[i] != r[j] {
      assert r[i].conn == s[if i < k then i else i + 1].conn && r[j].conn == s[if j < k then j else j + 1].conn;
    }
  }

  lemma DistinctWithMore(all: seq<Node>, added: seq<Node>)
    requires Distinct(all) && Distinct(added) && forall n :: n in added ==> n !in all
    ensures Distinct(all + added)
  {
    var s := all + added;
    forall i, j | 0 <= i < j < |s| ensures s[i] != s[j] {
      if j < |all| {
        assert all[i].conn == s[i].conn && all[j].conn == s[j].conn;
      } else if i < |all| {
        assert added[j - |all|] in added;
      } else {
        assert added[i - |all|].conn == s[i].conn && added[j - |all|].conn == s[j].conn;
      }
    }
  }

  /** Where the visited element is in the list after a visit. */
  lemma PlaceInList<T>(all: seq<T>, added: seq<T>, script: seq<Visit>, i: nat)
    requires i < |all|
    ensures var k, list := |Chosen(all, script, false, i)|, KeptAndRest(all, script, i);
            && k < |list| && (list + added)[k] == all[i]
            && (if k + 1 < |list + added|
                then i + 1 < |all + added| && (list + added)[k + 1] == (all + added)[i + 1]
                else i + 1 == |all + added|)
  {
  }

  /** A visit takes the walk one step further. */
  lemma ProgressInVisit<T>(all: seq<T>, added: seq<T>, script: seq<Visit>, i: nat,
                           nodes: seq<T>, visited: seq<T>, closed: seq<T>, freed: seq<T>)
    requires Progress(all, script, i, nodes, visited, closed, freed) && i < |all|
    ensures var k, list, x := |Chosen(all, script, false, i)|, nodes + added, all[i];
            if At(script, i).lost
            then k < |list| && Progress(all + added, script, i + 1, list[..k] + list[k + 1..], visited + [x],
                                        closed + [x], freed + [x])
            else Progress(all + added, script, i + 1, list, visited + [x], closed, freed)
  {
    ListGrows(all, added, script, i);
    ChosenOfMore(all, added, script, false, i);
    ListAfterVisit(all + added, script, i);
    assert (all + added)[..i + 1] == all[..i] + [all[i]];
  }

  /** The end of a walk: every element was visited once and in order, the lost ones have been closed
      and freed, and the list holds the others. */
  lemma WalkedToTheEnd<T>(all: seq<T>, script: seq<Visit>,
                          nodes: seq<T>, visited: seq<T>, closed: seq<T>, freed: seq<T>)
    requires Progress(all, script, |all|, nodes, visited, closed, freed)
    ensures visited == all
    ensures nodes == Chosen(all, script, false, |all|)
    ensures closed == freed == Chosen(all, script, true, |all|)
    ensures |nodes| + |closed| == |all|
  {
    ChosenPartition(all, script, |all|);
  }

  /** How a walk ends that calls `remove_node` as it is written: as it should; with the removed node
      not freed; at a node that has been freed; or never, inside `remove_node`. */
  datatype End = Clean | Leaking | Dangling | Looping

  /** The end of the walk, when `kept` nodes are left in front of the current one and `q` nodes are
      still to be visited. */
  function EndAsWritten(kept: nat, q: nat, script: seq<Visit>): End
    decreases |script|, q
  {
    if q == 0 then Clean
    else
      var left := q - 1 + |At(script, 0).arrivals|;
      if !At(script, 0).lost then EndAsWritten(kept + 1, left, Later(script, 1))
      else if kept == 0 then EndAsWritten(0, left, Later(script, 1))
      else if kept == 1 then if left == 0 then Leaking else Dangling
      else Looping
  }

  lemma EndAfterVisit(kept: nat, q: nat, left: nat, script: seq<Visit>, i: nat)
    requires 0 < q && left == q - 1 + |At(script, i).arrivals|
    ensures var end, lost := EndAsWritten(kept, q, Later(script, i)), At(script, i).lost;
            && (!lost ==> end == EndAsWritten(kept + 1, left, Later(script, i + 1)))
            && (lost && kept == 0 ==> end == EndAsWritten(kept, left, Later(script, i + 1)))
            && (lost && kept == 1 ==> end == if left == 0 then Leaking else Dangling)
            && (lost && kept > 1 ==> end == Looping)
  {
    NextVisit(script, i);
  }

  lemma {:induction false} NoVisitsLost(kept: nat, q: nat, script: seq<Visit>)
    requires 0 < kept
    ensures EndAsWritten(kept, q, script) == Clean
       <==> forall i :: 0 <= i < VisitCount(q, script) ==> !At(script, i).lost
    decreases |script|, q
  {
    if 0 < q {
      var left := q - 1 + |At(script, 0).arrivals|;
      VisitsAfterFirst(q, script);
      if !At(script, 0).lost {
        NoVisitsLost(kept + 1, left, Later(script, 1));
        forall i | 0 < i < VisitCount(q, script) ensures At(script, i) == At(Later(script, 1), i - 1) {}
      }
    }
  }

  lemma VisitsAfterFirst(q: nat, script: seq<Visit>)
    requires 0 < q
    ensures VisitCount(q, script) == 1 + VisitCount(q - 1 + |At(script, 0).arrivals|, Later(script, 1))
    ensures forall i: nat :: At(Later(script, 1), i) == At(script, i + 1)
  {
    if script != [] {
      assert Later(script, 1) == script[1..];
    }
  }

  /** The walk with `remove_node` as it is written does what it should exactly when the lost
      connections come first in the list. */
  lemma {:induction false} CleanExactlyWhenLostComeFirst(q: nat, script: seq<Visit>)
    ensures EndAsWritten(0, q, script) == Clean
       <==> forall i, j :: 0 <= i < j < VisitCount(q, script) && At(script, j).lost ==> At(script, i).lost
    decreases |script|, q
  {
    if 0 < q {
      var left, rest := q - 1 + |At(script, 0).arrivals|, Later(script, 1);
      VisitsAfterFirst(q, script);
      if At(script, 0).lost {
        CleanExactlyWhenLostComeFirst(left, rest);
        LostFirstOfRest(script, VisitCount(left, rest));
      } else {
        NoVisitsLost(1, left, rest);
        forall j | 0 < j < VisitCount(q, script) ensures At(script, j) == At(rest, j - 1) {}
      }
    }
  }

  lemma LostFirstOfRest(script: seq<Visit>, n: nat)
    requires At(script, 0).lost && forall i: nat :: At(Later(script, 1), i) == At(script, i + 1)
    ensures (forall i, j :: 0 <= i < j < n + 1 && At(script, j).lost ==> At(script, i).lost)
       <==> (forall i, j :: 0 <= i < j < n && At(Later(script, 1), j).lost ==> At(Later(script, 1), i).lost)
  {
    var rest := Later(script, 1);
    if forall i, j :: 0 <= i < j < n && At(rest, j).lost ==> At(rest, i).lost {
      forall i, j | 0 <= i < j < n + 1 && At(script, j).lost ensures At(script, i).lost {
        assert At(script, j) == At(rest, j - 1);
        if 0 < i {
          assert At(script, i) == At(rest, i - 1);
        }
      }
    }
  }

  /** The three ways in which it can go wrong. */
  lemma WrongEnds()
    ensures var lost := Visit([], true);
            && EndAsWritten(0, 2, [QUIET, lost]) == Leaking
            && EndAsWritten(0, 3, [QUIET, lost]) == Dangling
            && EndAsWritten(0, 3, [QUIET, QUIET, lost]) == Looping
  {
    var lost := Visit([], true);
    assert Later([QUIET, lost], 1) == [lost];
    assert Later([QUIET, QUIET, lost], 1) == [QUIET, lost];
    assert EndAsWritten(2, 1, [lost]) == Looping;
    assert EndAsWritten(1, 2, [QUIET, lost]) == Looping;
  }

  class Connections {
    var head: Node?
    var script: seq<Visit>
    ghost var nodes: seq<Node>      // what is linked from `head`, in order
    ghost var all: seq<Node>        // what has been in the list since the last walk began
    ghost var repr: set<Node>       // what has ever been linked
    ghost var freed: seq<Node>      // the nodes given back, in order
    ghost var visited: seq<Node>    // the calls of `x11_send_receive`
    ghost var closed: seq<Node>     // the nodes whose socket has been closed

    constructor (script: seq<Visit>)
      ensures Valid() && nodes == all == freed == visited == closed == [] && repr == {} && this.script == script
    {
      head, this.script, nodes, all, repr, freed, visited, closed := null, script, [], [], {}, [], [], [];
    }

    /** `nodes` is what is linked from `head`: a list without a cycle. */
    ghost predicate Valid()
      reads this, repr
    {
      && (forall i :: 0 <= i < |nodes| ==> nodes[i] in repr)
      && (forall i :: 0 <= i < |all| ==> all[i] in repr)
      && head == After(nodes, -1)
      && Distinct(nodes)
      && forall i {:trigger nodes[i].next} :: 0 <= i < |nodes| ==> nodes[i].next == After(nodes, i)
    }

    /** The append in `x11_callback`. */
    method Append(c: Conn) returns (n: Node)
      requires Valid()
      modifies this`head, this`nodes, this`all, this`repr, repr
      ensures Valid() && nodes == old(nodes) + [n] && all == old(all) + [n]
      ensures fresh(n) && repr == old(repr) + {n} && n.conn == c
    {
      n := new Node(c);
      DistinctWithMore(nodes, [n]);
      if head == null {
        head := n;
      } else {
        var iter: Node := head;
        ghost var k := 0;
        while iter.next != null
          invariant 0 <= k < |nodes| && iter == nodes[k]
          decreases |nodes| - k
        {
          iter := iter.next;
          k := k + 1;
        }
        iter.next := n;
      }
      nodes, all, repr := nodes + [n], all + [n], repr + {n};
    }

    /** The callback, once for each connection that is made. */
    method AppendAll(conns: seq<Conn>) returns (ghost added: seq<Node>)
      requires Valid()
      modifies this`head, this`nodes, this`all, this`repr, repr
      ensures Valid() && nodes == old(nodes) + added && all == old(all) + added
      ensures old(repr) <= repr && fresh(repr - old(repr))
      ensures forall n :: n in added ==> n in repr && fresh(n)
      ensures AreFor(added, conns) && Distinct(added)
    {
      added := [];
      for i := 0 to |conns|
        invariant Valid() && nodes == old(nodes) + added && all == old(all) + added
        invariant old(repr) <= repr && fresh(repr - old(repr))
        invariant forall n :: n in added ==> n in repr && fresh(n)
        invariant AreFor(added, conns[..i]) && Distinct(added)
      {
        var n := Append(conns[i]);
        DistinctWithMore(added, [n]);
        added := added + [n];
      }
    }

    /** One call of `x11_send_receive` on a node of the list. */
    method SendReceive(node: Node) returns (rc: int, ghost added: seq<Node>)
      requires Valid() && node in nodes
      modifies this`head, this`nodes, this`all, this`repr, this`script, this`visited, repr
      ensures Valid() && nodes == old(nodes) + added && all == old(all) + added
      ensures old(repr) <= repr && fresh(repr - old(repr))
      ensures forall n :: n in added ==> n in repr && fresh(n)
      ensures AreFor(added, At(old(script), 0).arrivals) && Distinct(added)
      ensures script == Later(old(script), 1) && visited == old(visited) + [node]
      ensures rc == (if At(old(script), 0).lost then -1 else 0)
    {
      var v := At(script, 0);
      script := Later(script, 1);
      visited := visited + [node];
      added := AppendAll(v.arrivals);
      rc := if v.lost then -1 else 0;
    }

    /** `remove_node`, corrected: the loop advances, and it is the element that is freed. */
    method RemoveNode(elem: Node, ghost k: nat)
      requires Valid() && k < |nodes| && nodes[k] == elem
      modifies this`head, this`nodes, this`freed, repr
      ensures Valid() && nodes == old(nodes)[..k] + old(nodes)[k + 1..]
      ensures freed == old(freed) + [elem]
    {
      ghost var nodes0 := nodes;
      DistinctFrom(nodes, k);
      if head == elem {
        head := elem.next;
      } else {
        var current: Node := head;
        ghost var j := 0;
        while current.next != null
          invariant 0 <= j < k && current == nodes[j] && unchanged(repr)
          decreases k - j
        {
          assert current.next == nodes[j + 1];
          if current.next == elem {
            DistinctFrom(nodes, j);
            current.next := elem.next;
            break;
          }
          current := current.next;
          j := j + 1;
        }
      }
      freed := freed + [elem];
      nodes := nodes[..k] + nodes[k + 1..];
      DistinctWithout(nodes0, k);
      forall i | 0 <= i < |nodes| ensures nodes[i].next == After(nodes, i) {
        ghost var i0 := if i < k then i else i + 1;
        assert nodes[i] == nodes0[i0] && old(nodes0[i0].next) == After(nodes0, i0);
      }
    }

    /** The state of the walk after `i` visits. It began with the list `nodes0`. */
    ghost predicate Walking(nodes0: seq<Node>, script0: seq<Visit>, i: nat)
      reads this, repr
    {
      && Valid() && script == Later(script0, i)
      && Progress(all, script0, i, nodes, visited, closed, freed)
      && Supplied(all, nodes0, script0, i)
    }

    /** The visit of a node in the walk, with `k` nodes in front of it. The next node is read after the
        call, and so may be one that has just been appended. */
    method VisitNode(current: Node, ghost nodes0: seq<Node>, ghost script0: seq<Visit>, ghost i: nat, ghost k: nat)
      returns (rc: int, next: Node?)
      requires Walking(nodes0, script0, i) && i < |all| && all[i] == current
      requires k == |Chosen(all, script0, false, i)|
      modifies this`head, this`nodes, this`all, this`repr, this`script, this`visited, repr
      ensures Valid() && Supplied(all, nodes0, script0, i + 1) && script == Later(script0, i + 1)
      ensures Removing(script0, i, k, current) && next == After(all, i) == After(nodes, k) && next != current
      ensures rc == (if At(script0, i).lost then -1 else 0)
      ensures |all| == |old(all)| + |At(script0, i).arrivals|
      ensures old(repr) <= repr && fresh(repr - old(repr))
      ensures |script| < |old(script)| || (script == old(script) == [] && all == old(all))
    {
      ghost var all0 := all;
      PlaceInList(all, [], script0, i);
      NextVisit(script0, i);
      assert nodes[k] == current by {
        assert nodes + [] == nodes;
      }
      ghost var added;
      rc, added := SendReceive(current);
      PlaceInList(all0, added, script0, i);
      ProgressInVisit(all0, added, script0, i, old(nodes), old(visited), old(closed), old(freed));
      SuppliedInVisit(all0, added, nodes0, script0, i);
      ChosenOfMore(all0, added, script0, false, i);
      DistinctFrom(all, i);
      next := current.next;
      assert next == After(all, i) && next == After(nodes, k) by {
        assert nodes[k] == current;
      }
    }

    /** The node has been visited, and is still to be removed if it is lost. */
    ghost predicate Removing(script0: seq<Visit>, i: nat, k: nat, node: Node)
      reads this
    {
      && i < |all| && k == |Chosen(all, script0, false, i)| && k < |nodes| && nodes[k] == node
      && if At(script0, i).lost
         then Progress(all, script0, i + 1, nodes[..k] + nodes[k + 1..], visited, closed + [node], freed + [node])
         else Progress(all, script0, i + 1, nodes, visited, closed, freed)
    }

    /** One round of the walk: the visit, during which the list may grow, and the removal. */
    method VisitAndRemove(current: Node, ghost nodes0: seq<Node>, ghost script0: seq<Visit>, ghost i: nat)
      returns (next: Node?)
      requires Walking(nodes0, script0, i) && i < |all| && all[i] == current
      modifies this, repr
      ensures Walking(nodes0, script0, i + 1) && next == After(all, i)
      ensures old(repr) <= repr && fresh(repr - old(repr))
      ensures |script| < |old(script)| || (script == old(script) == [] && all == old(all))
    {
      ghost var k := |Chosen(all, script0, false, i)|;
      var rc;
      rc, next := VisitNode(current, nodes0, script0, i, k);
      if rc == -1 {
        closed := closed + [current];
        RemoveNode(current, k);
      }
    }

    /** `remove_node` as it is written. Its loop looks at the same pair of nodes again and again; it is
        cut off after `fuel` rounds. For the second node it unlinks the right node and then frees the
        one after it. Returns whether the loop has ended and the node that was freed. */
    method RemoveNodeAsWritten(elem: Node, ghost k: nat, fuel: nat) returns (ended: bool, given: Node?)
      requires Valid() && k < |nodes| && nodes[k] == elem && 0 < fuel
      modifies this`head, this`nodes, this`freed, repr
      ensures Valid() && all == old(all)
      ensures ended <==> k <= 1
      ensures ended ==> nodes == old(nodes)[..k] + old(nodes)[k + 1..]
      ensures !ended ==> nodes == old(nodes) && head == old(head) && unchanged(old(repr))
      ensures given == if k == 0 then elem else if k == 1 then After(old(nodes), 1) else null
      ensures freed == old(freed) + if given == null then [] else [given]
    {
      ghost var nodes0 := nodes;
      var current: Node? := head;
      DistinctFrom(nodes, k);
      DistinctWithout(nodes, k);
      if head == elem {
        head := head.next;
        freed := freed + [current];
        nodes := nodes[..k] + nodes[k + 1..];
        return true, current;
      }
      var rounds := 0;
      while current.next != null && rounds < fuel
        invariant 0 <= rounds && current == nodes[0] && (k == 1 ==> rounds == 0)
        invariant Valid() && nodes == nodes0 && head == old(head) && freed == old(freed) && all == old(all)
        invariant repr == old(repr) && unchanged(old(repr))
      {
        if current.next == elem {
          DistinctFrom(nodes, 0);
          current.next := current.next.next;
          current := current.next;
          if current != null {
            freed := freed + [current];
          }
          nodes := nodes[..k] + nodes[k + 1..];
          forall i | 0 <= i < |nodes| ensures nodes[i].next == After(nodes, i) {
            ghost var i0 := if i < k then i else i + 1;
            assert nodes[i] == nodes0[i0] && old(nodes0[i0].next) == After(nodes0, i0);
          }
          return true, current;
        }
        rounds := rounds + 1;
      }
      return false, null;
    }

    /** The walk is where it should be, but for the last node closed: `instead` was freed and not it. */
    ghost predicate LastNotFreed(script0: seq<Visit>, i: nat, instead: seq<Node>)
      reads this
    {
      && Progress(all, script0, i, nodes, visited, closed, closed)
      && closed != [] && freed == closed[..|closed| - 1] + instead
    }

    /** One round of the walk with `remove_node` as it is written, with `kept` nodes in front of the
        current one. */
    method VisitAsWritten(current: Node, fuel: nat, ghost nodes0: seq<Node>, ghost script0: seq<Visit>,
                          ghost i: nat, ghost kept: nat)
      returns (next: Node?, rc: int, ended: bool, given: Node?)
      requires Walking(nodes0, script0, i) && i < |all| && all[i] == current && 0 < fuel
      requires kept == |Chosen(all, script0, false, i)|
      modifies this, repr
      ensures Valid() && Supplied(all, nodes0, script0, i + 1) && script == Later(script0, i + 1)
      ensures |all| == |old(all)| + |At(script0, i).arrivals|
      ensures next == After(all, i) && next != current && rc == (if At(script0, i).lost then -1 else 0)
      ensures ended <==> rc == 0 || kept <= 1
      ensures rc == 0 || kept == 0 ==> Walking(nodes0, script0, i + 1)
      ensures ended ==> |Chosen(all, script0, false, i + 1)| == if rc == 0 then kept + 1 else kept
      ensures rc == -1 && kept == 0 ==> given == current
      ensures rc == -1 && kept == 1 ==>
                given == next && LastNotFreed(script0, i + 1, if given == null then [] else [given])
      ensures old(repr) <= repr && fresh(repr - old(repr))
      ensures |script| < |old(script)| || (script == old(script) == [] && all == old(all))
    {
      rc, next := VisitNode(current, nodes0, script0, i, kept);
      ended, given := true, null;
      if rc == -1 {
        closed := closed + [current];
        ended, given := RemoveNodeAsWritten(current, kept, fuel);
      }
    }

    /** Before a walk the records of the walk are empty. */
    ghost method StartWalk()
      requires Valid()
      modifies this`all, this`visited, this`closed, this`freed
      ensures Walking(nodes, script, 0) && all == nodes
    {
      all, visited, closed, freed := nodes, [], [], [];
      assert KeptAndRest(nodes, script, 0) == nodes;
      assert Later(script, 0) == script;
      assert Conns(nodes) + Arrived(script, 0) == Conns(nodes);
    }

    /** The walk over the list in the main loop. */
    method Sweep()
      requires Valid()
      modifies this, repr
      ensures Walking(old(nodes), old(script), |all|)
    {
      StartWalk();
      ghost var script0, nodes0 := script, nodes;
      ghost var i := 0;
      var current := head;
      while current != null
        invariant Walking(nodes0, script0, i) && current == After(all, i - 1)
        invariant old(repr) <= repr && fresh(repr - old(repr))
        decreases |script|, |all| - i
      {
        current := VisitAndRemove(current, nodes0, script0, i);
        i := i + 1;
      }
    }

    /** The end of the walk that the replies to come predict, after `i` visits. */
    ghost function EndAhead(script0: seq<Visit>, i: nat): End
      requires i <= |all|
      reads this
    {
      EndAsWritten(|Chosen(all, script0, false, i)|, |all| - i, Later(script0, i))
    }

    /** One round, and whether the program can go on after it: not with a node that has been given back,
        and not where `remove_node` does not come to an end. */
    method RoundAsWritten(current: Node, fuel: nat, ghost nodes0: seq<Node>, ghost script0: seq<Visit>, ghost i: nat)
      returns (next: Node?, stop: bool, end: End)
      requires Walking(nodes0, script0, i) && i < |all| && all[i] == current && 0 < fuel
      modifies this, repr
      ensures Valid() && old(repr) <= repr && fresh(repr - old(repr))
      ensures !stop ==> Walking(nodes0, script0, i + 1) && next == After(all, i)
                        && EndAhead(script0, i + 1) == old(EndAhead(script0, i))
      ensures !stop ==> |script| < |old(script)| || (script == old(script) == [] && all == old(all))
      ensures stop ==> end == old(EndAhead(script0, i)) && end != Clean
      ensures stop && end == Leaking ==> Supplied(all, nodes0, script0, |all|) && LastNotFreed(script0, |all|, [])
    {
      ghost var kept, q := |Chosen(all, script0, false, i)|, |all| - i;
      var rc, ended, given;
      next, rc, ended, given := VisitAsWritten(current, fuel, nodes0, script0, i, kept);
      EndAfterVisit(kept, q, |all| - (i + 1), script0, i);
      stop, end := true, Looping;
      if ended {
        // The next node is the one that has been given back, or there is none and the walk ends.
        stop := rc == -1 && given != current;
        end := if given == null then Leaking else Dangling;
      }
    }

    /** The walk with `remove_node` as it is written. */
    method SweepAsWritten(fuel: nat) returns (end: End)
      requires Valid() && 0 < fuel
      modifies this, repr
      ensures end == EndAsWritten(0, |old(nodes)|, old(script))
      ensures end == Clean ==> Walking(old(nodes), old(script), |all|)
      ensures end == Leaking ==>
                Supplied(all, old(nodes), old(script), |all|) && LastNotFreed(old(script), |all|, [])
    {
      StartWalk();
      ghost var script0, nodes0 := script, nodes;
      ghost var i := 0;
      assert Later(script0, 0) == script0;
      var current := head;
      while current != null
        invariant Walking(nodes0, script0, i) && current == After(all, i - 1)
        invariant EndAhead(script0, i) == EndAsWritten(0, |nodes0|, script0)
        invariant old(repr) <= repr && fresh(repr - old(repr))
        decreases |script|, |all| - i
      {
        var stop;
        current, stop, end := RoundAsWritten(current, fuel, nodes0, script0, i);
        if stop {
          return;
        }
        i := i + 1;
      }
      return Clean;
    }
  }

  /** `all` is the list at the start of the walk and what has been appended to it in `i` visits, each
      node once. The visits made and those still due add up to `VisitCount`. */
  ghost predicate Supplied(all: seq<Node>, nodes0: seq<Node>, script: seq<Visit>, i: nat) {
    && i <= |all| && nodes0 <= all && Distinct(all)
    && AreFor(all, Conns(nodes0) + Arrived(script, i))
    && VisitCount(|nodes0|, script) == i + VisitCount(|all| - i, Later(script, i))
  }

  lemma SuppliedInVisit(all: seq<Node>, added: seq<Node>, nodes0: seq<Node>, script: seq<Visit>, i: nat)
    requires Supplied(all, nodes0, script, i) && i < |all|
    requires AreFor(added, At(script, i).arrivals)
    requires Distinct(added) && forall n :: n in added ==> n !in all
    ensures Supplied(all + added, nodes0, script, i + 1)
  {
    DistinctWithMore(all, added);
    ConnsOfMore(all, added, Conns(nodes0), script, i);
    CountVisit(VisitCount(|nodes0|, script), i, |all| - i, |all + added| - (i + 1), script);
  }

  lemma ConnsOfMore(all: seq<Node>, added: seq<Node>, first: seq<Conn>, script: seq<Visit>, i: nat)
    requires AreFor(all, first + Arrived(script, i)) && AreFor(added, At(script, i).arrivals)
    ensures AreFor(all + added, first + Arrived(script, i + 1))
  {
    var a, b := Arrived(script, i), At(script, i).arrivals;
    assert first + Arrived(script, i + 1) == (first + a) + b;
    forall j | 0 <= j < |all + added| ensures (all + added)[j].conn == ((first + a) + b)[j] {
      if j < |all| {
        assert all[j].conn == (first + a)[j];
      } else {
        assert added[j - |all|].conn == b[j - |all|];
      }
    }
  }
}
