/** The greedy port binder of read_config.py. */
module PortBinder {
  import Sets

  datatype Port = Port(obj: string, name: string)

  datatype Endpoint = Endpoint(port: Port, index: nat)

  datatype Connection = Connection(from: Endpoint, to: Endpoint)

  function Reverse(c: Connection): Connection {
    Connection(c.to, c.from)
  }

  // ----- the order in which connections are sorted -----

  predicate StringLess(s: string, t: string) {
    if s == [] || t == [] then s == [] && t != []
    else s[0] < t[0] || (s[0] == t[0] && StringLess(s[1..], t[1..]))
  }

  predicate PortLess(p: Port, q: Port) {
    StringLess(p.obj, q.obj) || (p.obj == q.obj && StringLess(p.name, q.name))
  }

  /** The comparison of PortConnection: object name, port name, index. */
  predicate EndpointLess(e: Endpoint, f: Endpoint) {
    PortLess(e.port, f.port) || (e.port == f.port && e.index < f.index)
  }

  predicate Less(c: Connection, d: Connection) {
    EndpointLess(c.from, d.from) || (c.from == d.from && EndpointLess(c.to, d.to))
  }

  ghost predicate Sorted(conns: seq<Connection>) {
    forall i, j | 0 <= i < j < |conns| :: !Less(conns[j], conns[i])
  }

  lemma {:induction false} StringOrder(s: string, t: string, u: string)
    ensures !(StringLess(s, t) && StringLess(t, s)) && (s == t || StringLess(s, t) || StringLess(t, s))
    ensures StringLess(s, t) && StringLess(t, u) ==> StringLess(s, u)
  {
    if s != [] && t != [] {
      StringOrder(s[1..], t[1..], if u == [] then [] else u[1..]);
      assert s == [s[0]] + s[1..] && t == [t[0]] + t[1..];
    }
  }

  /** The first place where two strings differ decides: there the first is at its end or has the smaller character. */
  predicate FirstDifference(s: string, t: string, k: nat) {
    k <= |s| && k < |t| && s[..k] == t[..k] && (k == |s| || s[k] < t[k])
  }

  lemma {:induction false} StringLessIff(s: string, t: string)
    ensures StringLess(s, t) <==> exists k: nat :: FirstDifference(s, t, k)
  {
    if s == [] || t == [] {
      assert t != [] ==> FirstDifference(s, t, 0);
    } else {
      var s', t' := s[1..], t[1..];
      StringLessIff(s', t');
      if k: nat :| FirstDifference(s', t', k) {
        if s[0] == t[0] {
          assert s[..k + 1] == [s[0]] + s'[..k] && t[..k + 1] == [t[0]] + t'[..k];
          assert FirstDifference(s, t, k + 1);
        }
      }
      if s[0] < t[0] {
        assert FirstDifference(s, t, 0);
      }
      if k: nat :| FirstDifference(s, t, k) {
        if k > 0 {
          assert s[..k][0] == s[0] && t[..k][0] == t[0];
          assert s'[..k - 1] == s[..k][1..] && t'[..k - 1] == t[..k][1..];
          assert FirstDifference(s', t', k - 1);
        }
      }
    }
  }

  /** The order of ports is total and transitive. */
  lemma PortOrder(p: Port, q: Port, r: Port)
    ensures !(PortLess(p, q) && PortLess(q, p)) && (p == q || PortLess(p, q) || PortLess(q, p))
    ensures PortLess(p, q) && PortLess(q, r) ==> PortLess(p, r)
  {
    StringOrder(p.obj, q.obj, r.obj);
    StringOrder(p.name, q.name, r.name);
    StringOrder(q.obj, p.obj, r.obj);
    StringOrder(q.name, p.name, r.name);
  }

  /** The order of connections is total: a list can be sorted in one way only, up to equal elements. */
  lemma ConnectionOrder(c: Connection, d: Connection)
    ensures !(Less(c, d) && Less(d, c)) && (c == d || Less(c, d) || Less(d, c))
  {
    PortOrder(c.from.port, d.from.port, d.from.port);
    PortOrder(c.to.port, d.to.port, d.to.port);
  }

  // ----- what a list of connections must be -----

  /** Every connection is listed in both directions, once each. */
  ghost predicate Mirrored(conns: seq<Connection>) {
    && (forall i | 0 <= i < |conns| :: Reverse(conns[i]) in conns)
    && (forall i, j | 0 <= i < j < |conns| :: Differ(conns, i, j))
  }

  predicate Differ(conns: seq<Connection>, i: nat, j: nat)
    requires i < |conns| && j < |conns|
  {
    conns[i] != conns[j]
  }

  /** No endpoint is connected to itself or to two others. */
  ghost predicate OnePeer(conns: seq<Connection>) {
    && (forall i | 0 <= i < |conns| :: conns[i].from != conns[i].to)
    && (forall i, j | 0 <= i < |conns| && 0 <= j < |conns| :: SamePeer(conns, i, j))
  }

  predicate SamePeer(conns: seq<Connection>, i: nat, j: nat)
    requires i < |conns| && j < |conns|
  {
    conns[i].from == conns[j].from ==> conns[i].to == conns[j].to
  }

  ghost predicate Good(conns: seq<Connection>) {
    Mirrored(conns) && OnePeer(conns)
  }

  // ----- choosing connections to bind -----

  /** Which connections of the list are bound. */
  type Picks = seq<bool>

  function Uses(c: Connection, p: Port): nat {
    (if c.from.port == p then 1 else 0) + if c.to.port == p then 1 else 0
  }

  /** port_bind_indices: how often a port has been used by the connections bound among the first n. */
  function Count(conns: seq<Connection>, picks: Picks, n: nat, p: Port): nat
    requires n <= |conns| && n <= |picks|
  {
    if n == 0 then 0 else Count(conns, picks, n - 1, p) + if picks[n - 1] then Uses(conns[n - 1], p) else 0
  }

  /** Both ports are ready for connection i. */
  predicate Fits(conns: seq<Connection>, picks: Picks, i: nat)
    requires i < |conns| && i <= |picks|
  {
    && Count(conns, picks, i, conns[i].from.port) == conns[i].from.index
    && Count(conns, picks, i, conns[i].to.port) == conns[i].to.index
  }

  /** A connection is bound only when both ports are ready for it. */
  ghost predicate InOrder(conns: seq<Connection>, picks: Picks) {
    |picks| == |conns| && forall i | 0 <= i < |conns| && picks[i] :: Fits(conns, picks, i)
  }

  /** The binder binds a connection exactly when both ports are ready for it. */
  ghost predicate IsGreedy(conns: seq<Connection>, picks: Picks) {
    |picks| == |conns| && forall i | 0 <= i < |conns| :: picks[i] <==> Fits(conns, picks, i)
  }

  /** Each connection is bound in exactly one of its directions. */
  ghost predicate ExactlyOnce(conns: seq<Connection>, picks: Picks) {
    && |picks| == |conns|
    && forall i, j | 0 <= i < |conns| && 0 <= j < |conns| && conns[j] == Reverse(conns[i]) :: picks[i] != picks[j]
  }

  predicate Touches(c: Connection, e: Endpoint) {
    c.from == e || c.to == e
  }

  /** Connection i is bound, among the first n, and has endpoint e. */
  predicate Binds(conns: seq<Connection>, picks: Picks, n: nat, i: nat, e: Endpoint)
    requires n <= |conns| == |picks|
  {
    i < n && picks[i] && Touches(conns[i], e)
  }

  ghost predicate IsBound(conns: seq<Connection>, picks: Picks, n: nat, e: Endpoint)
    requires n <= |conns| == |picks|
  {
    exists i: nat :: Binds(conns, picks, n, i, e)
  }

  /** The endpoints bound on a port are those with the lowest indices: its indices are used in order, from 0 on. */
  lemma {:induction false} BoundIff(conns: seq<Connection>, picks: Picks, n: nat, e: Endpoint)
    requires OnePeer(conns) && InOrder(conns, picks) && n <= |conns|
    ensures IsBound(conns, picks, n, e) <==> e.index < Count(conns, picks, n, e.port)
  {
    if n > 0 {
      BoundIff(conns, picks, n - 1, e);
      var c := conns[n - 1];
      if IsBound(conns, picks, n - 1, e) {
        var i: nat :| Binds(conns, picks, n - 1, i, e);
        assert Binds(conns, picks, n, i, e);
      }
      if picks[n - 1] {
        assert Fits(conns, picks, n - 1);
        assert Touches(c, e) ==> Binds(conns, picks, n, n - 1, e);
      }
      if IsBound(conns, picks, n, e) {
        var i: nat :| Binds(conns, picks, n, i, e);
        assert i == n - 1 || Binds(conns, picks, n - 1, i, e);
      }
    }
  }

  /** No endpoint is bound twice. */
  lemma BoundOnce(conns: seq<Connection>, picks: Picks, i: nat, j: nat, e: Endpoint)
    requires OnePeer(conns) && InOrder(conns, picks) && i < j < |conns|
    requires Binds(conns, picks, |conns|, i, e) && picks[j]
    ensures !Touches(conns[j], e)
  {
    BoundIff(conns, picks, j, e);
    assert Binds(conns, picks, j, i, e);
    assert Fits(conns, picks, j);
  }

  // ----- the final check -----

  /** The place of the other direction of connection i. */
  ghost function Mirror(conns: seq<Connection>, i: nat): (j: nat)
    requires Mirrored(conns) && i < |conns|
    ensures j < |conns| && conns[j] == Reverse(conns[i])
  {
    assert Reverse(conns[i]) in conns;
    var j: nat :| j < |conns| && conns[j] == Reverse(conns[i]);
    j
  }

  lemma MirrorInjective(conns: seq<Connection>, i: nat, j: nat)
    requires Mirrored(conns) && i < |conns| && j < |conns| && Mirror(conns, i) == Mirror(conns, j)
    ensures i == j
  {
    assert i >= j || Differ(conns, i, j);
    assert j >= i || Differ(conns, j, i);
  }

  lemma MirrorTwice(conns: seq<Connection>, i: nat)
    requires Mirrored(conns) && i < |conns|
    ensures Mirror(conns, Mirror(conns, i)) == i
  {
    MirrorIs(conns, Mirror(conns, i), i);
  }

  lemma MirrorIs(conns: seq<Connection>, i: nat, j: nat)
    requires Mirrored(conns) && i < |conns| && j < |conns| && conns[j] == Reverse(conns[i])
    ensures Mirror(conns, i) == j
  {
    var k := Mirror(conns, i);
    assert k >= j || Differ(conns, k, j);
    assert j >= k || Differ(conns, j, k);
  }

  /** The places of the connections that are bound. */
  ghost function Places(picks: Picks): set<nat> {
    set i: nat | i < |picks| && picks[i]
  }

  ghost function Mirrors(conns: seq<Connection>, some: set<nat>): set<nat>
    requires Mirrored(conns) && forall i | i in some :: i < |conns|
  {
    set i | i in some :: Mirror(conns, i)
  }

  lemma {:induction false} MirrorsCount(conns: seq<Connection>, some: set<nat>)
    requires Mirrored(conns) && forall i | i in some :: i < |conns|
    ensures |Mirrors(conns, some)| == |some|
  {
    if some != {} {
      var i := Sets.Pick(some);
      var rest := some - {i};
      MirrorsCount(conns, rest);
      assert Mirrors(conns, some) == Mirrors(conns, rest) + {Mirror(conns, i)};
      forall j | j in rest
        ensures Mirror(conns, j) != Mirror(conns, i)
      {
        if Mirror(conns, j) == Mirror(conns, i) {
          MirrorInjective(conns, i, j);
        }
      }
    }
  }

  ghost predicate Inside(i: nat, n: nat) {
    i < n
  }

  ghost function Below(n: nat): set<nat> {
    set i: nat | i < n && Inside(i, n)
  }

  lemma {:induction false} BelowCount(n: nat)
    ensures |Below(n)| == n
  {
    if n > 0 {
      BelowCount(n - 1);
      assert forall i: nat :: Inside(i, n) <==> Inside(i, n - 1) || i == n - 1;
      assert Below(n) == Below(n - 1) + {n - 1};
    }
  }

  /** A connection and its other direction are never both bound. */
  lemma NeverBoth(conns: seq<Connection>, picks: Picks, i: nat)
    requires Good(conns) && InOrder(conns, picks) && i < |conns| && picks[i]
    ensures !picks[Mirror(conns, i)]
  {
    var j := Mirror(conns, i);
    if picks[j] {
      if i < j {
        BoundOnce(conns, picks, i, j, conns[i].from);
      } else if j < i {
        BoundOnce(conns, picks, j, i, conns[j].from);
      }
    }
  }

  lemma SubsetFull(a: set<nat>, b: set<nat>)
    requires a <= b && |a| == |b|
    ensures a == b
  {
    assert b == a + (b - a);
  }

  lemma CoveredIsOnce(conns: seq<Connection>, picks: Picks)
    requires Good(conns) && InOrder(conns, picks)
    requires forall i: nat | i < |conns| :: picks[i] || picks[Mirror(conns, i)]
    ensures ExactlyOnce(conns, picks)
  {
    forall i: nat, j: nat | i < |conns| && j < |conns| && conns[j] == Reverse(conns[i])
      ensures picks[i] != picks[j]
    {
      MirrorIs(conns, i, j);
      if picks[i] {
        NeverBoth(conns, picks, i);
      }
    }
  }

  lemma Halves(conns: seq<Connection>, picks: Picks)
    requires Good(conns) && InOrder(conns, picks)
    ensures var some := Places(picks); var mirrors := Mirrors(conns, some);
      && some !! mirrors && some + mirrors <= Below(|conns|) && |some + mirrors| == 2 * |some|
  {
    var some := Places(picks);
    var mirrors := Mirrors(conns, some);
    MirrorsCount(conns, some);
    forall i | i in mirrors
      ensures i !in some
    {
      var k :| k in some && Mirror(conns, k) == i;
      NeverBoth(conns, picks, k);
    }
    assert forall i: nat :: Inside(i, |conns|) <==> i < |conns|;
  }

  /** The final check of bind_ports passes exactly when every connection has been bound exactly once. */
  lemma CheckIff(conns: seq<Connection>, picks: Picks)
    requires Good(conns) && InOrder(conns, picks)
    ensures 2 * |Places(picks)| == |conns| <==> ExactlyOnce(conns, picks)
  {
    var some, all := Places(picks), Below(|conns|);
    var mirrors := Mirrors(conns, some);
    Halves(conns, picks);
    BelowCount(|conns|);
    if 2 * |some| == |conns| {
      SubsetFull(some + mirrors, all);
      forall i: nat | i < |conns|
        ensures picks[i] || picks[Mirror(conns, i)]
      {
        assert Inside(i, |conns|) && i in all;
        if i in mirrors {
          var k :| k in some && Mirror(conns, k) == i;
          MirrorTwice(conns, k);
        }
      }
      CoveredIsOnce(conns, picks);
    }
    if ExactlyOnce(conns, picks) {
      forall i | i in all
        ensures i in some + mirrors
      {
        var j := Mirror(conns, i);
        MirrorTwice(conns, i);
        assert picks[i] != picks[j];
        assert picks[j] ==> j in some && Mirror(conns, j) == i;
      }
      assert some + mirrors == all;
    }
  }

  // ----- no one-pass choice does better -----

  lemma GreedyInOrder(conns: seq<Connection>, picks: Picks)
    requires IsGreedy(conns, picks)
    ensures InOrder(conns, picks)
  {
  }

  /** Whoever binds one endpoint of a connection binds the other. */
  lemma BoundTogether(conns: seq<Connection>, picks: Picks, n: nat, c: Connection)
    requires Good(conns) && InOrder(conns, picks) && n <= |conns| && c in conns
    ensures c.from.index < Count(conns, picks, n, c.from.port) <==> c.to.index < Count(conns, picks, n, c.to.port)
  {
    BoundIff(conns, picks, n, c.from);
    BoundIff(conns, picks, n, c.to);
    if IsBound(conns, picks, n, c.from) {
      var i: nat :| Binds(conns, picks, n, i, c.from);
      TouchesBoth(conns, i, c, c.from);
      assert Binds(conns, picks, n, i, c.to);
    }
    if IsBound(conns, picks, n, c.to) {
      var i: nat :| Binds(conns, picks, n, i, c.to);
      TouchesBoth(conns, i, c, c.to);
      assert Binds(conns, picks, n, i, c.from);
    }
  }

  lemma TouchesBoth(conns: seq<Connection>, i: nat, c: Connection, e: Endpoint)
    requires Good(conns) && i < |conns| && c in conns && Touches(c, e) && Touches(conns[i], e)
    ensures Touches(conns[i], c.from) && Touches(conns[i], c.to)
  {
    var k: nat :| k < |conns| && conns[k] == c;
    var i', k' := Mirror(conns, i), Mirror(conns, k);
    assert SamePeer(conns, i, k) && SamePeer(conns, i, k') && SamePeer(conns, i', k) && SamePeer(conns, i', k');
  }

  lemma StepCount(conns: seq<Connection>, picks: Picks, n: nat, p: Port)
    requires OnePeer(conns) && InOrder(conns, picks) && n < |conns| && picks[n]
    ensures Count(conns, picks, n + 1, p) ==
      if conns[n].from.port == p then conns[n].from.index + 1
      else if conns[n].to.port == p then conns[n].to.index + 1
      else Count(conns, picks, n, p)
  {
    assert Fits(conns, picks, n);
  }

  /** On every port and at every moment, the binder has bound at least as much as any choice that keeps the order. */
  lemma {:induction false} GreedyAhead(conns: seq<Connection>, greedy: Picks, other: Picks, n: nat, p: Port)
    requires Good(conns) && IsGreedy(conns, greedy) && InOrder(conns, other) && n <= |conns|
    ensures Count(conns, greedy, n, p) >= Count(conns, other, n, p)
  {
    if n > 0 {
      var c := conns[n - 1];
      GreedyAhead(conns, greedy, other, n - 1, p);
      if other[n - 1] {
        GreedyInOrder(conns, greedy);
        GreedyAhead(conns, greedy, other, n - 1, c.from.port);
        GreedyAhead(conns, greedy, other, n - 1, c.to.port);
        assert Fits(conns, other, n - 1);
        StepCount(conns, other, n - 1, p);
        BoundTogether(conns, greedy, n - 1, c);
        if greedy[n - 1] {
          StepCount(conns, greedy, n - 1, p);
        } else {
          assert !Fits(conns, greedy, n - 1);
        }
      }
    }
  }

  /** Every endpoint that an order-keeping choice binds, the binder binds. */
  lemma GreedyCovers(conns: seq<Connection>, greedy: Picks, other: Picks, i: nat)
    requires Good(conns) && IsGreedy(conns, greedy) && InOrder(conns, other) && ExactlyOnce(conns, other) && i < |conns|
    ensures greedy[i] || greedy[Mirror(conns, i)]
  {
    var e, n := conns[i].from, |conns|;
    GreedyInOrder(conns, greedy);
    assert other[i] != other[Mirror(conns, i)];
    assert Binds(conns, other, n, if other[i] then i else Mirror(conns, i), e);
    BoundIff(conns, other, n, e);
    GreedyAhead(conns, greedy, other, n, e.port);
    BoundIff(conns, greedy, n, e);
    var k: nat :| Binds(conns, greedy, n, k, e);
    TouchesBoth(conns, k, conns[i], e);
    assert conns[k] == conns[i] || conns[k] == Reverse(conns[i]);
    if conns[k] == conns[i] {
      assert k >= i || Differ(conns, k, i);
      assert i >= k || Differ(conns, i, k);
    } else {
      MirrorIs(conns, i, k);
    }
  }

  /** The binder passes its check exactly when some choice of the connections, taken in the order of the list,
      binds each connection once and every port's indices in order. */
  lemma GreedyPassesIff(conns: seq<Connection>, greedy: Picks)
    requires Good(conns) && IsGreedy(conns, greedy)
    ensures 2 * |Places(greedy)| == |conns| <==> exists other :: InOrder(conns, other) && ExactlyOnce(conns, other)
  {
    GreedyInOrder(conns, greedy);
    CheckIff(conns, greedy);
    if other :| InOrder(conns, other) && ExactlyOnce(conns, other) {
      forall i: nat | i < |conns|
        ensures greedy[i] || greedy[Mirror(conns, i)]
      {
        GreedyCovers(conns, greedy, other, i);
      }
      CoveredIsOnce(conns, greedy);
    }
  }

  // ----- bind_ports -----

  lemma {:induction false} CountPrefix(conns: seq<Connection>, picks: Picks, b: bool, n: nat, p: Port)
    requires n <= |conns| && n <= |picks|
    ensures Count(conns, picks + [b], n, p) == Count(conns, picks, n, p)
  {
    if n > 0 {
      CountPrefix(conns, picks, b, n - 1, p);
    }
  }

  /** bound lists the connections chosen, each once and in the order of the list; at says where each of them stands. */
  ghost predicate Listed(conns: seq<Connection>, picks: Picks, at: seq<nat>, bound: seq<Connection>) {
    && |at| == |bound| && |picks| <= |conns|
    && (forall j | 0 <= j < |at| :: at[j] < |picks| && picks[at[j]] && bound[j] == conns[at[j]])
    && (forall j, k | 0 <= j < k < |at| :: at[j] < at[k])
    && forall i | 0 <= i < |picks| && picks[i] :: i in at
  }

  lemma ListedNext(conns: seq<Connection>, picks: Picks, at: seq<nat>, bound: seq<Connection>, b: bool)
    requires Listed(conns, picks, at, bound) && |picks| < |conns|
    ensures b ==> Listed(conns, picks + [b], at + [|picks|], bound + [conns[|picks|]])
    ensures !b ==> Listed(conns, picks + [b], at, bound)
  {
    var picks', at' := picks + [b], at + [|picks|];
    assert at'[|at|] == |picks|;
    forall i | 0 <= i < |picks'| && picks'[i]
      ensures i in at' && (!b ==> i in at)
    {
      if i < |picks| {
        var j :| 0 <= j < |at| && at[j] == i;
        assert at'[j] == i;
      }
    }
  }

  lemma PlacesNext(picks: Picks, b: bool)
    ensures |Places(picks + [b])| == |Places(picks)| + if b then 1 else 0
  {
    var k := |picks|;
    assert (picks + [b])[k] == b;
    assert Places(picks + [b]) == if b then Places(picks) + {k} else Places(picks);
  }

  /** A connection of the list is bound exactly when its place is chosen. */
  lemma BoundIffPicked(conns: seq<Connection>, picks: Picks, at: seq<nat>, bound: seq<Connection>, i: nat)
    requires Listed(conns, picks, at, bound) && Mirrored(conns) && i < |conns| == |picks|
    ensures conns[i] in bound <==> picks[i]
  {
    if picks[i] {
      var j :| 0 <= j < |at| && at[j] == i;
      assert bound[j] == conns[i];
    }
    if conns[i] in bound {
      var j :| 0 <= j < |bound| && bound[j] == conns[i];
      var k := at[j];
      assert i >= k || Differ(conns, i, k);
      assert k >= i || Differ(conns, k, i);
    }
  }

  /** Each connection is bound in exactly one direction: the same said of the list of connections to make. */
  lemma OnceInBound(conns: seq<Connection>, picks: Picks, at: seq<nat>, bound: seq<Connection>)
    requires Listed(conns, picks, at, bound) && Mirrored(conns) && |picks| == |conns|
    ensures ExactlyOnce(conns, picks) <==> forall c | c in conns :: c in bound <==> Reverse(c) !in bound
  {
    if ExactlyOnce(conns, picks) {
      forall c | c in conns
        ensures c in bound <==> Reverse(c) !in bound
      {
        var i: nat :| i < |conns| && conns[i] == c;
        BoundIffPicked(conns, picks, at, bound, i);
        BoundIffPicked(conns, picks, at, bound, Mirror(conns, i));
      }
    }
    if forall c | c in conns :: c in bound <==> Reverse(c) !in bound {
      forall i: nat, j: nat | i < |conns| && j < |conns| && conns[j] == Reverse(conns[i])
        ensures picks[i] != picks[j]
      {
        assert conns[i] in conns;
        BoundIffPicked(conns, picks, at, bound, i);
        BoundIffPicked(conns, picks, at, bound, j);
      }
    }
  }

  /** The choice made for the first connections is the binder's. */
  ghost predicate GreedySoFar(conns: seq<Connection>, picks: Picks) {
    |picks| <= |conns| && forall i | 0 <= i < |picks| :: picks[i] <==> Fits(conns, picks, i)
  }

  lemma GreedyNext(conns: seq<Connection>, picks: Picks, b: bool)
    requires GreedySoFar(conns, picks) && |picks| < |conns| && (b <==> Fits(conns, picks, |picks|))
    ensures GreedySoFar(conns, picks + [b])
  {
    forall i | 0 <= i < |picks| + 1
      ensures (picks + [b])[i] <==> Fits(conns, picks + [b], i)
    {
      CountPrefix(conns, picks, b, i, conns[i].from.port);
      CountPrefix(conns, picks, b, i, conns[i].to.port);
    }
  }

  ghost predicate Indexed(conns: seq<Connection>, picks: Picks, indices: map<Port, nat>) {
    && |picks| <= |conns|
    && (forall c | c in conns :: c.from.port in indices && c.to.port in indices)
    && forall p | p in indices :: indices[p] == Count(conns, picks, |picks|, p)
  }

  /** Bind one connection if both ports are ready for it. */
  method BindOne(conns: seq<Connection>, picks: Picks, indices: map<Port, nat>)
    returns (b: bool, indices': map<Port, nat>)
    requires |picks| < |conns| && Indexed(conns, picks, indices)
    ensures b <==> Fits(conns, picks, |picks|)
    ensures Indexed(conns, picks + [b], indices')
  {
    var c := conns[|picks|];
    b := indices[c.from.port] == c.from.index && indices[c.to.port] == c.to.index;
    indices' := indices;
    if b {
      indices' := indices'[c.from.port := indices'[c.from.port] + 1];
      indices' := indices'[c.to.port := indices'[c.to.port] + 1];
    }
    forall p | p in indices'
      ensures indices'[p] == Count(conns, picks + [b], |picks| + 1, p)
    {
      CountPrefix(conns, picks, b, |picks|, p);
    }
  }

  /** port_bind_indices at the start. */
  method StartIndices(conns: seq<Connection>) returns (indices: map<Port, nat>)
    requires forall c | c in conns :: Reverse(c) in conns
    ensures Indexed(conns, [], indices)
  {
    indices := map[];
    for i := 0 to |conns|
      invariant forall k | 0 <= k < i :: conns[k].from.port in indices
      invariant forall p | p in indices :: indices[p] == 0
    {
      indices := indices[conns[i].from.port := 0];
    }
    forall c | c in conns
      ensures c.from.port in indices && c.to.port in indices
    {
      assert Reverse(c) in conns;
    }
  }

  /** bind_ports: the connections to make, and whether the final check passes. */
  method BindPorts(conns: seq<Connection>)
    returns (ghost picks: Picks, ghost at: seq<nat>, bound: seq<Connection>, ok: bool)
    requires forall c | c in conns :: Reverse(c) in conns
    ensures IsGreedy(conns, picks) && |at| == |bound|
    ensures forall j | 0 <= j < |at| :: at[j] < |conns| && picks[at[j]] && bound[j] == conns[at[j]]
    ensures forall j, k | 0 <= j < k < |at| :: at[j] < at[k]
    ensures forall i | 0 <= i < |conns| && picks[i] :: i in at
    ensures ok <==> 2 * |bound| == |conns|
    ensures Good(conns) ==> (ok <==> ExactlyOnce(conns, picks))
    ensures Good(conns) ==> (ok <==> forall c | c in conns :: c in bound <==> Reverse(c) !in bound)
  {
    var indices := StartIndices(conns);
    var made: Picks := [];
    bound, at := [], [];
    for i := 0 to |conns|
      invariant |made| == i && GreedySoFar(conns, made) && Indexed(conns, made, indices)
      invariant Listed(conns, made, at, bound) && |bound| == |Places(made)|
    {
      var b;
      b, indices := BindOne(conns, made, indices);
      GreedyNext(conns, made, b);
      ListedNext(conns, made, at, bound, b);
      PlacesNext(made, b);
      made := made + [b];
      if b {
        bound, at := bound + [conns[i]], at + [i];
      }
    }
    picks := made;
    ok := |bound| * 2 == |conns|;
    if Good(conns) {
      GreedyInOrder(conns, picks);
      CheckIff(conns, picks);
      OnceInBound(conns, picks, at, bound);
    }
  }

  ghost predicate Counts(conns: seq<Connection>, picks: Picks, n: nat, ports: seq<Port>, counts: seq<nat>)
    requires n <= |conns| && n <= |picks|
  {
    |counts| == |ports| && forall k | 0 <= k < |ports| :: Count(conns, picks, n, ports[k]) == counts[k]
  }

  /** Whether the next connection is bound, from the counts of the ports. */
  lemma NextPick(conns: seq<Connection>, picks: Picks, n: nat, ports: seq<Port>, counts: seq<nat>, f: nat, t: nat,
                 counts': seq<nat>)
    requires IsGreedy(conns, picks) && n < |conns| && Counts(conns, picks, n, ports, counts)
    requires (forall i, j | 0 <= i < j < |ports| :: ports[i] != ports[j]) && f < |ports| && t < |ports| && f != t
    requires conns[n].from.port == ports[f] && conns[n].to.port == ports[t]
    requires counts' == if conns[n].from.index == counts[f] && conns[n].to.index == counts[t]
                        then counts[f := counts[f] + 1][t := counts[t] + 1] else counts
    ensures picks[n] <==> conns[n].from.index == counts[f] && conns[n].to.index == counts[t]
    ensures Counts(conns, picks, n + 1, ports, counts')
  {
    assert picks[n] <==> Fits(conns, picks, n);
  }

  /** A sorted list, for ports a, b, y, z in this order. */
  function Stubborn(a: Port, b: Port, y: Port, z: Port): seq<Connection> {
    [Connection(Endpoint(a, 0), Endpoint(z, 1)), Connection(Endpoint(a, 1), Endpoint(b, 0)),
     Connection(Endpoint(b, 0), Endpoint(a, 1)), Connection(Endpoint(y, 0), Endpoint(z, 0)),
     Connection(Endpoint(z, 0), Endpoint(y, 0)), Connection(Endpoint(z, 1), Endpoint(a, 0))]
  }

  /** The same connections in another order. */
  function Easy(a: Port, b: Port, y: Port, z: Port): seq<Connection> {
    [Connection(Endpoint(y, 0), Endpoint(z, 0)), Connection(Endpoint(z, 1), Endpoint(a, 0)),
     Connection(Endpoint(a, 1), Endpoint(b, 0)), Connection(Endpoint(z, 0), Endpoint(y, 0)),
     Connection(Endpoint(a, 0), Endpoint(z, 1)), Connection(Endpoint(b, 0), Endpoint(a, 1))]
  }

  lemma StubbornFails(a: Port, b: Port, y: Port, z: Port, greedy: Picks)
    requires Different(a, b, y, z) && IsGreedy(Stubborn(a, b, y, z), greedy)
    ensures greedy == [false, false, false, true, false, true]
  {
    var conns, ports := Stubborn(a, b, y, z), [a, b, y, z];
    NextPick(conns, greedy, 0, ports, [0, 0, 0, 0], 0, 3, [0, 0, 0, 0]);
    NextPick(conns, greedy, 1, ports, [0, 0, 0, 0], 0, 1, [0, 0, 0, 0]);
    NextPick(conns, greedy, 2, ports, [0, 0, 0, 0], 1, 0, [0, 0, 0, 0]);
    NextPick(conns, greedy, 3, ports, [0, 0, 0, 0], 2, 3, [0, 0, 1, 1]);
    NextPick(conns, greedy, 4, ports, [0, 0, 1, 1], 3, 2, [0, 0, 1, 1]);
    NextPick(conns, greedy, 5, ports, [0, 0, 1, 1], 3, 0, [1, 0, 1, 2]);
  }

  lemma EasyPasses(a: Port, b: Port, y: Port, z: Port, greedy: Picks)
    requires Different(a, b, y, z) && IsGreedy(Easy(a, b, y, z), greedy)
    ensures greedy == [true, true, true, false, false, false]
  {
    var conns, ports := Easy(a, b, y, z), [a, b, y, z];
    NextPick(conns, greedy, 0, ports, [0, 0, 0, 0], 2, 3, [0, 0, 1, 1]);
    NextPick(conns, greedy, 1, ports, [0, 0, 1, 1], 3, 0, [1, 0, 1, 2]);
    NextPick(conns, greedy, 2, ports, [1, 0, 1, 2], 0, 1, [2, 1, 1, 2]);
    NextPick(conns, greedy, 3, ports, [2, 1, 1, 2], 3, 2, [2, 1, 1, 2]);
    NextPick(conns, greedy, 4, ports, [2, 1, 1, 2], 0, 3, [2, 1, 1, 2]);
    NextPick(conns, greedy, 5, ports, [2, 1, 1, 2], 1, 0, [2, 1, 1, 2]);
  }

  predicate Different(a: Port, b: Port, y: Port, z: Port) {
    a != b && a != y && a != z && b != y && b != z && y != z
  }

  /** The same connections, perhaps in another order: lists of one length without duplicates. */
  ghost predicate SameList(conns: seq<Connection>, conns': seq<Connection>) {
    |conns| == |conns'| && forall c :: c in conns <==> c in conns'
  }

  lemma SameConnections(a: Port, b: Port, y: Port, z: Port)
    ensures SameList(Stubborn(a, b, y, z), Easy(a, b, y, z))
  {
    var c, d := Stubborn(a, b, y, z), Easy(a, b, y, z);
    assert d[0] == c[3] && d[1] == c[5] && d[2] == c[1] && d[3] == c[4] && d[4] == c[0] && d[5] == c[2];
  }

  lemma StubbornIsMirrored(a: Port, b: Port, y: Port, z: Port)
    requires Different(a, b, y, z)
    ensures Mirrored(Stubborn(a, b, y, z))
  {
    var conns := Stubborn(a, b, y, z);
    assert conns[5] == Reverse(conns[0]) && conns[2] == Reverse(conns[1]) && conns[4] == Reverse(conns[3]);
    forall i, j | 0 <= i < j < 6
      ensures Differ(conns, i, j)
    {
      assert conns[i].from != conns[j].from;
    }
  }

  lemma StubbornIsGood(a: Port, b: Port, y: Port, z: Port)
    requires Different(a, b, y, z)
    ensures Good(Stubborn(a, b, y, z))
  {
    StubbornIsMirrored(a, b, y, z);
    var conns := Stubborn(a, b, y, z);
    forall i, j | 0 <= i < 6 && 0 <= j < 6
      ensures SamePeer(conns, i, j)
    {
      assert i == j || conns[i].from != conns[j].from;
    }
  }

  lemma StubbornIsSorted(a: Port, b: Port, y: Port, z: Port)
    requires PortLess(a, b) && PortLess(b, y) && PortLess(y, z)
    ensures Different(a, b, y, z) && Sorted(Stubborn(a, b, y, z))
  {
    PortOrder(a, b, y);
    PortOrder(b, y, z);
    PortOrder(a, y, z);
    PortOrder(a, z, z);
    PortOrder(b, z, z);
    PortOrder(y, z, z);
    var conns := Stubborn(a, b, y, z);
    forall i, j | 0 <= i < j < 6
      ensures !Less(conns[j], conns[i])
    {
      assert EndpointLess(conns[i].from, conns[j].from);
      ConnectionOrder(conns[i], conns[j]);
    }
  }

  lemma TwoPlaces(picks: Picks)
    requires picks == [false, false, false, true, false, true]
    ensures |Places(picks)| == 2
  {
    assert Places(picks) == {3, 5};
  }

  lemma ThreePlaces(picks: Picks)
    requires picks == [true, true, true, false, false, false]
    ensures |Places(picks)| == 3
  {
    assert Places(picks) == {0, 1, 2};
  }

  /** Sorting the connections is not enough: in sorted order the binder gives up on these, in another it binds them
      all. */
  lemma SortedCanFail(a: Port, b: Port, y: Port, z: Port, greedy: Picks, greedy': Picks)
    requires PortLess(a, b) && PortLess(b, y) && PortLess(y, z)
    requires IsGreedy(Stubborn(a, b, y, z), greedy) && IsGreedy(Easy(a, b, y, z), greedy')
    ensures Sorted(Stubborn(a, b, y, z)) && Good(Stubborn(a, b, y, z))
    ensures SameList(Stubborn(a, b, y, z), Easy(a, b, y, z))
    ensures 2 * |Places(greedy)| < |Stubborn(a, b, y, z)| == 2 * |Places(greedy')|
  {
    StubbornIsSorted(a, b, y, z);
    StubbornIsGood(a, b, y, z);
    SameConnections(a, b, y, z);
    StubbornFails(a, b, y, z, greedy);
    TwoPlaces(greedy);
    EasyPasses(a, b, y, z, greedy');
    ThreePlaces(greedy');
  }

  /** The binder's choice exists for every list. */
  lemma {:induction false} GreedyExists(conns: seq<Connection>, n: nat) returns (picks: Picks)
    requires n <= |conns|
    ensures |picks| == n && GreedySoFar(conns, picks)
  {
    if n == 0 {
      picks := [];
    } else {
      var before := GreedyExists(conns, n - 1);
      var b := Fits(conns, before, n - 1);
      GreedyNext(conns, before, b);
      picks := before + [b];
    }
  }

  ghost predicate Passes(conns: seq<Connection>) {
    exists greedy :: IsGreedy(conns, greedy) && 2 * |Places(greedy)| == |conns|
  }

  ghost predicate GivesUp(conns: seq<Connection>) {
    exists greedy :: IsGreedy(conns, greedy) && 2 * |Places(greedy)| != |conns|
  }

  /** There is a sorted list of connections, each listed both ways, on which the binder gives up although the
      connections can be bound. */
  lemma SortedFails()
    ensures exists conns, conns' ::
      Sorted(conns) && Good(conns) && GivesUp(conns) && SameList(conns, conns') && Passes(conns')
  {
    var a, b, y, z := Port("a", "p"), Port("b", "p"), Port("y", "p"), Port("z", "p");
    var greedy := GreedyExists(Stubborn(a, b, y, z), 6);
    var greedy' := GreedyExists(Easy(a, b, y, z), 6);
    SortedCanFail(a, b, y, z, greedy, greedy');
    assert GivesUp(Stubborn(a, b, y, z)) && Passes(Easy(a, b, y, z));
  }
}
