/** Who owns a local socket: the best-fitting row of the socket tables. */
module Identify {
  import opened Bytes
  import opened Net
  import opened Policy

  datatype SocketEntry = SocketEntry(local: SocketAddr, remote: SocketAddr, uid: U32, inode: nat)

  datatype SocketMatch = One(entry: SocketEntry) | SameUser(uid: U32) | Ambiguous | NoMatch

  /** IPv4-mapped addresses are the same host as their IPv4 form. */
  predicate SameHost(a: Ip, b: Ip) {
    a.Canonical() == b.Canonical()
  }

  /** The rank of a row as the sender of a packet from `peer` to `server`, if it can be
      the sender at all. */
  function Fit(e: SocketEntry, peer: SocketAddr, server: SocketAddr): (r: Option<nat>)
    ensures r.Some? ==> r.value <= 3
  {
    var localExact := SameHost(e.local.ip, peer.ip);
    var unconnected := e.remote.port == 0 && e.remote.ip.Unspecified();
    var remoteExact := e.remote.port == server.port
                       && (server.ip.Unspecified() || SameHost(e.remote.ip, server.ip));
    if e.local.port != peer.port then None
    else if !localExact && !e.local.ip.Unspecified() then None
    else if !unconnected && !remoteExact then None
    else Some((if remoteExact then 2 else 0) + (if localExact then 1 else 0))
  }

  /** The socket can have sent a packet from `peer` to `server`: it is on that port, bound
      to that address or to any, and connected to the server or to nobody. */
  predicate MaySend(e: SocketEntry, peer: SocketAddr, server: SocketAddr) {
    && e.local.port == peer.port
    && (SameHost(e.local.ip, peer.ip) || e.local.ip.Unspecified())
    && ((e.remote.port == 0 && e.remote.ip.Unspecified())
        || (e.remote.port == server.port && (server.ip.Unspecified() || SameHost(e.remote.ip, server.ip))))
  }

  lemma FitsIff(e: SocketEntry, peer: SocketAddr, server: SocketAddr)
    ensures Fit(e, peer, server).Some? <==> MaySend(e, peer, server)
  {
  }

  /** A socket connected to the server outranks any that is not, and among rows
      connected alike, one bound to the client's own address outranks a wildcard. */
  lemma FitRanks(e: SocketEntry, f: SocketEntry, peer: SocketAddr, server: SocketAddr)
    requires Fit(e, peer, server).Some? && Fit(f, peer, server).Some?
    ensures var connectedE := e.remote.port == server.port
                              && (server.ip.Unspecified() || SameHost(e.remote.ip, server.ip));
      var connectedF := f.remote.port == server.port
                        && (server.ip.Unspecified() || SameHost(f.remote.ip, server.ip));
      var boundE, boundF := SameHost(e.local.ip, peer.ip), SameHost(f.local.ip, peer.ip);
      Fit(e, peer, server).value > Fit(f, peer, server).value
      <==> (connectedE && !connectedF) || (connectedE == connectedF && boundE && !boundF)
  {
  }

  // ---- The specification: the rows of maximal fit --------------------------------

  /** Nothing in the table fits better than this row, and it fits. */
  ghost predicate Best(entries: seq<SocketEntry>, e: SocketEntry, peer: SocketAddr, server: SocketAddr) {
    && Fit(e, peer, server).Some?
    && forall f <- entries :: Fit(f, peer, server).Some? ==> Fit(f, peer, server).value <= Fit(e, peer, server).value
  }

  /** The rows satisfying a predicate, in table order. */
  ghost function Filter(entries: seq<SocketEntry>, p: SocketEntry -> bool): seq<SocketEntry> {
    if entries == [] then []
    else (if p(entries[0]) then [entries[0]] else []) + Filter(entries[1..], p)
  }

  ghost function Winners(entries: seq<SocketEntry>, peer: SocketAddr, server: SocketAddr): seq<SocketEntry> {
    Filter(entries, e => Best(entries, e, peer, server))
  }

  predicate SameUid(rows: seq<SocketEntry>, uid: U32) {
    forall e <- rows :: e.uid == uid
  }

  /** None, one, several of one user, or several users. */
  function Classify(winners: seq<SocketEntry>): SocketMatch {
    if winners == [] then NoMatch
    else if |winners| == 1 then One(winners[0])
    else if SameUid(winners, winners[0].uid) then SameUser(winners[0].uid)
    else Ambiguous
  }

  ghost function FindSpec(entries: seq<SocketEntry>, peer: SocketAddr, server: SocketAddr): SocketMatch {
    Classify(Winners(entries, peer, server))
  }

  // ---- The one-pass search --------------------------------------------------------

  /** The rows of a given fit, in table order. */
  ghost function WithFit(entries: seq<SocketEntry>, peer: SocketAddr, server: SocketAddr, fit: nat): seq<SocketEntry> {
    Filter(entries, e => Fit(e, peer, server) == Some(fit))
  }

  ghost predicate AtMost(entries: seq<SocketEntry>, peer: SocketAddr, server: SocketAddr, fit: nat) {
    forall e <- entries :: Fit(e, peer, server).Some? ==> Fit(e, peer, server).value <= fit
  }

  ghost predicate NoFit(entries: seq<SocketEntry>, peer: SocketAddr, server: SocketAddr) {
    forall e <- entries :: Fit(e, peer, server).None?
  }

  /** `find_socket`. */
  method FindSocket(entries: seq<SocketEntry>, peer: SocketAddr, server: SocketAddr) returns (m: SocketMatch)
    ensures m == FindSpec(entries, peer, server)
  {
    hide Fit, Filter;
    var best: seq<SocketEntry> := [];
    var bestFit := 0;
    FilterNothing();
    for i := 0 to |entries|
      invariant best == [] <==> NoFit(entries[..i], peer, server)
      invariant best != [] ==> AtMost(entries[..i], peer, server, bestFit)
      invariant best != [] ==> best == WithFit(entries[..i], peer, server, bestFit)
    {
      var entry := entries[i];
      var seen := entries[..i];
      assert entries[..i + 1] == seen + [entry];
      var score := Fit(entry, peer, server);
      if score.None? {
        SnocNone(seen, entry, peer, server, bestFit);
        continue;
      }
      SnocSome(seen, entry, peer, server, score.value, bestFit);
      if best == [] || score.value > bestFit {
        best := [entry];
        bestFit := score.value;
      } else if score.value == bestFit {
        best := best + [entry];
      }
    }
    assert entries[..|entries|] == entries;
    WinnersAre(entries, peer, server, bestFit);
    m := Classify(best);
  }

  lemma FilterNothing()
    ensures forall p: SocketEntry -> bool :: Filter([], p) == []
  {
  }

  lemma {:induction false} FilterSnoc(entries: seq<SocketEntry>, e: SocketEntry, p: SocketEntry -> bool)
    ensures Filter(entries + [e], p) == Filter(entries, p) + if p(e) then [e] else []
  {
    if entries == [] {
      assert entries + [e] == [e] && [e][1..] == [];
    } else {
      FilterSnoc(entries[1..], e, p);
      assert (entries + [e])[1..] == entries[1..] + [e];
    }
  }

  lemma {:induction false} FilterMember(entries: seq<SocketEntry>, p: SocketEntry -> bool, e: SocketEntry)
    ensures e in Filter(entries, p) <==> e in entries && p(e)
  {
    if entries != [] { FilterMember(entries[1..], p, e); }
  }

  lemma {:induction false} FilterAgree(entries: seq<SocketEntry>, p: SocketEntry -> bool, q: SocketEntry -> bool)
    requires forall e <- entries :: p(e) == q(e)
    ensures Filter(entries, p) == Filter(entries, q)
  {
    if entries != [] {
      assert entries[0] in entries && forall e <- entries[1..] :: e in entries;
      FilterAgree(entries[1..], p, q);
    }
  }

  lemma FilterNone(entries: seq<SocketEntry>, p: SocketEntry -> bool)
    requires forall e <- entries :: !p(e)
    ensures Filter(entries, p) == []
  {
  }

  lemma SnocNone(seen: seq<SocketEntry>, e: SocketEntry, peer: SocketAddr, server: SocketAddr, fit: nat)
    requires Fit(e, peer, server).None?
    ensures NoFit(seen + [e], peer, server) <==> NoFit(seen, peer, server)
    ensures AtMost(seen + [e], peer, server, fit) <==> AtMost(seen, peer, server, fit)
    ensures WithFit(seen + [e], peer, server, fit) == WithFit(seen, peer, server, fit)
  {
    hide Fit, Filter;
    FilterSnoc(seen, e, f => Fit(f, peer, server) == Some(fit));
    assert forall f <- seen :: f in seen + [e];
  }

  lemma SnocSome(seen: seq<SocketEntry>, e: SocketEntry, peer: SocketAddr, server: SocketAddr, score: nat, fit: nat)
    requires Fit(e, peer, server) == Some(score)
    ensures !NoFit(seen + [e], peer, server)
    ensures NoFit(seen, peer, server) || (AtMost(seen, peer, server, fit) && score > fit)
            ==> AtMost(seen + [e], peer, server, score) && WithFit(seen + [e], peer, server, score) == [e]
    ensures AtMost(seen, peer, server, fit) && score <= fit ==> AtMost(seen + [e], peer, server, fit)
    ensures WithFit(seen + [e], peer, server, fit)
         == WithFit(seen, peer, server, fit) + if score == fit then [e] else []
  {
    hide Fit, Filter;
    FilterSnoc(seen, e, f => Fit(f, peer, server) == Some(fit));
    FilterSnoc(seen, e, f => Fit(f, peer, server) == Some(score));
    assert e in seen + [e];
    if NoFit(seen, peer, server) || (AtMost(seen, peer, server, fit) && score > fit) {
      FilterNone(seen, f => Fit(f, peer, server) == Some(score));
      assert [] + [e] == [e];
    }
  }

  /** The rows the pass kept are the rows of maximal fit. */
  lemma WinnersAre(entries: seq<SocketEntry>, peer: SocketAddr, server: SocketAddr, fit: nat)
    ensures NoFit(entries, peer, server) ==> Winners(entries, peer, server) == []
    ensures AtMost(entries, peer, server, fit) && WithFit(entries, peer, server, fit) != []
            ==> Winners(entries, peer, server) == WithFit(entries, peer, server, fit)
  {
    hide Fit, Filter;
    if NoFit(entries, peer, server) {
      FilterNone(entries, e => Best(entries, e, peer, server));
    }
    var kept := WithFit(entries, peer, server, fit);
    if AtMost(entries, peer, server, fit) && kept != [] {
      FilterMember(entries, f => Fit(f, peer, server) == Some(fit), kept[0]);
      FilterAgree(entries, e => Best(entries, e, peer, server), e => Fit(e, peer, server) == Some(fit));
    }
  }

  // ---- The argmax, case by case -----------------------------------------------------

  /** Exactly when each outcome is reported. */
  lemma OutcomeIff(entries: seq<SocketEntry>, peer: SocketAddr, server: SocketAddr)
    ensures var m := FindSpec(entries, peer, server);
      var winners := multiset(Winners(entries, peer, server));
      && (forall e :: e in winners <==> e in entries && Best(entries, e, peer, server))
      && (m == NoMatch <==> forall e <- entries :: Fit(e, peer, server).None?)
      && (forall e :: m == One(e) <==> winners == multiset{e})
      && (forall u :: m == SameUser(u) <==> |winners| >= 2 && forall e <- winners :: e.uid == u)
      && (m == Ambiguous <==> exists e, f :: e in winners && f in winners && e.uid != f.uid)
  {
    hide Fit, Filter;
    var w := Winners(entries, peer, server);
    WinnersAreBest(entries, peer, server);
    SomeWinner(entries, peer, server);
    ClassifyIff(w);
  }

  lemma WinnersAreBest(entries: seq<SocketEntry>, peer: SocketAddr, server: SocketAddr)
    ensures forall e :: e in Winners(entries, peer, server) <==> e in entries && Best(entries, e, peer, server)
  {
    hide Fit, Filter, Best;
    forall e ensures e in Winners(entries, peer, server) <==> e in entries && Best(entries, e, peer, server) {
      FilterMember(entries, f => Best(entries, f, peer, server), e);
    }
  }

  lemma {:induction false} MaximalExists(entries: seq<SocketEntry>, peer: SocketAddr, server: SocketAddr, e: SocketEntry)
    returns (top: SocketEntry)
    requires e in entries && Fit(e, peer, server).Some?
    ensures top in entries && Best(entries, top, peer, server)
    decreases 3 - Fit(e, peer, server).value
  {
    if f :| f in entries && Fit(f, peer, server).Some? && Fit(f, peer, server).value > Fit(e, peer, server).value {
      top := MaximalExists(entries, peer, server, f);
    } else {
      top := e;
    }
  }

  lemma SomeWinner(entries: seq<SocketEntry>, peer: SocketAddr, server: SocketAddr)
    ensures Winners(entries, peer, server) == [] <==> forall e <- entries :: Fit(e, peer, server).None?
  {
    hide Fit, Filter;
    WinnersAreBest(entries, peer, server);
    if e :| e in entries && Fit(e, peer, server).Some? {
      var top := MaximalExists(entries, peer, server, e);
    }
    var w := Winners(entries, peer, server);
    if w != [] { assert w[0] in w; }
  }

  lemma ClassifyIff(w: seq<SocketEntry>)
    ensures var m := Classify(w);
      && (m == NoMatch <==> w == [])
      && (forall e :: m == One(e) <==> multiset(w) == multiset{e})
      && (forall u :: m == SameUser(u) <==> |w| >= 2 && forall e <- multiset(w) :: e.uid == u)
      && (m == Ambiguous <==> exists e, f :: e in multiset(w) && f in multiset(w) && e.uid != f.uid)
  {
  }

  // ---- Invariance ---------------------------------------------------------------------

  lemma {:induction false} FilterCount(entries: seq<SocketEntry>, p: SocketEntry -> bool, e: SocketEntry)
    ensures multiset(Filter(entries, p))[e] == if p(e) then multiset(entries)[e] else 0
  {
    if entries != [] {
      FilterCount(entries[1..], p, e);
      assert entries == [entries[0]] + entries[1..];
    }
  }

  lemma ClassifyUpToOrder(w: seq<SocketEntry>, v: seq<SocketEntry>)
    requires multiset(w) == multiset(v)
    ensures Classify(w) == Classify(v)
  {
    assert |w| == |multiset(w)| == |v|;
    if |w| == 1 {
      assert w[0] in multiset(v);
    } else if |w| >= 2 {
      assert forall e :: e in w <==> e in multiset(w);
      assert forall e :: e in v <==> e in multiset(v);
      assert w[0] in v && v[0] in w;
    }
  }

  /** Tables whose rows of maximal fit agree give the same outcome. */
  lemma SameWinners(a: seq<SocketEntry>, b: seq<SocketEntry>, peer: SocketAddr, server: SocketAddr)
    requires forall e :: (e in a && Best(a, e, peer, server)) <==> (e in b && Best(b, e, peer, server))
    requires forall e :: e in a && Best(a, e, peer, server) ==> multiset(a)[e] == multiset(b)[e]
    ensures FindSpec(a, peer, server) == FindSpec(b, peer, server)
  {
    hide Fit, Filter, Best, Classify;
    var w, v := Winners(a, peer, server), Winners(b, peer, server);
    forall e ensures multiset(w)[e] == multiset(v)[e] {
      FilterCount(a, f => Best(a, f, peer, server), e);
      FilterCount(b, f => Best(b, f, peer, server), e);
      assert e in a <==> multiset(a)[e] > 0;
      assert e in b <==> multiset(b)[e] > 0;
    }
    assert multiset(w) == multiset(v);
    ClassifyUpToOrder(w, v);
  }

  /** The order of the rows does not matter. */
  lemma OrderDoesNotMatter(a: seq<SocketEntry>, b: seq<SocketEntry>, peer: SocketAddr, server: SocketAddr)
    requires multiset(a) == multiset(b)
    ensures FindSpec(a, peer, server) == FindSpec(b, peer, server)
  {
    hide Fit, Filter, Classify;
    assert forall e :: e in a <==> e in multiset(a);
    assert forall e :: e in b <==> e in multiset(b);
    SameWinners(a, b, peer, server);
  }

  /** A row that does not fit, or fits worse than some other, changes nothing. */
  lemma WorseRowIsInert(entries: seq<SocketEntry>, k: nat, row: SocketEntry, peer: SocketAddr, server: SocketAddr)
    requires k <= |entries|
    requires Fit(row, peer, server).Some? ==>
      exists e <- entries :: Fit(e, peer, server).Some? && Fit(e, peer, server).value > Fit(row, peer, server).value
    ensures FindSpec(entries[..k] + [row] + entries[k..], peer, server) == FindSpec(entries, peer, server)
  {
    hide Fit, Filter, Classify;
    var longer := entries[..k] + [row] + entries[k..];
    assert entries == entries[..k] + entries[k..];
    assert multiset(longer) == multiset(entries) + multiset{row};
    assert forall e :: e in longer <==> e in multiset(longer);
    assert forall e :: e in entries <==> e in multiset(entries);
    assert !Best(longer, row, peer, server) && !Best(entries, row, peer, server);
    SameWinners(longer, entries, peer, server);
  }

  /** Only the canonical form of the peer's address matters, so an IPv4 peer and its
      IPv4-mapped form find the same socket. */
  lemma PeerFormDoesNotMatter(entries: seq<SocketEntry>, peer: SocketAddr, other: SocketAddr, server: SocketAddr)
    requires peer.port == other.port && SameHost(peer.ip, other.ip)
    ensures FindSpec(entries, peer, server) == FindSpec(entries, other, server)
  {
    hide Filter, Classify, Fit;
    forall e ensures Fit(e, peer, server) == Fit(e, other, server) {
      FitOfForm(e, peer, other, server);
    }
    FilterAgree(entries, e => Best(entries, e, peer, server), e => Best(entries, e, other, server));
  }

  lemma FitOfForm(e: SocketEntry, peer: SocketAddr, other: SocketAddr, server: SocketAddr)
    requires peer.port == other.port && SameHost(peer.ip, other.ip)
    ensures Fit(e, peer, server) == Fit(e, other, server)
  {
  }

  lemma MappedPeer(entries: seq<SocketEntry>, o: Octets4, port: U16, server: SocketAddr)
    ensures FindSpec(entries, SocketAddr(V4(o), port), server)
         == FindSpec(entries, SocketAddr(Mapped(o), port), server)
  {
    hide FindSpec;
    PeerFormDoesNotMatter(entries, SocketAddr(V4(o), port), SocketAddr(Mapped(o), port), server);
  }

  /** The row is the very connection: bound to the peer's address, connected to the server's. */
  predicate IsConnection(e: SocketEntry, peer: SocketAddr, server: SocketAddr) {
    && e.local.port == peer.port && SameHost(e.local.ip, peer.ip)
    && e.remote.port == server.port && SameHost(e.remote.ip, server.ip)
  }

  lemma ConnectionFitsBest(e: SocketEntry, peer: SocketAddr, server: SocketAddr)
    requires !server.ip.Unspecified()
    ensures Fit(e, peer, server) == Some(3) <==> IsConnection(e, peer, server)
  {
  }

  // ---- The caller -----------------------------------------------------------------------

  /** What `/proc` says about the process holding a socket. */
  datatype Process = Process(pid: int, gid: Option<U32>)

  /** `identify`, given the table and the outcome of the process search by inode. */
  ghost function IdentifyCaller(entries: seq<SocketEntry>, processOf: nat -> Option<Process>,
                                peer: SocketAddr, server: SocketAddr, processes: bool): Caller {
    match FindSpec(entries, peer, server)
    case One(socket) =>
      if !processes then Caller(Some(socket.uid), None, None)
      else (match processOf(socket.inode)
            case None => Caller(Some(socket.uid), None, None)
            case Some(p) => Caller(Some(socket.uid), p.gid, Some(p.pid)))
    case SameUser(uid) => Caller(Some(uid), None, None)
    case _ => UNKNOWN
  }

  /** A connected socket is always traced to its owner, whatever else is in the table,
      unless another user's row shows the same connection. */
  lemma ConnectionIdentifiesOwner(entries: seq<SocketEntry>, row: SocketEntry, processOf: nat -> Option<Process>,
                                  peer: SocketAddr, server: SocketAddr, processes: bool)
    requires row in entries && IsConnection(row, peer, server) && !server.ip.Unspecified()
    ensures IdentifyCaller(entries, processOf, peer, server, processes).uid == Some(row.uid)
       <==> forall f <- entries :: IsConnection(f, peer, server) ==> f.uid == row.uid
  {
    hide IdentifyCaller, IsConnection;
    IdentifiedIff(entries, processOf, peer, server, processes, row.uid);
    forall f ensures f in entries && Best(entries, f, peer, server) <==> f in entries && IsConnection(f, peer, server) {
      ConnectionFitsBest(f, peer, server);
      ConnectionFitsBest(row, peer, server);
      OnlyTopFitsAreBest(entries, row, f, peer, server);
    }
  }

  lemma OnlyTopFitsAreBest(entries: seq<SocketEntry>, row: SocketEntry, f: SocketEntry, peer: SocketAddr, server: SocketAddr)
    requires row in entries && Fit(row, peer, server) == Some(3)
    ensures f in entries ==> (Best(entries, f, peer, server) <==> Fit(f, peer, server) == Some(3))
  {
  }

  /** A uid is reported exactly when some row fits and all the best ones are that user's. */
  lemma IdentifiedIff(entries: seq<SocketEntry>, processOf: nat -> Option<Process>,
                      peer: SocketAddr, server: SocketAddr, processes: bool, uid: U32)
    ensures IdentifyCaller(entries, processOf, peer, server, processes).uid == Some(uid)
       <==> && (exists e :: e in entries && Best(entries, e, peer, server))
            && (forall e :: e in entries && Best(entries, e, peer, server) ==> e.uid == uid)
  {
    hide Fit, Filter, Best;
    var w := Winners(entries, peer, server);
    WinnersAreBest(entries, peer, server);
    if w != [] { assert w[0] in w; }
  }

  /** No packet is put down to a user none of whose sockets can have sent it; one that only
      a single user's sockets can have sent is put down to that user; and nobody is named
      exactly when no socket can have sent it or the best-fitting ones are of different
      users. */
  lemma NeverMisattributed(entries: seq<SocketEntry>, processOf: nat -> Option<Process>,
                           peer: SocketAddr, server: SocketAddr, processes: bool)
    ensures var uid := IdentifyCaller(entries, processOf, peer, server, processes).uid;
      && (uid.Some? ==> exists e <- entries :: MaySend(e, peer, server) && e.uid == uid.value)
      && (forall u: U32 ::
            && (exists e <- entries :: MaySend(e, peer, server))
            && (forall e <- entries :: MaySend(e, peer, server) ==> e.uid == u)
            ==> uid == Some(u))
      && (uid.None? <==>
            || (forall e <- entries :: !MaySend(e, peer, server))
            || (exists e, f :: e in entries && f in entries && Best(entries, e, peer, server)
                               && Best(entries, f, peer, server) && e.uid != f.uid))
  {
    hide Fit, MaySend, IdentifyCaller;
    forall e ensures Fit(e, peer, server).Some? <==> MaySend(e, peer, server) {
      FitsIff(e, peer, server);
    }
    forall u: U32 ensures IdentifyCaller(entries, processOf, peer, server, processes).uid == Some(u)
       <==> && (exists e :: e in entries && Best(entries, e, peer, server))
            && (forall e :: e in entries && Best(entries, e, peer, server) ==> e.uid == u)
    {
      IdentifiedIff(entries, processOf, peer, server, processes, u);
    }
    if e :| e in entries && MaySend(e, peer, server) {
      var top := MaximalExists(entries, peer, server, e);
      IdentifiedIff(entries, processOf, peer, server, processes, top.uid);
    }
  }
}
