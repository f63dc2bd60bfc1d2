/**
 Anti-entropy: a node sends its list of nodes to another one, which upserts every entry by name and answers
 with its own list, from which the caller inserts the addresses it does not know yet.
 */
module Gossip {
  import opened Basics
  import opened NodeTable

  datatype NodeInfo = NodeInfo(
    name: string, listenAddr: string, localAsn: int, description: string,
    wgPublicKey: string, tunnelIp: string, tunnelIpv6: string)

  function Info(n: Node): NodeInfo {
    NodeInfo(n.name, n.listenAddr, n.localAsn, n.description, n.wgPubkey, n.tunnelIp, n.tunnelIpv6)
  }

  /** What a caller sends about a node: never a key or a tunnel address. */
  function BlankInfo(n: Node): NodeInfo {
    NodeInfo(n.name, n.listenAddr, n.localAsn, n.description, "", "", "")
  }

  function Infos(rows: seq<Node>): (r: seq<NodeInfo>)
    ensures |r| == |rows| && forall i :: 0 <= i < |r| ==> r[i] == Info(rows[i])
  {
    seq(|rows|, i requires 0 <= i < |rows| => Info(rows[i]))
  }

  function BlankInfos(rows: seq<Node>): (r: seq<NodeInfo>)
    ensures |r| == |rows| && forall i :: 0 <= i < |r| ==> r[i] == BlankInfo(rows[i])
  {
    seq(|rows|, i requires 0 <= i < |rows| => BlankInfo(rows[i]))
  }

  // ---- The responder

  function Pick(sent: string, held: string): string { if sent != "" then sent else held }

  /** The key and tunnel fields an entry brings along, written to the row that the upsert returned. */
  function FieldsSet(t: Table, n: Node, ni: NodeInfo): Table {
    var keyed :=
      if (ni.wgPublicKey != "" && ni.wgPublicKey != n.wgPubkey) || (ni.tunnelIp != "" && ni.tunnelIp != n.tunnelIp)
      then t.(rows := WithClusterFields(t.rows, n.id, Pick(ni.wgPublicKey, n.wgPubkey), Pick(ni.tunnelIp, n.tunnelIp)))
      else t;
    if ni.tunnelIpv6 != "" && ni.tunnelIpv6 != n.tunnelIpv6
    then keyed.(rows := WithTunnelIpv6(keyed.rows, n.id, ni.tunnelIpv6)) else keyed
  }

  function Absorbed(t: Table, ni: NodeInfo): Table {
    var up := Upserted(t, ni.name, ni.listenAddr, ni.localAsn, ni.description);
    match UpsertResult(t, ni.name, ni.listenAddr, ni.localAsn, ni.description)
    case None => up
    case Some(n) => FieldsSet(up, n, ni)
  }

  function AbsorbedAll(t: Table, req: seq<NodeInfo>): Table {
    if req == [] then t else Absorbed(AbsorbedAll(t, req[..|req| - 1]), req[|req| - 1])
  }

  method ExchangeNodes(repo: NodeRepository, req: seq<NodeInfo>) returns (reply: seq<NodeInfo>)
    modifies repo
    ensures repo.Contents() == AbsorbedAll(old(repo.Contents()), req)
    ensures reply == Infos(repo.rows)
  {
    for i := 0 to |req|
      invariant repo.Contents() == AbsorbedAll(old(repo.Contents()), req[..i])
    {
      assert req[..i + 1][..i] == req[..i];
      var ni := req[i];
      var upserted := repo.UpsertByName(ni.name, ni.listenAddr, ni.localAsn, ni.description);
      if upserted.None? {
        continue;
      }
      var node := upserted.value;
      var wgChanged := ni.wgPublicKey != "" && ni.wgPublicKey != node.wgPubkey;
      var tunnelChanged := ni.tunnelIp != "" && ni.tunnelIp != node.tunnelIp;
      var tunnelIpv6Changed := ni.tunnelIpv6 != "" && ni.tunnelIpv6 != node.tunnelIpv6;
      if wgChanged || tunnelChanged {
        repo.UpdateClusterFields(node.id, if wgChanged then ni.wgPublicKey else node.wgPubkey,
                                 if tunnelChanged then ni.tunnelIp else node.tunnelIp);
      }
      if tunnelIpv6Changed {
        repo.UpdateTunnelIpv6(node.id, ni.tunnelIpv6);
      }
    }
    assert req[..|req|] == req;
    reply := Infos(repo.rows);
  }

  // ---- The caller

  function Learned(t: Table, own: string, ni: NodeInfo): Table {
    if ni.listenAddr == own || HasAddr(t.rows, ni.listenAddr) then t
    else Created(t, ni.name, ni.listenAddr, ni.localAsn, ni.description)
  }

  function LearnedAll(t: Table, own: string, reply: seq<NodeInfo>): Table {
    if reply == [] then t else Learned(LearnedAll(t, own, reply[..|reply| - 1]), own, reply[|reply| - 1])
  }

  method LearnNodes(repo: NodeRepository, own: string, reply: seq<NodeInfo>)
    modifies repo
    ensures repo.Contents() == LearnedAll(old(repo.Contents()), own, reply)
  {
    for i := 0 to |reply|
      invariant repo.Contents() == LearnedAll(old(repo.Contents()), own, reply[..i])
    {
      assert reply[..i + 1][..i] == reply[..i];
      var info := reply[i];
      if info.listenAddr == own {
        continue;
      }
      if HasAddr(repo.rows, info.listenAddr) {
        continue;
      }
      var ok := repo.Create(info.name, info.listenAddr, info.localAsn, info.description);
    }
    assert reply[..|reply|] == reply;
  }

  // ---- One exchange unites what both sides know

  /** No name is ever used for two addresses: `book` gives each name its address. */
  ghost predicate Named(rows: seq<Node>, book: string -> string) {
    forall i :: 0 <= i < |rows| ==> rows[i].listenAddr == book(rows[i].name)
  }

  ghost predicate InfosNamed(infos: seq<NodeInfo>, book: string -> string) {
    forall i :: 0 <= i < |infos| ==> infos[i].listenAddr == book(infos[i].name)
  }

  ghost predicate Good(t: Table, book: string -> string) { Valid(t) && Named(t.rows, book) }

  function Addrs(infos: seq<NodeInfo>): set<string> { set i | 0 <= i < |infos| :: infos[i].listenAddr }

  lemma AddrsAppend(infos: seq<NodeInfo>)
    requires infos != []
    ensures Addrs(infos) == Addrs(infos[..|infos| - 1]) + {infos[|infos| - 1].listenAddr}
  {
  }

  /** Setting fields touches neither names nor addresses nor ids. */
  lemma FieldsKeepIdentity(t: Table, n: Node, ni: NodeInfo)
    ensures var r := FieldsSet(t, n, ni);
            && |r.rows| == |t.rows| && r.nextId == t.nextId
            && forall i :: 0 <= i < |t.rows| ==>
                 r.rows[i].id == t.rows[i].id && r.rows[i].name == t.rows[i].name
                 && r.rows[i].listenAddr == t.rows[i].listenAddr && r.rows[i].online == t.rows[i].online
  {
  }

  lemma IdentityDecides(t: Table, r: Table, book: string -> string)
    requires |r.rows| == |t.rows| && r.nextId == t.nextId
    requires forall i :: 0 <= i < |t.rows| ==>
               r.rows[i].id == t.rows[i].id && r.rows[i].name == t.rows[i].name
               && r.rows[i].listenAddr == t.rows[i].listenAddr
    ensures Good(t, book) ==> Good(r, book)
    ensures Known(r.rows) == Known(t.rows)
  {
  }

  lemma UpsertLearns(t: Table, ni: NodeInfo, book: string -> string)
    requires Good(t, book) && ni.listenAddr == book(ni.name)
    ensures var r := Upserted(t, ni.name, ni.listenAddr, ni.localAsn, ni.description);
            Good(r, book) && Known(r.rows) == Known(t.rows) + {ni.listenAddr}
  {
    var i, r := Find(t.rows, ni.name), Upserted(t, ni.name, ni.listenAddr, ni.localAsn, ni.description);
    UpsertKeepsValid(t, ni.name, ni.listenAddr, ni.localAsn, ni.description);
    if i == |t.rows| {
      CreateLearns(t, ni.name, ni.listenAddr, ni.localAsn, ni.description);
    } else {
      assert t.rows[i].listenAddr == ni.listenAddr;
      IdentityDecides(t, r, book);
      KnownIffHasAddr(t.rows, ni.listenAddr);
    }
  }

  lemma AbsorbLearns(t: Table, ni: NodeInfo, book: string -> string)
    requires Good(t, book) && ni.listenAddr == book(ni.name)
    ensures Good(Absorbed(t, ni), book) && Known(Absorbed(t, ni).rows) == Known(t.rows) + {ni.listenAddr}
  {
    hide Good, FieldsSet, Upserted, UpsertResult;
    UpsertLearns(t, ni, book);
    var up := Upserted(t, ni.name, ni.listenAddr, ni.localAsn, ni.description);
    var n := UpsertResult(t, ni.name, ni.listenAddr, ni.localAsn, ni.description);
    if n.Some? {
      FieldsKeepIdentity(up, n.value, ni);
      IdentityDecides(up, FieldsSet(up, n.value, ni), book);
    }
  }

  lemma {:induction false} AbsorbAllLearns(t: Table, req: seq<NodeInfo>, book: string -> string)
    requires Good(t, book) && InfosNamed(req, book)
    ensures Good(AbsorbedAll(t, req), book) && Known(AbsorbedAll(t, req).rows) == Known(t.rows) + Addrs(req)
  {
    hide Good, Absorbed;
    if req != [] {
      AbsorbAllLearns(t, req[..|req| - 1], book);
      AbsorbLearns(AbsorbedAll(t, req[..|req| - 1]), req[|req| - 1], book);
      AddrsAppend(req);
    }
  }

  lemma LearnLearns(t: Table, own: string, ni: NodeInfo, book: string -> string)
    requires Good(t, book) && ni.listenAddr == book(ni.name) && own in Known(t.rows)
    ensures Good(Learned(t, own, ni), book) && Known(Learned(t, own, ni).rows) == Known(t.rows) + {ni.listenAddr}
  {
    KnownIffHasAddr(t.rows, ni.listenAddr);
    if ni.listenAddr != own && !HasAddr(t.rows, ni.listenAddr) {
      assert !HasName(t.rows, ni.name);
      CreateKeepsValid(t, ni.name, ni.listenAddr, ni.localAsn, ni.description);
      CreateLearns(t, ni.name, ni.listenAddr, ni.localAsn, ni.description);
    }
  }

  lemma {:induction false} LearnAllLearns(t: Table, own: string, reply: seq<NodeInfo>, book: string -> string)
    requires Good(t, book) && InfosNamed(reply, book) && own in Known(t.rows)
    ensures Good(LearnedAll(t, own, reply), book)
    ensures Known(LearnedAll(t, own, reply).rows) == Known(t.rows) + Addrs(reply)
  {
    hide Good, Learned;
    if reply != [] {
      LearnAllLearns(t, own, reply[..|reply| - 1], book);
      LearnLearns(LearnedAll(t, own, reply[..|reply| - 1]), own, reply[|reply| - 1], book);
      AddrsAppend(reply);
    }
  }

  lemma AddrsOfInfos(rows: seq<Node>)
    ensures Addrs(Infos(rows)) == Known(rows) && Addrs(BlankInfos(rows)) == Known(rows)
  {
  }

  // ---- A cluster and its runs

  /** A node's own address and its table. */
  datatype Site = Site(own: string, table: Table)

  /** Site `from` contacts site `to`; the answer may be lost on the way back. */
  datatype Exchange = Exchange(from: nat, to: nat, answered: bool)

  predicate Fits(sites: seq<Site>, x: Exchange) { x.from < |sites| && x.to < |sites| && x.from != x.to }

  function Next(sites: seq<Site>, x: Exchange): (r: seq<Site>)
    requires Fits(sites, x)
    ensures |r| == |sites|
  {
    var caller, responder := sites[x.from], sites[x.to];
    var absorbed := AbsorbedAll(responder.table, BlankInfos(caller.table.rows));
    var learned := if x.answered then LearnedAll(caller.table, caller.own, Infos(absorbed.rows)) else caller.table;
    sites[x.to := responder.(table := absorbed)][x.from := caller.(table := learned)]
  }

  function KnownAt(sites: seq<Site>, i: nat): set<string>
    requires i < |sites|
  {
    Known(sites[i].table.rows)
  }

  /** Every site knows itself, and only addresses of the universe. */
  ghost predicate WellFormed(sites: seq<Site>, book: string -> string, universe: set<string>) {
    forall i :: 0 <= i < |sites| ==>
      Good(sites[i].table, book) && sites[i].own in KnownAt(sites, i) && KnownAt(sites, i) <= universe
  }

  /** One exchange: both ends know the union of what they knew; a lost answer only spares the caller. */
  lemma ExchangeUnites(sites: seq<Site>, x: Exchange, book: string -> string, universe: set<string>)
    requires WellFormed(sites, book, universe) && Fits(sites, x)
    ensures var r := Next(sites, x);
            && WellFormed(r, book, universe)
            && KnownAt(r, x.to) == KnownAt(sites, x.from) + KnownAt(sites, x.to)
            && KnownAt(r, x.from) == (if x.answered then KnownAt(r, x.to) else KnownAt(sites, x.from))
            && forall i :: 0 <= i < |sites| && i != x.from && i != x.to ==> r[i] == sites[i]
  {
    hide Good, Known, AbsorbedAll, LearnedAll;
    TablesUnite(sites[x.from], sites[x.to].table, book);
  }

  lemma TablesUnite(caller: Site, responder: Table, book: string -> string)
    requires Good(caller.table, book) && Good(responder, book) && caller.own in Known(caller.table.rows)
    ensures var absorbed := AbsorbedAll(responder, BlankInfos(caller.table.rows));
            var learned := LearnedAll(caller.table, caller.own, Infos(absorbed.rows));
            && Good(absorbed, book) && Known(absorbed.rows) == Known(caller.table.rows) + Known(responder.rows)
            && Good(learned, book) && Known(learned.rows) == Known(absorbed.rows)
  {
    hide Good, Known, AbsorbedAll, LearnedAll;
    var req := BlankInfos(caller.table.rows);
    NamedInfos(caller.table, book);
    AddrsOfInfos(caller.table.rows);
    AbsorbAllLearns(responder, req, book);
    var absorbed := AbsorbedAll(responder, req);
    NamedInfos(absorbed, book);
    AddrsOfInfos(absorbed.rows);
    LearnAllLearns(caller.table, caller.own, Infos(absorbed.rows), book);
  }

  lemma NamedInfos(t: Table, book: string -> string)
    requires Good(t, book)
    ensures InfosNamed(Infos(t.rows), book) && InfosNamed(BlankInfos(t.rows), book)
  {
  }

  predicate Teaches(sites: seq<Site>, x: Exchange)
    requires Fits(sites, x)
  {
    exists i :: 0 <= i < |sites| && KnownAt(Next(sites, x), i) != KnownAt(sites, i)
  }

  predicate AllFit(sites: seq<Site>, run: seq<Exchange>)
    decreases |run|
  {
    run == [] || (Fits(sites, run[0]) && AllFit(Next(sites, run[0]), run[1..]))
  }

  function Lessons(sites: seq<Site>, run: seq<Exchange>): nat
    requires AllFit(sites, run)
    decreases |run|
  {
    if run == [] then 0
    else (if Teaches(sites, run[0]) then 1 else 0) + Lessons(Next(sites, run[0]), run[1..])
  }

  function Total(sites: seq<Site>): nat {
    if sites == [] then 0 else Total(sites[..|sites| - 1]) + |KnownAt(sites, |sites| - 1)|
  }

  lemma {:induction false} TotalGrows(a: seq<Site>, b: seq<Site>)
    requires |a| == |b| && forall i :: 0 <= i < |a| ==> KnownAt(a, i) <= KnownAt(b, i)
    ensures Total(a) <= Total(b)
    ensures (exists i :: 0 <= i < |a| && KnownAt(a, i) != KnownAt(b, i)) ==> Total(a) < Total(b)
  {
    if a != [] {
      var n := |a| - 1;
      var f, g := a[..n], b[..n];
      assert forall i :: 0 <= i < n ==> KnownAt(f, i) == KnownAt(a, i) && KnownAt(g, i) == KnownAt(b, i);
      TotalGrows(f, g);
      SubsetSize(KnownAt(a, n), KnownAt(b, n));
    }
  }

  lemma {:induction false} TotalBounds(sites: seq<Site>, book: string -> string, universe: set<string>)
    requires WellFormed(sites, book, universe)
    ensures |sites| <= Total(sites) <= |sites| * |universe|
  {
    hide Good, Known;
    if sites != [] {
      var n := |sites| - 1;
      var front := sites[..n];
      assert forall i :: 0 <= i < n ==> front[i] == sites[i];
      TotalBounds(front, book, universe);
      SubsetSize(KnownAt(sites, n), universe);
      SubsetSize({sites[n].own}, KnownAt(sites, n));
      OneMoreTimes(n, |universe|);
    }
  }

  lemma OneMoreTimes(n: nat, u: nat)
    ensures (n + 1) * u == n * u + u
  {
  }

  lemma {:induction false} LessonsRaiseTotal(sites: seq<Site>, run: seq<Exchange>, book: string -> string,
        universe: set<string>)
    requires WellFormed(sites, book, universe) && AllFit(sites, run)
    ensures Total(sites) + Lessons(sites, run) <= |sites| * |universe|
    decreases |run|
  {
    hide WellFormed, KnownAt, Next;
    if run == [] {
      TotalBounds(sites, book, universe);
    } else {
      NothingForgotten(sites, run[0], book, universe);
      TotalGrows(sites, Next(sites, run[0]));
      LessonsRaiseTotal(Next(sites, run[0]), run[1..], book, universe);
    }
  }

  lemma NothingForgotten(sites: seq<Site>, x: Exchange, book: string -> string, universe: set<string>)
    requires WellFormed(sites, book, universe) && Fits(sites, x)
    ensures WellFormed(Next(sites, x), book, universe)
    ensures forall i :: 0 <= i < |sites| ==> KnownAt(sites, i) <= KnownAt(Next(sites, x), i)
  {
    hide WellFormed, Next;
    ExchangeUnites(sites, x, book, universe);
  }

  /** An exchange that is not counted teaches nobody: a run without lessons leaves all knowledge as it was. */
  lemma {:induction false} NoLessonsNothingLearned(sites: seq<Site>, run: seq<Exchange>, i: nat)
    requires AllFit(sites, run) && i < |sites|
    ensures Lessons(sites, run) == 0 ==> KnownAt(After(sites, run), i) == KnownAt(sites, i)
    decreases |run|
  {
    hide KnownAt, Next;
    if run != [] {
      NoLessonsNothingLearned(Next(sites, run[0]), run[1..], i);
    }
  }

  /** With as many sites as addresses, at most N * (N - 1) exchanges of any run teach anyone anything. */
  lemma FewLessons(sites: seq<Site>, run: seq<Exchange>, book: string -> string, universe: set<string>)
    requires WellFormed(sites, book, universe) && AllFit(sites, run) && |universe| == |sites|
    ensures Lessons(sites, run) <= |sites| * (|sites| - 1)
  {
    LessonsRaiseTotal(sites, run, book, universe);
    TotalBounds(sites, book, universe);
  }

  /** When no answered exchange would teach anyone anything, all sites know the same addresses. */
  lemma QuietMeansAgreed(sites: seq<Site>, book: string -> string, universe: set<string>)
    requires WellFormed(sites, book, universe)
    requires forall i, j :: 0 <= i < |sites| && 0 <= j < |sites| && i != j ==> !Teaches(sites, Exchange(i, j, true))
    ensures forall i, j :: 0 <= i < |sites| && 0 <= j < |sites| ==> KnownAt(sites, i) == KnownAt(sites, j)
  {
    hide WellFormed, Next;
    forall i, j | 0 <= i < |sites| && 0 <= j < |sites|
      ensures KnownAt(sites, i) == KnownAt(sites, j)
    {
      if i != j {
        var x := Exchange(i, j, true);
        ExchangeUnites(sites, x, book, universe);
        assert !Teaches(sites, x);
      }
    }
  }

  // ---- What gossip never carries

  function After(sites: seq<Site>, run: seq<Exchange>): (r: seq<Site>)
    requires AllFit(sites, run)
    ensures |r| == |sites|
    decreases |run|
  {
    if run == [] then sites else After(Next(sites, run[0]), run[1..])
  }

  /** `r` is `t` with rows renamed or moved, and rows added that are offline and hold no key or tunnel address. */
  predicate AddsOnlyBlanks(t: Table, r: Table) {
    && |t.rows| <= |r.rows|
    && (forall i :: 0 <= i < |t.rows| ==>
          && r.rows[i].id == t.rows[i].id && r.rows[i].online == t.rows[i].online
          && r.rows[i].wgPubkey == t.rows[i].wgPubkey && r.rows[i].wgPrivateKey == t.rows[i].wgPrivateKey
          && r.rows[i].tunnelIp == t.rows[i].tunnelIp && r.rows[i].tunnelIpv6 == t.rows[i].tunnelIpv6)
    && (forall i :: |t.rows| <= i < |r.rows| ==>
          && !r.rows[i].online && r.rows[i].wgPubkey == "" && r.rows[i].wgPrivateKey == ""
          && r.rows[i].tunnelIp == "" && r.rows[i].tunnelIpv6 == "")
  }

  lemma AbsorbAddsBlanks(t: Table, ni: NodeInfo)
    requires ni.wgPublicKey == "" && ni.tunnelIp == "" && ni.tunnelIpv6 == ""
    ensures AddsOnlyBlanks(t, Absorbed(t, ni))
  {
  }

  lemma BlanksTransitive(t: Table, q: Table, r: Table)
    requires AddsOnlyBlanks(t, q) && AddsOnlyBlanks(q, r)
    ensures AddsOnlyBlanks(t, r)
  {
  }

  lemma {:induction false} AbsorbAllAddsBlanks(t: Table, req: seq<NodeInfo>)
    requires forall i :: 0 <= i < |req| ==> req[i].wgPublicKey == "" && req[i].tunnelIp == "" && req[i].tunnelIpv6 == ""
    ensures AddsOnlyBlanks(t, AbsorbedAll(t, req))
  {
    hide Absorbed;
    if req != [] {
      var q := AbsorbedAll(t, req[..|req| - 1]);
      AbsorbAllAddsBlanks(t, req[..|req| - 1]);
      AbsorbAddsBlanks(q, req[|req| - 1]);
      BlanksTransitive(t, q, AbsorbedAll(t, req));
    }
  }

  lemma {:induction false} LearnAllAddsBlanks(t: Table, own: string, reply: seq<NodeInfo>)
    ensures AddsOnlyBlanks(t, LearnedAll(t, own, reply))
  {
    if reply != [] {
      var q := LearnedAll(t, own, reply[..|reply| - 1]);
      LearnAllAddsBlanks(t, own, reply[..|reply| - 1]);
      BlanksTransitive(t, q, LearnedAll(t, own, reply));
    }
  }

  /** However often nodes exchange lists, no site ever learns a key or a tunnel address of another one. */
  lemma {:induction false} KeysNeverTravel(sites: seq<Site>, run: seq<Exchange>)
    requires AllFit(sites, run)
    ensures forall i :: 0 <= i < |sites| ==> AddsOnlyBlanks(sites[i].table, After(sites, run)[i].table)
    decreases |run|
  {
    hide AddsOnlyBlanks;
    if run == [] {
      forall i | 0 <= i < |sites| ensures AddsOnlyBlanks(sites[i].table, sites[i].table) {
        LearnAllAddsBlanks(sites[i].table, sites[i].own, []);
      }
    } else {
      var next := Next(sites, run[0]);
      KeysNeverTravel(next, run[1..]);
      forall i | 0 <= i < |sites|
        ensures AddsOnlyBlanks(sites[i].table, After(sites, run)[i].table)
      {
        StepAddsBlanks(sites, run[0], i);
        BlanksTransitive(sites[i].table, next[i].table, After(sites, run)[i].table);
      }
    }
  }

  lemma StepAddsBlanks(sites: seq<Site>, x: Exchange, i: nat)
    requires Fits(sites, x) && i < |sites|
    ensures AddsOnlyBlanks(sites[i].table, Next(sites, x)[i].table)
  {
    hide AddsOnlyBlanks, AbsorbedAll, LearnedAll;
    LearnAllAddsBlanks(sites[i].table, sites[i].own, []);
    LearnNothing(sites[i].table, sites[i].own);
    var req := BlankInfos(sites[x.from].table.rows);
    AbsorbAllAddsBlanks(sites[x.to].table, req);
    var absorbed := AbsorbedAll(sites[x.to].table, req);
    LearnAllAddsBlanks(sites[x.from].table, sites[x.from].own, Infos(absorbed.rows));
  }

  lemma LearnNothing(t: Table, own: string)
    ensures LearnedAll(t, own, []) == t
  {
  }

  // ---- What is sent and what is written, column by column

  /** The reply lists every row with its public columns. */
  lemma ReplyShowsRow(rows: seq<Node>, i: nat)
    requires i < |rows|
    ensures |Infos(rows)| == |rows|
    ensures var ni, n := Infos(rows)[i], rows[i];
            && ni.name == n.name && ni.listenAddr == n.listenAddr && ni.localAsn == n.localAsn
            && ni.description == n.description && ni.wgPublicKey == n.wgPubkey
            && ni.tunnelIp == n.tunnelIp && ni.tunnelIpv6 == n.tunnelIpv6
  {
  }

  /** Private keys do not influence the reply: tables that differ in them alone answer alike. */
  lemma ReplyHidesPrivateKeys(rows: seq<Node>, others: seq<Node>)
    requires |rows| == |others|
    requires forall i :: 0 <= i < |rows| ==> others[i] == rows[i].(wgPrivateKey := others[i].wgPrivateKey)
    ensures Infos(rows) == Infos(others) && BlankInfos(rows) == BlankInfos(others)
  {
  }

  /** The request lists every row with its name, address, ASN and description, and nothing else. */
  lemma RequestShowsRow(rows: seq<Node>, i: nat)
    requires i < |rows|
    ensures |BlankInfos(rows)| == |rows|
    ensures BlankInfos(rows)[i]
         == NodeInfo(rows[i].name, rows[i].listenAddr, rows[i].localAsn, rows[i].description, "", "", "")
  {
  }

  /**
   One entry of a request: refused if a row of another name has its address; otherwise the row of its name, or
   a new one, holds what was sent, where an empty key or tunnel address leaves the old one.
   */
  lemma AbsorbsRow(t: Table, i: nat, ni: NodeInfo)
    requires Valid(t) && RowOf(t.rows, i, ni.name)
    ensures var r := Absorbed(t, ni);
            if !Accepts(t.rows, ni.name, ni.listenAddr) then r == t
            else
              var o := if i < |t.rows| then t.rows[i] else Node(t.nextId, "", "", 0, "", false, "", "", "", "");
              var n := Node(o.id, ni.name, ni.listenAddr, ni.localAsn, ni.description, o.online,
                            if ni.wgPublicKey != "" then ni.wgPublicKey else o.wgPubkey,
                            if ni.tunnelIp != "" then ni.tunnelIp else o.tunnelIp,
                            if ni.tunnelIpv6 != "" then ni.tunnelIpv6 else o.tunnelIpv6, o.wgPrivateKey);
              r == if i < |t.rows| then Table(t.rows[i := n], t.nextId) else Table(t.rows + [n], t.nextId + 1)
  {
    hide Upserted, UpsertResult, Valid, FieldsSet;
    UpsertsRow(t, i, ni.name, ni.listenAddr, ni.localAsn, ni.description);
    UpsertKeepsValid(t, ni.name, ni.listenAddr, ni.localAsn, ni.description);
    var up := Upserted(t, ni.name, ni.listenAddr, ni.localAsn, ni.description);
    if Accepts(t.rows, ni.name, ni.listenAddr) {
      SetsFields(up, i, ni);
      var n := FieldsSet(up, up.rows[i], ni).rows[i];
      assert up.rows[i := n] == if i < |t.rows| then t.rows[i := n] else t.rows + [n];
    }
  }

  lemma SetsFields(t: Table, i: nat, ni: NodeInfo)
    requires Valid(t) && i < |t.rows|
    ensures var o := t.rows[i];
            FieldsSet(t, o, ni)
            == t.(rows := t.rows[i := o.(
                    wgPubkey := if ni.wgPublicKey != "" then ni.wgPublicKey else o.wgPubkey,
                    tunnelIp := if ni.tunnelIp != "" then ni.tunnelIp else o.tunnelIp,
                    tunnelIpv6 := if ni.tunnelIpv6 != "" then ni.tunnelIpv6 else o.tunnelIpv6)])
  {
    assert forall j :: 0 <= j < |t.rows| && j != i ==> t.rows[j].id != t.rows[i].id;
  }

  /** One entry of a reply: a new blank row, unless it is the caller itself or its name or address is known. */
  lemma LearnsRow(t: Table, own: string, ni: NodeInfo)
    ensures Learned(t, own, ni)
         == if ni.listenAddr == own
               || exists i :: 0 <= i < |t.rows| && (t.rows[i].name == ni.name || t.rows[i].listenAddr == ni.listenAddr)
            then t
            else Table(t.rows + [Node(t.nextId, ni.name, ni.listenAddr, ni.localAsn, ni.description, false,
                                      "", "", "", "")], t.nextId + 1)
  {
    CreatesRow(t, ni.name, ni.listenAddr, ni.localAsn, ni.description);
  }
}
