/**
 The nodes table. Names and listen addresses are unique keys; ids are fresh for every inserted row.
 */
module NodeTable {
  import opened Basics

  datatype Node = Node(
    id: nat, name: string, listenAddr: string, localAsn: int, description: string, online: bool,
    wgPubkey: string, tunnelIp: string, tunnelIpv6: string, wgPrivateKey: string)

  datatype Table = Table(rows: seq<Node>, nextId: nat)

  predicate HasName(rows: seq<Node>, name: string) { exists i :: 0 <= i < |rows| && rows[i].name == name }

  predicate HasAddr(rows: seq<Node>, addr: string) { exists i :: 0 <= i < |rows| && rows[i].listenAddr == addr }

  /** Position of a row with this property, or the number of rows if there is none. */
  function Where(rows: seq<Node>, p: Node -> bool): (i: nat)
    ensures i <= |rows|
    ensures i < |rows| ==> p(rows[i])
    ensures i == |rows| ==> forall j :: 0 <= j < |rows| ==> !p(rows[j])
  {
    if rows == [] then 0
    else if p(rows[|rows| - 1]) then |rows| - 1
    else
      var i := Where(rows[..|rows| - 1], p);
      if i < |rows| - 1 then i else |rows|
  }

  /** Position of the row with this name. */
  function Find(rows: seq<Node>, name: string): (i: nat)
    ensures i <= |rows|
    ensures i < |rows| ==> rows[i].name == name
    ensures i == |rows| ==> !HasName(rows, name)
  {
    Where(rows, (n: Node) => n.name == name)
  }

  /** Position of the row with this listen address. */
  function FindAddr(rows: seq<Node>, addr: string): (i: nat)
    ensures i <= |rows|
    ensures i < |rows| ==> rows[i].listenAddr == addr
    ensures i == |rows| ==> !HasAddr(rows, addr)
  {
    Where(rows, (n: Node) => n.listenAddr == addr)
  }

  /** Position of the row with this id. */
  function Position(rows: seq<Node>, id: nat): (i: nat)
    ensures i <= |rows|
    ensures i < |rows| ==> rows[i].id == id
    ensures i == |rows| ==> forall j :: 0 <= j < |rows| ==> rows[j].id != id
  {
    Where(rows, (n: Node) => n.id == id)
  }

  predicate Valid(t: Table) {
    && (forall i, j :: 0 <= i < j < |t.rows| ==> t.rows[i].name != t.rows[j].name)
    && (forall i, j :: 0 <= i < j < |t.rows| ==> t.rows[i].listenAddr != t.rows[j].listenAddr)
    && (forall i, j :: 0 <= i < j < |t.rows| ==> t.rows[i].id != t.rows[j].id)
    && (forall i :: 0 <= i < |t.rows| ==> t.rows[i].id < t.nextId)
  }

  function Fresh(id: nat, name: string, addr: string, asn: int, description: string): Node {
    Node(id, name, addr, asn, description, false, "", "", "", "")
  }

  /** INSERT: either unique key refuses a duplicate. */
  function Created(t: Table, name: string, addr: string, asn: int, description: string): Table {
    if HasName(t.rows, name) || HasAddr(t.rows, addr) then t
    else Table(t.rows + [Fresh(t.nextId, name, addr, asn, description)], t.nextId + 1)
  }

  predicate AddrTaken(rows: seq<Node>, i: nat, addr: string) {
    exists j :: 0 <= j < |rows| && j != i && rows[j].listenAddr == addr
  }

  predicate NameTaken(rows: seq<Node>, i: nat, name: string) {
    exists j :: 0 <= j < |rows| && j != i && rows[j].name == name
  }

  /** INSERT .. ON CONFLICT(name) DO UPDATE: moving to an address that another row holds is refused. */
  function Upserted(t: Table, name: string, addr: string, asn: int, description: string): Table {
    var i := Find(t.rows, name);
    if i == |t.rows| then Created(t, name, addr, asn, description)
    else if AddrTaken(t.rows, i, addr) then t
    else t.(rows := t.rows[i := t.rows[i].(listenAddr := addr, localAsn := asn, description := description)])
  }

  /** The row a successful upsert returns. */
  function UpsertResult(t: Table, name: string, addr: string, asn: int, description: string): Option<Node> {
    var r, i := Upserted(t, name, addr, asn, description), Find(t.rows, name);
    if i == |t.rows| then if |r.rows| > |t.rows| then Some(r.rows[i]) else None
    else if AddrTaken(t.rows, i, addr) then None
    else Some(r.rows[i])
  }

  /** INSERT .. ON CONFLICT(listen_addr) DO UPDATE: taking a name that another row holds is refused. */
  function SelfUpserted(t: Table, name: string, addr: string, asn: int): Table {
    var i := FindAddr(t.rows, addr);
    if i == |t.rows| then Created(t, name, addr, asn, "")
    else if NameTaken(t.rows, i, name) then t
    else t.(rows := t.rows[i := t.rows[i].(name := name, localAsn := asn)])
  }

  /** UPDATE of every column but the online flag; both unique keys are checked against the other rows. */
  function Updated(t: Table, n: Node): Table {
    var i := Position(t.rows, n.id);
    if i == |t.rows| || NameTaken(t.rows, i, n.name) || AddrTaken(t.rows, i, n.listenAddr) then t
    else t.(rows := t.rows[i := n.(online := t.rows[i].online)])
  }

  /** DELETE: a foreign key refuses it while flap events still refer to the node. */
  function Deleted(t: Table, id: nat, referenced: bool): Table {
    var i := Position(t.rows, id);
    if i == |t.rows| || referenced then t else t.(rows := t.rows[..i] + t.rows[i + 1..])
  }

  function Mapped(rows: seq<Node>, f: Node -> Node): (r: seq<Node>)
    ensures |r| == |rows| && forall i :: 0 <= i < |r| ==> r[i] == f(rows[i])
  {
    seq(|rows|, i requires 0 <= i < |rows| => f(rows[i]))
  }

  function WithClusterFields(rows: seq<Node>, id: nat, pubkey: string, ip: string): seq<Node> {
    Mapped(rows, (n: Node) => if n.id == id then n.(wgPubkey := pubkey, tunnelIp := ip) else n)
  }

  function WithTunnelIpv6(rows: seq<Node>, id: nat, ip: string): seq<Node> {
    Mapped(rows, (n: Node) => if n.id == id then n.(tunnelIpv6 := ip) else n)
  }

  function WithPrivateKey(rows: seq<Node>, id: nat, key: string): seq<Node> {
    Mapped(rows, (n: Node) => if n.id == id then n.(wgPrivateKey := key) else n)
  }

  function WithOnline(rows: seq<Node>, id: nat, online: bool): seq<Node> {
    Mapped(rows, (n: Node) => if n.id == id then n.(online := online) else n)
  }

  class NodeRepository {
    var rows: seq<Node>
    var nextId: nat

    function Contents(): Table
      reads this
    {
      Table(rows, nextId)
    }

    constructor ()
      ensures Contents() == Table([], 0)
    {
      rows, nextId := [], 0;
    }

    method Create(name: string, addr: string, asn: int, description: string) returns (ok: bool)
      modifies this
      ensures Contents() == Created(old(Contents()), name, addr, asn, description)
      ensures ok <==> Contents() != old(Contents())
    {
      ok := !HasName(rows, name) && !HasAddr(rows, addr);
      if ok {
        rows := rows + [Fresh(nextId, name, addr, asn, description)];
        nextId := nextId + 1;
      }
    }

    method UpsertByName(name: string, addr: string, asn: int, description: string) returns (r: Option<Node>)
      modifies this
      ensures Contents() == Upserted(old(Contents()), name, addr, asn, description)
      ensures r == UpsertResult(old(Contents()), name, addr, asn, description)
    {
      var i := Find(rows, name);
      if i == |rows| {
        var created := Create(name, addr, asn, description);
        r := if created then Some(rows[i]) else None;
      } else if AddrTaken(rows, i, addr) {
        r := None;
      } else {
        rows := rows[i := rows[i].(listenAddr := addr, localAsn := asn, description := description)];
        r := Some(rows[i]);
      }
    }

    method UpsertSelf(name: string, addr: string, asn: int) returns (r: Option<Node>)
      modifies this
      ensures Contents() == SelfUpserted(old(Contents()), name, addr, asn)
      ensures r.Some? ==> r.value in rows && r.value.name == name && r.value.listenAddr == addr
      ensures r.None? ==> Contents() == old(Contents())
    {
      var i := FindAddr(rows, addr);
      if i == |rows| {
        var created := Create(name, addr, asn, "");
        r := if created then Some(rows[i]) else None;
      } else if NameTaken(rows, i, name) {
        r := None;
      } else {
        rows := rows[i := rows[i].(name := name, localAsn := asn)];
        r := Some(rows[i]);
      }
    }

    method Update(n: Node) returns (ok: bool)
      modifies this
      ensures Contents() == Updated(old(Contents()), n)
      ensures var i := Position(old(rows), n.id);
              ok <==> i < |old(rows)| && !NameTaken(old(rows), i, n.name) && !AddrTaken(old(rows), i, n.listenAddr)
    {
      var i := Position(rows, n.id);
      ok := i < |rows| && !NameTaken(rows, i, n.name) && !AddrTaken(rows, i, n.listenAddr);
      if ok {
        rows := rows[i := n.(online := rows[i].online)];
      }
    }

    method Delete(id: nat, referenced: bool) returns (ok: bool)
      modifies this
      ensures Contents() == Deleted(old(Contents()), id, referenced)
      ensures ok <==> !referenced && exists i :: 0 <= i < |old(rows)| && old(rows)[i].id == id
    {
      var i := Position(rows, id);
      ok := i < |rows| && !referenced;
      if ok {
        rows := rows[..i] + rows[i + 1..];
      }
    }

    method UpdateClusterFields(id: nat, pubkey: string, ip: string)
      modifies this
      ensures Contents() == Table(WithClusterFields(old(rows), id, pubkey, ip), old(nextId))
    {
      rows := WithClusterFields(rows, id, pubkey, ip);
    }

    method UpdateTunnelIpv6(id: nat, ip: string)
      modifies this
      ensures Contents() == Table(WithTunnelIpv6(old(rows), id, ip), old(nextId))
    {
      rows := WithTunnelIpv6(rows, id, ip);
    }

    method UpdateWgPrivateKey(id: nat, key: string)
      modifies this
      ensures Contents() == Table(WithPrivateKey(old(rows), id, key), old(nextId))
    {
      rows := WithPrivateKey(rows, id, key);
    }

    method MarkOnline(id: nat)
      modifies this
      ensures Contents() == Table(WithOnline(old(rows), id, true), old(nextId))
    {
      rows := WithOnline(rows, id, true);
    }

    method MarkStaleNode(id: nat)
      modifies this
      ensures Contents() == Table(WithOnline(old(rows), id, false), old(nextId))
    {
      rows := WithOnline(rows, id, false);
    }
  }

  // ---- Known addresses

  function Known(rows: seq<Node>): set<string> { set i | 0 <= i < |rows| :: rows[i].listenAddr }

  lemma KnownIffHasAddr(rows: seq<Node>, addr: string)
    ensures addr in Known(rows) <==> HasAddr(rows, addr)
  {
  }

  lemma CreateKeepsValid(t: Table, name: string, addr: string, asn: int, description: string)
    requires Valid(t)
    ensures Valid(Created(t, name, addr, asn, description))
  {
  }

  /** A row may change everything but its id, as long as no other row has its name or its address. */
  lemma RowKeepsValid(t: Table, i: nat, m: Node)
    requires Valid(t) && i < |t.rows| && m.id == t.rows[i].id
    requires !NameTaken(t.rows, i, m.name) && !AddrTaken(t.rows, i, m.listenAddr)
    ensures Valid(t.(rows := t.rows[i := m]))
  {
  }

  lemma UpsertKeepsValid(t: Table, name: string, addr: string, asn: int, description: string)
    requires Valid(t)
    ensures Valid(Upserted(t, name, addr, asn, description))
  {
    hide Valid;
    CreateKeepsValid(t, name, addr, asn, description);
    var i := Find(t.rows, name);
    if i < |t.rows| && !AddrTaken(t.rows, i, addr) {
      KeysAreUnique(t, i);
      RowKeepsValid(t, i, t.rows[i].(listenAddr := addr, localAsn := asn, description := description));
    }
  }

  lemma KeysAreUnique(t: Table, i: nat)
    requires Valid(t) && i < |t.rows|
    ensures !NameTaken(t.rows, i, t.rows[i].name) && !AddrTaken(t.rows, i, t.rows[i].listenAddr)
  {
  }

  /** The remaining statements keep the unique keys as well. */
  lemma EditsKeepValid(t: Table, name: string, addr: string, asn: int, n: Node, id: nat, referenced: bool)
    requires Valid(t)
    ensures Valid(SelfUpserted(t, name, addr, asn)) && Valid(Updated(t, n)) && Valid(Deleted(t, id, referenced))
  {
    CreateKeepsValid(t, name, addr, asn, "");
    DeleteKeepsValid(t, id, referenced);
    hide Valid;
    var i, j := FindAddr(t.rows, addr), Position(t.rows, n.id);
    if i < |t.rows| && !NameTaken(t.rows, i, name) {
      KeysAreUnique(t, i);
      RowKeepsValid(t, i, t.rows[i].(name := name, localAsn := asn));
    }
    if j < |t.rows| && !NameTaken(t.rows, j, n.name) && !AddrTaken(t.rows, j, n.listenAddr) {
      RowKeepsValid(t, j, n.(online := t.rows[j].online));
    }
  }

  lemma DeleteKeepsValid(t: Table, id: nat, referenced: bool)
    requires Valid(t)
    ensures Valid(Deleted(t, id, referenced))
  {
    var i, r := Position(t.rows, id), Deleted(t, id, referenced).rows;
    if i < |t.rows| && !referenced {
      assert forall j :: 0 <= j < |r| ==> r[j] == t.rows[if j < i then j else j + 1];
    }
  }

  lemma CreateLearns(t: Table, name: string, addr: string, asn: int, description: string)
    ensures var r := Created(t, name, addr, asn, description);
            Known(r.rows) == if r == t then Known(t.rows) else Known(t.rows) + {addr}
    ensures !HasName(t.rows, name) ==> addr in Known(Created(t, name, addr, asn, description).rows)
  {
    var r := Created(t, name, addr, asn, description);
    KnownIffHasAddr(t.rows, addr);
    if r != t {
      AppendKnows(t.rows, r.rows[|t.rows|]);
    }
  }

  lemma AppendKnows(rows: seq<Node>, n: Node)
    ensures Known(rows + [n]) == Known(rows) + {n.listenAddr}
  {
    var all := rows + [n];
    forall a ensures a in Known(all) <==> a in Known(rows) + {n.listenAddr} {
      if a in Known(rows) {
        var i :| 0 <= i < |rows| && rows[i].listenAddr == a;
        assert all[i].listenAddr == a;
      }
      assert all[|rows|].listenAddr == n.listenAddr;
    }
  }

  /** An upsert forgets an address exactly when a known name turns up at a new address that nobody holds. */
  lemma UpsertForgetsExactly(t: Table, name: string, addr: string, asn: int, description: string)
    requires Valid(t)
    ensures Known(t.rows) <= Known(Upserted(t, name, addr, asn, description).rows)
            <==> !(HasName(t.rows, name) && t.rows[Find(t.rows, name)].listenAddr != addr && !HasAddr(t.rows, addr))
  {
    var r, i := Upserted(t, name, addr, asn, description), Find(t.rows, name);
    if i == |t.rows| {
      CreateLearns(t, name, addr, asn, description);
    } else if !AddrTaken(t.rows, i, addr) {
      if t.rows[i].listenAddr == addr {
        forall a | a in Known(t.rows) ensures a in Known(r.rows) {
          var j :| 0 <= j < |t.rows| && t.rows[j].listenAddr == a;
          assert r.rows[j].listenAddr == a;
        }
      } else {
        assert t.rows[i].listenAddr in Known(t.rows) && t.rows[i].listenAddr !in Known(r.rows);
      }
    }
  }

  // ---- The statements row by row

  predicate RowOf(rows: seq<Node>, i: nat, name: string) {
    if i < |rows| then rows[i].name == name else i == |rows| && forall j :: 0 <= j < |rows| ==> rows[j].name != name
  }

  lemma CreatesRow(t: Table, name: string, addr: string, asn: int, description: string)
    ensures Created(t, name, addr, asn, description)
         == if exists i :: 0 <= i < |t.rows| && (t.rows[i].name == name || t.rows[i].listenAddr == addr) then t
            else Table(t.rows + [Node(t.nextId, name, addr, asn, description, false, "", "", "", "")], t.nextId + 1)
  {
    if i :| 0 <= i < |t.rows| && (t.rows[i].name == name || t.rows[i].listenAddr == addr) {
      assert HasName(t.rows, name) || HasAddr(t.rows, addr);
    }
  }

  /** An upsert by name is refused if and only if a row of another name has the address. */
  predicate Accepts(rows: seq<Node>, name: string, addr: string) {
    forall j :: 0 <= j < |rows| && rows[j].listenAddr == addr ==> rows[j].name == name
  }

  /** The row at `i`, or a new one, with these four columns set and all others as they were. */
  lemma UpsertsRow(t: Table, i: nat, name: string, addr: string, asn: int, description: string)
    requires Valid(t) && RowOf(t.rows, i, name)
    ensures var r, result := Upserted(t, name, addr, asn, description), UpsertResult(t, name, addr, asn, description);
            if !Accepts(t.rows, name, addr) then r == t && result.None?
            else if i == |t.rows| then
              var n := Node(t.nextId, name, addr, asn, description, false, "", "", "", "");
              r == Table(t.rows + [n], t.nextId + 1) && result == Some(n)
            else
              var o := t.rows[i];
              var n := Node(o.id, name, addr, asn, description, o.online, o.wgPubkey, o.tunnelIp, o.tunnelIpv6,
                            o.wgPrivateKey);
              r == Table(t.rows[i := n], t.nextId) && result == Some(n)
  {
    assert Find(t.rows, name) == i by { FindIs(t, i, name); }
    CreatesRow(t, name, addr, asn, description);
    if i < |t.rows| {
      assert AddrTaken(t.rows, i, addr) <==> !Accepts(t.rows, name, addr) by { TakenByOther(t, i, addr); }
    }
  }

  lemma FindIs(t: Table, i: nat, name: string)
    requires Valid(t) && RowOf(t.rows, i, name)
    ensures Find(t.rows, name) == i
  {
    var k := Find(t.rows, name);
    if k < |t.rows| {
      assert t.rows[k].name == name;
    } else if i < |t.rows| {
      assert HasName(t.rows, name);
    }
  }

  lemma TakenByOther(t: Table, i: nat, addr: string)
    requires Valid(t) && i < |t.rows|
    ensures AddrTaken(t.rows, i, addr) <==> !Accepts(t.rows, t.rows[i].name, addr)
  {
    if j :| 0 <= j < |t.rows| && t.rows[j].listenAddr == addr && t.rows[j].name != t.rows[i].name {
      assert j != i;
    }
  }

  /** Self-registration: the row of the address takes the name, unless another row has it. */
  lemma RegistersRow(t: Table, i: nat, name: string, addr: string, asn: int)
    requires Valid(t) && i <= |t.rows|
    requires if i < |t.rows| then t.rows[i].listenAddr == addr
             else forall j :: 0 <= j < |t.rows| ==> t.rows[j].listenAddr != addr
    ensures var r := SelfUpserted(t, name, addr, asn);
            if exists j :: 0 <= j < |t.rows| && t.rows[j].name == name && t.rows[j].listenAddr != addr then r == t
            else if i == |t.rows| then
              r == Table(t.rows + [Node(t.nextId, name, addr, asn, "", false, "", "", "", "")], t.nextId + 1)
            else
              var o := t.rows[i];
              r == Table(t.rows[i := Node(o.id, name, addr, asn, o.description, o.online, o.wgPubkey, o.tunnelIp,
                                          o.tunnelIpv6, o.wgPrivateKey)], t.nextId)
  {
    assert FindAddr(t.rows, addr) == i;
    CreatesRow(t, name, addr, asn, "");
    if j :| 0 <= j < |t.rows| && t.rows[j].name == name && t.rows[j].listenAddr != addr {
      assert i == |t.rows| || (j != i && NameTaken(t.rows, i, name));
    }
  }

  /** An update replaces the row with the id, its online flag apart, unless another row has its name or address. */
  lemma UpdatesRow(t: Table, i: nat, n: Node)
    requires Valid(t) && i < |t.rows| && t.rows[i].id == n.id
    ensures Updated(t, n)
         == if exists j :: 0 <= j < |t.rows| && j != i
                           && (t.rows[j].name == n.name || t.rows[j].listenAddr == n.listenAddr)
            then t else Table(t.rows[i := n.(online := t.rows[i].online)], t.nextId)
  {
    assert Position(t.rows, n.id) == i;
    if j :| 0 <= j < |t.rows| && j != i && (t.rows[j].name == n.name || t.rows[j].listenAddr == n.listenAddr) {
      assert NameTaken(t.rows, i, n.name) || AddrTaken(t.rows, i, n.listenAddr);
    }
  }

  lemma DeletesRow(t: Table, i: nat)
    requires Valid(t) && i < |t.rows|
    ensures Deleted(t, t.rows[i].id, false) == Table(t.rows[..i] + t.rows[i + 1..], t.nextId)
    ensures Deleted(t, t.rows[i].id, true) == t
  {
    assert Position(t.rows, t.rows[i].id) == i;
  }
}
