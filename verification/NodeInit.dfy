/** First start of a node: a key pair and tunnel addresses for its own row, kept for good once they are there. */
module NodeInit {
  import opened Basics
  import opened Bits
  import opened Bytes
  import opened NodeTable
  import opened TunnelAllocator

  /** A configured address range: left out, unreadable, or a base address with a prefix length. */
  datatype Range = Absent | Malformed | Range(base: nat, prefix: Byte)

  datatype Identity = Identity(privateKey: string, publicKey: string, ip: string, ipv6: string)

  function IdentityOf(n: Node): Identity { Identity(n.wgPrivateKey, n.wgPubkey, n.tunnelIp, n.tunnelIpv6) }

  predicate HasKeys(n: Node) { n.wgPubkey != "" && n.wgPrivateKey != "" }

  /** Nothing is left to generate or assign. */
  predicate Complete(n: Node, range6: Range) {
    HasKeys(n) && n.tunnelIp != "" && (range6.Absent? || n.tunnelIpv6 != "")
  }

  /** What was there before stays; a new tunnel address belongs to no other row. */
  predicate Keeps(rows: seq<Node>, n: Node, m: Node) {
    && m == n.(wgPubkey := m.wgPubkey, wgPrivateKey := m.wgPrivateKey,
               tunnelIp := m.tunnelIp, tunnelIpv6 := m.tunnelIpv6)
    && (HasKeys(n) ==> m.wgPubkey == n.wgPubkey && m.wgPrivateKey == n.wgPrivateKey)
    && (if n.tunnelIp != "" then m.tunnelIp == n.tunnelIp else m.tunnelIp !in UsedIps(rows))
    && (if n.tunnelIpv6 != "" then m.tunnelIpv6 == n.tunnelIpv6 else m.tunnelIpv6 !in UsedIpv6s(rows))
  }

  /** Only the row at `i` may have changed. */
  predicate OnlyRow(t: Table, r: Table, i: nat) {
    i < |t.rows| == |r.rows| && r == t.(rows := t.rows[i := r.rows[i]])
  }

  /** An IPv4 address that was there stays; otherwise the lowest free one of a readable range, if there is one. */
  ghost predicate Outcome4(rows: seq<Node>, range: Range, had: string, got: string) {
    if had != "" then got == had
    else if !range.Range? then got == ""
    else LowestBetween(Network(range.base, 32, range.prefix), Broadcast(range.base, 32, range.prefix), IpTexts(rows),
                       ShowV4, if got != "" then Some(got) else None)
  }

  /** The same for IPv6, among the addresses that are tried. */
  ghost predicate Outcome6(rows: seq<Node>, range: Range, showV6: nat -> string, had: string, got: string) {
    if had != "" then got == had
    else if !range.Range? then got == ""
    else LowestBetween(Network(range.base, 128, range.prefix), HighestTried(range.base, range.prefix), Ipv6Texts(rows),
                       showV6, if got != "" then Some(got) else None)
  }

  method InitLocalNode(repo: NodeRepository, id: nat, range4: Range, range6: Range, showV6: nat -> string,
                       newPrivate: string, newPublic: string) returns (r: Option<Identity>)
    requires Valid(repo.Contents()) && newPrivate != "" && newPublic != ""
    requires range4.Range? ==> range4.base < Pow2(32)
    requires range6.Range? ==> range6.base < Pow2(128) && forall a: nat :: showV6(a) != ""
    modifies repo
    ensures var i := Position(old(repo.rows), id);
            if i == |old(repo.rows)| then r.None? && repo.Contents() == old(repo.Contents())
            else
              && OnlyRow(old(repo.Contents()), repo.Contents(), i)
              && Keeps(old(repo.rows), old(repo.rows)[i], repo.rows[i])
              && (Complete(old(repo.rows)[i], range6) ==> r.Some? && repo.rows == old(repo.rows))
    ensures var i := Position(old(repo.rows), id);
            i < |old(repo.rows)| ==>
              var n, m := old(repo.rows)[i], repo.rows[i];
              && (if n.wgPubkey == "" || n.wgPrivateKey == ""
                  then m.wgPubkey == newPublic && m.wgPrivateKey == newPrivate
                  else m.wgPubkey == n.wgPubkey && m.wgPrivateKey == n.wgPrivateKey)
              && Outcome4(old(repo.rows), range4, n.tunnelIp, m.tunnelIp)
              && (if m.tunnelIp == "" || range6.Absent? then m.tunnelIpv6 == n.tunnelIpv6
                  else Outcome6(old(repo.rows), range6, showV6, n.tunnelIpv6, m.tunnelIpv6))
              && r == if m.tunnelIp != "" && (range6.Absent? || m.tunnelIpv6 != "")
                      then Some(Identity(m.wgPrivateKey, m.wgPubkey, m.tunnelIp, m.tunnelIpv6)) else None
  {
    hide LowestBetween, Pow2, Network, Broadcast, HighestTried, UsedIps, UsedIpv6s, Outcome4, Outcome6, Valid;
    var i := Position(repo.rows, id);
    if i == |repo.rows| {
      return None;
    }
    ghost var rows, n := repo.rows, repo.rows[i];
    EnsureKeys(repo, i, newPrivate, newPublic);
    SameTexts(rows, i, repo.rows[i]);
    ghost var keyed := repo.rows;
    var ok := EnsureTunnelIp(repo, i, range4);
    assert repo.rows == rows[i := repo.rows[i]];
    OutcomesReadTexts(keyed, rows, range4, range6, showV6, n.tunnelIp, repo.rows[i].tunnelIp);
    NewIsUnused(rows, range4, range6, showV6, n.tunnelIp, repo.rows[i].tunnelIp);
    NewIsUnused(rows, range4, range6, showV6, n.tunnelIpv6, n.tunnelIpv6);
    if !ok {
      return None;
    }
    if repo.rows[i].tunnelIpv6 == "" && !range6.Absent? {
      SameTexts(rows, i, repo.rows[i]);
      ghost var addressed := repo.rows;
      ok := EnsureTunnelIpv6(repo, i, range6, showV6);
      assert repo.rows == rows[i := repo.rows[i]];
      OutcomesReadTexts(addressed, rows, range4, range6, showV6, n.tunnelIpv6, repo.rows[i].tunnelIpv6);
      NewIsUnused(rows, range4, range6, showV6, n.tunnelIpv6, repo.rows[i].tunnelIpv6);
      if !ok {
        return None;
      }
    }
    r := Some(IdentityOf(repo.rows[i]));
  }

  lemma NewIsUnused(rows: seq<Node>, range4: Range, range6: Range, showV6: nat -> string, had: string, got: string)
    ensures Outcome4(rows, range4, had, got) ==> if had != "" then got == had else got !in UsedIps(rows)
    ensures Outcome6(rows, range6, showV6, had, got) ==> if had != "" then got == had else got !in UsedIpv6s(rows)
    ensures had == "" ==> had !in UsedIpv6s(rows)
    ensures had != "" ==> Outcome6(rows, range6, showV6, had, had)
  {
    UsedBySomeRow(rows, got);
    UsedBySomeRow(rows, had);
  }

  method EnsureKeys(repo: NodeRepository, i: nat, newPrivate: string, newPublic: string)
    requires Valid(repo.Contents()) && i < |repo.rows|
    modifies repo
    ensures Valid(repo.Contents()) && repo.nextId == old(repo.nextId)
    ensures var n := old(repo.rows)[i];
            repo.rows == old(repo.rows)[
              i := if HasKeys(n) then n else n.(wgPubkey := newPublic, wgPrivateKey := newPrivate)]
  {
    hide Valid, WithClusterFields, WithPrivateKey, WithTunnelIpv6;
    var node := repo.rows[i];
    if node.wgPubkey == "" || node.wgPrivateKey == "" {
      KeysKeepValid(repo.Contents(), i, node.(wgPubkey := newPublic));
      KeysKeepValid(repo.Contents(), i, node.(wgPubkey := newPublic, wgPrivateKey := newPrivate));
      UpdatesAt(repo.rows, i, newPublic, node.tunnelIp);
      repo.UpdateClusterFields(node.id, newPublic, node.tunnelIp);
      UpdatesAt(repo.rows, i, newPrivate, "");
      repo.UpdateWgPrivateKey(node.id, newPrivate);
      assert repo.rows == old(repo.rows)[i := node.(wgPubkey := newPublic, wgPrivateKey := newPrivate)];
    }
  }

  method EnsureTunnelIp(repo: NodeRepository, i: nat, range4: Range) returns (ok: bool)
    requires Valid(repo.Contents()) && i < |repo.rows|
    requires range4.Range? ==> range4.base < Pow2(32)
    modifies repo
    ensures Valid(repo.Contents()) && OnlyRow(old(repo.Contents()), repo.Contents(), i)
    ensures var n, m := old(repo.rows)[i], repo.rows[i];
            && m == n.(tunnelIp := m.tunnelIp) && ok == (m.tunnelIp != "")
            && Outcome4(old(repo.rows), range4, n.tunnelIp, m.tunnelIp)
  {
    hide Pow2, FirstFree, UsedIps, Valid, WithClusterFields, Network, Broadcast;
    var node := repo.rows[i];
    if node.tunnelIp != "" {
      return true;
    }
    if !range4.Range? {
      return false;
    }
    var found := AssignTunnelIp(repo, range4.base, range4.prefix);
    if found.None? {
      return false;
    }
    KeysKeepValid(repo.Contents(), i, node.(tunnelIp := found.value));
    UpdatesAt(repo.rows, i, node.wgPubkey, found.value);
    repo.UpdateClusterFields(node.id, node.wgPubkey, found.value);
    ok := true;
  }

  method EnsureTunnelIpv6(repo: NodeRepository, i: nat, range6: Range, showV6: nat -> string) returns (ok: bool)
    requires Valid(repo.Contents()) && i < |repo.rows| && repo.rows[i].tunnelIpv6 == ""
    requires range6.Range? ==> range6.base < Pow2(128) && forall a: nat :: showV6(a) != ""
    modifies repo
    ensures OnlyRow(old(repo.Contents()), repo.Contents(), i)
    ensures var n, m := old(repo.rows)[i], repo.rows[i];
            && m == n.(tunnelIpv6 := m.tunnelIpv6) && ok == (m.tunnelIpv6 != "")
            && Outcome6(old(repo.rows), range6, showV6, "", m.tunnelIpv6)
  {
    hide Pow2, FirstFree, UsedIpv6s, Valid, WithTunnelIpv6, Network, Broadcast;
    KeysKeepValid(repo.Contents(), i, repo.rows[i]);
    if !range6.Range? {
      return false;
    }
    var found := AssignTunnelIpv6(repo, range6.base, range6.prefix, showV6);
    if found.None? {
      return false;
    }
    UpdatesAt(repo.rows, i, found.value, "");
    repo.UpdateTunnelIpv6(repo.rows[i].id, found.value);
    ok := true;
  }

  predicate UniqueId(rows: seq<Node>, i: nat)
    requires i < |rows|
  {
    forall j :: 0 <= j < |rows| && j != i ==> rows[j].id != rows[i].id
  }

  /** New keys and addresses leave the unique columns alone. */
  lemma KeysKeepValid(t: Table, i: nat, m: Node)
    requires Valid(t) && i < |t.rows|
    requires m.id == t.rows[i].id && m.name == t.rows[i].name && m.listenAddr == t.rows[i].listenAddr
    ensures Valid(t.(rows := t.rows[i := m])) && UniqueId(t.rows, i) && UniqueId(t.rows[i := m], i)
  {
  }

  /** An update by id is an update of the one row that has it. */
  lemma UpdatesAt(rows: seq<Node>, i: nat, x: string, y: string)
    requires i < |rows| && UniqueId(rows, i)
    ensures WithClusterFields(rows, rows[i].id, x, y) == rows[i := rows[i].(wgPubkey := x, tunnelIp := y)]
    ensures WithPrivateKey(rows, rows[i].id, x) == rows[i := rows[i].(wgPrivateKey := x)]
    ensures WithTunnelIpv6(rows, rows[i].id, x) == rows[i := rows[i].(tunnelIpv6 := x)]
  {
  }

  lemma OutcomesReadTexts(rows: seq<Node>, others: seq<Node>, range4: Range, range6: Range, showV6: nat -> string,
        had: string, got: string)
    ensures IpTexts(rows) == IpTexts(others) ==> Outcome4(rows, range4, had, got) == Outcome4(others, range4, had, got)
    ensures Ipv6Texts(rows) == Ipv6Texts(others) ==>
              Outcome6(rows, range6, showV6, had, got) == Outcome6(others, range6, showV6, had, got)
  {
  }

  lemma SameTexts(rows: seq<Node>, i: nat, m: Node)
    requires i < |rows|
    ensures m.tunnelIp == rows[i].tunnelIp ==> IpTexts(rows[i := m]) == IpTexts(rows)
    ensures m.tunnelIpv6 == rows[i].tunnelIpv6 ==> Ipv6Texts(rows[i := m]) == Ipv6Texts(rows)
  {
  }
}
