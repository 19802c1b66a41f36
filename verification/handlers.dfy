/** The four routes of the controller as pure decision functions. Each
    takes the result of the read-only `wg show` query it issues (an error or
    the command's output) and, where the route may change the interface,
    the result the mutating `wg set` call would have; it returns the HTTP
    response and the mutating call it issued, if any. */
module Handlers {
  import opened Wrappers
  import opened Strings
  import opened Allocator
  import opened WgShow
  import opened Interface

  /** The result of running a `wg show` command. */
  datatype Query = QueryFailed(diagnostic: string) | QueryOutput(stdout: string)

  /** The result a `wg set` command has when it is issued. */
  datatype Mutation = Applied | Rejected(diagnostic: string)

  /** The mutating command a route issued. */
  datatype Call =
    | NoCall
    | SetCall(publicKey: string, allowedIPs: string)
    | RemoveCall(publicKey: string)

  /** A JSON body: `{message, error?}` or `{availableIP}`. */
  datatype Body = Message(text: string, error: Option<string>) | AvailableAddress(address: string)

  datatype Response = Response(status: nat, body: Body)

  /** A route's response and the mutation it issued. */
  datatype Reply = Reply(response: Response, call: Call)

  const CheckFailed := "Failed to check peer in WireGuard."

  /** `GET /api/peer/:publicKey`: 200 when the key is listed, 404 when it
      is not, 500 with the diagnostic when `wg show wg0 peers` fails. */
  function CheckPeer(publicKey: string, peers: Query): (r: Response)
    ensures r.status == 200 <==> peers.QueryOutput? && PeerExists(peers.stdout, publicKey)
    ensures r.status == 404 <==> peers.QueryOutput? && !PeerExists(peers.stdout, publicKey)
    ensures r.status == 500 <==> peers.QueryFailed?
    ensures peers.QueryFailed? ==> r == Response(500, Message(CheckFailed, Some(peers.diagnostic)))
    ensures r.status == 200 ==> r.body == Message("Peer exists.", None)
    ensures r.status == 404 ==> r.body == Message("Peer not found.", None)
  {
    match peers
    case QueryFailed(diagnostic) => Response(500, Message(CheckFailed, Some(diagnostic)))
    case QueryOutput(stdout) =>
      if PeerExists(stdout, publicKey) then Response(200, Message("Peer exists.", None))
      else Response(404, Message("Peer not found.", None))
  }

  /** `POST /api/peer`: a listed key is a conflict (400) and no `wg set`
      is issued; an unlisted key is set, and the response follows the
      result of that call (201 or 500); a failed query is a 500 with no
      call. */
  function AddPeer(publicKey: string, allowedIPs: string, peers: Query, mutation: Mutation): (r: Reply)
    ensures r.call != NoCall <==> peers.QueryOutput? && !PeerExists(peers.stdout, publicKey)
    ensures r.call != NoCall ==> r.call == SetCall(publicKey, allowedIPs)
    ensures r.response.status == 201 <==> r.call != NoCall && mutation.Applied?
    ensures r.response.status == 400 <==> peers.QueryOutput? && PeerExists(peers.stdout, publicKey)
    ensures r.response.status == 400 ==> r.response.body == Message("Peer already exists.", None)
    ensures r.response.status == 500 <==> peers.QueryFailed? || (r.call != NoCall && mutation.Rejected?)
    ensures r.response.status in {201, 400, 500}
    ensures peers.QueryFailed? ==> r.response == Response(500, Message(CheckFailed, Some(peers.diagnostic)))
    ensures r.call != NoCall && mutation.Rejected? ==>
            r.response == Response(500, Message("Failed to add peer.", Some(mutation.diagnostic)))
    ensures r.call != NoCall && mutation.Applied? ==> r.response == Response(201, Message("Peer added.", None))
  {
    match peers
    case QueryFailed(diagnostic) => Reply(Response(500, Message(CheckFailed, Some(diagnostic))), NoCall)
    case QueryOutput(stdout) =>
      if PeerExists(stdout, publicKey) then
        Reply(Response(400, Message("Peer already exists.", None)), NoCall)
      else
        var call := SetCall(publicKey, allowedIPs);
        match mutation
        case Rejected(diagnostic) => Reply(Response(500, Message("Failed to add peer.", Some(diagnostic))), call)
        case Applied => Reply(Response(201, Message("Peer added.", None)), call)
  }

  /** `DELETE /api/peer/:publicKey`: an unlisted key is reported with 200
      "Peer not found." and no call; a listed key is removed, and the
      response follows the result of that call (200 or 500). */
  function RemovePeerRoute(publicKey: string, peers: Query, mutation: Mutation): (r: Reply)
    ensures r.call != NoCall <==> peers.QueryOutput? && PeerExists(peers.stdout, publicKey)
    ensures r.call != NoCall ==> r.call == RemoveCall(publicKey)
    ensures peers.QueryOutput? && !PeerExists(peers.stdout, publicKey) ==>
            r.response == Response(200, Message("Peer not found.", None))
    ensures r.call != NoCall && mutation.Applied? ==>
            r.response == Response(200, Message("Peer removed.", None))
    ensures r.response.status == 500 <==> peers.QueryFailed? || (r.call != NoCall && mutation.Rejected?)
    ensures peers.QueryFailed? ==> r.response == Response(500, Message(CheckFailed, Some(peers.diagnostic)))
    ensures r.call != NoCall && mutation.Rejected? ==>
            r.response == Response(500, Message("Failed to remove peer.", Some(mutation.diagnostic)))
  {
    match peers
    case QueryFailed(diagnostic) => Reply(Response(500, Message(CheckFailed, Some(diagnostic))), NoCall)
    case QueryOutput(stdout) =>
      if !PeerExists(stdout, publicKey) then
        Reply(Response(200, Message("Peer not found.", None)), NoCall)
      else
        var call := RemoveCall(publicKey);
        match mutation
        case Rejected(diagnostic) => Reply(Response(500, Message("Failed to remove peer.", Some(diagnostic))), call)
        case Applied => Reply(Response(200, Message("Peer removed.", None)), call)
  }

  const NoAddressLeft := "No available IP address found in the subnet"

  /** `getAvailableIPAddress(subnet, callback)`: the query's error, the
      lowest free address among those `wg show wg0 allowed-ips` reports,
      or the exhaustion error. */
  function GetAvailableIPAddress(subnet: string, allowedIPs: Query): (r: Result<string, string>)
    ensures allowedIPs.QueryFailed? ==> r == Failure(allowedIPs.diagnostic)
    ensures allowedIPs.QueryOutput? ==>
      (r.Success? <==> !Exhausted(subnet, UsedIPs(allowedIPs.stdout)))
      && (r.Success? ==> IsLowestFree(subnet, UsedIPs(allowedIPs.stdout), r.value))
      && (r.Failure? ==> r.error == NoAddressLeft)
  {
    match allowedIPs
    case QueryFailed(diagnostic) => Failure(diagnostic)
    case QueryOutput(stdout) =>
      match FindAvailableIP(subnet, UsedIPs(stdout))
      case Some(address) => Success(address)
      case None => Failure(NoAddressLeft)
  }

  const AllocationFailed := "Failed to get available IP: "

  /** `GET /api/available-ip`: 200 with the lowest free address of the
      default subnet, or 500 with the error's message: the query's own
      when `wg show wg0 allowed-ips` fails, the exhaustion message when
      the subnet is full. */
  function AvailableIP(allowedIPs: Query): (r: Response)
    ensures r.status == 200 <==> GetAvailableIPAddress(DefaultSubnet, allowedIPs).Success?
    ensures r.status == 200 ==>
      r.body == AvailableAddress(GetAvailableIPAddress(DefaultSubnet, allowedIPs).value)
    ensures r.status != 200 ==> r.status == 500 && r.body.Message? && r.body.error == None
    ensures allowedIPs.QueryFailed? ==>
      r == Response(500, Message(AllocationFailed + allowedIPs.diagnostic, None))
    ensures allowedIPs.QueryOutput? && r.status != 200 ==>
      r == Response(500, Message(AllocationFailed + NoAddressLeft, None))
  {
    match GetAvailableIPAddress(DefaultSubnet, allowedIPs)
    case Success(address) => Response(200, AvailableAddress(address))
    case Failure(message) => Response(500, Message(AllocationFailed + message, None))
  }

  /* ---------------------------------------------------------------- */
  /* the routes against an interface                                   */
  /* ---------------------------------------------------------------- */

  /** The interface after a route's call: an applied `wg set … allowed-ips`
      binds the comma-separated blocks, an applied `remove` drops the
      peer, and a rejected or absent call changes nothing. */
  function Perform(d: Device, call: Call, mutation: Mutation): (d': Device)
    ensures call == NoCall || mutation.Rejected? ==> d' == d
    ensures call.SetCall? && mutation.Applied? ==> Keys(d') == Keys(d) + {call.publicKey}
    ensures call.RemoveCall? && mutation.Applied? ==> Keys(d') == Keys(d) - {call.publicKey}
    ensures call.SetCall? && mutation.Applied? ==>
      Peer(call.publicKey, Split(call.allowedIPs, ',')) in d'.peers
      && forall p: Peer :: p.publicKey != call.publicKey ==> (p in d'.peers <==> p in d.peers)
    ensures call.SetCall? && mutation.Applied? ==>
      forall p :: p in d'.peers && p.publicKey == call.publicKey ==> p.allowedIPs == Split(call.allowedIPs, ',')
    ensures call.RemoveCall? && mutation.Applied? ==>
      forall p: Peer :: p in d'.peers <==> p in d.peers && p.publicKey != call.publicKey
  {
    match (call, mutation)
    case (SetCall(key, allowedIPs), Applied) => SetPeer(d, key, Split(allowedIPs, ','))
    case (RemoveCall(key), Applied) => RemovePeer(d, key)
    case _ => d
  }

  /** Add then check: a key the interface does not list is added (201),
      and the existence check that follows finds it (200). */
  lemma AddThenExists(d: Device, publicKey: string, allowedIPs: string)
    requires WellFormed(d) && WellFormedKey(publicKey)
    requires publicKey !in Keys(d)
    ensures var reply := AddPeer(publicKey, allowedIPs, QueryOutput(ShowPeers(d.peers)), Applied);
            var after := Perform(d, reply.call, Applied);
            reply.response.status == 201
            && CheckPeer(publicKey, QueryOutput(ShowPeers(after.peers))).status == 200
  {
    PeerExistsOnShow(d, publicKey);
    var after := SetPeer(d, publicKey, Split(allowedIPs, ','));
    assert WellFormed(after);
    PeerExistsOnShow(after, publicKey);
  }

  /** Conflict rule: adding a key the interface lists is answered with 400
      "Peer already exists.", no `wg set` is issued, and the interface is
      left as it was, whatever the mutation would have done. */
  lemma AddExistingIsConflict(d: Device, publicKey: string, allowedIPs: string, mutation: Mutation)
    requires WellFormed(d)
    requires publicKey in Keys(d)
    ensures var reply := AddPeer(publicKey, allowedIPs, QueryOutput(ShowPeers(d.peers)), mutation);
            reply.response == Response(400, Message("Peer already exists.", None))
            && reply.call == NoCall
            && Perform(d, reply.call, mutation) == d
  {
    PeerExistsOnShow(d, publicKey);
  }

  /** Remove then check: a listed key is removed (200 "Peer removed."),
      and the existence check that follows reports 404. */
  lemma RemoveThenExists(d: Device, publicKey: string)
    requires WellFormed(d) && WellFormedKey(publicKey)
    requires publicKey in Keys(d)
    ensures var reply := RemovePeerRoute(publicKey, QueryOutput(ShowPeers(d.peers)), Applied);
            var after := Perform(d, reply.call, Applied);
            reply.response == Response(200, Message("Peer removed.", None))
            && CheckPeer(publicKey, QueryOutput(ShowPeers(after.peers))).status == 404
  {
    PeerExistsOnShow(d, publicKey);
    var after := RemovePeer(d, publicKey);
    assert WellFormed(after);
    PeerExistsOnShow(after, publicKey);
  }

  /** No-op rule: removing a key the interface does not list answers 200
      "Peer not found." (where the existence check answers 404), issues
      no call and leaves the interface as it was. */
  lemma RemoveAbsentIsNoop(d: Device, publicKey: string, mutation: Mutation)
    requires WellFormed(d) && WellFormedKey(publicKey)
    requires publicKey !in Keys(d)
    ensures var reply := RemovePeerRoute(publicKey, QueryOutput(ShowPeers(d.peers)), mutation);
            reply.response == Response(200, Message("Peer not found.", None))
            && reply.call == NoCall
            && Perform(d, reply.call, mutation) == d
            && CheckPeer(publicKey, QueryOutput(ShowPeers(d.peers))).status == 404
  {
    PeerExistsOnShow(d, publicKey);
  }

  /** A rejected `wg set` leaves the interface unchanged and the route
      answers 500 with the call's error value. */
  lemma RejectedMutationChangesNothing(d: Device, publicKey: string, allowedIPs: string, diagnostic: string)
    requires WellFormed(d) && WellFormedKey(publicKey)
    requires publicKey !in Keys(d)
    ensures var reply := AddPeer(publicKey, allowedIPs, QueryOutput(ShowPeers(d.peers)), Rejected(diagnostic));
            reply.response == Response(500, Message("Failed to add peer.", Some(diagnostic)))
            && Perform(d, reply.call, Rejected(diagnostic)) == d
  {
    PeerExistsOnShow(d, publicKey);
  }

  /** A rejected `wg set ... remove` leaves the interface unchanged: the
      route answers 500 with the call's error, and the key is still
      listed afterwards. */
  lemma RemoveRejectedChangesNothing(d: Device, publicKey: string, diagnostic: string)
    requires WellFormed(d) && WellFormedKey(publicKey)
    requires publicKey in Keys(d)
    ensures var reply := RemovePeerRoute(publicKey, QueryOutput(ShowPeers(d.peers)), Rejected(diagnostic));
            var after := Perform(d, reply.call, Rejected(diagnostic));
            reply.response == Response(500, Message("Failed to remove peer.", Some(diagnostic)))
            && reply.call == RemoveCall(publicKey)
            && after == d
            && CheckPeer(publicKey, QueryOutput(ShowPeers(after.peers))).status == 200
  {
    PeerExistsOnShow(d, publicKey);
  }

  /** The empty key always "exists": the output of `wg show wg0 peers` is
      empty or ends with a newline, and either way its last line is "".
      The path of the check route cannot carry an empty key, but the body
      of an add can, and that add is refused with 400 and no call. */
  lemma EmptyKeyAlwaysListed(d: Device, allowedIPs: string, mutation: Mutation)
    requires WellFormed(d)
    ensures PeerExists(ShowPeers(d.peers), "")
    ensures CheckPeer("", QueryOutput(ShowPeers(d.peers))).status == 200
    ensures var reply := AddPeer("", allowedIPs, QueryOutput(ShowPeers(d.peers)), mutation);
            reply.call == NoCall && reply.response == Response(400, Message("Peer already exists.", None))
  {
    PeerExistsOnShow(d, "");
  }

  /** Listing the peers "abc123=" and "def456=", the check finds the first
      and not "zzz=". */
  lemma ScenarioTwoPeers()
    ensures var d := Device([Peer("abc123=", []), Peer("def456=", [])]);
            CheckPeer("abc123=", QueryOutput(ShowPeers(d.peers))).status == 200
            && CheckPeer("zzz=", QueryOutput(ShowPeers(d.peers))).status == 404
  {
    var d := Device([Peer("abc123=", []), Peer("def456=", [])]);
    assert WellFormedKey("abc123=") && WellFormedKey("def456=");
    assert WellFormed(d);
    PeerExistsOnShow(d, "abc123=");
    PeerExistsOnShow(d, "zzz=");
    assert "abc123=" in Keys(d);
    assert "zzz=" !in Keys(d) by {
      assert d.peers[0].publicKey != "zzz=" && d.peers[1].publicKey != "zzz=";
    }
  }

  /** Allocation against the interface: the address handed out is not the
      block of any single-address peer, and the route fails only when the
      listed columns cover every candidate. */
  lemma AllocationAvoidsSingleAddressPeers(d: Device)
    requires WellFormed(d) && WellFormedBlocks(d)
    ensures var r := AvailableIP(QueryOutput(ShowAllowedIPs(d.peers)));
            (r.status == 200 <==> !Exhausted(DefaultSubnet, BoundColumns(d.peers)))
            && (r.status == 200 ==> forall p :: p in d.peers && |p.allowedIPs| == 1 ==>
                  r.body.address != p.allowedIPs[0])
  {
    UsedIPsOnShow(d.peers);
    var r := AvailableIP(QueryOutput(ShowAllowedIPs(d.peers)));
    if r.status == 200 {
      forall p | p in d.peers && |p.allowedIPs| == 1 ensures r.body.address != p.allowedIPs[0] {
        SingleBlockColumn(d.peers, p);
      }
    }
  }

  /** A single-address peer's block is one of the listed columns. */
  lemma {:induction false} SingleBlockColumn(peers: seq<Peer>, p: Peer)
    requires p in peers && |p.allowedIPs| == 1
    ensures p.allowedIPs[0] in BoundColumns(peers)
    decreases |peers|
  {
    if peers[0] != p {
      SingleBlockColumn(peers[1..], p);
    }
  }

  /** The columns of a table with one more peer at the end. */
  lemma {:induction false} BoundColumnsAppend(peers: seq<Peer>, p: Peer)
    ensures BoundColumns(peers + [p]) == BoundColumns(peers) + BoundColumns([p])
    decreases |peers|
  {
    if |peers| > 0 {
      assert (peers + [p])[1..] == peers[1..] + [p];
      BoundColumnsAppend(peers[1..], p);
    } else {
      assert peers + [p] == [p];
    }
  }

  /** Every address of the default subnet is a well-formed block. */
  lemma DefaultCandidateIsBlock(host: nat)
    ensures WellFormedBlock(Candidate("10.200.200", host, "32"))
    ensures ',' !in Candidate("10.200.200", host, "32")
  {
    var c := Candidate("10.200.200", host, "32");
    var digits := NatToDecimal(host);
    assert c == "10.200.200." + digits + "/32";
    forall i | 0 <= i < |c| ensures !IsWhitespace(c[i]) && c[i] != ',' {
      if i < 11 {
        assert c[i] == "10.200.200."[i];
      } else if i < 11 + |digits| {
        assert c[i] == digits[i - 11];
      } else {
        assert c[i] == "/32"[i - 11 - |digits|];
      }
    }
    assert c[11 + |digits|] == '/';
  }

  /** An address of the default subnet is a well-formed block and a
      single comma-separated field. */
  lemma AllocatedAddressShape(used: seq<string>)
    requires FindAvailableIP(DefaultSubnet, used).Some?
    ensures var address := FindAvailableIP(DefaultSubnet, used).value;
            WellFormedBlock(address) && Split(address, ',') == [address]
  {
    var address := FindAvailableIP(DefaultSubnet, used).value;
    var h :| FirstHost <= h <= LastHost
      && address == Candidate(SubnetPrefix(DefaultSubnet), h, SubnetMask(DefaultSubnet));
    DefaultSubnetParts();
    assert address == Candidate("10.200.200", h, "32");
    DefaultCandidateIsBlock(h);
    SplitWithoutSeparator(address, ',');
  }

  /** Adding a new peer with well-formed blocks to a well-formed table
      appends it and keeps the table well formed. */
  lemma AddNewPeer(d: Device, publicKey: string, blocks: seq<string>)
    requires WellFormed(d) && WellFormedBlocks(d)
    requires WellFormedKey(publicKey) && publicKey !in Keys(d)
    requires forall k :: 0 <= k < |blocks| ==> WellFormedBlock(blocks[k])
    ensures SetPeer(d, publicKey, blocks).peers == d.peers + [Peer(publicKey, blocks)]
    ensures WellFormed(SetPeer(d, publicKey, blocks))
    ensures WellFormedBlocks(SetPeer(d, publicKey, blocks))
  {
    var after := SetPeer(d, publicKey, blocks);
    forall i, k | 0 <= i < |after.peers| && 0 <= k < |after.peers[i].allowedIPs|
      ensures WellFormedBlock(after.peers[i].allowedIPs[k])
    {
      if i < |d.peers| {
        assert after.peers[i] == d.peers[i];
      }
    }
  }

  /** The allocation route over a well-formed table answers with the
      lowest candidate not among the table's columns. */
  lemma AvailableIPOnShow(d: Device)
    requires WellFormed(d) && WellFormedBlocks(d)
    ensures var r := AvailableIP(QueryOutput(ShowAllowedIPs(d.peers)));
            var found := FindAvailableIP(DefaultSubnet, BoundColumns(d.peers));
            (r.status == 200 <==> found.Some?)
            && (found.Some? ==> r.body == AvailableAddress(found.value))
  {
    UsedIPsOnShow(d.peers);
  }

  /** When the interface's columns cover every candidate of the default
      subnet, the allocation route answers 500 with the exhaustion
      message. */
  lemma ExhaustedSubnetIsServerError(d: Device)
    requires WellFormed(d) && WellFormedBlocks(d)
    requires Exhausted(DefaultSubnet, BoundColumns(d.peers))
    ensures AvailableIP(QueryOutput(ShowAllowedIPs(d.peers)))
            == Response(500, Message(AllocationFailed + NoAddressLeft, None))
  {
    AvailableIPOnShow(d);
    assert FindAvailableIP(DefaultSubnet, BoundColumns(d.peers)).None?;
  }

  /** Adding a new peer bound to one address answers 201 and adds that
      address, as a column of its own, to what the allocator sees. */
  lemma AddSingleAddressPeer(d: Device, publicKey: string, address: string)
    requires WellFormed(d) && WellFormedBlocks(d)
    requires WellFormedKey(publicKey) && publicKey !in Keys(d)
    requires WellFormedBlock(address) && Split(address, ',') == [address]
    ensures var reply := AddPeer(publicKey, address, QueryOutput(ShowPeers(d.peers)), Applied);
            var after := Perform(d, reply.call, Applied);
            reply.response.status == 201
            && after == SetPeer(d, publicKey, [address])
            && WellFormed(after) && WellFormedBlocks(after)
            && BoundColumns(after.peers) == BoundColumns(d.peers) + [address]
  {
    PeerExistsOnShow(d, publicKey);
    AddNewPeer(d, publicKey, [address]);
    BoundColumnsAppend(d.peers, Peer(publicKey, [address]));
    assert AllowedIPsColumn([address]) == address;
    assert BoundColumns([Peer(publicKey, [address])]) == [address];
  }

  /** Allocate, bind the address to a new peer, allocate again: the second
      allocation never hands out the first address again. */
  lemma AllocateAddAllocate(d: Device, publicKey: string)
    requires WellFormed(d) && WellFormedBlocks(d)
    requires WellFormedKey(publicKey) && publicKey !in Keys(d)
    requires AvailableIP(QueryOutput(ShowAllowedIPs(d.peers))).status == 200
    ensures var address := AvailableIP(QueryOutput(ShowAllowedIPs(d.peers))).body.address;
            var reply := AddPeer(publicKey, address, QueryOutput(ShowPeers(d.peers)), Applied);
            var after := Perform(d, reply.call, Applied);
            reply.response.status == 201
            && AvailableIP(QueryOutput(ShowAllowedIPs(after.peers))).body != AvailableAddress(address)
  {
    var used := BoundColumns(d.peers);
    AvailableIPOnShow(d);
    var address := FindAvailableIP(DefaultSubnet, used).value;
    AllocatedAddressShape(used);
    AddSingleAddressPeer(d, publicKey, address);
    var after := SetPeer(d, publicKey, [address]);
    AvailableIPOnShow(after);
    AllocationAdvances(DefaultSubnet, used);
  }

  /** Scanning past a single used entry whose length differs from that of
      "10.200.200.2/32" hands out `.2`. */
  lemma ScanPastColumn(column: string)
    requires |column| != |"10.200.200.2/32"|
    ensures ScanFrom("10.200.200", "32", [column], FirstHost) == Some("10.200.200.2/32")
  {
    assert Candidate("10.200.200", 2, "32") == "10.200.200.2/32";
  }

  /** The table of one peer holding `.2` and `.3` of the default subnet. */
  function TwoAddressTable(): Device {
    Device([Peer("peerA=", ["10.200.200.2/32", "10.200.200.3/32"])])
  }

  lemma TwoAddressTableWellFormed()
    ensures WellFormed(TwoAddressTable()) && WellFormedBlocks(TwoAddressTable())
  {
    var d := TwoAddressTable();
    assert WellFormedKey("peerA=");
    DefaultCandidateIsBlock(2);
    DefaultCandidateIsBlock(3);
    assert Candidate("10.200.200", 2, "32") == d.peers[0].allowedIPs[0];
    assert Candidate("10.200.200", 3, "32") == d.peers[0].allowedIPs[1];
  }

  /** The table's only allowed-IP column is both blocks joined by a space,
      so it is as long as "10.200.200.2/32 10.200.200.3/32". */
  lemma TwoAddressTableColumn()
    ensures var columns := BoundColumns(TwoAddressTable().peers);
            |columns| == 1 && |columns[0]| == |"10.200.200.2/32 10.200.200.3/32"|
  {
    var blocks := TwoAddressTable().peers[0].allowedIPs;
    assert AllowedIPsColumn(blocks) == blocks[0] + [' '] + blocks[1];
  }

  /** The allocator reads each peer's whole allowed-IP column as one
      entry, so the blocks of a peer with two addresses are not seen as
      used: with a single peer holding .2 and .3, .2 is handed out again. */
  lemma MultiAddressPeerNotSeen()
    ensures var d := TwoAddressTable();
            AvailableIP(QueryOutput(ShowAllowedIPs(d.peers)))
              == Response(200, AvailableAddress("10.200.200.2/32"))
            && "10.200.200.2/32" in d.peers[0].allowedIPs
  {
    var d := TwoAddressTable();
    TwoAddressTableWellFormed();
    AvailableIPOnShow(d);
    TwoAddressTableColumn();
    var columns := BoundColumns(d.peers);
    assert columns == [columns[0]];
    DefaultSubnetParts();
    ScanPastColumn(columns[0]);
  }
}
