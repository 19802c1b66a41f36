/** An abstract WireGuard interface: the peer table the controller reads
    with `wg show wg0 peers` / `wg show wg0 allowed-ips` and changes with
    `wg set wg0 peer … allowed-ips …` / `wg set wg0 peer … remove`. The
    controller keeps no state of its own; this table is the only truth. */
module Interface {
  import opened Wrappers
  import opened Strings
  import opened WgShow

  /** A configured peer: its public key and its allowed-IP blocks. */
  datatype Peer = Peer(publicKey: string, allowedIPs: seq<string>)

  /** The interface's peer table, in the order the tool lists it. */
  datatype Device = Device(peers: seq<Peer>)

  /** A public key as the tool prints it: base64 text, so non-empty and
      free of whitespace. */
  predicate WellFormedKey(key: string) {
    |key| > 0 && NoWhitespace(key)
  }

  /** An allowed-IP block as the tool prints it: `address/length`, no
      whitespace. */
  predicate WellFormedBlock(block: string) {
    '/' in block && NoWhitespace(block)
  }

  /** Every configured key is well formed. */
  predicate WellFormed(d: Device) {
    forall p :: p in d.peers ==> WellFormedKey(p.publicKey)
  }

  /** No key is configured twice. */
  predicate UniqueKeys(peers: seq<Peer>) {
    forall i, j :: 0 <= i < j < |peers| ==> peers[i].publicKey != peers[j].publicKey
  }

  /** Every allowed-IP block of every peer is well formed. */
  predicate WellFormedBlocks(d: Device) {
    forall i, k :: 0 <= i < |d.peers| && 0 <= k < |d.peers[i].allowedIPs| ==>
      WellFormedBlock(d.peers[i].allowedIPs[k])
  }

  /** The public keys of a peer list. */
  function KeysOf(peers: seq<Peer>): (keys: set<string>)
    ensures forall key :: key in keys <==> exists i :: 0 <= i < |peers| && peers[i].publicKey == key
    decreases |peers|
  {
    if |peers| == 0 then {}
    else
      var rest := KeysOf(peers[1..]);
      assert forall i :: 1 <= i < |peers| ==> peers[1..][i - 1] == peers[i];
      {peers[0].publicKey} + rest
  }

  /** The keys of the peers configured on the interface. */
  function Keys(d: Device): set<string> {
    KeysOf(d.peers)
  }

  /** Two peer lists with the same keys in the same order have the same
      key set. */
  lemma {:induction false} KeysOfSameKeys(a: seq<Peer>, b: seq<Peer>)
    requires |a| == |b|
    requires forall i :: 0 <= i < |a| ==> a[i].publicKey == b[i].publicKey
    ensures KeysOf(a) == KeysOf(b)
    decreases |a|
  {
    if |a| > 0 {
      KeysOfSameKeys(a[1..], b[1..]);
    }
  }

  /** Appending a peer adds its key. */
  lemma {:induction false} KeysOfAppend(peers: seq<Peer>, p: Peer)
    ensures KeysOf(peers + [p]) == KeysOf(peers) + {p.publicKey}
    decreases |peers|
  {
    if |peers| > 0 {
      KeysOfAppend(peers[1..], p);
      assert (peers + [p])[1..] == peers[1..] + [p];
    } else {
      assert KeysOf([p]) == {p.publicKey} + KeysOf([]);
    }
  }

  /** `wg set wg0 peer key allowed-ips blocks`: replaces the blocks of an
      existing peer in place, or appends a new peer. */
  function SetPeer(d: Device, key: string, blocks: seq<string>): (d': Device)
    ensures Keys(d') == Keys(d) + {key}
    ensures Peer(key, blocks) in d'.peers
    ensures forall p :: p in d'.peers && p.publicKey != key <==> p in d.peers && p.publicKey != key
    ensures forall p :: p in d'.peers && p.publicKey == key ==> p.allowedIPs == blocks
    ensures key in Keys(d) ==> (|d'.peers| == |d.peers|
      && forall i :: 0 <= i < |d.peers| ==> d'.peers[i].publicKey == d.peers[i].publicKey)
    ensures key !in Keys(d) ==> d'.peers == d.peers + [Peer(key, blocks)]
  {
    if key in Keys(d) then
      var peers := seq(|d.peers|, i requires 0 <= i < |d.peers| =>
        if d.peers[i].publicKey == key then Peer(key, blocks) else d.peers[i]);
      assert forall i :: 0 <= i < |d.peers| ==> peers[i].publicKey == d.peers[i].publicKey;
      KeysOfSameKeys(peers, d.peers);
      var i :| 0 <= i < |d.peers| && d.peers[i].publicKey == key;
      assert peers[i] == Peer(key, blocks);
      Device(peers)
    else
      var peers := d.peers + [Peer(key, blocks)];
      KeysOfAppend(d.peers, Peer(key, blocks));
      assert peers[|d.peers|] == Peer(key, blocks);
      assert forall i :: 0 <= i < |d.peers| ==> peers[i] == d.peers[i];
      Device(peers)
  }

  /** Setting a peer never lists a key twice: an existing peer is
      updated in place rather than added again. */
  lemma SetPeerKeepsKeysUnique(d: Device, key: string, blocks: seq<string>)
    requires UniqueKeys(d.peers)
    ensures UniqueKeys(SetPeer(d, key, blocks).peers)
  {
    var d' := SetPeer(d, key, blocks);
    if key !in Keys(d) {
      assert forall i :: 0 <= i < |d.peers| ==> d'.peers[i] == d.peers[i];
      assert d'.peers[|d.peers|].publicKey == key;
    }
  }

  /** The peers of `peers` whose key is not `key`, in order. */
  function Without(peers: seq<Peer>, key: string): (rest: seq<Peer>)
    ensures forall p :: p in rest <==> p in peers && p.publicKey != key
    decreases |peers|
  {
    if |peers| == 0 then []
    else
      var tail := Without(peers[1..], key);
      assert forall p :: p in peers <==> p == peers[0] || p in peers[1..];
      if peers[0].publicKey == key then tail else [peers[0]] + tail
  }

  lemma {:induction false} WithoutKeepsKeysUnique(peers: seq<Peer>, key: string)
    requires UniqueKeys(peers)
    ensures UniqueKeys(Without(peers, key))
    decreases |peers|
  {
    if |peers| > 0 {
      WithoutKeepsKeysUnique(peers[1..], key);
      var tail := Without(peers[1..], key);
      forall p | p in tail ensures p.publicKey != peers[0].publicKey {
        var j :| 0 <= j < |peers[1..]| && peers[1..][j] == p;
        assert peers[j + 1] == p;
      }
    }
  }

  lemma {:induction false} KeysWithout(peers: seq<Peer>, key: string)
    ensures KeysOf(Without(peers, key)) == KeysOf(peers) - {key}
    decreases |peers|
  {
    if |peers| > 0 {
      KeysWithout(peers[1..], key);
      var tail := Without(peers[1..], key);
      assert ([peers[0]] + tail)[1..] == tail;
    }
  }

  /** `wg set wg0 peer key remove`: drops the peer with that key, if any;
      every other peer stays. */
  function RemovePeer(d: Device, key: string): (d': Device)
    ensures Keys(d') == Keys(d) - {key}
    ensures forall p :: p in d'.peers <==> p in d.peers && p.publicKey != key
    ensures UniqueKeys(d.peers) ==> UniqueKeys(d'.peers)
  {
    var d' := Device(Without(d.peers, key));
    assert UniqueKeys(d.peers) ==> UniqueKeys(d'.peers) by {
      if UniqueKeys(d.peers) {
        WithoutKeepsKeysUnique(d.peers, key);
      }
    }
    KeysWithout(d.peers, key);
    d'
  }

  /* ---------------------------------------------------------------- */
  /* what `wg show` prints                                             */
  /* ---------------------------------------------------------------- */

  /** `wg show wg0 peers`: each key on a line of its own. */
  function ShowPeers(peers: seq<Peer>): string
    decreases |peers|
  {
    if |peers| == 0 then "" else peers[0].publicKey + "\n" + ShowPeers(peers[1..])
  }

  /** The allowed-IP column: the blocks separated by spaces, or "(none)". */
  function AllowedIPsColumn(blocks: seq<string>): string {
    if |blocks| == 0 then "(none)" else Join(blocks, ' ')
  }

  /** `wg show wg0 allowed-ips`: key, tab, allowed-IP column, per line. */
  function ShowAllowedIPs(peers: seq<Peer>): string
    decreases |peers|
  {
    if |peers| == 0 then ""
    else peers[0].publicKey + "\t" + AllowedIPsColumn(peers[0].allowedIPs) + "\n"
         + ShowAllowedIPs(peers[1..])
  }

  function KeyList(peers: seq<Peer>): (keys: seq<string>)
    ensures |keys| == |peers|
    ensures forall i :: 0 <= i < |peers| ==> keys[i] == peers[i].publicKey
  {
    seq(|peers|, i requires 0 <= i < |peers| => peers[i].publicKey)
  }

  /** The lines of `wg show wg0 peers` are the keys, then the empty line
      after the final newline. */
  lemma {:induction false} ShowPeersLines(peers: seq<Peer>)
    requires forall i :: 0 <= i < |peers| ==> '\n' !in peers[i].publicKey
    ensures Split(ShowPeers(peers), '\n') == KeyList(peers) + [""]
    decreases |peers|
  {
    if |peers| > 0 {
      var key := peers[0].publicKey;
      ShowPeersLines(peers[1..]);
      SplitAround(key, ShowPeers(peers[1..]), '\n');
      SplitWithoutSeparator(key, '\n');
      assert KeyList(peers) == [key] + KeyList(peers[1..]);
    }
  }

  /** Trimming the lines of `wg show wg0 peers` changes none of them. */
  lemma PeerListOnShow(d: Device)
    requires WellFormed(d)
    ensures PeerList(ShowPeers(d.peers)) == KeyList(d.peers) + [""]
  {
    forall i | 0 <= i < |d.peers| ensures '\n' !in d.peers[i].publicKey {
      NoWhitespaceNoNewline(d.peers[i].publicKey);
    }
    ShowPeersLines(d.peers);
    var lines := Split(ShowPeers(d.peers), '\n');
    var peers := PeerList(ShowPeers(d.peers));
    forall i | 0 <= i < |lines| ensures peers[i] == lines[i] {
      if i < |d.peers| {
        TrimmedKey(d.peers[i].publicKey);
      }
    }
  }

  /** Parsing `wg show wg0 peers` finds exactly the configured keys, and
      the empty key, which matches the empty line after the final newline. */
  lemma PeerExistsOnShow(d: Device, key: string)
    requires WellFormed(d)
    ensures PeerExists(ShowPeers(d.peers), key) <==> key in Keys(d) || key == ""
  {
    PeerListOnShow(d);
    var peers := PeerList(ShowPeers(d.peers));
    assert peers[|peers| - 1] == "";
    if key in Keys(d) {
      var i :| 0 <= i < |d.peers| && d.peers[i].publicKey == key;
      assert peers[i] == key;
    }
  }

  lemma NoWhitespaceNoNewline(key: string)
    requires NoWhitespace(key)
    ensures '\n' !in key && '\t' !in key
  {
    assert IsWhitespace('\n') && IsWhitespace('\t');
  }

  lemma TrimmedKey(key: string)
    requires NoWhitespace(key)
    ensures Trim(key) == key
  {
    assert key[0..|key|] == key;
    assert PaddedAt(key, key, 0);
    PaddingTrims(key, key);
  }

  /** The allowed-IP columns that contain a `/`, one per peer that has at
      least one well-formed block, in table order. */
  function BoundColumns(peers: seq<Peer>): seq<string>
    decreases |peers|
  {
    if |peers| == 0 then []
    else
      (if |peers[0].allowedIPs| > 0 then [AllowedIPsColumn(peers[0].allowedIPs)] else [])
      + BoundColumns(peers[1..])
  }

  /** The allowed-IP column of a peer: free of tabs and newlines, and
      containing `/` exactly when the peer has a block. */
  lemma ColumnShape(blocks: seq<string>)
    requires forall k :: 0 <= k < |blocks| ==> WellFormedBlock(blocks[k])
    ensures var column := AllowedIPsColumn(blocks);
            '\t' !in column && '\n' !in column && ('/' in column <==> |blocks| > 0)
  {
    if |blocks| > 0 {
      JoinContainsParts(blocks, ' ', 0, '/');
      forall k | 0 <= k < |blocks| ensures '\t' !in blocks[k] && '\n' !in blocks[k] {
        NoWhitespaceNoNewline(blocks[k]);
      }
      JoinExcludes(blocks, ' ', '\t');
      JoinExcludes(blocks, ' ', '\n');
    }
  }

  /** One line of `wg show wg0 allowed-ips` contributes its column when
      the peer has a block and nothing otherwise. */
  lemma LineAddressOfPeer(p: Peer)
    requires WellFormedKey(p.publicKey)
    requires forall k :: 0 <= k < |p.allowedIPs| ==> WellFormedBlock(p.allowedIPs[k])
    ensures LineAddress(p.publicKey + "\t" + AllowedIPsColumn(p.allowedIPs))
            == (if |p.allowedIPs| > 0 then Some(AllowedIPsColumn(p.allowedIPs)) else None)
  {
    var column := AllowedIPsColumn(p.allowedIPs);
    ColumnShape(p.allowedIPs);
    NoWhitespaceNoNewline(p.publicKey);
    SplitAround(p.publicKey, column, '\t');
    SplitWithoutSeparator(p.publicKey, '\t');
    SplitWithoutSeparator(column, '\t');
  }

  /** Parsing `wg show wg0 allowed-ips` yields one entry per peer that
      has blocks: that peer's whole space-separated column. */
  lemma {:induction false} UsedIPsOnShow(peers: seq<Peer>)
    requires WellFormed(Device(peers)) && WellFormedBlocks(Device(peers))
    ensures UsedIPs(ShowAllowedIPs(peers)) == BoundColumns(peers)
    decreases |peers|
  {
    if |peers| == 0 {
      assert Split("", '\n') == [""];
    } else {
      var p := peers[0];
      var line := p.publicKey + "\t" + AllowedIPsColumn(p.allowedIPs);
      var rest := ShowAllowedIPs(peers[1..]);
      assert WellFormed(Device(peers[1..])) && WellFormedBlocks(Device(peers[1..])) by {
        forall i, k | 0 <= i < |peers[1..]| && 0 <= k < |peers[1..][i].allowedIPs|
          ensures WellFormedBlock(peers[1..][i].allowedIPs[k])
        {
          assert peers[1..][i] == peers[i + 1];
        }
      }
      UsedIPsOnShow(peers[1..]);
      ColumnShape(p.allowedIPs);
      NoWhitespaceNoNewline(p.publicKey);
      assert '\n' !in line;
      assert ShowAllowedIPs(peers) == line + "\n" + rest;
      SplitAround(line, rest, '\n');
      SplitWithoutSeparator(line, '\n');
      var lines := Split(ShowAllowedIPs(peers), '\n');
      assert lines == [line] + Split(rest, '\n');
      assert lines[1..] == Split(rest, '\n');
      LineAddressOfPeer(p);
    }
  }
}
