/** The two parsers of `wg show` output in the controller: the peer
    existence test of `checkPeerInWireGuard` and the used-address
    extraction of `getAvailableIPAddress`. Both are pure functions of the
    command's standard output. */
module WgShow {
  import opened Wrappers
  import opened Strings

  /** `stdout.split('\n').map(peer => peer.trim())`. */
  function PeerList(stdout: string): (peers: seq<string>)
    ensures |peers| == |Split(stdout, '\n')|
    ensures forall i :: 0 <= i < |peers| ==> IsTrimmed(peers[i]) && '\n' !in peers[i]
    ensures forall i :: 0 <= i < |peers| ==> IsPadding(Split(stdout, '\n')[i], peers[i])
  {
    var lines := Split(stdout, '\n');
    forall i | 0 <= i < |lines| ensures IsPadding(lines[i], Trim(lines[i])) {
      TrimIsPadding(lines[i]);
    }
    seq(|lines|, i requires 0 <= i < |lines| => Trim(lines[i]))
  }

  /** `peers.includes(publicKey)`: exact, case-sensitive equality with
      some trimmed line. A key with surrounding whitespace or an embedded
      newline can never be found. */
  function PeerExists(stdout: string, publicKey: string): (found: bool)
    ensures found ==> IsTrimmed(publicKey) && '\n' !in publicKey
  {
    publicKey in PeerList(stdout)
  }

  /** Existence is decided line by line: the key is found exactly when
      some line of the output is the key padded with whitespace. */
  lemma PeerExistsIffPaddedLine(stdout: string, publicKey: string)
    requires IsTrimmed(publicKey)
    ensures PeerExists(stdout, publicKey) <==> HasPaddedLine(Split(stdout, '\n'), publicKey)
  {
    var lines := Split(stdout, '\n');
    var peers := PeerList(stdout);
    if PeerExists(stdout, publicKey) {
      var i :| 0 <= i < |peers| && peers[i] == publicKey;
      TrimIsPadding(lines[i]);
    }
    if HasPaddedLine(lines, publicKey) {
      var i :| 0 <= i < |lines| && IsPadding(lines[i], publicKey);
      PaddingTrims(lines[i], publicKey);
      assert peers[i] == publicKey;
    }
  }

  /** Some line of `lines` is `key` padded with whitespace. */
  ghost predicate HasPaddedLine(lines: seq<string>, key: string) {
    exists i :: 0 <= i < |lines| && IsPadding(lines[i], key)
  }

  /** The used address a line contributes: its second tab-separated field
      when that field is defined and contains `/`. The line then starts
      with a tab-free key, a tab and the address, followed by a tab or the
      end of the line. */
  function LineAddress(line: string): (r: Option<string>)
    ensures r.Some? <==> '\t' in line && '/' in SecondField(line, '\t').value
    ensures r.Some? ==> r == SecondField(line, '\t')
    ensures r.Some? ==> '/' in r.value && '\t' !in r.value
    ensures r.Some? ==> FirstField(line, '\t') + "\t" + r.value <= line
  {
    match SecondField(line, '\t')
    case Some(field) => if '/' in field then Some(field) else None
    case None => None
  }

  /** The filtered map over the lines, in order. */
  function AddressesOf(lines: seq<string>): (ips: seq<string>)
    ensures |ips| <= |lines|
    ensures forall ip :: ip in ips <==> exists i :: 0 <= i < |lines| && LineAddress(lines[i]) == Some(ip)
    decreases |lines|
  {
    if |lines| == 0 then []
    else
      var rest := AddressesOf(lines[1..]);
      assert forall i :: 1 <= i < |lines| ==> lines[1..][i - 1] == lines[i];
      match LineAddress(lines[0])
      case Some(ip) => [ip] + rest
      case None => rest
  }

  /** `stdout.split('\n').map(line => line.split('\t')[1])
      .filter(ip => ip && ip.includes('/'))`: every extracted address is
      the second tab field of some output line and contains `/`, and every
      such field is extracted. */
  function UsedIPs(stdout: string): (ips: seq<string>)
    ensures forall ip :: ip in ips ==> '/' in ip
    ensures forall ip :: ip in ips <==>
      exists i :: 0 <= i < |Split(stdout, '\n')|
        && SecondField(Split(stdout, '\n')[i], '\t') == Some(ip) && '/' in ip
  {
    AddressesOf(Split(stdout, '\n'))
  }
}
