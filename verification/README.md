# WireGuard peer controller, modelled in Dafny

The controller is a small HTTP service for one WireGuard interface, `wg0`. It has four routes:

- `GET /api/peer/:publicKey` asks whether a peer is configured.
- `POST /api/peer` adds a peer with its allowed IPs.
- `DELETE /api/peer/:publicKey` removes a peer.
- `GET /api/available-ip` hands out the lowest free host address of the subnet `10.200.200.0/32`.

Every route shells out to the `wg` tool. Existence is decided by parsing `wg show wg0 peers`. Used addresses come from parsing `wg show wg0 allowed-ips`. Peers are changed with `wg set`.

This project models the decision core of `index.js` as pure functions:

- **Allocator** (`allocator.dfy`): `findAvailableIP`. It splits the subnet into base and mask, keeps at most three `.`-fields of the base, and scans host numbers 2 through 254 for the first candidate `prefix.host/mask` that is not in the used list.
- **WgShow** (`wgshow.dfy`): the two parsers of `wg show` output.
  - The peer check: split on newlines, trim each line, exact match.
  - The used-address extraction: the second tab field of each line, kept when it is defined and contains `/`.
- **Handlers** (`handlers.dfy`): the four routes, as functions of two inputs:
  - the outcome of the `wg show` query (an error or the output text);
  - the outcome of the `wg set` call, where the route issues one.

  A route returns the HTTP response and the mutating call it issued.
- **Interface** (`interface.dfy`): an abstract `wg0`. It is a list of peers with keys and allowed-IP blocks. It provides what `wg show` prints for it, and a simplified effect of `wg set` on the peer list: keys are added and removed, and the blocks of the peer that is set are replaced. The tool's move of an allowed-IP block away from another peer is not modelled (see "## Left out"). The lemmas that compose whole requests use it: add then check, remove then check, allocate then add then allocate.
- **Strings** (`strings.dfy`): the JavaScript string operations the code relies on:
  - `split` and `join` with a one-character separator;
  - `trim`, over the JavaScript whitespace and line-terminator code points;
  - the decimal rendering of a number in a template literal.
- **Wrappers** (`wrappers.dfy`): `Option` and `Result`. `None` stands for JavaScript `null` and for `undefined`.

## Model

| member | source | states |
|---|---|---|
| Allocator.FindAvailableIP | index.js:150-168 | The result is absent exactly when every candidate of hosts 2..254 is in the used list. Otherwise it is the candidate with the lowest host number not in the list, with every lower candidate used, and it is never in the used list. |
| Allocator.ScanFrom | index.js:157-165 | The loop from a given host on returns nothing exactly when all remaining candidates are used. Otherwise it returns the first unused candidate at or after that host. |
| Allocator.FindAvailableIPIsLowestFree | index.js:150-168 | The allocator returns an address if and only if that address is the lowest free candidate, so its answer is determined by the subnet and the used list. |
| Allocator.ScanFindsLowest | index.js:157-165 | When a host is free and all lower hosts are used, the loop returns exactly that host's candidate. |
| Allocator.LowestIsUnique | index.js:157-165 | At most one host number is free with every lower host used. |
| Allocator.SubnetBase | index.js:151 | The base is a `/`-free prefix of the subnet that ends at the first `/` or at the end of the subnet. |
| Allocator.SubnetMask | index.js:151 | The mask never contains `/`. It is "undefined" when the subnet has no `/`. Otherwise the subnet starts with base, `/`, mask, followed by another `/` or the end of the subnet. |
| Allocator.PrefixFields | index.js:152 | `Allocator.SubnetPrefix` is the `.`-join (`Strings.Join`) of these fields. The prefix keeps one to three fields, none containing `.` or `/`. Their `.`-join is a prefix of the base that ends at a `.` or at the end of the base. It is the whole base when the base has fewer than three fields. |
| Allocator.CandidateLayout | index.js:158-159 | A candidate (`Allocator.Candidate`) starts with the prefix and a dot and ends with a slash and the mask. Between them are decimal digits with no leading zero that read back as the host number. |
| Allocator.CandidateInjective | index.js:158-159 | Different host numbers give different candidate strings. |
| Allocator.CandidatesBelow | index.js:154-159 | The candidates for hosts 2..limit-1 form a set of exactly limit-2 distinct strings. |
| Allocator.ExhaustionNeedsAllHosts | index.js:157-167 | The allocator returns null only when the used list holds at least 253 distinct entries. |
| Allocator.ParseCandidate | index.js:158-159 | Reading a candidate back on `/` and `.` gives the prefix fields, host number and mask it was built from. |
| Allocator.AllocationFormat | index.js:150-168 | A returned address parses as the subnet's prefix fields, a decimal host number in 2..254 and the subnet's mask. |
| Allocator.AllocationAdvances | index.js:139-142 | Once the returned address is added to the used list, the next allocation is never that same address and is still free. |
| Allocator.DefaultSubnetParts | index.js:69 | For the default subnet the prefix is "10.200.200" and the mask is "32". |
| Allocator.ScenarioTwoUsed | index.js:150-168 | With .2/32 and .3/32 in use in the default subnet, the allocator returns "10.200.200.4/32". |
| Allocator.ScenarioAllUsed | index.js:157-167 | A used list that holds every candidate, in any order, makes the allocator return null. |
| WgShow.PeerList | index.js:116 | There is one entry per newline-separated line of the output. Entry i is line i with only whitespace removed around it, has no whitespace at either end, and contains no newline. |
| WgShow.PeerExists | index.js:117 | A key that is found has no leading or trailing whitespace and no newline. |
| WgShow.PeerExistsIffPaddedLine | index.js:116-117 | A trimmed key is found if and only if some output line is the key surrounded only by whitespace. |
| WgShow.LineAddress | index.js:134-135 | A line yields an address exactly when it has a tab and its second tab field contains `/`. The address is that second field and contains no tab. The line starts with the first tab field, a tab and the address. |
| WgShow.AddressesOf | index.js:133-135 | An address is extracted if and only if some line yields it. There are never more addresses than lines. |
| WgShow.UsedIPs | index.js:133-135 | Every extracted entry contains `/`. An entry is extracted if and only if it is the second tab field of some output line and contains `/`. |
| Strings.Split | index.js:116 | `split` gives at least one field, no field contains the separator, and joining the fields gives back the input. |
| Strings.FirstField | index.js:151 | `split(sep)[0]` is a separator-free prefix of the string that ends at the first separator or at the end of the string. |
| Strings.SecondField | index.js:134 | `split(sep)[1]` is undefined exactly when the string has no separator. Otherwise it is the separator-free text right after the first field and the separator, followed by another separator or the end of the string. |
| Strings.JoinPrefix | index.js:152 | The join of the first k parts is a prefix of the join of all parts, followed by the separator when parts remain. |
| Strings.SplitJoin | index.js:152 | Splitting a join of separator-free parts gives the parts back. |
| Strings.Trim | index.js:116 | `trim` gives a string with no whitespace at either end, no longer than the input. |
| Strings.TrimIsPadding | index.js:116 | The trimmed string occurs in the input with only whitespace before and after it. |
| Strings.PaddingTrims | index.js:116 | A string with no whitespace at either end, padded with whitespace, trims back to itself. |
| Strings.NatToDecimal | index.js:158 | The rendering of a number is a non-empty string of digits with no leading zero. |
| Strings.DecimalRoundTrip | index.js:158 | Reading the rendering of a number back gives the number. |
| Handlers.CheckPeer | index.js:9-21 | The route answers 200 "Peer exists." exactly when the key is listed, and 404 "Peer not found." exactly when the query succeeded without listing it. It answers 500 exactly when the query failed, with "Failed to check peer in WireGuard." and the query's error value. |
| Handlers.AddPeer | index.js:24-42 | A failed query answers 500 "Failed to check peer in WireGuard." with its error and issues no call. A listed key answers 400 "Peer already exists." and issues no call. Otherwise the route issues the set call with the given allowed IPs. It answers 201 "Peer added." exactly when that call succeeds, and 500 "Failed to add peer." with the call's error when it fails. |
| Handlers.RemovePeerRoute | index.js:45-63 | A remove call is issued exactly when the key is listed. An unlisted key answers 200 "Peer not found.". A successful removal answers 200 "Peer removed.". The route answers 500 exactly when the query or the removal fails: "Failed to check peer in WireGuard." with the query's error, or "Failed to remove peer." with the call's error. |
| Handlers.GetAvailableIPAddress | index.js:123-147 | A failed query passes its error on. Otherwise the function succeeds exactly when the used addresses parsed from the output do not exhaust the subnet, with the lowest free address. Exhaustion gives the error "No available IP address found in the subnet". |
| Handlers.AvailableIP | index.js:68-78 | The route answers 200 with the address exactly when the lookup on the default subnet succeeds. Otherwise it answers 500 with "Failed to get available IP: " and the error's message: the query's message when the query fails, "No available IP address found in the subnet" when the subnet is exhausted. |
| Handlers.Perform | index.js:83-106 | A call that is not issued, or that fails, leaves the interface unchanged. A successful set adds the key and binds it to the comma-separated blocks of its allowed-IPs argument. Every entry for that key holds exactly those blocks, and every peer with another key keeps its exact entry. A successful remove takes the key out and keeps exactly the peers with other keys. |
| Handlers.AddThenExists | index.js:24-42 | Adding an unlisted well-formed key answers 201, and a check issued afterwards answers 200. |
| Handlers.AddExistingIsConflict | index.js:30-31 | Adding a listed key answers 400, issues no call and leaves the interface unchanged. |
| Handlers.RemoveThenExists | index.js:45-63 | Removing a listed key answers 200 "Peer removed.", and a check issued afterwards answers 404. |
| Handlers.RemoveAbsentIsNoop | index.js:51-52 | Removing an unlisted key answers 200 "Peer not found." while the check route answers 404 for the same key. It issues no call and leaves the interface unchanged. |
| Handlers.RejectedMutationChangesNothing | index.js:33-35 | When the set call fails, the route answers 500 "Failed to add peer." with the call's error value and the interface is unchanged. |
| Handlers.RemoveRejectedChangesNothing | index.js:54-56 | When the remove call fails, the route answers 500 "Failed to remove peer." with the call's error value. The interface is unchanged and a later check still answers 200. |
| Handlers.EmptyKeyAlwaysListed | index.js:116-117 | The empty key is always found, because the output of `wg show wg0 peers` is empty or ends with a newline, so its last line is "". Only an add can carry an empty key, since the check route's path parameter is never empty. That add is answered 400 "Peer already exists." with no call. |
| Handlers.ScenarioTwoPeers | index.js:9-21 | With peers "abc123=" and "def456=" configured, checking "abc123=" answers 200 and checking "zzz=" answers 404. |
| Handlers.AllocationAvoidsSingleAddressPeers | index.js:68-78 | Against a well-formed interface, allocation succeeds exactly when the allowed-IP columns do not exhaust the subnet. The address it hands out is never the block of a single-address peer. |
| Handlers.ExhaustedSubnetIsServerError | index.js:71-73 | When the interface's columns cover every candidate of the default subnet, the route answers 500 "Failed to get available IP: No available IP address found in the subnet". |
| Handlers.AllocateAddAllocate | index.js:68-78 | Allocating an address, binding it to a new peer and allocating again never hands out the same address twice. |
| Handlers.MultiAddressPeerNotSeen | index.js:133-135 | A peer holding both .2/32 and .3/32 has one column, "10.200.200.2/32 10.200.200.3/32", which is not a candidate, so allocation hands out .2/32 again. |
| Interface.SetPeer | index.js:83-84 | Setting a peer adds its key and binds it to exactly the given blocks: every entry with that key holds those blocks. It updates an existing peer in place and appends a new one, and leaves every other peer as it was. |
| Interface.SetPeerKeepsKeysUnique | index.js:83-84 | Setting a peer never lists a key twice. |
| Interface.RemovePeer | index.js:96-97 | Removing a peer takes its key out of the key set and keeps every other peer. Keys stay unique. |
| Interface.PeerExistsOnShow | index.js:109-118 | On the output of `wg show wg0 peers`, the check finds exactly the configured keys and the empty key. |
| Interface.UsedIPsOnShow | index.js:123-135 | On the output of `wg show wg0 allowed-ips`, extraction yields, in table order, each peer's whole space-separated column, for every peer that has blocks. |
| Interface.LineAddressOfPeer | index.js:134-135 | One line of `wg show wg0 allowed-ips` contributes the peer's column when the peer has blocks, and nothing when it shows "(none)". |

## Left out

- The Express server, JSON body parsing, the listening port and `console.log`/`console.error` are left out. They are I/O with no effect on the decisions.
- The shell commands are not modelled as strings. A `wg show` command is an input, either a failure diagnostic or its output. A `wg set` command is a `Call` the route issues, with its outcome supplied as a `Mutation`. Shell injection through a key or an allowed-IPs value is not modelled.
- The error a failed `exec` reports is modelled as one string, `diagnostic`, standing for that error value. At index.js:14, 29, 35, 50 and 56 the client receives the serialised Error object. JSON serialisation keeps its enumerable fields (`code`, `killed`, `signal`, `cmd`) and drops `message`, which holds the tool's stderr. So the tool's stderr reaches only the server's log, not the client. Only index.js:73 puts `err.message` into the response text. The model does not distinguish the object from its message.
- The callbacks run asynchronously, and concurrent requests can interleave between the query and the `wg set`. The model treats each request as one atomic step.
- A request body without `publicKey` makes JavaScript pass `undefined`. This is not modelled: keys are always strings.
- The format of `wg show` output is an assumption about the external tool. It is used only by the Interface composition lemmas, never by the parsers.
  - `wg show wg0 peers` is assumed to print one key and a newline per peer.
  - `wg show wg0 allowed-ips` is assumed to print the key, a tab, and the blocks joined by spaces (or "(none)"), then a newline.
- `wg set`'s own parsing of the allowed-IPs argument is modelled only as a split on commas. Validating CIDR blocks is left out.
- Interface.SetPeer: in WireGuard an allowed-IP block belongs to at most one peer, and `wg set wg0 peer B allowed-ips X` takes X away from any other peer that holds it. The model leaves the other peer's blocks in place and only replaces the blocks of the peer that is set. The route lemmas depend only on keys and on the new peer's own column, so they are unaffected. But a state reached by binding an address already held by another peer (for example the re-issued `.2` of Handlers.MultiAddressPeerNotSeen) differs from the tool's.
- Handlers.AvailableIP: the route always allocates from the default subnet `10.200.200.0/32`, as the code does, even though that subnet's mask is `/32`. The allocator is modelled for any subnet string, including the case without `/`, where JavaScript renders the missing mask as "undefined".
- WgShow.PeerExists: the existence check is an exact, case-sensitive comparison with trimmed lines. Keys padded with whitespace are never found, and the empty key is always found (Handlers.EmptyKeyAlwaysListed).
- WgShow.UsedIPs: the extraction takes a peer's whole allowed-IP column as one entry, so the blocks of a peer with several addresses are not recognised as used (Handlers.MultiAddressPeerNotSeen). This is stated as the code behaves and is not corrected.
